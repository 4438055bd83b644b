/** Moves after which the cache is wrong, on concrete servers. Case is told apart here, and every
    directory is spelled with a leading backslash. */
module MoveExamples {
  import opened CString
  import opened PathKeys
  import opened PathSplit
  import opened CacheModel
  import opened Coherence
  import opened MovePath

  ghost predicate Identity(fold: Fold) {
    forall c: Char :: fold(c) == c
  }

  lemma IdentityPlace(fold: Fold, path: CStr)
    requires Identity(fold)
    ensures Place(fold, path) == StripSlash(path)
  {
  }

  lemma IdentityText(fold: Fold, a: CStr, b: CStr)
    requires Identity(fold)
    ensures SameText(fold, a, b) <==> a == b
  {
  }

  function Dots(): seq<FileInfo> {
    [FileInfo(".", 0, 0, 0), FileInfo("..", 0, 0, 0)]
  }

  lemma NamesOfDots()
    ensures Names(Dots()) == FRESH
  {
    var l := Dots();
    assert l[0].fname == "." && l[1].fname == "..";
    assert "." in Names(l) && ".." in Names(l);
  }

  // ----- a share whose name is longer by one character

  const SHARE_SRC: CStr := "\\data\\d"
  const SHARE_DST: CStr := "\\data2\\e"
  const SHARE_GOT: CStr := "\\data\\e"

  const SRC: CStr := SHARE_SRC + [SLASH] + "a"
  const DST: CStr := SHARE_DST + [SLASH] + "b"
  const GOT: CStr := SHARE_GOT + [SLASH] + "b"

  /** The share "data" has the directories d, with the file a, and e, of which a listing is linked. */
  function TwoDirectories(): World {
    World([Listing(SHARE_GOT, 0, Dots(), false)],
          map["data" := {"d", "e"}, "data\\d" := FRESH + {"a"}, "data\\e" := FRESH])
  }

  lemma SharePaths()
    ensures ParentKey(SRC) == SHARE_SRC && ParentKey(DST) == SHARE_DST && ParentKey(GOT) == SHARE_GOT
    ensures LeafName(GOT) == "b"
    ensures StripSlash(SHARE_SRC) == "data\\d" && StripSlash(SHARE_DST) == "data2\\e"
    ensures StripSlash(SHARE_GOT) == "data\\e"
    ensures StripSlash(SRC) == "data\\d\\a" && StripSlash(GOT) == "data\\e\\b"
  {
    hide ParentKey, LeafName, LastSlash;
    SplitAtSlash(SHARE_SRC, "a");
    SplitAtSlash(SHARE_DST, "b");
    SplitAtSlash(SHARE_GOT, "b");
  }

  /** What is to go to the share "data2" goes to "data". */
  lemma TargetInWrongShare(fold: Fold)
    requires Identity(fold)
    ensures RenameTarget(fold, SRC, "\\d\\a", DST) == Renamed(GOT)
  {
    hide SameText;
    IdentityText(fold, SRC[..5], DST[..5]);
    assert SRC[..5] == "\\data" == DST[..5];
    assert DST[6..] == "\\e\\b";
    assert SRC[..5] + [SLASH] + "e\\b" == GOT;
  }

  /** The linked listing of \data\e lacks the file afterwards. */
  lemma MovedIntoWrongShare(c: Config)
    requires Identity(c.keys.fold)
    ensures var fold, w, spelled := c.keys.fold, TwoDirectories(), {SHARE_SRC, SHARE_DST, SHARE_GOT};
            var op := MoveFile(SRC, DST, GOT, true);
            && RenameTarget(fold, SRC, "\\d\\a", DST) == Renamed(GOT)
            && OneSpelling(fold, spelled) && KeysOf(op) <= spelled
            && Feasible(fold, w.dirs, op) && Coherent(fold, w, spelled)
            && !Coherent(fold, Step(c, w, op), spelled)
  {
    hide ParentKey, LeafName, Place, SameText, Names, Dots, RenameTarget, StripSlash;
    var fold, w, spelled := c.keys.fold, TwoDirectories(), {SHARE_SRC, SHARE_DST, SHARE_GOT};
    var op := MoveFile(SRC, DST, GOT, true);
    TargetInWrongShare(fold);
    SharePaths();
    NamesOfDots();
    forall p: CStr
      ensures Place(fold, p) == StripSlash(p)
    {
      IdentityPlace(fold, p);
    }
    forall a, b: CStr
      ensures SameText(fold, a, b) <==> a == b
    {
      IdentityText(fold, a, b);
    }
    MoveFileCoherentIff(c, w, spelled, op);
    assert w.linked[0] in w.linked;
  }

  // ----- a directory that is not empty

  const ROOT: CStr := "\\data"
  const MOVED: CStr := ROOT + [SLASH] + "d"
  const THERE: CStr := ROOT + [SLASH] + "e"

  function WithFile(): seq<FileInfo> {
    [FileInfo("a", 0, 0, 0)] + Dots()
  }

  lemma NamesWithFile()
    ensures Names(WithFile()) == FRESH + {"a"}
  {
    var l := WithFile();
    assert l[0].fname == "a" && l[1].fname == "." && l[2].fname == "..";
    assert "a" in Names(l) && "." in Names(l) && ".." in Names(l);
  }

  /** The share has one directory, with one file, and its listing is linked. */
  function OneDirectory(): World {
    World([Listing(MOVED, 0, WithFile(), false)], map["data" := {"d"}, "data\\d" := FRESH + {"a"}])
  }

  lemma RootPaths()
    ensures ParentKey(MOVED) == ROOT == ParentKey(THERE)
    ensures StripSlash(ROOT) == "data" && StripSlash(MOVED) == "data\\d" && StripSlash(THERE) == "data\\e"
  {
    hide ParentKey, LeafName, LastSlash;
    SplitAtSlash(ROOT, "d");
    SplitAtSlash(ROOT, "e");
  }

  lemma Apart(fold: Fold)
    ensures !AtOrBelow(fold, "data", "data\\d") && !AtOrBelow(fold, "data", "data\\e")
    ensures !AtOrBelow(fold, "data\\d", "data\\e") && !AtOrBelow(fold, "data\\e", "data\\d")
  {
    assert "data\\d"[5] == 'd' && "data\\e"[5] == 'e';
  }

  /** The listing stays, and is wrong. */
  lemma MovedWithItsFile(c: Config)
    requires Identity(c.keys.fold)
    ensures var fold, w, spelled := c.keys.fold, OneDirectory(), {ROOT, MOVED};
            && OneSpelling(fold, spelled) && Movable(fold, w.dirs, MOVED, THERE) && Coherent(fold, w, spelled)
            && !Coherent(fold, MoveDir(c, w, MOVED, THERE, THERE), spelled)
  {
    hide ParentKey, LeafName, Place, SameText, Names, WithFile, StripSlash, MoveDir, NoNewName;
    var fold, w, spelled := c.keys.fold, OneDirectory(), {ROOT, MOVED};
    RootPaths();
    NamesWithFile();
    forall p: CStr
      ensures Place(fold, p) == StripSlash(p)
    {
      IdentityPlace(fold, p);
    }
    forall a, b: CStr
      ensures SameText(fold, a, b) <==> a == b
    {
      IdentityText(fold, a, b);
    }
    Apart(fold);
    MoveDirCoherentIff(c, w, spelled, MOVED, THERE, THERE);
    assert w.linked[0] in w.linked;
    assert "a" in FRESH + {"a"} && "a" !in FRESH;
  }
}
