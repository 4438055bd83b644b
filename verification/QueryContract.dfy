/** What NdpQueryPathInfo must return: the documented error codes over a directory tree, and
    a cache that gives the same answers. */
module QueryContract {
  import opened CString
  import opened ErrorCodes
  import opened PathKeys
  import PathSplit
  import opened PathParser
  import opened ConnectionRuns
  import opened Wrappers
  import opened CacheModel
  import opened Coherence
  import opened QueryPath

  datatype Kind = Missing | File | Directory

  /** What is at each path. */
  type Tree = CStr -> Kind

  /** The last component removed. */
  function UpperPath(path: CStr): CStr
    requires LastSlash(path) >= 0
  {
    path[..LastSlash(path)]
  }

  /** The root, which is not looked up, is a directory. */
  predicate ParentIsDirectory(tree: Tree, path: CStr) {
    LastSlash(path) <= 0 || tree(UpperPath(path)) == Directory
  }

  /** The documented codes: success for what exists, FILE_NOT_FOUND for a missing name in an
      existing directory, PATH_NOT_FOUND for everything else. */
  function Documented(tree: Tree, path: CStr): int {
    if tree(path) != Missing then NO_ERROR
    else if ParentIsDirectory(tree, path) then ERROR_FILE_NOT_FOUND
    else ERROR_PATH_NOT_FOUND
  }

  /** An answer succeeds exactly for what exists and then tells directories from files. */
  predicate Truthful(tree: Tree, path: CStr, a: Attr) {
    && (a.rc == NO_ERROR <==> tree(path) != Missing)
    && (a.rc == NO_ERROR ==> (a.directory <==> tree(path) == Directory))
  }

  /** The server tells the truth about the path, and if need be can be asked about the one above. */
  predicate Reachable(tree: Tree, path: CStr, a: Attr, upper: Attr) {
    && Truthful(tree, path, a)
    && (LastSlash(path) > 0 ==> Truthful(tree, UpperPath(path), upper) && upper.rc != ERROR_REM_NOT_LIST)
  }

  /** Which code the server picks for a missing path decides: the documented status comes out
      exactly when the path exists, or the server says FILE_NOT_FOUND, or the parent is no
      directory and the server says anything but the three codes that are passed on. The answer
      that counts is the second one if the server was lost at first and could be connected again. */
  lemma StatusIsDocumentedIff(tree: Tree, path: CStr, env: Env, a: Attr)
    requires a == if env.first.rc == 51 && env.lost.Connected? then env.second else env.first
    requires Reachable(tree, path, a, env.upper)
    ensures FromServer(path, env) == Documented(tree, path) <==>
            || tree(path) != Missing
            || a.rc == ERROR_FILE_NOT_FOUND
            || (!ParentIsDirectory(tree, path) &&
                a.rc !in {ERROR_ACCESS_DENIED, ERROR_INVALID_PARAMETER, ERROR_REM_NOT_LIST})
  {
    assert PassedFromServer(a.rc) == ERROR_FILE_NOT_FOUND <==> a.rc == ERROR_FILE_NOT_FOUND;
  }

  /** In particular for every server that says PATH_NOT_FOUND only when the parent is no directory. */
  lemma SoundServerMeetsContract(tree: Tree, path: CStr, env: Env, a: Attr)
    requires a == if env.first.rc == 51 && env.lost.Connected? then env.second else env.first
    requires Reachable(tree, path, a, env.upper)
    requires tree(path) == Missing ==>
               a.rc == ERROR_FILE_NOT_FOUND || (a.rc == ERROR_PATH_NOT_FOUND && !ParentIsDirectory(tree, path))
    ensures FromServer(path, env) == Documented(tree, path)
  {
    StatusIsDocumentedIff(tree, path, env, a);
  }

  /** The status for every answer, in numbers: 2 is FILE_NOT_FOUND, 3 PATH_NOT_FOUND, 5
      ACCESS_DENIED, 51 REM_NOT_LIST, 87 INVALID_PARAMETER. */
  lemma StatusTable(l: Link, path: CStr, env: Env, a: Attr)
    requires a == if env.first.rc == 51 && env.lost.Connected? then env.second else env.first
    ensures var rc := AskServer(l, path, env).rc;
            && (a.rc in {0, 3, 5, 51, 87} ==> rc == a.rc)
            && (a.rc !in {0, 2, 3, 5, 51, 87} ==> rc == 3)
            && (a.rc == 2 ==>
                  if LastSlash(path) <= 0 then rc == 2
                  else if env.upper.rc == 0 then rc == (if env.upper.directory then 2 else 3)
                  else rc == (if env.upper.rc == 51 then 51 else 3))
  {
    hide LastSlash;
  }

  /** After a server was lost and connected again, it is the second answer that is reported, over
      the new handle, and the dead one is disconnected; if it was not lost, the first. */
  lemma AnswerIsReported(tree: Tree, l: Link, path: CStr, env: Env, a: Attr)
    requires a == if env.first.rc == 51 && env.lost.Connected? then env.second else env.first
    requires Truthful(tree, path, a)
    ensures var answer := AskServer(l, path, env);
            && (answer.rc == NO_ERROR <==> tree(path) != Missing)
            && answer.reported == (if tree(path) == Missing then None else Some(ReportedName(path, l.srv.share_name)))
            && answer.link.srv == l.srv
            && answer.link.closed == (if env.first.rc == 51 then l.closed + [l.cli] else l.closed)
            && answer.link.cli == if env.first.rc == 51 && env.lost.Connected? then env.lost.handle else l.cli
  {
    hide LastSlash;
  }

  /** The name reported: the last component, and the share for a path that ends in a backslash. */
  lemma ReportedNameMeans(a: CStr, name: CStr, share: CStr)
    requires SLASH !in name
    ensures ReportedName(a + [SLASH] + name, share) == if name == [] then share else name
  {
    hide LastSlash;
    SplitAtSlash(a, name);
  }

  /** The cache answers for paths without wildcards if its hit is at most 15 seconds old, and then
      nobody is asked; every other path is asked about. */
  lemma FreshHitIff(keys: Keying, linked: seq<Listing>, fold: Fold, level: int, l: Link, szPath: CStr, now: ULONG,
                    env: Env)
    requires '*' !in szPath && '?' !in szPath
    ensures var hit := FindPath(keys, linked, szPath, now);
            var answer := Query(keys, linked, fold, level, l, szPath, now, env);
            if hit.Some? && hit.value.age <= 15 then
              answer == Result(0, Some(ReportedName(hit.value.info.fname, l.srv.share_name)), l)
            else answer == Ask(fold, level, l, szPath, env)
  {
  }

  /** What is answered when the server cannot be asked. */
  lemma CannotAsk(fold: Fold, level: int, l: Link, szPath: CStr, env: Env)
    ensures Attempts(fold, level, l.srv, szPath) && env.parse.Refused? ==>
              var rc := env.parse.rc;
              Ask(fold, level, l, szPath, env) == Result(if rc in {0, 2, 3, 5, 87} then rc else 3, None, l)
    ensures !(Attempts(fold, level, l.srv, szPath) && env.parse.Refused?) && !env.alive && env.echo.Refused? ==>
              Ask(fold, level, l, szPath, env) == Result(3, None, Parse(fold, l, level, szPath, env.parse))
  {
  }

  /** The connection afterwards is that of a run: the path is parsed, a silent server is connected
      again, and so is a lost one. */
  lemma AskIsRun(fold: Fold, level: int, l: Link, szPath: CStr, env: Env)
    requires !(Attempts(fold, level, l.srv, szPath) && env.parse.Refused?) && (env.alive || env.echo.Connected?)
    ensures var l1 := Next(fold, level, l, Call(szPath, env.parse));
            var l2 := if env.alive then l1 else Next(fold, level, l1, EchoFailed(env.echo));
            Ask(fold, level, l, szPath, env).link ==
            if env.first.rc == 51 then Next(fold, level, l2, RemoteLost(env.lost)) else l2
  {
    hide Parse, Attempts, IsTestPath;
  }

  /** A wildcard is answered without asking; a wildcard names nothing, so the answer is the
      documented one exactly when the parent is a directory. */
  lemma WildcardIsDocumentedIff(keys: Keying, linked: seq<Listing>, fold: Fold, level: int, l: Link, szPath: CStr,
                                now: ULONG, env: Env, full: Tree)
    requires ('*' in szPath || '?' in szPath) && full(szPath) == Missing
    ensures Query(keys, linked, fold, level, l, szPath, now, env).rc == Documented(full, szPath) <==>
            ParentIsDirectory(full, szPath)
  {
  }

  // ----- answers from the cache

  /** Paths that differ in case only are the same to the server. */
  ghost predicate IgnoresCase(fold: Fold, full: Tree) {
    forall a, b :: SameText(fold, a, b) ==> full(a) == full(b)
  }

  /** A leading backslash makes no difference. */
  ghost predicate IgnoresLeadingSlash(full: Tree) {
    forall p: CStr {:trigger full(p)} :: PathSplit.StripSlash(p) == p ==> full([SLASH] + p) == full(p)
  }

  /** The names in `dirs` are what exists in those directories. */
  ghost predicate Lists(fold: Fold, full: Tree, dirs: Dirs) {
    forall d: CStr, n :: Place(fold, d) in dirs && n in dirs[Place(fold, d)] ==>
      SLASH !in n && full(d + [SLASH] + n) != Missing
  }

  /** What exists is in a directory. */
  ghost predicate Parented(full: Tree) {
    forall p: CStr {:trigger full(p)} :: full(p) != Missing ==> ParentIsDirectory(full, p)
  }

  /** A directory contains itself and its parent. */
  ghost predicate Dotted(full: Tree) {
    forall p: CStr {:trigger full(p)} :: LeafName(p) in FRESH && ParentIsDirectory(full, p) ==> full(p) != Missing
  }

  /** `full` tells what is at each mounted path of a server with these directories. */
  ghost predicate Describes(fold: Fold, dirs: Dirs, full: Tree) {
    IgnoresCase(fold, full) && IgnoresLeadingSlash(full) && Lists(fold, full, dirs) && Parented(full) && Dotted(full)
  }

  /** "." or ".." up to case. */
  predicate IsDot(fold: Fold, name: CStr) {
    exists dot :: dot in FRESH && SameText(fold, dot, name)
  }

  /** A hit in a coherent cache, under the name asked for up to case, is about something that does
      not exist if and only if the parent is no directory. The listing that answered is then left
      from a directory that was removed, and the name is "." or "..". */
  lemma HitWrongIff(keys: Keying, w: World, spelled: set<CStr>, full: Tree, szPath: CStr, now: ULONG)
    requires Coherent(keys.fold, w, spelled) && Describes(keys.fold, w.dirs, full)
    requires FindPath(keys, w.linked, szPath, now).Some?
    ensures full(szPath) == Missing <==> !ParentIsDirectory(full, szPath)
    ensures full(szPath) == Missing ==> IsDot(keys.fold, LeafName(szPath))
    ensures SameText(keys.fold, FindPath(keys, w.linked, szPath, now).value.info.fname, LeafName(szPath))
    ensures SLASH !in FindPath(keys, w.linked, szPath, now).value.info.fname
  {
    hide IgnoresCase, IgnoresLeadingSlash, Lists, Dotted, FindPath, LeafName, ParentKey, SameText, Coherent, Place,
      ParentIsDirectory;
    var d := HitName(keys, w, spelled, szPath, now);
    var n := FindPath(keys, w.linked, szPath, now).value.info.fname;
    JoinedSameText(keys.fold, d, n, ParentKey(szPath), LeafName(szPath));
    SameKind(keys.fold, full, d + [SLASH] + n, ParentKey(szPath) + [SLASH] + LeafName(szPath));
    Rebuilt(full, szPath);
    assert full(szPath) != Missing ==> ParentIsDirectory(full, szPath);
    if Place(keys.fold, d) in w.dirs {
      ListedExists(keys.fold, full, w.dirs, d, n);
    } else {
      FreshNames(n);
      if ParentIsDirectory(full, szPath) {
        DotExists(keys.fold, full, szPath, n);
      }
    }
  }

  /** The directory whose listing answered. */
  lemma HitName(keys: Keying, w: World, spelled: set<CStr>, szPath: CStr, now: ULONG) returns (d: CStr)
    requires Coherent(keys.fold, w, spelled) && FindPath(keys, w.linked, szPath, now).Some?
    ensures SameText(keys.fold, d, ParentKey(szPath))
    ensures var n := FindPath(keys, w.linked, szPath, now).value.info.fname;
            n in Expected(keys.fold, w.dirs, d) && SameText(keys.fold, n, LeafName(szPath))
  {
    hide SameText, ParentKey, LeafName, FindInfo, Lookup, Names, HasWildcard, Expected;
    var parent, leaf := ParentKey(szPath), LeafName(szPath);
    var k := LookupHit(keys, w.linked, parent, leaf, now);
    var l := w.linked[k];
    d := l.path;
    NamedInListing(keys.fold, l.infos, leaf);
  }

  lemma ListedExists(fold: Fold, full: Tree, dirs: Dirs, d: CStr, n: CStr)
    requires Lists(fold, full, dirs) && Place(fold, d) in dirs && n in dirs[Place(fold, d)]
    ensures SLASH !in n && full(d + [SLASH] + n) != Missing
  {
  }

  lemma FreshNames(n: CStr)
    requires n in FRESH
    ensures SLASH !in n
  {
  }

  /** In a directory, a name that is "." or ".." up to case exists. */
  lemma DotExists(fold: Fold, full: Tree, szPath: CStr, n: CStr)
    requires Dotted(full) && IgnoresCase(fold, full) && IgnoresLeadingSlash(full)
    requires n in FRESH && SameText(fold, n, LeafName(szPath)) && ParentIsDirectory(full, szPath)
    ensures full(szPath) != Missing
  {
    hide IgnoresCase, SameText, IgnoresLeadingSlash, Dotted, ParentIsDirectory, ParentKey, LeafName;
    var p := ParentKey(szPath) + [SLASH] + n;
    FreshNames(n);
    SplitAtSlash(ParentKey(szPath), n);
    SameParent(full, szPath, n);
    DottedAt(full, p);
    SameTextReflexive(fold, ParentKey(szPath));
    JoinedSameText(fold, ParentKey(szPath), n, ParentKey(szPath), LeafName(szPath));
    SameKind(fold, full, p, ParentKey(szPath) + [SLASH] + LeafName(szPath));
    Rebuilt(full, szPath);
  }

  lemma DottedAt(full: Tree, p: CStr)
    requires Dotted(full) && LeafName(p) in FRESH && ParentIsDirectory(full, p)
    ensures full(p) != Missing
  {
  }

  lemma SameParent(full: Tree, szPath: CStr, n: CStr)
    requires SLASH !in n
    ensures ParentIsDirectory(full, ParentKey(szPath) + [SLASH] + n) == ParentIsDirectory(full, szPath)
  {
    hide LastSlash;
    SplitAtSlash(ParentKey(szPath), n);
  }

  lemma SameTextReflexive(fold: Fold, a: CStr)
    ensures SameText(fold, a, a)
  {
  }

  /** So a hit for any other name is about something that exists. */
  lemma HitExists(keys: Keying, w: World, spelled: set<CStr>, full: Tree, szPath: CStr, now: ULONG, share: CStr)
    requires Coherent(keys.fold, w, spelled) && Describes(keys.fold, w.dirs, full)
    requires LeafName(szPath) != [] && !IsDot(keys.fold, LeafName(szPath))
    requires FindPath(keys, w.linked, szPath, now).Some?
    ensures full(szPath) != Missing
    ensures SameText(keys.fold, ReportedName(FindPath(keys, w.linked, szPath, now).value.info.fname, share),
                     LeafName(szPath))
  {
    HitWrongIff(keys, w, spelled, full, szPath, now);
    NonEmptyName(keys.fold, FindPath(keys, w.linked, szPath, now).value.info.fname, LeafName(szPath), share);
  }

  lemma NamedInListing(fold: Fold, infos: seq<FileInfo>, name: CStr)
    requires FindInfo(fold, infos, name) < |infos|
    ensures infos[FindInfo(fold, infos, name)].fname in Names(infos)
    ensures SameText(fold, infos[FindInfo(fold, infos, name)].fname, name)
  {
  }

  lemma NonEmptyName(fold: Fold, n: CStr, leaf: CStr, share: CStr)
    requires SameText(fold, n, leaf) && leaf != [] && SLASH !in n
    ensures ReportedName(n, share) == n
  {
    LastSlashUnique(n, -1);
  }

  lemma SameKind(fold: Fold, full: Tree, a: CStr, b: CStr)
    requires IgnoresCase(fold, full) && SameText(fold, a, b)
    ensures full(a) == full(b)
  {
  }

  lemma Rebuilt(full: Tree, szPath: CStr)
    requires IgnoresLeadingSlash(full)
    ensures full(ParentKey(szPath) + [SLASH] + LeafName(szPath)) == full(szPath)
  {
    ParentAndLeafRebuild(szPath);
    if SLASH !in szPath {
      assert ParentKey(szPath) + [SLASH] + LeafName(szPath) == [SLASH] + szPath;
    }
  }

  lemma JoinedSameText(fold: Fold, a: CStr, m: CStr, b: CStr, n: CStr)
    requires SameText(fold, a, b) && SameText(fold, m, n)
    ensures SameText(fold, a + [SLASH] + m, b + [SLASH] + n)
  {
  }

  /** A fresh hit reports success. Asking the server would have done so if and only if the parent
      is a directory, and then under the same name up to case. */
  lemma HitAgreesWithServer(keys: Keying, w: World, spelled: set<CStr>, full: Tree, szPath: CStr, now: ULONG,
                            tree: Tree, fold: Fold, level: int, l: Link, env: Env, a: Attr)
    requires a == if env.first.rc == 51 && env.lost.Connected? then env.second else env.first
    requires Coherent(keys.fold, w, spelled) && Describes(keys.fold, w.dirs, full)
    requires LeafName(szPath) != [] && '*' !in szPath && '?' !in szPath
    requires var hit := FindPath(keys, w.linked, szPath, now); hit.Some? && hit.value.age <= 15
    requires 0 <= level <= 3 && 0 < |PathSplit.Cut(level, PathSplit.StripSlash(szPath)).rest| <= CCHMAXPATH
    requires tree(ServerPath(level, szPath)) == full(szPath)
    requires Reachable(tree, ServerPath(level, szPath), a, env.upper)
    ensures var hit := Query(keys, w.linked, fold, level, l, szPath, now, env);
            var asked := AskServer(l, ServerPath(level, szPath), env);
            && hit.rc == NO_ERROR
            && (asked.rc == NO_ERROR <==> ParentIsDirectory(full, szPath))
            && (asked.rc == NO_ERROR ==>
                  hit.reported.Some? && asked.reported.Some? &&
                  SameText(keys.fold, hit.reported.value, asked.reported.value))
            && (hit.rc == Documented(full, szPath) <==> ParentIsDirectory(full, szPath))
  {
    hide LeafName, Coherent, Describes, FindPath, ServerPath, SameText, IsDot, ParentIsDirectory;
    HitWrongIff(keys, w, spelled, full, szPath, now);
    NonEmptyName(keys.fold, FindPath(keys, w.linked, szPath, now).value.info.fname, LeafName(szPath), l.srv.share_name);
    ServerLeaf(level, szPath);
  }

  // ----- all answers

  /** The server shows at the path asked about and at its parent what is mounted; the share
      itself is there. */
  ghost predicate Shown(tree: Tree, full: Tree, level: int, szPath: CStr) {
    var path := AskedPath(level, szPath);
    && tree(path) == full(szPath)
    && if LastSlash(path) > 0 then tree(UpperPath(path)) == full(ParentKey(szPath)) else ParentIsDirectory(full, szPath)
  }

  /** The server can be asked about the path, and answers. */
  ghost predicate Asks(fold: Fold, level: int, l: Link, szPath: CStr, env: Env, a: Attr, tree: Tree, full: Tree) {
    && 0 <= level <= 3
    && (!IsTestPath(szPath) ==> |PathSplit.Cut(level, PathSplit.StripSlash(szPath)).rest| <= CCHMAXPATH)
    && (Attempts(fold, level, l.srv, szPath) ==> env.parse.Connected?) && (env.alive || env.echo.Connected?)
    && Shown(tree, full, level, szPath) && Reachable(tree, AskedPath(level, szPath), a, env.upper)
  }

  lemma SameParents(tree: Tree, full: Tree, level: int, szPath: CStr)
    requires 0 <= level <= 3 && Shown(tree, full, level, szPath)
    requires !IsTestPath(szPath) ==> |PathSplit.Cut(level, PathSplit.StripSlash(szPath)).rest| <= CCHMAXPATH
    ensures ParentIsDirectory(tree, AskedPath(level, szPath)) == ParentIsDirectory(full, szPath)
  {
    hide LastSlash, AskedPath, IsTestPath;
    if LastSlash(AskedPath(level, szPath)) > 0 {
      AskedParent(level, szPath);
    }
  }

  /** A path that is not answered from the cache: the status is the documented one exactly when the
      path exists, or the server says FILE_NOT_FOUND, or the parent is no directory and the server
      says anything but the codes that are passed on. */
  lemma AskedIsDocumentedIff(keys: Keying, linked: seq<Listing>, fold: Fold, level: int, l: Link, szPath: CStr,
                             now: ULONG, env: Env, a: Attr, tree: Tree, full: Tree)
    requires a == if env.first.rc == 51 && env.lost.Connected? then env.second else env.first
    requires '*' !in szPath && '?' !in szPath
    requires var hit := FindPath(keys, linked, szPath, now); !(hit.Some? && hit.value.age <= 15)
    requires Asks(fold, level, l, szPath, env, a, tree, full)
    ensures Query(keys, linked, fold, level, l, szPath, now, env).rc == Documented(full, szPath) <==>
            || full(szPath) != Missing
            || a.rc == ERROR_FILE_NOT_FOUND
            || (!ParentIsDirectory(full, szPath) &&
                a.rc !in {ERROR_ACCESS_DENIED, ERROR_INVALID_PARAMETER, ERROR_REM_NOT_LIST})
  {
    hide LastSlash, AskedPath, IsTestPath, Attempts, FromServer, ParentIsDirectory, Parse, FindPath;
    SameParents(tree, full, level, szPath);
    StatusIsDocumentedIff(tree, AskedPath(level, szPath), env, a);
  }

  /** A missing path is reported as one of the two documented codes, PATH_NOT_FOUND only where it
      is the right one. */
  predicate Sound(full: Tree, szPath: CStr, a: Attr) {
    full(szPath) == Missing ==>
      a.rc == ERROR_FILE_NOT_FOUND || (a.rc == ERROR_PATH_NOT_FOUND && !ParentIsDirectory(full, szPath))
  }

  /** NdpQueryPathInfo as a whole, over a coherent cache and a sound server that can be asked if need
      be: the status is the documented one if and only if the server was asked or the parent is a directory. */
  lemma QueryMeetsContractIff(keys: Keying, w: World, spelled: set<CStr>, fold: Fold, level: int, l: Link,
                              szPath: CStr, now: ULONG, env: Env, a: Attr, tree: Tree, full: Tree)
    requires a == if env.first.rc == 51 && env.lost.Connected? then env.second else env.first
    requires Coherent(keys.fold, w, spelled) && Describes(keys.fold, w.dirs, full)
    requires '*' in szPath || '?' in szPath ==> full(szPath) == Missing
    requires var hit := FindPath(keys, w.linked, szPath, now);
             '*' !in szPath && '?' !in szPath && !(hit.Some? && hit.value.age <= 15) ==>
               Asks(fold, level, l, szPath, env, a, tree, full) && Sound(full, szPath, a)
    ensures var hit := FindPath(keys, w.linked, szPath, now);
            Query(keys, w.linked, fold, level, l, szPath, now, env).rc == Documented(full, szPath) <==>
            || ('*' !in szPath && '?' !in szPath && !(hit.Some? && hit.value.age <= 15))
            || ParentIsDirectory(full, szPath)
  {
    hide LastSlash, ParentIsDirectory, Coherent, Describes, FindPath, Asks, IsDot, SameText;
    if '*' !in szPath && '?' !in szPath {
      var hit := FindPath(keys, w.linked, szPath, now);
      if hit.Some? && hit.value.age <= 15 {
        HitWrongIff(keys, w, spelled, full, szPath, now);
      } else {
        AskedIsDocumentedIff(keys, w.linked, fold, level, l, szPath, now, env, a, tree, full);
      }
    }
  }

  /** The input that fails: a directory that was listed and then removed still answers for "." */
  lemma RemovedDirectoryAnswers(c: Config, w: World, spelled: set<CStr>, d: CStr, now: ULONG, k: nat, full: Tree)
    requires Coherent(c.keys.fold, w, spelled) && OneSpelling(c.keys.fold, spelled)
    requires ParentKey(d) in spelled && Feasible(c.keys.fold, w.dirs, RemoveDir(d, true))
    requires k < |w.linked| && w.linked[k].path == d && !HasWildcard(d) && d != []
    requires Describes(c.keys.fold, Step(c, w, RemoveDir(d, true)).dirs, full) && full(d) != Directory
    ensures var w', dot := Step(c, w, RemoveDir(d, true)), d + [SLASH] + ".";
            && Coherent(c.keys.fold, w', spelled)
            && FindPath(c.keys, w'.linked, dot, now).Some?
            && full(dot) == Missing
  {
    hide IgnoresCase, IgnoresLeadingSlash, Lists, Dotted, Place, Names, OneSpelling;
    var x, w', dot := w.linked[k], Step(c, w, RemoveDir(d, true)), d + [SLASH] + ".";
    StepCoherent(c, w, spelled, RemoveDir(d, true));
    OtherKey(c.keys, spelled, d, ParentKey(d));
    DropMembers(c.keys, w.linked, ParentKey(d), x);
    DotOf(d);
    DotListed(c.keys.fold, x.infos);
    SameKeyEquivalence(c.keys, d, d, d);
    LookupMiss(c.keys, w'.linked, d, ".", now);
  }

  lemma OtherKey(keys: Keying, spelled: set<CStr>, d: CStr, e: CStr)
    requires OneSpelling(keys.fold, spelled) && d in spelled && e in spelled && d != e
    ensures !SameKey(keys, d, e)
  {
  }

  lemma DotOf(d: CStr)
    requires !HasWildcard(d)
    ensures ParentKey(d + [SLASH] + ".") == d && LeafName(d + [SLASH] + ".") == "."
    ensures LastSlash(d + [SLASH] + ".") == |d|
    ensures !HasWildcard(d + [SLASH] + ".")
  {
    hide ParentKey, LeafName, LastSlash, HasWildcard;
    var dot: CStr := ".";
    assert forall i :: 0 <= i < |dot| ==> dot[i] == '.';
    SplitAtSlash(d, dot);
    NoWildcard(d, dot);
  }

  lemma NoWildcard(d: CStr, dot: CStr)
    requires !HasWildcard(d) && forall i :: 0 <= i < |dot| ==> dot[i] == '.'
    ensures !HasWildcard(d + [SLASH] + dot)
  {
  }

  lemma DotListed(fold: Fold, infos: seq<FileInfo>)
    requires Names(infos) == FRESH
    ensures FindInfo(fold, infos, ".") < |infos|
  {
    assert "." in Names(infos);
    var i :| 0 <= i < |infos| && infos[i].fname == ".";
    assert SameText(fold, infos[i].fname, ".");
  }

  // ----- there are such servers

  /** Nothing but the root. */
  predicate RootDot(p: CStr) {
    LeafName(p) in FRESH && (ParentKey(p) == [] || ParentKey(p) == [SLASH])
  }

  function EmptyShare(p: CStr): Kind {
    if p == [] || p == [SLASH] then Directory else if RootDot(p) then File else Missing
  }

  /** An empty share is described, so the input above exists: "d" is removed from its root. */
  lemma EmptyShareDescribed(fold: Fold)
    requires forall c: Char :: fold(c) == c
    ensures Describes(fold, map[[] := FRESH], EmptyShare) && EmptyShare("d") == Missing
  {
    hide EmptyShare, LeafName, ParentKey, LastSlash, Place, SameText;
    NotInEmptyShare();
    forall p: CStr | PathSplit.StripSlash(p) == p
      ensures EmptyShare([SLASH] + p) == EmptyShare(p)
    {
      EmptySlash(p);
    }
    forall d: CStr, n | Place(fold, d) == [] && n in FRESH
      ensures SLASH !in n && EmptyShare(d + [SLASH] + n) != Missing
    {
      EmptyLists(fold, d, n);
    }
    forall a, b | SameText(fold, a, b)
      ensures EmptyShare(a) == EmptyShare(b)
    {
      SameSpelling(fold, a, b);
    }
    forall p: CStr
      ensures EmptyShare(p) != Missing ==> ParentIsDirectory(EmptyShare, p)
      ensures LeafName(p) in FRESH && ParentIsDirectory(EmptyShare, p) ==> EmptyShare(p) != Missing
    {
      EmptyTree(p);
    }
  }

  lemma SameSpelling(fold: Fold, a: CStr, b: CStr)
    requires SameText(fold, a, b) && forall c: Char :: fold(c) == c
    ensures a == b
  {
  }

  lemma NotInEmptyShare()
    ensures EmptyShare("d") == Missing
  {
    hide LastSlash;
    LastSlashUnique("d", -1);
    assert LeafName("d") == "d" && |"d"| == 1 && "d"[0] == 'd' && "."[0] == '.' && |".."| == 2;
  }

  lemma EmptyLists(fold: Fold, d: CStr, n: CStr)
    requires Place(fold, d) == [] && n in FRESH
    ensures SLASH !in n && EmptyShare(d + [SLASH] + n) != Missing
  {
    hide LeafName, ParentKey, LastSlash;
    FreshNames(n);
    SplitAtSlash(d, n);
    assert |d| <= 1;
  }

  lemma EmptyTree(p: CStr)
    ensures EmptyShare(p) != Missing ==> ParentIsDirectory(EmptyShare, p)
    ensures LeafName(p) in FRESH && ParentIsDirectory(EmptyShare, p) ==> EmptyShare(p) != Missing
  {
    hide LeafName, LastSlash;
  }

  lemma EmptySlash(p: CStr)
    requires PathSplit.StripSlash(p) == p
    ensures EmptyShare([SLASH] + p) == EmptyShare(p)
  {
    hide LastSlash, LeafName;
    LeafBehindSlash([], p);
    assert [] + [SLASH] + p == [SLASH] + p;
    LastSlashUnique([SLASH] + p, LastSlash(p) + 1);
  }
}
