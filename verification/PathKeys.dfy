/** How a directory is named in the cache: by the writer of a listing, who removes the
    file mask from the full path, and by everybody else, who cuts at the last backslash. */
module PathKeys {
  import opened Wrappers
  import opened CString

  /** The key a listing is stored and served under; None when the mask is longer than the path. */
  function DirKey(fullpath: CStr, mask: CStr): Option<CStr> {
    var cbPath := |fullpath| + 1;
    var cbMask := |mask| + 1;
    if cbMask > cbPath then None
    else
      var cbDir := cbPath - cbMask;
      Some(fullpath[..if cbDir > 0 then cbDir - 1 else cbDir])
  }

  /** The key a single file is looked up and invalidated under. */
  function ParentKey(path: CStr): CStr {
    if LastSlash(path) >= 0 then path[..LastSlash(path)] else []
  }

  function LeafName(path: CStr): CStr {
    path[LastSlash(path) + 1..]
  }

  lemma LastSlashUnique(s: CStr, k: int)
    requires -1 <= k < |s|
    requires k >= 0 ==> s[k] == SLASH
    requires forall i :: k < i < |s| ==> s[i] != SLASH
    ensures LastSlash(s) == k
  {
  }

  lemma SplitAtSlash(a: CStr, n: CStr)
    requires SLASH !in n
    ensures var p := a + [SLASH] + n;
            LastSlash(p) == |a| && p[..|a|] == a && ParentKey(p) == a && LeafName(p) == n
  {
    hide LastSlash;
    LastSlashUnique(a + [SLASH] + n, |a|);
  }

  lemma LastSlashOfConcat(prefix: CStr, name: CStr)
    requires SLASH !in name
    ensures LastSlash(prefix + name) == LastSlash(prefix)
  {
    LastSlashUnique(prefix + name, LastSlash(prefix));
  }

  /** What is stored is what is looked up and invalidated: listing `prefix` + mask and
      touching its child `prefix` + name use the same key, and the child is the name itself,
      exactly when the prefix is empty or ends in a backslash. Both root forms are included. */
  lemma KeyAgreement(prefix: CStr, mask: CStr, name: CStr)
    requires SLASH !in mask && SLASH !in name
    ensures (&& DirKey(prefix + mask, mask) == Some(ParentKey(prefix + name))
             && LeafName(prefix + name) == name)
            <==>
            (prefix == [] || prefix[|prefix| - 1] == SLASH)
  {
    hide LastSlash;
    LastSlashOfConcat(prefix, name);
    var k := LastSlash(prefix);
    assert (prefix + mask)[..|prefix|] == prefix == (prefix + name)[..|prefix|];
    if prefix == [] {
      assert prefix + name == name;
    } else if prefix[|prefix| - 1] == SLASH {
      LastSlashUnique(prefix, |prefix| - 1);
      assert (prefix + mask)[..k] == (prefix + name)[..k];
      assert (prefix + name)[k + 1..] == name;
    } else {
      assert k < |prefix| - 1;
      assert |LeafName(prefix + name)| > |name|;
    }
  }

  /** There is no key exactly when the mask is longer than the path. */
  lemma NoKeyIff(fullpath: CStr, mask: CStr)
    ensures DirKey(fullpath, mask).None? <==> |mask| > |fullpath|
  {
  }

  /** Cutting a path at its last backslash loses nothing. */
  lemma ParentAndLeafRebuild(path: CStr)
    ensures SLASH !in LeafName(path)
    ensures path == if SLASH in path then ParentKey(path) + [SLASH] + LeafName(path) else LeafName(path)
  {
    hide LastSlash;
    var k := LastSlash(path);
    if k >= 0 {
      assert path == path[..k] + [path[k]] + path[k + 1..];
    } else {
      assert SLASH !in path;
    }
  }
}
