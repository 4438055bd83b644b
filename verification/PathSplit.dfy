/** How a mounted path splits into the workgroup, server and share components that the
    resource does not fix, and the remainder within the share. */
module PathSplit {
  import opened CString

  datatype Split = Split(comps: seq<CStr>, rest: CStr)

  function StripSlash(path: CStr): CStr {
    if path != [] && path[0] == SLASH then path[1..] else path
  }

  /** The component before the first backslash, and the path after it. */
  function Head(path: CStr): CStr {
    path[..FirstSlash(path)]
  }

  function Tail(path: CStr): CStr {
    if FirstSlash(path) < |path| then path[FirstSlash(path) + 1..] else []
  }

  /** Components are cut off from level `level` up to level 3, where the share begins;
      missing ones are empty. */
  function Cut(level: int, path: CStr): (s: Split)
    ensures |s.comps| == if level < 3 then 3 - level else 0
    decreases 3 - level
  {
    if level >= 3 then Split([], path)
    else
      var tail := Cut(level + 1, Tail(path));
      Split([Head(path)] + tail.comps, tail.rest)
  }

  function Join(comps: seq<CStr>, rest: CStr): CStr {
    if comps == [] then rest else comps[0] + [SLASH] + Join(comps[1..], rest)
  }

  predicate NoSlashes(comps: seq<CStr>) {
    forall i :: 0 <= i < |comps| ==> SLASH !in comps[i]
  }

  function Slashes(n: nat): CStr {
    seq(n, _ => SLASH)
  }

  function SlashCount(path: CStr): nat {
    if path == [] then 0 else SlashCount(path[1..]) + if path[0] == SLASH then 1 else 0
  }

  /** Separators the path would need in addition for all components to be there. */
  function Missing(level: int, path: CStr): nat
    requires level <= 3
  {
    if SlashCount(path) >= 3 - level then 0 else 3 - level - SlashCount(path)
  }

  lemma {:induction false} CountAfterFirst(path: CStr)
    ensures var k := FirstSlash(path);
            SlashCount(path) == if k < |path| then 1 + SlashCount(path[k + 1..]) else 0
  {
    if path != [] && path[0] != SLASH {
      CountAfterFirst(path[1..]);
      var k := FirstSlash(path);
      if k < |path| {
        assert path[1..][k..] == path[k + 1..];
      }
    }
  }

  /** The split loses nothing: the components and the remainder, joined by backslashes, are the
      path up to the separators that were missing, and only when none is missing is there a
      remainder. */
  lemma {:induction false} SplitLosesNothing(level: int, path: CStr)
    requires 0 <= level <= 3
    ensures var s := Cut(level, path);
            && NoSlashes(s.comps)
            && path + Slashes(Missing(level, path)) == Join(s.comps, s.rest)
            && (Missing(level, path) > 0 ==> s.rest == [])
    decreases 3 - level
  {
    hide FirstSlash, SlashCount;
    if level < 3 {
      var k := FirstSlash(path);
      var next := Tail(path);
      SplitLosesNothing(level + 1, next);
      CountAfterFirst(path);
      var tail := Cut(level + 1, next);
      var joined := Join(tail.comps, tail.rest);
      assert Join([Head(path)] + tail.comps, tail.rest) == path[..k] + [SLASH] + joined;
      PrependComponent(path, k, next, Missing(level, path), Missing(level + 1, next), joined);
    }
  }

  lemma PrependComponent(path: CStr, k: nat, next: CStr, missing: nat, missingNext: nat, joined: CStr)
    requires k <= |path| && joined == next + Slashes(missingNext)
    requires if k < |path| then path[k] == SLASH && next == path[k + 1..] && missing == missingNext
             else next == [] && missing == missingNext + 1
    ensures path + Slashes(missing) == path[..k] + [SLASH] + joined
  {
    if k < |path| {
      assert path == path[..k] + [SLASH] + next;
    } else {
      assert Slashes(missing) == [SLASH] + Slashes(missingNext);
    }
  }

  /** And the split is the only one: any slash-free components and remainder are recovered. */
  lemma {:induction false} SplitOfJoin(level: int, comps: seq<CStr>, rest: CStr)
    requires level <= 3 && |comps| == 3 - level && NoSlashes(comps)
    ensures Cut(level, Join(comps, rest)) == Split(comps, rest)
    decreases |comps|
  {
    if comps != [] {
      var c, more := comps[0], Join(comps[1..], rest);
      SplitOfJoin(level + 1, comps[1..], rest);
      FirstSlashAt(c, more);
      var path := c + [SLASH] + more;
      assert path[..|c|] == c && path[|c| + 1..] == more;
      assert [c] + comps[1..] == comps;
    }
  }

  lemma FirstSlashAt(c: CStr, more: CStr)
    requires SLASH !in c
    ensures FirstSlash(c + [SLASH] + more) == |c|
  {
    var path := c + [SLASH] + more;
    assert forall i :: 0 <= i < |c| ==> path[i] == c[i];
    assert path[|c|] == SLASH;
  }
}
