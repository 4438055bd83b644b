/** Where NdpMove moves a file: the source looks for the destination within the share by counting
    characters of the source path. */
module MovePath {
  import opened CString
  import opened PathKeys
  import opened PathSplit
  import opened Coherence

  /** The comparison of the two paths fails; or it ends with the destination, and the source reads
      behind that; or the mounted path that the file gets. */
  datatype Target = Refused | BehindEnd | Renamed(to: CStr)

  /** The length of the part of the source path that names the share; `src` is what pathparser
      made of `szSrc`. */
  function ShareLength(szSrc: CStr, src: CStr): int {
    |szSrc| - |src|
  }

  /** The server is told the destination without as many characters and one more. A backslash that
      this begins with makes no difference to the server: what pathparser returns begins with one. */
  function RenameTarget(fold: Fold, szSrc: CStr, src: CStr, szDst: CStr): Target {
    var n := ShareLength(szSrc, src);
    if n <= 0 then Renamed(szDst)
    else if n > |szDst| || !SameText(fold, szSrc[..n], szDst[..n]) then Refused
    else if n == |szDst| then BehindEnd
    else Renamed(szSrc[..n] + [SLASH] + StripSlash(szDst[n + 1..]))
  }

  /** What happens to a move: nothing is compared if the resource fixes the share; else the part that
      names the share must agree up to case, and something must follow it. */
  lemma TargetMeans(fold: Fold, szSrc: CStr, src: CStr, szDst: CStr)
    ensures var n, target := |szSrc| - |src|, RenameTarget(fold, szSrc, src, szDst);
            && (n <= 0 ==> target == Renamed(szDst))
            && (n > 0 ==>
                  && (target == Refused <==> n > |szDst| || exists i :: 0 <= i < n && fold(szSrc[i]) != fold(szDst[i]))
                  && (target == BehindEnd <==>
                        n == |szDst| && forall i :: 0 <= i < n ==> fold(szSrc[i]) == fold(szDst[i]))
                  && (target.Renamed? ==>
                        target.to == szSrc[..n] + [SLASH] + StripSlash(szDst[n + 1..])))
  {
    var n := |szSrc| - |src|;
    if 0 < n <= |szDst| {
      assert forall i :: 0 <= i < n ==> szSrc[..n][i] == szSrc[i] && szDst[..n][i] == szDst[i];
    }
  }

  /** The components of a path without the remainder. */
  function Base(comps: seq<CStr>): CStr
    requires comps != []
  {
    if |comps| == 1 then comps[0] else comps[0] + [SLASH] + Base(comps[1..])
  }

  lemma {:induction false} JoinOfBase(comps: seq<CStr>, rest: CStr)
    requires comps != []
    ensures Join(comps, rest) == Base(comps) + [SLASH] + rest
  {
    if |comps| > 1 {
      JoinOfBase(comps[1..], rest);
    } else {
      assert Join(comps[1..], rest) == rest;
    }
  }

  /** What the server is told is the remainder of that path, below the share of the source. */
  lemma TargetInShare(fold: Fold, level: int, szSrc: CStr, szDst: CStr)
    requires 0 <= level < 3 && Missing(level, StripSlash(szSrc)) == 0
    requires var src := [SLASH] + Cut(level, StripSlash(szSrc)).rest;
             ShareLength(szSrc, src) > 0 && RenameTarget(fold, szSrc, src, szDst).Renamed?
    ensures var s := Cut(level, StripSlash(szSrc));
            var src := [SLASH] + s.rest;
            Cut(level, StripSlash(RenameTarget(fold, szSrc, src, szDst).to)) ==
            Split(s.comps, StripSlash(szDst[ShareLength(szSrc, src) + 1..]))
  {
    hide Cut, Missing, SameText;
    var s := Cut(level, StripSlash(szSrc));
    var n, p := ShareLength(szSrc, [SLASH] + s.rest), StripSlash(szSrc);
    var q := StripSlash(szDst[n + 1..]);
    SplitLosesNothing(level, p);
    JoinOfBase(s.comps, s.rest);
    JoinOfBase(s.comps, q);
    SplitOfJoin(level, s.comps, q);
    assert p == Base(s.comps) + [SLASH] + s.rest;
    assert p[..|Base(s.comps)|] == Base(s.comps);
    assert StripSlash(szSrc[..n] + [SLASH] + q) == Base(s.comps) + [SLASH] + q;
  }

  /** The case mapping leaves backslashes alone. */
  ghost predicate KeepsSlash(fold: Fold) {
    forall c: Char :: fold(c) == fold(SLASH) ==> c == SLASH
  }

  /** The file goes where the caller asked if and only if the share's name ends in the destination
      where it ends in the source: nothing checks that a backslash, and only one, follows there. */
  lemma TargetRightIff(fold: Fold, szSrc: CStr, src: CStr, szDst: CStr)
    requires KeepsSlash(fold) && RenameTarget(fold, szSrc, src, szDst).Renamed?
    ensures var n := ShareLength(szSrc, src);
            Place(fold, RenameTarget(fold, szSrc, src, szDst).to) == Place(fold, szDst) <==>
            n <= 0 || (szDst[n] == SLASH && StripSlash(szDst[n + 1..]) == szDst[n + 1..])
  {
    hide SameText, Place;
    var n, to := ShareLength(szSrc, src), RenameTarget(fold, szSrc, src, szDst).to;
    if n > 0 {
      SamePrefix(fold, szSrc[..n], szDst[..n]);
      assert forall i :: 0 <= i < n ==> fold(to[i]) == fold(szSrc[..n][i]) == fold(szDst[..n][i]) == fold(szDst[i]);
      assert fold(to[0]) == fold(szDst[0]);
      if StripSlash(szDst[n + 1..]) == szDst[n + 1..] {
        assert forall i :: n < i < |szDst| ==> to[i] == szDst[n + 1..][i - n - 1] == szDst[i];
        OneCharacter(fold, to, szDst, n);
      } else {
        PlaceLength(fold, to, szDst);
      }
    }
  }

  lemma PlaceLength(fold: Fold, a: CStr, b: CStr)
    requires KeepsSlash(fold) && a != [] && b != [] && fold(a[0]) == fold(b[0])
    ensures |Place(fold, a)| - |a| == |Place(fold, b)| - |b|
  {
  }

  lemma SamePrefix(fold: Fold, a: CStr, b: CStr)
    requires SameText(fold, a, b)
    ensures forall i :: 0 <= i < |a| ==> fold(a[i]) == fold(b[i])
  {
  }

  /** Paths that agree everywhere else lead to the same place if they agree in one more character. */
  lemma OneCharacter(fold: Fold, a: CStr, b: CStr, n: nat)
    requires KeepsSlash(fold) && 0 < n < |a| == |b|
    requires forall i :: 0 <= i < |a| && i != n ==> fold(a[i]) == fold(b[i])
    ensures Place(fold, a) == Place(fold, b) <==> fold(a[n]) == fold(b[n])
  {
    var k := if b[0] == SLASH then 1 else 0;
    assert a[0] == SLASH <==> b[0] == SLASH;
    var p, q := Place(fold, a), Place(fold, b);
    assert forall i :: 0 <= i < |a| - k ==> p[i] == fold(a[i + k]) && q[i] == fold(b[i + k]);
    assert p[n - k] == fold(a[n]) && q[n - k] == fold(b[n]);
  }

  /** Then it is the right directory whose listing was invalidated. */
  lemma RightTargetRightParent(fold: Fold, a: CStr, b: CStr)
    requires KeepsSlash(fold) && Place(fold, a) == Place(fold, b)
    ensures Place(fold, ParentKey(a)) == Place(fold, ParentKey(b))
  {
    hide LastSlash;
    ParentPlace(fold, a);
    ParentPlace(fold, b);
    var p, q := StripSlash(a), StripSlash(b);
    assert forall i :: 0 <= i < |p| ==> Place(fold, a)[i] == fold(p[i]);
    assert forall i :: 0 <= i < |q| ==> Place(fold, b)[i] == fold(q[i]);
    LastSlashUnique(p, LastSlash(q));
  }

  lemma ParentPlace(fold: Fold, a: CStr)
    ensures var k := LastSlash(StripSlash(a));
            Place(fold, ParentKey(a)) == Place(fold, a)[..if k >= 0 then k else 0]
  {
    hide LastSlash;
    var p := StripSlash(a);
    var k := LastSlash(p);
    if p != a {
      assert forall i :: 0 <= i < |p| ==> a[i + 1] == p[i];
      LastSlashUnique(a, k + 1);
    }
  }
}
