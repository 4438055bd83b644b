/** helperEASet and NdpFileEASet hand the attributes of a packed list to the server one by one.
    Their loop advances the record pointer before it adds the record's size to the count. */
module EaSetWalk {
  import opened Bytes
  import opened EaFormat
  import opened ErrorCodes

  /** The attributes handed to the server, whether the walk read past the end of the buffer, and
      the status. */
  datatype Calls = Calls(eas: seq<Ea>, overrun: bool, rc: int)

  /** `pfea` is where the next record is read, `done` what the loop compares with cbList.
      `rcs(i)` is the server's answer to call i; the first error ends the walk. */
  function SetWalk(b: seq<Byte>, pfea: nat, done: nat, cbList: nat, rcs: nat -> int, i: nat): Calls
    decreases cbList - done
  {
    if done >= cbList then Calls([], false, NO_ERROR)
    else if pfea + 4 > |b| || pfea + SizeAt(b, pfea) > |b| then Calls([], true, NO_ERROR)
    else if rcs(i) != NO_ERROR then Calls([EaAt(b, pfea)], false, rcs(i))
    else
      var next := pfea + SizeAt(b, pfea);
      if next + 4 > |b| then Calls([EaAt(b, pfea)], true, NO_ERROR)
      else Then(EaAt(b, pfea), SetWalk(b, next, done + SizeAt(b, next), cbList, rcs, i + 1))
  }

  function Then(ea: Ea, rest: Calls): Calls {
    Calls([ea] + rest.eas, rest.overrun, rest.rc)
  }

  /** The loop. The bytes of the buffer are all that may be read. */
  method SetAll(b: array<Byte>, cbList: nat, rcs: nat -> int) returns (calls: Calls)
    ensures calls == SetWalk(b[..], 4, 4, cbList, rcs, 0)
  {
    hide SizeAt, EaAt, SetWalk;
    var done: nat, pfea: nat := 4, 4;
    var eas: seq<Ea> := [];
    while done < cbList
      invariant var rest := SetWalk(b[..], pfea, done, cbList, rcs, |eas|);
                SetWalk(b[..], 4, 4, cbList, rcs, 0) == Calls(eas + rest.eas, rest.overrun, rest.rc)
      decreases cbList - done
    {
      WalkUnfolds(b[..], pfea, done, cbList, rcs, |eas|);
      if pfea + 4 > b.Length || pfea + SizeAt(b[..], pfea) > b.Length {
        return Calls(eas, true, NO_ERROR);
      }
      eas := eas + [EaAt(b[..], pfea)];
      var rc := rcs(|eas| - 1);
      if rc != NO_ERROR {
        return Calls(eas, false, rc);
      }
      pfea := pfea + SizeAt(b[..], pfea);
      if pfea + 4 > b.Length {
        return Calls(eas, true, NO_ERROR);
      }
      SizeAtPositive(b[..], pfea);
      done := done + SizeAt(b[..], pfea);
    }
    WalkUnfolds(b[..], pfea, done, cbList, rcs, |eas|);
    return Calls(eas, false, NO_ERROR);
  }

  lemma SizeAtPositive(b: seq<Byte>, at: nat)
    requires at + 4 <= |b|
    ensures SizeAt(b, at) >= 5
  {
  }

  /** One round of the walk. */
  lemma WalkUnfolds(b: seq<Byte>, pfea: nat, done: nat, cbList: nat, rcs: nat -> int, i: nat)
    ensures SetWalk(b, pfea, done, cbList, rcs, i) ==
            if done >= cbList then Calls([], false, NO_ERROR)
            else if pfea + 4 > |b| || pfea + SizeAt(b, pfea) > |b| then Calls([], true, NO_ERROR)
            else if rcs(i) != NO_ERROR then Calls([EaAt(b, pfea)], false, rcs(i))
            else
              var next := pfea + SizeAt(b, pfea);
              if next + 4 > |b| then Calls([EaAt(b, pfea)], true, NO_ERROR)
              else Then(EaAt(b, pfea), SetWalk(b, next, done + SizeAt(b, next), cbList, rcs, i + 1))
  {
  }

  /** What the walk does once the list is used up. */
  function Beyond(l: seq<Ea>, tail: seq<Byte>, rcs: nat -> int): Calls
    requires AllStorable(l) && l != []
  {
    var b, cbList := FeaList(l) + tail, 4 + Total(l);
    if |tail| < 4 then Calls([], true, NO_ERROR)
    else SetWalk(b, cbList, Total(l[1..]) + 4 + SizeAt(tail, 0), cbList, rcs, |l|)
  }

  /** The attributes from k on handed over up to the first error, and `end` if there is none. */
  function Handing(l: seq<Ea>, k: nat, rcs: nat -> int, end: Calls): Calls
    requires k <= |l|
    decreases |l| - k
  {
    if k == |l| then end
    else if rcs(k) != NO_ERROR then Calls([l[k]], false, rcs(k))
    else Then(l[k], Handing(l, k + 1, rcs, end))
  }

  /** What setting a list should do. */
  function Intended(l: seq<Ea>, rcs: nat -> int): Calls {
    Handing(l, 0, rcs, Calls([], false, NO_ERROR))
  }

  predicate SomeFails(l: seq<Ea>, k: nat, rcs: nat -> int) {
    exists i :: k <= i < |l| && rcs(i) != NO_ERROR
  }

  /** What is intended is all of the list, or its first attributes up to the first error. */
  lemma IntendedMeans(l: seq<Ea>, rcs: nat -> int, n: nat)
    requires n <= |l| && forall i :: 0 <= i < n ==> rcs(i) == 0
    ensures n == |l| ==> Intended(l, rcs) == Calls(l, false, 0)
    ensures n < |l| && rcs(n) != 0 ==> Intended(l, rcs) == Calls(l[..n + 1], false, rcs(n))
  {
    HandedUpTo(l, 0, n, rcs);
    assert l[0..] == l && l[0..|l|] == l;
    assert n < |l| ==> l[0..n + 1] == l[..n + 1];
  }

  lemma {:induction false} HandedUpTo(l: seq<Ea>, k: nat, n: nat, rcs: nat -> int)
    requires k <= n <= |l| && forall i :: k <= i < n ==> rcs(i) == 0
    ensures var h := Handing(l, k, rcs, Calls([], false, NO_ERROR));
            && (n == |l| ==> h == Calls(l[k..], false, NO_ERROR))
            && (n < |l| && rcs(n) != 0 ==> h == Calls(l[k..n + 1], false, rcs(n)))
    decreases n - k
  {
    if k < n {
      HandedUpTo(l, k + 1, n, rcs);
      assert [l[k]] + l[k + 1..] == l[k..];
      assert n < |l| ==> [l[k]] + l[k + 1..n + 1] == l[k..n + 1];
    }
  }

  lemma {:induction false} HandingEnds(l: seq<Ea>, k: nat, rcs: nat -> int, end: Calls)
    requires k <= |l|
    ensures if SomeFails(l, k, rcs) then Handing(l, k, rcs, end) == Handing(l, k, rcs, Calls([], false, NO_ERROR))
            else Handing(l, k, rcs, end) == Calls(l[k..] + end.eas, end.overrun, end.rc)
    decreases |l| - k
  {
    if k < |l| && rcs(k) == NO_ERROR {
      HandingEnds(l, k + 1, rcs, end);
      assert l[k..] + end.eas == [l[k]] + (l[k + 1..] + end.eas);
      assert SomeFails(l, k, rcs) <==> SomeFails(l, k + 1, rcs);
    }
  }

  lemma {:induction false} TotalOfTail(l: seq<Ea>)
    requires l != []
    ensures Total(l) == Size(l[0]) + Total(l[1..])
  {
    if |l| > 1 {
      TotalOfTail(l[..|l| - 1]);
      assert l[..|l| - 1][1..] == l[1..][..|l[1..]| - 1];
    } else {
      assert l[..0] == [] == l[1..];
    }
  }

  /** From record k on: the pointer is right, the count is ahead by one record and lacks the first. */
  lemma {:induction false} FromRecord(l: seq<Ea>, tail: seq<Byte>, k: nat, rcs: nat -> int)
    requires AllStorable(l) && k < |l|
    ensures SetWalk(FeaList(l) + tail, 4 + Total(l[..k]), 4 + Total(l[1..k + 1]), 4 + Total(l), rcs, k) ==
            Handing(l, k, rcs, Beyond(l, tail, rcs))
    decreases |l| - k
  {
    hide FeaList, SizeAt, EaAt, AllStorable, SetWalk, Beyond, Total;
    if k + 1 < |l| {
      StepInside(l, tail, k, rcs);
      FromRecord(l, tail, k + 1, rcs);
    } else {
      FromLast(l, tail, rcs);
    }
  }

  lemma StepInside(l: seq<Ea>, tail: seq<Byte>, k: nat, rcs: nat -> int)
    requires AllStorable(l) && k + 1 < |l|
    ensures var b, cbList := FeaList(l) + tail, 4 + Total(l);
            SetWalk(b, 4 + Total(l[..k]), 4 + Total(l[1..k + 1]), cbList, rcs, k) ==
            if rcs(k) != NO_ERROR then Calls([l[k]], false, rcs(k))
            else Then(l[k], SetWalk(b, 4 + Total(l[..k + 1]), 4 + Total(l[1..k + 2]), cbList, rcs, k + 1))
  {
    hide FeaList, SizeAt, EaAt, AllStorable, SetWalk, Total, Then;
    RecordAt(l, tail, k);
    RecordAt(l, tail, k + 1);
    CountBehind(l, k);
    CountBehind(l, k + 1);
    WalkUnfolds(FeaList(l) + tail, 4 + Total(l[..k]), 4 + Total(l[1..k + 1]), 4 + Total(l), rcs, k);
  }

  lemma CountBehind(l: seq<Ea>, k: nat)
    requires k < |l|
    ensures Total(l[..k + 1]) == Size(l[0]) + Total(l[1..k + 1])
  {
    TotalOfTail(l[..k + 1]);
    assert l[..k + 1][0] == l[0] && l[..k + 1][1..] == l[1..k + 1];
  }

  lemma FromLast(l: seq<Ea>, tail: seq<Byte>, rcs: nat -> int)
    requires AllStorable(l) && l != []
    ensures var k := |l| - 1;
            SetWalk(FeaList(l) + tail, 4 + Total(l[..k]), 4 + Total(l[1..k + 1]), 4 + Total(l), rcs, k) ==
            Handing(l, k, rcs, Beyond(l, tail, rcs))
  {
    hide FeaList, SizeAt, EaAt, AllStorable, SetWalk, Total;
    var k := |l| - 1;
    RecordAt(l, tail, k);
    CountBehind(l, k);
    assert l[..k + 1] == l && l[1..k + 1] == l[1..] && [l[k]] + [] == [l[k]];
    assert Handing(l, k + 1, rcs, Beyond(l, tail, rcs)) == Beyond(l, tail, rcs);
    WalkUnfolds(FeaList(l) + tail, 4 + Total(l[..k]), 4 + Total(l[1..k + 1]), 4 + Total(l), rcs, k);
    if |tail| >= 4 {
      HeaderOfTail(FeaList(l), tail);
    }
  }

  lemma ListBytes(l: seq<Ea>, tail: seq<Byte>)
    requires AllStorable(l)
    ensures |FeaList(l) + tail| == 4 + Total(l) + |tail|
    ensures (FeaList(l) + tail)[4..4 + Total(l)] == Records(l)
  {
    hide Records, Le32, Total;
  }

  lemma RecordAt(l: seq<Ea>, tail: seq<Byte>, k: nat)
    requires AllStorable(l) && k < |l|
    ensures |FeaList(l) + tail| == 4 + Total(l) + |tail|
    ensures var b, at := FeaList(l) + tail, 4 + Total(l[..k]);
            && at + Size(l[k]) == 4 + Total(l[..k + 1]) <= 4 + Total(l)
            && SizeAt(b, at) == Size(l[k]) && EaAt(b, at) == l[k]
  {
    hide FeaList, Records, Record, Total, SizeAt, EaAt, Read16, AllStorable;
    var b, at := FeaList(l) + tail, Total(l[..k]);
    ListBytes(l, tail);
    RecordInPlace(l, k);
    SliceOfSlice(b, 4, 4 + Total(l), at, at + Size(l[k]));
    StorableAt(l, k);
    ReadRecord(l[k], b, 4 + at);
  }

  lemma StorableAt(l: seq<Ea>, k: nat)
    requires AllStorable(l) && k < |l|
    ensures Storable(l[k])
  {
  }

  lemma HeaderOfTail(list: seq<Byte>, tail: seq<Byte>)
    requires |tail| >= 4
    ensures SizeAt(list + tail, |list|) == SizeAt(tail, 0)
  {
  }

  /** Exactly the attributes of the list are set, up to the first error and without a read past
      the buffer, if and only if there is an error or the bytes that happen to follow the list look
      like a record at least as long as the first attribute. In every other case the walk goes on
      into those bytes. */
  lemma SetsExactlyTheList(l: seq<Ea>, tail: seq<Byte>, rcs: nat -> int)
    requires AllStorable(l) && l != []
    ensures SetWalk(FeaList(l) + tail, 4, 4, 4 + Total(l), rcs, 0) == Intended(l, rcs) <==>
            || (exists i :: 0 <= i < |l| && rcs(i) != NO_ERROR)
            || (|tail| >= 4 && SizeAt(tail, 0) >= Size(l[0]))
  {
    assert SomeFails(l, 0, rcs) <==> exists i :: 0 <= i < |l| && rcs(i) != NO_ERROR;
    hide FeaList, EaAt, SizeAt, Handing, SetWalk, Beyond, SomeFails, Total;
    var end := Beyond(l, tail, rcs);
    AllHanded(l, tail, rcs);
    HandingEnds(l, 0, rcs, end);
    HandingEnds(l, 0, rcs, Calls([], false, NO_ERROR));
    assert l[0..] + end.eas == l[0..] + [] <==> end.eas == [];
    BeyondStops(l, tail, rcs);
  }

  lemma AllHanded(l: seq<Ea>, tail: seq<Byte>, rcs: nat -> int)
    requires AllStorable(l) && l != []
    ensures SetWalk(FeaList(l) + tail, 4, 4, 4 + Total(l), rcs, 0) == Handing(l, 0, rcs, Beyond(l, tail, rcs))
  {
    hide FeaList, SetWalk, Handing, Beyond;
    FromRecord(l, tail, 0, rcs);
    assert l[..0] == [] && l[1..1] == [];
  }

  lemma BeyondStops(l: seq<Ea>, tail: seq<Byte>, rcs: nat -> int)
    requires AllStorable(l) && l != []
    ensures Beyond(l, tail, rcs) == Calls([], false, NO_ERROR) <==> |tail| >= 4 && SizeAt(tail, 0) >= Size(l[0])
  {
    hide FeaList, EaAt, SizeAt, SetWalk, Total;
    ListBytes(l, tail);
    TotalOfTail(l);
    if |tail| >= 4 {
      HeaderOfTail(FeaList(l), tail);
      WalkUnfolds(FeaList(l) + tail, 4 + Total(l), Total(l[1..]) + 4 + SizeAt(tail, 0), 4 + Total(l), rcs, |l|);
    }
  }

  /** So a list at the very end of its buffer is always overrun, unless an attribute cannot be set. */
  lemma OverrunAtTheEnd(l: seq<Ea>, rcs: nat -> int)
    requires AllStorable(l) && l != []
    ensures SetWalk(FeaList(l) + [], 4, 4, 4 + Total(l), rcs, 0) ==
            if SomeFails(l, 0, rcs) then Intended(l, rcs) else Calls(l, true, NO_ERROR)
  {
    hide FeaList, EaAt, SizeAt, Handing, SetWalk, SomeFails, Total;
    AllHanded(l, [], rcs);
    HandingEnds(l, 0, rcs, Beyond(l, [], rcs));
    assert l[0..] + [] == l;
  }
}
