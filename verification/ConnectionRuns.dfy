/** Whole runs of one connection: paths parsed, and the two ways in which the entry points
    reconnect when the server does not answer. */
module ConnectionRuns {
  import opened CString
  import opened PathSplit
  import opened PathParser

  datatype Event =
    | Call(path: CStr, outcome: Outcome)
    | EchoFailed(outcome: Outcome)
    | RemoteLost(outcome: Outcome)

  /** smbwrp_connect for what the resource names; nothing is stored when it fails. */
  function Reconnect(l: Link, outcome: Outcome): Link {
    match outcome
    case Connected(handle) => l.(cli := handle, madeFor := l.madeFor[handle := l.srv])
    case Refused(_) => l
  }

  ghost function Next(fold: Fold, level: int, l: Link, e: Event): Link {
    match e
    case Call(path, outcome) => Parse(fold, l, level, path, outcome)
    case EchoFailed(outcome) => Reconnect(l, outcome)
    case RemoteLost(outcome) => Reconnect(l.(closed := l.closed + [l.cli]), outcome)
  }

  ghost function After(fold: Fold, level: int, l: Link, events: seq<Event>, n: nat): Link
    requires n <= |events|
  {
    if n == 0 then l else Next(fold, level, After(fold, level, l, events, n - 1), events[n - 1])
  }

  /** The live handle was opened for exactly what the resource names. */
  predicate Matched(l: Link) {
    l.cli in l.madeFor && l.madeFor[l.cli] == l.srv
  }

  /** Every handle ever opened is the live one or was disconnected exactly once, and the
      live one was not. */
  ghost predicate Accounted(l: Link) {
    && l.cli !in l.closed
    && (forall h :: h in l.madeFor <==> h == l.cli || h in l.closed)
    && (forall i, j :: 0 <= i < j < |l.closed| ==> l.closed[i] != l.closed[j])
  }

  /** The connection attempts of a run deliver new handles. */
  ghost predicate NewHandles(fold: Fold, level: int, l: Link, events: seq<Event>) {
    forall n :: 0 <= n < |events| && events[n].outcome.Connected? ==>
      events[n].outcome.handle !in After(fold, level, l, events, n).madeFor
  }

  /** Over any sequence of parsed paths with arbitrary outcomes the live handle stays the one
      for the stored names, and every switch disconnects the old handle exactly once. */
  lemma {:induction false} CallsKeepTheConnection(fold: Fold, level: int, l: Link, events: seq<Event>, n: nat)
    requires Matched(l) && Accounted(l) && n <= |events|
    requires NewHandles(fold, level, l, events)
    requires forall i :: 0 <= i < |events| ==> events[i].Call?
    ensures Matched(After(fold, level, l, events, n)) && Accounted(After(fold, level, l, events, n))
  {
    if n > 0 {
      CallsKeepTheConnection(fold, level, l, events, n - 1);
      var e := events[n - 1];
      CallKeeps(fold, level, After(fold, level, l, events, n - 1), e.path, e.outcome);
    }
  }

  lemma CallKeeps(fold: Fold, level: int, l: Link, path: CStr, outcome: Outcome)
    requires Matched(l) && Accounted(l)
    requires outcome.Connected? ==> outcome.handle !in l.madeFor
    ensures Matched(Parse(fold, l, level, path, outcome)) && Accounted(Parse(fold, l, level, path, outcome))
  {
    if outcome.Connected? {
      forall srv
        ensures Matched(Switch(l, srv, outcome.handle)) && Accounted(Switch(l, srv, outcome.handle))
      {
        SwitchKeeps(l, srv, outcome.handle);
      }
    }
  }

  lemma SwitchKeeps(l: Link, srv: Server, handle: int)
    requires Accounted(l) && handle !in l.madeFor
    ensures Matched(Switch(l, srv, handle)) && Accounted(Switch(l, srv, handle))
  {
    var s := Switch(l, srv, handle);
    assert forall h :: h in s.closed <==> h in l.closed || h == l.cli;
  }

  /** The stored names are the ones the stored handle was opened for, through every event. */
  lemma {:induction false} StaysMatched(fold: Fold, level: int, l: Link, events: seq<Event>, n: nat)
    requires Matched(l) && n <= |events| && NewHandles(fold, level, l, events)
    ensures Matched(After(fold, level, l, events, n))
  {
    if n > 0 {
      StaysMatched(fold, level, l, events, n - 1);
    }
  }

  /** Reconnecting after a failed echo does not disconnect the old handle: all handles stay
      accounted for exactly when the attempt is refused. */
  lemma EchoFailedLeaks(fold: Fold, level: int, l: Link, outcome: Outcome)
    requires Matched(l) && Accounted(l)
    requires outcome.Connected? ==> outcome.handle !in l.madeFor
    ensures Accounted(Next(fold, level, l, EchoFailed(outcome))) <==> outcome.Refused?
  {
    if outcome.Connected? {
      var l' := Next(fold, level, l, EchoFailed(outcome));
      assert l.cli in l'.madeFor && l.cli != l'.cli && l.cli !in l'.closed;
    }
  }

  /** After a lost server the old handle is disconnected first: the connection is sound
      again exactly when the new attempt succeeds. */
  lemma RemoteLostRecovers(fold: Fold, level: int, l: Link, outcome: Outcome)
    requires Matched(l) && Accounted(l)
    requires outcome.Connected? ==> outcome.handle !in l.madeFor
    ensures var l' := Next(fold, level, l, RemoteLost(outcome));
            Matched(l') && Accounted(l') <==> outcome.Connected?
  {
    var l' := Next(fold, level, l, RemoteLost(outcome));
    assert forall h :: h in l'.closed <==> h in l.closed || h == l.cli;
  }

  /** ... and when it does not, the next switch disconnects the dead handle a second time. */
  lemma RefusedReconnectClosesTwice(fold: Fold, level: int, l: Link, rc: int, path: CStr, handle: int)
    requires 0 <= level < 3 && !IsTestPath(path)
    requires AnyDiffers(fold, l.srv, level, Cut(level, StripSlash(path)).comps)
    ensures var lost := Next(fold, level, l, RemoteLost(Refused(rc)));
            Next(fold, level, lost, Call(path, Connected(handle))).closed == l.closed + [l.cli, l.cli]
  {
    assert l.closed + [l.cli] + [l.cli] == l.closed + [l.cli, l.cli];
  }

  /** A path that was switched to needs no second switch, unless a component is empty. */
  lemma SwitchedOnce(fold: Fold, level: int, srv: Server, comps: seq<CStr>)
    requires 0 <= level < 3 && |comps| == 3 - level
    ensures AnyDiffers(fold, Selected(fold, srv, level, comps), level, comps) <==>
            exists i :: 0 <= i < |comps| && comps[i] == []
    ensures forall j :: 0 <= j < |comps| ==>
              SameText(fold, comps[j], Stored(Selected(fold, srv, level, comps))[level + j])
  {
    SelectedNames(fold, srv, level, comps);
    AttemptsIff(fold, Selected(fold, srv, level, comps), level, comps);
  }

  /** No component of the path is another name than the stored one. */
  predicate KeepsNames(fold: Fold, level: int, srv: Server, path: CStr)
    requires 0 <= level < 3
  {
    var comps := Cut(level, StripSlash(path)).comps;
    forall j :: 0 <= j < |comps| ==> SameText(fold, comps[j], Stored(srv)[level + j])
  }

  /** The resource must not be shared: another connection's handle, matched before the call, is
      matched afterwards exactly when the connection attempt is refused or the path, if it is
      looked at, names what is stored. */
  lemma OtherConnectionIff(fold: Fold, level: int, l: Link, path: CStr, outcome: Outcome, other: int)
    requires 0 <= level <= 3 && other in l.madeFor && l.madeFor[other] == l.srv
    requires outcome.Connected? ==> outcome.handle !in l.madeFor
    ensures var l' := Parse(fold, l, level, path, outcome);
            l'.madeFor[other] == l'.srv <==>
            outcome.Refused? || IsTestPath(path) || level == 3 || KeepsNames(fold, level, l.srv, path)
  {
    hide Cut, IsTestPath, Refresh, StripSlash, Stored, SameText, AnyDiffers;
    if level < 3 {
      var comps := Cut(level, StripSlash(path)).comps;
      SelectedNames(fold, l.srv, level, comps);
      AttemptsIff(fold, l.srv, level, comps);
      SameNames(l.srv, Selected(fold, l.srv, level, comps));
    }
  }

  lemma SameNames(a: Server, b: Server)
    ensures a == b <==> forall j :: 0 <= j < 3 ==> Stored(a)[j] == Stored(b)[j]
  {
    assert Stored(a)[0] == a.workgroup && Stored(a)[1] == a.server_name && Stored(a)[2] == a.share_name;
    assert Stored(b)[0] == b.workgroup && Stored(b)[1] == b.server_name && Stored(b)[2] == b.share_name;
  }

  /** ... and it is not repaired: once one connection switched to a path with no empty
      component, the other one attempts nothing on that path, with its handle for the
      old names. */
  lemma OtherConnectionStaysWrong(fold: Fold, level: int, l: Link, path: CStr, handle: int, other: int)
    requires 0 <= level < 3 && !IsTestPath(path)
    requires other in l.madeFor && l.madeFor[other] == l.srv && handle !in l.madeFor
    requires var comps := Cut(level, StripSlash(path)).comps;
             && AnyDiffers(fold, l.srv, level, comps)
             && (forall i :: 0 <= i < |comps| ==> comps[i] != [])
    ensures var l' := Parse(fold, l, level, path, Connected(handle));
            && l'.madeFor[other] != l'.srv
            && !AnyDiffers(fold, l'.srv, level, Cut(level, StripSlash(path)).comps)
  {
    var comps := Cut(level, StripSlash(path)).comps;
    SwitchedOnce(fold, level, l.srv, comps);
    var srv' := Selected(fold, l.srv, level, comps);
    assert !AnyDiffers(fold, srv', level, comps);
    assert srv' != l.srv;
  }
}
