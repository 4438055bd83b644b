/** pathparser: a path below a resource that does not fix workgroup, server and share
    selects them, and the connection follows. */
module PathParser {
  import opened CString
  import opened ErrorCodes
  import opened PathSplit

  datatype Server = Server(workgroup: CStr, server_name: CStr, share_name: CStr)

  /** What smbwrp_connect does: a handle, or an error. */
  datatype Outcome = Connected(handle: int) | Refused(rc: int)

  const TEST_PATTERN: CStr := "A.+,;=[].B"
  const TEST_RESULT: CStr := "\\A.+,;=[].B"

  ghost predicate IsTestPath(path: CStr) {
    exists k :: 0 <= k <= |path| && TEST_PATTERN <= path[k..]
  }

  /** Whether a component selects something else than what is stored: an empty one always does. */
  predicate Differs(fold: Fold, stored: CStr, comp: CStr) {
    |stored| != |comp| || comp == [] || !SameText(fold, comp, stored)
  }

  function Refresh(fold: Fold, stored: CStr, comp: CStr): CStr {
    if Differs(fold, stored, comp) then comp else stored
  }

  /** The server description with the components of the path put in. */
  function Selected(fold: Fold, srv: Server, level: int, comps: seq<CStr>): Server
    requires 0 <= level < 3 && |comps| == 3 - level
  {
    Server(
      if level == 0 then Refresh(fold, srv.workgroup, comps[0]) else srv.workgroup,
      if level <= 1 then Refresh(fold, srv.server_name, comps[1 - level]) else srv.server_name,
      Refresh(fold, srv.share_name, comps[2 - level]))
  }

  predicate AnyDiffers(fold: Fold, srv: Server, level: int, comps: seq<CStr>)
    requires 0 <= level < 3 && |comps| == 3 - level
  {
    || (level == 0 && Differs(fold, srv.workgroup, comps[0]))
    || (level <= 1 && Differs(fold, srv.server_name, comps[1 - level]))
    || Differs(fold, srv.share_name, comps[2 - level])
  }

  /** Whether a path makes pathparser connect anew: exactly when a component it consumes is
      empty or differs, up to case, from the stored one. */
  ghost predicate Attempts(fold: Fold, level: int, srv: Server, path: CStr) {
    !IsTestPath(path) && 0 <= level < 3 && AnyDiffers(fold, srv, level, Cut(level, StripSlash(path)).comps)
  }

  /** The connection state: what the resource names, the live handle, what each handle was
      opened for, and the handles disconnected so far, in order. */
  datatype Link = Link(srv: Server, cli: int, madeFor: map<int, Server>, closed: seq<int>)

  /** A successful switch: connect first, disconnect the old handle, then store. */
  function Switch(l: Link, srv: Server, handle: int): Link {
    Link(srv, handle, l.madeFor[handle := srv], l.closed + [l.cli])
  }

  /** What a call of pathparser does to the connection. */
  ghost function Parse(fold: Fold, l: Link, level: int, path: CStr, outcome: Outcome): Link {
    if Attempts(fold, level, l.srv, path) && outcome.Connected?
    then Switch(l, Selected(fold, l.srv, level, Cut(level, StripSlash(path)).comps), outcome.handle)
    else l
  }

  // ----- what this means, in terms of the components alone

  /** The names of the server description, outermost first: level j is where the j-th one starts. */
  function Stored(srv: Server): (names: seq<CStr>)
    ensures |names| == 3
  {
    [srv.workgroup, srv.server_name, srv.share_name]
  }

  /** A connection is attempted exactly when some component is empty or is not the stored name up
      to case. */
  lemma AttemptsIff(fold: Fold, srv: Server, level: int, comps: seq<CStr>)
    requires 0 <= level < 3 && |comps| == 3 - level
    ensures AnyDiffers(fold, srv, level, comps) <==>
            exists j :: 0 <= j < |comps| && (comps[j] == [] || !SameText(fold, comps[j], Stored(srv)[level + j]))
  {
    hide SameText;
    LengthsDiffer(fold, srv.share_name, comps[2 - level]);
    if level <= 1 {
      LengthsDiffer(fold, srv.server_name, comps[1 - level]);
    }
    if level == 0 {
      LengthsDiffer(fold, srv.workgroup, comps[0]);
    }
    assert Differs(fold, srv.share_name, comps[2 - level]) <==> Differs(fold, Stored(srv)[2], comps[2 - level]);
  }

  lemma LengthsDiffer(fold: Fold, stored: CStr, comp: CStr)
    ensures Differs(fold, stored, comp) <==> comp == [] || !SameText(fold, comp, stored)
  {
  }

  /** What is selected is named by the components, up to case; a name that agrees already keeps its
      spelling, and names above the level stay. */
  lemma SelectedNames(fold: Fold, srv: Server, level: int, comps: seq<CStr>)
    requires 0 <= level < 3 && |comps| == 3 - level
    ensures var names := Stored(Selected(fold, srv, level, comps));
            && (forall j :: 0 <= j < level ==> names[j] == Stored(srv)[j])
            && (forall j :: 0 <= j < |comps| ==>
                  SameText(fold, comps[j], names[level + j]) &&
                  (SameText(fold, comps[j], Stored(srv)[level + j]) ==> names[level + j] == Stored(srv)[level + j]))
  {
    hide SameText;
    RefreshedName(fold, srv.share_name, comps[2 - level]);
    if level <= 1 {
      RefreshedName(fold, srv.server_name, comps[1 - level]);
    }
    if level == 0 {
      RefreshedName(fold, srv.workgroup, comps[0]);
    }
  }

  lemma RefreshedName(fold: Fold, stored: CStr, comp: CStr)
    ensures SameText(fold, comp, Refresh(fold, stored, comp))
    ensures SameText(fold, comp, stored) ==> Refresh(fold, stored, comp) == stored
  {
  }

  /** A path that is not looked at. */
  ghost predicate Ignored(level: int, path: CStr) {
    IsTestPath(path) || level >= 3
  }

  /** A call of pathparser attempts a connection exactly when a component of the path is empty or
      other than the stored name; after one that is made, every consumed name is that of the path
      and the handle the new one; otherwise nothing changes. */
  lemma ParseMeans(fold: Fold, l: Link, level: int, path: CStr, outcome: Outcome, comps: seq<CStr>)
    requires 0 <= level && comps == Cut(level, StripSlash(path)).comps
    ensures Attempts(fold, level, l.srv, path) <==>
            && !Ignored(level, path)
            && exists j :: 0 <= j < |comps| && (comps[j] == [] || !SameText(fold, comps[j], Stored(l.srv)[level + j]))
    ensures var l' := Parse(fold, l, level, path, outcome);
            if Attempts(fold, level, l.srv, path) && outcome.Connected? then
              && (forall j :: 0 <= j < level ==> Stored(l'.srv)[j] == Stored(l.srv)[j])
              && (forall j :: 0 <= j < |comps| ==> SameText(fold, comps[j], Stored(l'.srv)[level + j]))
              && l'.cli == outcome.handle && l'.madeFor == l.madeFor[outcome.handle := l'.srv]
              && l'.closed == l.closed + [l.cli]
            else l' == l
  {
    hide Cut, SameText, IsTestPath, StripSlash, Stored, Selected, AnyDiffers;
    if 0 <= level < 3 {
      AttemptsIff(fold, l.srv, level, comps);
      SelectedNames(fold, l.srv, level, comps);
    }
  }

  // ----- the method

  class Resource {
    const rootlevel: int
    const fold: Fold
    var workgroup: CStr
    var server_name: CStr
    var share_name: CStr

    function Srv(): Server
      reads this
    {
      Server(workgroup, server_name, share_name)
    }

    /** The three blocks that consume components into a copy of the server description. */
    method Select(path: CStr) returns (tmp: Server, newlevel: bool, p: CStr)
      requires 0 <= rootlevel < 3
      ensures tmp == Selected(fold, Srv(), rootlevel, Cut(rootlevel, path).comps)
      ensures newlevel <==> AnyDiffers(fold, Srv(), rootlevel, Cut(rootlevel, path).comps)
      ensures var comps := Cut(rootlevel, path).comps;
              && (forall j :: 0 <= j < |comps| ==> SameText(fold, comps[j], Stored(tmp)[rootlevel + j]))
              && (newlevel <==> exists j :: 0 <= j < |comps| &&
                                  (comps[j] == [] || !SameText(fold, comps[j], Stored(Srv())[rootlevel + j])))
      ensures p == Cut(rootlevel, path).rest
    {
      hide Cut, Head, Tail, Differs, Stored, SameText;
      CutAll(rootlevel, path);
      AttemptsIff(fold, Srv(), rootlevel, Cut(rootlevel, path).comps);
      SelectedNames(fold, Srv(), rootlevel, Cut(rootlevel, path).comps);
      p := path;
      newlevel := false;
      tmp := Srv();
      var level := rootlevel;
      var comp;
      if level == 0 {
        comp, p := NextComponent(p);
        if Differs(fold, tmp.workgroup, comp) {
          tmp := tmp.(workgroup := comp);
          newlevel := true;
        }
        level := 1;
      }
      if level == 1 {
        comp, p := NextComponent(p);
        if Differs(fold, tmp.server_name, comp) {
          tmp := tmp.(server_name := comp);
          newlevel := true;
        }
        level := 2;
      }
      comp, p := NextComponent(p);
      if Differs(fold, tmp.share_name, comp) {
        tmp := tmp.(share_name := comp);
        newlevel := true;
      }
    }

    constructor (fold: Fold, rootlevel: int, srv: Server)
      ensures this.rootlevel == rootlevel && this.fold == fold && Srv() == srv
    {
      this.fold := fold;
      this.rootlevel := rootlevel;
      workgroup, server_name, share_name := srv.workgroup, srv.server_name, srv.share_name;
    }
  }

  /** All components spelled out. */
  lemma CutAll(level: int, path: CStr)
    requires 0 <= level < 3
    ensures level == 2 ==> Cut(2, path) == Split([Head(path)], Tail(path))
    ensures level == 1 ==> Cut(1, path) == Split([Head(path), Head(Tail(path))], Tail(Tail(path)))
    ensures level == 0 ==>
              Cut(0, path) == Split([Head(path), Head(Tail(path)), Head(Tail(Tail(path)))], Tail(Tail(Tail(path))))
    decreases 3 - level
  {
    assert Cut(3, Tail(path)) == Split([], Tail(path));
    if level < 2 {
      CutAll(level + 1, Tail(path));
    }
  }

  class Connection {
    const pRes: Resource
    var cli: int
    ghost var madeFor: map<int, Server>
    ghost var closed: seq<int>

    ghost function Value(): Link
      reads this, pRes
    {
      Link(pRes.Srv(), cli, madeFor, closed)
    }

    constructor (pRes: Resource, cli: int)
      ensures this.pRes == pRes
      ensures Value() == Link(pRes.Srv(), cli, map[cli := pRes.Srv()], [])
    {
      this.pRes := pRes;
      this.cli := cli;
      madeFor := map[cli := pRes.Srv()];
      closed := [];
    }

    /** smbwrp_disconnect */
    method Disconnect(handle: int)
      modifies `closed
      ensures closed == old(closed) + [handle]
    {
      closed := closed + [handle];
    }

    /** smbwrp_connect for what the resource names; a refusal changes nothing. */
    method Connect(outcome: Outcome)
      modifies `cli, `madeFor
      ensures Value() == if outcome.Connected? then old(Value()).(cli := outcome.handle,
                                                                 madeFor := old(madeFor)[outcome.handle := pRes.Srv()])
                         else old(Value())
    {
      if outcome.Connected? {
        cli := outcome.handle;
        madeFor := madeFor[cli := pRes.Srv()];
      }
    }

    /** `outcome` is what the server would answer to a connection attempt. */
    method PathParser(path: CStr, outcome: Outcome) returns (rc: int, result: CStr, ghost attempted: bool)
      requires 0 <= pRes.rootlevel <= 3
      requires outcome.Refused? ==> outcome.rc != NO_ERROR
      modifies this, pRes
      ensures Value() == Parse(pRes.fold, old(Value()), pRes.rootlevel, path, outcome)
      ensures attempted <==> Attempts(pRes.fold, pRes.rootlevel, old(pRes.Srv()), path)
      ensures var comps := Cut(pRes.rootlevel, StripSlash(path)).comps;
              && (attempted <==>
                  && !Ignored(pRes.rootlevel, path)
                  && exists j :: 0 <= j < |comps| &&
                       (comps[j] == [] ||
                        !SameText(pRes.fold, comps[j], Stored(old(pRes.Srv()))[pRes.rootlevel + j])))
              && (if attempted && outcome.Connected? then
                    && (forall j :: 0 <= j < |comps| ==>
                          SameText(pRes.fold, comps[j], Stored(pRes.Srv())[pRes.rootlevel + j]))
                    && cli == outcome.handle && closed == old(closed) + [old(cli)]
                  else Value() == old(Value()))
      ensures rc == if attempted && outcome.Refused? then outcome.rc else NO_ERROR
      ensures result == if IsTestPath(path) then "\\A.+,;=[].B"
                        else var rest := Cut(pRes.rootlevel, StripSlash(path)).rest;
                             [SLASH] + rest[..if |rest| < 260 then |rest| else 260]
    {
      hide Cut, Selected, AnyDiffers, Stored, SameText, Ignored;
      ParseMeans(pRes.fold, Value(), pRes.rootlevel, path, outcome, Cut(pRes.rootlevel, StripSlash(path)).comps);
      rc := NO_ERROR;
      attempted := false;
      var test := IfTestPath(path);
      if test {
        return rc, TEST_RESULT, false;
      }
      var p := StripSlash(path);
      if pRes.rootlevel < 3 {
        var tmp, newlevel;
        tmp, newlevel, p := pRes.Select(p);
        if newlevel {
          attempted := true;
          match outcome
          case Refused(code) =>
            rc := code;
          case Connected(handle) =>
            Disconnect(cli);
            pRes.workgroup, pRes.server_name, pRes.share_name := tmp.workgroup, tmp.server_name, tmp.share_name;
            cli := handle;
            madeFor := madeFor[handle := tmp];
        }
      } else {
        NothingToCut(pRes.rootlevel, p);
      }
      result := [SLASH] + p[..if |p| < CCHMAXPATH then |p| else CCHMAXPATH];
    }
  }

  lemma NothingToCut(level: int, path: CStr)
    requires level >= 3
    ensures Cut(level, path) == Split([], path)
  {
  }

  /** The component before the next backslash, and the path after it. */
  method NextComponent(path: CStr) returns (comp: CStr, rest: CStr)
    ensures comp == Head(path) && rest == Tail(path)
  {
    var p := FirstSlash(path);
    comp := path[..p];
    rest := if p < |path| then path[p + 1..] else path[p..];
  }

  /** iftestpath: from one 'A' to the next. */
  method IfTestPath(path: CStr) returns (found: bool)
    ensures found <==> IsTestPath(path)
    ensures found <==> exists k :: 0 <= k <= |path| && "A.+,;=[].B" <= path[k..]
  {
    var p := 0;
    while p < |path|
      invariant 0 <= p <= |path|
      invariant forall k :: 0 <= k < p ==> !(TEST_PATTERN <= path[k..])
    {
      if path[p] == 'A' && TEST_PATTERN <= path[p..] {
        return true;
      }
      p := p + 1;
    }
    return false;
  }
}
