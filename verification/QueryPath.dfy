/** NdpQueryPathInfo: the status of a path, from the cache or from the server, against the
    error codes the plugin must return. */
module QueryPath {
  import opened Wrappers
  import opened CString
  import opened ErrorCodes
  import opened PathKeys
  import opened PathSplit
  import opened PathParser
  import opened ConnectionRuns
  import opened CacheModel
  import opened DirCache

  /** An answer of smbwrp_getattr. */
  datatype Attr = Attr(rc: int, directory: bool)

  /** What the server would answer to each of the questions, should they be asked. */
  datatype Env = Env(
    parse: Outcome,     // the connection attempt of pathparser
    alive: bool,        // smbwrp_echo
    echo: Outcome,      // the connection attempt after a failed echo
    first: Attr,        // the path
    lost: Outcome,      // the connection attempt after ERROR_REM_NOT_LIST
    second: Attr,       // the path again
    upper: Attr)        // the path without its last component

  /** Codes that pathparser's callers pass on; any other becomes ERROR_PATH_NOT_FOUND. */
  function Passed(rc: int): int {
    if rc == NO_ERROR || rc == ERROR_FILE_NOT_FOUND || rc == ERROR_PATH_NOT_FOUND ||
       rc == ERROR_ACCESS_DENIED || rc == ERROR_INVALID_PARAMETER then rc
    else ERROR_PATH_NOT_FOUND
  }

  function PassedFromServer(rc: int): int {
    if rc == ERROR_REM_NOT_LIST then rc else Passed(rc)
  }

  /** The answer for the path that counts: the second one if the first found the server gone
      and a new connection could be made. */
  function Effective(env: Env): Attr {
    if env.first.rc == ERROR_REM_NOT_LIST && env.lost.Connected? then env.second else env.first
  }

  /** The status from the server's answers alone. */
  function FromServer(path: CStr, env: Env): int {
    var rc := PassedFromServer(Effective(env).rc);
    if rc == ERROR_FILE_NOT_FOUND && LastSlash(path) > 0 then
      if env.upper.rc == NO_ERROR then (if env.upper.directory then ERROR_FILE_NOT_FOUND else ERROR_PATH_NOT_FOUND)
      else if env.upper.rc != ERROR_REM_NOT_LIST then ERROR_PATH_NOT_FOUND
      else env.upper.rc
    else rc
  }

  const FRESH_AGE: nat := 15

  function FreshHit(keys: Keying, l: seq<Listing>, szPath: CStr, now: ULONG): bool {
    var hit := FindPath(keys, l, szPath, now);
    hit.Some? && hit.value.age <= FRESH_AGE
  }

  /** The name reported for a path: its last component, or the share's for the root. */
  function ReportedName(fname: CStr, share: CStr): CStr {
    if LeafName(fname) == [] then share else LeafName(fname)
  }

  /** The remainder of the path within the share, as pathparser returns it. */
  function ServerPath(level: int, szPath: CStr): CStr {
    var rest := Cut(level, StripSlash(szPath)).rest;
    [SLASH] + rest[..if |rest| < CCHMAXPATH then |rest| else CCHMAXPATH]
  }

  /** What pathparser makes of a path. */
  ghost function AskedPath(level: int, szPath: CStr): CStr {
    if IsTestPath(szPath) then TEST_RESULT else ServerPath(level, szPath)
  }

  /** A status, the name reported with it, and the connection afterwards. */
  datatype Result = Result(rc: int, reported: Option<CStr>, link: Link)

  /** Asking a server that answers the echo or was just connected to. */
  function AskServer(l: Link, path: CStr, env: Env): Result {
    var rc := FromServer(path, env);
    Result(
      rc,
      if Effective(env).rc == NO_ERROR then Some(ReportedName(path, l.srv.share_name)) else None,
      if env.first.rc == ERROR_REM_NOT_LIST then Reconnect(l.(closed := l.closed + [l.cli]), env.lost) else l)
  }

  /** Asking about a path that the cache did not answer. */
  ghost function Ask(fold: Fold, level: int, l: Link, szPath: CStr, env: Env): Result {
    var path := AskedPath(level, szPath);
    var link := Parse(fold, l, level, szPath, env.parse);
    if Attempts(fold, level, l.srv, szPath) && env.parse.Refused? then Result(Passed(env.parse.rc), None, link)
    else if !env.alive && env.echo.Refused? then Result(ERROR_PATH_NOT_FOUND, None, link)
    else AskServer(if env.alive then link else Reconnect(link, env.echo), path, env)
  }

  /** The answer to a query: wildcards are not looked up, fresh cache hits come next. */
  ghost function Query(keys: Keying, linked: seq<Listing>, fold: Fold, level: int, l: Link, szPath: CStr, now: ULONG,
                       env: Env): Result {
    if HasWildcard(szPath) then Result(ERROR_FILE_NOT_FOUND, None, l)
    else if FreshHit(keys, linked, szPath, now) then
      Result(NO_ERROR, Some(ReportedName(FindPath(keys, linked, szPath, now).value.info.fname, l.srv.share_name)), l)
    else Ask(fold, level, l, szPath, env)
  }

  /** The part of NdpQueryPathInfo from smbwrp_getattr on. */
  method QueryServer(pConn: Connection, fname: CStr, env: Env) returns (rc: int, reported: Option<CStr>)
    modifies pConn
    ensures Result(rc, reported, pConn.Value()) == AskServer(old(pConn.Value()), fname, env)
  {
    reported := None;
    rc := env.first.rc;
    if rc != NO_ERROR {
      if rc == ERROR_REM_NOT_LIST {
        pConn.Disconnect(pConn.cli);
        pConn.Connect(env.lost);
        if env.lost.Connected? {
          rc := env.second.rc;
        }
      }
      rc := PassedFromServer(rc);
    }
    if rc == NO_ERROR {
      reported := Some(ReportedName(fname, pConn.pRes.share_name));
    } else if rc == ERROR_FILE_NOT_FOUND {
      var p := LastSlash(fname);
      if p > 0 {
        rc := env.upper.rc;
        if rc == NO_ERROR {
          rc := if env.upper.directory then ERROR_FILE_NOT_FOUND else ERROR_PATH_NOT_FOUND;
        } else if rc != ERROR_REM_NOT_LIST {
          rc := ERROR_PATH_NOT_FOUND;
        }
      }
    }
  }

  /** NdpQueryPathInfo; `reported` is the name handed to NetDrive on success. */
  method NdpQueryPathInfo(pConn: Connection, pdc: DirectoryCache, szPath: CStr, now: ULONG, env: Env)
    returns (rc: int, reported: Option<CStr>)
    requires pdc.Valid() && 0 <= pConn.pRes.rootlevel <= 3
    requires env.parse.Refused? ==> env.parse.rc != NO_ERROR
    modifies pConn, pConn.pRes
    ensures Result(rc, reported, pConn.Value()) ==
            Query(pdc.keys, old(pdc.model.linked), pConn.pRes.fold, pConn.pRes.rootlevel, old(pConn.Value()), szPath,
                  now, env)
  {
    hide DirectoryCache.Valid, Parse, IsTestPath, AnyDiffers, Cut, AskServer, Passed;
    if HasWildcard(szPath) {
      return ERROR_FILE_NOT_FOUND, None;
    }
    var hit := pdc.DirCacheFindPath(szPath, now);
    if hit.Some? && hit.value.age <= FRESH_AGE {
      return NO_ERROR, Some(ReportedName(hit.value.info.fname, pConn.pRes.share_name));
    }
    rc, reported := QueryUncached(pConn, szPath, env);
  }

  method QueryUncached(pConn: Connection, szPath: CStr, env: Env) returns (rc: int, reported: Option<CStr>)
    requires 0 <= pConn.pRes.rootlevel <= 3
    requires env.parse.Refused? ==> env.parse.rc != NO_ERROR
    modifies pConn, pConn.pRes
    ensures Result(rc, reported, pConn.Value()) ==
            Ask(pConn.pRes.fold, pConn.pRes.rootlevel, old(pConn.Value()), szPath, env)
  {
    hide Parse, IsTestPath, AnyDiffers, Cut, AskServer;
    var path: CStr;
    ghost var attempted;
    reported := None;
    rc, path, attempted := pConn.PathParser(szPath, env.parse);
    rc := Passed(rc);
    if rc != NO_ERROR {
      return;
    }
    if !env.alive {
      if env.echo.Refused? {
        return ERROR_PATH_NOT_FOUND, None;
      }
      pConn.Connect(env.echo);
    }
    rc, reported := QueryServer(pConn, path, env);
  }

  // ----- the last component

  lemma LeafBehindSlash(a: CStr, b: CStr)
    ensures LeafName(a + [SLASH] + b) == LeafName(b)
  {
    hide LastSlash;
    var s, k := a + [SLASH] + b, LastSlash(b);
    assert s[|a|] == SLASH && s[|a| + 1..] == b;
    assert forall i :: 0 <= i < |b| ==> s[|a| + 1 + i] == b[i];
    LastSlashUnique(s, |a| + 1 + k);
    assert s[|a| + 1 + k + 1..] == s[|a| + 1..][k + 1..];
  }

  lemma {:induction false} LeafOfJoin(comps: seq<CStr>, rest: CStr)
    ensures LeafName(Join(comps, rest)) == LeafName(rest)
  {
    if comps != [] {
      LeafOfJoin(comps[1..], rest);
      LeafBehindSlash(comps[0], Join(comps[1..], rest));
    }
  }

  /** What the server is asked about has the last component of the path, if the path leads below
      the share and fits. */
  lemma ServerLeaf(level: int, szPath: CStr)
    requires 0 <= level <= 3 && 0 < |Cut(level, StripSlash(szPath)).rest| <= CCHMAXPATH
    ensures LeafName(ServerPath(level, szPath)) == LeafName(szPath)
  {
    hide LeafName, Cut, Missing;
    var s := Cut(level, StripSlash(szPath));
    SplitLosesNothing(level, StripSlash(szPath));
    assert StripSlash(szPath) + Slashes(0) == StripSlash(szPath);
    LeafOfJoin(s.comps, s.rest);
    LeafBehindSlash([], s.rest);
    assert [] + [SLASH] + s.rest == ServerPath(level, szPath);
    if szPath != StripSlash(szPath) {
      LeafBehindSlash([], StripSlash(szPath));
      assert [] + [SLASH] + StripSlash(szPath) == szPath;
    }
  }

  /** Below the share the server path has a parent where the mounted path has one. */
  lemma AskedParent(level: int, szPath: CStr)
    requires 0 <= level <= 3 && LastSlash(AskedPath(level, szPath)) > 0
    requires !IsTestPath(szPath) ==> |Cut(level, StripSlash(szPath)).rest| <= CCHMAXPATH
    ensures LastSlash(szPath) > 0
  {
    hide Cut, IsTestPath, LastSlash, StripSlash;
    TestSlash();
    assert !IsTestPath(szPath);
    var rest := Cut(level, StripSlash(szPath)).rest;
    assert rest[..|rest|] == rest;
    RestBehind(level, StripSlash(szPath));
    ParentAbove(szPath, rest);
  }

  lemma TestSlash()
    ensures LastSlash(TEST_RESULT) == 0
  {
    hide LastSlash;
    LastSlashUnique(TEST_RESULT, 0);
  }

  lemma ParentAbove(szPath: CStr, rest: CStr)
    requires var p := StripSlash(szPath); |rest| <= |p| && p[|p| - |rest|..] == rest
    requires LastSlash([SLASH] + rest) > 0
    ensures LastSlash(szPath) > 0
  {
    hide LastSlash;
    var p, k := StripSlash(szPath), LastSlash([SLASH] + rest);
    assert rest[k - 1] == SLASH;
    assert p[|p| - |rest|..][k - 1] == p[|p| - |rest| + k - 1];
    assert p[0] == SLASH ==> szPath[0] == SLASH && szPath[1] == SLASH;
  }

  lemma {:induction false} RestBehind(level: int, path: CStr)
    ensures var rest := Cut(level, path).rest; |rest| <= |path| && path[|path| - |rest|..] == rest
    decreases 3 - level
  {
    hide FirstSlash;
    if level < 3 {
      RestBehind(level + 1, Tail(path));
      var rest, k := Cut(level, path).rest, FirstSlash(path);
      if k < |path| {
        assert path[k + 1..][|path| - k - 1 - |rest|..] == path[|path| - |rest|..];
      }
    }
  }
}
