/** The entry points that change names on the server or list a directory, over the cache in
    memory. Each runs under the plugin lock and moves the world as Coherence says. */
module Plugin {
  import opened CString
  import PathHash
  import opened PathKeys
  import opened PathSplit
  import opened CacheModel
  import opened DirCache
  import opened Coherence
  import opened MovePath
  import opened Selections

  /** What the server was asked to do, and what was cached at that time. */
  datatype Request = Request(op: Op, cached: seq<Listing>)

  /** The server as far as the plugin can tell. */
  class SmbServer {
    const fold: Fold
    ghost var dirs: Dirs
    ghost var asked: seq<Request>

    constructor (fold: Fold, dirs: Dirs)
      ensures this.fold == fold && this.dirs == dirs && asked == []
    {
      this.fold := fold;
      this.dirs := dirs;
      asked := [];
    }

    /** The server's part of an operation. */
    method Perform(ghost request: Request)
      requires Feasible(fold, dirs, request.op)
      modifies this
      ensures dirs == Serve(fold, old(dirs), request.op)
      ensures asked == old(asked) + [request]
    {
      dirs := Serve(fold, dirs, request.op);
      asked := asked + [request];
    }
  }

  class Session {
    const pdc: DirectoryCache
    const server: SmbServer

    /** The operations so far, and what the server contained before them. */
    ghost const start: Dirs
    ghost var ops: seq<Op>

    /** No fill is in progress, and no listing that lost a record is linked. */
    ghost predicate Ready()
      reads this, pdc, pdc.Repr
    {
      && pdc.Valid() && pdc.model.open == map[] && AllValid(pdc.model.linked)
      && pdc.cMaxEntries >= 1 && server !in pdc.Repr && this !in pdc.Repr
    }

    ghost predicate Valid()
      reads this, pdc, pdc.Repr, server
    {
      && Ready() && server.fold == pdc.keys.fold
      && Possible(pdc.Config(), start, ops) && World() == After(pdc.Config(), start, ops, |ops|)
    }

    ghost function World(): World
      reads this, pdc, server
    {
      Coherence.World(pdc.model.linked, server.dirs)
    }

    constructor (fold: Fold, cachetimeout: ULONG, cachedepth: int, server: SmbServer)
      requires cachedepth >= 1 && server.fold == fold
      ensures Valid() && fresh(pdc.Repr) && this.server == server && start == server.dirs && ops == []
      ensures pdc.Config() == CacheModel.Config(Keying(fold, PathHash.Hash), true, cachetimeout, cachedepth)
    {
      pdc := new DirectoryCache(fold, cachetimeout, cachedepth);
      this.server := server;
      start := server.dirs;
      ops := [];
    }

    /** One more operation is logged. */
    ghost method Log(op: Op)
      requires Possible(pdc.Config(), start, ops)
      requires Feasible(pdc.keys.fold, After(pdc.Config(), start, ops, |ops|).dirs, op)
      requires World() == Step(pdc.Config(), After(pdc.Config(), start, ops, |ops|), op)
      modifies `ops
      ensures ops == old(ops) + [op]
      ensures Possible(pdc.Config(), start, ops) && World() == After(pdc.Config(), start, ops, |ops|)
    {
      RunGrows(pdc.Config(), start, ops, op);
      ops := ops + [op];
    }

    /** Whatever ran before: what is cached for an existing directory is what the server has. */
    lemma CacheIsCurrent(spelled: set<CStr>, key: CStr, now: ULONG)
      requires Valid() && SpelledBy(pdc.keys.fold, ops, spelled)
      requires key in spelled && Place(pdc.keys.fold, key) in server.dirs
      ensures var served := ListResult(pdc.Config(), pdc.model, key, now);
              served.Some? ==> Names(served.value) == server.dirs[Place(pdc.keys.fold, key)]
    {
      ServedNamesAreCurrent(pdc.Config(), start, ops, spelled, |ops|, key, now);
      assert pdc.model == State(pdc.model.linked, map[]);
    }

    /** NdpForceDelete; `parsed` and `done` are the outcomes of pathparser and of the server. */
    method NdpForceDelete(szFile: CStr, parsed: bool, done: bool)
      requires Valid() && Feasible(server.fold, server.dirs, DeleteFile(szFile, parsed && done))
      modifies this, pdc.Repr, server
      ensures Valid() && pdc.Config() == old(pdc.Config())
      ensures ops == old(ops) + [DeleteFile(szFile, parsed && done)]
      ensures World() == Step(pdc.Config(), old(World()), DeleteFile(szFile, parsed && done))
      ensures pdc.model.linked == Drop(pdc.keys, old(pdc.model.linked), ParentKey(szFile))
      ensures server.asked == old(server.asked) +
              if !parsed then [] else
                [Request(DeleteFile(szFile, done), Drop(pdc.keys, old(pdc.model.linked), ParentKey(szFile)))]
    {
      hide DirectoryCache.Valid, After, Possible, Feasible, Serve;
      CachedValid(pdc.Config(), pdc.model.linked, DeleteFile(szFile, parsed && done));
      pdc.DirCacheInvalidate(szFile, true);
      if parsed {
        server.Perform(Request(DeleteFile(szFile, done), pdc.model.linked));
      } else {
        NotDone(server.fold, server.dirs, szFile);
      }
      Log(DeleteFile(szFile, parsed && done));
    }

    method NdpCreateDir(szDirName: CStr, parsed: bool, done: bool)
      requires Valid() && Feasible(server.fold, server.dirs, MakeDir(szDirName, parsed && done))
      modifies this, pdc.Repr, server
      ensures Valid() && pdc.Config() == old(pdc.Config())
      ensures ops == old(ops) + [MakeDir(szDirName, parsed && done)]
      ensures World() == Step(pdc.Config(), old(World()), MakeDir(szDirName, parsed && done))
      ensures pdc.model.linked == Drop(pdc.keys, old(pdc.model.linked), ParentKey(szDirName))
      ensures server.asked == old(server.asked) +
              if !parsed then [] else
                [Request(MakeDir(szDirName, done), Drop(pdc.keys, old(pdc.model.linked), ParentKey(szDirName)))]
    {
      hide DirectoryCache.Valid, After, Possible, Feasible, Serve;
      CachedValid(pdc.Config(), pdc.model.linked, MakeDir(szDirName, parsed && done));
      pdc.DirCacheInvalidate(szDirName, true);
      if parsed {
        server.Perform(Request(MakeDir(szDirName, done), pdc.model.linked));
      } else {
        NotDone(server.fold, server.dirs, szDirName);
      }
      Log(MakeDir(szDirName, parsed && done));
    }

    method NdpDeleteDir(szDir: CStr, parsed: bool, done: bool)
      requires Valid() && Feasible(server.fold, server.dirs, RemoveDir(szDir, parsed && done))
      modifies this, pdc.Repr, server
      ensures Valid() && pdc.Config() == old(pdc.Config())
      ensures ops == old(ops) + [RemoveDir(szDir, parsed && done)]
      ensures World() == Step(pdc.Config(), old(World()), RemoveDir(szDir, parsed && done))
      ensures pdc.model.linked == Drop(pdc.keys, old(pdc.model.linked), ParentKey(szDir))
      ensures server.asked == old(server.asked) +
              if !parsed then [] else
                [Request(RemoveDir(szDir, done), Drop(pdc.keys, old(pdc.model.linked), ParentKey(szDir)))]
    {
      hide DirectoryCache.Valid, After, Possible, Feasible, Serve;
      CachedValid(pdc.Config(), pdc.model.linked, RemoveDir(szDir, parsed && done));
      pdc.DirCacheInvalidate(szDir, true);
      if parsed {
        server.Perform(Request(RemoveDir(szDir, done), pdc.model.linked));
      } else {
        NotDone(server.fold, server.dirs, szDir);
      }
      Log(RemoveDir(szDir, parsed && done));
    }

    /** NdpMove of a file; `src` is what pathparser made of the source path. The file goes to the
        path that RenameTarget says; the listings of the source's and the destination's parents go
        in any case. */
    method NdpMove(szDst: CStr, szSrc: CStr, parsed: bool, src: CStr, done: bool)
      requires Valid() && RenameTarget(server.fold, szSrc, src, szDst) != BehindEnd
      requires Feasible(server.fold, server.dirs, Moving(server.fold, szSrc, szDst, src, parsed && done))
      modifies this, pdc.Repr, server
      ensures Valid() && pdc.Config() == old(pdc.Config())
      ensures ops == old(ops) + [Moving(server.fold, szSrc, szDst, src, parsed && done)]
      ensures World() == Step(pdc.Config(), old(World()), Moving(server.fold, szSrc, szDst, src, parsed && done))
      ensures pdc.model.linked ==
              Drop(pdc.keys, Drop(pdc.keys, old(pdc.model.linked), ParentKey(szSrc)), ParentKey(szDst))
      ensures server.asked == old(server.asked) +
              if !parsed || RenameTarget(server.fold, szSrc, src, szDst).Refused? then [] else
                [Request(MoveFile(szSrc, szDst, RenameTarget(server.fold, szSrc, src, szDst).to, done),
                         Drop(pdc.keys, Drop(pdc.keys, old(pdc.model.linked), ParentKey(szSrc)), ParentKey(szDst)))]
    {
      hide DirectoryCache.Valid, After, Possible, Feasible, Serve, RenameTarget, Drop, ParentKey, AllValid;
      ghost var op := Moving(server.fold, szSrc, szDst, src, parsed && done);
      CachedValid(pdc.Config(), pdc.model.linked, op);
      pdc.DirCacheInvalidate(szSrc, true);
      pdc.DirCacheInvalidate(szDst, true);
      NotMoved(server.fold, server.dirs, szSrc, szDst);
      var target := FindTarget(szSrc, src, szDst);
      if parsed && target.Renamed? {
        server.Perform(Request(MoveFile(szSrc, szDst, target.to, done), pdc.model.linked));
      }
      Log(op);
    }

    /** The comparison of the two paths and the choice of the name that the server is told. */
    method FindTarget(szSrc: CStr, src: CStr, szDst: CStr) returns (target: Target)
      ensures target == RenameTarget(server.fold, szSrc, src, szDst)
    {
      var l1, l2 := |szSrc|, |src|;
      target := Renamed(szDst);
      if l1 > l2 {
        if |szDst| < l1 - l2 || !SameText(server.fold, szSrc[..l1 - l2], szDst[..l1 - l2]) {
          return Refused;
        }
        if |szDst| == l1 - l2 {
          return BehindEnd;
        }
        target := Renamed(szSrc[..l1 - l2] + [SLASH] + StripSlash(szDst[l1 - l2 + 1..]));
      }
    }

    /** smbopen; only with O_CREAT can it make a name. */
    method SmbOpen(szFileName: CStr, oCreat: bool, alreadyOpen: bool, parsed: bool, done: bool)
      requires Valid()
      requires Feasible(server.fold, server.dirs, CreateFile(szFileName, oCreat && !alreadyOpen && parsed && done))
      modifies this, pdc.Repr, server
      ensures Valid() && pdc.Config() == old(pdc.Config())
      ensures ops == old(ops) + if oCreat then [CreateFile(szFileName, !alreadyOpen && parsed && done)] else []
      ensures World() == if oCreat
                         then Step(pdc.Config(), old(World()), CreateFile(szFileName, !alreadyOpen && parsed && done))
                         else old(World())
      ensures pdc.model.linked == if oCreat then Drop(pdc.keys, old(pdc.model.linked), ParentKey(szFileName))
                                  else old(pdc.model.linked)
      ensures server.asked == old(server.asked) +
              if alreadyOpen || !parsed then [] else
                [Request(CreateFile(szFileName, oCreat && done),
                         if oCreat then Drop(pdc.keys, old(pdc.model.linked), ParentKey(szFileName))
                         else old(pdc.model.linked))]
    {
      hide DirectoryCache.Valid, After, Possible, Feasible, Serve;
      CachedValid(pdc.Config(), pdc.model.linked, Touch(szFileName));
      if oCreat {
        pdc.DirCacheInvalidate(szFileName, true);
      }
      NotDone(server.fold, server.dirs, szFileName);
      if !alreadyOpen && parsed {
        server.Perform(Request(CreateFile(szFileName, oCreat && done), pdc.model.linked));
      }
      if oCreat {
        Log(CreateFile(szFileName, !alreadyOpen && parsed && done));
      }
    }

    /** NdpFileWrite, NdpFileSetInfo, NdpSetPathInfo: no names change, the listing goes anyway. */
    method NdpTouch(fullname: CStr)
      requires Valid()
      modifies this, pdc.Repr
      ensures Valid() && pdc.Config() == old(pdc.Config())
      ensures ops == old(ops) + [Touch(fullname)]
      ensures World() == Step(pdc.Config(), old(World()), Touch(fullname))
      ensures pdc.model.linked == Drop(pdc.keys, old(pdc.model.linked), ParentKey(fullname))
    {
      hide DirectoryCache.Valid, After, Possible, ParentKey, Drop;
      CachedValid(pdc.Config(), pdc.model.linked, Touch(fullname));
      pdc.DirCacheInvalidate(fullname, true);
      Log(Touch(fullname));
    }

    /** The loop over the records of a listing: each goes to the caller's callback, which lists
        those that match the mask and the attributes asked for (`wanted`), and to the cache.
        `allocs(i)` is the outcome of a reallocation in round i. */
    method FillLoop(ctx: DirectoryCacheEntry?, infos: seq<FileInfo>, wanted: FileInfo -> bool, allocs: nat -> bool)
      returns (emitted: seq<FileInfo>, ghost lost: bool)
      requires pdc.Valid()
      requires ctx != null ==> ctx in pdc.model.open && !pdc.model.open[ctx].invalid && pdc.model.open[ctx].infos == []
      modifies pdc.Repr
      ensures pdc.Valid() && fresh(pdc.Repr - old(pdc.Repr)) && pdc.Config() == old(pdc.Config())
      ensures emitted == Matching(infos, wanted) && (lost ==> exists i :: 0 <= i < |infos| && !allocs(i))
      ensures ctx == null ==> pdc.model == old(pdc.model)
      ensures ctx != null ==>
                && ctx in pdc.model.open && pdc.model.open[ctx].invalid == lost
                && (!lost ==> pdc.model.open[ctx] == old(pdc.model.open)[ctx].(infos := infos))
                && pdc.model == old(pdc.model).(open := old(pdc.model.open)[ctx := pdc.model.open[ctx]])
    {
      hide DirectoryCache.Valid;
      emitted := [];
      lost := false;
      ghost var before := pdc.model;
      var i := 0;
      while i < |infos|
        invariant 0 <= i <= |infos| && emitted == Matching(infos[..i], wanted)
        invariant pdc.Valid() && fresh(pdc.Repr - old(pdc.Repr)) && pdc.Config() == old(pdc.Config())
        invariant lost ==> exists k :: 0 <= k < i && !allocs(k)
        invariant ctx == null ==> pdc.model == before
        invariant ctx != null ==>
                    && ctx in pdc.model.open && pdc.model.open[ctx].invalid == lost
                    && (!lost ==> pdc.model.open[ctx] == before.open[ctx].(infos := infos[..i]))
                    && pdc.model == before.(open := before.open[ctx := pdc.model.open[ctx]])
      {
        assert infos[..i + 1][..i] == infos[..i];
        if wanted(infos[i]) {
          emitted := emitted + [infos[i]];
        }
        var stored := pdc.WriteEntry(ctx, infos[i], allocs(i));
        lost := lost || (ctx != null && !stored);
        i := i + 1;
      }
      assert infos[..i] == infos;
    }

    /** list_files and list_files_smb2. `cFiles` is the size hint of the fill: 128 when the number
        of files is not known. Cached are all records, whatever the caller wants to see; with a mask
        longer than the path the cache is neither asked nor filled. */
    method ListFiles(fullpath: CStr, mask: CStr, wanted: FileInfo -> bool, now: ULONG, fetch: Fetch, cFiles: nat,
                     alloc: bool, allocs: nat -> bool, trim: bool, ghost spelled: set<CStr>)
      returns (emitted: seq<FileInfo>, ghost lost: bool)
      requires Valid()
      requires var key := DirKey(fullpath, mask);
               key.Some? ==> Feasible(server.fold, server.dirs, List(key.value, now, fetch, alloc, false))
      modifies this, pdc.Repr
      ensures Valid() && pdc.Config() == old(pdc.Config())
      ensures lost ==> fetch.Complete? && exists i :: 0 <= i < |fetch.infos| && !allocs(i)
      ensures var key := DirKey(fullpath, mask);
              if key.None? then
                && ops == old(ops) && World() == old(World())
                && emitted == Matching(match fetch
                                       case Unreachable => []
                                       case Broken(read) => read
                                       case Complete(infos) => infos, wanted)
              else
                var op := List(key.value, now, fetch, alloc, lost);
                var served := ListResult(pdc.Config(), old(pdc.model), key.value, now);
                && ops == old(ops) + [op]
                && World() == Step(pdc.Config(), old(World()), op)
                && emitted == Matching(if served.Some? then served.value
                                       else match fetch
                                            case Unreachable => []
                                            case Broken(read) => read
                                            case Complete(infos) => infos, wanted)
                && (served.Some? && SpelledBy(server.fold, old(ops), spelled) && key.value in spelled &&
                    Place(server.fold, key.value) in server.dirs ==>
                      Names(served.value) == server.dirs[Place(server.fold, key.value)])
    {
      hide DirectoryCache.Valid, After, Possible, Feasible, SpelledBy, Place, Names, Find, Listed, Serve, Matching;
      lost := false;
      var dirKey := DirKey(fullpath, mask);
      if dirKey.None? {
        emitted := Pass(Delivered(fetch), wanted);
        return;
      }
      var key := dirKey.value;
      if SpelledBy(server.fold, ops, spelled) && key in spelled && Place(server.fold, key) in server.dirs {
        CacheIsCurrent(spelled, key, now);
      }
      StillFeasible(server.fold, server.dirs, key, now, fetch, alloc);
      emitted, lost := ListOrFill(key, wanted, now, fetch, cFiles, alloc, allocs, trim);
      Log(List(key, now, fetch, alloc, lost));
    }

    method ListOrFill(key: CStr, wanted: FileInfo -> bool, now: ULONG, fetch: Fetch, cFiles: nat, alloc: bool,
                      allocs: nat -> bool, trim: bool)
      returns (emitted: seq<FileInfo>, ghost lost: bool)
      requires Ready()
      modifies pdc.Repr
      ensures Ready() && pdc.Config() == old(pdc.Config())
      ensures World() == Step(pdc.Config(), old(World()), List(key, now, fetch, alloc, lost))
      ensures lost ==> fetch.Complete? && exists i :: 0 <= i < |fetch.infos| && !allocs(i)
      ensures var served := ListResult(pdc.Config(), old(pdc.model), key, now);
              emitted == Matching(if served.Some? then served.value else Delivered(fetch), wanted)
    {
      hide DirectoryCache.Valid, Matching, Find, SameKey, Expired, Begun, Filled, Drop, PathHash.Hash;
      lost := false;
      var served := pdc.ListFiles(key, now);
      if served.Some? {
        emitted := Pass(served.value, wanted);
        return;
      }
      ExpiryKeepsValid(pdc.Config(), old(pdc.model.linked), key, now);
      match fetch
      case Unreachable =>
        NoneMatch(wanted);
        emitted := [];
      case Broken(read) =>
        emitted := BrokenFill(key, wanted, now, read, cFiles, alloc, allocs);
      case Complete(infos) =>
        emitted, lost := CompleteFill(key, wanted, now, infos, cFiles, alloc, allocs, trim);
    }

    /** A fill that ends in an error: what dircache_write_begin did to the list stays. */
    method BrokenFill(key: CStr, wanted: FileInfo -> bool, now: ULONG, read: seq<FileInfo>, cFiles: nat, alloc: bool,
                      allocs: nat -> bool) returns (emitted: seq<FileInfo>)
      requires Ready()
      modifies pdc.Repr
      ensures Ready() && pdc.Config() == old(pdc.Config()) && emitted == Matching(read, wanted)
      ensures pdc.model.linked == Begun(pdc.Config(), old(pdc.model.linked), key, now, alloc).0
    {
      hide DirectoryCache.Valid;
      var ctx := BeginFill(key, now, cFiles, alloc);
      ghost var lost;
      emitted, lost := FillLoop(ctx, read, wanted, allocs);
      if ctx != null {
        pdc.Release(ctx);
      }
    }

    method CompleteFill(key: CStr, wanted: FileInfo -> bool, now: ULONG, infos: seq<FileInfo>, cFiles: nat, alloc: bool,
                        allocs: nat -> bool, trim: bool) returns (emitted: seq<FileInfo>, ghost lost: bool)
      requires Ready()
      modifies pdc.Repr
      ensures Ready() && pdc.Config() == old(pdc.Config()) && emitted == Matching(infos, wanted)
      ensures lost ==> exists i :: 0 <= i < |infos| && !allocs(i)
      ensures pdc.model.linked == Filled(pdc.Config(), old(pdc.model.linked), key, now, infos, alloc, lost)
    {
      hide DirectoryCache.Valid;
      var ctx := BeginFill(key, now, cFiles, alloc);
      emitted, lost := FillLoop(ctx, infos, wanted, allocs);
      pdc.WriteEnd(ctx, trim);
    }

    method BeginFill(key: CStr, now: ULONG, cFiles: nat, alloc: bool) returns (ctx: DirectoryCacheEntry?)
      requires Ready()
      modifies pdc.Repr
      ensures pdc.Valid() && pdc.Config() == old(pdc.Config()) && fresh(pdc.Repr - old(pdc.Repr))
      ensures AllValid(pdc.model.linked)
      ensures var (base, e) := Begun(pdc.Config(), old(pdc.model.linked), key, now, alloc);
              && pdc.model.linked == base && (ctx != null <==> e.Some?)
              && (if ctx == null then pdc.model.open == map[]
                  else pdc.model.open == map[ctx := e.value] && !e.value.invalid && e.value.infos == [])
    {
      hide DirectoryCache.Valid;
      ghost var l := pdc.model.linked;
      BegunValid(pdc.Config(), l, key, now, alloc);
      ctx := pdc.WriteBegin(key, cFiles, now, alloc);
      if ctx != null {
        BegunIsWriteBegin(pdc.Config(), l, key, now, ctx, alloc);
      }
    }
  }

  lemma ExpiryKeepsValid(c: Config, l: seq<Listing>, key: CStr, now: ULONG)
    requires AllValid(l)
    ensures AllValid(CacheModel.ListFiles(c, State<int>.State(l, map[]), key, now).linked)
  {
  }

  /** The operation that a call of NdpMove amounts to. */
  function Moving(fold: Fold, szSrc: CStr, szDst: CStr, src: CStr, ok: bool): Op {
    match RenameTarget(fold, szSrc, src, szDst)
    case Renamed(to) => MoveFile(szSrc, szDst, to, ok)
    case _ => MoveFile(szSrc, szDst, szDst, false)
  }

  /** The records that are listed, in order. */
  function Matching(infos: seq<FileInfo>, wanted: FileInfo -> bool): seq<FileInfo> {
    if infos == [] then []
    else
      var last := infos[|infos| - 1];
      Matching(infos[..|infos| - 1], wanted) + if wanted(last) then [last] else []
  }

  lemma MatchingStep(infos: seq<FileInfo>, wanted: FileInfo -> bool)
    ensures infos == [] ==> Matching(infos, wanted) == []
    ensures infos != [] ==>
              var n := |infos| - 1;
              Matching(infos, wanted) == Matching(infos[..n], wanted) + if wanted(infos[n]) then [infos[n]] else []
  {
  }

  /** What a caller gets: exactly the records that match, in their order. `at` are their positions. */
  lemma {:induction false} MatchingSelects(infos: seq<FileInfo>, wanted: FileInfo -> bool) returns (at: seq<nat>)
    ensures Increasing(at, |infos|) && |at| == |Matching(infos, wanted)|
    ensures forall k :: 0 <= k < |at| ==> Matching(infos, wanted)[k] == infos[at[k]]
    ensures forall m :: 0 <= m < |infos| ==> (m in at <==> wanted(infos[m]))
  {
    hide Increasing, Matching;
    at := [];
    NoneTaken(|infos|);
    MatchingStep(infos, wanted);
    if infos != [] {
      var n := |infos| - 1;
      var before := MatchingSelects(infos[..n], wanted);
      at := before + if wanted(infos[n]) then [n] else [];
      Extended(before, n, wanted(infos[n]));
      assert forall m :: 0 <= m < n ==> infos[m] == infos[..n][m];
    }
  }

  /** The callback on each of the records, without a fill. */
  method Pass(infos: seq<FileInfo>, wanted: FileInfo -> bool) returns (emitted: seq<FileInfo>)
    ensures emitted == Matching(infos, wanted)
  {
    emitted := [];
    var i := 0;
    while i < |infos|
      invariant 0 <= i <= |infos| && emitted == Matching(infos[..i], wanted)
    {
      assert infos[..i + 1][..i] == infos[..i];
      if wanted(infos[i]) {
        emitted := emitted + [infos[i]];
      }
      i := i + 1;
    }
    assert infos[..i] == infos;
  }

  /** The records that the server delivers. */
  function Delivered(fetch: Fetch): seq<FileInfo> {
    match fetch
    case Unreachable => []
    case Broken(read) => read
    case Complete(infos) => infos
  }

  lemma NoneMatch(wanted: FileInfo -> bool)
    ensures Matching([], wanted) == []
  {
  }

  /** Every directory the operations used is spelled in one way only, and files were moved to where
      they should go. */
  predicate SpelledBy(fold: Fold, ops: seq<Op>, spelled: set<CStr>) {
    OneSpelling(fold, spelled) && forall i :: 0 <= i < |ops| ==> Regular(fold, ops[i], spelled)
  }

  lemma NotDone(fold: Fold, dirs: Dirs, path: CStr)
    ensures forall op | op in {CreateFile(path, false), DeleteFile(path, false),
                               MakeDir(path, false), RemoveDir(path, false)}
              :: Serve(fold, dirs, op) == dirs && Feasible(fold, dirs, op)
  {
  }

  lemma NotMoved(fold: Fold, dirs: Dirs, src: CStr, dst: CStr)
    ensures forall to :: Serve(fold, dirs, MoveFile(src, dst, to, false)) == dirs &&
                         Feasible(fold, dirs, MoveFile(src, dst, to, false))
  {
  }

  /** Whether a record was lost is no matter of the server. */
  lemma StillFeasible(fold: Fold, dirs: Dirs, key: CStr, now: ULONG, fetch: Fetch, alloc: bool)
    requires Feasible(fold, dirs, List(key, now, fetch, alloc, false))
    ensures Feasible(fold, dirs, List(key, now, fetch, alloc, true))
  {
  }

  lemma {:induction false} AfterPrefix(c: Config, dirs: Dirs, ops: seq<Op>, op: Op, n: nat)
    requires n <= |ops|
    ensures After(c, dirs, ops + [op], n) == After(c, dirs, ops, n)
  {
    hide Step;
    if n > 0 {
      AfterPrefix(c, dirs, ops, op, n - 1);
    }
  }

  /** One more operation makes a longer run. */
  lemma RunGrows(c: Config, dirs: Dirs, ops: seq<Op>, op: Op)
    requires Possible(c, dirs, ops) && Feasible(c.keys.fold, After(c, dirs, ops, |ops|).dirs, op)
    ensures Possible(c, dirs, ops + [op])
    ensures After(c, dirs, ops + [op], |ops| + 1) == Step(c, After(c, dirs, ops, |ops|), op)
  {
    hide Step, Feasible;
    forall n | 0 <= n <= |ops|
      ensures After(c, dirs, ops + [op], n) == After(c, dirs, ops, n)
    {
      AfterPrefix(c, dirs, ops, op, n);
    }
    assert forall n :: 0 <= n < |ops| ==> (ops + [op])[n] == ops[n];
  }
}
