/** The cache beside the server it speeds up. One client under the plugin lock: each entry
    point is one step that first invalidates the parent's listing and then asks the server. */
module Coherence {
  import opened Wrappers
  import opened CString
  import opened PathKeys
  import opened PathSplit
  import opened CacheModel

  /** Where a path leads on the server, which ignores case and a leading backslash. */
  function Place(fold: Fold, path: CStr): CStr {
    var p := StripSlash(path);
    seq(|p|, i requires 0 <= i < |p| => fold(p[i]))
  }

  /** The names in each existing directory of the server, as they are spelled there, by place. */
  type Dirs = map<CStr, set<CStr>>

  /** What a new directory contains. */
  const FRESH: set<CStr> := {".", ".."}

  datatype World = World(linked: seq<Listing>, dirs: Dirs)

  function Names(infos: seq<FileInfo>): set<CStr> {
    set i | 0 <= i < |infos| :: infos[i].fname
  }

  /** What the server answers to a listing request: nothing at all, some records before an
      error, or everything. */
  datatype Fetch = Unreachable | Broken(read: seq<FileInfo>) | Complete(infos: seq<FileInfo>)

  /** `ok` is whether the server carried the operation out; `to` is where the server put a file
      that was to be moved to `dst`. */
  datatype Op =
    | CreateFile(path: CStr, ok: bool)
    | DeleteFile(path: CStr, ok: bool)
    | MakeDir(path: CStr, ok: bool)
    | RemoveDir(path: CStr, ok: bool)
    | MoveFile(src: CStr, dst: CStr, to: CStr, ok: bool)
    | Touch(path: CStr)
    | List(key: CStr, now: ULONG, fetch: Fetch, alloc: bool, lost: bool)

  // ----- the server

  predicate Contains(fold: Fold, names: set<CStr>, name: CStr) {
    exists m :: m in names && SameText(fold, m, name)
  }

  /** A name that is there in another case stays as it is. */
  function AddName(fold: Fold, dirs: Dirs, path: CStr): Dirs {
    var d := Place(fold, ParentKey(path));
    if d in dirs && !Contains(fold, dirs[d], LeafName(path)) then dirs[d := dirs[d] + {LeafName(path)}] else dirs
  }

  function DropName(fold: Fold, dirs: Dirs, path: CStr): Dirs {
    var d := Place(fold, ParentKey(path));
    if d in dirs then dirs[d := set m | m in dirs[d] && !SameText(fold, m, LeafName(path))] else dirs
  }

  /** When the server can carry an operation out: in particular a directory is removed only
      when it is empty, and only files are moved. */
  predicate Feasible(fold: Fold, dirs: Dirs, op: Op) {
    match op
    case CreateFile(path, ok) => ok ==> Place(fold, ParentKey(path)) in dirs && Place(fold, path) !in dirs
    case DeleteFile(path, ok) => ok ==> Place(fold, ParentKey(path)) in dirs && Place(fold, path) !in dirs
    case MakeDir(path, ok) => ok ==> Place(fold, ParentKey(path)) in dirs && Place(fold, path) !in dirs
    case RemoveDir(path, ok) =>
      ok ==>
        && Place(fold, ParentKey(path)) in dirs && Place(fold, path) in dirs
        && dirs[Place(fold, path)] == FRESH && Place(fold, path) != Place(fold, ParentKey(path))
    case MoveFile(src, _, to, ok) =>
      ok ==>
        && Place(fold, ParentKey(src)) in dirs && Place(fold, ParentKey(to)) in dirs
        && Place(fold, src) !in dirs && Place(fold, to) !in dirs
    case Touch(_) => true
    case List(key, _, fetch, _, _) =>
      fetch.Complete? ==> Place(fold, key) in dirs && Names(fetch.infos) == dirs[Place(fold, key)]
  }

  function Serve(fold: Fold, dirs: Dirs, op: Op): Dirs {
    match op
    case CreateFile(path, ok) => if ok then AddName(fold, dirs, path) else dirs
    case DeleteFile(path, ok) => if ok then DropName(fold, dirs, path) else dirs
    case MakeDir(path, ok) => if ok then AddName(fold, dirs, path)[Place(fold, path) := FRESH] else dirs
    case RemoveDir(path, ok) => if ok then DropName(fold, dirs, path) - {Place(fold, path)} else dirs
    case MoveFile(src, _, to, ok) => if ok then AddName(fold, DropName(fold, dirs, src), to) else dirs
    case Touch(_) => dirs
    case List(_, _, _, _, _) => dirs
  }

  // ----- the cache

  /** The list after a fill began, and the listing that is being filled. */
  function Begun(c: Config, l: seq<Listing>, key: CStr, now: ULONG, alloc: bool): (seq<Listing>, Option<Listing>) {
    var l1 := Evict(c, l);
    if !c.enabled then (l1, None)
    else
      var i := Find(c.keys, l1, key);
      if i < |l1| then (Without(l1, i), Some(l1[i].(infos := [], time := now)))
      else if alloc then (l1, Some(Listing(key, now, [], false)))
      else (l1, None)
  }

  /** The list after a whole fill; a fill that lost a record leaves nothing. */
  function Filled(c: Config, l: seq<Listing>, key: CStr, now: ULONG, infos: seq<FileInfo>, alloc: bool,
                  lost: bool): seq<Listing> {
    var (base, e) := Begun(c, l, key, now, alloc);
    if e.Some? && !lost then [e.value.(infos := infos)] + base else base
  }

  /** list_files: the cache is asked first; what the server delivers completely is cached. */
  function Listed(c: Config, l: seq<Listing>, key: CStr, now: ULONG, fetch: Fetch, alloc: bool,
                  lost: bool): seq<Listing> {
    var s: State<int> := State(l, map[]);
    if ListResult(c, s, key, now).Some? then l
    else
      var l1 := ListFiles(c, s, key, now).linked;
      match fetch
      case Unreachable => l1
      case Broken(_) => Begun(c, l1, key, now, alloc).0
      case Complete(infos) => Filled(c, l1, key, now, infos, alloc, lost)
  }

  function Cached(c: Config, l: seq<Listing>, op: Op): seq<Listing> {
    match op
    case CreateFile(path, _) => Drop(c.keys, l, ParentKey(path))
    case DeleteFile(path, _) => Drop(c.keys, l, ParentKey(path))
    case MakeDir(path, _) => Drop(c.keys, l, ParentKey(path))
    case RemoveDir(path, _) => Drop(c.keys, l, ParentKey(path))
    case MoveFile(src, dst, _, _) => Drop(c.keys, Drop(c.keys, l, ParentKey(src)), ParentKey(dst))
    case Touch(path) => Drop(c.keys, l, ParentKey(path))
    case List(key, now, fetch, alloc, lost) => Listed(c, l, key, now, fetch, alloc, lost)
  }

  function Step(c: Config, w: World, op: Op): World {
    World(Cached(c, w.linked, op), Serve(c.keys.fold, w.dirs, op))
  }

  // ----- what the operations mean

  /** Two paths lead to the same place if they agree up to case and a leading backslash. */
  lemma PlaceMeans(fold: Fold, a: CStr, b: CStr)
    ensures Place(fold, a) == Place(fold, b) <==> SameText(fold, StripSlash(a), StripSlash(b))
  {
    var p, q := Place(fold, a), Place(fold, b);
    assert forall i :: 0 <= i < |p| ==> p[i] == fold(StripSlash(a)[i]);
    assert forall i :: 0 <= i < |q| ==> q[i] == fold(StripSlash(b)[i]);
  }

  /** A name is added once, up to case, and to its directory only. */
  lemma NameAdded(fold: Fold, dirs: Dirs, path: CStr)
    requires Place(fold, ParentKey(path)) in dirs
    ensures var d, dirs' := Place(fold, ParentKey(path)), AddName(fold, dirs, path);
            && dirs'.Keys == dirs.Keys && (forall e :: e in dirs && e != d ==> dirs'[e] == dirs[e])
            && dirs'[d] == if exists m :: m in dirs[d] && SameText(fold, m, LeafName(path)) then dirs[d]
                           else dirs[d] + {LeafName(path)}
  {
    hide SameText, LeafName, ParentKey, Place;
  }

  /** A name is dropped in every case it is spelled in, from its directory only. */
  lemma NameDropped(fold: Fold, dirs: Dirs, path: CStr)
    requires Place(fold, ParentKey(path)) in dirs
    ensures var d, dirs' := Place(fold, ParentKey(path)), DropName(fold, dirs, path);
            && dirs'.Keys == dirs.Keys && (forall e :: e in dirs && e != d ==> dirs'[e] == dirs[e])
            && forall m :: m in dirs'[d] <==> m in dirs[d] && !SameText(fold, m, LeafName(path))
  {
    hide SameText, LeafName, ParentKey, Place;
  }

  /** A directory is made empty, and one that is removed is gone; files change names only. */
  lemma ServeMeans(fold: Fold, dirs: Dirs, path: CStr, to: CStr)
    ensures Serve(fold, dirs, CreateFile(path, true)) == AddName(fold, dirs, path)
    ensures Serve(fold, dirs, DeleteFile(path, true)) == DropName(fold, dirs, path)
    ensures Serve(fold, dirs, MoveFile(path, to, to, true)) == AddName(fold, DropName(fold, dirs, path), to)
    ensures Serve(fold, dirs, MakeDir(path, true)) == AddName(fold, dirs, path)[Place(fold, path) := {".", ".."}]
    ensures var dirs' := Serve(fold, dirs, RemoveDir(path, true));
            Place(fold, path) !in dirs' &&
            forall e :: e in dirs && e != Place(fold, path) ==>
              e in dirs' && dirs'[e] == DropName(fold, dirs, path)[e]
  {
    hide SameText, LeafName, ParentKey, Place, Contains;
  }

  /** What a complete listing puts into the cache is what the next requests for the directory get,
      until the expiration time has passed; an operation that failed puts nothing there. */
  lemma ListedIsServed(c: Config, l: seq<Listing>, key: CStr, now: ULONG, infos: seq<FileInfo>, alloc: bool, lost: bool,
                       later: ULONG)
    requires c.enabled && ListResult(c, State<int>.State(l, map[]), key, now).None?
    ensures var l' := Listed(c, l, key, now, Complete(infos), alloc, lost);
            var age := if now <= later then later - now else later + 0x1_0000_0000 - now;
            alloc && !lost ==>
              ListResult(c, State<int>.State(l', map[]), key, later) == if age < c.expiration then Some(infos) else None
    ensures var l' := Listed(c, l, key, now, Complete(infos), alloc, lost);
            lost ==> forall x :: x in l' ==> x in l
  {
    var l1 := ListFiles(c, State<int>.State(l, map[]), key, now).linked;
    FilledFirst(c, l1, key, now, infos, alloc, lost);
    var l' := Listed(c, l, key, now, Complete(infos), alloc, lost);
    if alloc && !lost {
      ElapsedMeans(later, l');
      assert Find(c.keys, l', key) == 0;
    }
  }

  lemma FilledFirst(c: Config, l: seq<Listing>, key: CStr, now: ULONG, infos: seq<FileInfo>, alloc: bool, lost: bool)
    requires c.enabled
    ensures var l' := Filled(c, l, key, now, infos, alloc, lost);
            && (alloc && !lost ==>
                  l' != [] && SameKey(c.keys, l'[0].path, key) && l'[0].infos == infos && l'[0].time == now)
            && (lost ==> forall x :: x in l' ==> x in l)
  {
    SameKeyEquivalence(c.keys, key, key, key);
  }

  // ----- the invariant

  /** Every directory is spelled in one way only. */
  predicate OneSpelling(fold: Fold, spelled: set<CStr>) {
    forall a, b :: a in spelled && b in spelled && (SameText(fold, a, b) || Place(fold, a) == Place(fold, b)) ==> a == b
  }

  /** The directory keys an operation uses. */
  function KeysOf(op: Op): set<CStr> {
    match op
    case CreateFile(path, _) => {ParentKey(path)}
    case DeleteFile(path, _) => {ParentKey(path)}
    case MakeDir(path, _) => {ParentKey(path)}
    case RemoveDir(path, _) => {ParentKey(path)}
    case MoveFile(src, dst, _, _) => {ParentKey(src), ParentKey(dst)}
    case Touch(path) => {ParentKey(path)}
    case List(key, _, _, _, _) => {key}
  }

  /** A moved file got into one of the two directories whose listings go. */
  predicate OnTarget(fold: Fold, op: Op) {
    op.MoveFile? && op.ok ==>
      Place(fold, ParentKey(op.to)) in {Place(fold, ParentKey(op.src)), Place(fold, ParentKey(op.dst))}
  }

  predicate Regular(fold: Fold, op: Op, spelled: set<CStr>) {
    KeysOf(op) <= spelled && OnTarget(fold, op)
  }

  /** What a listing of directory d must contain. A directory that does not exist can still have
      a listing; it was empty when it was removed, and so it will be when it is made again. */
  function Expected(fold: Fold, dirs: Dirs, d: CStr): set<CStr> {
    if Place(fold, d) in dirs then dirs[Place(fold, d)] else FRESH
  }

  predicate CoherentList(fold: Fold, l: seq<Listing>, dirs: Dirs, spelled: set<CStr>) {
    forall k :: 0 <= k < |l| ==> l[k].path in spelled && Names(l[k].infos) == Expected(fold, dirs, l[k].path)
  }

  predicate Coherent(fold: Fold, w: World, spelled: set<CStr>) {
    CoherentList(fold, w.linked, w.dirs, spelled)
  }

  /** Dropping the listings of one directory allows the server to change that directory. */
  lemma DropAllows(keys: Keying, l: seq<Listing>, d: CStr, dirs: Dirs, dirs': Dirs, spelled: set<CStr>)
    requires CoherentList(keys.fold, l, dirs, spelled)
    requires forall e :: e in spelled && e != d ==> Expected(keys.fold, dirs', e) == Expected(keys.fold, dirs, e)
    ensures CoherentList(keys.fold, Drop(keys, l, d), dirs', spelled)
  {
    var at := DropSelects(keys, l, d);
    forall k | 0 <= k < |Drop(keys, l, d)|
      ensures Drop(keys, l, d)[k].path in spelled
      ensures Names(Drop(keys, l, d)[k].infos) == Expected(keys.fold, dirs', Drop(keys, l, d)[k].path)
    {
      assert at[k] in at;
      SameKeyEquivalence(keys, d, d, d);
    }
  }

  lemma BegunCoherent(c: Config, l: seq<Listing>, dirs: Dirs, spelled: set<CStr>, key: CStr, now: ULONG, alloc: bool)
    requires CoherentList(c.keys.fold, l, dirs, spelled) && OneSpelling(c.keys.fold, spelled) && key in spelled
    ensures var (base, e) := Begun(c, l, key, now, alloc);
            CoherentList(c.keys.fold, base, dirs, spelled) && (e.Some? ==> e.value.path == key)
  {
    var l1 := Evict(c, l);
    var i := Find(c.keys, l1, key);
    if c.enabled && i < |l1| {
      assert l1[i] == l[i];
    }
  }

  /** After the listings of two directories were dropped, the cache is right if and only if the
      server changed no other directory of which a listing is linked. */
  lemma SurvivorsIff(c: Config, w: World, spelled: set<CStr>, a: CStr, b: CStr, dirs': Dirs)
    requires Coherent(c.keys.fold, w, spelled) && OneSpelling(c.keys.fold, spelled) && {a, b} <= spelled
    ensures CoherentList(c.keys.fold, Drop(c.keys, Drop(c.keys, w.linked, a), b), dirs', spelled) <==>
            forall x :: x in w.linked && x.path !in {a, b} ==>
              Expected(c.keys.fold, dirs', x.path) == Expected(c.keys.fold, w.dirs, x.path)
  {
    hide Drop, Names, Expected, SameText, Place;
    var l' := Drop(c.keys, Drop(c.keys, w.linked, a), b);
    forall x: Listing
      ensures x in l' <==> x in w.linked && !SameKey(c.keys, x.path, a) && !SameKey(c.keys, x.path, b)
      ensures x in w.linked ==> (x in l' <==> x.path !in {a, b})
    {
      DropMembers(c.keys, w.linked, a, x);
      DropMembers(c.keys, Drop(c.keys, w.linked, a), b, x);
      SameKeyEquivalence(c.keys, x.path, x.path, x.path);
    }
  }

  lemma ListedCoherent(c: Config, w: World, spelled: set<CStr>, op: Op)
    requires Coherent(c.keys.fold, w, spelled) && OneSpelling(c.keys.fold, spelled)
    requires op.List? && op.key in spelled && Feasible(c.keys.fold, w.dirs, op)
    ensures Coherent(c.keys.fold, Step(c, w, op), spelled)
  {
    hide Begun, Expired, Find, SameKey, SameText, OneSpelling, Names, KeysOf;
    var l1 := ListFiles(c, State<int>.State(w.linked, map[]), op.key, op.now).linked;
    assert CoherentList(c.keys.fold, l1, w.dirs, spelled);
    BegunCoherent(c, l1, w.dirs, spelled, op.key, op.now, op.alloc);
  }

  lemma StepCoherent(c: Config, w: World, spelled: set<CStr>, op: Op)
    requires Coherent(c.keys.fold, w, spelled) && OneSpelling(c.keys.fold, spelled)
    requires Regular(c.keys.fold, op, spelled) && Feasible(c.keys.fold, w.dirs, op)
    ensures Coherent(c.keys.fold, Step(c, w, op), spelled)
  {
    hide CoherentList, Drop, Listed, SameText, LeafName, ParentKey, Place, Contains, Names;
    var dirs' := Serve(c.keys.fold, w.dirs, op);
    match op
    case CreateFile(path, _) => DropAllows(c.keys, w.linked, ParentKey(path), w.dirs, dirs', spelled);
    case DeleteFile(path, _) => DropAllows(c.keys, w.linked, ParentKey(path), w.dirs, dirs', spelled);
    case MakeDir(path, _) => DropAllows(c.keys, w.linked, ParentKey(path), w.dirs, dirs', spelled);
    case RemoveDir(path, _) => DropAllows(c.keys, w.linked, ParentKey(path), w.dirs, dirs', spelled);
    case Touch(path) => DropAllows(c.keys, w.linked, ParentKey(path), w.dirs, dirs', spelled);
    case MoveFile(src, dst, _, ok) =>
      if ok {
        MoveFileCoherentIff(c, w, spelled, op);
      } else {
        SurvivorsIff(c, w, spelled, ParentKey(src), ParentKey(dst), dirs');
      }
    case List(_, _, _, _, _) => ListedCoherent(c, w, spelled, op);
  }

  /** No listing that lost a record is ever linked. */
  lemma CachedValid(c: Config, l: seq<Listing>, op: Op)
    requires AllValid(l)
    ensures AllValid(Cached(c, l, op))
  {
    match op
    case CreateFile(path, _) => DropValid(c.keys, l, ParentKey(path));
    case DeleteFile(path, _) => DropValid(c.keys, l, ParentKey(path));
    case MakeDir(path, _) => DropValid(c.keys, l, ParentKey(path));
    case RemoveDir(path, _) => DropValid(c.keys, l, ParentKey(path));
    case Touch(path) => DropValid(c.keys, l, ParentKey(path));
    case MoveFile(src, dst, _, _) =>
      DropValid(c.keys, l, ParentKey(src));
      DropValid(c.keys, Drop(c.keys, l, ParentKey(src)), ParentKey(dst));
    case List(key, now, fetch, alloc, lost) => ListedValid(c, l, key, now, fetch, alloc, lost);
  }

  lemma ListedValid(c: Config, l: seq<Listing>, key: CStr, now: ULONG, fetch: Fetch, alloc: bool, lost: bool)
    requires AllValid(l)
    ensures AllValid(Listed(c, l, key, now, fetch, alloc, lost))
  {
    var l1 := ListFiles(c, State<int>.State(l, map[]), key, now).linked;
    assert AllValid(l1);
    BegunValid(c, l1, key, now, alloc);
  }

  lemma BegunValid(c: Config, l: seq<Listing>, key: CStr, now: ULONG, alloc: bool)
    requires AllValid(l)
    ensures AllValid(Begun(c, l, key, now, alloc).0)
    ensures var e := Begun(c, l, key, now, alloc).1; e.Some? ==> !e.value.invalid && e.value.infos == []
  {
    assert AllValid(Evict(c, l));
  }

  /** A listing request is a run of the cache: the request itself, and if it is not answered a fill that
      ends, or is given up when the server breaks off. */
  lemma ListedIsRun(c: Config, l: seq<Listing>, key: CStr, now: ULONG, fetch: Fetch, alloc: bool, lost: bool)
    requires ListResult(c, State<int>.State(l, map[]), key, now).None?
    ensures var s := ListFiles(c, State<int>.State(l, map[]), key, now);
            var begun := WriteBegin(c, s, key, now, 0, alloc);
            Listed(c, l, key, now, fetch, alloc, lost) ==
            match fetch
            case Unreachable => s.linked
            case Broken(_) => begun.linked
            case Complete(infos) =>
              if 0 in begun.open && !lost then [begun.open[0].(infos := infos)] + begun.linked else begun.linked
  {
    hide Find, Expired;
    BegunIsWriteBegin(c, ListFiles(c, State<int>.State(l, map[]), key, now).linked, key, now, 0, alloc);
  }

  /** The first step of a fill on a cache with no other fill in progress. */
  lemma BegunIsWriteBegin<Id>(c: Config, l: seq<Listing>, key: CStr, now: ULONG, id: Id, alloc: bool)
    ensures var (base, e) := Begun(c, l, key, now, alloc);
            WriteBegin(c, State(l, map[]), key, now, id, alloc) ==
            State(base, if e.Some? then map[id := e.value] else map[])
  {
  }

  lemma DropValid(keys: Keying, l: seq<Listing>, d: CStr)
    requires AllValid(l)
    ensures AllValid(Drop(keys, l, d))
  {
    var at := DropSelects(keys, l, d);
  }

  // ----- whole runs

  function After(c: Config, dirs: Dirs, ops: seq<Op>, n: nat): World
    requires n <= |ops|
  {
    if n == 0 then World([], dirs) else Step(c, After(c, dirs, ops, n - 1), ops[n - 1])
  }

  ghost predicate Possible(c: Config, dirs: Dirs, ops: seq<Op>) {
    forall n :: 0 <= n < |ops| ==> Feasible(c.keys.fold, After(c, dirs, ops, n).dirs, ops[n])
  }

  lemma {:induction false} RunCoherent(c: Config, dirs: Dirs, ops: seq<Op>, spelled: set<CStr>, n: nat)
    requires OneSpelling(c.keys.fold, spelled) && Possible(c, dirs, ops) && n <= |ops|
    requires forall i :: 0 <= i < |ops| ==> Regular(c.keys.fold, ops[i], spelled)
    ensures Coherent(c.keys.fold, After(c, dirs, ops, n), spelled)
  {
    hide Step, Feasible, Coherent, OneSpelling, Regular;
    if n == 0 {
      EmptyCoherent(c.keys.fold, dirs, spelled);
    } else {
      RunCoherent(c, dirs, ops, spelled, n - 1);
      assert Feasible(c.keys.fold, After(c, dirs, ops, n - 1).dirs, ops[n - 1]);
      StepCoherent(c, After(c, dirs, ops, n - 1), spelled, ops[n - 1]);
    }
  }

  lemma EmptyCoherent(fold: Fold, dirs: Dirs, spelled: set<CStr>)
    ensures Coherent(fold, World([], dirs), spelled)
  {
  }

  /** Whatever ran before, from an empty cache: every listing cached for an existing directory
      has exactly the names that the server has for it. */
  lemma CachedNamesAreCurrent(c: Config, dirs: Dirs, ops: seq<Op>, spelled: set<CStr>, n: nat, k: nat)
    requires OneSpelling(c.keys.fold, spelled) && Possible(c, dirs, ops) && n <= |ops|
    requires forall i :: 0 <= i < |ops| ==> Regular(c.keys.fold, ops[i], spelled)
    requires var w := After(c, dirs, ops, n); k < |w.linked| && Place(c.keys.fold, w.linked[k].path) in w.dirs
    ensures var w := After(c, dirs, ops, n); Names(w.linked[k].infos) == w.dirs[Place(c.keys.fold, w.linked[k].path)]
  {
    RunCoherent(c, dirs, ops, spelled, n);
  }

  /** So a listing request that is answered from the cache gets the names a fresh listing
      would have. */
  lemma ServedNamesAreCurrent(c: Config, dirs: Dirs, ops: seq<Op>, spelled: set<CStr>, n: nat, key: CStr, now: ULONG)
    requires OneSpelling(c.keys.fold, spelled) && Possible(c, dirs, ops) && n <= |ops|
    requires forall i :: 0 <= i < |ops| ==> Regular(c.keys.fold, ops[i], spelled)
    requires key in spelled && Place(c.keys.fold, key) in After(c, dirs, ops, n).dirs
    ensures var w := After(c, dirs, ops, n);
            var answer := ListResult(c, State<int>.State(w.linked, map[]), key, now);
            answer.Some? ==> Names(answer.value) == w.dirs[Place(c.keys.fold, key)]
  {
    RunCoherent(c, dirs, ops, spelled, n);
  }

  // ----- moved files and directories

  /** After a file was moved the cache is right if and only if the file got into one of the two
      directories whose listings go, or replaced a file there, or into one with no listing linked. */
  lemma MoveFileCoherentIff(c: Config, w: World, spelled: set<CStr>, op: Op)
    requires Coherent(c.keys.fold, w, spelled) && OneSpelling(c.keys.fold, spelled)
    requires op.MoveFile? && op.ok && KeysOf(op) <= spelled && Feasible(c.keys.fold, w.dirs, op)
    ensures var d := Place(c.keys.fold, ParentKey(op.to));
            Coherent(c.keys.fold, Step(c, w, op), spelled) <==>
            || OnTarget(c.keys.fold, op)
            || Contains(c.keys.fold, w.dirs[d], LeafName(op.to))
            || forall x :: x in w.linked ==> Place(c.keys.fold, x.path) != d
  {
    hide Drop, Place, ParentKey, LeafName, SameText, Names, Contains, CoherentList;
    var fold := c.keys.fold;
    SurvivorsIff(c, w, spelled, ParentKey(op.src), ParentKey(op.dst), Serve(fold, w.dirs, op));
    var d := Place(fold, ParentKey(op.to));
    ContainsItself(fold, w.dirs[d], LeafName(op.to));
    assert forall x :: x in w.linked ==> x.path in spelled by {
      ListedSpelled(fold, w.linked, w.dirs, spelled);
    }
  }

  lemma ListedSpelled(fold: Fold, l: seq<Listing>, dirs: Dirs, spelled: set<CStr>)
    requires CoherentList(fold, l, dirs, spelled)
    ensures forall x :: x in l ==> x.path in spelled
  {
  }

  lemma ContainsItself(fold: Fold, names: set<CStr>, name: CStr)
    ensures name in names ==> Contains(fold, names, name)
  {
    assert SameText(fold, name, name);
  }

  /** The directory at `k` is the one at `top` or inside it. */
  predicate AtOrBelow(fold: Fold, k: CStr, top: CStr) {
    top <= k && (|k| == |top| || k[|top|] == fold(SLASH))
  }

  lemma AtOrBelowIff(fold: Fold, k: CStr, top: CStr)
    ensures AtOrBelow(fold, k, top) <==> k == top || exists rest :: k == top + [fold(SLASH)] + rest
  {
    if AtOrBelow(fold, k, top) && k != top {
      assert k == top + [fold(SLASH)] + k[|top| + 1..];
    }
  }

  /** The place that becomes `k` when what is at `from` moves to `to`. */
  function Before(fold: Fold, from: CStr, to: CStr, k: CStr): CStr {
    if AtOrBelow(fold, k, to) then from + k[|to|..] else k
  }

  function Behind(fold: Fold, from: CStr, to: CStr, k: CStr): CStr {
    if AtOrBelow(fold, k, from) then to + k[|from|..] else k
  }

  /** A directory and all that is inside it in a new place where nothing was before. */
  function Moved(fold: Fold, dirs: Dirs, from: CStr, to: CStr): Dirs
    requires forall k :: k in dirs ==> !AtOrBelow(fold, k, to)
  {
    var places := set k | k in dirs :: Behind(fold, from, to, k);
    map k | k in places && Before(fold, from, to, k) in dirs :: dirs[Before(fold, from, to, k)]
  }

  /** When the server can move a directory: nothing is at the new place, which is not inside the
      moved directory. */
  predicate Movable(fold: Fold, dirs: Dirs, src: CStr, dst: CStr) {
    var from, to := Place(fold, src), Place(fold, dst);
    var p, q := Place(fold, ParentKey(src)), Place(fold, ParentKey(dst));
    && from in dirs && p in dirs && q in dirs
    && (forall k :: k in dirs ==> !AtOrBelow(fold, k, to))
    && !AtOrBelow(fold, to, from) && !AtOrBelow(fold, p, from) && !AtOrBelow(fold, q, from)
  }

  /** NdpMove of a directory: it invalidates the parents of the two paths and nothing else. The
      server puts the directory at `to`. */
  function MoveDir(c: Config, w: World, src: CStr, dst: CStr, to: CStr): World
    requires Movable(c.keys.fold, w.dirs, src, to)
  {
    World(Drop(c.keys, Drop(c.keys, w.linked, ParentKey(src)), ParentKey(dst)), TreeMoved(c.keys.fold, w.dirs, src, to))
  }

  function TreeMoved(fold: Fold, dirs: Dirs, src: CStr, to: CStr): Dirs
    requires Movable(fold, dirs, src, to)
  {
    Moved(fold, AddName(fold, DropName(fold, dirs, src), to), Place(fold, src), Place(fold, to))
  }

  /** No directory with files comes or goes at `k` when what is at `from` moves to `to`. */
  predicate Undisturbed(fold: Fold, dirs: Dirs, from: CStr, to: CStr, k: CStr) {
    && (AtOrBelow(fold, k, from) && k in dirs ==> dirs[k] == FRESH)
    && (AtOrBelow(fold, k, to) && Before(fold, from, to, k) in dirs ==> dirs[Before(fold, from, to, k)] == FRESH)
  }

  /** The directory d does not get the name of what is moved to `to`. */
  predicate NoNewName(fold: Fold, dirs: Dirs, to: CStr, d: CStr) {
    Place(fold, d) == Place(fold, ParentKey(to)) && Place(fold, d) in dirs ==>
      Contains(fold, dirs[Place(fold, d)], LeafName(to))
  }

  /** Where each place after a move comes from. */
  lemma MovedAt(fold: Fold, dirs: Dirs, from: CStr, to: CStr, k: CStr)
    requires forall j :: j in dirs ==> !AtOrBelow(fold, j, to)
    ensures var m, j := Moved(fold, dirs, from, to), Before(fold, from, to, k);
            if AtOrBelow(fold, k, to) then (if j in dirs then k in m && m[k] == dirs[j] else k !in m)
            else if k in dirs && !AtOrBelow(fold, k, from) then k in m && m[k] == dirs[k]
            else k !in m
  {
    var j := Before(fold, from, to, k);
    if AtOrBelow(fold, k, to) {
      assert Behind(fold, from, to, j) == k;
    } else if k in dirs && !AtOrBelow(fold, k, from) {
      assert Behind(fold, from, to, k) == k;
    }
    forall i | i in dirs && Behind(fold, from, to, i) == k
      ensures i == j && (AtOrBelow(fold, i, from) ==> AtOrBelow(fold, k, to))
    {
    }
  }

  /** A moved directory and all that is inside it is in the new place, and nothing is left. */
  lemma MovedMeans(fold: Fold, dirs: Dirs, from: CStr, to: CStr, rest: CStr)
    requires forall j :: j in dirs ==> !AtOrBelow(fold, j, to)
    requires from in dirs && !AtOrBelow(fold, to, from) && (rest == [] || rest[0] == fold(SLASH))
    ensures var m := Moved(fold, dirs, from, to);
            && (from + rest in dirs <==> to + rest in m)
            && (from + rest in dirs ==> m[to + rest] == dirs[from + rest])
            && from + rest !in m
  {
    MovedAt(fold, dirs, from, to, to + rest);
    MovedAt(fold, dirs, from, to, from + rest);
    assert (to + rest)[|to|..] == rest && (from + rest)[|from|..] == rest;
    BelowBefore(fold, from, to, from + rest);
  }

  /** The names in the directories that did not move are those after the name was dropped and added. */
  lemma TreeMovedNames(fold: Fold, dirs: Dirs, src: CStr, to: CStr, d: CStr)
    requires Movable(fold, dirs, src, to) && d in dirs && !AtOrBelow(fold, d, Place(fold, src))
    ensures d in TreeMoved(fold, dirs, src, to)
    ensures TreeMoved(fold, dirs, src, to)[d] == AddName(fold, DropName(fold, dirs, src), to)[d]
  {
    hide Place, ParentKey, LeafName, SameText, Contains, AtOrBelow, Moved, AddName, DropName;
    SameDirectories(fold, dirs, src, to);
    MovedAt(fold, AddName(fold, DropName(fold, dirs, src), to), Place(fold, src), Place(fold, to), d);
  }

  /** What is expected of the listing of another directory than the source's parent stays the same
      exactly when it is undisturbed and gets no new name. */
  lemma MovedExpected(fold: Fold, dirs: Dirs, src: CStr, to: CStr, d: CStr)
    requires Movable(fold, dirs, src, to) && Place(fold, d) != Place(fold, ParentKey(src))
    ensures Expected(fold, TreeMoved(fold, dirs, src, to), d) == Expected(fold, dirs, d) <==>
            && Undisturbed(fold, dirs, Place(fold, src), Place(fold, to), Place(fold, d))
            && NoNewName(fold, dirs, to, d)
  {
    hide Place, ParentKey, LeafName, SameText, Contains, AtOrBelow, Moved;
    var from, top, k := Place(fold, src), Place(fold, to), Place(fold, d);
    SameDirectories(fold, dirs, src, to);
    MovedAt(fold, AddName(fold, DropName(fold, dirs, src), to), from, top, k);
    BelowBefore(fold, from, top, k);
    ContainsItself(fold, dirs[Place(fold, ParentKey(to))], LeafName(to));
  }

  lemma SameDirectories(fold: Fold, dirs: Dirs, src: CStr, dst: CStr)
    ensures AddName(fold, DropName(fold, dirs, src), dst).Keys == dirs.Keys
  {
    hide Place, ParentKey, LeafName, Contains, SameText;
  }

  lemma BelowBefore(fold: Fold, from: CStr, to: CStr, k: CStr)
    ensures AtOrBelow(fold, k, to) ==> AtOrBelow(fold, Before(fold, from, to, k), from)
    ensures AtOrBelow(fold, k, to) && AtOrBelow(fold, k, from) ==>
              AtOrBelow(fold, to, from) || AtOrBelow(fold, from, to)
  {
  }

  /** The cache is right after a directory was moved if and only if no listing stays linked for an
      old or a new place of a moved directory that is not empty, nor for the directory that it got
      into. */
  lemma MoveDirCoherentIff(c: Config, w: World, spelled: set<CStr>, src: CStr, dst: CStr, to: CStr)
    requires Coherent(c.keys.fold, w, spelled) && OneSpelling(c.keys.fold, spelled)
    requires {ParentKey(src), ParentKey(dst)} <= spelled && Movable(c.keys.fold, w.dirs, src, to)
    ensures Coherent(c.keys.fold, MoveDir(c, w, src, dst, to), spelled) <==>
            forall x :: x in w.linked && x.path !in {ParentKey(src), ParentKey(dst)} ==>
              && Undisturbed(c.keys.fold, w.dirs, Place(c.keys.fold, src), Place(c.keys.fold, to),
                             Place(c.keys.fold, x.path))
              && NoNewName(c.keys.fold, w.dirs, to, x.path)
  {
    hide Drop, Place, ParentKey, Movable, TreeMoved, Undisturbed, NoNewName, Expected, SameText, CoherentList;
    var fold := c.keys.fold;
    SurvivorsIff(c, w, spelled, ParentKey(src), ParentKey(dst), TreeMoved(fold, w.dirs, src, to));
    ListedSpelled(fold, w.linked, w.dirs, spelled);
    forall x: Listing | x in w.linked && x.path !in {ParentKey(src), ParentKey(dst)}
      ensures Expected(fold, TreeMoved(fold, w.dirs, src, to), x.path) == Expected(fold, w.dirs, x.path) <==>
              && Undisturbed(fold, w.dirs, Place(fold, src), Place(fold, to), Place(fold, x.path))
              && NoNewName(fold, w.dirs, to, x.path)
    {
      MovedExpected(fold, w.dirs, src, to, x.path);
    }
  }

  /** In particular the listing of a directory moved to where it should go stays, and is wrong
      unless the directory is empty. */
  lemma MovedDirectoryLeavesListing(c: Config, w: World, spelled: set<CStr>, src: CStr, dst: CStr, x: Listing)
    requires Coherent(c.keys.fold, w, spelled) && OneSpelling(c.keys.fold, spelled)
    requires {ParentKey(src), ParentKey(dst)} <= spelled && Movable(c.keys.fold, w.dirs, src, dst)
    requires x in w.linked && x.path == src
    ensures var w', fold := MoveDir(c, w, src, dst, dst), c.keys.fold;
            && x in w'.linked && Place(fold, src) !in w'.dirs
            && (Names(x.infos) == Expected(fold, w'.dirs, src) <==> w.dirs[Place(fold, src)] == FRESH)
  {
    hide Drop, Place, ParentKey, LeafName, Moved, SameText, Names, AddName, DropName, Contains, Before;
    var fold := c.keys.fold;
    DropMembers(c.keys, w.linked, ParentKey(src), x);
    DropMembers(c.keys, Drop(c.keys, w.linked, ParentKey(src)), ParentKey(dst), x);
    SameDirectories(fold, w.dirs, src, dst);
    var from, to := Place(fold, src), Place(fold, dst);
    MovedAt(fold, AddName(fold, DropName(fold, w.dirs, src), dst), from, to, from);
  }
}
