/** Any sequence of calls on the cache in memory is a run of the model, so what holds of
    every run holds of the memory: the caller's view of the cache, with a log of its calls. */
module HeapRuns {
  import opened Wrappers
  import opened CString
  import PathHash
  import opened PathKeys
  import opened CacheModel
  import opened CacheRuns
  import opened CacheBounds
  import opened DirCache

  class Client {
    const pdc: DirectoryCache

    /** Fills in progress by number, and the next number. */
    var handles: map<int, DirectoryCacheEntry>
    var next: int

    /** The calls so far, and the states of the model they went through. */
    ghost var steps: seq<Step<int>>
    ghost var states: seq<State<int>>

    ghost predicate Valid()
      reads this, pdc, pdc.Repr
    {
      && pdc.Valid() && this !in pdc.Repr && pdc.cMaxEntries >= 1
      && |states| == |steps| + 1 && Run(pdc.Config(), steps, states) && Renames(pdc.model, states[|steps|], handles)
      && forall h :: h in handles ==> h < next
    }

    constructor (fold: Fold, ulExpirationTime: ULONG, cMaxEntries: int)
      requires cMaxEntries >= 1
      ensures Valid() && fresh(pdc.Repr) && steps == []
      ensures pdc.Config() == CacheModel.Config(Keying(fold, PathHash.Hash), true, ulExpirationTime, cMaxEntries)
    {
      pdc := new DirectoryCache(fold, ulExpirationTime, cMaxEntries);
      handles := map[];
      next := 0;
      steps := [];
      states := [State([], map[])];
    }

    /** One more step is logged. */
    ghost method Log(step: Step<int>)
      requires Run(pdc.Config(), steps, states) && Enabled(states[|steps|], step)
      modifies `steps, `states
      ensures Run(pdc.Config(), steps, states)
      ensures steps == old(steps) + [step] && |states| == |steps| + 1
      ensures states == old(states) + [Apply(pdc.Config(), old(states[|steps|]), step)]
    {
      states := states + [Apply(pdc.Config(), states[|steps|], step)];
      steps := steps + [step];
      RunGrows(pdc.Config(), old(steps), old(states), step);
    }

    /** dircache_write_begin; the number is used whether or not a handle was returned. */
    method Begin(path: CStr, cFiles: nat, now: ULONG, alloc: bool) returns (h: int)
      requires Valid()
      modifies this, pdc.Repr
      ensures Valid() && pdc.Config() == old(pdc.Config())
      ensures steps == old(steps) + [CacheRuns.Begin(h, path, now, alloc)]
      ensures h !in old(handles) && old(handles) == handles - {h}
    {
      hide DirectoryCache.Valid, Run, Renames, WriteBegin;
      ghost var m, s, c := pdc.model, states[|steps|], pdc.Config();
      h := next;
      next := next + 1;
      RenamedKeys(m, s, handles);
      var pdce := pdc.WriteBegin(path, cFiles, now, alloc);
      if pdce != null {
        BeginRenames(c, m, s, handles, h, pdce, path, now, alloc);
        handles := handles[h := pdce];
      } else {
        NullRenames(c, m, s, handles, h, path, now, alloc);
      }
      Log(CacheRuns.Begin(h, path, now, alloc));
    }

    /** dircache_write_entry; a number without a handle is a NULL handle, on which nothing happens. */
    method Append(h: int, info: FileInfo, alloc: bool) returns (stored: bool)
      requires Valid()
      modifies this, pdc.Repr
      ensures Valid() && pdc.Config() == old(pdc.Config()) && handles == old(handles)
      ensures h in handles ==> steps == old(steps) + [CacheRuns.Append(h, info, stored)] && (alloc ==> stored)
      ensures h !in handles ==> steps == old(steps)
    {
      hide DirectoryCache.Valid, Run, Renames;
      if h !in handles {
        return false;
      }
      ghost var m, s := pdc.model, states[|steps|];
      RenamedKeys(m, s, handles);
      RenamedHandle(m, s, handles, h);
      stored := pdc.WriteEntry(handles[h], info, alloc);
      AppendRenames(m, s, handles, h, info, stored);
      Log(CacheRuns.Append(h, info, stored));
    }

    /** dircache_write_end */
    method End(h: int, alloc: bool)
      requires Valid()
      modifies this, pdc.Repr
      ensures Valid() && pdc.Config() == old(pdc.Config()) && handles == old(handles) - {h}
      ensures steps == if h in old(handles) then old(steps) + [CacheRuns.End(h)] else old(steps)
    {
      hide DirectoryCache.Valid, Run, Renames;
      if h !in handles {
        assert handles - {h} == handles;
        return;
      }
      ghost var m, s := pdc.model, states[|steps|];
      RenamedKeys(m, s, handles);
      RenamedHandle(m, s, handles, h);
      pdc.WriteEnd(handles[h], alloc);
      EndRenames(m, s, handles, h);
      handles := handles - {h};
      Log(CacheRuns.End(h));
    }

    /** A fill is given up. */
    method GiveUp(h: int)
      requires Valid() && h in handles
      modifies this, pdc.Repr
      ensures Valid() && pdc.Config() == old(pdc.Config()) && handles == old(handles) - {h}
      ensures steps == old(steps) + [CacheRuns.GiveUp(h)]
    {
      hide DirectoryCache.Valid, Run, Renames;
      ghost var m, s := pdc.model, states[|steps|];
      RenamedKeys(m, s, handles);
      RenamedHandle(m, s, handles, h);
      pdc.Release(handles[h]);
      EndRenames(m, s, handles, h);
      handles := handles - {h};
      Log(CacheRuns.GiveUp(h));
    }

    /** dircache_invalidate: the step is one on the parent's key or on the path's own. */
    method Invalidate(path: CStr, fParent: bool)
      requires Valid()
      modifies this, pdc.Repr
      ensures Valid() && pdc.Config() == old(pdc.Config()) && handles == old(handles)
      ensures steps == old(steps) + [Invalidation(if fParent then ParentKey(path) else path)]
    {
      hide DirectoryCache.Valid, Run, Renames, ParentKey;
      ghost var m, s, key := pdc.model, states[|steps|], if fParent then ParentKey(path) else path;
      RenamedKeys(m, s, handles);
      pdc.DirCacheInvalidate(path, fParent);
      SameLinked(m, s, handles, pdc.model.linked);
      Log(Invalidation(key));
    }

    /** dircache_list_files. It answers as the run's state does, and what it serves is the complete
        ordered output of one session in the log: the session of that directory that began at step i
        and ended at step j, lost no record, was not invalidated since, and is not expired. */
    method ListFiles(path: CStr, now: ULONG)
      returns (served: Option<seq<FileInfo>>, ghost id: int, ghost i: nat, ghost j: nat)
      requires Valid()
      modifies this, pdc.Repr
      ensures Valid() && pdc.Config() == old(pdc.Config()) && handles == old(handles)
      ensures steps == old(steps) + [Serve(path, now)]
      ensures served == ListResult(pdc.Config(), old(states[|steps|]), path, now)
      ensures served.Some? ==>
                && i < j < |old(steps)|
                && Session(pdc.Config(), steps, id, i, j, path)
                && served.value == Written(steps, id, i + 1, j)
                && NotInvalidated(pdc.Config(), steps, j, |old(steps)|, path)
                && (steps[i].now <= now ==> now - steps[i].now < pdc.ulExpirationTime)
                && (now < steps[i].now ==> now + 0x1_0000_0000 - steps[i].now < pdc.ulExpirationTime)
    {
      hide DirectoryCache.Valid, Run, Renames, Session, NotInvalidated, Written;
      ghost var m, s, n := pdc.model, states[|steps|], |steps|;
      SameAnswers(pdc.Config(), m, s, handles, path, now);
      served := pdc.ListFiles(path, now);
      SameLinked(m, s, handles, pdc.model.linked);
      Log(Serve(path, now));
      id, i, j := 0, 0, 0;
      if served.Some? {
        id, i, j := ServedIsOneSession(pdc.Config(), steps, states, n);
      }
    }

    /** dircache_find_path. It answers as the run's state does, and what it finds is a record of a
        complete session of the parent, with the age of its begin. */
    method FindPath(path: CStr, now: ULONG) returns (hit: Option<Hit>, ghost id: int, ghost i: nat, ghost j: nat)
      requires Valid()
      ensures hit == CacheModel.FindPath(pdc.keys, states[|steps|].linked, path, now)
      ensures hit.Some? ==>
                && !HasWildcard(path)
                && i < j < |steps| && Session(pdc.Config(), steps, id, i, j, ParentKey(path))
                && NotInvalidated(pdc.Config(), steps, j, |steps|, ParentKey(path))
                && hit.value.info in Written(steps, id, i + 1, j)
                && SameText(pdc.keys.fold, hit.value.info.fname, LeafName(path))
                && hit.value.age == if steps[i].now <= now then now - steps[i].now
                                    else now + 0x1_0000_0000 - steps[i].now
    {
      hide DirectoryCache.Valid, Run, Session, NotInvalidated, Written, SameText, ParentKey, LeafName, HasWildcard;
      RenamedKeys(pdc.model, states[|steps|], handles);
      hit := pdc.DirCacheFindPath(path, now);
      id, i, j := 0, 0, 0;
      if hit.Some? {
        id, i, j := FoundIsFromOneSession(pdc.Config(), steps, states, |steps|, ParentKey(path), LeafName(path), now);
      }
    }

    /** The memory never holds more entries than the depth and the other fills allow. */
    lemma Bounded(k: nat)
      requires Valid() && k >= 1 && AtMostOpen(states, k)
      ensures pdc.cEntries + |handles| <= pdc.cMaxEntries + k - 1
    {
      Capacity(pdc.Config(), steps, states, k, |steps|);
      assert states[|steps|].open.Keys == handles.Keys;
      assert |states[|steps|].open| == |states[|steps|].open.Keys| && |handles| == |handles.Keys|;
    }
  }

  // ----- agreement up to the names of the handles

  ghost predicate Named<Id>(handles: map<int, Id>, e: Id) {
    exists h :: h in handles && handles[h] == e
  }

  ghost predicate Renames<Id>(m: State<Id>, s: State<int>, handles: map<int, Id>) {
    && m.linked == s.linked
    && s.open.Keys == handles.Keys
    && (forall h :: h in handles ==> handles[h] in m.open && m.open[handles[h]] == s.open[h])
    && (forall e :: e in m.open ==> Named(handles, e))
    && (forall g, h :: g in handles && h in handles && g != h ==> handles[g] != handles[h])
  }

  lemma RenamedKeys<Id>(m: State<Id>, s: State<int>, handles: map<int, Id>)
    requires Renames(m, s, handles)
    ensures m.linked == s.linked && s.open.Keys == handles.Keys
  {
  }

  lemma RenamedHandle<Id>(m: State<Id>, s: State<int>, handles: map<int, Id>, h: int)
    requires Renames(m, s, handles) && h in handles
    ensures handles[h] in m.open && h in s.open
  {
  }

  lemma SameLinked<Id>(m: State<Id>, s: State<int>, handles: map<int, Id>, linked: seq<Listing>)
    requires Renames(m, s, handles)
    ensures Renames(m.(linked := linked), s.(linked := linked), handles)
  {
  }

  lemma SameAnswers<Id>(c: Config, m: State<Id>, s: State<int>, handles: map<int, Id>, path: CStr, now: ULONG)
    requires Renames(m, s, handles)
    ensures ListResult(c, m, path, now) == ListResult(c, s, path, now)
    ensures CacheModel.ListFiles(c, m, path, now).linked == CacheModel.ListFiles(c, s, path, now).linked
    ensures CacheModel.ListFiles(c, m, path, now) == m.(linked := CacheModel.ListFiles(c, m, path, now).linked)
    ensures CacheModel.ListFiles(c, s, path, now) == s.(linked := CacheModel.ListFiles(c, m, path, now).linked)
  {
  }

  /** Opening the same listing under both names. */
  lemma OpenRenames<Id>(m: State<Id>, s: State<int>, handles: map<int, Id>, linked: seq<Listing>, h: int, e: Id,
                        l: Listing)
    requires Renames(m, s, handles) && h !in handles && e !in m.open
    ensures Renames(State(linked, m.open[e := l]), State(linked, s.open[h := l]), handles[h := e])
  {
    var handles' := handles[h := e];
    forall d | d in m.open[e := l]
      ensures Named(handles', d)
    {
      if d == e {
        assert handles'[h] == e;
      } else {
        assert Named(handles, d);
        var g :| g in handles && handles[g] == d;
        assert handles'[g] == d;
      }
    }
  }

  lemma BeginRenames<Id>(c: Config, m: State<Id>, s: State<int>, handles: map<int, Id>, h: int, e: Id,
                         path: CStr, now: ULONG, alloc: bool)
    requires Renames(m, s, handles) && h !in handles && e !in m.open
    requires e in WriteBegin(c, m, path, now, e, alloc).open
    ensures Renames(WriteBegin(c, m, path, now, e, alloc), WriteBegin(c, s, path, now, h, alloc), handles[h := e])
  {
    hide Renames;
    RenamedKeys(m, s, handles);
    var m' := WriteBegin(c, m, path, now, e, alloc);
    OpenRenames(m, s, handles, m'.linked, h, e, m'.open[e]);
  }

  lemma NullRenames<Id>(c: Config, m: State<Id>, s: State<int>, handles: map<int, Id>, h: int,
                        path: CStr, now: ULONG, alloc: bool)
    requires Renames(m, s, handles)
    requires !c.enabled || (!alloc && Find(c.keys, Evict(c, m.linked), path) == |Evict(c, m.linked)|)
    ensures Renames(m.(linked := Evict(c, m.linked)), WriteBegin(c, s, path, now, h, alloc), handles)
  {
  }

  /** Replacing the same listing under both names. */
  lemma AppendRenames<Id>(m: State<Id>, s: State<int>, handles: map<int, Id>, h: int, info: FileInfo, stored: bool)
    requires Renames(m, s, handles) && h in handles && h in s.open && handles[h] in m.open
    ensures Renames(WriteEntry(m, handles[h], info, stored), WriteEntry(s, h, info, stored), handles)
  {
    assert WriteEntry(s, h, info, stored).open.Keys == s.open.Keys;
  }

  /** Closing both, whether the listing is linked or given up. */
  lemma CloseRenames<Id>(m: State<Id>, s: State<int>, handles: map<int, Id>, h: int, linked: seq<Listing>)
    requires Renames(m, s, handles) && h in handles
    ensures Renames(State(linked, m.open - {handles[h]}), State(linked, s.open - {h}), handles - {h})
  {
    var handles' := handles - {h};
    forall d | d in m.open - {handles[h]}
      ensures Named(handles', d)
    {
      assert Named(handles, d);
      var g :| g in handles && handles[g] == d;
      assert handles'[g] == d;
    }
  }

  lemma EndRenames<Id>(m: State<Id>, s: State<int>, handles: map<int, Id>, h: int)
    requires Renames(m, s, handles) && h in handles && h in s.open && handles[h] in m.open
    ensures Renames(WriteEnd(m, handles[h]), WriteEnd(s, h), handles - {h})
    ensures Renames(Abandon(m, handles[h]), Abandon(s, h), handles - {h})
  {
    CloseRenames(m, s, handles, h, WriteEnd(m, handles[h]).linked);
    CloseRenames(m, s, handles, h, m.linked);
  }

  lemma RunGrows(c: Config, steps: seq<Step<int>>, states: seq<State<int>>, step: Step<int>)
    requires Run(c, steps, states) && Enabled(states[|steps|], step)
    ensures Run(c, steps + [step], states + [Apply(c, states[|steps|], step)])
  {
    var steps', states' := steps + [step], states + [Apply(c, states[|steps|], step)];
    forall n | 0 <= n < |steps'|
      ensures Next(c, steps', states', n)
    {
      if n < |steps| {
        assert Next(c, steps, states, n);
      }
    }
  }
}
