/** Invariants of whole runs of the directory cache: how many entries there can be,
    which one is evicted, and whether a key can be there twice. */
module CacheBounds {
  import opened CString
  import opened CacheModel
  import opened CacheRuns

  /** At most k fills are open at any time. */
  ghost predicate AtMostOpen<Id>(states: seq<State<Id>>, k: nat) {
    forall n :: 0 <= n < |states| ==> |states[n].open| <= k
  }

  predicate ReadsClock<Id>(step: Step<Id>) {
    step.Begin? || step.Serve?
  }

  /** The clock the cache reads does not run backwards. */
  predicate ClockMonotone<Id>(steps: seq<Step<Id>>) {
    forall i, j :: 0 <= i < j < |steps| && ReadsClock(steps[i]) && ReadsClock(steps[j]) ==>
      steps[i].now <= steps[j].now
  }

  /** A fill begins only when none is open. */
  ghost predicate Serialised<Id>(steps: seq<Step<Id>>, states: seq<State<Id>>)
    requires |states| == |steps| + 1
  {
    forall n :: 0 <= n < |steps| && steps[n].Begin? ==> states[n].open == map[]
  }

  // ----- capacity

  lemma RemovedSize<K, V>(m: map<K, V>, k: K)
    requires k in m
    ensures |m - {k}| == |m| - 1
  {
    assert m == (m - {k})[k := m[k]];
  }

  lemma {:induction false} DropShrinks(keys: Keying, l: seq<Listing>, path: CStr)
    ensures |Drop(keys, l, path)| <= |l|
  {
    if l != [] {
      DropShrinks(keys, l[..|l| - 1], path);
    }
  }

  lemma CapacityStep<Id>(c: Config, s: State<Id>, step: Step<Id>, k: nat)
    requires c.depth >= 1 && k >= 1 && Enabled(s, step)
    requires |s.open| <= k && |Apply(c, s, step).open| <= k
    requires |s.linked| + |s.open| <= c.depth + k - 1
    ensures |Apply(c, s, step).linked| + |Apply(c, s, step).open| <= c.depth + k - 1
  {
    match step
    case Begin(id, path, now, alloc) =>
      BeginSize(c, s, path, now, id, alloc);
    case _ => NoLarger(c, s, step);
  }

  /** A fill that begins adds at most one entry, and none if the depth was reached. */
  lemma BeginSize<Id>(c: Config, s: State<Id>, path: CStr, now: ULONG, id: Id, alloc: bool)
    requires c.depth >= 1 && id !in s.open
    ensures var s' := WriteBegin(c, s, path, now, id, alloc);
            && |s.open| <= |s'.open| <= |s.open| + 1
            && |s'.linked| + |s'.open| <= |s.linked| + |s.open| + (if |s.linked| >= c.depth then 0 else 1)
            && (s'.open != s.open ==> |s'.open| == |s.open| + 1)
  {
  }

  /** With at most k fills open at a time, linked and open entries together never exceed
      depth + k - 1; so fills that are serialised (k = 1) never exceed the configured depth. */
  lemma {:induction false} Capacity<Id>(c: Config, steps: seq<Step<Id>>, states: seq<State<Id>>, k: nat, n: nat)
    requires Run(c, steps, states) && n <= |steps|
    requires c.depth >= 1 && k >= 1 && AtMostOpen(states, k)
    ensures |states[n].linked| + |states[n].open| <= c.depth + k - 1
  {
    if n > 0 {
      Capacity(c, steps, states, k, n - 1);
      assert Next(c, steps, states, n - 1);
      CapacityStep(c, states[n - 1], steps[n - 1], k);
    }
  }

  /** A fill that begins with a new entry. */
  predicate Creates<Id>(c: Config, s: State<Id>, step: Step<Id>) {
    step.Begin? && c.enabled && step.alloc && Find(c.keys, Evict(c, s.linked), step.path) == |Evict(c, s.linked)|
  }

  predicate Within<Id>(c: Config, s: State<Id>) {
    |s.linked| + |s.open| <= c.depth
  }

  /** The depth is exceeded by a new entry for a full cache of which some entries are open. */
  predicate Overfills<Id>(c: Config, s: State<Id>, step: Step<Id>) {
    Creates(c, s, step) && s.open != map[] && |s.linked| + |s.open| >= c.depth
  }

  lemma WithinStep<Id>(c: Config, s: State<Id>, step: Step<Id>)
    requires c.depth >= 1 && Enabled(s, step) && Within(c, s)
    ensures Within(c, Apply(c, s, step)) <==> !Overfills(c, s, step)
  {
    match step
    case Begin(id, path, now, alloc) =>
      BeginExactSize(c, s, path, now, id, alloc);
    case _ => NoLarger(c, s, step);
  }

  /** Only a fill that begins makes the cache larger. */
  lemma NoLarger<Id>(c: Config, s: State<Id>, step: Step<Id>)
    requires Enabled(s, step) && !step.Begin?
    ensures |Apply(c, s, step).linked| + |Apply(c, s, step).open| <= |s.linked| + |s.open|
  {
    match step
    case Append(_, _, _) =>
    case End(id) => RemovedSize(s.open, id);
    case GiveUp(id) => RemovedSize(s.open, id);
    case Serve(_, _) =>
    case Invalidation(path) => DropShrinks(c.keys, s.linked, path);
  }

  lemma BeginExactSize<Id>(c: Config, s: State<Id>, path: CStr, now: ULONG, id: Id, alloc: bool)
    requires c.depth >= 1 && id !in s.open
    ensures var s' := WriteBegin(c, s, path, now, id, alloc);
            |s'.linked| + |s'.open| ==
            |Evict(c, s.linked)| + |s.open| + if Creates(c, s, Begin(id, path, now, alloc)) then 1 else 0
    ensures |s.linked| >= c.depth ==> |Evict(c, s.linked)| == |s.linked| - 1
    ensures s.open != map[] ==> |s.open| >= 1
  {
    assert forall l: Listing {:trigger s.open[id := l]} :: |s.open[id := l]| == |s.open| + 1;
  }

  /** A run stays within the depth if and only if no fill begins with a new entry while the
      cache, with the fills in progress, is full. */
  lemma DepthKeptIff<Id>(c: Config, steps: seq<Step<Id>>, states: seq<State<Id>>)
    requires Run(c, steps, states) && c.depth >= 1
    ensures (forall n :: 0 <= n <= |steps| ==> Within(c, states[n])) <==>
            (forall n :: 0 <= n < |steps| ==> !Overfills(c, states[n], steps[n]))
  {
    hide Within, Overfills;
    if n :| 0 <= n < |steps| && Overfills(c, states[n], steps[n]) && Within(c, states[n]) {
      assert Next(c, steps, states, n);
      WithinStep(c, states[n], steps[n]);
    }
    if forall n :: 0 <= n < |steps| ==> !Overfills(c, states[n], steps[n]) {
      forall n | 0 <= n <= |steps|
        ensures Within(c, states[n])
      {
        StaysWithin(c, steps, states, n);
      }
    }
  }

  lemma {:induction false} StaysWithin<Id>(c: Config, steps: seq<Step<Id>>, states: seq<State<Id>>, n: nat)
    requires Run(c, steps, states) && c.depth >= 1 && n <= |steps|
    requires forall m :: 0 <= m < n ==> !Overfills(c, states[m], steps[m])
    ensures Within(c, states[n])
  {
    hide Overfills;
    if n > 0 {
      StaysWithin(c, steps, states, n - 1);
      assert Next(c, steps, states, n - 1);
      WithinStep(c, states[n - 1], steps[n - 1]);
    }
  }

  // ----- eviction

  predicate NewestFirst(l: seq<Listing>) {
    forall j, k :: 0 <= j < k < |l| ==> l[j].time >= l[k].time
  }

  predicate NotNewerThan(l: seq<Listing>, t: ULONG) {
    forall k :: 0 <= k < |l| ==> l[k].time <= t
  }

  /** The list is sorted, there is at most one fill in progress, and it is at least as new
      as anything linked. */
  predicate Ordered<Id>(s: State<Id>) {
    && NewestFirst(s.linked)
    && (forall a, b :: a in s.open && b in s.open ==> a == b)
    && forall id :: id in s.open ==> NotNewerThan(s.linked, s.open[id].time)
  }

  /** Eviction, removal and invalidation keep the order and the bound. */
  lemma SublistsOrdered(c: Config, l: seq<Listing>, path: CStr, t: ULONG)
    requires NewestFirst(l)
    ensures NewestFirst(Evict(c, l)) && NewestFirst(Drop(c.keys, l, path))
    ensures NotNewerThan(l, t) ==> NotNewerThan(Evict(c, l), t) && NotNewerThan(Drop(c.keys, l, path), t)
    ensures forall i :: 0 <= i < |l| ==>
              NewestFirst(Without(l, i)) && (NotNewerThan(l, t) ==> NotNewerThan(Without(l, i), t))
  {
    hide SameKey;
    var at := DropSelects(c.keys, l, path);
  }

  lemma OrderedStep<Id>(c: Config, s: State<Id>, step: Step<Id>)
    requires Enabled(s, step) && Ordered(s)
    requires step.Begin? ==> s.open == map[] && NotNewerThan(s.linked, step.now)
    ensures Ordered(Apply(c, s, step))
  {
    var s' := Apply(c, s, step);
    match step
    case Begin(_, path, now, _) =>
      SublistsOrdered(c, s.linked, path, now);
      SublistsOrdered(c, Evict(c, s.linked), path, now);
    case Append(_, _, _) =>
    case End(id) =>
    case GiveUp(_) =>
    case Serve(path, _) =>
      OrderedSublists(c, s, path);
    case Invalidation(path) =>
      OrderedSublists(c, s, path);
  }

  lemma OrderedSublists<Id>(c: Config, s: State<Id>, path: CStr)
    requires Ordered(s)
    ensures Ordered(s.(linked := Drop(c.keys, s.linked, path)))
    ensures forall i :: 0 <= i < |s.linked| ==> Ordered(s.(linked := Without(s.linked, i)))
  {
    SublistsOrdered(c, s.linked, path, 0);
    forall id | id in s.open
      ensures NotNewerThan(Drop(c.keys, s.linked, path), s.open[id].time)
      ensures forall i :: 0 <= i < |s.linked| ==> NotNewerThan(Without(s.linked, i), s.open[id].time)
    {
      SublistsOrdered(c, s.linked, path, s.open[id].time);
    }
  }

  /** Everything linked was begun earlier, so under a monotone clock it is not newer than now. */
  lemma LinkedNotNewer<Id>(c: Config, steps: seq<Step<Id>>, states: seq<State<Id>>, n: nat)
    requires Run(c, steps, states) && n < |steps| && ClockMonotone(steps) && steps[n].Begin?
    ensures NotNewerThan(states[n].linked, steps[n].now)
  {
    forall k | 0 <= k < |states[n].linked|
      ensures states[n].linked[k].time <= steps[n].now
    {
      var id, i, j := LinkedOrigin(c, steps, states, n, k);
    }
  }

  /** Serialised fills under a monotone clock keep the list sorted from the newest at the
      head to the oldest at the tail, through insertion, refresh, expiry and invalidation. */
  lemma {:induction false} StaysOrdered<Id>(c: Config, steps: seq<Step<Id>>, states: seq<State<Id>>, n: nat)
    requires Run(c, steps, states) && n <= |steps|
    requires Serialised(steps, states) && ClockMonotone(steps)
    ensures Ordered(states[n])
  {
    if n > 0 {
      StaysOrdered(c, steps, states, n - 1);
      assert Next(c, steps, states, n - 1);
      if steps[n - 1].Begin? {
        LinkedNotNewer(c, steps, states, n - 1);
      }
      OrderedStep(c, states[n - 1], steps[n - 1]);
    }
  }

  /** A fill that ends behind one that began later. */
  predicate EndsLate<Id>(s: State<Id>, step: Step<Id>) {
    && step.End? && step.id in s.open && !s.open[step.id].invalid
    && s.linked != [] && s.linked[0].time > s.open[step.id].time
  }

  lemma NewestStep<Id>(c: Config, s: State<Id>, step: Step<Id>)
    requires Enabled(s, step) && NewestFirst(s.linked)
    ensures NewestFirst(Apply(c, s, step).linked) <==> !EndsLate(s, step)
  {
    match step
    case Begin(_, path, _, _) =>
      SublistsOrdered(c, s.linked, path, 0);
      SublistsOrdered(c, Evict(c, s.linked), path, 0);
    case Append(_, _, _) =>
    case End(id) => NewestPushed(s.linked, s.open[id]);
    case GiveUp(_) =>
    case Serve(path, _) => SublistsOrdered(c, s.linked, path, 0);
    case Invalidation(path) => SublistsOrdered(c, s.linked, path, 0);
  }

  lemma NewestPushed(l: seq<Listing>, x: Listing)
    requires NewestFirst(l)
    ensures NewestFirst([x] + l) <==> l == [] || x.time >= l[0].time
  {
    if l != [] {
      assert ([x] + l)[0] == x && ([x] + l)[1] == l[0];
    }
  }

  /** Whatever the clock does and however fills overlap, the list stays sorted if and only if no
      fill ends behind one that began later. */
  lemma NewestFirstIff<Id>(c: Config, steps: seq<Step<Id>>, states: seq<State<Id>>)
    requires Run(c, steps, states)
    ensures (forall n :: 0 <= n <= |steps| ==> NewestFirst(states[n].linked)) <==>
            (forall n :: 0 <= n < |steps| ==> !EndsLate(states[n], steps[n]))
  {
    hide NewestFirst, EndsLate;
    if n :| 0 <= n < |steps| && EndsLate(states[n], steps[n]) && NewestFirst(states[n].linked) {
      assert Next(c, steps, states, n);
      NewestStep(c, states[n], steps[n]);
    }
    if forall n :: 0 <= n < |steps| ==> !EndsLate(states[n], steps[n]) {
      forall n | 0 <= n <= |steps|
        ensures NewestFirst(states[n].linked)
      {
        StaysNewestFirst(c, steps, states, n);
      }
    }
  }

  lemma {:induction false} StaysNewestFirst<Id>(c: Config, steps: seq<Step<Id>>, states: seq<State<Id>>, n: nat)
    requires Run(c, steps, states) && n <= |steps|
    requires forall m :: 0 <= m < n ==> !EndsLate(states[m], steps[m])
    ensures NewestFirst(states[n].linked)
  {
    hide EndsLate;
    if n > 0 {
      StaysNewestFirst(c, steps, states, n - 1);
      assert Next(c, steps, states, n - 1);
      NewestStep(c, states[n - 1], steps[n - 1]);
    }
  }

  /** So the entry that a fill evicts to make room is the oldest one, and there is one. */
  lemma EvictsTheOldest<Id>(c: Config, steps: seq<Step<Id>>, states: seq<State<Id>>, n: nat) returns (evicted: Listing)
    requires Run(c, steps, states) && n < |steps| && steps[n].Begin?
    requires Serialised(steps, states) && ClockMonotone(steps)
    requires c.depth >= 1 && |states[n].linked| >= c.depth
    ensures states[n].linked == Evict(c, states[n].linked) + [evicted]
    ensures forall k :: 0 <= k < |states[n].linked| ==> evicted.time <= states[n].linked[k].time
  {
    StaysOrdered(c, steps, states, n);
    evicted := states[n].linked[|states[n].linked| - 1];
  }

  /** Serialised fills leave at most one open, so they never exceed the configured depth. */
  lemma SerialisedDepth<Id>(c: Config, steps: seq<Step<Id>>, states: seq<State<Id>>, n: nat)
    requires Run(c, steps, states) && n <= |steps| && Serialised(steps, states) && c.depth >= 1
    ensures |states[n].linked| + |states[n].open| <= c.depth
  {
    forall m | 0 <= m < |states|
      ensures |states[m].open| <= 1
    {
      SerialisedOpen(c, steps, states, m);
    }
    Capacity(c, steps, states, 1, n);
  }

  lemma {:induction false} SerialisedOpen<Id>(c: Config, steps: seq<Step<Id>>, states: seq<State<Id>>, n: nat)
    requires Run(c, steps, states) && n <= |steps| && Serialised(steps, states)
    ensures |states[n].open| <= 1
  {
    hide Drop, Find, SameKey, Expired, Evict;
    if n > 0 {
      SerialisedOpen(c, steps, states, n - 1);
      assert Next(c, steps, states, n - 1);
      if steps[n - 1].End? || steps[n - 1].GiveUp? {
        RemovedSize(states[n - 1].open, steps[n - 1].id);
      }
    }
  }

  // ----- one entry per key

  /** dircache_write_begin finds the directory in the list or has memory for a new entry. */
  predicate GetsHandle<Id>(c: Config, s: State<Id>, step: Step<Id>)
    requires step.Begin?
  {
    c.enabled && (step.alloc || Find(c.keys, Evict(c, s.linked), step.path) < |Evict(c, s.linked)|)
  }

  /** A fill begins, with a handle, for a directory that is already being filled. */
  ghost predicate Refills<Id>(c: Config, s: State<Id>, step: Step<Id>) {
    && step.Begin? && GetsHandle(c, s, step)
    && exists a :: a in s.open && SameKey(c.keys, s.open[a].path, step.path)
  }

  ghost predicate OneFillPerKey<Id>(c: Config, steps: seq<Step<Id>>, states: seq<State<Id>>)
    requires |states| == |steps| + 1
  {
    forall n :: 0 <= n < |steps| ==> !Refills(c, states[n], steps[n])
  }

  predicate DistinctKeys(keys: Keying, l: seq<Listing>) {
    forall j, k :: 0 <= j < k < |l| ==> !SameKey(keys, l[j].path, l[k].path)
  }

  predicate NoneOfKey(keys: Keying, l: seq<Listing>, path: CStr) {
    forall k :: 0 <= k < |l| ==> !SameKey(keys, l[k].path, path)
  }

  /** No two entries, linked or being filled, share a key. */
  ghost predicate UniqueKeys<Id>(keys: Keying, s: State<Id>) {
    && DistinctKeys(keys, s.linked)
    && (forall id :: id in s.open ==> NoneOfKey(keys, s.linked, s.open[id].path))
    && (forall a, b :: a in s.open && b in s.open && a != b ==> !SameKey(keys, s.open[a].path, s.open[b].path))
  }

  lemma SublistsUnique(c: Config, l: seq<Listing>, path: CStr, p: CStr)
    ensures DistinctKeys(c.keys, l) ==> DistinctKeys(c.keys, Evict(c, l)) && DistinctKeys(c.keys, Drop(c.keys, l, path))
    ensures NoneOfKey(c.keys, l, p) ==> NoneOfKey(c.keys, Evict(c, l), p) && NoneOfKey(c.keys, Drop(c.keys, l, path), p)
    ensures forall i :: 0 <= i < |l| ==>
              && (DistinctKeys(c.keys, l) ==> DistinctKeys(c.keys, Without(l, i)))
              && (NoneOfKey(c.keys, l, p) ==> NoneOfKey(c.keys, Without(l, i), p))
  {
    var at := DropSelects(c.keys, l, path);
  }

  lemma UniqueSublists<Id>(c: Config, s: State<Id>, path: CStr)
    requires UniqueKeys(c.keys, s)
    ensures UniqueKeys(c.keys, s.(linked := Drop(c.keys, s.linked, path)))
    ensures UniqueKeys(c.keys, s.(linked := Evict(c, s.linked)))
    ensures forall i :: 0 <= i < |s.linked| ==> UniqueKeys(c.keys, s.(linked := Without(s.linked, i)))
  {
    SublistsUnique(c, s.linked, path, path);
    forall id | id in s.open
      ensures NoneOfKey(c.keys, Drop(c.keys, s.linked, path), s.open[id].path)
      ensures NoneOfKey(c.keys, Evict(c, s.linked), s.open[id].path)
      ensures forall i :: 0 <= i < |s.linked| ==> NoneOfKey(c.keys, Without(s.linked, i), s.open[id].path)
    {
      SublistsUnique(c, s.linked, path, s.open[id].path);
    }
  }

  /** Opening a listing of a key that nothing else has. */
  lemma UniqueOpened<Id>(c: Config, s: State<Id>, id: Id, l: Listing)
    requires UniqueKeys(c.keys, s) && id !in s.open
    requires NoneOfKey(c.keys, s.linked, l.path)
    requires forall a :: a in s.open ==> !SameKey(c.keys, s.open[a].path, l.path)
    ensures UniqueKeys(c.keys, s.(open := s.open[id := l]))
  {
    forall a | a in s.open
      ensures !SameKey(c.keys, l.path, s.open[a].path)
    {
      SameKeyEquivalence(c.keys, l.path, s.open[a].path, l.path);
    }
  }

  lemma UniqueBegin<Id>(c: Config, s: State<Id>, path: CStr, now: ULONG, id: Id, alloc: bool)
    requires UniqueKeys(c.keys, s) && id !in s.open && !Refills(c, s, Begin(id, path, now, alloc))
    ensures UniqueKeys(c.keys, WriteBegin(c, s, path, now, id, alloc))
  {
    UniqueSublists(c, s, path);
    var s1 := s.(linked := Evict(c, s.linked));
    var i := Find(c.keys, s1.linked, path);
    if c.enabled && i < |s1.linked| {
      UniqueSublists(c, s1, path);
      var l := s1.linked[i];
      forall k | 0 <= k < |Without(s1.linked, i)|
        ensures !SameKey(c.keys, Without(s1.linked, i)[k].path, l.path)
      {
        SameKeyEquivalence(c.keys, Without(s1.linked, i)[k].path, l.path, l.path);
      }
      UniqueOpened(c, s1.(linked := Without(s1.linked, i)), id, l.(infos := [], time := now));
    } else if c.enabled && alloc {
      UniqueOpened(c, s1, id, Listing(path, now, [], false));
    }
  }

  /** A second fill of a directory is a second entry of its key. */
  lemma RefillDuplicates<Id>(c: Config, s: State<Id>, step: Step<Id>)
    requires Enabled(s, step) && Refills(c, s, step)
    ensures !UniqueKeys(c.keys, Apply(c, s, step))
  {
    var a :| a in s.open && SameKey(c.keys, s.open[a].path, step.path);
    var s' := Apply(c, s, step);
    OpenedKey(c, s, step);
    assert s'.open[a] == s.open[a];
    SameKeyEquivalence(c.keys, s'.open[step.id].path, step.path, step.path);
    SameKeyEquivalence(c.keys, s.open[a].path, step.path, s'.open[step.id].path);
  }

  lemma OpenedKey<Id>(c: Config, s: State<Id>, step: Step<Id>)
    requires Enabled(s, step) && step.Begin? && step.id in Apply(c, s, step).open
    ensures SameKey(c.keys, Apply(c, s, step).open[step.id].path, step.path)
    ensures forall a :: a in s.open ==> a in Apply(c, s, step).open && Apply(c, s, step).open[a] == s.open[a]
  {
    SameKeyEquivalence(c.keys, step.path, step.path, step.path);
  }

  lemma UniqueEnd<Id>(c: Config, s: State<Id>, id: Id)
    requires UniqueKeys(c.keys, s) && id in s.open
    ensures UniqueKeys(c.keys, WriteEnd(s, id))
  {
    var l := s.open[id];
    forall k | 0 <= k < |s.linked|
      ensures !SameKey(c.keys, l.path, s.linked[k].path)
    {
      SameKeyEquivalence(c.keys, l.path, s.linked[k].path, l.path);
    }
  }

  lemma UniqueStep<Id>(c: Config, s: State<Id>, step: Step<Id>)
    requires UniqueKeys(c.keys, s) && Enabled(s, step)
    ensures UniqueKeys(c.keys, Apply(c, s, step)) <==> !Refills(c, s, step)
  {
    hide UniqueKeys;
    if Refills(c, s, step) {
      RefillDuplicates(c, s, step);
    } else {
      UniqueKept(c, s, step);
    }
  }

  lemma UniqueKept<Id>(c: Config, s: State<Id>, step: Step<Id>)
    requires UniqueKeys(c.keys, s) && Enabled(s, step) && !Refills(c, s, step)
    ensures UniqueKeys(c.keys, Apply(c, s, step))
  {
    match step
    case Begin(id, path, now, alloc) => UniqueBegin(c, s, path, now, id, alloc);
    case Append(_, _, _) =>
    case End(id) => UniqueEnd(c, s, id);
    case GiveUp(_) =>
    case Serve(path, _) => UniqueSublists(c, s, path);
    case Invalidation(path) => UniqueSublists(c, s, path);
  }

  /** With at most one fill per directory at a time no key is ever there twice. */
  lemma {:induction false} StaysUnique<Id>(c: Config, steps: seq<Step<Id>>, states: seq<State<Id>>, n: nat)
    requires Run(c, steps, states) && n <= |steps| && OneFillPerKey(c, steps, states)
    ensures UniqueKeys(c.keys, states[n])
  {
    hide UniqueKeys, Refills;
    if n > 0 {
      StaysUnique(c, steps, states, n - 1);
      assert Next(c, steps, states, n - 1);
      UniqueStep(c, states[n - 1], steps[n - 1]);
    } else {
      assert UniqueKeys(c.keys, states[0]) by {
        EmptyUnique<Id>(c.keys);
      }
    }
  }

  lemma EmptyUnique<Id>(keys: Keying)
    ensures UniqueKeys(keys, State<Id>.State([], map[]))
  {
  }

  /** Conversely: keys stay unique in a run if and only if no directory is filled twice at a time. */
  lemma UniqueIff<Id>(c: Config, steps: seq<Step<Id>>, states: seq<State<Id>>)
    requires Run(c, steps, states)
    ensures (forall n :: 0 <= n <= |steps| ==> UniqueKeys(c.keys, states[n])) <==> OneFillPerKey(c, steps, states)
  {
    hide UniqueKeys, Refills;
    if n :| 0 <= n < |steps| && Refills(c, states[n], steps[n]) {
      assert Next(c, steps, states, n);
      RefillDuplicates(c, states[n], steps[n]);
    }
    if OneFillPerKey(c, steps, states) {
      forall n | 0 <= n <= |steps|
        ensures UniqueKeys(c.keys, states[n])
      {
        StaysUnique(c, steps, states, n);
      }
    }
  }

  /** ... so the first match is the only match. */
  lemma FirstMatchIsTheOnly<Id>(c: Config, steps: seq<Step<Id>>, states: seq<State<Id>>, n: nat, path: CStr, k: nat)
    requires Run(c, steps, states) && n <= |steps| && OneFillPerKey(c, steps, states)
    requires k < |states[n].linked| && SameKey(c.keys, states[n].linked[k].path, path)
    ensures Find(c.keys, states[n].linked, path) == k
  {
    StaysUnique(c, steps, states, n);
    var l := states[n].linked;
    var i := Find(c.keys, l, path);
    SameKeyEquivalence(c.keys, l[k].path, path, l[k].path);
    if i < k {
      SameKeyEquivalence(c.keys, l[i].path, path, l[k].path);
    }
  }

  // ----- what overlapping fills do

  /** The hypotheses are needed: two overlapping fills of one directory in a cache of depth 1
      leave two entries of one key, exceed the depth, and put the newer entry at the tail. */
  lemma OverlappingFills(c: Config, path: CStr)
    requires c.enabled && c.depth == 1
    ensures exists steps: seq<Step<int>>, states: seq<State<int>> ::
              && Run(c, steps, states) && ClockMonotone(steps) && |steps| == 4
              && var l := states[4].linked;
                 |l| == 2 && !NewestFirst(l) && !DistinctKeys(c.keys, l)
  {
    var steps: seq<Step<int>> := [Begin(0, path, 1, true), Begin(1, path, 2, true), End(1), End(0)];
    var a := Listing(path, 1, [], false);
    var b := Listing(path, 2, [], false);
    var s0: State<int> := State([], map[]);
    var s1 := State([], map[0 := a]);
    var s2 := State([], map[0 := a, 1 := b]);
    var s3 := State([b], s1.open);
    var s4 := State([a, b], s0.open);
    assert s2.open == s1.open[1 := b];
    assert s2.open - {1} == s1.open;
    assert s1.open - {0} == s0.open;
    var states := [s0, s1, s2, s3, s4];
    forall n | 0 <= n < 4
      ensures Next(c, steps, states, n)
    {
    }
    assert Run(c, steps, states);
    assert states[4].linked == [a, b] && [a, b][0] == a && [a, b][1] == b;
    SameKeyEquivalence(c.keys, path, path, path);
  }
}
