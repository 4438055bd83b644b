/** Whole runs of the directory cache: any interleaving of fills, listings and
    invalidations, each locked region being one step. */
module CacheRuns {
  import opened Wrappers
  import opened CString
  import opened CacheModel
  import opened Selections

  datatype Step<Id> =
    | Begin(id: Id, path: CStr, now: ULONG, alloc: bool)
    | Append(id: Id, info: FileInfo, stored: bool)
    | End(id: Id)
    | GiveUp(id: Id)
    | Serve(path: CStr, now: ULONG)
    | Invalidation(path: CStr)

  /** The handle of a Begin must be new; the other fill steps need an open handle. */
  predicate Enabled<Id>(s: State<Id>, step: Step<Id>) {
    match step
    case Begin(id, _, _, _) => id !in s.open
    case Append(id, _, _) => id in s.open
    case End(id) => id in s.open
    case GiveUp(id) => id in s.open
    case Serve(_, _) => true
    case Invalidation(_) => true
  }

  function Apply<Id>(c: Config, s: State<Id>, step: Step<Id>): State<Id> {
    if !Enabled(s, step) then s
    else match step
      case Begin(id, path, now, alloc) => WriteBegin(c, s, path, now, id, alloc)
      case Append(id, info, stored) => WriteEntry(s, id, info, stored)
      case End(id) => WriteEnd(s, id)
      case GiveUp(id) => Abandon(s, id)
      case Serve(path, now) => ListFiles(c, s, path, now)
      case Invalidation(path) => Invalidate(c, s, path)
  }

  ghost predicate Next<Id>(c: Config, steps: seq<Step<Id>>, states: seq<State<Id>>, n: nat)
    requires n < |steps| && n + 1 < |states|
  {
    Enabled(states[n], steps[n]) && states[n + 1] == Apply(c, states[n], steps[n])
  }

  /** A run: `states[n]` is the cache after the first n steps, starting from the empty cache. */
  ghost predicate Run<Id>(c: Config, steps: seq<Step<Id>>, states: seq<State<Id>>) {
    && |states| == |steps| + 1
    && states[0] == State([], map[])
    && forall n {:trigger Next(c, steps, states, n)} :: 0 <= n < |steps| ==> Next(c, steps, states, n)
  }

  // ----- sessions, read off the steps alone

  /** The records appended under a handle in steps i to j - 1, in order. */
  function Written<Id(==)>(steps: seq<Step<Id>>, id: Id, i: nat, j: nat): seq<FileInfo>
    requires i <= j <= |steps|
    decreases j
  {
    if i == j then []
    else
      Written(steps, id, i, j - 1) +
      if steps[j - 1].Append? && steps[j - 1].id == id then [steps[j - 1].info] else []
  }

  /** They are those of the appends under the handle, one each; `at` are the steps. */
  lemma {:induction false} WrittenSelects<Id>(steps: seq<Step<Id>>, id: Id, i: nat, j: nat) returns (at: seq<nat>)
    requires i <= j <= |steps|
    ensures Increasing(at, j) && |at| == |Written(steps, id, i, j)|
    ensures forall k :: 0 <= k < |at| ==> steps[at[k]].Append? && Written(steps, id, i, j)[k] == steps[at[k]].info
    ensures forall m :: 0 <= m < j ==> (m in at <==> i <= m && steps[m].Append? && steps[m].id == id)
    decreases j
  {
    hide Increasing;
    at := [];
    NoneTaken(j);
    if i < j {
      var before := WrittenSelects(steps, id, i, j - 1);
      var take := steps[j - 1].Append? && steps[j - 1].id == id;
      at := before + if take then [j - 1] else [];
      Extended(before, j - 1, take);
    }
  }

  /** No append under the handle was lost in steps i to j - 1. */
  predicate NoneLost<Id(==)>(steps: seq<Step<Id>>, id: Id, i: nat, j: nat)
    requires i <= j <= |steps|
  {
    forall m :: i <= m < j && steps[m].Append? && steps[m].id == id ==> steps[m].stored
  }

  predicate Finishes<Id(==)>(step: Step<Id>, id: Id) {
    (step.End? || step.GiveUp?) && step.id == id
  }

  /** The fill begun at step i is still open before step j. */
  predicate OpenSince<Id(==)>(steps: seq<Step<Id>>, id: Id, i: nat, j: nat)
    requires i < j <= |steps|
  {
    && steps[i].Begin? && steps[i].id == id
    && forall m :: i < m < j ==> !Finishes(steps[m], id)
  }

  /** Steps i to j are one complete session of the given key that lost nothing. */
  predicate Session<Id(==)>(c: Config, steps: seq<Step<Id>>, id: Id, i: nat, j: nat, path: CStr)
    requires i < j < |steps|
  {
    && OpenSince(steps, id, i, j)
    && steps[j] == End(id)
    && NoneLost(steps, id, i + 1, j)
    && SameKey(c.keys, steps[i].path, path)
  }

  /** No invalidation of the key in steps j + 1 to n - 1. */
  predicate NotInvalidated<Id>(c: Config, steps: seq<Step<Id>>, j: nat, n: nat, path: CStr)
    requires j < n <= |steps|
  {
    forall m :: j < m < n && steps[m].Invalidation? ==> !SameKey(c.keys, path, steps[m].path)
  }

  /** What a listing linked before step n is: the output of the session i..j. */
  predicate Origin<Id(==)>(c: Config, steps: seq<Step<Id>>, n: nat, l: Listing, id: Id, i: nat, j: nat)
    requires i < j < n <= |steps|
  {
    && Session(c, steps, id, i, j, l.path)
    && l.infos == Written(steps, id, i + 1, j)
    && l.time == steps[i].now
    && NotInvalidated(c, steps, j, n, l.path)
  }

  // ----- session atomicity

  /** Entries marked invalid are never linked. */
  lemma {:induction false} LinkedAreValid<Id>(c: Config, steps: seq<Step<Id>>, states: seq<State<Id>>, n: nat)
    requires Run(c, steps, states) && n <= |steps|
    ensures AllValid(states[n].linked)
  {
    if n > 0 {
      LinkedAreValid(c, steps, states, n - 1);
      assert Next(c, steps, states, n - 1);
      ValidKept(c, states[n - 1], steps[n - 1]);
    }
  }

  lemma ValidKept<Id>(c: Config, s: State<Id>, step: Step<Id>)
    requires AllValid(s.linked)
    ensures AllValid(Apply(c, s, step).linked)
  {
    hide Drop, Find, SameKey, Expired, Enabled;
    if step.Invalidation? {
      var at := DropSelects(c.keys, s.linked, step.path);
    }
  }

  /** How a step relates an open listing to the one it was before. */
  predicate OpenNext<Id(==)>(step: Step<Id>, id: Id, before: Listing, after: Listing) {
    if step.Append? && step.id == id then
      after == if step.stored then before.(infos := before.infos + [step.info]) else before.(invalid := true)
    else
      after == before && !Finishes(step, id)
  }

  predicate OpenedBy<Id(==)>(c: Config, step: Step<Id>, id: Id, l: Listing) {
    && step.Begin? && step.id == id
    && SameKey(c.keys, l.path, step.path) && l.time == step.now && l.infos == [] && !l.invalid
  }

  lemma OpenStep<Id>(c: Config, s: State<Id>, step: Step<Id>, id: Id)
    requires Enabled(s, step) && id in Apply(c, s, step).open
    requires AllValid(s.linked)
    ensures if id in s.open then OpenNext(step, id, s.open[id], Apply(c, s, step).open[id])
            else OpenedBy(c, step, id, Apply(c, s, step).open[id])
  {
  }

  /** What an open listing is: everything the session begun at i has appended so far. */
  predicate Filling<Id(==)>(c: Config, steps: seq<Step<Id>>, id: Id, i: nat, n: nat, l: Listing)
    requires i < n <= |steps|
  {
    && OpenSince(steps, id, i, n)
    && SameKey(c.keys, l.path, steps[i].path)
    && l.time == steps[i].now
    && (l.invalid <==> !NoneLost(steps, id, i + 1, n))
    && (!l.invalid ==> l.infos == Written(steps, id, i + 1, n))
  }

  lemma FillingKept<Id>(c: Config, steps: seq<Step<Id>>, id: Id, i: nat, n: nat, before: Listing, after: Listing)
    requires i < n < |steps| && Filling(c, steps, id, i, n, before)
    requires OpenNext(steps[n], id, before, after)
    ensures Filling(c, steps, id, i, n + 1, after)
  {
    if steps[n].Append? && steps[n].id == id && !steps[n].stored {
      assert !NoneLost(steps, id, i + 1, n + 1);
    }
  }

  /** What is now `l` was open before step m, and valid if `l` is. */
  predicate OpenAt<Id>(states: seq<State<Id>>, m: nat, id: Id, l: Listing)
    requires m < |states|
  {
    id in states[m].open && states[m].open[id].path == l.path && (states[m].open[id].invalid ==> l.invalid)
  }

  /** An open listing holds exactly what its session appended so far, unless an append was lost. */
  lemma {:induction false} OpenOrigin<Id>(c: Config, steps: seq<Step<Id>>, states: seq<State<Id>>, n: nat, id: Id)
    returns (i: nat)
    requires Run(c, steps, states) && n <= |steps| && id in states[n].open
    ensures i < n && Filling(c, steps, id, i, n, states[n].open[id])
    ensures forall m :: i < m <= n ==> OpenAt(states, m, id, states[n].open[id])
  {
    var before := states[n - 1];
    LinkedAreValid(c, steps, states, n - 1);
    assert Next(c, steps, states, n - 1);
    OpenStep(c, before, steps[n - 1], id);
    if id in before.open {
      i := OpenOrigin(c, steps, states, n - 1, id);
      assert forall m :: i < m < n && OpenAt(states, m, id, before.open[id]) ==>
               OpenAt(states, m, id, states[n].open[id]);
      FillingKept(c, steps, id, i, n - 1, before.open[id], states[n].open[id]);
    } else {
      i := n - 1;
      FillingBegun(c, steps, id, i, states[n].open[id]);
    }
  }

  lemma FillingBegun<Id>(c: Config, steps: seq<Step<Id>>, id: Id, i: nat, l: Listing)
    requires i < |steps| && OpenedBy(c, steps[i], id, l)
    ensures Filling(c, steps, id, i, i + 1, l)
  {
  }

  /** Where the k-th listing after a step was before it; -1 if the step just linked it. */
  lemma CameFrom<Id>(c: Config, s: State<Id>, step: Step<Id>, k: nat) returns (m: int)
    requires Enabled(s, step) && k < |Apply(c, s, step).linked|
    ensures m == -1 ==> step.End? && Apply(c, s, step).linked[k] == s.open[step.id] && !s.open[step.id].invalid
    ensures m != -1 ==> 0 <= m < |s.linked| && Apply(c, s, step).linked[k] == s.linked[m]
    ensures m != -1 && step.Invalidation? ==> !SameKey(c.keys, s.linked[m].path, step.path)
  {
    hide SameKey, Expired, Find, Drop;
    m := k;
    match step
    case Begin(_, path, _, _) =>
      var l := Evict(c, s.linked);
      if |Apply(c, s, step).linked| < |l| && k >= Find(c.keys, l, path) {
        m := k + 1;
      }
    case End(id) =>
      if !s.open[id].invalid {
        m := k - 1;
      }
    case Serve(path, _) =>
      if |Apply(c, s, step).linked| < |s.linked| && k >= Find(c.keys, s.linked, path) {
        m := k + 1;
      }
    case Invalidation(path) =>
      var at := DropSelects(c.keys, s.linked, path);
      m := at[k];
      assert m in at;
    case Append(_, _, _) =>
    case GiveUp(_) =>
  }

  /** Every linked listing is the complete output of one session that lost nothing
      and was not invalidated since. */
  lemma {:induction false} LinkedOrigin<Id>(c: Config, steps: seq<Step<Id>>, states: seq<State<Id>>, n: nat, k: nat)
    returns (id: Id, i: nat, j: nat)
    requires Run(c, steps, states) && n <= |steps| && k < |states[n].linked|
    ensures i < j < n && Origin(c, steps, n, states[n].linked[k], id, i, j)
    ensures forall m :: i < m <= j ==> OpenAt(states, m, id, states[n].linked[k])
  {
    assert Next(c, steps, states, n - 1);
    var m := CameFrom(c, states[n - 1], steps[n - 1], k);
    var l := states[n].linked[k];
    if m == -1 {
      id, j := steps[n - 1].id, n - 1;
      i := OpenOrigin(c, steps, states, j, id);
      OriginStarts(c, steps, l, id, i, j);
    } else {
      id, i, j := LinkedOrigin(c, steps, states, n - 1, m);
      OriginKept(c, steps, n, l, id, i, j);
    }
  }

  lemma OriginStarts<Id>(c: Config, steps: seq<Step<Id>>, l: Listing, id: Id, i: nat, j: nat)
    requires i < j < |steps| && steps[j] == End(id) && Filling(c, steps, id, i, j, l) && !l.invalid
    ensures Origin(c, steps, j + 1, l, id, i, j)
  {
    SameKeyEquivalence(c.keys, l.path, steps[i].path, l.path);
  }

  lemma OriginKept<Id>(c: Config, steps: seq<Step<Id>>, n: nat, l: Listing, id: Id, i: nat, j: nat)
    requires i < j < n - 1 < |steps| && Origin(c, steps, n - 1, l, id, i, j)
    requires steps[n - 1].Invalidation? ==> !SameKey(c.keys, l.path, steps[n - 1].path)
    ensures Origin(c, steps, n, l, id, i, j)
  {
  }

  /** Session atomicity: what a listing request is answered from the cache is the complete
      ordered output of one session of that directory, never a partial or mixed one. The
      session lost no append, was not invalidated since, and began less than the
      expiration time ago. */
  lemma ServedIsOneSession<Id>(c: Config, steps: seq<Step<Id>>, states: seq<State<Id>>, n: nat)
    returns (id: Id, i: nat, j: nat)
    requires Run(c, steps, states) && n < |steps| && steps[n].Serve?
    requires ListResult(c, states[n], steps[n].path, steps[n].now).Some?
    ensures i < j < n
    ensures Session(c, steps, id, i, j, steps[n].path)
    ensures ListResult(c, states[n], steps[n].path, steps[n].now) ==
            Some(Written(steps, id, i + 1, j))
    ensures NotInvalidated(c, steps, j, n, steps[n].path)
    ensures steps[i].now <= steps[n].now ==> steps[n].now - steps[i].now < c.expiration
    ensures steps[n].now < steps[i].now ==> steps[n].now + 0x1_0000_0000 - steps[i].now < c.expiration
  {
    ElapsedMeans(steps[n].now, states[n].linked);
    var s := states[n];
    var k := Find(c.keys, s.linked, steps[n].path);
    id, i, j := LinkedOrigin(c, steps, states, n, k);
    OriginOfKey(c, steps, n, s.linked[k], id, i, j, steps[n].path);
  }

  /** Single-file lookups see the same: the record is one of a complete session of the
      parent directory, and the age counts from the begin of that session. */
  lemma FoundIsFromOneSession<Id>(c: Config, steps: seq<Step<Id>>, states: seq<State<Id>>, n: nat,
                                  parent: CStr, name: CStr, now: ULONG)
    returns (id: Id, i: nat, j: nat)
    requires Run(c, steps, states) && n <= |steps|
    requires Lookup(c.keys, states[n].linked, parent, name, now).Some?
    ensures i < j < n
    ensures Session(c, steps, id, i, j, parent)
    ensures NotInvalidated(c, steps, j, n, parent)
    ensures var hit := Lookup(c.keys, states[n].linked, parent, name, now).value;
            && hit.info in Written(steps, id, i + 1, j)
            && SameText(c.keys.fold, hit.info.fname, name)
            && hit.age == if steps[i].now <= now then now - steps[i].now else now + 0x1_0000_0000 - steps[i].now
  {
    ElapsedMeans(now, states[n].linked);
    var l := states[n].linked;
    var k := LookupHit(c.keys, l, parent, name, now);
    id, i, j := LinkedOrigin(c, steps, states, n, k);
    OriginOfKey(c, steps, n, l[k], id, i, j, parent);
  }

  lemma OriginOfKey<Id>(c: Config, steps: seq<Step<Id>>, n: nat, l: Listing, id: Id, i: nat, j: nat, path: CStr)
    requires i < j < n <= |steps| && Origin(c, steps, n, l, id, i, j)
    requires SameKey(c.keys, l.path, path)
    ensures Session(c, steps, id, i, j, path) && NotInvalidated(c, steps, j, n, path)
  {
    SameKeyEquivalence(c.keys, steps[i].path, l.path, path);
    forall m | j < m < n && steps[m].Invalidation?
      ensures !SameKey(c.keys, path, steps[m].path)
    {
      SameKeyEquivalence(c.keys, l.path, path, steps[m].path);
    }
  }

  /** Conversely a session that lost nothing is what a request for its directory gets next, until the
      expiration time has passed since its begin, and no longer. */
  lemma FilledIsServed<Id>(c: Config, steps: seq<Step<Id>>, states: seq<State<Id>>, n: nat, path: CStr, now: ULONG)
    returns (i: nat)
    requires Run(c, steps, states) && n < |steps| && steps[n].End? && c.enabled
    requires var id := steps[n].id;
             && id in states[n].open && !states[n].open[id].invalid
             && SameKey(c.keys, states[n].open[id].path, path)
    ensures i < n && Session(c, steps, steps[n].id, i, n, path)
    ensures var age := if steps[i].now <= now then now - steps[i].now else now + 0x1_0000_0000 - steps[i].now;
            ListResult(c, states[n + 1], path, now) ==
            if age < c.expiration then Some(Written(steps, steps[n].id, i + 1, n)) else None
  {
    var id := steps[n].id;
    i := OpenOrigin(c, steps, states, n, id);
    assert Next(c, steps, states, n);
    var l := states[n].open[id];
    SameKeyEquivalence(c.keys, steps[i].path, l.path, path);
    SameKeyEquivalence(c.keys, l.path, steps[i].path, path);
    assert states[n + 1].linked[0] == l;
    ElapsedMeans(now, [l]);
    assert [l][0] == l;
  }

  // ----- what stays and what goes

  /** A linked listing stays linked, unless it is the tail when a fill begins in a full list, or is
      filled anew, expired when it is asked for, or invalidated. */
  lemma LinkedStays<Id>(c: Config, s: State<Id>, step: Step<Id>, k: nat)
    requires Enabled(s, step) && k < |s.linked|
    requires var l := s.linked[k];
             match step
             case Begin(_, path, _, _) =>
               !(k == |s.linked| - 1 && |s.linked| >= c.depth) && !SameKey(c.keys, l.path, path)
             case Serve(path, now) =>
               SameKey(c.keys, l.path, path) ==>
                 (if l.time <= now then now - l.time else now + 0x1_0000_0000 - l.time) < c.expiration
             case Invalidation(path) => !SameKey(c.keys, l.path, path)
             case _ => true
    ensures s.linked[k] in Apply(c, s, step).linked
  {
    hide SameKey, Expired;
    match step
    case Begin(_, path, _, _) =>
      var l := Evict(c, s.linked);
      assert l[k] == s.linked[k];
      var i := Find(c.keys, l, path);
      if i < |l| {
        KeptWithout(l, i, k);
      }
    case Append(_, _, _) =>
    case End(id) =>
      assert ([s.open[id]] + s.linked)[k + 1] == s.linked[k];
    case GiveUp(_) =>
    case Serve(path, now) =>
      ElapsedMeans(now, s.linked);
      assert Expired(c, s.linked[k], now) <==> Elapsed(now, s.linked[k].time) >= c.expiration by {
        ExpiredMeans(c, s.linked[k], now);
      }
      var i := Find(c.keys, s.linked, path);
      if i < |s.linked| && i != k {
        KeptWithout(s.linked, i, k);
      }
    case Invalidation(path) => DropMembers(c.keys, s.linked, path, s.linked[k]);
  }

  lemma ExpiredMeans(c: Config, l: Listing, now: ULONG)
    ensures Expired(c, l, now) <==> Elapsed(now, l.time) >= c.expiration
  {
  }

  lemma KeptWithout(l: seq<Listing>, i: nat, k: nat)
    requires i < |l| && k < |l| && i != k
    ensures l[k] in Without(l, i)
  {
    assert Without(l, i)[if k < i then k else k - 1] == l[k];
  }

  /** The first listing of the directory asked for goes when the expiration time has passed. */
  lemma ExpiredGoes<Id>(c: Config, s: State<Id>, path: CStr, now: ULONG, k: nat)
    requires c.enabled && k < |s.linked| && SameKey(c.keys, s.linked[k].path, path)
    requires forall j :: 0 <= j < k ==> !SameKey(c.keys, s.linked[j].path, path)
    ensures var t := s.linked[k].time;
            var age := if t <= now then now - t else now + 0x1_0000_0000 - t;
            && ListResult(c, s, path, now) == (if age < c.expiration then Some(s.linked[k].infos) else None)
            && Apply(c, s, Serve(path, now)).open == s.open
            && Apply(c, s, Serve(path, now)).linked ==
               if age < c.expiration then s.linked else s.linked[..k] + s.linked[k + 1..]
  {
    hide SameKey;
    ElapsedMeans(now, s.linked);
    assert Find(c.keys, s.linked, path) == k;
  }

  /** Without such a listing, or with the cache disabled, there is no answer and nothing goes. */
  lemma NothingToServe<Id>(c: Config, s: State<Id>, path: CStr, now: ULONG)
    requires !c.enabled || forall j :: 0 <= j < |s.linked| ==> !SameKey(c.keys, s.linked[j].path, path)
    ensures ListResult(c, s, path, now) == None && Apply(c, s, Serve(path, now)) == s
  {
  }

  /** A fill gets a handle exactly when the cache is enabled and the directory is in the list, not
      counting a tail that makes room, or memory can be had. */
  lemma HandleIff<Id>(c: Config, s: State<Id>, step: Step<Id>)
    requires Enabled(s, step) && step.Begin?
    ensures step.id in Apply(c, s, step).open <==>
            && c.enabled
            && (step.alloc || exists k :: 0 <= k < |s.linked| && SameKey(c.keys, s.linked[k].path, step.path) &&
                                          !(k == |s.linked| - 1 && |s.linked| >= c.depth))
  {
    hide SameKey;
    var l := Evict(c, s.linked);
    assert forall k :: 0 <= k < |l| ==> l[k] == s.linked[k];
  }

  // ----- what an invalidation does not reach

  /** A listing linked before step m is the output of a session that began after step n. */
  ghost predicate BegunAfter<Id(!new)>(c: Config, steps: seq<Step<Id>>, n: nat, m: nat, l: Listing)
    requires m <= |steps|
  {
    exists id, i, j :: n < i < j < m && Origin(c, steps, m, l, id, i, j)
  }

  /** All that is linked for the key at the end of a run began after step n. */
  ghost predicate AllBegunAfter<Id(!new)>(c: Config, steps: seq<Step<Id>>, linked: seq<Listing>, n: nat, path: CStr) {
    forall k :: 0 <= k < |linked| && SameKey(c.keys, linked[k].path, path) ==>
      BegunAfter(c, steps, n, |steps|, linked[k])
  }

  /** Whatever follows, every listing of the key that is ever linked again began after step n. */
  ghost predicate Reaches<Id(!new)>(c: Config, steps: seq<Step<Id>>, n: nat, path: CStr) {
    forall more: seq<Step<Id>>, states: seq<State<Id>> {:trigger Run(c, steps + more, states)} ::
      Run(c, steps + more, states) ==> AllBegunAfter(c, steps + more, states[|steps + more|].linked, n, path)
  }

  /** A fill of the key is in progress and has lost nothing so far. */
  ghost predicate BeingFilled<Id>(c: Config, s: State<Id>, path: CStr) {
    exists id :: id in s.open && !s.open[id].invalid && SameKey(c.keys, s.open[id].path, path)
  }

  /** An invalidation removes everything read before it for good if and only if no fill of the
      directory is in progress. */
  lemma InvalidationReachesIff<Id(!new)>(c: Config, steps: seq<Step<Id>>, states: seq<State<Id>>, path: CStr)
    requires Run(c, steps, states) && steps != [] && steps[|steps| - 1] == Invalidation(path)
    ensures Reaches(c, steps, |steps| - 1, path) <==> !BeingFilled(c, states[|steps| - 1], path)
  {
    hide Next, BegunAfter, SameKey, Origin;
    var n := |steps| - 1;
    if BeingFilled(c, states[n], path) {
      StillLinks(c, steps, states, path);
    } else {
      forall more: seq<Step<Id>>, states': seq<State<Id>> | Run(c, steps + more, states')
        ensures AllBegunAfter(c, steps + more, states'[|steps + more|].linked, n, path)
      {
        SameStates(c, steps, states, more, states', n);
        assert (steps + more)[n] == steps[n];
        var l := states'[|steps + more|].linked;
        forall k | 0 <= k < |l| && SameKey(c.keys, l[k].path, path)
          ensures BegunAfter(c, steps + more, n, |steps + more|, l[k])
        {
          ReachedListing(c, steps + more, states', n, path, k);
        }
      }
    }
  }

  /** A run is determined by its steps. */
  lemma {:induction false} SameStates<Id>(c: Config, steps: seq<Step<Id>>, states: seq<State<Id>>, more: seq<Step<Id>>,
                                          states': seq<State<Id>>, n: nat)
    requires Run(c, steps, states) && Run(c, steps + more, states') && n <= |steps|
    ensures states'[n] == states[n]
  {
    if n > 0 {
      SameStates(c, steps, states, more, states', n - 1);
      assert Next(c, steps, states, n - 1) && Next(c, steps + more, states', n - 1);
    }
  }

  lemma ReachedListing<Id(!new)>(c: Config, steps: seq<Step<Id>>, states: seq<State<Id>>, n: nat, path: CStr, k: nat)
    requires Run(c, steps, states) && n < |steps| && steps[n] == Invalidation(path)
    requires !BeingFilled(c, states[n], path)
    requires k < |states[|steps|].linked| && SameKey(c.keys, states[|steps|].linked[k].path, path)
    ensures BegunAfter(c, steps, n, |steps|, states[|steps|].linked[k])
  {
    hide Next, SameKey, Written;
    LinkedAreValid(c, steps, states, |steps|);
    var id, i, j := LinkedOrigin(c, steps, states, |steps|, k);
    assert j > n && i != n;
    assert i < n ==> OpenAt(states, n, id, states[|steps|].linked[k]);
  }

  /** A fill in progress links what it read before the invalidation. */
  lemma StillLinks<Id(!new)>(c: Config, steps: seq<Step<Id>>, states: seq<State<Id>>, path: CStr)
    requires Run(c, steps, states) && steps != [] && steps[|steps| - 1] == Invalidation(path)
    requires BeingFilled(c, states[|steps| - 1], path)
    ensures !Reaches(c, steps, |steps| - 1, path)
  {
    hide SameKey, Drop, Origin;
    var n := |steps| - 1;
    var id :| id in states[n].open && !states[n].open[id].invalid && SameKey(c.keys, states[n].open[id].path, path);
    assert Next(c, steps, states, n);
    assert states[n + 1].open == states[n].open;
    var more := [End(id)];
    var states' := states + [WriteEnd(states[n + 1], id)];
    forall m | 0 <= m < n + 2
      ensures Next(c, steps + more, states', m)
    {
      if m <= n {
        assert Next(c, steps, states, m);
      }
    }
    assert Run(c, steps + more, states');
    assert states'[n + 2].linked[0] == states[n].open[id];
  }

  /** Without the plugin lock around a fill an invalidation can be lost: it only drops linked
      listings, so a fill in progress still links what it read before. */
  lemma InvalidationMissesOpenFill(c: Config, path: CStr, info: FileInfo, now: ULONG)
    requires c.enabled && c.expiration > 0 && c.depth >= 1
    ensures exists steps: seq<Step<int>>, states: seq<State<int>> ::
              && Run(c, steps, states)
              && steps == [Begin(0, path, now, true), Append(0, info, true), Invalidation(path), End(0)]
              && ListResult(c, states[4], path, now) == Some([info])
  {
    var steps: seq<Step<int>> := [Begin(0, path, now, true), Append(0, info, true), Invalidation(path), End(0)];
    var begun := Listing(path, now, [], false);
    var filled := Listing(path, now, [info], false);
    var s0: State<int> := State([], map[]);
    var s1 := State([], map[0 := begun]);
    var s2 := State([], map[0 := filled]);
    var s4 := State([filled], s2.open - {0});
    assert begun.(infos := begun.infos + [info]) == filled;
    assert s1.open[0 := filled] == s2.open;
    var states := [s0, s1, s2, s2, s4];
    forall n | 0 <= n < 4
      ensures Next(c, steps, states, n)
    {
    }
    assert Run(c, steps, states);
  }
}
