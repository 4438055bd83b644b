/** The directory cache on values: what each locked region does to the list of
    listings and to the fills in progress. The class in DirCache refines this. */
module CacheModel {
  import opened Wrappers
  import opened Bytes
  import opened CString
  import opened PathHash
  import opened PathKeys
  import opened Selections

  /** An unsigned 32-bit number of seconds. */
  type ULONG = x: int | 0 <= x < WORD

  /** `a - b` on ULONGs. */
  function Elapsed(a: ULONG, b: ULONG): ULONG {
    (a - b) % WORD
  }

  datatype FileInfo = FileInfo(fname: CStr, size: nat, attr: nat, mtime: nat)

  /** One cached directory: its key spelling, the time its fill began, its records,
      and whether a record was lost. */
  datatype Listing = Listing(path: CStr, time: ULONG, infos: seq<FileInfo>, invalid: bool)

  /** How paths are compared: the code page's case mapping and the hash. Everything below
      holds for every hash function; the cache in memory is built with PathHash.Hash. */
  datatype Keying = Keying(fold: Fold, hash: CStr -> nat)

  datatype Config = Config(keys: Keying, enabled: bool, expiration: ULONG, depth: int)

  /** The linked listings from head to tail, and the listings being filled, by the
      handle that dircache_write_begin returned. */
  datatype State<!Id(==)> = State(linked: seq<Listing>, open: map<Id, Listing>)

  /** Two paths name the same cached directory: the hashes of the raw bytes agree and
      the texts agree up to case. */
  predicate SameKey(keys: Keying, a: CStr, b: CStr) {
    keys.hash(a) == keys.hash(b) && SameText(keys.fold, a, b)
  }

  /** The first listing with the given key, or the length of the list. */
  function Find(keys: Keying, l: seq<Listing>, path: CStr): (i: nat)
    ensures i <= |l|
    ensures i < |l| ==> SameKey(keys, l[i].path, path)
    ensures forall j :: 0 <= j < i ==> !SameKey(keys, l[j].path, path)
  {
    if l == [] then 0
    else if SameKey(keys, l[0].path, path) then 0
    else 1 + Find(keys, l[1..], path)
  }

  function Without<T>(l: seq<T>, i: nat): (r: seq<T>)
    requires i < |l|
    ensures |r| == |l| - 1
    ensures forall k :: 0 <= k < |r| ==> r[k] == l[if k < i then k else k + 1]
  {
    l[..i] + l[i + 1..]
  }

  /** The list without any listing of the given key, the others in order. */
  function Drop(keys: Keying, l: seq<Listing>, path: CStr): seq<Listing> {
    if l == [] then []
    else
      var last := l[|l| - 1];
      Drop(keys, l[..|l| - 1], path) + if SameKey(keys, last.path, path) then [] else [last]
  }

  predicate Expired(c: Config, l: Listing, now: ULONG) {
    Elapsed(now, l.time) >= c.expiration
  }

  /** Making room before a fill: the tail goes when the depth is reached. */
  function Evict(c: Config, l: seq<Listing>): seq<Listing> {
    if |l| >= c.depth && l != [] then l[..|l| - 1] else l
  }

  predicate AllValid(l: seq<Listing>) {
    forall k :: 0 <= k < |l| ==> !l[k].invalid
  }

  // ----- the locked regions

  /** dircache_write_begin; `alloc` tells whether memory for a new entry was available.
      `id` is the handle it returns, unless it returns NULL. */
  function WriteBegin<Id>(c: Config, s: State<Id>, path: CStr, now: ULONG, id: Id, alloc: bool): State<Id> {
    var l := Evict(c, s.linked);
    if !c.enabled then State(l, s.open)
    else
      var i := Find(c.keys, l, path);
      if i < |l| then State(Without(l, i), s.open[id := l[i].(infos := [], time := now)])
      else if alloc then State(l, s.open[id := Listing(path, now, [], false)])
      else State(l, s.open)
  }

  /** dircache_write_entry; `stored` tells whether the record found room. */
  function WriteEntry<Id>(s: State<Id>, id: Id, info: FileInfo, stored: bool): State<Id>
    requires id in s.open
  {
    var l := s.open[id];
    s.(open := s.open[id := if stored then l.(infos := l.infos + [info]) else l.(invalid := true)])
  }

  /** dircache_write_end */
  function WriteEnd<Id>(s: State<Id>, id: Id): State<Id>
    requires id in s.open
  {
    State(if s.open[id].invalid then s.linked else [s.open[id]] + s.linked, s.open - {id})
  }

  /** A fill that is given up without dircache_write_end. */
  function Abandon<Id>(s: State<Id>, id: Id): State<Id> {
    s.(open := s.open - {id})
  }

  /** dircache_list_files: the records handed to the callback, if the cache answers. */
  function ListResult<Id>(c: Config, s: State<Id>, path: CStr, now: ULONG): Option<seq<FileInfo>> {
    var i := Find(c.keys, s.linked, path);
    if c.enabled && i < |s.linked| && !Expired(c, s.linked[i], now) then Some(s.linked[i].infos) else None
  }

  /** ... and the state it leaves: an expired listing is removed. */
  function ListFiles<Id>(c: Config, s: State<Id>, path: CStr, now: ULONG): State<Id> {
    var i := Find(c.keys, s.linked, path);
    if c.enabled && i < |s.linked| && Expired(c, s.linked[i], now)
    then s.(linked := Without(s.linked, i))
    else s
  }

  /** dircache_invalidate */
  function Invalidate<Id>(c: Config, s: State<Id>, path: CStr): State<Id> {
    s.(linked := Drop(c.keys, s.linked, path))
  }

  /** The first record with the given name, or the length of the listing. */
  function FindInfo(fold: Fold, infos: seq<FileInfo>, name: CStr): (i: nat)
    ensures i <= |infos|
    ensures i < |infos| ==> SameText(fold, infos[i].fname, name)
    ensures forall j :: 0 <= j < i ==> !SameText(fold, infos[j].fname, name)
  {
    if infos == [] then 0
    else if SameText(fold, infos[0].fname, name) then 0
    else 1 + FindInfo(fold, infos[1..], name)
  }

  datatype Hit = Hit(info: FileInfo, age: ULONG)

  /** The search for one file: every listing of the parent is tried, expired or not. */
  function Lookup(keys: Keying, l: seq<Listing>, parent: CStr, name: CStr, now: ULONG): Option<Hit> {
    if l == [] then None
    else
      var i := FindInfo(keys.fold, l[0].infos, name);
      if SameKey(keys, l[0].path, parent) && i < |l[0].infos|
      then Some(Hit(l[0].infos[i], Elapsed(now, l[0].time)))
      else Lookup(keys, l[1..], parent, name, now)
  }

  /** dircache_find_path */
  function FindPath(keys: Keying, l: seq<Listing>, path: CStr, now: ULONG): Option<Hit> {
    if HasWildcard(path) then None
    else Lookup(keys, l, ParentKey(path), LeafName(path), now)
  }

  // ----- what the searches mean

  /** The time since the listings began, as long as the clock wrapped at most once. */
  lemma ElapsedMeans(now: ULONG, l: seq<Listing>)
    ensures forall k :: 0 <= k < |l| ==>
              Elapsed(now, l[k].time) ==
              if l[k].time <= now then now - l[k].time else now + 0x1_0000_0000 - l[k].time
  {
  }

  /** What a single-file lookup is about: paths with wildcards are not looked up. */
  lemma FindPathMeans(keys: Keying, l: seq<Listing>, path: CStr, now: ULONG)
    ensures FindPath(keys, l, path, now) ==
            if exists i :: 0 <= i < |path| && path[i] in {'*', '?'} then None
            else Lookup(keys, l, ParentKey(path), LeafName(path), now)
  {
  }

  /** Same hash and same length, and the same characters up to case. */
  lemma SameKeyMeans(keys: Keying, a: CStr, b: CStr)
    ensures SameKey(keys, a, b) <==>
            && keys.hash(a) == keys.hash(b) && |a| == |b|
            && forall i :: 0 <= i < |a| ==> keys.fold(a[i]) == keys.fold(b[i])
  {
  }

  /** The hash prefilter never hides a byte-identical path, and key equality is an equivalence. */
  lemma SameKeyEquivalence(keys: Keying, a: CStr, b: CStr, d: CStr)
    ensures SameKey(keys, a, a)
    ensures SameKey(keys, a, b) ==> SameKey(keys, b, a)
    ensures SameKey(keys, a, b) && SameKey(keys, b, d) ==> SameKey(keys, a, d)
  {
  }

  /** Invalidation removes all listings of the key and only those: `at` are the positions
      of what stays, in order, and every position of another key is among them. */
  lemma {:induction false} DropSelects(keys: Keying, l: seq<Listing>, path: CStr) returns (at: seq<nat>)
    ensures |at| == |Drop(keys, l, path)|
    ensures forall k :: 0 <= k < |at| ==> at[k] < |l| && Drop(keys, l, path)[k] == l[at[k]]
    ensures forall j, k :: 0 <= j < k < |at| ==> at[j] < at[k]
    ensures forall m :: 0 <= m < |l| ==> (m in at <==> !SameKey(keys, l[m].path, path))
  {
    hide SameKey;
    at := [];
    if l != [] {
      var n := |l| - 1;
      var before := DropSelects(keys, l[..n], path);
      at := before + if !SameKey(keys, l[n].path, path) then [n] else [];
      Extended(before, n, !SameKey(keys, l[n].path, path));
      assert forall m :: 0 <= m < n ==> l[m] == l[..n][m];
    }
  }

  lemma DropMembers(keys: Keying, l: seq<Listing>, path: CStr, x: Listing)
    ensures x in Drop(keys, l, path) <==> x in l && !SameKey(keys, x.path, path)
  {
    var at := DropSelects(keys, l, path);
    if x in l && !SameKey(keys, x.path, path) {
      var m :| 0 <= m < |l| && l[m] == x;
      var k :| 0 <= k < |at| && at[k] == m;
      assert Drop(keys, l, path)[k] == x;
    }
    if x in Drop(keys, l, path) {
      var k :| 0 <= k < |at| && Drop(keys, l, path)[k] == x;
      assert at[k] in at;
    }
  }

  /** One round of the removal loop in dcInvalidate. */
  lemma DropStep(keys: Keying, l: seq<Listing>, path: CStr)
    ensures var i := Find(keys, l, path);
            Drop(keys, l, path) == if i < |l| then Drop(keys, Without(l, i), path) else l
  {
    var i := Find(keys, l, path);
    if i < |l| {
      var a, x, b := l[..i], l[i], l[i + 1..];
      assert Without(l, i) == a + b;
      assert l == a + ([x] + b) by {
        assert l == a + l[i..] && l[i..] == [x] + b;
      }
      DropCutOut(keys, a, x, b, path);
    } else {
      DropNothing(keys, l, path);
    }
  }

  lemma DropCutOut(keys: Keying, a: seq<Listing>, x: Listing, b: seq<Listing>, path: CStr)
    requires SameKey(keys, x.path, path)
    ensures Drop(keys, a + ([x] + b), path) == Drop(keys, a + b, path)
  {
    DropConcat(keys, a, [x] + b, path);
    DropConcat(keys, [x], b, path);
    DropConcat(keys, a, b, path);
    assert [x][..0] == [];
    assert Drop(keys, [x], path) == [];
  }

  lemma {:induction false} DropConcat(keys: Keying, a: seq<Listing>, b: seq<Listing>, path: CStr)
    ensures Drop(keys, a + b, path) == Drop(keys, a, path) + Drop(keys, b, path)
  {
    if b == [] {
      assert a + b == a;
    } else {
      assert (a + b)[..|a + b| - 1] == a + b[..|b| - 1];
      DropConcat(keys, a, b[..|b| - 1], path);
    }
  }

  lemma {:induction false} DropNothing(keys: Keying, l: seq<Listing>, path: CStr)
    requires forall k :: 0 <= k < |l| ==> !SameKey(keys, l[k].path, path)
    ensures Drop(keys, l, path) == l
  {
    if l != [] {
      DropNothing(keys, l[..|l| - 1], path);
    }
  }

  /** A lookup finds nothing exactly when no listing of the parent has the name. */
  lemma {:induction false} LookupMiss(keys: Keying, l: seq<Listing>, parent: CStr, name: CStr, now: ULONG)
    ensures Lookup(keys, l, parent, name, now).None? <==>
            forall k :: 0 <= k < |l| && SameKey(keys, l[k].path, parent) ==>
              FindInfo(keys.fold, l[k].infos, name) == |l[k].infos|
  {
    if l != [] {
      LookupMiss(keys, l[1..], parent, name, now);
      assert forall k :: 0 < k < |l| ==> l[k] == l[1..][k - 1];
      assert forall k :: 0 <= k < |l| - 1 ==> l[1..][k] == l[k + 1];
    }
  }

  /** Listing k of the parent has the name, and no listing of the parent before it has. */
  ghost predicate FirstWithName(keys: Keying, l: seq<Listing>, parent: CStr, name: CStr, k: nat)
    requires k < |l|
  {
    && SameKey(keys, l[k].path, parent)
    && FindInfo(keys.fold, l[k].infos, name) < |l[k].infos|
    && forall j :: 0 <= j < k && SameKey(keys, l[j].path, parent) ==>
         FindInfo(keys.fold, l[j].infos, name) == |l[j].infos|
  }

  /** Otherwise the answer is the first matching record of the first listing that has one. */
  lemma {:induction false} LookupHit(keys: Keying, l: seq<Listing>, parent: CStr, name: CStr, now: ULONG)
    returns (k: nat)
    requires Lookup(keys, l, parent, name, now).Some?
    ensures k < |l| && FirstWithName(keys, l, parent, name, k)
    ensures Lookup(keys, l, parent, name, now).value ==
            Hit(l[k].infos[FindInfo(keys.fold, l[k].infos, name)], Elapsed(now, l[k].time))
  {
    var i := FindInfo(keys.fold, l[0].infos, name);
    if SameKey(keys, l[0].path, parent) && i < |l[0].infos| {
      k := 0;
    } else {
      var m := LookupHit(keys, l[1..], parent, name, now);
      k := m + 1;
      assert forall j :: 0 < j < k ==> l[j] == l[1..][j - 1];
    }
  }

  /** Two spellings of one directory are not always one key: invalidating one spelling
      leaves a listing under the other exactly when the hashes of the raw bytes differ. */
  lemma OtherSpellingSurvives(keys: Keying, l: seq<Listing>, x: Listing, path: CStr)
    requires x in l && SameText(keys.fold, x.path, path)
    ensures x in Drop(keys, l, path) <==> keys.hash(x.path) != keys.hash(path)
  {
    DropMembers(keys, l, path, x);
  }

  /** ... and there are such spellings: "A" and "a" under any mapping that identifies them. */
  lemma OtherSpellingWitness(fold: Fold)
    requires fold('a') == fold('A')
    ensures SameText(fold, "a", "A") && Hash("a") != Hash("A")
  {
    HashOfOne('a');
    HashOfOne('A');
  }

  lemma HashOfOne(ch: Char)
    requires ch as int < 0x80
    ensures Hash([ch]) == ch as int
  {
    assert [ch][..0] == [];
    assert Accumulate([ch]) == Mix(0, ch);
  }
}
