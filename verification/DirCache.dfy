/** The directory cache as it is in memory: a doubly linked list of entries, each with a
    growable array of records. Every method is one locked region. The ghost field `model`
    is the value the heap stands for, and each method moves it as CacheModel says. */
module DirCache {
  import opened Wrappers
  import opened CString
  import opened PathHash
  import opened PathKeys
  import opened CacheModel
  import opened Growth

  class DirectoryCacheEntry {
    var pNext: DirectoryCacheEntry?
    var pPrev: DirectoryCacheEntry?
    const pdc: DirectoryCache

    var aInfos: array<FileInfo>
    var cInfos: int
    var cInfosAllocated: int

    const pszPath: CStr
    const ulHash: nat
    var ulLastUpdateTime: ULONG
    var fInvalid: bool

    /** The records of the listing, and how many were moved by growing since it was cleared. */
    ghost var contents: seq<FileInfo>
    ghost var copied: nat

    ghost predicate Valid()
      reads `aInfos, `cInfos, `cInfosAllocated, `contents, aInfos
    {
      && 0 <= cInfos <= cInfosAllocated == aInfos.Length
      && contents == aInfos[..cInfos]
    }

    ghost function Record(): Listing
      reads `ulLastUpdateTime, `contents, `fInvalid
    {
      Listing(pszPath, ulLastUpdateTime, contents, fInvalid)
    }

    ghost function Space(): Buffer
      reads this, aInfos
      requires Valid()
    {
      Buffer(cInfos, cInfosAllocated, copied)
    }

    /** dceCreate, once both allocations succeeded */
    constructor (cache: DirectoryCache, path: CStr, hash: nat, cFiles: nat)
      ensures Valid() && fresh(aInfos)
      ensures pdc == cache && pNext == null && pPrev == null
      ensures Record() == Listing(path, 0, [], false) && ulHash == hash
      ensures Space() == Buffer(0, cFiles, 0)
    {
      pdc := cache;
      aInfos := new FileInfo[cFiles];
      cInfos := 0;
      cInfosAllocated := cFiles;
      pszPath := path;
      ulLastUpdateTime := 0;
      fInvalid := false;
      pNext := null;
      pPrev := null;
      ulHash := hash;
      contents := [];
      copied := 0;
    }

    /** dceClear */
    method Clear()
      requires Valid()
      modifies `cInfos, `contents, `copied
      ensures Valid() && Record() == old(Record()).(infos := [])
      ensures Space() == Buffer(0, old(cInfosAllocated), 0)
    {
      cInfos := 0;
      contents := [];
      copied := 0;
    }

    /** realloc to a buffer of n records */
    method Reallocate(n: nat)
      requires Valid() && cInfos <= n
      modifies `aInfos, `cInfosAllocated
      ensures Valid() && fresh(aInfos) && cInfosAllocated == n
    {
      var bigger := new FileInfo[n];
      var i := 0;
      while i < cInfos
        invariant 0 <= i <= cInfos
        invariant bigger[..i] == aInfos[..i]
        modifies bigger
      {
        bigger[i] := aInfos[i];
        i := i + 1;
      }
      aInfos := bigger;
      cInfosAllocated := n;
    }

    /** dceWriteEntry; `alloc` is the outcome of realloc if it comes to that */
    method Write(info: FileInfo, alloc: bool) returns (stored: bool)
      requires Valid()
      modifies `aInfos, `cInfos, `cInfosAllocated, `fInvalid, `contents, `copied, aInfos
      ensures Valid() && (aInfos == old(aInfos) || fresh(aInfos))
      ensures stored == (old(cInfos < cInfosAllocated) || alloc)
      ensures Record() == if stored then old(Record()).(infos := old(contents) + [info])
                          else old(Record()).(invalid := true)
      ensures cInfosAllocated == if old(cInfos < cInfosAllocated) || !alloc then old(cInfosAllocated)
                                 else old(cInfosAllocated) + old(cInfosAllocated) / 2 + 1
      ensures Space() == Push(old(Space()), alloc)
    {
      if cInfos >= cInfosAllocated {
        var cNewAllocated := cInfosAllocated + cInfosAllocated / 2 + 1;
        if alloc {
          copied := copied + cInfosAllocated;
          Reallocate(cNewAllocated);
        } else {
          fInvalid := true;
          return false;
        }
      }
      aInfos[cInfos] := info;
      cInfos := cInfos + 1;
      contents := contents + [info];
      return true;
    }

    /** The callback loop of dcRead. */
    method Emit() returns (emitted: seq<FileInfo>)
      requires Valid()
      ensures emitted == contents
    {
      emitted := [];
      var i := 0;
      while i < cInfos
        invariant 0 <= i <= cInfos && emitted == contents[..i]
      {
        emitted := emitted + [aInfos[i]];
        i := i + 1;
      }
    }

    /** The name loop of dcFindPath. */
    method IndexOf(fold: Fold, name: CStr) returns (i: nat)
      requires Valid()
      ensures i == FindInfo(fold, contents, name)
    {
      i := 0;
      while i < cInfos
        invariant 0 <= i <= cInfos
        invariant forall j :: 0 <= j < i ==> !SameText(fold, contents[j].fname, name)
      {
        if SameText(fold, aInfos[i].fname, name) {
          break;
        }
        i := i + 1;
      }
      FindInfoIsFirst(fold, contents, name, i);
    }

    /** dceAdjust; a realloc that fails leaves the old buffer */
    method Adjust(alloc: bool)
      requires Valid()
      modifies `aInfos, `cInfosAllocated
      ensures Valid() && (aInfos == old(aInfos) || fresh(aInfos))
      ensures Record() == old(Record())
      ensures cInfosAllocated == if alloc then Trimmed(cInfos, old(cInfosAllocated)) else old(cInfosAllocated)
      ensures var free := old(cInfosAllocated) - cInfos;
              cInfosAllocated == if alloc && free > cInfos / 2 then cInfos + free / 2 else old(cInfosAllocated)
    {
      var cFree := cInfosAllocated - cInfos;
      if cFree > cInfos / 2 {
        var cNewAllocated := cInfos + cFree / 2;
        if alloc {
          Reallocate(cNewAllocated);
        }
      }
    }
  }

  ghost function Only(e: DirectoryCacheEntry?): set<DirectoryCacheEntry> {
    if e == null then {} else {e}
  }

  ghost function At(l: seq<DirectoryCacheEntry>, i: int): DirectoryCacheEntry? {
    if 0 <= i < |l| then l[i] else null
  }

  predicate Distinct(l: seq<DirectoryCacheEntry>) {
    forall i, j :: 0 <= i < j < |l| ==> l[i] != l[j]
  }

  /** The forward walk from `head` is `l`, and the backward walk from `tail` is its reverse. */
  ghost predicate Chain(l: seq<DirectoryCacheEntry>, head: DirectoryCacheEntry?, tail: DirectoryCacheEntry?)
    reads l`pNext, l`pPrev
  {
    && Distinct(l)
    && head == At(l, 0) && tail == At(l, |l| - 1)
    && (forall i {:trigger l[i].pNext} :: 0 <= i < |l| ==> l[i].pNext == At(l, i + 1))
    && (forall i {:trigger l[i].pPrev} :: 0 <= i < |l| ==> l[i].pPrev == At(l, i - 1))
  }

  /** Entries outside a chain, with both pointers NULL. */
  ghost predicate Apart(unlinked: set<DirectoryCacheEntry>, l: seq<DirectoryCacheEntry>)
    reads unlinked`pNext, unlinked`pPrev
  {
    forall e :: e in unlinked ==> e !in l && e.pNext == null && e.pPrev == null
  }

  /** A chain whose links step over position i. */
  lemma Relinked(l: seq<DirectoryCacheEntry>, i: nat, head: DirectoryCacheEntry?, tail: DirectoryCacheEntry?)
    requires i < |l|
    requires Distinct(l)
    requires head == At(l, if i == 0 then 1 else 0)
    requires tail == At(l, if i == |l| - 1 then i - 1 else |l| - 1)
    requires forall k {:trigger l[k].pNext} :: 0 <= k < |l| && k != i ==>
               l[k].pNext == At(l, if k + 1 == i then k + 2 else k + 1)
    requires forall k {:trigger l[k].pPrev} :: 0 <= k < |l| && k != i ==>
               l[k].pPrev == At(l, if k - 1 == i then k - 2 else k - 1)
    ensures Chain(Without(l, i), head, tail)
  {
  }

  class DirectoryCache {
    var pEntriesHead: DirectoryCacheEntry?
    var pEntriesTail: DirectoryCacheEntry?
    var cEntries: int
    var fEnabled: bool
    var ulExpirationTime: ULONG
    var cMaxEntries: int
    const fold: Fold
    const keys: Keying := Keying(fold, Hash)

    /** The linked entries from head to tail, and the value of the cache. */
    ghost var list: seq<DirectoryCacheEntry>
    ghost var model: State<DirectoryCacheEntry>

    /** All entries ever created for this cache, whose each record array is, and the objects
        of the cache. */
    ghost var own: set<DirectoryCacheEntry>
    ghost var owner: map<array<FileInfo>, DirectoryCacheEntry>
    ghost var Repr: set<object>

    ghost function Config(): Config
      reads this
    {
      CacheModel.Config(keys, fEnabled, ulExpirationTime, cMaxEntries)
    }

    /** Every entry is made of objects of this cache, has its own record array and carries the
        hash of its own path. */
    ghost predicate Owned()
      reads `own, `owner, own`aInfos, own`cInfos, own`cInfosAllocated, own`contents, owner.Keys
    {
      && (forall e :: e in own ==>
            e.aInfos in owner && owner[e.aInfos] == e && e.pdc == this && e.ulHash == keys.hash(e.pszPath) && e.Valid())
    }

    ghost predicate Members()
      reads `own, `list, `model
    {
      && (forall e :: e in list ==> e in own)
      && model.open.Keys <= own
    }

    /** The linked entries form the chain that the head, the tail and the count describe;
        entries handed out to a writer are unlinked, with both pointers NULL. */
    ghost predicate Links()
      reads `list, `model, `pEntriesHead, `pEntriesTail, `cEntries
      reads list`pNext, list`pPrev, model.open.Keys`pNext, model.open.Keys`pPrev
    {
      && Chain(list, pEntriesHead, pEntriesTail) && cEntries == |list|
      && Apart(model.open.Keys, list)
    }

    /** The model is what the entries hold. */
    ghost predicate Abstracted()
      reads `list, `model
      reads list`ulLastUpdateTime, list`contents, list`fInvalid
      reads model.open.Keys`ulLastUpdateTime, model.open.Keys`contents, model.open.Keys`fInvalid
    {
      && |list| == |model.linked|
      && (forall i :: 0 <= i < |list| ==> list[i].Record() == model.linked[i])
      && (forall e :: e in model.open ==> e.Record() == model.open[e])
    }

    ghost predicate Valid()
      reads this, Repr
      ensures Valid() ==> this in Repr
    {
      this in Repr && own <= Repr && owner.Keys <= Repr && Owned() && Members() && Links() && Abstracted()
    }

    /** dircache_create */
    constructor (fold: Fold, ulExpirationTime: ULONG, cMaxEntries: int)
      ensures Valid() && fresh(Repr)
      ensures model == State([], map[])
      ensures Config() == CacheModel.Config(Keying(fold, Hash), true, ulExpirationTime, cMaxEntries)
    {
      pEntriesHead := null;
      pEntriesTail := null;
      cEntries := 0;
      fEnabled := true;
      this.ulExpirationTime := ulExpirationTime;
      this.cMaxEntries := cMaxEntries;
      this.fold := fold;
      list := [];
      model := State([], map[]);
      own := {};
      owner := map[];
      Repr := {this};
    }

    method HashOf(path: CStr) returns (hash: nat)
      ensures hash == keys.hash(path)
    {
      hash := ComputeHash(path);
    }

    /** dcFindDirCache */
    method FindDirCache(path: CStr) returns (iter: DirectoryCacheEntry?)
      requires Valid()
      ensures |list| == |model.linked| && iter == At(list, Find(keys, model.linked, path))
    {
      var hash := HashOf(path);
      iter := pEntriesHead;
      ghost var i: nat := 0;
      while iter != null
        invariant 0 <= i <= |list| && iter == At(list, i)
        invariant forall j :: 0 <= j < i ==> !SameKey(keys, model.linked[j].path, path)
        decreases |list| - i
      {
        if iter.ulHash == hash && SameText(keys.fold, iter.pszPath, path) {
          break;
        }
        iter := iter.pNext;
        i := i + 1;
      }
      FindIsFirst(keys, model.linked, path, i);
    }

    /** The pointer updates of dcRemoveEntry. */
    method Unlink(pdce: DirectoryCacheEntry, ghost l: seq<DirectoryCacheEntry>, ghost i: nat,
                  ghost unlinked: set<DirectoryCacheEntry>)
      requires Chain(l, pEntriesHead, pEntriesTail) && i < |l| && l[i] == pdce
      requires Apart(unlinked, l)
      modifies `pEntriesHead, `pEntriesTail, `cEntries
      modifies pdce`pNext, pdce`pPrev, Only(pdce.pNext)`pPrev, Only(pdce.pPrev)`pNext
      ensures Chain(Without(l, i), pEntriesHead, pEntriesTail)
      ensures pdce.pNext == null && pdce.pPrev == null && cEntries == old(cEntries) - 1
      ensures Apart(unlinked, l)
    {
      if pdce.pNext != null {
        pdce.pNext.pPrev := pdce.pPrev;
      } else {
        pEntriesTail := pdce.pPrev;
      }
      if pdce.pPrev != null {
        pdce.pPrev.pNext := pdce.pNext;
      } else {
        pEntriesHead := pdce.pNext;
      }
      pdce.pNext := null;
      pdce.pPrev := null;
      cEntries := cEntries - 1;
      Relinked(l, i, pEntriesHead, pEntriesTail);
    }

    /** dcRemoveEntry; the entry stays allocated and outside the list. */
    method RemoveEntry(pdce: DirectoryCacheEntry, ghost i: nat)
      requires Valid() && i < |list| && list[i] == pdce
      modifies `pEntriesHead, `pEntriesTail, `cEntries, `list, `model
      modifies pdce`pNext, pdce`pPrev, Only(pdce.pNext)`pPrev, Only(pdce.pPrev)`pNext
      ensures Valid()
      ensures list == Without(old(list), i)
      ensures model == old(model).(linked := Without(old(model.linked), i))
      ensures pdce.pNext == null && pdce.pPrev == null && pdce !in list && pdce !in model.open
    {
      UnlinkFramed(pdce, i);
      Forget(i);
    }

    /** Moving pointers touches neither the records nor the ownership. */
    twostate lemma OnlyPointersMoved()
      requires old(Valid())
      requires unchanged(`own, `owner, `Repr, `list, `model)
      requires unchanged(old(own)`aInfos, old(own)`cInfos, old(own)`cInfosAllocated, old(own)`contents)
      requires unchanged(old(own)`ulLastUpdateTime, old(own)`fInvalid, old(owner.Keys))
      ensures Owned() && Members() && Abstracted()
    {
    }

    method UnlinkFramed(pdce: DirectoryCacheEntry, ghost i: nat)
      requires Valid() && i < |list| && list[i] == pdce
      modifies `pEntriesHead, `pEntriesTail, `cEntries
      modifies pdce`pNext, pdce`pPrev, Only(pdce.pNext)`pPrev, Only(pdce.pPrev)`pNext
      ensures Owned() && Members() && Abstracted() && Apart(model.open.Keys, list)
      ensures Chain(Without(list, i), pEntriesHead, pEntriesTail) && cEntries == |list| - 1
      ensures pdce.pNext == null && pdce.pPrev == null && Distinct(list)
    {
      Unlink(pdce, list, i, model.open.Keys);
      OnlyPointersMoved();
    }

    ghost method Forget(i: nat)
      requires this in Repr && own <= Repr && owner.Keys <= Repr && Owned()
      requires Members() && Abstracted() && Apart(model.open.Keys, list)
      requires i < |list| && Distinct(list)
      requires Chain(Without(list, i), pEntriesHead, pEntriesTail) && cEntries == |list| - 1
      modifies `list, `model
      ensures Valid()
      ensures list == Without(old(list), i) && old(list)[i] !in list
      ensures model == old(model).(linked := Without(old(model.linked), i))
    {
      hide Owned, Chain;
      list := Without(list, i);
      model := model.(linked := Without(model.linked, i));
    }

    /** The pointer updates of dcInsertEntry. */
    method LinkAtHead(pdce: DirectoryCacheEntry, ghost l: seq<DirectoryCacheEntry>,
                      ghost unlinked: set<DirectoryCacheEntry>)
      requires Chain(l, pEntriesHead, pEntriesTail) && pdce !in l && pdce.pPrev == null
      requires Apart(unlinked, l) && pdce !in unlinked
      modifies `pEntriesHead, `pEntriesTail, `cEntries, pdce`pNext, Only(pEntriesHead)`pPrev
      ensures Chain([pdce] + l, pEntriesHead, pEntriesTail)
      ensures cEntries == old(cEntries) + 1
      ensures Apart(unlinked, l)
    {
      pdce.pNext := pEntriesHead;
      if pEntriesHead != null {
        pEntriesHead.pPrev := pdce;
      } else {
        pEntriesTail := pdce;
      }
      pEntriesHead := pdce;
      cEntries := cEntries + 1;
    }

    /** dcInsertEntry */
    method InsertEntry(pdce: DirectoryCacheEntry)
      requires Valid() && pdce in model.open
      modifies `pEntriesHead, `pEntriesTail, `cEntries, `list, `model
      modifies pdce`pNext, Only(pEntriesHead)`pPrev
      ensures Valid()
      ensures list == [pdce] + old(list)
      ensures model == State([old(model.open[pdce])] + old(model.linked), old(model.open) - {pdce})
    {
      LinkFramed(pdce);
      Remember(pdce);
    }

    method LinkFramed(pdce: DirectoryCacheEntry)
      requires Valid() && pdce in model.open
      modifies `pEntriesHead, `pEntriesTail, `cEntries, pdce`pNext, Only(pEntriesHead)`pPrev
      ensures Owned() && Members() && Abstracted()
      ensures Apart(model.open.Keys - {pdce}, list) && pdce !in list
      ensures Chain([pdce] + list, pEntriesHead, pEntriesTail) && cEntries == |list| + 1
    {
      LinkAtHead(pdce, list, model.open.Keys - {pdce});
      OnlyPointersMoved();
    }

    ghost method Remember(pdce: DirectoryCacheEntry)
      requires this in Repr && own <= Repr && owner.Keys <= Repr && Owned()
      requires Members() && Abstracted() && pdce in model.open
      requires Apart(model.open.Keys - {pdce}, list) && pdce !in list
      requires Chain([pdce] + list, pEntriesHead, pEntriesTail) && cEntries == |list| + 1
      modifies `list, `model
      ensures Valid()
      ensures list == [pdce] + old(list)
      ensures model == State([old(model.open[pdce])] + old(model.linked), old(model.open) - {pdce})
    {
      hide Owned, Chain;
      list := [pdce] + list;
      model := State([model.open[pdce]] + model.linked, model.open - {pdce});
    }

    // ----- entries moving in and out of the list

    /** A new entry becomes one of this cache. */
    ghost method Adopt(e: DirectoryCacheEntry)
      requires Valid() && e !in Repr && e.aInfos !in Repr
      requires e.Valid() && e.pdc == this && e.ulHash == keys.hash(e.pszPath)
      modifies `own, `owner, `Repr
      ensures Valid() && own == old(own) + {e}
      ensures owner.Keys == old(owner.Keys) + {e.aInfos} && Repr == old(Repr) + {e, e.aInfos}
    {
      hide Links, Abstracted;
      own := own + {e};
      owner := owner[e.aInfos := e];
      Repr := Repr + {e, e.aInfos};
    }

    /** The begin time of an entry outside the list is set. */
    method SetTime(e: DirectoryCacheEntry, now: ULONG)
      requires Valid() && e in own && e !in list && e !in model.open
      modifies e`ulLastUpdateTime
      ensures Members() && Links() && Abstracted()
      ensures e.Record() == old(e.Record()).(time := now)
    {
      e.ulLastUpdateTime := now;
    }

    /** An unlinked entry is handed out to a writer. */
    ghost method HandOut(e: DirectoryCacheEntry)
      requires Members() && Links() && Abstracted()
      requires e in own && e !in list && e !in model.open && e.pNext == null && e.pPrev == null
      modifies `model
      ensures Members() && Links() && Abstracted()
      ensures model == old(model).(open := old(model.open)[e := e.Record()])
    {
      model := model.(open := model.open[e := e.Record()]);
    }

    method OpenFill(e: DirectoryCacheEntry, now: ULONG)
      requires Valid() && e in own && e !in list && e !in model.open && e.pNext == null && e.pPrev == null
      modifies `model, e`ulLastUpdateTime
      ensures Valid()
      ensures model == old(model).(open := old(model.open)[e := old(e.Record()).(time := now)])
    {
      hide Owned, Links, Abstracted;
      SetTime(e, now);
      HandOut(e);
    }

    method ClearOwned(e: DirectoryCacheEntry)
      requires Owned() && e in own
      modifies e`cInfos, e`contents, e`copied
      ensures Owned() && e.Record() == old(e.Record()).(infos := [])
    {
      e.Clear();
    }

    /** The listing of a linked entry is discarded. */
    method Discard(e: DirectoryCacheEntry, ghost i: nat)
      requires Valid() && i < |list| && list[i] == e
      modifies `model, e`cInfos, e`contents, e`copied
      ensures Owned() && Members() && Links() && Abstracted()
      ensures model == old(model).(linked := old(model.linked)[i := old(model.linked)[i].(infos := [])])
    {
      hide Owned, Links;
      LinkedOnce(i);
      ClearOwned(e);
      Restate(i);
    }

    lemma NeighboursOwned(i: nat)
      requires Members() && Links() && i < |list|
      ensures list[i].pNext != null ==> list[i].pNext in own
      ensures list[i].pPrev != null ==> list[i].pPrev in own
    {
    }

    lemma LinkedOnce(i: nat)
      requires Links() && i < |list|
      ensures forall k :: 0 <= k < |list| && k != i ==> list[k] != list[i]
      ensures list[i] !in model.open
    {
    }

    /** The model follows the i-th entry. */
    ghost method Restate(i: nat)
      requires Members() && Links() && i < |list| == |model.linked|
      requires forall k :: 0 <= k < |list| && k != i ==> list[k].Record() == model.linked[k]
      requires forall d :: d in model.open ==> d.Record() == model.open[d]
      modifies `model
      ensures Members() && Links() && Abstracted()
      ensures model == old(model).(linked := old(model.linked)[i := list[i].Record()])
    {
      model := model.(linked := model.linked[i := list[i].Record()]);
    }

    /** An entry grew or shrank: its buffer, if it is a new one, becomes one of this cache. */
    ghost method TrackBuffer(e: DirectoryCacheEntry)
      requires forall d :: d in own && d != e ==> d.aInfos in owner && owner[d.aInfos] == d && d.aInfos != e.aInfos
      requires forall d :: d in own ==> d.pdc == this && d.ulHash == keys.hash(d.pszPath) && d.Valid()
      modifies `owner, `Repr
      ensures Owned() && owner.Keys == old(owner.Keys) + {e.aInfos} && Repr == old(Repr) + {e.aInfos}
    {
      owner := owner[e.aInfos := e];
      Repr := Repr + {e.aInfos};
    }

    /** dceWriteEntry on an entry of this cache */
    method WriteOwned(e: DirectoryCacheEntry, info: FileInfo, alloc: bool) returns (stored: bool)
      requires Owned() && e in own && owner.Keys <= Repr
      modifies `owner, `Repr, e`aInfos, e`cInfos, e`cInfosAllocated, e`fInvalid, e`contents, e`copied, e.aInfos
      ensures Owned() && owner.Keys <= Repr && old(Repr) <= Repr && fresh(Repr - old(Repr))
      ensures stored == (old(e.cInfos < e.cInfosAllocated) || alloc)
      ensures e.Record() == if stored then old(e.Record()).(infos := old(e.contents) + [info])
                            else old(e.Record()).(invalid := true)
      ensures e.Space() == Push(old(e.Space()), alloc)
    {
      stored := e.Write(info, alloc);
      TrackBuffer(e);
    }

    /** dceAdjust on an entry of this cache */
    method AdjustOwned(e: DirectoryCacheEntry, alloc: bool)
      requires Owned() && e in own && owner.Keys <= Repr
      modifies `owner, `Repr, e`aInfos, e`cInfosAllocated
      ensures Owned() && owner.Keys <= Repr && old(Repr) <= Repr && fresh(Repr - old(Repr))
      ensures e.Record() == old(e.Record())
      ensures e.cInfosAllocated == if alloc then Trimmed(e.cInfos, old(e.cInfosAllocated)) else old(e.cInfosAllocated)
    {
      e.Adjust(alloc);
      TrackBuffer(e);
    }

    // ----- the public operations, each one locked region

    /** dcRemoveEntry followed by dceDelete */
    method DeleteEntry(e: DirectoryCacheEntry, ghost i: nat)
      requires Valid() && i < |list| && list[i] == e
      modifies `pEntriesHead, `pEntriesTail, `cEntries, `list, `model
      modifies own`pNext, own`pPrev
      ensures Valid()
      ensures |list| == old(|list|) - 1
      ensures model == old(model).(linked := Without(old(model.linked), i))
    {
      RemoveEntry(e, i);
    }

    /** The tail goes when the depth is reached. */
    method MakeRoom()
      requires Valid() && (cMaxEntries >= 1 || model.linked != [])
      modifies `pEntriesHead, `pEntriesTail, `cEntries, `list, `model
      modifies own`pNext, own`pPrev
      ensures Valid()
      ensures model == old(model).(linked := Evict(Config(), old(model.linked)))
    {
      if cEntries >= cMaxEntries {
        DeleteEntry(pEntriesTail, |list| - 1);
      }
    }

    /** A listing that exists is discarded, unlinked and handed out. */
    method Reuse(e: DirectoryCacheEntry, ghost i: nat, now: ULONG)
      requires Valid() && i < |list| && list[i] == e
      modifies `pEntriesHead, `pEntriesTail, `cEntries, `list, `model
      modifies own`pNext, own`pPrev, own`cInfos, own`contents, own`copied, own`ulLastUpdateTime
      ensures Valid()
      ensures e !in old(model.open) && e in model.open
      ensures model == State(Without(old(model.linked), i),
                             old(model.open)[e := old(model.linked)[i].(infos := [], time := now)])
    {
      UnlinkDiscarded(e, i);
      hide Owned, Links, Abstracted;
      OpenFill(e, now);
    }

    method UnlinkDiscarded(e: DirectoryCacheEntry, ghost i: nat)
      requires Valid() && i < |list| && list[i] == e
      modifies `pEntriesHead, `pEntriesTail, `cEntries, `list, `model
      modifies own`pNext, own`pPrev, own`cInfos, own`contents, own`copied, own`ulLastUpdateTime
      ensures Valid() && e in own && e !in list && e !in old(model.open) && e !in model.open
      ensures e.pNext == null && e.pPrev == null
      ensures e.Record() == old(model.linked)[i].(infos := [])
      ensures model == old(model).(linked := Without(old(model.linked), i))
    {
      hide Owned, Links, Abstracted, Members;
      LinkedFacts(i);
      LinkedOnce(i);
      NeighboursOwned(i);
      Discard(e, i);
      Assemble();
      LinkedFacts(i);
      ghost var cleared := model.linked;
      RemoveEntry(e, i);
      assert Without(cleared, i) == Without(old(model.linked), i);
    }

    /** dcWriteBegin for a directory that is not in the list */
    method Create(path: CStr, cFiles: nat, now: ULONG) returns (e: DirectoryCacheEntry)
      requires Valid()
      modifies `model, `own, `owner, `Repr
      ensures Valid() && fresh(Repr - old(Repr)) && old(Repr) <= Repr
      ensures e !in old(model.open) && e in model.open
      ensures e.cInfosAllocated == cFiles
      ensures model == old(model).(open := old(model.open)[e := Listing(path, now, [], false)])
    {
      var hash := HashOf(path);
      e := new DirectoryCacheEntry(this, path, hash, cFiles);
      hide Owned, Links, Abstracted;
      Adopt(e);
      OpenFill(e, now);
    }

    /** dircache_write_begin on a directory key. Returns the handle, or NULL. With a depth of 0 and
        an empty list there is no tail to remove, and the source follows a NULL pointer. */
    method WriteBegin(path: CStr, cFiles: nat, now: ULONG, alloc: bool) returns (pdce: DirectoryCacheEntry?)
      requires Valid() && (cMaxEntries >= 1 || model.linked != [])
      modifies Repr
      ensures Valid() && fresh(Repr - old(Repr)) && Config() == old(Config())
      ensures pdce != null ==>
                && pdce !in old(model.open) && pdce in model.open
                && model == CacheModel.WriteBegin(Config(), old(model), path, now, pdce, alloc)
      ensures var l := Evict(Config(), old(model.linked));
              pdce != null && Find(keys, l, path) == |l| ==> pdce.cInfosAllocated == cFiles
      ensures pdce == null ==>
                && model == old(model).(linked := Evict(Config(), old(model.linked)))
                && (!fEnabled || (!alloc && Find(keys, model.linked, path) == |model.linked|))
    {
      hide Owned, Links, Abstracted, Members, Find, Evict, SameKey;
      MakeRoom();
      pdce := null;
      if fEnabled {
        pdce := BeginIn(path, cFiles, now, alloc);
      }
    }

    /** dcWriteBegin */
    method BeginIn(path: CStr, cFiles: nat, now: ULONG, alloc: bool) returns (pdce: DirectoryCacheEntry?)
      requires Valid()
      modifies Repr
      ensures Valid() && fresh(Repr - old(Repr)) && Config() == old(Config())
      ensures var i := Find(keys, old(model.linked), path);
              if i < |old(model.linked)| then
                && pdce != null && pdce !in old(model.open) && pdce in model.open
                && model == State(Without(old(model.linked), i),
                                  old(model.open)[pdce := old(model.linked)[i].(infos := [], time := now)])
              else if alloc then
                && pdce != null && pdce !in old(model.open) && pdce in model.open && pdce.cInfosAllocated == cFiles
                && model == old(model).(open := old(model.open)[pdce := Listing(path, now, [], false)])
              else pdce == null && model == old(model)
    {
      hide Owned, Links, Abstracted, Members, Find, SameKey;
      pdce := FindDirCache(path);
      if pdce == null {
        if alloc {
          pdce := Create(path, cFiles, now);
        }
      } else {
        Reuse(pdce, Find(keys, model.linked, path), now);
      }
    }

    /** dircache_write_entry; nothing happens on a NULL handle. */
    method WriteEntry(pdce: DirectoryCacheEntry?, info: FileInfo, alloc: bool) returns (stored: bool)
      requires Valid() && (pdce != null ==> pdce in model.open)
      modifies Repr
      ensures Valid() && fresh(Repr - old(Repr)) && Config() == old(Config())
      ensures pdce == null ==> model == old(model)
      ensures pdce != null ==> stored == (old(pdce.cInfos < pdce.cInfosAllocated) || alloc)
      ensures pdce != null ==> model == CacheModel.WriteEntry(old(model), pdce, info, stored)
    {
      hide Valid;
      if pdce == null {
        return false;
      }
      stored := WriteOpen(pdce, info, alloc);
    }

    lemma LinkedFacts(i: nat)
      requires Valid() && i < |list|
      ensures this in Repr && own <= Repr && owner.Keys <= Repr
      ensures |list| == |model.linked|
      ensures list[i] in own && list[i].Valid() && list[i].Record() == model.linked[i]
    {
    }

    lemma OpenFacts(e: DirectoryCacheEntry)
      requires Valid() && e in model.open
      ensures this in Repr && own <= Repr && owner.Keys <= Repr
      ensures Owned() && Members() && Links() && Abstracted()
      ensures e in own && e !in list && e.aInfos in owner && e.Valid() && e.Record() == model.open[e]
    {
    }

    lemma Assemble()
      requires this in Repr && own <= Repr && owner.Keys <= Repr
      requires Owned() && Members() && Links() && Abstracted()
      ensures Valid()
    {
    }

    method WriteOpen(e: DirectoryCacheEntry, info: FileInfo, alloc: bool) returns (stored: bool)
      requires Valid() && e in model.open
      modifies Repr
      ensures Valid() && fresh(Repr - old(Repr)) && Config() == old(Config())
      ensures stored == (old(e.cInfos < e.cInfosAllocated) || alloc)
      ensures model == CacheModel.WriteEntry(old(model), e, info, stored)
    {
      hide Valid, Owned, Links, Abstracted, AbstractedBut, Members;
      OpenFacts(e);
      stored := AppendOpen(e, info, alloc);
      Refresh(e);
      Assemble();
    }

    method AppendOpen(e: DirectoryCacheEntry, info: FileInfo, alloc: bool) returns (stored: bool)
      requires Valid() && e in model.open
      modifies `owner, `Repr, e.aInfos
      modifies own`aInfos, own`cInfos, own`cInfosAllocated, own`fInvalid, own`contents, own`copied
      ensures this in Repr && own <= Repr && owner.Keys <= Repr && old(Repr) <= Repr && fresh(Repr - old(Repr))
      ensures Owned() && Members() && Links() && AbstractedBut(e)
      ensures stored == (old(e.cInfos < e.cInfosAllocated) || alloc)
      ensures e.Record() == if stored then old(model).open[e].(infos := old(model).open[e].infos + [info])
                            else old(model).open[e].(invalid := true)
    {
      hide Owned, Links, Members;
      OpenFacts(e);
      stored := WriteOwned(e, info, alloc);
    }

    ghost predicate AbstractedBut(e: DirectoryCacheEntry)
      reads `list, `model
      reads list`ulLastUpdateTime, list`contents, list`fInvalid
      reads model.open.Keys`ulLastUpdateTime, model.open.Keys`contents, model.open.Keys`fInvalid
    {
      && |list| == |model.linked|
      && (forall i :: 0 <= i < |list| ==> list[i].Record() == model.linked[i])
      && (forall d :: d in model.open && d != e ==> d.Record() == model.open[d])
    }

    ghost method Refresh(e: DirectoryCacheEntry)
      requires Members() && Links() && AbstractedBut(e) && e in model.open
      modifies `model
      ensures Members() && Links() && Abstracted()
      ensures model == old(model).(open := old(model.open)[e := e.Record()])
    {
      model := model.(open := model.open[e := e.Record()]);
      assert model.open.Keys == old(model.open.Keys);
    }

    /** dircache_write_end; an entry that lost a record is deleted, any other is trimmed and linked. */
    method WriteEnd(pdce: DirectoryCacheEntry?, alloc: bool)
      requires Valid() && (pdce != null ==> pdce in model.open)
      modifies Repr
      ensures Valid() && fresh(Repr - old(Repr)) && Config() == old(Config())
      ensures model == if pdce == null then old(model) else CacheModel.WriteEnd(old(model), pdce)
    {
      hide Valid;
      if pdce == null {
        return;
      }
      EndOpen(pdce, alloc);
    }

    method EndOpen(e: DirectoryCacheEntry, alloc: bool)
      requires Valid() && e in model.open
      modifies Repr
      ensures Valid() && fresh(Repr - old(Repr)) && Config() == old(Config())
      ensures model == CacheModel.WriteEnd(old(model), e)
    {
      hide Valid, Owned, Links, Abstracted, Members;
      OpenFacts(e);
      if e.fInvalid {
        Release(e);
      } else {
        AdjustOpen(e, alloc);
        LinkOpen(e);
      }
    }

    method AdjustOpen(e: DirectoryCacheEntry, alloc: bool)
      requires Valid() && e in model.open
      modifies `owner, `Repr, own`aInfos, own`cInfosAllocated
      ensures Valid() && old(Repr) <= Repr && fresh(Repr - old(Repr))
      ensures e.cInfosAllocated == if alloc then Trimmed(old(|model.open[e].infos|), old(e.cInfosAllocated))
                                   else old(e.cInfosAllocated)
    {
      hide Valid, Owned, Links, Abstracted, Members;
      OpenFacts(e);
      AdjustOwned(e, alloc);
      Assemble();
    }

    method LinkOpen(e: DirectoryCacheEntry)
      requires Valid() && e in model.open
      modifies `pEntriesHead, `pEntriesTail, `cEntries, `list, `model
      modifies own`pNext, own`pPrev
      ensures Valid()
      ensures model == State([old(model.open[e])] + old(model.linked), old(model.open) - {e})
    {
      InsertEntry(e);
    }

    /** A handle is given up: its entry is not reachable from the cache any more. */
    ghost method Release(pdce: DirectoryCacheEntry)
      requires Valid() && pdce in model.open
      modifies `model
      ensures Valid() && model == Abandon(old(model), pdce)
    {
      hide Owned, Chain;
      model := Abandon(model, pdce);
    }

    /** dircache_list_files with dcRead: the records go to the callback one by one, in order. */
    method ListFiles(path: CStr, now: ULONG) returns (served: Option<seq<FileInfo>>)
      requires Valid()
      modifies Repr
      ensures Valid() && Repr == old(Repr) && Config() == old(Config())
      ensures served == ListResult(Config(), old(model), path, now)
      ensures model == CacheModel.ListFiles(Config(), old(model), path, now)
    {
      hide Valid, Owned, Links, Abstracted, Members;
      served := None;
      if fEnabled {
        var pdce := FindDirCache(path);
        if pdce != null {
          ghost var i := Find(keys, model.linked, path);
          LinkedFacts(i);
          if Elapsed(now, pdce.ulLastUpdateTime) >= ulExpirationTime {
            DeleteEntry(pdce, i);
          } else {
            var emitted := pdce.Emit();
            served := Some(emitted);
          }
        }
      }
    }

    /** dcInvalidate: entries are removed until the search finds none. */
    method Invalidate(path: CStr)
      requires Valid()
      modifies Repr
      ensures Valid() && Repr == old(Repr) && Config() == old(Config())
      ensures model == CacheModel.Invalidate(Config(), old(model), path)
    {
      hide Owned, Links, Abstracted, Members;
      var pdce := FindDirCache(path);
      while pdce != null
        invariant Valid() && Repr == old(Repr) && Config() == old(Config()) && own == old(own)
        invariant |list| == |model.linked| && pdce == At(list, Find(keys, model.linked, path))
        invariant Drop(keys, model.linked, path) == Drop(keys, old(model.linked), path)
        invariant model.open == old(model.open)
        decreases |list|
      {
        DropStep(keys, model.linked, path);
        DeleteEntry(pdce, Find(keys, model.linked, path));
        pdce := FindDirCache(path);
      }
      DropStep(keys, model.linked, path);
    }

    /** dircache_invalidate */
    method DirCacheInvalidate(path: CStr, fParent: bool)
      requires Valid()
      modifies Repr
      ensures Valid() && Repr == old(Repr) && Config() == old(Config())
      ensures model == CacheModel.Invalidate(Config(), old(model), if fParent then ParentKey(path) else path)
    {
      if fParent {
        var lastSlash := LastSlash(path);
        if lastSlash >= 0 {
          Invalidate(path[..lastSlash]);
        } else {
          Invalidate([]);
        }
      } else {
        Invalidate(path);
      }
    }

    /** dcFindPath: all entries of the parent are searched until one has the name. */
    method FindInDirectory(parent: CStr, name: CStr, now: ULONG) returns (hit: Option<Hit>)
      requires Valid()
      ensures hit == Lookup(keys, model.linked, parent, name, now)
    {
      var hash := HashOf(parent);
      var pdce := pEntriesHead;
      ghost var i := 0;
      while pdce != null
        invariant 0 <= i <= |list| && pdce == At(list, i)
        invariant Lookup(keys, model.linked, parent, name, now) == Lookup(keys, model.linked[i..], parent, name, now)
        decreases |list| - i
      {
        assert model.linked[i..][0] == model.linked[i] && model.linked[i..][1..] == model.linked[i + 1..];
        if pdce.ulHash == hash && SameText(keys.fold, pdce.pszPath, parent) {
          var k := pdce.IndexOf(keys.fold, name);
          if k < pdce.cInfos {
            return Some(Hit(pdce.aInfos[k], Elapsed(now, pdce.ulLastUpdateTime)));
          }
        }
        pdce := pdce.pNext;
        i := i + 1;
      }
      return None;
    }

    /** dircache_find_path */
    method DirCacheFindPath(path: CStr, now: ULONG) returns (hit: Option<Hit>)
      requires Valid()
      ensures hit == FindPath(keys, model.linked, path, now)
    {
      if HasWildcard(path) {
        return None;
      }
      var lastSlash := LastSlash(path);
      if lastSlash >= 0 {
        hit := FindInDirectory(path[..lastSlash], path[lastSlash + 1..], now);
      } else {
        hit := FindInDirectory([], path, now);
      }
    }
  }

  lemma FindIsFirst(keys: Keying, l: seq<Listing>, path: CStr, i: nat)
    requires i <= |l| && forall j :: 0 <= j < i ==> !SameKey(keys, l[j].path, path)
    requires i < |l| ==> SameKey(keys, l[i].path, path)
    ensures Find(keys, l, path) == i
  {
  }

  lemma FindInfoIsFirst(fold: Fold, infos: seq<FileInfo>, name: CStr, i: nat)
    requires i <= |infos| && forall j :: 0 <= j < i ==> !SameText(fold, infos[j].fname, name)
    requires i < |infos| ==> SameText(fold, infos[i].fname, name)
    ensures FindInfo(fold, infos, name) == i
  {
  }
}
