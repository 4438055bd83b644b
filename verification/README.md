# Verified model of the Samba NetDrive plugin

The plugin (ndpsmb) lets OS/2's NetDrive mount SMB shares. This project models four of its parts in Dafny
and proves what they promise:

* the **directory cache** (`src/dircache.c`): a doubly linked list of directory listings, each with a growable
  record array, filled in begin / append / end sessions while other threads list, look up and invalidate;
* the **entry points around the cache** (`src/ndpsmb.c`, `src/smbwrp.c`), with the server they speed up;
* the **extended-attribute codec**: the packed FEALIST that `unilistea` writes and `buildFEALIST` filters, laid
  out as in sections 2.2.1.2.1 and 2.2.1.2.2 of [MS-CIFS];
* **`pathparser`**, which splits a path and switches the connection, and the password coding.

## Reading order

| file | contents |
|---|---|
| `Bytes`, `CString`, `Wrappers`, `Selections`, `ErrorCodes` | bytes and words, C strings, optional values, increasing positions, error codes |
| `PathHash`, `PathKeys` | the 32-bit hash; the two ways in which a directory's cache key is computed |
| `CacheModel` | the cache on values: what each locked region does |
| `CacheRuns`, `CacheBounds` | whole runs: session atomicity; capacity, eviction order, key uniqueness |
| `Growth`, `DirCache` | the growth policy; the cache in memory, refining `CacheModel` |
| `HeapRuns` | any sequence of calls on the memory is a run of the model |
| `Coherence`, `MovePath`, `MoveExamples`, `Plugin` | cache and server together, on values; where a moved file goes; two concrete moves; the entry points as methods over the cache in memory |
| `PathSplit`, `PathParser`, `ConnectionRuns` | splitting, switching, whole runs of a connection |
| `QueryPath`, `QueryContract` | `NdpQueryPathInfo` and its documented error codes |
| `EaFormat`, `EaCodec`, `EaLaws`, `EaSetWalk` | packed lists, the two buffer routines, their laws, the setting loop |
| `Password` | the stored form of the password |

## How things are modelled

* Each region under the cache mutex is one step. A run is a sequence of steps with the states between them; the
  theorems about runs speak of the steps alone (which records were appended between which begin and which end).
* The heap classes carry a ghost value (`model`); `Valid()` ties it to the pointers and arrays, and every method
  says how it moves. `hide` statements keep definitions out of proofs that do not need them.
* What the plugin cannot know is a parameter: the case mapping of the code page (`fold`, any function), the clock,
  the outcome of every allocation, of every connection attempt and of every server request. Only the exact condition in
  `MovePath` asks that the mapping leaves backslashes alone. Theorems about keys hold for every hash
  function; the cache in memory is built with `PathHash.Hash` and calls its loop.
* The server ignores case and a leading backslash: its directories are identified by `Place`, its names compared up to
  case. Only the client's spellings of directories must be one per directory (`OneSpelling`), because of the hash.
* The filter by mask and attributes inside the listing callback is a parameter (`wanted`).
* Functions that specify a method have their meaning stated beside them, in terms of their arguments alone (names ending
  in `Means`, `Iff`, `Selects` or `Layout`), with the constants of the source as numbers.
* A fill that the source leaves through `goto fail` is an explicit step (`Abandon`, `GiveUp`). Its entry is never freed
  by the source and never linked.
* Numbers are unbounded except where the width matters: the hash, elapsed time, the size fields of packed lists.

## Where the code falls short of a promise

Each of these is a lemma with the exact condition, unless it is called an example.

* Different spellings of one directory can have different keys, since the hash is taken of the raw bytes:
  `OtherSpellingSurvives`; `OtherSpellingWitness` is an example.
* Without the plugin lock around a fill an invalidation is lost exactly when a fill of the directory is open:
  `InvalidationReachesIff`, with the example `InvalidationMissesOpenFill`.
* Overlapping fills can exceed the depth (`DepthKeptIff`), unsort the list (`NewestFirstIff`) and duplicate a key
  (`UniqueIff`); `OverlappingFills` is an example of all three.
* Moving a directory invalidates neither its own listing nor those of the directories in it, nor what is still linked for
  the new place: `MoveDirCoherentIff`, `MovedDirectoryLeavesListing`, with the example `MovedWithItsFile`.
* `NdpMove` finds the destination by counting characters and does not check that the share's name ends there
  (`TargetRightIff`), so that a file can get into a directory other than the one asked for. The cache is then wrong exactly
  if that is not the source's own directory either, is listed in the cache and did not have the name before:
  `MoveFileCoherentIff`, with the example `MovedIntoWrongShare`.
* A removed directory's own listing stays linked, so that "." and ".." in it are still answered with success, although the
  path is gone: `HitWrongIff`, `RemovedDirectoryAnswers`.
* The comment above `NdpQueryPathInfo` promises PATH_NOT_FOUND for a path whose parent is missing, wildcards included;
  the code answers FILE_NOT_FOUND to every wildcard: `WildcardIsDocumentedIff`. For paths it asks the server about the
  status depends on the code the server picks: `AskedIsDocumentedIff`. `QueryMeetsContractIff` puts all cases together.
  The model follows the code.
* `unilistea` reports success for a list that did not fit; the buffer is then no packed list: `PackedDecodesIffItFits`.
* `helperEASet` and `NdpFileEASet` advance the record before counting it: `SetsExactlyTheList`.
* A resource shared by two connections leaves one of them with a handle for the old names exactly when a path with
  another name is switched to: `OtherConnectionIff`; `OtherConnectionStaysWrong` says that this is not repaired. Reconnecting after a failed echo leaks a handle (`EchoFailedLeaks`); after a lost server
  and a refused reconnection the dead handle is disconnected twice (`RefusedReconnectClosesTwice`).
* A stored password text of odd length is read past its end (`EndsWithTextIff`); one with a `00` digit pair does not
  survive (`ReencodedIffNoNulPair`).

## Model

| member | source | states |
|---|---|---|
| PathHash.ComputeHash | src/dircache.c:38-56 | the accumulator loop with 32-bit wrap-around and sign-extended characters computes the hash of the path |
| PathHash.AccumulatorBound | src/dircache.c:45-54 | the accumulator is below 2^28 after every step, so clearing the top nibble after mixing it in works |
| PathHash.StepMeans | src/dircache.c:43-55 | one step on the wrapped sum, with signed characters as 32-bit words, and the final remainder by 30031 |
| PathHash.PlainStep | src/dircache.c:45-47 | without overflow the accumulator is the characters as digits to base 16 |
| PathHash.XorBits | src/dircache.c:50-51 | exclusive-or bit by bit |
| PathKeys.KeyAgreement | src/dircache.c:532-556 | the key a listing is stored under and the key and name its children are looked up and invalidated under agree exactly when the part before the mask is empty or ends in a backslash |
| PathKeys.NoKeyIff | src/dircache.c:532-556 | there is no key exactly when the mask is longer than the path |
| PathKeys.ParentAndLeafRebuild | src/dircache.c:773-787 | cutting at the last backslash loses nothing |
| CacheModel.Find | src/dircache.c:227-260 | the search returns the first entry with the same hash and the same text up to case |
| CacheModel.SameKeyMeans | src/dircache.c:245-251 | same hash, same length, same characters up to case |
| CacheModel.ElapsedMeans | src/dircache.c:222-225 | the difference of the two clock readings, and across one wrap of the 32-bit clock that difference plus 2^32 |
| CacheModel.FindPathMeans | src/dircache.c:748-792 | paths with * or ? are not looked up, others under their parent's key |
| CacheModel.SameKeyEquivalence | src/dircache.c:245-251 | key equality is an equivalence; the hash prefilter hides no byte-identical path |
| CacheModel.DropSelects | src/dircache.c:474-489 | invalidation removes all entries of the key and only those, and keeps the others in order |
| CacheModel.DropStep | src/dircache.c:480-488 | one round of find-and-remove leads to the same final list; none is left when the search finds nothing |
| CacheModel.LookupMiss | src/dircache.c:491-530 | a single-file lookup fails exactly when no entry of the parent has the name |
| CacheModel.LookupHit | src/dircache.c:508-523 | otherwise it returns the first matching record of the first entry that has one, with its age |
| CacheModel.OtherSpellingSurvives | src/dircache.c:247-248 | in any list an entry under another spelling survives invalidation exactly when the hashes differ |
| CacheModel.OtherSpellingWitness | src/dircache.c:229-248 | there are such spellings |
| CacheRuns.WrittenSelects | src/dircache.c:660-676 | the records of a session are those of its appends, one each, in order |
| CacheRuns.OpenOrigin | src/dircache.c:621-676 | in every run an entry being filled holds exactly the records of its session so far, and is marked invalid exactly when one was lost |
| CacheRuns.LinkedOrigin | src/dircache.c:621-707 | every linked entry is the complete output of one session that lost nothing and was not invalidated since |
| CacheRuns.ServedIsOneSession | src/dircache.c:591-619 | session atomicity: a listing served from the cache is the complete ordered output of one session of that directory, not invalidated since; now minus its begin (plus 2^32 across a wrap of the clock) is below the expiration time |
| CacheRuns.FoundIsFromOneSession | src/dircache.c:748-792 | the record a lookup returns belongs to one such session and its age is now minus the begin of that session, plus 2^32 across a wrap of the clock |
| CacheRuns.FilledIsServed | src/dircache.c:678-707 | a session that lost nothing is what the next request for its directory gets, if and only if its age is below the expiration time |
| CacheRuns.ExpiredGoes | src/dircache.c:382-439 | the first listing of the directory asked for is served if its age is below the expiration time, and removed otherwise |
| CacheRuns.NothingToServe | src/dircache.c:391-396 | without such a listing, or disabled, there is no answer and nothing changes |
| CacheRuns.LinkedStays | src/dircache.c:621-707 | a listing leaves the list only as the tail of a full one, when filled anew, when asked for and expired, or when invalidated |
| CacheRuns.HandleIff | src/dircache.c:441-471 | a fill gets a handle exactly when the cache is enabled and the directory is in the list, not counting an evicted tail, or memory can be had |
| CacheRuns.InvalidationReachesIff | src/dircache.c:474-489 | whatever follows, nothing read before an invalidation is linked again, if and only if no valid fill of the directory was open |
| CacheRuns.InvalidationMissesOpenFill | src/dircache.c:474-489 | an example: a listing that was being filled is served after the invalidation |
| CacheBounds.Capacity | src/dircache.c:643-652 | with at most k fills open, linked and open entries never exceed depth + k - 1 |
| CacheBounds.SerialisedDepth | src/dircache.c:643-652 | serialised fills never exceed the configured depth |
| CacheBounds.DepthKeptIff | src/dircache.c:643-652 | a run stays within the depth if and only if no fill begins with a new entry while others are open and the cache is full |
| CacheBounds.NewestFirstIff | src/dircache.c:338-355 | the list stays sorted if and only if no fill ends behind one that began later, whatever overlaps |
| CacheBounds.StaysOrdered | src/dircache.c:338-355 | serialised fills under a monotone clock keep the list sorted from newest to oldest |
| CacheBounds.EvictsTheOldest | src/dircache.c:643-650 | the evicted tail exists and is the oldest entry |
| CacheBounds.StaysUnique | src/dircache.c:441-471 | with one fill per directory at a time no key occurs twice among linked and open entries |
| CacheBounds.UniqueIff | src/dircache.c:441-471 | keys stay unique in a run if and only if no fill begins, with a handle, for a directory being filled |
| CacheBounds.FirstMatchIsTheOnly | src/dircache.c:227-260 | the first match is then the only match |
| CacheBounds.OverlappingFills | src/dircache.c:621-707 | an example of all three: two overlapping fills exceed a depth of one, duplicate a key and put the newer entry at the tail |
| Growth.AmortisedCost | src/dircache.c:157-183 | n appends after a clear leave n records and move at most 3n records in all |
| Growth.TrimmedBounds | src/dircache.c:185-209 | trimming drops no record and never enlarges the buffer |
| Growth.TrimmedToNothing | src/dircache.c:188-196 | a buffer of zero bytes is asked for exactly when one slot is allocated and unused |
| DirCache.DirectoryCacheEntry.constructor | src/dircache.c:111-143 | a new entry is empty, unlinked, of the given capacity |
| DirCache.DirectoryCacheEntry.Clear | src/dircache.c:152-155 | the records go, the buffer stays |
| DirCache.DirectoryCacheEntry.Write | src/dircache.c:157-183 | the record is appended, or the entry marked invalid exactly when no room could be had; a full buffer grows by half and one |
| DirCache.DirectoryCacheEntry.Adjust | src/dircache.c:185-209 | the records stay, a free part of more than half the records is halved unless realloc fails |
| DirCache.DirectoryCacheEntry.Emit | src/dircache.c:420-423 | the callback gets every record once, in order |
| DirCache.DirectoryCacheEntry.IndexOf | src/dircache.c:512-522 | the first record with the name |
| DirCache.DirectoryCache.constructor | src/dircache.c:262-291 | an empty, enabled cache |
| DirCache.DirectoryCache.FindDirCache | src/dircache.c:227-260 | the walk along pNext finds the first entry of the key |
| DirCache.DirectoryCache.Unlink | src/dircache.c:310-336 | taking out an entry leaves both walks of the remaining chain right, its own pointers NULL |
| DirCache.DirectoryCache.RemoveEntry | src/dircache.c:310-336 | the list without that entry; everything else as before |
| DirCache.DirectoryCache.LinkAtHead | src/dircache.c:338-355 | the chain with the entry in front |
| DirCache.DirectoryCache.InsertEntry | src/dircache.c:338-355 | the filled entry becomes the head |
| DirCache.DirectoryCache.WriteBegin | src/dircache.c:621-658 | eviction, then reuse or creation of an entry with the begin time; NULL exactly when disabled or out of memory; demanded is only that there is a tail to evict if the depth is reached |
| DirCache.DirectoryCache.WriteEntry | src/dircache.c:660-676 | the record is appended to the open entry or the entry is marked invalid; a NULL handle is ignored |
| DirCache.DirectoryCache.WriteEnd | src/dircache.c:678-707 | the entry becomes the head, or is deleted if it lost a record |
| DirCache.DirectoryCache.Release | src/smbwrp.c:998-1045 | a fill left through an error never reaches the list |
| DirCache.DirectoryCache.ListFiles | src/dircache.c:382-439 | an unexpired entry is served whole; an expired one is removed |
| DirCache.DirectoryCache.Invalidate | src/dircache.c:474-489 | the loop ends and leaves the list without the key |
| DirCache.DirectoryCache.DirCacheInvalidate | src/dircache.c:709-746 | the parent's key or the path itself is invalidated |
| DirCache.DirectoryCache.FindInDirectory | src/dircache.c:491-530 | the walk over all entries computes the lookup |
| DirCache.DirectoryCache.DirCacheFindPath | src/dircache.c:748-792 | wildcards never hit; otherwise the parent's entries are searched |
| HeapRuns.Client.Begin | src/dircache.c:621-658 | a call on the memory extends the run of the model by that step |
| HeapRuns.Client.Append | src/dircache.c:660-676 | likewise |
| HeapRuns.Client.End | src/dircache.c:678-707 | likewise |
| HeapRuns.Client.GiveUp | src/smbwrp.c:1177-1178 | likewise |
| HeapRuns.Client.Invalidate | src/dircache.c:709-746 | likewise, by a step on the parent's key or on the path's own |
| HeapRuns.Client.ListFiles | src/dircache.c:591-619 | after any calls on the memory, the answer is the one of the run's state, and what is served is the complete output of one logged session, not invalidated since, not expired |
| HeapRuns.Client.FindPath | src/dircache.c:748-792 | likewise for a single file: what is found is a record of such a session, with its age |
| HeapRuns.Client.Bounded | src/dircache.c:643-652 | cEntries and the open fills never exceed depth + k - 1 in memory |
| Coherence.PlaceMeans | src/dircache.c:245-251 | the server's directories: paths that agree up to case and a leading backslash |
| Coherence.NameAdded | src/ndpsmb.c:1818 | what a created name does to the server's names |
| Coherence.NameDropped | src/ndpsmb.c:1629 | what a deleted name does to them |
| Coherence.ServeMeans | src/ndpsmb.c:1658-1695 | what the operations do to the server's directories |
| Coherence.ListedIsServed | src/smbwrp.c:1207-1265 | a complete listing is what the cache answers from then on until it expires; one that lost a record adds nothing |
| Coherence.ListedIsRun | src/smbwrp.c:1193-1271 | a listing request is a request to the cache, and if it is not answered a fill that ends or is given up |
| Coherence.StepCoherent | src/ndpsmb.c:1620-1629 | every entry point keeps the cached names of each directory equal to the server's |
| Coherence.RunCoherent | src/ndpsmb.c:154-164 | so does every run under the plugin lock, from an empty cache |
| Coherence.CachedNamesAreCurrent | src/ndpsmb.c:1195-1205 | every listing cached for an existing directory has exactly the server's names |
| Coherence.ServedNamesAreCurrent | src/smbwrp.c:1207-1212 | a listing request answered from the cache gets the names a fresh listing would have |
| Coherence.MoveFileCoherentIff | src/ndpsmb.c:1716-1738 | after a file was moved, wherever it got, the cache is right if and only if that is one of the two directories invalidated, or had the name already, or has no listing linked |
| Coherence.MovedMeans | src/ndpsmb.c:1738 | a moved directory and all inside it is in the new place, and nothing is left |
| Coherence.TreeMovedNames | src/ndpsmb.c:1738 | the other directories keep their names, but for the one dropped and the one added |
| Coherence.AtOrBelowIff | src/ndpsmb.c:1738 | inside a directory is what continues its path behind a backslash |
| Coherence.MoveDirCoherentIff | src/ndpsmb.c:1716-1739 | after a directory tree was moved, wherever it got, the cache is right if and only if no listing stays linked for an old or a new place of a directory in it that is not empty, nor for the directory it got into |
| Coherence.MovedDirectoryLeavesListing | src/ndpsmb.c:1716-1739 | the moved directory's own listing stays, and is right exactly when the directory is empty |
| MoveExamples.MovedIntoWrongShare | src/ndpsmb.c:1726-1738 | the failing input: a file for the share data2 gets into data, whose linked listing is then wrong |
| MoveExamples.MovedWithItsFile | src/ndpsmb.c:1716-1739 | the failing input: a directory with one file and a linked listing is moved |
| MovePath.TargetMeans | src/ndpsmb.c:1722-1736 | when a move is refused, when the source reads behind the destination, and the target otherwise |
| MovePath.TargetInShare | src/ndpsmb.c:1726-1738 | the name sent to the server, but for a backslash in front, is the remainder of the target path below the share of the source |
| MovePath.TargetRightIff | src/ndpsmb.c:1726-1736 | the target is the place asked for if and only if nothing is counted off or one backslash, and no second one, follows what is |
| MovePath.RightTargetRightParent | src/ndpsmb.c:1717 | the right target is in the directory whose listing was invalidated |
| Plugin.Session.NdpForceDelete | src/ndpsmb.c:1608-1634 | when the server is asked to delete, the parent's listings are gone; cache, server and log end as the operation says |
| Plugin.Session.NdpCreateDir | src/ndpsmb.c:1636-1672 | likewise for a new directory |
| Plugin.Session.NdpDeleteDir | src/ndpsmb.c:1674-1700 | likewise for a removed directory |
| Plugin.Session.NdpMove | src/ndpsmb.c:1702-1744 | both parents' listings are gone when the server is asked, and it is asked for the target that counting characters gives, or not at all when the comparison fails |
| Plugin.Session.SmbOpen | src/ndpsmb.c:1763-1824 | with O_CREAT the parent's listings are gone when the server is asked, whether or not the open succeeds |
| Plugin.Session.NdpTouch | src/ndpsmb.c:2288-2319 | writing invalidates the parent and changes no names |
| Plugin.Session.FillLoop | src/smbwrp.c:1250-1265 | every record that matches goes to the caller and every record to the open entry, in order; records are lost only where an allocation failed |
| Plugin.Session.ListFiles | src/smbwrp.c:1193-1271 | with a mask longer than the path the cache is bypassed; else the caller gets the matching records, from the cache if it can answer, and then the names in it are the server's; otherwise all the server's records, unfiltered, are cached if complete |
| Plugin.MatchingSelects | src/ndpsmb.c:277-297 | a caller gets exactly the records that match, in order |
| Plugin.Session.CacheIsCurrent | src/ndpsmb.c:154-164 | after any calls on the memory, what the cache answers for an existing directory are the server's names |
| PathSplit.SplitLosesNothing | src/ndpsmb.c:591-653 | joining the components and the remainder rebuilds the path up to the separators that were missing |
| PathSplit.SplitOfJoin | src/ndpsmb.c:604-652 | any components without backslashes and any remainder are recovered by the split |
| PathParser.Resource.Select | src/ndpsmb.c:593-653 | every name selected agrees up to case with its component, and a change is needed exactly when a component is empty or does not agree with the stored name |
| PathParser.Connection.PathParser | src/ndpsmb.c:575-676 | a connection is attempted exactly when a consumed component is empty or does not agree up to case with the stored name; after a success all consumed names agree, the handle is the new one and the old one disconnected; otherwise nothing changes; the remainder is returned |
| PathParser.ParseMeans | src/ndpsmb.c:590-671 | the same of the function on values that the whole-run results speak of |
| PathParser.AttemptsIff | src/ndpsmb.c:611-651 | a difference is an empty component or one that does not agree up to case |
| PathParser.SelectedNames | src/ndpsmb.c:611-651 | names above the level stay, the others are those of the path, in the stored spelling where they agree |
| PathParser.IfTestPath | src/ndpsmb.c:557-573 | the test pattern is found exactly when it occurs |
| ConnectionRuns.CallsKeepTheConnection | src/ndpsmb.c:654-669 | over any run of calls with any outcomes the live handle is the one opened for the stored names, and every other handle was disconnected exactly once |
| ConnectionRuns.StaysMatched | src/ndpsmb.c:1067-1090 | the stored handle is one opened for the stored names through reconnections as well |
| ConnectionRuns.EchoFailedLeaks | src/ndpsmb.c:1067-1073 | after a failed echo all handles stay accounted for exactly when the reconnection is refused |
| ConnectionRuns.RemoteLostRecovers | src/ndpsmb.c:1078-1090 | after a lost server the connection is sound again exactly when the reconnection succeeds |
| ConnectionRuns.RefusedReconnectClosesTwice | src/ndpsmb.c:661-667 | otherwise the next switch disconnects the dead handle again |
| ConnectionRuns.SwitchedOnce | src/ndpsmb.c:611-651 | a path switched to needs no second switch, unless a component is empty |
| ConnectionRuns.OtherConnectionIff | src/ndpsmb.c:590-669 | a second connection on the resource stays matched exactly when the attempt is refused, or the path is the test path or not looked at, or every component in it agrees with the stored name or is empty like it |
| ConnectionRuns.OtherConnectionStaysWrong | src/ndpsmb.c:654-669 | a second connection on the resource keeps a handle for the old names and attempts nothing |
| QueryPath.QueryServer | src/ndpsmb.c:1074-1131 | status, reported name and connection as the server's answers determine them |
| QueryPath.NdpQueryPathInfo | src/ndpsmb.c:1008-1137 | wildcards, fresh cache hits and server answers in that order |
| QueryContract.StatusIsDocumentedIff | src/ndpsmb.c:991-1007 | the status is the documented one exactly when the path exists, or the server says FILE_NOT_FOUND, or the parent is no directory and the code is not one that is passed on |
| QueryContract.StatusTable | src/ndpsmb.c:1074-1131 | the status for every answer of the server, in numbers |
| QueryContract.AnswerIsReported | src/ndpsmb.c:1078-1091 | after a lost server was connected again the second answer is reported and the dead handle disconnected; otherwise the first |
| QueryContract.ReportedNameMeans | src/ndpsmb.c:262-276 | the last component, or the share's name |
| QueryContract.FreshHitIff | src/ndpsmb.c:1033-1044 | the cache answers exactly for hits at most 15 seconds old |
| QueryContract.CannotAsk | src/ndpsmb.c:1045-1073 | the status when no connection can be made |
| QueryContract.AskIsRun | src/ndpsmb.c:1044-1090 | the connection afterwards is that of a run of the connection |
| QueryContract.SoundServerMeetsContract | src/ndpsmb.c:1108-1131 | every server that says PATH_NOT_FOUND only for a missing parent gets the documented codes |
| QueryContract.AskedIsDocumentedIff | src/ndpsmb.c:1044-1131 | the same exact condition for what NdpQueryPathInfo answers about a mounted path that the cache does not answer |
| QueryContract.QueryMeetsContractIff | src/ndpsmb.c:991-1137 | over a coherent cache and a sound server the status is the documented one if and only if the server was asked or the parent is a directory |
| QueryContract.WildcardIsDocumentedIff | src/ndpsmb.c:1022-1027 | what NdpQueryPathInfo answers to a wildcard is the documented code exactly when the parent is a directory |
| QueryContract.HitWrongIff | src/dircache.c:491-530 | a hit in a coherent cache is about something that does not exist if and only if the parent is no directory, and then the name is "." or ".." |
| QueryContract.HitExists | src/ndpsmb.c:1030-1042 | a hit for any other name is about something that exists, under the name asked for up to case |
| QueryContract.HitAgreesWithServer | src/ndpsmb.c:1030-1042 | a fresh hit returns the status that asking the server would return, which is the documented one, if and only if the parent is a directory, and then the same name up to case |
| QueryContract.RemovedDirectoryAnswers | src/ndpsmb.c:1686-1695 | the failing input: a directory listed and then removed still answers for "." in a coherent cache |
| QueryPath.ServerLeaf | src/ndpsmb.c:672-673 | what the server is asked about has the last component of the mounted path |
| EaFormat.RecordLayout | src/smbwrp.c:1436-1446 | flags, lengths with the low byte first, name, NUL, value |
| EaFormat.ListLayout | src/smbwrp.c:1436-1446 | the whole size with the low byte first, then the records one after the other |
| EaFormat.NameLayout | src/ndpsmb.c:1322-1338 | a wanted name is its length, its characters, NUL |
| EaFormat.DecodeOfFeaList | src/ndpsmb.c:1313-1355 | the walk of buildFEALIST over a packed list gives the attributes back, whatever follows the list |
| EaFormat.FittingIsLongest | src/ndpsmb.c:1341-1350 | what is written is the longest prefix of the selected records that fits |
| EaCodec.Unilistea | src/smbwrp.c:1449-1501 | the longest fitting prefix of the eligible attributes is packed, the size of all of them stored, the rest of the buffer untouched |
| EaCodec.SameFirst | src/ndpsmb.c:1330-1334 | the bounded comparison of terminated names is the prefix test |
| EaCodec.MatchesSome | src/ndpsmb.c:1322-1338 | the walk over the GEA list finds a name that is a prefix, if there is one |
| EaCodec.BuildFEALIST | src/ndpsmb.c:1306-1363 | the longest fitting prefix of the selected records with flags cleared, the size of all selected ones, overflow exactly when that exceeds a buffer of more than four bytes, the rest of the buffer untouched |
| EaLaws.PackedDecodesIffItFits | src/smbwrp.c:1473-1500 | the packed buffer decodes to exactly the eligible attributes if and only if they fit |
| EaLaws.FilterReproduces | src/ndpsmb.c:1318-1356 | without names and with room the filter reproduces the packed bytes |
| EaLaws.ImageMeans | src/smbwrp.c:1482-1497 | a written buffer: the size field with the low byte first, the packed records, the rest as it was |
| EaLaws.SizeQueryThenFill | src/ndpsmb.c:1356-1360 | with size four nothing but the needed size is delivered, without an error; a second call with that size delivers everything |
| EaLaws.SelectedMeans | src/ndpsmb.c:1320-1340 | exactly the attributes of whose name a given name is a prefix are selected, or all if none is given, in order |
| EaLaws.WrittenMeans | src/ndpsmb.c:1318-1361 | what is written are the first of these, as many as fit, flags cleared; the overflow status comes exactly when some do not fit and the buffer has more than four bytes |
| EaLaws.EligibleMeans | src/smbwrp.c:1477-1481 | what is packed are exactly the attributes with names up to 255 and values up to 65535 bytes, in order |
| EaLaws.NdpFileEAQuery | src/ndpsmb.c:1969-2008 | packing and filtering composed, and the mapping of the server's errors |
| EaLaws.NdpEAQuery | src/ndpsmb.c:1404-1442 | the same buffer, but every error, an overflow too, becomes ERROR_EAS_NOT_SUPPORTED |
| EaSetWalk.SetAll | src/ndpsmb.c:182-197 | the setting loop, with its count one record ahead of its pointer and its stop at the first error |
| EaSetWalk.SetsExactlyTheList | src/ndpsmb.c:2041-2051 | exactly the attributes of the list are set, up to the first error, if and only if there is an error or the bytes after the list look like a record at least as long as the first one |
| EaSetWalk.IntendedMeans | src/ndpsmb.c:187-193 | what should be set: all of the list, or its first attributes up to the first error |
| EaSetWalk.OverrunAtTheEnd | src/ndpsmb.c:187-196 | a list at the end of its buffer is overrun, unless setting an attribute fails |
| Password.EncryptPassword | src/ndpsmb.c:346-360 | the text written is the hexadecimal form, nothing behind it changes |
| Password.DecryptPassword | src/ndpsmb.c:332-344 | the bytes up to the first NUL at an even position are decoded and terminated, for texts of any length; nothing behind them changes |
| Password.EndsWithTextIff | src/ndpsmb.c:338-341 | the loop ends with the text exactly when the text's length is even |
| Password.Digits | src/ndpsmb.c:300-330 | which characters stand for which digits |
| Password.HexLayout | src/ndpsmb.c:352-357 | the digit of the high half of each byte comes first |
| Password.PasswordRoundTrip | src/ndpsmb.c:332-360 | decrypting what was encrypted gives every password back, and the stored form has twice its length |
| Password.ReencodedIffNoNulPair | src/ndpsmb.c:300-360 | re-encoding a decoded text gives its upper-case form exactly when it has no 00 pair |

## Left out

- NetDrive's and Samba's own code (libsmb, connection negotiation, the SMB2 record parser, `net_share_enum_rpc`): their outcomes are parameters.
- DirCache.DirectoryCache.WriteBegin: a depth of 0 with an empty list, for which the source follows a NULL tail (`src/dircache.c:643-648`); exactly this is excluded. The whole-run results and `Client` and `Session` take a depth of at least 1.
- A cache that could not be created (`pdc` NULL): every public function then does nothing.
- `dircache_write_end` reads its argument in a debug message before testing it for NULL (`src/dircache.c:683-689`); the model starts at the test.
- `realloc` to zero bytes in `dceAdjust`: modelled like any other size; `TrimmedToNothing` says when it happens.
- Running out of memory for the path string of a new entry, which the source does not check.
- `dcDelete`, `dcExistsInCache`, the prefix mode of the search and the forced mode of `dcRead`, which have no callers or only free memory.
- Double-byte code pages: strings are searched and compared character by character.
- Lock balance, lock timeouts and early returns that skip the release: a locked region is atomic.
- Coherence of attributes, sizes and times; only names are compared.
- Coherence.RunCoherent: runs contain no moves of directories, and moved files get into one of the two directories that are invalidated; `MoveDirCoherentIff` and `MoveFileCoherentIff` say what any other move does.
- Plugin.Session.NdpMove: a destination that ends where the share's name ends, for which the source reads behind the terminator.
- Plugin.Session.ListFiles: the callback's status; `smbwrp_dir_add` returns no value.
- PathParser.Connection.PathParser: components longer than 255 bytes and remainders that do not fit the caller's buffer; NULL arguments.
- EaCodec.Unilistea: totals are taken not to exceed the 32-bit size field; a failing listing request is modelled in `NdpFileEAQuery`.
- EaLaws.NdpFileEAQuery: attributes of more than 64 KB in all, for which the source walks behind its buffer; an open file is taken.
- EaLaws.NdpEAQuery: the same.
- Password.DecryptPassword: texts of odd length with no NUL at an even position in the buffer, for which the source reads behind the buffer; the two digits of a pair are taken to be read left to right.
- The bare name that stays behind a cached `NdpQueryPathInfo` hit and its later use by the attribute calls.
- `smbwrp_dskattr`, date conversion, logging, property parsing, the file cursor wrappers, `maperror`: tables or easy members.
