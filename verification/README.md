# WebFS: a Dafny model

WebFS is an in-memory tree of nodes served over FUSE, whose files are read from web sources through
failing-over adapters and a range cache. This project models its core and proves what it keeps, for
all inputs, all runs and all interleavings. `dafny verify dfyconfig.toml` checks everything.

How the parts fit together:

- `Paths`, `Trees`, `Requests`: request paths as text, the node tree as a value keyed by inode number,
  and whole runs of creation and removal. `FileTree` has the same as objects: nodes with mutable child
  tables and parent pointers, whose methods are tied to the tree value.
- `MkdirRace`, `MkdirLoss`, `MkdirReturns`: any number of `AddDirNode` and `AddFileNode` calls at once, one
  step for each map call, locked section or counter draw; a run is any schedule of thread numbers.
- `Failover` (value) and `Inodes` (objects): the adapter pool, its health marks, backoff and last resort.
  Clock readings, adapter answers and cancellation are inputs.
- `Cache`: the range cache as a value on 64-bit offsets, and any number of readers interleaved with
  failing adapters and clears. `Inodes` has the cache with its own arrays and `Inode.Read` with the one
  buffer that all adapters share.
- `Server`: the FUSE requests in flight, interleaved step by step, on top of the NodeID registry, the
  handle table, the read locks and the cached reads of `Cache`. Here everything meets in one claim,
  `Server.ReadOutcome`: how a read through a handle can end, and why. `ServerRequests` says the same for the
  other requests and which bytes a read has; `ServerWitness` has explicit runs.
- `DirPaging` (value) and `DirHandles` (objects): directory snapshots listed page by page.
- `Contexts`: node contexts and the unwinding of their callbacks.
- `HttpRead`: the HTTP range read over a body that arrives in pieces.

An adapter is an arbitrary oracle that keeps one contract: when it reports success it has put a prefix
of the requested window into the first `n` bytes of the buffer; when it fails it may have written and
reported anything. `HttpRead.CompliantIsHonest` shows that the HTTP adapter keeps it with a compliant
server.

What does not hold of the code, each with the exact condition under which it does and an input for which
it fails:

- Racing `AddDirNode` and `AddFileNode` calls keep all their paths if and only if any two of them ask for
  the same path or share only directories that already exist (`MkdirLoss.RacingCallsExactCondition`, and
  for a single path `MkdirLoss.PathExactCondition`). Otherwise a call that missed a shared directory and
  stalled replaces it later, with everything below it (`MkdirLoss.ClashLosesPath`).
- A racing call that succeeds has returned the node that ends up under its path if and only if no other
  call shares a missing prefix with it, so not even the same path
  (`MkdirReturns.ReturnedNodeExactCondition`, `MkdirReturns.FilesExactCondition`). Two requests for the
  same new file may both report success, and one file is then unreachable (`MkdirReturns.SameFileTwice`).
- A created file can be found again under its own `Path` if and only if its request path does not end
  in a slash and is not empty (`Requests.FilePathRoundTrip`; not so for `a/`, `Requests.SlashedFileIsLost`).
- A complete listing of an unchanging directory returns each live child once if and only if no deleted
  slot of the snapshot comes before a live one (`DirPaging.ExactlyOnceIffLivePrefix`): offsets count
  entries, not slots, so skipped slots make later pages overlap earlier ones (`DirPaging.ListedTwice`).
  `DirPaging.NoDuplicateIffResumes` has the condition for a directory that changes meanwhile.
- `get` on the cache indexes out of bounds (a panic) if and only if `offset + size` overflows while the end
  of the first range that passes its test does not (`Cache.GetOutOfBoundsIff`, `Cache.OverflowPanics`).
- A 206 response is taken for the wanted range without looking at its Content-Range, which is right for
  every file if and only if the enclosed range starts at the offset
  (`HttpRead.PartialHonestIffRangeMatches`, `HttpRead.MisplacedWitness`). Section 15.3.7 of RFC 9110 asks
  clients to inspect it.
- A node's NodeID resolves if and only if it was not forgotten and the thread that won the race for it has
  stored it (`Server.NodeIdResolvesIff`). A forgotten node keeps its dead NodeID for good, so a later lookup
  gives out a number that never resolves (`Server.ForgottenNodeKeepsDeadId`). A run for each case is in
  `ServerWitness.LookupAfterForget` and `ServerWitness.LookupBeforeStore`.

A cache hit returns a window into the cache's own array (`Inodes.DataCache.Get`), while a miss returns a
buffer that the cache does not share (`Inodes.Inode.Read`).

## Model

| member | source | states |
|---|---|---|
| Paths.CutLast | filesystem/fs.go:63-63 | the two parts make up the path, the name has no slash, the directory is empty or ends in one |
| Paths.ComponentsOfJoin | filesystem/fs.go:118-126 | splitting at slashes and skipping empty pieces undoes joining, for any list of plain names |
| Paths.CutLastComponents | filesystem/fs.go:63-76 | cutting off the last element and splitting the rest agrees with one split of the whole path |
| Trees.ResolveIffNames | filesystem/node.go:59-113 | names resolve from the root to a node exactly when they are the names met going up from it; so a node has at most one path |
| Trees.PathAgreesWithLookup | filesystem/node.go:59-78 | `Path` reports no error exactly for nodes that resolve, and its text, split again, gives the names they resolve under |
| Trees.AttachWellFormed | filesystem/node.go:83-96 | adding a new node keeps child tables and parent pointers mirrored, acyclic, live and uniquely numbered, also when it replaces a child |
| Trees.RemoveWellFormed | filesystem/node.go:104-113 | removing a child keeps the same invariant and detaches only that child |
| Trees.AttachMissing | filesystem/node.go:83-96 | adding under a free name adds exactly one path and moves nothing |
| Trees.ReplacedSubtreeIsGone | filesystem/node.go:83-96 | after a replacement every node of the old subtree is unreachable and its `Path` reports the replaced node as deleted, with the names below it as text |
| Trees.RemovedSubtreeIsGone | filesystem/node.go:104-113 | after a removal every node of the subtree is unreachable and its `Path` reports the removed node as detached, with its name and those below it as text |
| Trees.MkDirsMeaning | filesystem/fs.go:111-158 | `mkdir -p`: the paths afterwards are the old ones and the prefixes of the path, old paths keep their node, the result is the leaf, the inode counter moves by the number of missing prefixes |
| Trees.MkDirsTwice | filesystem/fs.go:113-114 | a repeated call changes nothing and returns the same node |
| Trees.MkAllPaths | filesystem/fs.go:115-148 | after any list of directory requests the paths are the old ones and all prefixes of all requests |
| Trees.MkAllOrderIndependent | filesystem/fs.go:115-148 | hence the same for every permutation of the list |
| Requests.AddDirMeaning | filesystem/fs.go:115-158 | the meaning of `mkdir -p` for a request path as text, and its idempotence |
| Requests.AddFileShape | filesystem/fs.go:59-109 | exactly when a file is created, that it is one more child of the directory part; for a refusal its reason and what tree and inode counter it leaves |
| Requests.RefusedFileIsDirOnly | filesystem/fs.go:68-97 | a failed request leaves the tree exactly as the request for its directory part alone would |
| Requests.FilePathRoundTrip | filesystem/fs.go:63-108 | a new file's `Path` is the join of the request's components and splitting it finds the node again, exactly when the last element is not empty |
| Requests.AddFileIsMkDirs | filesystem/fs.go:59-109 | a file request with adapters leaves the tree, counter and node of `mkdir -p` for its full path, and is refused exactly if that path is there |
| Requests.SlashedFileIsLost | filesystem/fs.go:63-108 | a request for `a/` on a new file system: the file is created and its own path does not find it |
| Requests.RunPathAgreesWithLookup | filesystem/node.go:59-113 | in every run of directory, file, add and remove operations `Path` reports no error exactly for nodes that resolve, each under one list of names |
| Requests.NodesNeverMove | filesystem/node.go:83-113 | whatever names a node resolves under later in a run, it resolved under before; so what is cut off never comes back |
| Requests.OperationTakesEffect | filesystem/fs.go:59-158 | after any run, one more directory, file, add or remove operation has the effect it stands for on paths, child tables, deletion marks and parents |
| FileTree.Node.Del | filesystem/node.go:134-145 | the node is marked deleted, has no parent, keeps its children and its inode's cache is empty |
| FileTree.Node.AddChild | filesystem/node.go:83-96 | the child is in the table and points back; a child of that name is deleted, also when it is the same node; nothing else changes |
| FileTree.Node.RemoveChild | filesystem/node.go:104-113 | the child leaves the table and loses its parent without being marked deleted; the answer says whether there was one |
| FileTree.FileSystem.constructor | filesystem/fs.go:28-50 | a new file system has only the root, inode number 1 |
| FileTree.FileSystem.Link | filesystem/fs.go:131-144 | drawing a number, making a node and adding it is the tree value's `Attach`, and the objects stay in order |
| FileTree.FileSystem.AddDirNode | filesystem/fs.go:115-158 | the loop over the pieces leaves exactly the tree, counter and node of the value-level request |
| FileTree.FileSystem.AddFileNode | filesystem/fs.go:59-109 | tree, counter and result, created or refused and why, are those of the value-level request; a created node is new and has the request's name and adapters |
| FileTree.FileSystem.RemoveFrom | filesystem/node.go:104-113 | removing a child of any node ever created is the tree value's `RemoveChild` |
| FileTree.FileSystem.PathOf | filesystem/node.go:52-78 | going up by parent pointers terminates with the value-level text and error |
| MkdirRace.StepInv | filesystem/fs.go:59-158 | every step of every thread keeps the invariant of racing `AddDirNode` and `AddFileNode` calls: old entries untouched, stored nodes live and where their maker put them, everything walked over in its table or about to be put back |
| MkdirRace.RacingCallsKeepPaths | filesystem/node.go:83-96 | for any number of directory and file requests with compatible paths and any schedule, once all are done every path is in place through live nodes with matching parent pointers, and the paths are exactly those sequential calls give |
| MkdirRace.FairRunsComplete | filesystem/fs.go:123-148 | every schedule that gives each call six turns for each component of its path ends with all calls done |
| MkdirLoss.ClashLosesPath | filesystem/fs.go:127-144 | two requests that share a missing directory, the second not going on along the first's path: a schedule in which all calls finish and the first path is gone |
| MkdirLoss.PathExactCondition | filesystem/fs.go:123-148 | for one request: every complete run keeps its path if and only if all that share a missing prefix with it ask for its path or a longer one |
| MkdirLoss.RacingCallsExactCondition | filesystem/fs.go:123-148 | for all requests: every complete run keeps every requested path if and only if the paths are pairwise compatible |
| MkdirReturns.SharedIsReplaced | filesystem/fs.go:127-144 | any two requests that share a missing prefix: a run in which all finish, these two succeed, and the first has returned a node that is not in place |
| MkdirReturns.ReturnedNodeExactCondition | filesystem/fs.go:59-158 | for one request, directory or file: in every complete run in which it succeeds it has returned the node its path leads to, if and only if no other request shares a missing prefix with it |
| MkdirReturns.FilesExactCondition | filesystem/fs.go:59-109 | every file whose racing call reported success is found under its path in every complete run, if and only if no file request shares a missing prefix of its full path with another request |
| MkdirReturns.FileSuccessIsNew | filesystem/fs.go:76-109 | at any moment of any run: a file request that has succeeded returned a node of its own making for its own path, and nothing was there at the start |
| MkdirReturns.FileOutcome | filesystem/fs.go:76-109 | in every complete run a file request is refused if its path was there at the start, and succeeds if it was not and no other request shares a missing prefix with it |
| MkdirReturns.FileAlone | filesystem/fs.go:59-109 | a racing file request run by itself leaves tree and counter of the value-level request and is refused exactly if that is |
| MkdirReturns.ReturnedUnderOwnPath | filesystem/fs.go:59-158 | at any moment a node that a call has returned is found under the call's path or under no names at all |
| MkdirReturns.SameFileTwice | filesystem/fs.go:76-107 | two requests for one new file in a directory that is there: a run in which both report success and one of the files is not reachable under any name |
| Failover.TryOperationMeaning | filesystem/inode.go:211-258 | the adapters called are an in-order part of primary and backups, none only if cancelled; success exactly when the last one called worked and all earlier failed; who is marked how, and all others untouched |
| Failover.FailoverReachesAll | filesystem/inode.go:211-258 | exactly which adapters are reached: on failure every usable one was called and failed, on success every usable one before the winner; none that is not usable, but for the primary as a last resort; none once cancelled |
| Failover.WorkingAdapterIsFound | filesystem/inode.go:211-287 | without cancellation a call succeeds whenever some adapter works that is healthy, or has failed fewer than three times and waited more than a second for each failure; the winner is exactly the first working one of those, or the primary if there are none |
| Failover.CountIsStreak | filesystem/inode.go:260-271 | over any run the failure count is the number of failures since the last success, and zero exactly when healthy |
| Failover.BackupFailuresBounded | filesystem/inode.go:218-233 | a backup's count stays within the limit, and its failed calls within the limit times its successes plus one |
| Failover.ExhaustedBackupNeverCalled | filesystem/inode.go:273-281 | after as many straight failures as the limit a backup is never called again in any continuation |
| Failover.StreakSpacing | filesystem/inode.go:283-286 | the k-th failure of a streak is followed by the next only after more than k seconds |
| Failover.ThirdFailureComesLate | filesystem/inode.go:283-286 | a backup's third straight failure is stamped more than three seconds after its first |
| Failover.PoolAfterIsReached | filesystem/inode.go:180-208 | what every pool reached by sequential calls satisfies |
| Failover.FailingCallLowersPatience | filesystem/inode.go:223-257 | with a working primary and no cancellation a failing call strictly lowers the sum of the failures the backups can still take |
| Failover.RecoveryBound | filesystem/inode.go:211-258 | so at most the limit times the number of backups calls fail in a row, from any reachable pool |
| Failover.PrimarySuccessLasts | filesystem/inode.go:218-221 | after the primary's first success every later call is served by it |
| Inodes.InodeAdapter.ShouldRetry | filesystem/inode.go:273-287 | the answer is the value-level one, healthy adapters included |
| Inodes.AdapterPool.constructor | filesystem/inode.go:180-208 | one primary and the rest backups, all healthy with count zero |
| Inodes.AdapterPool.Select | filesystem/inode.go:215-233 | the adapters built for the loop are the selected ones in order, or the primary alone |
| Inodes.AdapterPool.TryOperation | filesystem/inode.go:235-271 | marks and outcome are the value-level ones, and after a success the shared buffer and count are the winner's |
| Inodes.DataCache.Get | filesystem/inode.go:297-314 | hit, miss or out of bounds as at the value level, and out of bounds exactly when the request overflows and the first matching range does not; a hit is a window into the cache's own array |
| Inodes.DataCache.IsCached | filesystem/inode.go:338-351 | true exactly when some range contains the request |
| Inodes.DataCache.Store | filesystem/inode.go:317-335 | one more range with the data, in an array of its own; nothing for empty data; all ranges stay as `store` makes them |
| Inodes.Inode.Read | filesystem/inode.go:106-141 | hit, miss and failure; on a miss the bytes returned and the bytes cached are the winner's whatever the failing adapters did, and the two arrays are different |
| Cache.GetOutOfBoundsIff | filesystem/inode.go:301-335 | when 64-bit wrap-around makes the slice indices of `get` go out of bounds, exactly, for all ranges that `store` can make, negative starts and wrapped ends included |
| Cache.OverflowPanics | filesystem/inode.go:301-309 | one cached byte and a request of one byte at the last 64-bit offset: the indices are out of bounds |
| Cache.GetMeaning | filesystem/inode.go:297-351 | a hit is exactly a request inside one range, `isCached` agrees, and the bytes are that range's |
| Cache.HitIsExact | filesystem/inode.go:303-311 | a hit returns exactly the requested bytes of the file, all of them |
| Cache.ReaderStepKeeps | filesystem/inode.go:111-140 | each step of a reader keeps cached ranges equal to the file and the reader's bytes a prefix of its window |
| Cache.CacheIsTransparent | filesystem/inode.go:106-141 | in every interleaving of reads, failures, stores and clears all cached ranges and all returned bytes are the file's own |
| Cache.RangeStoredSinceClear | filesystem/inode.go:317-369 | every cached range was stored by some read with just the bytes it returned, and the cache has not been cleared since |
| Cache.CachedReadRefinesPlain | filesystem/inode.go:111-140 | every step is, for each reader, nothing or what a read without a cache from an honest adapter could do |
| Cache.WholeWindowIsReturned | filesystem/inode.go:118-140 | on a miss an adapter can deliver the whole window, and then exactly that is stored and returned |
| Cache.FullReadStaysCached | filesystem/inode.go:111-115 | after a read that returned all its bytes, and until a clear, every sub-range is cached and its read has only the hit, with the matching slice and no adapter call |
| Server.StepInv | filesystem/fs.go:164-242 | every step of every request keeps the server's invariant: NodeIDs unique and published truthfully, handles bound to nodes, caches true, locks counted |
| Server.RunGrown | filesystem/fs.go:217-231 | a NodeID, once set, and the node of a handle never change, in any interleaving |
| Server.NodeIdsAgree | filesystem/fs.go:217-231 | two NodeIDs given out at any two moments are equal exactly when they are for the same node |
| Server.ForgottenNeverResolvesAgain | filesystem/fs.go:180-191 | a NodeID that resolved and then does not never resolves again |
| Server.ForgottenNodeKeepsDeadId | filesystem/fs.go:217-221 | every later EnsureNodeID of a forgotten node gives out its dead number |
| Server.NodeIdResolvesIff | filesystem/fs.go:180-231 | a node's NodeID resolves, to that node, exactly unless it was forgotten or its winner has yet to publish it |
| ServerRequests.ForgetOutcome | filesystem/fs.go:180-191 | over every run: a finished Forget found its NodeID not registered, or that NodeID is forgotten and not registered from then on |
| ServerRequests.LookupOutcome | fuse/server.go:90-105 | over every run: a Lookup answers ENOENT, or with a node and the NodeID that it has for good, and then the parent was registered when it looked |
| ServerWitness.LookupAfterForget | filesystem/fs.go:180-231 | for every node but the root a run, step by step, of lookup, forget and lookup that answers with a NodeID no longer in the registry |
| ServerWitness.LookupBeforeStore | filesystem/fs.go:217-231 | for every node but the root a run of two lookups in which one answers with the NodeID that the other has set and not stored yet |
| Server.ReadOutcome | fuse/server.go:304-328 | over every run, how a Read ends: EBADF exactly if its handle was not open when it looked; EIO exactly if the NodeID of the handle's node had been forgotten when it was looked up, or the adapters failed on that node; otherwise bytes for the handle, offset and size asked for, a prefix of that window of the opened file |
| ServerRequests.ReadBytes | fuse/server.go:316-327 | over every run, which bytes: if the window was cached when the Read looked, all of it; if an adapter worked, all that it delivered, hence the whole window if that was as much; and always one of the two |
| Server.HandleStaysOpen | fuse/server.go:276-339 | a Read on a handle that some Open had stored ends in EBADF only if the handle was released meanwhile or before |
| ServerRequests.HandleOpenIff | fuse/server.go:288-339 | over every run: a handle is open exactly from the step that stores it to the first Release of it |
| ServerRequests.ReadAfterOpen | fuse/server.go:288-339 | over every run: a Read on a handle that an Open stored ends in EBADF exactly if a Release of it came before the Read's lookup |
| ServerWitness.FileIsRead | fuse/server.go:276-328 | for every file but the root and every window: a run of lookup, open and read that answers with the whole window |
| ServerWitness.ReleasedIsClosed | fuse/server.go:304-339 | that run goes on: the handle is released, and a read on it ends in EBADF |
| Server.HandlesNeverReused | fuse/server.go:288-296 | every Open that stores a handle stores a number never stored before |
| Server.HandleHasOpen | fuse/server.go:276-301 | a handle bound to a node was bound by an Open that held that node |
| ServerRequests.OpenOutcome | fuse/server.go:276-301 | over every run: an Open answers with a new handle that it stored itself for the NodeID asked for, while it held that node, or with ENOENT for a NodeID not registered when it looked |
| Server.ReadsReturnTheOpenedFile | fuse/server.go:304-328 | end to end: what a Read on a handle returns is a prefix of the requested window of the file that was open when the handle was stored |
| Server.LocksAreBalanced | filesystem/context.go:119-127 | at every moment each node's read-lock count is the number of contexts open on it, hence zero when nothing is in flight |
| ServerRequests.NeverStuck | fuse/server.go:90-339 | at every moment of every run every request can make its next step |
| DirPaging.PageMeaning | fuse/server.go:182-208 | a page holds only live slots from the offset on, in order and as many as fit, and misses none it moves past |
| DirPaging.ListingEnds | fuse/server.go:182-185 | a listing has at most as many non-empty pages, and entries, as the snapshot has slots |
| DirPaging.ListingCoversLive | fuse/server.go:186-208 | a finished listing has returned every child that stayed live, whatever was deleted between pages |
| DirPaging.ExactlyOnceIffLivePrefix | fuse/server.go:186-202 | without deletions during the listing, each live child once and in order if and only if no deleted slot precedes a live one; else more entries than children |
| DirPaging.ListedTwice | fuse/server.go:182-208 | a deleted slot before a live one and pages of one entry: the listing returns the only child twice |
| DirPaging.NoDeletionsExactlyOnce | fuse/server.go:186-208 | with no deletions at all each child once, in snapshot order |
| DirPaging.NoDuplicateIffResumes | fuse/server.go:182-208 | whatever is deleted during the listing: no child twice if and only if at each call all slots between its offset and the last one returned are deleted; then the slots come in increasing order |
| DirHandles.Children | filesystem/context.go:69-76 | the snapshot has each child of the table in exactly one slot |
| DirHandles.DirTable.OpenDir | fuse/server.go:144-163 | ENOENT and no change for an unknown NodeID; otherwise a new handle with a snapshot of its own |
| DirHandles.DirTable.ReadDir | fuse/server.go:166-208 | ENOENT exactly for an unknown NodeID or handle; otherwise the entries are those of the page; slots of deleted children may be cleared, no others, so which slots are live stays the same |
| Contexts.NodeContext.constructor | filesystem/context.go:24-29 | one read lock taken and its release pushed |
| Contexts.Close | filesystem/context.go:119-127 | every pushed callback runs once, last pushed first, and none again on a second Close; nil does nothing; each lock is released as often as its release was pushed |
| Contexts.IterChildren | filesystem/context.go:81-88 | every child is visited in order with its lock count one higher, and all counts are as before at the end |
| HttpRead.PartialAndFullAgree | adapters/http.go:118-140 | a compliant 206 and a full 200 skipped to the offset give the same bytes, the window clamped to the end of the file |
| HttpRead.FetchMeaning | adapters/http.go:94-148 | exactly when a read succeeds, a body that breaks off early included, and with which bytes |
| HttpRead.HeaderAsksForWindow | adapters/http.go:106-108 | the Range header asks for exactly the window wanted |
| HttpRead.CompliantIsHonest | adapters/http.go:94-148 | with a compliant server, bodies cut short included, the bytes are a prefix of the window |
| HttpRead.PartialHonestIffRangeMatches | adapters/http.go:121-140 | a 206 with the range from `first` gives the file's bytes at the offset, for all files, exactly when the two are equal |
| HttpRead.Discard | adapters/http.go:128-136 | skipping succeeds exactly when the body is long enough |
| HttpRead.ReadFull | adapters/http.go:139-143 | the front of the buffer is filled as far as the body goes, the rest is untouched, and the kind of ending is reported |
| HttpRead.ReadRange | adapters/http.go:94-148 | success exactly if the buffer is big enough, the status is 200 or 206, the body reaches past the skip and does not break off before there is enough; the count and bytes are what follows the skip, the rest of the buffer is untouched, and the way the network cuts the body does not matter |

## Left out

- JSON and YAML parsing, configuration, the adapter registry, the command line, logging, mounting and unmounting: plumbing around the modelled core.
- The internals of the concurrent maps, atomics and locks: their operations are taken as single steps. `Del` is one step because it runs under the node's lock.
- The FUSE wire format: only the offset that a directory reply gives each entry is modelled; how many entries fit is an input.
- Sockets, the HTTP client and response parsing: a response is a status, the bytes that arrive and the way they stop. Writes and HEAD requests are not modelled.
- Timestamps, owners, modes, sizes, hard-link lists, version tags and the background refresh of metadata.
- The `Priority` of a source: the code carries it but orders adapters by list position.
- Deadlocks between node locks: there is no single lock order to state.
- Wrap-around of NodeIDs, handles, inode numbers and the 32-bit failure count: they are unbounded here; offsets and sizes of cache requests do wrap.
- Health marks under concurrent calls: each mark is several atomic steps that can mix, so the pool's run properties are for calls made one after the other.
- Server.Step: which child a name or directory entry denotes is left open, and a Read's adapters may be tried in any order and number, so the model allows more runs than the code has.
- Server.Starting: reads in the server machine have an offset and size whose sum stays below 2^63; what the cache does beyond that is in `Cache.GetOutOfBoundsIff`.
- FileTree.FileSystem.constructor: the root's NodeID, the NodeID counter and the registry entry are in `Server.Init`, because NodeIDs belong to the server machine.
- Inodes.Inode.Read: negative sizes are not modelled; the request size comes from an unsigned field.
- MkdirRace.Step: a racing file request without a valid adapter; it does what the request for its directory part does (`Requests.RefusedFileIsDirOnly`) and draws one more inode number.
- Contexts.IterChildren: the callback is taken to leave locks as it found them.
