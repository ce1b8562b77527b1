# SimpleDB core: locking, buffering, heap files, aggregation and join

This project models in Dafny the core of a small teaching database, SimpleDB:

- the page-level **lock manager**: shared and exclusive page locks, an in-place upgrade for a sole reader, release of one page, of a discarded page, and of everything a transaction holds;
- the **buffer pool**. It covers:
  - `getPage`: eviction first, then the lock, with either deadlock policy (abort the requester, or abort every other transaction), then loading from the table's file;
  - FIFO eviction (steal) with a flush;
  - no-force transaction completion: on commit, log plus force plus a before-image reset; on abort, a restore from the before-image;
  - flushing of one page, of all pages, and of one transaction's pages. Every page write the buffer pool makes follows a log record and a log force (write-ahead logging); the page a heap-file insert appends is written by the heap file itself (see "Left out");
  - discarding a page;
  - caching the pages an insert or delete changed;
- the **heap file**: page reads and writes on the file's byte image, the page count, tuple insertion (first page with room, or a new page appended) and deletion, and the iterator over all tuples;
- the **integer and string aggregators**: MIN, MAX, SUM, COUNT and AVG per group, with Java's 32-bit `int` arithmetic, and their result iterators;
- the **join** operator. For `=` it runs a hash join built on the smaller child; for any other predicate it runs a nested-loop join. `open` computes the whole result, and `fetchNext` hands it out.

## How the model is organised

Each stateful Java class is a Dafny `class` whose fields are updated in place by its methods:
- `LockManager`, `BufferPool`, `HeapFile` and its iterator;
- the aggregators and their iterators;
- `Join`.

Each method's postcondition ties the new state to a value-level function of the old state. For example, `LockManager.AcquireWriteLock` ends in `WriteAttempt(old(State()), ...)`. The properties the code promises are proved about those functions as lemmas: invariants kept, exclusivity, read-after-write, reference definitions of the aggregates and joins. Where the source loops, the model has a `while` or `for` loop with its invariants. The loops that visit a Java set or map key set first list its members once each (`Common.Enumerate`), as the source copies them into an `ArrayList`. The iteration order of Java's hash collections is left unspecified: where it shows, the method returns the order it used.

| file | module | models |
|---|---|---|
| `common.dfy` | `Common` | ids, fields, tuples, results, 32-bit wrap-around |
| `lock_manager.dfy` | `Locking` | `LockManager.java` |
| `heap_file.dfy` | `Storage` | `HeapFile.java` and its iterator |
| `buffer_pool.dfy` | `Buffering` | `BufferPool.java` |
| `aggregator.dfy` | `Aggregation` | `IntegerAggregator.java`, `StringAggregator.java` |
| `join.dfy` | `Joins` | `Join.java` |

## Model

| member | source | states |
|---|---|---|
| Common.Wrap32 | src/java/simpledb/IntegerAggregator.java:81-88 | Java `int` addition: the result is in the 32-bit range and congruent to the exact sum modulo 2^32 |
| Common.Enumerate | src/java/simpledb/BufferPool.java:212-215 | copying a set into a list: every member exactly once, nothing else |
| Locking.Granted | src/java/simpledb/LockManager.java:150-167 | `newLock`: tid holds pid afterwards. A write lock names tid as the writer and leaves the read locks alone; a read lock adds tid to pid's readers. tid's page set gains pid, and no other page changes |
| Locking.Released | src/java/simpledb/LockManager.java:171-198 | `releasePage`: tid no longer holds pid and pid has no writer. pid's readers lose tid, and the entry is dropped exactly when no reader is left. Other pages' read locks are unchanged |
| Locking.DropMember | src/java/simpledb/LockManager.java:171-198 | removing one member from a map-of-sets entry drops the entry exactly when it becomes empty; other entries are untouched |
| Locking.ReleasedTidLocks | src/java/simpledb/LockManager.java:171-198 | `releasePage` changes only tid's page set. It loses pid only when pid has no lock left, and it is dropped when empty |
| Locking.ReleasedFrame | src/java/simpledb/LockManager.java:171-198 | `releasePage` leaves every other page's locks as they were and only shrinks the page sets by pid |
| Locking.ReadAttempt | src/java/simpledb/LockManager.java:87-114 | `acquireReadLock` is granted iff tid already holds a lock on pid or nobody write-locks it. A refusal, or a lock already held, changes nothing; a grant adds tid to pid's readers |
| Locking.WriteAttempt | src/java/simpledb/LockManager.java:116-147 | `acquireWriteLock`: a refusal changes nothing. A grant makes tid the writer and leaves no reader on pid; a sole reader is upgraded in place. A write lock tid already holds is granted with nothing changed; any other grant adds pid to tid's page set. A granted lock is recorded under tid, and no other page changes |
| Locking.GrantedKeepsRecorded | src/java/simpledb/LockManager.java:150-167 | after `newLock`, every lock held is still recorded under its holder |
| Locking.ReleasedKeepsInv | src/java/simpledb/LockManager.java:171-198 | `releasePage` keeps the lock-table invariant: readers and writers are disjoint, every lock is recorded, and no entry is empty |
| Locking.ReadAttemptKeepsInv | src/java/simpledb/LockManager.java:87-114 | a read attempt keeps the lock-table invariant |
| Locking.WriteAttemptKeepsInv | src/java/simpledb/LockManager.java:116-147 | a write attempt keeps the lock-table invariant, the upgrade path included |
| Locking.WriteAttemptGrantedIff | src/java/simpledb/LockManager.java:116-147 | exclusive access: a write lock is granted exactly when no other transaction holds any lock on the page |
| Locking.AcquireOutcome | src/java/simpledb/LockManager.java:38-84 | `acquireLock`: on success tid holds the lock (as writer for READ_WRITE). On failure the tables are unchanged and the abort raised is TransactionAborted exactly under the self-abort policy |
| Locking.ReacquireIsNoOp | src/java/simpledb/LockManager.java:38-84 | asking again for a lock just acquired is granted and changes nothing |
| Locking.ReleasedAll | src/java/simpledb/LockManager.java:214-227 | releasing tid's locks on a set of pages: tid holds none of them afterwards, other pages keep their holders, no lock is created, and the exclusivity invariant survives |
| Locking.ReleasedAllStep | src/java/simpledb/LockManager.java:214-227 | the release loop: one more `releasePage` extends the bulk release by that page, so the visiting order does not matter |
| Locking.Completed | src/java/simpledb/LockManager.java:214-227 | `transactionComplete`: tid keeps no lock on any page recorded for it, no lock is created, and nothing changes when nothing is recorded |
| Locking.CompletedReleasesEverything | src/java/simpledb/LockManager.java:214-227 | under the invariant, a completed transaction holds no lock at all, and the invariant survives |
| Locking.CompletedAll | src/java/simpledb/BufferPool.java:116-126 | completing several transactions one after another creates no lock |
| Locking.CompletedAllReleases | src/java/simpledb/BufferPool.java:116-126 | under the invariant, every transaction completed in turn ends holding no lock, and the invariant survives |
| Locking.LockManager.HoldsLock | src/java/simpledb/LockManager.java:26-34 | `holdsLock` is true iff tid is among pid's readers or is its writer |
| Locking.LockManager.NewLock | src/java/simpledb/LockManager.java:150-167 | the maps are updated as `Granted` says |
| Locking.LockManager.AcquireReadLock | src/java/simpledb/LockManager.java:87-114 | the decision and the new maps are `ReadAttempt`'s; the invariant is kept |
| Locking.LockManager.AcquireWriteLock | src/java/simpledb/LockManager.java:116-147 | the decision and the new maps are `WriteAttempt`'s; the invariant is kept |
| Locking.LockManager.AcquireLock | src/java/simpledb/LockManager.java:38-84 | the outcome and the new maps are `AcquireOutcome`'s; the invariant is kept |
| Locking.LockManager.ReleasePage | src/java/simpledb/LockManager.java:171-198 | the maps are updated as `Released` says |
| Locking.LockManager.ReleaseDiscardPage | src/java/simpledb/LockManager.java:201-211 | nobody holds pid afterwards; only pid's entries and pid's membership in the page sets change; the invariant is kept |
| Locking.LockManager.TransactionComplete | src/java/simpledb/LockManager.java:214-227 | the maps become `Completed`'s, and tid holds no lock on any page |
| Storage.ReadPageBytes | src/java/simpledb/HeapFile.java:70-88 | reading a page: `pageSize` bytes from offset `pageNumber * pageSize`, with bytes past the end of the file read as zero; a negative offset is an IllegalArgumentException |
| Storage.ReadPageBytesInt32 | src/java/simpledb/HeapFile.java:70-88 | the read as written, with the offset computed in 32-bit arithmetic: an IllegalArgumentException exactly when the wrapped offset is negative, otherwise `pageSize` bytes from the wrapped offset. It is `ReadPageBytes` whenever the offset fits in an `int` |
| Storage.Int32ReadLosesPage | src/java/simpledb/HeapFile.java:75 | page 524288 of 4096-byte pages, written at its 64-bit offset, is refused when read back with the 32-bit offset, though the 64-bit read gives it back |
| Storage.Int32ReadAliasesPageZero | src/java/simpledb/HeapFile.java:75 | page 1048576 of 4096-byte pages, written at offset 2^32, reads back as page 0 with the 32-bit offset, and page 0 is what it was before the write |
| Storage.WritePageBytes | src/java/simpledb/HeapFile.java:91-102 | writing a page at its 64-bit offset: the data lands there, every other byte is kept, and the file grows to cover the write |
| Storage.PageCount | src/java/simpledb/HeapFile.java:107-110 | `numPages`: the file length divided by the page size, rounded up |
| Storage.ReadAfterWrite | src/java/simpledb/HeapFile.java:70-102 | reading a page back after writing it yields exactly the bytes written |
| Storage.WriteLeavesOtherPages | src/java/simpledb/HeapFile.java:70-102 | writing one page leaves every other page's bytes as they were |
| Storage.AppendAddsOnePage | src/java/simpledb/HeapFile.java:128-133 | writing the page numbered `numPages()` grows the page count by exactly one |
| Storage.FirstEmpty | src/java/simpledb/HeapFile.java:123 | the slot the insert at this call fills: an empty slot, the lowest, or none when every slot is used |
| Storage.HasRoomIff | src/java/simpledb/HeapFile.java:121 | a page has an empty slot exactly when its count of empty slots is positive |
| Storage.InsertIntoPage | src/java/simpledb/HeapFile.java:123 | a full page refuses the tuple. Otherwise the tuple goes into an empty slot with its record id naming that slot, and the empty-slot count drops by one |
| Storage.DeleteFromPage | src/java/simpledb/HeapFile.java:151 | a tuple is deleted iff its record id names this page and a used slot. Only that slot is emptied, and the empty-slot count grows by one |
| Storage.InsertThenDelete | src/java/simpledb/HeapFile.java:113-158 | deleting the tuple just inserted gives back the page as it was |
| Storage.PageTuples | src/java/simpledb/HeapFile.java:195 | a page's tuples are its used slots: their number plus the empty slots is the slot count |
| Storage.FirstWithRoom | src/java/simpledb/HeapFile.java:118-127 | the insertion scan picks the first page, in page order, with an empty slot, and no earlier page has one |
| Storage.FileTuplesMembers | src/java/simpledb/HeapFile.java:189-218 | the tuples the scan yields over a list of pages are exactly those held in some slot of some page |
| Storage.HeapFile.ReadPage | src/java/simpledb/HeapFile.java:70-88 | the byte image of a page, read at the corrected 64-bit offset of the finding below: an error exactly for a negative page number, otherwise `pageSize` bytes |
| Storage.HeapFile.NumPages | src/java/simpledb/HeapFile.java:107-110 | the number of pages is the least one whose pages cover the file: every byte lies in one of them, and each of them starts inside the file |
| Storage.HeapFile.WritePage | src/java/simpledb/HeapFile.java:91-102 | the file becomes `WritePageBytes` of the old file |
| Storage.HeapFile.InsertTuple | src/java/simpledb/HeapFile.java:113-135 | the first page with room takes the tuple and is returned unwritten. When all pages are full, a new page numbered `numPages()` takes it and is written to the end of the file |
| Storage.HeapFile.DeleteTuple | src/java/simpledb/HeapFile.java:138-158 | the page named by the record id is returned. When the record id names that page and a used slot, exactly that slot is emptied; otherwise the delete is refused, the refusal swallowed and the page returned unchanged. A tuple without a record id is a NullPointerException |
| Storage.HeapFileIterator.constructor | src/java/simpledb/HeapFile.java:177-180 | the iterator covers pages `0 .. numPages() - 1` of the file, each as the buffer pool returns it, with each page's tuple list that page's used slots (`PageTuples`); it starts closed with nothing to yield |
| Storage.HeapFileIterator.Open | src/java/simpledb/HeapFile.java:189-196 | after `open` the iterator will yield every tuple of those pages, page by page and in slot order within a page (`FileTuples`) |
| Storage.HeapFileIterator.HasNext | src/java/simpledb/HeapFile.java:199-218 | true iff some tuple remains; skipping empty pages does not change what remains |
| Storage.HeapFileIterator.Next | src/java/simpledb/HeapFile.java:221-224 | the first remaining tuple, which is consumed, or NoSuchElementException when none remains |
| Storage.HeapFileIterator.Rewind | src/java/simpledb/HeapFile.java:227-229 | rewinding is opening again: every tuple remains |
| Storage.HeapFileIterator.Close | src/java/simpledb/HeapFile.java:232-236 | after `close` nothing remains until the next `open` |
| Buffering.BeforeImagePage | src/java/simpledb/BufferPool.java:226 | the page restored on abort has the before-image's bytes and is clean |
| Buffering.WithBeforeImageReset | src/java/simpledb/BufferPool.java:224 | after commit a page's before-image is its current contents |
| Buffering.AbortAfterCommit | src/java/simpledb/BufferPool.java:216-226 | aborting a page right after a commit keeps the committed contents; only the dirty mark goes |
| Buffering.AbortIdempotent | src/java/simpledb/BufferPool.java:226 | restoring a page's before-image twice is restoring it once, and a clean page equal to its before-image is left as it is |
| Buffering.FlushEvents | src/java/simpledb/BufferPool.java:383-387 | flushing a dirty page is a log record of its before- and after-image, a log force, then the page write |
| Buffering.CommitLog | src/java/simpledb/BufferPool.java:216-225 | committing logs one record and one force per listed page, in list order |
| Buffering.CommitLogWriteAhead | src/java/simpledb/BufferPool.java:216-225 | commit writes no page, so it keeps the write-ahead discipline |
| Buffering.FlushWriteAhead | src/java/simpledb/BufferPool.java:383-387 | flushing keeps the write-ahead discipline: each page write directly follows a force, which directly follows a log record whose after-image is the data written |
| Buffering.FlushStep | src/java/simpledb/BufferPool.java:375-390 | `flushPage` on values: only the flushed page and its table's file change. An uncached page is an IOException. A dirty page of a known table emits a log record and a force, then is written; a successful write adds the page write and cleans the page, a failed one is an IOException that leaves page and files as they were. Otherwise nothing happens |
| Buffering.FlushStepWriteAhead | src/java/simpledb/BufferPool.java:383-387 | a flush keeps the write-ahead discipline, whether its write succeeds or fails |
| Buffering.FlushReachesFile | src/java/simpledb/BufferPool.java:383-387 | after a successful flush of a dirty page, reading its page number from its table's file gives the page's bytes |
| Buffering.FlushSeq | src/java/simpledb/BufferPool.java:313-319 | flushing a list of pages one after another, stopping at the first IOException: the cache and the catalog keep their keys |
| Buffering.FlushSeqOnlyCleans | src/java/simpledb/BufferPool.java:313-319 | a run of flushes only marks pages clean, and changes no page it does not list |
| Buffering.FlushSeqCleans | src/java/simpledb/BufferPool.java:313-319 | when a run of flushes succeeds, every listed page was cached and is clean or belongs to no known table |
| Buffering.FlushSeqWriteAhead | src/java/simpledb/BufferPool.java:313-319 | a run of flushes keeps the write-ahead discipline |
| Buffering.FlushSeqNext | src/java/simpledb/BufferPool.java:313-319 | a run that has not failed goes on with the next listed page's flush |
| Buffering.FlushSeqStops | src/java/simpledb/BufferPool.java:313-319 | once a flush fails, the pages listed after it change nothing |
| Buffering.RemoveFirst | src/java/simpledb/BufferPool.java:332-337 | the FIFO list with its first matching entry removed |
| Buffering.RemoveFirstLoop | src/java/simpledb/BufferPool.java:332-337 | the list scan of `discardPage` removes exactly the first matching entry |
| Buffering.RemoveFirstDistinct | src/java/simpledb/BufferPool.java:332-337 | in a list without repeats, removal takes out exactly that page and keeps the others in order |
| Buffering.ScrubTouched | src/java/simpledb/BufferPool.java:342-345 | every transaction's touched set loses the page, and a set left empty is dropped |
| Buffering.CommitLoop | src/java/simpledb/BufferPool.java:216-225 | the commit loop resets the before-image of exactly the listed pages and emits `CommitLog` |
| Buffering.AbortLoop | src/java/simpledb/BufferPool.java:216-226 | the abort loop replaces exactly the listed pages by their before-images |
| Buffering.TouchedByAll | src/java/simpledb/BufferPool.java:116-126 | the pages touched by a list of transactions include each one's touched set |
| Buffering.TouchedByAllOnly | src/java/simpledb/BufferPool.java:116-126 | a page is touched by a list of transactions only if one of them touched it |
| Buffering.AbortedStep | src/java/simpledb/BufferPool.java:116-126 | aborting one more transaction after others leaves every page any of them touched as its before-image |
| Buffering.AbortedOneMore | src/java/simpledb/BufferPool.java:116-126 | one more aborted transaction adds its touched pages, and its lock release comes last |
| Buffering.Cached | src/java/simpledb/BufferPool.java:252-268 | caching the changed pages keeps every cached page id and keeps entries keyed by their own id |
| Buffering.CachedChanges | src/java/simpledb/BufferPool.java:252-268 | a newly cached page is one tid holds no lock on. Every changed entry is marked dirtied by tid. An entry no changed page names is untouched, and so is an entry tid holds a lock on when no page handed back for it is the cached object |
| Buffering.CachedLastWins | src/java/simpledb/BufferPool.java:252-268 | the last page handed back for a page id is the one cached for it, marked dirtied by tid, when tid holds no lock on it or it is the cached object changed in place |
| Buffering.AppendedUnderLockLeavesCache | src/java/simpledb/BufferPool.java:252-262 | a page the heap file appended under a lock tid already holds is not put in the cache: the cache stays as it was, a stale entry for that id included |
| Buffering.AllShared | src/java/simpledb/HeapFile.java:148-156 | every page a delete hands back came through `getPage`, so each is the cached object |
| Buffering.BufferPool.HoldsLock | src/java/simpledb/BufferPool.java:174-178 | true iff the lock manager says tid holds a lock on pid |
| Buffering.BufferPool.ReleasePage | src/java/simpledb/BufferPool.java:167-171 | the lock tables become `Released`'s |
| Buffering.BufferPool.FlushPage | src/java/simpledb/BufferPool.java:375-390 | the outcome, the cache, the files and the events appended are `FlushStep`'s; the write-ahead discipline is kept |
| Buffering.BufferPool.DiscardPage | src/java/simpledb/BufferPool.java:329-350 | the page leaves the FIFO list, the cache, every touched set (empty sets are dropped) and every lock, and each transaction's lock set loses only that page; every other page keeps its entry, locks and touched-set memberships |
| Buffering.BufferPool.EvictPage | src/java/simpledb/BufferPool.java:427-456 | an empty pool is a DbException and an empty FIFO list an IndexOutOfBoundsException, with nothing changed. Otherwise the oldest loaded page is flushed (the files and events become `FlushStep`'s, an IOException is ignored), then discarded: it leaves the cache, the FIFO list and every touched set (empty sets are dropped), its read and write locks are released and each transaction's lock set loses only that page, while every other page keeps its entry, locks and touched-set memberships |
| Buffering.BufferPool.TransactionComplete | src/java/simpledb/BufferPool.java:199-229 | a transaction without touched pages is left alone. Otherwise each touched page is logged and reset on commit, or restored on abort, and then all the transaction's locks are released |
| Buffering.BufferPool.CommitPages | src/java/simpledb/BufferPool.java:216-225 | the listed pages' before-images are reset and the commit log is appended |
| Buffering.BufferPool.AbortPages | src/java/simpledb/BufferPool.java:216-226 | the listed pages are replaced by their before-images and nothing is logged |
| Buffering.BufferPool.AbortOneMore | src/java/simpledb/BufferPool.java:116-126 | one more step of the abort-others loop: the pages the aborted transactions touched are before-images and their locks are completed in order |
| Buffering.BufferPool.AbortOthers | src/java/simpledb/BufferPool.java:116-126 | the abort-others policy aborts exactly the other transactions with touched pages: every page they touched becomes its before-image, the rest are unchanged, the lock tables become `CompletedAll` of them, none of them holds a lock, and nothing is logged or written |
| Buffering.BufferPool.LockStep | src/java/simpledb/BufferPool.java:105-129 | `getPage`'s locking: on success tid holds the lock (as writer for READ_WRITE). Under self-abort a refusal aborts tid: its touched pages become before-images, its locks are completed, and the result is TransactionAborted. Otherwise the others are aborted as `AbortOthers` says, their touched pages become before-images, the lock is asked for again on the completed tables, and a second refusal fails. `restored` is the set of pages restored, every other cached page is unchanged, and the lock tables end as `AcquireOutcome` and `Completed` give them (`LockedFrom`). Nothing is logged or written |
| Buffering.BufferPool.LoadPage | src/java/simpledb/BufferPool.java:135-151 | a cached page is returned as it is. An uncached page is read from its table's file, cached clean and appended to the FIFO list; an unknown table is a NullPointerException and a failed read an IllegalArgumentException. On success the page joins tid's touched set and no other touched set changes; locks are untouched |
| Buffering.BufferPool.LockAndLoad | src/java/simpledb/BufferPool.java:105-151 | the lock step followed, once the lock is held, by the load: a refused lock returns its error and loads nothing; otherwise the page is returned as cached or as read from its file, tid holds its lock and has it in its touched set, and the pages, FIFO list, touched sets and lock tables end as `LockedAndLoaded` states from the given stage |
| Buffering.BufferPool.GetPage | src/java/simpledb/BufferPool.java:92-152 | evict when full (an empty pool or FIFO list fails with nothing changed), then lock, then load. `evicted` is the pool after the eviction, and from it on the lock tables, the cached pages, the FIFO list and the touched sets end exactly as the locking step and the load give them (`LockedAndLoaded`): other pages keep their entries unless an abort restored them, and only tid's touched set gains the page. On success the cached page is returned, tid holds its lock, and a pool holding at most `numPages` pages still holds at most `numPages`. Files and events change only by the eviction's flush |
| Buffering.BufferPool.FlushEach | src/java/simpledb/BufferPool.java:418-420 | flushing a list of pages in order: the outcome, cache, files and appended events are `FlushSeq`'s |
| Buffering.BufferPool.FlushAllPages | src/java/simpledb/BufferPool.java:313-319 | every cached page is flushed once, in the order returned: the outcome, cache, files and appended events are `FlushSeq`'s, and on success every cached page of a known table is clean |
| Buffering.BufferPool.FlushPages | src/java/simpledb/BufferPool.java:408-421 | every page tid touched is flushed once, in the order returned, as `FlushSeq` says; on success each is clean; with no touched pages nothing changes |
| Buffering.BufferPool.InsertTuple | src/java/simpledb/BufferPool.java:246-269 | the pages the heap file changed are cached as `Cached` says, an appended page not being the cached object; the FIFO list, touched sets, files and events are unchanged |
| Buffering.BufferPool.DeleteTuple | src/java/simpledb/BufferPool.java:284-306 | the cache update of `insertTuple`, every page handed back being the cached object |
| Buffering.BufferPool.CacheDirtied | src/java/simpledb/BufferPool.java:252-262 | the loop over the changed pages: each is marked dirtied by tid and the cache becomes `Cached`'s; the FIFO list, touched sets, files and log are unchanged |
| Aggregation.TruncDiv | src/java/simpledb/IntegerAggregator.java:111 | Java's `/`: the remainder is smaller than the divisor in size and has the dividend's sign |
| Aggregation.JavaDiv | src/java/simpledb/IntegerAggregator.java:111 | Java `int` division: a 32-bit result, equal to the truncated quotient whenever that fits |
| Aggregation.Bump | src/java/simpledb/StringAggregator.java:47-54 | COUNT's update: only the group's entry changes; a new group starts at 1 and an existing one adds 1 with 32-bit wrap-around, so 2^31-1 becomes -2^31 |
| Aggregation.MergeValue | src/java/simpledb/IntegerAggregator.java:57-119 | one merge: only the group's aggregate entry changes, and sums and counts only for AVG. A new group starts at the value (1 for COUNT). Only AVG on an existing group can fail |
| Aggregation.MergeAllReference | src/java/simpledb/IntegerAggregator.java:57-119 | merging any sequence of 32-bit values succeeds. Each group's aggregate is its values' MIN, MAX, wrapped SUM, COUNT or truncated AVG of the wrapped sum; AVG's sums and counts are the wrapped sum and the count |
| Aggregation.MergeStep | src/java/simpledb/IntegerAggregator.java:65-116 | merging one more value into a group that summarises its earlier values gives the summary of all of them |
| Aggregation.SeqMax | src/java/simpledb/IntegerAggregator.java:65-72 | the maximum is one of the values and no value exceeds it |
| Aggregation.SeqMin | src/java/simpledb/IntegerAggregator.java:73-80 | the minimum is one of the values and none is below it |
| Aggregation.CountAllOccurrences | src/java/simpledb/StringAggregator.java:47-54 | counting per group: the groups are exactly the keys seen, and each count is the number of the key's occurrences |
| Aggregation.GroupRows | src/java/simpledb/IntegerAggregator.java:149-155 | one result row per listed group |
| Aggregation.GroupRowsOnePerGroup | src/java/simpledb/IntegerAggregator.java:149-155 | every group has a row holding its key and aggregate, and no two rows share a group key |
| Aggregation.GroupRowsAt | src/java/simpledb/IntegerAggregator.java:149-155 | row i is the i-th listed group's key followed by its aggregate |
| Aggregation.AggregateIterator.Open | src/java/simpledb/IntegerAggregator.java:140-157 | without grouping, one row holding the aggregate; with grouping, one row per group appended to the outputs. A missing no-group value or outputs nulled by `close` is a NullPointerException |
| Aggregation.AggregateIterator.HasNext | src/java/simpledb/IntegerAggregator.java:161-163 | true iff rows remain; a NullPointerException after `close` |
| Aggregation.AggregateIterator.Next | src/java/simpledb/IntegerAggregator.java:166-173 | the next row, which is consumed, or NoSuchElementException at the end, or NullPointerException after `close` |
| Aggregation.AggregateIterator.Rewind | src/java/simpledb/IntegerAggregator.java:176-179 | every row remains again |
| Aggregation.AggregateIterator.Close | src/java/simpledb/IntegerAggregator.java:187-190 | the outputs are dropped |
| Aggregation.IntegerAggregator.MergeTupleIntoGroup | src/java/simpledb/IntegerAggregator.java:57-119 | the three maps become `MergeValue`'s result for the tuple's group key and aggregate value; the state invariant is kept |
| Aggregation.IntegerAggregator.Iterator | src/java/simpledb/IntegerAggregator.java:129-136 | `iterator` returns a fresh result iterator, grouped exactly when the aggregator groups, with empty outputs and its cursor at 0 |
| Aggregation.StringAggregator.MergeTupleIntoGroup | src/java/simpledb/StringAggregator.java:41-55 | any operator but COUNT is an IllegalArgumentException with nothing changed; COUNT bumps the group's count |
| Aggregation.StringAggregator.Iterator | src/java/simpledb/StringAggregator.java:65-70 | `iterator` returns a fresh result iterator, grouped exactly when the aggregator groups, with empty outputs and its cursor at 0 |
| Joins.Concat | src/java/simpledb/Join.java:210-216 | a merged tuple has as many fields as its two parts together |
| Joins.NestedLoopMembers | src/java/simpledb/Join.java:205-221 | the nested-loop join emits `t1 ++ t2` for exactly the pairs of child tuples the predicate accepts |
| Joins.BucketsAreKeyGroups | src/java/simpledb/Join.java:173-181 | each bucket holds the build tuples with its key, in build order, and there is a bucket for exactly the keys that occur |
| Joins.WithKeyMembers | src/java/simpledb/Join.java:173-181 | a bucket holds exactly the build tuples with its key |
| Joins.BucketMatchesMembers | src/java/simpledb/Join.java:189-201 | probing a bucket emits `bucket ++ probe` for exactly the bucket tuples the predicate accepts with the probe tuple first |
| Joins.ProbeMembers | src/java/simpledb/Join.java:183-203 | probing emits `b ++ p` for exactly the build and probe tuples with equal join fields that the predicate accepts as `(p, b)` |
| Joins.HashJoinMembers | src/java/simpledb/Join.java:153-203 | with the first child no larger, the hash join emits `t1 ++ t2` for the pairs with equal join fields the predicate accepts as `(t2, t1)`. With the first child larger, it emits `t2 ++ t1` for those it accepts as `(t1, t2)` |
| Joins.JoinConforms | src/java/simpledb/Join.java:77-80 | nested-loop results follow the joined descriptor (first child's, then second's), and so do hash-join results when the first child is no larger; otherwise their fields come in the swapped order |
| Joins.CountTuples | src/java/simpledb/Join.java:141-149 | counting a child visits each of its tuples once |
| Joins.MergeTuples | src/java/simpledb/Join.java:192-198 | the copy loops build the first tuple's fields followed by the second's |
| Joins.BuildTable | src/java/simpledb/Join.java:173-181 | the build loop produces exactly `Buckets` of the build side |
| Joins.ProbeTable | src/java/simpledb/Join.java:183-203 | the probe loop produces exactly `Probe` of the probe side against the table |
| Joins.NestedLoopJoin | src/java/simpledb/Join.java:205-221 | the nested loops produce exactly `NestedLoop` of the two children |
| Joins.Join.GetTupleDesc | src/java/simpledb/Join.java:77-80 | the first child's descriptor followed by the second's |
| Joins.Join.Open | src/java/simpledb/Join.java:131-222 | the build side is the second child exactly when the first has more tuples. For `=` the table is the build side's buckets and the buffer the hash join; otherwise the buffer is the nested-loop join |
| Joins.Join.Rewind | src/java/simpledb/Join.java:299-307 | rewinding recomputes the whole result from the start |
| Joins.Join.FetchNext | src/java/simpledb/Join.java:327-363 | the oldest buffered tuple, removed from the buffer, or none once the buffer is empty |

## Left out

- Threads, `synchronized`, the lock manager's polling loop with its sleep and timeout, and the deadlock timer are not modelled. `acquireLock` is one grant attempt: in a sequential model, a retry against unchanged tables gives the same answer.
- HeapPage's slot header, its byte encoding and its `iterator`: a page is its id and a sequence of optional tuples. The page serialisation is a parameter of `HeapFile`, and HeapPage.java is not part of this model.
- Transaction identity: `BufferPool.AbortOthers` skips the requester by comparing `TransactionId` values, while the source compares references (`curr_tid != tid`, BufferPool.java:118). The two agree as long as each transaction is represented by one TransactionId object.
- Page object identity: the FIFO list holds page ids, and a page is a value. `discardPage` matches list entries by the cached page; the model matches them by id, which amounts to assuming HeapPage compares pages by id. If it compares by object identity instead, then after an abort has put a before-image page into the cache (BufferPool.java:226) the FIFO list still holds the old object, `discardPage` removes no list entry, and eviction can stall while the cache grows past `numPages`; the model does not capture that.
- The one place where page identity shows in the model is the cache update after an insert or delete: `Buffering.Changed` says whether a page handed back is the cached object itself, since only then does the in-place change reach the cache when tid holds a lock.
- The catalog, the log file and the files on disk are fields of `BufferPool`: a map from table id to byte image, and a list of log events. I/O errors other than the ones the code raises itself are not modelled.
- `restorePage` and `restorePages` are not part of this model: nothing in the modelled core calls them.
- `LockManager.ReleaseDiscardPage` iterates over a snapshot of the reader set. The source removes readers from the set it is iterating over, which can raise ConcurrentModificationException with two or more readers; that exception is not modelled.
- `Storage.HeapFile.InsertTuple` and `Storage.HeapFile.DeleteTuple` take the pages the buffer pool would return as a parameter (`fetch`), which cannot fail. The buffer-pool call, with its locking and eviction, is modelled separately by `BufferPool.GetPage`. A TransactionAbortedException or DbException that `getPage` raises propagates out of `insertTuple` and `deleteTuple` in the source (HeapFile.java:120, 148); the model does not carry it.
- `BufferPool.InsertTuple` and `BufferPool.DeleteTuple` take the pages the heap file returned as a parameter; the call into the heap file is modelled by `HeapFile.InsertTuple`/`DeleteTuple`.
- `Storage.HeapFile.ReadPage` and `Buffering.BufferPool.LoadPage` (and so `GetPage`) read at the corrected 64-bit offset of the finding below; the read as written, with its 32-bit offset, is `Storage.ReadPageBytesInt32`, which agrees with it whenever `pageNumber * pageSize` fits in 32 bits (`IsInt32`) and may differ outside that range, for products above 2^31 - 1 and below -2^31 alike.
- The page `Storage.HeapFile.InsertTuple` appends is written to the heap file's own byte image, with no log record before it, as in the source. `BufferPool.files` is a separate image, so that write reaches neither `BufferPool.files` nor `BufferPool.events`: the write-ahead discipline proved for `events` covers the buffer pool's own page writes only, and the unlogged append is outside it.
- `Storage.FirstEmpty` picks the lowest empty slot. Which slot HeapPage's `insertTuple` fills is HeapPage's choice, and HeapPage.java is not part of this model.
- `Storage.HeapFileIterator` reads the file's pages as a fixed list taken when it is created (through `fetch`, which cannot fail), and its tuple lists are `PageTuples` of those pages; pages changed during iteration are not seen. The source fetches each page through `getPage` when `open` or `hasNext` reaches it (HeapFile.java:193-194, 210-211): that call takes a READ_WRITE lock on every page visited, and a TransactionAbortedException or DbException it raises propagates out of `open` and `hasNext`. Neither the locks nor those exceptions are modelled.
- `Storage.PageCount` computes `Math.ceil` exactly on integers; the floating-point division it goes through is not modelled.
- Aggregator.java's `Op` enumeration is not part of this model. The five operators MIN, MAX, SUM, AVG and COUNT are modelled; others would fall through the `switch` and change nothing.
- `IntegerAggregator.MergeTupleIntoGroup` requires the aggregate field to hold an `IntField` with a 32-bit value. The source parses the field's string form with `parseInt`, so any other field is a NumberFormatException there.
- Field indices out of range are required away rather than modelled. `IntegerAggregator.MergeTupleIntoGroup` (through `Mergeable`) and `StringAggregator.MergeTupleIntoGroup` require the group-by index, and for the integer aggregator the aggregate index, to lie inside the tuple. `Join`'s equality path requires every child tuple to have its join field (`Join.Valid`). The source indexes the tuple's field array there (IntegerAggregator.java:60-63, StringAggregator.java:45, Join.java:177-187), so an index outside it raises an index exception that the model does not represent.
- `TupleDesc` is reduced to a list of field types in `Join` and left out of the aggregators: the iterators' `getTupleDesc` is not modelled. On the hash path, the merged tuple's descriptor is built probe-first while its fields are bucket-first; only the fields are modelled.
- `Aggregation.AggregateIterator.Open` takes the aggregator's map as a parameter; the anonymous iterator class reads it from the enclosing aggregator.
- Join's hash path follows the code where it disagrees with the `fetchNext` documentation (Join.java:315-322), which promises the first child's fields first: with the first child larger, the hash join emits the second child's fields first, and with the first child no larger it passes the predicate the second child's tuple first. `Joins.HashJoinMembers` states both cases as written.
- Join's children are modelled by the sequences of tuples their iterators yield, and the predicate by an arbitrary function of two tuples plus a flag for `=`. The children's `open`, `rewind` and `close` calls and Join's `close` change no modelled state, so `close` has no member of its own.
- `Aggregation.MergeAllReference` is stated for fewer than 2^31 merges of 32-bit values. Beyond that the COUNT and AVG counters wrap, and the source's behaviour there is not described.

## Findings

| source | as written | input that shows it | evidently intended | confidence | as-written member | corrected member |
|---|---|---|---|---|---|---|
| src/java/simpledb/HeapFile.java:75 | `readPage` computes the page offset as an `int` product, while `writePage` uses a `long` | page 524288 of 4096-byte pages: written at offset 2^31, read back at offset -2^31, which fails with IllegalArgumentException. Page 1048576: written at offset 2^32, read back at offset 0, which returns page 0 | compute the read offset in 64 bits, like the write, so a page written can be read back | not executed | Storage.ReadPageBytesInt32, Storage.Int32ReadLosesPage, Storage.Int32ReadAliasesPageZero | Storage.ReadPageBytes, Storage.ReadAfterWrite |
