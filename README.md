# A verified model of myraft's log and replication core

This project models, in Dafny, the log and replication core of the myraft C++ Raft library:

- `EntrySlice`: a non-owning view of consecutive log entries.
- The `Storage` query interface and its error codes.
- `Unstable`: the in-memory tail of not-yet-durable entries, kept in buckets of 1000 slots, plus a pending snapshot.
- `RaftLog`: Storage, the unstable tail and the `committed`/`applied` watermarks.
- `Progress`: the leader's per-follower Probe/Replicate/Snapshot state machine with its `Inflights` window.
- `ReadOnly`: the read-index request queue.
- The single-threaded FIFO `UnsafeQueue`.

Modules, one per file:

- `RaftTypes` (`types.dfy`): entries, snapshots, the message fields the core reads, and consecutive numbering of entry runs.
- `EntrySlices` (`entry_slice.dfy`): the view datatype, with `At`, `Size` and the sub-view constructor `SubSlice`.
- `RaftStorage` (`storage.dfy`): the error taxonomy, `ErrorString`, and Storage as the value of its answers.
- `Unstables` (`unstable.dfy`): class `Unstable`.
  - Fields: `first`, `last`, `snapshot` and the bucket map `buckets` (a `map<nat, seq<Entry>>`).
  - A ghost `Contents` holds the tail in index order.
  - `Valid()` says that bucket `BaseIndex(i)`, slot `i - BaseIndex(i)`, holds `Contents[i - first]`.
  - The bucket loops are proved against `Contents`.
- `RaftLogs` (`raftlog.dfy`): class `RaftLog` over a constant `Storage` and an `Unstable`.
  - The queries are functions.
  - The writers are methods with `modifies`.
  - `Valid()` is the watermark invariant.
- `Progresses` (`progress.dfy`): classes `Inflights` and `Progress`.
- `ReadOnlies` (`read_only.dfy`): class `ReadOnly`.
  - The FIFO of tokens is a `seq<string>` and the statuses are a `map`.
  - `Valid()` says every queued token is distinct and the queued tokens are exactly the map's keys.
- `UnsafeQueues` (`unsafe_queue.dfy`): class `UnsafeQueue<T>`.

Integers are unbounded `nat`. Every branch the source marks as fatal (`//Panic`, `//Panicf`) is a `requires`: the caller must not reach it.

Where the headers and the code differ, the model follows the code:

- unstable.h:25 declares `StableTo`'s term as `int64_t`, while unstable.cc:52 uses `uint64_t`. The model uses one unsigned term.
- The `const` qualifiers that differ between unstable.h and unstable.cc do not matter here. Queries are functions; writers are methods.

In two places the model follows the evident intent instead of the code:

- read_only.cc:16-18 writes through a map slot that holds a null `unique_ptr`. `ReadOnly.AddRequest` creates the status record the code evidently meant to fill.
- progress.cc:83-86 can move a probe's `next_` to or below `match_`. `Progress.MaybeDecrease` keeps it above the match; see "Findings".

The log's watermark invariant `applied <= committed <= LastIndex()` is part of `RaftLog.Valid()`, and every writer keeps it. The follower invariant `matchIndex < nextIndex` is part of `Progress.Valid()`.

## Model

| member | source | states |
|---|---|---|
| `EntrySlices.EntrySlice.At` | raft/entry_slice.h:27-29 | element `i` of a view is an entry of the backing sequence; for an in-range view it is element `i` of `View()`, i.e. backing element `first + i` |
| `EntrySlices.EntrySlice.Size` | raft/entry_slice.h:31 | the size given at construction; for an in-range view it is the length of `View()` |
| `EntrySlices.SubSlice` | raft/entry_slice.h:15-18 | a sub-view shares the backing sequence, its offset is the sum of the offsets, its size is the one given, and its element `i` is element `first + i` of the outer view |
| `EntrySlices.SubSliceView` | raft/entry_slice.h:15-18 | a sub-view taken inside an in-range view is in range and shows exactly the corresponding slice of the outer view |
| `EntrySlices.ConsecutiveAt` | raft/entry_slice.h:27-29 | in a view numbered from `start`, element `k` has index `start + k` |
| `RaftStorage.ErrorString` | raft/storage.h:25-35 | each of the five error codes maps to its fixed message, and only OK maps to "OK" |
| `RaftStorage.ErrorStringInjective` | raft/storage.h:25-35 | distinct error codes have distinct messages |
| `Unstables.BaseIndex` | raft/unstable.h:42 | the bucket base of `i` is a multiple of 1000 with `base <= i < base + 1000` |
| `Unstables.BaseIndexOfBucket` | raft/unstable.h:42 | every index of an aligned bucket `[base, base + 1000)` has that bucket as its base |
| `Unstables.BaseIndexMonotonic` | raft/unstable.h:42 | a later index never has an earlier bucket |
| `Unstables.TruncateAndAppendTerms` | raft/unstable.cc:80-93 | after a truncate-and-append from `after`, the tail is numbered from `min(first, after)`, every appended entry's term is answered at its index, and every index below `after` keeps the term it had |
| `Unstables.DropBuckets` | raft/unstable.cc:59-62 | the erase loop removes exactly the aligned buckets in `[BaseIndex(first), BaseIndex(index + 1))`, keeps every other bucket unchanged, and keeps every bucket at or above the limit |
| `Unstables.DropStable` | raft/unstable.cc:58-64 | after freeing the buckets wholly at or below `index`, the map still stores the tail from `index + 1` on and keeps only unchanged buckets |
| `Unstables.WriteEntries` | raft/unstable.cc:107-121 | the nested fill loops, creating a bucket on first use, leave the map storing the old tail followed by the entries of the view |
| `Unstables.Unstable.constructor` | raft/unstable.h:12 | a new tail starting at `f` is empty: `last == f - 1`, no snapshot, no entries |
| `Unstables.Unstable.Size` | raft/unstable.h:35 | `last + 1 - first` is the number of entries in the tail |
| `Unstables.Unstable.MaybeFirstIndex` | raft/unstable.cc:5-12 | found exactly when a snapshot is pending, and then it is the snapshot index + 1 (at most `first`) |
| `Unstables.Unstable.MaybeLastIndex` | raft/unstable.cc:14-26 | the index of the last tail entry when the tail is non-empty, else the pending snapshot's index, else not found |
| `Unstables.Unstable.MaybeTerm` | raft/unstable.cc:28-41 | the snapshot's term at the pending snapshot's index, else the term of the tail's entry at an index in `[first, last]` (read from bucket `BaseIndex(index)`), else not found |
| `Unstables.Unstable.PendingSnapshot` | raft/unstable.cc:43-50 | a pending snapshot lies below the tail and its term is what `MaybeTerm` answers at its index |
| `Unstables.Unstable.StableTo` | raft/unstable.cc:52-65 | only when the tail holds `term` at an `index >= first` does `first` advance to `index + 1`, dropping exactly the entries up to `index`; otherwise nothing changes, so a second identical call is a no-op. Only buckets wholly below the new `first` are freed and the tail stays readable |
| `Unstables.Unstable.StableSnapTo` | raft/unstable.cc:67-71 | the pending snapshot is cleared exactly when its index is the argument; nothing else changes |
| `Unstables.Unstable.Restore` | raft/unstable.cc:73-78 | the snapshot becomes pending, the tail is emptied, `first == snap.index + 1` and `last == snap.index` |
| `Unstables.Unstable.TruncateAndAppend` | raft/unstable.cc:80-93 | for a first new index `a`: the tail becomes its first `a - first` entries (none when `a <= first`) followed by the new entries (the old `Below(a)` plus the new entries), `first` becomes `min(first, a)`, and `last == a + count - 1` |
| `Unstables.Unstable.Below` | raft/unstable.cc:80-93 | the entries of the tail below a given index are a prefix of the tail; this is what a truncate-and-append keeps |
| `Unstables.Unstable.Append` | raft/unstable.cc:107-123 | entries continuing the tail are appended to it and `last` grows by their count |
| `Unstables.Unstable.Slice` | raft/unstable.cc:95-105 | given `first <= low <= high <= last + 1` (unstable.cc:125-133), the loop appends exactly the entries `low..high-1` in index order to the output |
| `RaftLogs.ZeroTermOnErrCompacted` | raft/raftlog.cc:209-220 | the term on OK, 0 on ErrCompacted; any other error is fatal |
| `RaftLogs.RaftLog.constructor` | raft/raftlog.cc:303-321 | combined with the constructor at raftlog.cc:9-14: the tail starts right after the last stored index, both watermarks sit at the first stored index - 1, and the log is valid |
| `RaftLogs.RaftLog.FirstIndex` | raft/raftlog.cc:142-153 | the pending snapshot's index + 1, else Storage's first index; always at least 1 |
| `RaftLogs.RaftLog.LastIndex` | raft/raftlog.cc:155-166 | the end of a non-empty tail, else the pending snapshot's index, else Storage's last index |
| `RaftLogs.RaftLog.Term` | raft/raftlog.cc:177-199 | `(OK, 0)` outside `[FirstIndex() - 1, LastIndex()]`. Inside, the unstable tail's term when it knows one, otherwise Storage's answer. Only OK, ErrCompacted and ErrUnavailable come back, and an error carries term 0 |
| `RaftLogs.RaftLog.MatchTerm` | raft/raftlog.cc:88-96 | true iff `Term(index)` is `(OK, term)`; a match with a non-zero term lies inside `[FirstIndex() - 1, LastIndex()]` |
| `RaftLogs.RaftLog.LastTerm` | raft/raftlog.cc:168-175 | the log matches `LastTerm()` at `LastIndex()`, and with a non-empty tail it is the last tail entry's term |
| `RaftLogs.RaftLog.IsUpToData` | raft/raftlog.cc:83-86 | true iff `term > LastTerm()`, or `term == LastTerm()` and `index >= LastIndex()` |
| `RaftLogs.UpToDateTotalOrder` | raft/raftlog.cc:83-86 | the up-to-date comparison is a total order on (last term, last index): any two ends compare, only equal ends compare both ways, and it is transitive |
| `RaftLogs.RaftLog.Snapshot` | raft/raftlog.cc:98-104 | the pending snapshot with OK when there is one, otherwise Storage's answer |
| `RaftLogs.RaftLog.NextOffset` | raft/raftlog.cc:128 | the first index to hand out is `applied + 1` or `FirstIndex()`, whichever is larger: it is one of the two and not below either |
| `RaftLogs.RaftLog.HasNextEntries` | raft/raftlog.cc:137-140 | true iff `applied < committed` and `FirstIndex() <= committed`, i.e. `[NextOffset(), committed]` is non-empty |
| `RaftLogs.RaftLog.MismatchFrom` | raft/raftlog.cc:238-245 | the first position at or after `k` whose entry the log does not match: all entries before it match, and the one at it does not |
| `RaftLogs.RaftLog.FindConflict` | raft/raftlog.cc:236-249 | the scan returns the index of the first entry whose term the log does not hold, or 0 when all match |
| `RaftLogs.RaftLog.ConflictPosition` | raft/raftlog.cc:236-249 | for a request numbered right after `index`, the conflict index is 0 exactly when every entry matches; otherwise it is the first mismatching entry's index, `index + 1` plus its position |
| `RaftLogs.RaftLog.CommitTo` | raft/raftlog.cc:56-63 | `committed` becomes `max(committed, c)` and never decreases; committing past `LastIndex()` is fatal, so `applied <= committed <= LastIndex()` is kept |
| `RaftLogs.RaftLog.ApplyTo` | raft/raftlog.cc:65-73 | 0 is ignored; otherwise `applied` becomes `a`, which must lie in `[applied, committed]`; `committed` is untouched and the watermark invariant is kept |
| `RaftLogs.RaftLog.StableTo` | raft/raftlog.cc:75-77 | the tail gives up the entries up to `index` exactly when it holds `term` there; Storage must already hold them and, when the whole tail goes, no snapshot may still be pending (`Persisted`), and then the log keeps its first and last index and answers the same `Term` at every index, so the watermark invariant is kept |
| `RaftLogs.RaftLog.StableKeepsLog` | raft/raftlog.cc:75-77 | moving persisted entries from the tail to Storage changes neither `FirstIndex()`, `LastIndex()` nor any `Term(i)` |
| `RaftLogs.RaftLog.StableSnapTo` | raft/raftlog.cc:79-81 | the pending snapshot is dropped exactly when its index is the argument, and then Storage must reach that index; the tail is untouched and the watermark invariant is kept |
| `RaftLogs.RaftLog.Restore` | raft/raftlog.cc:39-43 | the snapshot becomes committed and pending, the log spans exactly up to its index, the log matches the snapshot's term at its index, and `applied <= committed == LastIndex()` |
| `RaftLogs.RaftLog.MaybeCommit` | raft/raftlog.cc:45-54 | commits `index`, returning true, iff `index > committed` and the term at `index` (0 if compacted) equals `term`; otherwise nothing changes |
| `RaftLogs.RaftLog.Append` | raft/raftlog.cc:222-234 | writing at or below `committed` is fatal. After a non-empty append the log ends at the last new index, matches every new entry, and keeps the term of every older index below the first new one. The pending snapshot and `FirstIndex()` are unchanged, and the tail now holds its old entries below the first new index followed by the new entries (`WroteFrom`) |
| `RaftLogs.RaftLog.AppendedLog` | raft/raftlog.cc:232-233 | after a truncate-and-append of a consecutive run starting at most one past the tail, the log ends at the run's last index and matches every entry of the run |
| `RaftLogs.RaftLog.AppendedKeeps` | raft/raftlog.cc:232-233 | the same truncate-and-append keeps `FirstIndex()` and the term of every index below the run's first entry that the log held |
| `RaftLogs.RaftLog.TailEntriesMatch` | raft/raftlog.cc:232-233 | when the tail answers each new entry's term and the log reaches the last of them, the log matches them all |
| `RaftLogs.RaftLog.TermKept` | raft/raftlog.cc:222-234 | when the tail answers the same terms below `after` and the snapshot is unchanged, the log's `Term` is unchanged at every index below `after` it held before |
| `RaftLogs.RaftLog.AppendConflicting` | raft/raftlog.cc:21-30 | a conflict at or below `committed` is fatal; with no conflict nothing is written; with one the log ends at `index + count`. Afterwards the log matches the entry before the run and every entry of the run, and every index before the conflict keeps its term. The pending snapshot and `FirstIndex()` are unchanged. After a conflict at position `j` of the run, the conflict index is `index + 1 + j`, and the tail holds its old entries below the conflict followed by the run from `j` on |
| `RaftLogs.RaftLog.NothingToAppend` | raft/raftlog.cc:21-23 | with no conflict every entry of the request already matches and the log reaches `index + count`, so nothing needs writing |
| `RaftLogs.RaftLog.BeforeConflict` | raft/raftlog.cc:26-29 | when the log matches the first `j` entries of a request, they lie below the write position `index + 1 + j` and inside the log |
| `RaftLogs.RaftLog.AppendFrom` | raft/raftlog.cc:27-29 | writing the sub-view from the conflict on leaves the log ending at `index + count`, matching every entry of the run, and keeping the term of every index before the conflict. The pending snapshot and `FirstIndex()` are unchanged, and the tail holds its old entries below the conflict followed by the run from the conflict on |
| `RaftLogs.RaftLog.MaybeAppend` | raft/raftlog.cc:16-37 | returns false and changes nothing unless the log holds `term` at `index`. When accepted: the new last index is `index + count`, and after a conflict `LastIndex()` is exactly that; nothing is written without a conflict; every index before the conflict keeps its term; the log matches `(index, term)` and every entry (log matching); `committed` becomes `max(committed, min(committedArg, newLastIndex))`. The pending snapshot and `FirstIndex()` never change. After a conflict, the tail (what `UnstableEntries` hands out to be persisted) holds its old entries below the conflict index followed by the request's entries from the conflict on |
| `RaftLogs.RaftLog.SliceResult` | raft/raftlog.cc:251-283 | ErrCompacted whenever `low < FirstIndex()`. Otherwise, from below the tail: Storage's ErrCompacted answer is passed through, an OK answer from Storage is a prefix of the result, and a short Storage read is the whole result. An OK result holds at most `high - low` entries numbered from `low`, all of them when Storage returned in full, and every one at or above the tail's first index is the tail's entry |
| `RaftLogs.RaftLog.Slice` | raft/raftlog.cc:251-283 | reading Storage first, then the tail only after a full Storage read, yields exactly `SliceResult(low, high)` |
| `RaftLogs.RaftLog.MustCheckOutOfBounds` | raft/raftlog.cc:285-301 | ErrCompacted iff `low < FirstIndex()`; `low > high` and `high > LastIndex() + 1` are fatal |
| `RaftLogs.RaftLog.GetEntries` | raft/raftlog.cc:106-114 | nothing, with OK, past the last index; otherwise the slice `[index, min(index + max, LastIndex() + 1))`, at most `max` entries numbered from `index` |
| `RaftLogs.RaftLog.UnstableEntries` | raft/raftlog.cc:116-125 | the whole unstable tail in index order |
| `RaftLogs.RaftLog.NextEntries` | raft/raftlog.cc:127-135 | the committed but unapplied entries, numbered from `NextOffset()`; the output is untouched when there are none |
| `Progresses.AckedCount` | raft/progress.cc:200-204 | the number of front entries the loop pops: all of them are at most `to`, and the next one, if any, is larger |
| `Progresses.AckedCountAscending` | raft/progress.cc:200-204 | on an ascending window, everything left after popping is larger than `to` and still ascending |
| `Progresses.Inflights.constructor` | raft/progress.h:56 | an empty window of the given capacity |
| `Progresses.Inflights.Full` | raft/progress.h:69 | a valid window that is not full has room for one more |
| `Progresses.Inflights.Push` | raft/progress.cc:195-198 | appends at the back; pushing into a full window is fatal, so the capacity bound is kept |
| `Progresses.Inflights.PopTo` | raft/progress.cc:200-204 | the loop removes exactly the first `AckedCount(queue, to)` entries; on an ascending window what stays is ascending and larger than `to` |
| `Progresses.Inflights.PopFirstOne` | raft/progress.h:66 | removes exactly the oldest entry of a non-empty window |
| `Progresses.Inflights.Clear` | raft/progress.h:67 | empties the window |
| `Progresses.Progress.constructor` | raft/progress.cc:9-20 | starts in Probe, not paused, nothing pending, not recently active, with an empty window and `matchIndex < nextIndex` |
| `Progresses.Progress.Pause` | raft/progress.h:38 | sets `paused` and changes nothing else |
| `Progresses.Progress.Resume` | raft/progress.h:39 | clears `paused` and changes nothing else |
| `Progresses.Progress.OptimisticUpdate` | raft/progress.h:36 | sets only `nextIndex = index + 1`; sending at or above the match keeps `matchIndex < nextIndex` |
| `Progresses.Progress.SnapshotFailure` | raft/progress.h:42 | only zeroes `pendingSnapshot` |
| `Progresses.Progress.NeedSnapshotAbort` | raft/progress.h:43-44 | true iff the follower is in Snapshot and its match has reached the pending snapshot; such a follower is still paused |
| `Progresses.Progress.IsPaused` | raft/progress.cc:92-103 | Probe: paused iff `paused`; Replicate: paused iff the window is full; Snapshot: always paused. A Replicate follower that is not paused has room in its window |
| `Progresses.Progress.BecomeProbe` | raft/progress.cc:22-36 | `nextIndex` becomes `max(match + 1, pendingSnapshot + 1)` when leaving Snapshot, else `match + 1`. Then: Probe, not paused, nothing pending, window empty, match untouched, and `IsPaused()` is false |
| `Progresses.Progress.BecomeReplicate` | raft/progress.cc:38-44 | `nextIndex = match + 1`, Replicate, not paused, nothing pending, window empty, match untouched |
| `Progresses.Progress.BecomeSnapshot` | raft/progress.cc:46-51 | Snapshot with the given pending index, not paused, window empty, match and `nextIndex` untouched, and `IsPaused()` holds |
| `Progresses.Progress.MaybeUpdate` | raft/progress.cc:53-67 | true iff `match < index`, and then `match = index` and sending resumes; `nextIndex` becomes `max(nextIndex, index + 1)`, so it never decreases; `matchIndex < nextIndex` is kept |
| `Progresses.Progress.MaybeDecrease` | raft/progress.cc:69-90 | in Replicate, accepts `rejected > match` and then sets `nextIndex = match + 1`. Elsewhere, accepts only `rejected == nextIndex - 1`, then sets `nextIndex = DecreasedNext(match, rejected, last)` and resumes. An accepted rejection never raises `nextIndex`, a refused one changes nothing, and `matchIndex < nextIndex` is kept |
| `Progresses.DecreasedNext` | raft/progress.cc:83-86 | the corrected next probe stays above the match, equals the source's `max(1, min(rejected, last + 1))` whenever that is above the match, and is at most `rejected + 1` |
| `Progresses.DecreasedNextAsWritten` | raft/progress.cc:83-86 | the source's next probe after an accepted rejection: at least 1, at most `max(1, rejected)`, and at most `last + 1` unless floored to 1 |
| `Progresses.DecreasedNextBelowMatch` | raft/progress.cc:79-86 | with match 5 and next 7, a rejection of 6 reporting last index 3 is accepted, and the source's rule moves next to 4, below the match |
| `Progresses.Progress.ProgressAppResp` | raft/progress.cc:129-159 | always marks the follower recently active, and returns whether `MaybeDecrease` or `MaybeUpdate` fired; when neither did, nothing else changes. Accepted rejection: Replicate becomes Probe at `match + 1`; other states stay put with `nextIndex = DecreasedNext(...)` and sending resumed. Successful update: Probe becomes Replicate at `index + 1`; Replicate raises `nextIndex` and pops the window up to `index`; Snapshot becomes Probe at `index + 1` once `NeedSnapshotAbort` holds, and otherwise stays with `nextIndex` raised. Every branch states the full new state |
| `Progresses.Progress.ProgressHeartbeatResp` | raft/progress.cc:161-170 | recently active and resumed; exactly one slot is freed, and only in Replicate with a full window |
| `Progresses.Progress.ProgressSnapStatus` | raft/progress.cc:172-185 | ignored outside Snapshot; otherwise it ends in Probe and paused. On reject the pending snapshot is cleared first, so probing restarts at `match + 1` |
| `Progresses.Progress.ProgressUnreachable` | raft/progress.cc:187-193 | a Replicate follower falls back to Probe at `match + 1` with nothing pending; any other follower is left exactly as it was |
| `ReadOnlies.Position` | raft/read_only.cc:39-49 | the first position of a queued token: the token is there and not earlier |
| `ReadOnlies.FindToken` | raft/read_only.cc:37-49 | the scan finds the token iff it is queued, and then counts up to and including its position |
| `ReadOnlies.TakeThrough` | raft/read_only.cc:51-58 | the pop loop returns the statuses of the first `count` tokens in queue order, removes exactly those tokens and statuses, and keeps the bookkeeping invariant |
| `ReadOnlies.ReadOnly.constructor` | raft/read_only.cc:7-8 | the read option is fixed and nothing is pending |
| `ReadOnlies.ReadOnly.AddRequest` | raft/read_only.cc:10-21 | a token already pending changes nothing; a new one gets `(request, index, no acks)` and goes to the back of the queue; queued tokens stay equal to the map keys |
| `ReadOnlies.ReadOnly.RecvAck` | raft/read_only.cc:23-31 | an unknown token yields 0 and changes nothing. A known one adds the sender and yields `|acks| + 1`; a repeated ack from the same sender changes nothing |
| `ReadOnlies.ReadOnly.Advance` | raft/read_only.cc:33-61 | when the token is the k-th queued, returns the first k statuses in queue order and removes exactly those from queue and map, leaving the rest in order; an unqueued token returns nothing and changes nothing |
| `ReadOnlies.ReadOnly.LastPendingRequestCtx` | raft/read_only.cc:63-69 | "" when nothing is queued, else the most recently queued token, which is still pending |
| `UnsafeQueues.TakeFront` | util/unsafe_queue.h:46-49 | the move loop takes the first `min(max, size)` values in order, and the taken values followed by the rest are the original queue |
| `UnsafeQueues.UnsafeQueue.constructor` | util/unsafe_queue.h:19 | a new queue is empty |
| `UnsafeQueues.UnsafeQueue.Push` | util/unsafe_queue.h:27-30 | appends at the back and returns true iff the queue was empty before |
| `UnsafeQueues.UnsafeQueue.Pop` | util/unsafe_queue.h:32-36 | returns the front value and removes it; the queue must not be empty |
| `UnsafeQueues.UnsafeQueue.BatchPop` | util/unsafe_queue.h:38-53 | a new queue holding the first `min(max, size)` values; result followed by what remains is the original. When everything fits, it all moves and the queue is left empty |
| `UnsafeQueues.UnsafeQueue.Size` | util/unsafe_queue.h:55-57 | the count is 0 exactly when the queue is empty |
| `UnsafeQueues.UnsafeQueue.Empty` | util/unsafe_queue.h:59-61 | `Empty()` iff `Size() == 0` |

## Left out

- Storage state: Storage is a constant value, the answers of one storage at one moment. The log only reads it, and the backends that write it are not part of this model. Four caller obligations stand in for keeping the real storage in step with the tail:
  - `RaftLogs.RaftLog.StableTo` requires Storage to hold every entry it drops from the tail, with its term. When the whole tail is dropped, Storage must end at `index` (`Persisted`).
  - `RaftLogs.RaftLog.StableSnapTo` requires, when the pending snapshot is dropped, that Storage already starts at or before the tail and no later than `committed + 1`, and that it reaches the snapshot's index.
  - `RaftLogs.RaftLog.MaybeAppend` requires a conflicting index of at most the tail's last index + 1.
  - `RaftLogs.RaftLog.Slice` requires its range to stay within the tail.
- `RaftStorage.Storage.Valid` excludes the storage errors the log treats as fatal. These are a failing FirstIndex or LastIndex, and Term errors other than ErrCompacted or ErrUnavailable. It also assumes three things about any storage backend, which are not part of this model:
  - the first index is at least 1;
  - the first index is at most one past the last index;
  - a successful GetEntries(low, high) returns at most `high - low` entries, numbered from `low`.
- `RaftLogs.WellFormedAppend` states what a leader's append request carries: entries numbered right after `index` with terms of at least 1. Messages themselves are not modelled.
- `Unstables.Unstable.TruncateAndAppend` requires the first new index to be at most `last + 1`. Given a gap, the source would move `last_` past slots that were never written.
- `Unstables.Unstable.constructor` requires `first >= 1`, so that `last = first - 1` does not wrap.
- Integer widths: uint64 wrap-around (at `first_index - 1`, `next_ - 1`, `last_ + 1`), the `int` fields of EntrySlice, and the uint32 result of RecvAck are not modelled. All integers are unbounded.
- `NewRaftLog` and the `RaftLog` constructor are one constructor. A null storage pointer is not representable.
- Out-parameters: each C++ query that reports through an out-parameter plus a bool or error code returns a `Reply` or `Option`. The value left in the out-parameter on failure is not modelled (it is 0 in `Term`).
- `RaftLogs.RaftLog.NextEntries`: `acc` stands for the caller's output buffer, which the source leaves untouched when there is nothing to hand out.
- `UnsafeQueues.UnsafeQueue.BatchPop` has no default argument. The source's default is the largest `size_t`.
- `String()` methods, loggers, `SpinQueue`, `Storage::InitialState` and the transport channel are formatting, I/O or concurrency, and are not part of this model.
- `isLearner` and the read option are stored and never read, as in the source.
- `RaftLogs.RaftLog.StableTo` also requires, when it drops the whole tail, that no snapshot is pending: `StableSnapTo` must come first. This is a call order, not a storage fact, and the source accepts the other order. There, unstable.cc:14-26 answers the pending snapshot's index as the last index once the tail is empty, so raftlog.cc:155-166 moves `LastIndex()` back from the tail's end to the snapshot's index. `Term` then answers 0 for the stabilized indices above it until `StableSnapTo` runs. For example, restore snapshot 10, append 11..15, commit 15 and stabilize 15: the last index falls to 10, below the commit index 15. The model does not cover that intermediate state, in which the watermark invariant fails.
- `RaftLogs.RaftLog.Restore` requires `applied <= snap.index`. raftlog.cc:41 sets `committed_` to the snapshot's index unconditionally, so a snapshot below `applied` would leave `applied > committed`. A caller is expected to restore only snapshots newer than what it has applied; the Raft node that calls `Restore` is not part of this model.
- `Progresses.Progress.constructor` requires `matchIndex < nextIndex`: the leader creates a progress with match 0 and next after its last index.
- `Progresses.Progress.OptimisticUpdate` keeps `matchIndex < nextIndex` only for `index >= matchIndex`. The source sets `next_` unconditionally; the leader passes the last index it sent from `nextIndex` on.
- `Progresses.Progress.ProgressHeartbeatResp` requires a non-empty window when it pops a full Replicate window. A window of capacity 0 is always full, and popping its empty deque is undefined behaviour in the source.
- The `Progress` copy constructor and assignment are not modelled: `Progress` holds its `Inflights` by reference.

## Findings

| source | as written | input that shows it | evidently intended | confidence | as-written member | corrected member |
|---|---|---|---|---|---|---|
| raft/progress.cc:83-86 | outside Replicate, an accepted rejection sets the next probe to `min(rejected, last + 1)`, floored at 1, without regard to `match_` | Probe with match 5 and next 7; the follower rejects 6 and reports last index 3; the rejection is accepted and next becomes 4, below the match | the next probe stays above the match (`max(match + 1, min(rejected, last + 1))`), keeping `match < next` | medium, not executed | `Progresses.DecreasedNextAsWritten`, `Progresses.DecreasedNextBelowMatch` | `Progresses.DecreasedNext` |
