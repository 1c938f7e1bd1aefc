# LogEntryBuffer: the write-ahead log's staging queue

This project models `LogEntryBuffer` in `src/observer/storage/clog/log_buffer.cpp` and proves properties of it. `LogEntryBuffer` is the in-memory queue of the write-ahead log (WAL). Producers call `append`, which hands out the next log sequence number (LSN), builds a log entry and queues it at the tail. A flush driver calls `flush`, which pops entries from the head one at a time and gives each to a `LogFileWriter`. The flush stops at the first failed write and puts the failed entry back at the head. The buffer keeps four pieces of state:

- `current_lsn_`: the last LSN handed out.
- `flushed_lsn_`: the LSN of the last entry written.
- `bytes_`: a running byte total.
- `entries_`: the queue.

Files:

- `log_entry.dfy` (module `LogEntries`): return codes, module tags, the entry value, `TotalSize` and `SumSizes`.
- `log_buffer.dfy` (module `LogBuffer`):
  - `BufferState`, a value view of the four fields, and three invariants on it: `Ordered` (pending LSNs strictly increasing, inside `(flushedLsn, currentLsn]`), `Dense` (the pending LSNs are exactly `flushedLsn + 1 .. currentLsn`) and `Accounted` (`bytes` equals the pending entries' total size);
  - reference definitions `AppendSpec`, `AppendAll` and `FlushSpec`, where `FlushSpec` gives the final state in closed form from the first failing write;
  - the class `LogEntryBuffer`, whose methods update the fields in place. `Append`, `AppendById` and `Flush` are proved equal to their reference definitions; `Flush` is the source's `while` loop, and its invariants carry that proof. `Init`, `Bytes` and `EntryNumber` state their effect on the fields directly.
- `log_buffer_properties.dfy` (module `LogBufferProperties`): lemmas about LSN allocation, order, flushing and byte accounting, plus a failed write and its retry stated as calls on the class (`FailedWriteScenario`).

Three collaborators are handled as follows:

- `LogEntry::init` is code outside this model. Its outcome is a parameter of `Append` (`initRc`), so every proof holds whatever it decides.
- `LogEntry::total_size()` is modelled as `LOG_HEADER_SIZE + size`. `LOG_HEADER_SIZE` is declared without a value, so no proof depends on the header size.
- The writer is an oracle: `writer(i, e)` is the reply to the i-th `write` call of one flush, given entry `e`. This covers writers that depend on the call number (a disk filling up) and writers that depend on the entry.

## Which invariants the code keeps

The model follows the code as written. Every append and every flush keep `Ordered` (`AppendAllKeepsOrdered`, `FlushKeepsOrdered`); every append keeps `Accounted` (`AppendKeepsAccounted`); successful appends and every flush keep `Dense`; `Init` on a fresh buffer establishes all three invariants. Two paths of the code break one of them:

- **A failed `append` uses up an LSN.** `++current_lsn_` runs before `entry.init`, so after a failed build `current_lsn_` has advanced and that LSN never appears in the queue (`FailedAppendLeavesGap`, `AppendAllLsns`). This breaks `Dense` (`FailedAppendBreaksDense`), though `Ordered` still holds. As long as every append succeeds, the LSNs stay dense (`AppendAllKeepsDense`, `FlushKeepsDense`) and a flush that returns `Success` brings `flushed_lsn_` up to `current_lsn_` (`DenseCompleteFlushReachesCurrent`). A flush run right after a failed append leaves `flushed_lsn_` below `current_lsn_`, even when it writes everything (`FailedAppendKeepsFlushedBehind`). Once a later append succeeds and its entry is flushed, `flushed_lsn_` passes over the burnt LSN: line 75 sets it to the later entry's LSN, and no entry ever carried the burnt one (`FlushPassesBurntLsn`).
- **A failed write does not credit `bytes_` back.** `bytes_` is debited at line 65, before the write, and the re-queue path at lines 70-72 never restores it. This breaks `Accounted`: after a failed flush, `bytes_` is short of the pending total by the failed entry's size (`FailedFlushLosesBytes`), and a retry debits that entry a second time (`RetryAfterFailedFlush`). With two entries of sizes 10 and 20 and a writer that rejects the second, `bytes()` reads 0 while that entry is still pending, and minus its total size once a retry has written it (`FailedWriteScenario`).

At line 47, `bytes_ += entry.total_size()` reads `entry` after it has been moved into the deque. The result depends on `LogEntry`'s move semantics, which are not part of this model. The model takes it to be the appended entry's total size.

## Model

| member | source | states |
|---|---|---|
| `LogBuffer.LogEntryBuffer.Init` | src/observer/storage/clog/log_buffer.cpp:22-27 | Both LSN counters become the given LSN. The call always returns `Success`. The queue and `bytes` are untouched. On a fresh buffer (empty queue, zero bytes) it establishes `Ordered`, `Dense` and `Accounted`. |
| `LogBufferProperties.DenseIsOrdered` | src/observer/storage/clog/log_buffer.cpp:37-46 | Dense LSNs are strictly increasing and inside `(flushedLsn, currentLsn]`. |
| `LogBufferProperties.AppendKeepsDense` | src/observer/storage/clog/log_buffer.cpp:37-47 | A successful append keeps the pending LSNs exactly `flushedLsn + 1 .. currentLsn`. |
| `LogBufferProperties.FailedAppendBreaksDense` | src/observer/storage/clog/log_buffer.cpp:37-44 | From dense LSNs, a failed append leaves a state that is not dense: `currentLsn` has moved and the queue has not. |
| `LogBufferProperties.AppendAllKeepsDense` | src/observer/storage/clog/log_buffer.cpp:37-47 | Any series of appends whose entries are all built keeps the LSNs dense. |
| `LogBufferProperties.FlushKeepsDense` | src/observer/storage/clog/log_buffer.cpp:55-76 | Every flush, whatever the writer replies, keeps the LSNs dense. |
| `LogBufferProperties.DenseCompleteFlushReachesCurrent` | src/observer/storage/clog/log_buffer.cpp:53-79 | From dense LSNs, a flush that returns `Success` leaves `flushedLsn == currentLsn`, with `currentLsn` unchanged. |
| `LogBuffer.LogEntryBuffer.AppendById` | src/observer/storage/clog/log_buffer.cpp:29-32 | The `LogModule::Id` overload has exactly the effect of `Append` with the module built from the id. |
| `LogBuffer.LogEntryBuffer.Append` | src/observer/storage/clog/log_buffer.cpp:34-49 | The returned LSN is the old `currentLsn + 1`, and `currentLsn` becomes it even when the build fails. On failure, `Append` returns the build's code and leaves the queue and `bytes` unchanged. On success, exactly one entry with that LSN, module and size is added at the tail, and `bytes` grows by its total size. `flushedLsn` never changes. |
| `LogBuffer.LogEntryBuffer.EntryNumber` | src/observer/storage/clog/log_buffer.cpp:87-90 | The number of queued entries. |
| `LogBuffer.LogEntryBuffer.Bytes` | src/observer/storage/clog/log_buffer.cpp:82-85 | The current value of the byte counter. |
| `LogBuffer.LogEntryBuffer.Flush` | src/observer/storage/clog/log_buffer.cpp:51-80 | The loop's return code, count, list of entries handed to the writer, and final state equal the closed form `FlushSpec`. `currentLsn` is unchanged. |
| `LogBuffer.FirstFailureFrom` | src/observer/storage/clog/log_buffer.cpp:55-72 | The returned index is the first failing write at or after `j`. Every write before it succeeds. If it is inside the queue, the write there fails. |
| `LogBufferProperties.AppendKeepsOrdered` | src/observer/storage/clog/log_buffer.cpp:37-46 | If the pending LSNs are strictly increasing, above `flushedLsn` and at most `currentLsn`, one append keeps all of that. The new LSN exceeds every earlier pending one. |
| `LogBufferProperties.AppendKeepsAccounted` | src/observer/storage/clog/log_buffer.cpp:46-47 | If `bytes` equals the pending total before an append, it still does after, whether the build succeeds or fails. |
| `LogBufferProperties.FailedAppendLeavesGap` | src/observer/storage/clog/log_buffer.cpp:37-44 | A failed append returns its code and LSN `currentLsn + 1`, advances `currentLsn`, and leaves the queue and `bytes` unchanged. The next successful append gets `currentLsn + 2`, and no pending entry carries the burnt LSN. |
| `LogBufferProperties.AppendAllLsns` | src/observer/storage/clog/log_buffer.cpp:37 | A series of n appends returns the LSNs `currentLsn + 1 .. currentLsn + n` in call order, failed calls included. `currentLsn` grows by n and `flushedLsn` does not change. |
| `LogBufferProperties.AppendAllEntries` | src/observer/storage/clog/log_buffer.cpp:39-48 | A series of appends adds at the tail exactly the entries that were built, in call order, and `bytes` grows by their total size. |
| `LogBufferProperties.AppendAllKeepsOrdered` | src/observer/storage/clog/log_buffer.cpp:37-46 | Any series of appends keeps the queue strictly increasing in LSN, with every LSN above `flushedLsn` and at most `currentLsn`. |
| `LogBufferProperties.FlushAllWritten` | src/observer/storage/clog/log_buffer.cpp:53-79 | With a writer that accepts every entry, `Flush` returns `Success` and a count equal to the initial entry count. It writes every entry in queue order and empties the queue. `flushedLsn` becomes the last queued entry's LSN, or stays unchanged if the queue was empty. `bytes` drops by the queue's total size. |
| `LogBufferProperties.FlushStopsAtFirstFailure` | src/observer/storage/clog/log_buffer.cpp:55-72 | If the k-th write is the first to fail, `Flush` returns that code with count k-1. Exactly the first k entries were attempted, head to tail. The queue is the original minus its first k-1 entries, so the failed entry is back at the head. `flushedLsn` is the LSN of entry k-1, or unchanged if k is 1. `bytes` drops by the size of all k attempted entries. |
| `LogBufferProperties.FlushedLsnIsLastWritten` | src/observer/storage/clog/log_buffer.cpp:73-76 | After a flush, `flushedLsn` is the LSN of the last entry whose write succeeded, or unchanged if none did. Every entry counted was written successfully. The call returns `Success` exactly when every entry was written. |
| `LogBufferProperties.FlushKeepsOrdered` | src/observer/storage/clog/log_buffer.cpp:63-76 | A flush keeps `flushedLsn <= currentLsn` and keeps the pending LSNs strictly increasing and above `flushedLsn`. `flushedLsn` never moves backwards. |
| `LogBufferProperties.CompleteFlushKeepsAccounted` | src/observer/storage/clog/log_buffer.cpp:63-79 | If `bytes` equals the pending total, a flush that returns `Success` leaves it equal to the new pending total, which is 0. |
| `LogBufferProperties.FailedFlushLosesBytes` | src/observer/storage/clog/log_buffer.cpp:65-72 | If `bytes` equals the pending total, a failed flush leaves `bytes` below the new pending total by exactly the size of the entry put back at the head. |
| `LogBufferProperties.RetryAfterFailedFlush` | src/observer/storage/clog/log_buffer.cpp:51-80 | After a failed flush, a retry whose writer accepts everything drains the rest in the original order, and the two counts add up to the original queue length. The failed entry is handed to the writer twice. The final state equals that of one clean flush, except that `bytes` is lower by the failed entry's size. |
| `LogBufferProperties.FailedAppendKeepsFlushedBehind` | src/observer/storage/clog/log_buffer.cpp:37-76 | A flush run right after a failed append, whatever the writer replies, leaves `flushedLsn` strictly below `currentLsn`. |
| `LogBufferProperties.FlushPassesBurntLsn` | src/observer/storage/clog/log_buffer.cpp:37-76 | From an empty queue, a failed append (LSN c+1), a successful append (LSN c+2) and a flush that writes its entry leave both `flushedLsn` and `currentLsn` at c+2. Only the entry with LSN c+2 was handed to the writer, so `flushedLsn` has passed over the burnt LSN c+1. |
| `LogBufferProperties.FailedWriteScenario` | src/observer/storage/clog/log_buffer.cpp:22-80 | Stated as calls on the class: init(0), two appends (sizes 10 and 20) that return LSNs 1 and 2, and a flush whose writer rejects LSN 2. That flush returns the failure with count 1, leaving 1 entry pending, `flushedLsn` at 1 and `bytes` at 0. A retry returns `Success` with count 1, leaving 0 entries pending, `flushedLsn` at 2 and `bytes` at minus B's total size. |

## Left out

- The mutex, `lock_guard`, and the atomic `store`/`load` on the counters exist only for thread safety. One sequential caller is modelled. The unlocked `entry_number() > 0` test and the locked `empty()` recheck in `flush` become one emptiness test.
- `LogFileWriter::write` and disk I/O are replaced by the writer oracle.
- The bodies of `LogEntry::init` and `LogEntry::total_size` are in files that are not part of this model. `init`'s outcome is a parameter. `total_size` is an abstract header size plus the payload size.
- The payload bytes, `unique_ptr` ownership and move semantics are not modelled. An entry is its LSN, module and size.
- The `LOG_WARN` call on a failed build is not modelled.
- LSNs, `bytes_`, `count` and `entry_number()` are unbounded integers here. The source's fixed widths are not modelled: 64-bit wrap-around of the counters, and `size_t` cut down to `int32_t` in `entry_number()`.
- The initial field values in the constructor come from `log_buffer.h`, which is not part of this model. The constructor starts with an empty queue and zero counters.
- Blocking inside `write`, and the lock being released around it, cannot be seen by a single caller, so they are not modelled. The order of writer calls is recorded in the ghost `attempted` list.
