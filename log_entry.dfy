/** The values the log buffer handles: return codes, module tags, log entries
    and their byte accounting. The entry type itself (log_entry.h) is not part
    of this model; only what the buffer reads of an entry is kept: its LSN, its
    module and its payload size. */
module LogEntries {

  /** Log sequence number. The source's LSN is a fixed-width integer; here it
      is unbounded (wrap-around is not modelled). */
  type LSN = int

  /** The `int32_t size` parameter of `append`. */
  type Int32 = x: int | -0x8000_0000 <= x < 0x8000_0000

  /** The source's return code: `SUCCESS` or some failure. `OB_FAIL(rc)` is `rc != Success`. */
  datatype RC = Success | Failure(code: nat)

  /** `LogModule`: an opaque tag naming the subsystem that wrote the entry.
      It is built from a `LogModule::Id`, modelled as a plain number. */
  type LogModuleId = nat
  datatype LogModule = LogModule(id: LogModuleId)

  /** A log entry as the buffer sees it. The payload bytes are not modelled. */
  datatype LogEntry = LogEntry(lsn: LSN, logModule: LogModule, size: Int32)

  /** Fixed per-entry header overhead counted by `LogEntry::total_size`.
      Its value is defined outside this model, so it is left abstract: no
      proof here depends on it. */
  const LOG_HEADER_SIZE: nat

  /** `LogEntry::total_size()`: header overhead plus payload size. */
  function TotalSize(e: LogEntry): (r: int)
  {
    LOG_HEADER_SIZE + e.size
  }

  /** Sum of `TotalSize` over a queue of entries. */
  function SumSizes(q: seq<LogEntry>): (r: int)
  {
    if q == [] then 0 else TotalSize(q[0]) + SumSizes(q[1..])
  }

  /** Summing sizes over a concatenation splits into the two sums. */
  lemma {:induction false} SumSizesConcat(a: seq<LogEntry>, b: seq<LogEntry>)
    ensures SumSizes(a + b) == SumSizes(a) + SumSizes(b)
  {
    if a == [] {
      assert a + b == b;
    } else {
      assert (a + b)[1..] == a[1..] + b;
      SumSizesConcat(a[1..], b);
    }
  }

  /** Appending one entry at the tail adds exactly its size. */
  lemma SumSizesSnoc(a: seq<LogEntry>, e: LogEntry)
    ensures SumSizes(a + [e]) == SumSizes(a) + TotalSize(e)
  {
    SumSizesConcat(a, [e]);
    assert SumSizes([e]) == TotalSize(e) + SumSizes([]);
  }

  /** LSNs strictly increase from head to tail (no duplicates). */
  ghost predicate StrictlyIncreasing(q: seq<LogEntry>)
  {
    forall i, j :: 0 <= i < j < |q| ==> q[i].lsn < q[j].lsn
  }
}
