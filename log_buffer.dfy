/** `LogEntryBuffer`: the in-memory staging queue of the write-ahead log
    (src/observer/storage/clog/log_buffer.cpp). One sequential caller is
    modelled; the mutex and the atomics are left out.

    The module first gives a value view of the buffer (`BufferState`) and a
    reference definition of each operation on it, then the class whose
    methods update the fields in place and are proved to agree with those
    definitions. */
module LogBuffer {
  import opened LogEntries

  /** The four fields of `LogEntryBuffer`, as a value. */
  datatype BufferState = BufferState(
    currentLsn: LSN,         // current_lsn_: the last LSN handed out
    flushedLsn: LSN,         // flushed_lsn_: the LSN of the last entry written
    bytes: int,              // bytes_: running byte total
    entries: seq<LogEntry>)  // entries_: head is index 0

  /** The intended invariant of the buffer between operations: the durable
      LSN never passes the current one, and the pending entries are strictly
      increasing in LSN, all above the durable LSN and at most the current one. */
  ghost predicate Ordered(s: BufferState)
  {
    && s.flushedLsn <= s.currentLsn
    && StrictlyIncreasing(s.entries)
    && forall i :: 0 <= i < |s.entries| ==> s.flushedLsn < s.entries[i].lsn <= s.currentLsn
  }

  /** LSNs are dense: the pending entries carry exactly the LSNs
      `flushedLsn + 1 .. currentLsn`, head to tail, so every LSN handed out
      and not yet written is queued. */
  ghost predicate Dense(s: BufferState)
  {
    && |s.entries| == s.currentLsn - s.flushedLsn
    && forall i :: 0 <= i < |s.entries| ==> s.entries[i].lsn == s.flushedLsn + 1 + i
  }

  /** The byte counter equals the total size of the pending entries. */
  ghost predicate Accounted(s: BufferState)
  {
    s.bytes == SumSizes(s.entries)
  }

  // ---------------------------------------------------------------- append

  /** What one `append` call returns, and the buffer it leaves. */
  datatype AppendResult = AppendResult(rc: RC, lsn: LSN, state: BufferState)

  /** Reference definition of `append`. `initRc` is what `LogEntry::init`
      reports for the new entry (its body is not part of this model). The
      LSN is bumped before the entry is built, so a failed build still
      uses one up. */
  function AppendSpec(s: BufferState, logModule: LogModule, size: Int32, initRc: RC): (r: AppendResult)
  {
    var lsn := s.currentLsn + 1;
    var bumped := s.(currentLsn := lsn);
    if initRc != Success then
      AppendResult(initRc, lsn, bumped)
    else
      var e := LogEntry(lsn, logModule, size);
      AppendResult(Success, lsn, bumped.(entries := s.entries + [e], bytes := s.bytes + TotalSize(e)))
  }

  /** The arguments of one `append` call, with the outcome of building its entry. */
  datatype AppendCall = AppendCall(logModule: LogModule, size: Int32, initRc: RC)

  /** The LSNs returned and the buffer left by a series of `append` calls. */
  datatype AppendsResult = AppendsResult(lsns: seq<LSN>, state: BufferState)

  /** A series of `append` calls, first to last. */
  function AppendAll(s: BufferState, calls: seq<AppendCall>): (r: AppendsResult)
    decreases |calls|
  {
    if calls == [] then AppendsResult([], s)
    else
      var r := AppendSpec(s, calls[0].logModule, calls[0].size, calls[0].initRc);
      var rest := AppendAll(r.state, calls[1..]);
      AppendsResult([r.lsn] + rest.lsns, rest.state)
  }

  /** The entries a series of `append` calls adds: one per call whose entry
      was built, carrying the LSN that call was given. */
  function BuiltEntries(start: LSN, calls: seq<AppendCall>): (r: seq<LogEntry>)
    decreases |calls|
  {
    if calls == [] then []
    else
      (if calls[0].initRc == Success then [LogEntry(start + 1, calls[0].logModule, calls[0].size)] else [])
      + BuiltEntries(start + 1, calls[1..])
  }

  // ----------------------------------------------------------------- flush

  /** The external `LogFileWriter`: `writer(i, e)` is the reply of the i-th
      `write` call (counting from 0) of one flush, given entry `e`. */
  type Writer = (nat, LogEntry) -> RC

  /** Index of the first entry of `q`, at or after `j`, whose write fails
      when the i-th call writes `q[i]`; `|q|` when every one succeeds. */
  function FirstFailureFrom(q: seq<LogEntry>, writer: Writer, j: nat): (k: nat)
    requires j <= |q|
    ensures j <= k <= |q|
    ensures forall i :: j <= i < k ==> writer(i, q[i]) == Success
    ensures k < |q| ==> writer(k, q[k]) != Success
    decreases |q| - j
  {
    if j == |q| then j
    else if writer(j, q[j]) != Success then j
    else FirstFailureFrom(q, writer, j + 1)
  }

  function FirstFailure(q: seq<LogEntry>, writer: Writer): (k: nat)
  {
    FirstFailureFrom(q, writer, 0)
  }

  /** What `flush` returns, the entries it handed to the writer in order,
      and the buffer it leaves. */
  datatype FlushResult = FlushResult(rc: RC, count: nat, attempted: seq<LogEntry>, state: BufferState)

  /** Reference definition of `flush`, in closed form: with k the first
      failing write, the first k entries are written, the entry at k (if any)
      is attempted and put back at the head, `bytes` is debited for every
      attempted entry, and the durable LSN is that of the last written one. */
  function FlushSpec(s: BufferState, writer: Writer): (r: FlushResult)
  {
    var q := s.entries;
    var k := FirstFailure(q, writer);
    var attempted := if k == |q| then q else q[..k + 1];
    var flushed := if k == 0 then s.flushedLsn else q[k - 1].lsn;
    var after := s.(flushedLsn := flushed, bytes := s.bytes - SumSizes(attempted), entries := q[k..]);
    FlushResult(if k == |q| then Success else writer(k, q[k]), k, attempted, after)
  }

  // ----------------------------------------------------------------- class

  class LogEntryBuffer {
    var currentLsn: LSN
    var flushedLsn: LSN
    var bytes: int
    var entries: seq<LogEntry>

    ghost function State(): BufferState
      reads this
    {
      BufferState(currentLsn, flushedLsn, bytes, entries)
    }

    /** A fresh buffer: empty queue, zero counters until `Init` seeds them. */
    constructor ()
      ensures State() == BufferState(0, 0, 0, [])
    {
      currentLsn, flushedLsn, bytes, entries := 0, 0, 0, [];
    }

    /** `init`: seeds both LSN counters; always succeeds. */
    method Init(lsn: LSN) returns (rc: RC)
      modifies this
      ensures rc == Success
      ensures currentLsn == lsn && flushedLsn == lsn
      ensures bytes == old(bytes) && entries == old(entries)
      ensures old(entries) == [] && old(bytes) == 0 ==>
        Ordered(State()) && Dense(State()) && Accounted(State())
    {
      currentLsn := lsn;
      flushedLsn := lsn;
      rc := Success;
    }

    /** `append` taking a `LogModule::Id`: forwards to `Append` with the module built from it. */
    method AppendById(moduleId: LogModuleId, size: Int32, initRc: RC) returns (rc: RC, lsn: LSN)
      modifies this
      ensures AppendSpec(old(State()), LogModule(moduleId), size, initRc) == AppendResult(rc, lsn, State())
    {
      rc, lsn := Append(LogModule(moduleId), size, initRc);
    }

    /** `append`: allocates the next LSN, builds the entry (its outcome is
        `initRc`) and, if that succeeded, queues it at the tail. */
    method Append(logModule: LogModule, size: Int32, initRc: RC) returns (rc: RC, lsn: LSN)
      modifies this
      ensures AppendSpec(old(State()), logModule, size, initRc) == AppendResult(rc, lsn, State())
      ensures lsn == old(currentLsn) + 1 && currentLsn == lsn && flushedLsn == old(flushedLsn)
      ensures rc == initRc
      ensures rc != Success ==> entries == old(entries) && bytes == old(bytes)
      ensures rc == Success ==>
        && entries == old(entries) + [LogEntry(lsn, logModule, size)]
        && bytes == old(bytes) + TotalSize(LogEntry(lsn, logModule, size))
    {
      currentLsn := currentLsn + 1;
      lsn := currentLsn;
      var entry := LogEntry(lsn, logModule, size);
      if initRc != Success {
        rc := initRc;
        return;
      }
      entries := entries + [entry];
      // The source reads total_size() from `entry` after moving it into the
      // deque; this model takes it to be the appended entry's total size.
      bytes := bytes + TotalSize(entry);
      rc := Success;
    }

    /** `entry_number()`: how many entries are queued. */
    function EntryNumber(): (n: nat)
      reads this
      ensures n == |entries|
    {
      |entries|
    }

    /** `bytes()`: the running byte total. */
    function Bytes(): (b: int)
      reads this
      ensures b == bytes
    {
      bytes
    }

    /** `flush`: pops entries from the head one at a time and writes each;
        stops at the first failed write, putting that entry back at the head.
        `attempted` records, in order, the entries handed to the writer. */
    method Flush(writer: Writer) returns (rc: RC, count: nat, ghost attempted: seq<LogEntry>)
      modifies this
      ensures FlushSpec(old(State()), writer) == FlushResult(rc, count, attempted, State())
      ensures currentLsn == old(currentLsn)
    {
      ghost var q := entries;
      ghost var k := FirstFailure(q, writer);
      count := 0;
      attempted := [];
      // The unlocked `entry_number() > 0` test and the locked `empty()`
      // recheck are one emptiness test for a single caller.
      while EntryNumber() > 0
        invariant count <= k <= |q|
        invariant entries == q[count..]
        invariant attempted == q[..count]
        invariant bytes == old(bytes) - SumSizes(attempted)
        invariant flushedLsn == if count == 0 then old(flushedLsn) else q[count - 1].lsn
        invariant currentLsn == old(currentLsn)
        decreases |entries|
      {
        assert q[..count + 1] == attempted + [entries[0]];
        SumSizesSnoc(attempted, entries[0]);
        var entry := entries[0];
        entries := entries[1..];
        bytes := bytes - TotalSize(entry);
        attempted := attempted + [entry];
        var r := writer(count, entry);
        if r != Success {
          entries := [entry] + entries;
          assert entries == q[count..];
          assert count == k && attempted == q[..k + 1];
          assert FlushSpec(old(State()), writer).state == State();
          return r, count, attempted;
        }
        count := count + 1;
        flushedLsn := entry.lsn;
      }
      assert q[..count] == q;
      assert count == k == |q|;
      rc := Success;
    }
  }
}
