/** Properties of the log entry buffer: LSN allocation, append order, what a
    flush writes, re-queues and debits, and how the byte counter drifts from
    the pending entries when a write fails. */
module LogBufferProperties {
  import opened LogEntries
  import opened LogBuffer

  // ---------------------------------------------------------------- append

  /** One append keeps the ordering invariant: the new LSN is above every
      pending one and above the durable LSN. */
  lemma AppendKeepsOrdered(s: BufferState, logModule: LogModule, size: Int32, initRc: RC)
    requires Ordered(s)
    ensures Ordered(AppendSpec(s, logModule, size, initRc).state)
    ensures forall i :: 0 <= i < |s.entries| ==> s.entries[i].lsn < AppendSpec(s, logModule, size, initRc).lsn
  {
  }

  /** Every append, whatever the build reports, keeps the byte counter equal
      to the pending total. */
  lemma AppendKeepsAccounted(s: BufferState, logModule: LogModule, size: Int32, initRc: RC)
    requires Accounted(s)
    ensures Accounted(AppendSpec(s, logModule, size, initRc).state)
  {
    if initRc == Success {
      SumSizesSnoc(s.entries, LogEntry(s.currentLsn + 1, logModule, size));
    }
  }

  /** A failed append burns its LSN: the next successful append gets the LSN
      after it, and no pending entry ever carries the burnt one. */
  lemma FailedAppendLeavesGap(s: BufferState, m1: LogModule, size1: Int32, failure: RC,
                              m2: LogModule, size2: Int32)
    requires Ordered(s) && failure != Success
    ensures var r1 := AppendSpec(s, m1, size1, failure);
            var r2 := AppendSpec(r1.state, m2, size2, Success);
            && r1.rc == failure && r1.lsn == s.currentLsn + 1
            && r1.state.currentLsn == s.currentLsn + 1
            && r1.state.entries == s.entries && r1.state.bytes == s.bytes
            && r2.lsn == s.currentLsn + 2
            && r2.state.entries == s.entries + [LogEntry(s.currentLsn + 2, m2, size2)]
            && forall i :: 0 <= i < |r2.state.entries| ==> r2.state.entries[i].lsn != r1.lsn
  {
    var r1 := AppendSpec(s, m1, size1, failure);
    var r2 := AppendSpec(r1.state, m2, size2, Success);
    forall i | 0 <= i < |r2.state.entries|
      ensures r2.state.entries[i].lsn != r1.lsn
    {
      if i < |s.entries| {
        assert r2.state.entries[i] == s.entries[i];
      }
    }
  }

  /** A series of appends hands out the LSNs right after `currentLsn`, one
      per call and in call order, failed calls included. */
  lemma {:induction false} AppendAllLsns(s: BufferState, calls: seq<AppendCall>)
    ensures var r := AppendAll(s, calls);
            && |r.lsns| == |calls|
            && (forall i :: 0 <= i < |calls| ==> r.lsns[i] == s.currentLsn + 1 + i)
            && r.state.currentLsn == s.currentLsn + |calls|
            && r.state.flushedLsn == s.flushedLsn
    decreases |calls|
  {
    if calls != [] {
      var c := calls[0];
      var r0 := AppendSpec(s, c.logModule, c.size, c.initRc);
      AppendAllLsns(r0.state, calls[1..]);
    }
  }

  /** One append adds to the queue, and to `bytes`, exactly the entry it
      built: none when the build failed. */
  lemma AppendAddsBuilt(s: BufferState, c: AppendCall)
    ensures var t := AppendSpec(s, c.logModule, c.size, c.initRc).state;
            var head := BuiltEntries(s.currentLsn, [c]);
            && t.currentLsn == s.currentLsn + 1
            && t.entries == s.entries + head
            && t.bytes == s.bytes + SumSizes(head)
  {
    var head := BuiltEntries(s.currentLsn, [c]);
    assert [c][1..] == [];
    assert BuiltEntries(s.currentLsn + 1, []) == [];
    if c.initRc == Success {
      assert head == [LogEntry(s.currentLsn + 1, c.logModule, c.size)];
      assert SumSizes(head) == TotalSize(head[0]) + SumSizes([]);
    } else {
      assert head == [];
    }
  }

  /** The entries built by a series of appends are those of its first call
      followed by those of the rest. */
  lemma BuiltEntriesCons(start: LSN, calls: seq<AppendCall>)
    requires calls != []
    ensures BuiltEntries(start, calls) == BuiltEntries(start, [calls[0]]) + BuiltEntries(start + 1, calls[1..])
  {
    assert [calls[0]][1..] == [];
  }

  /** The queue grows by exactly the entries a series of appends built, at
      the tail and in call order. */
  lemma {:induction false} AppendAllQueue(s: BufferState, calls: seq<AppendCall>)
    ensures AppendAll(s, calls).state.entries == s.entries + BuiltEntries(s.currentLsn, calls)
    decreases |calls|
  {
    if calls != [] {
      var c := calls[0];
      var s1 := AppendSpec(s, c.logModule, c.size, c.initRc).state;
      var head := BuiltEntries(s.currentLsn, [c]);
      var tail := BuiltEntries(s.currentLsn + 1, calls[1..]);
      assert AppendAll(s, calls).state == AppendAll(s1, calls[1..]).state;
      assert s1.entries == s.entries + head && s1.currentLsn == s.currentLsn + 1 by {
        AppendAddsBuilt(s, c);
      }
      assert AppendAll(s1, calls[1..]).state.entries == s1.entries + tail by {
        AppendAllQueue(s1, calls[1..]);
      }
      assert BuiltEntries(s.currentLsn, calls) == head + tail by {
        BuiltEntriesCons(s.currentLsn, calls);
      }
      assert s.entries + head + tail == s.entries + (head + tail);
    }
  }

  /** The queue grows by exactly the entries a series of appends built, at
      the tail and in call order, and `bytes` by their total size. */
  lemma {:induction false} AppendAllEntries(s: BufferState, calls: seq<AppendCall>)
    ensures var r := AppendAll(s, calls);
            && r.state.entries == s.entries + BuiltEntries(s.currentLsn, calls)
            && r.state.bytes == s.bytes + SumSizes(BuiltEntries(s.currentLsn, calls))
    decreases |calls|
  {
    AppendAllQueue(s, calls);
    if calls != [] {
      var c := calls[0];
      var s1 := AppendSpec(s, c.logModule, c.size, c.initRc).state;
      var head := BuiltEntries(s.currentLsn, [c]);
      var tail := BuiltEntries(s.currentLsn + 1, calls[1..]);
      assert AppendAll(s, calls).state == AppendAll(s1, calls[1..]).state;
      assert s1.bytes == s.bytes + SumSizes(head) && s1.currentLsn == s.currentLsn + 1 by {
        AppendAddsBuilt(s, c);
      }
      assert AppendAll(s1, calls[1..]).state.bytes == s1.bytes + SumSizes(tail) by {
        AppendAllEntries(s1, calls[1..]);
      }
      assert SumSizes(BuiltEntries(s.currentLsn, calls)) == SumSizes(head) + SumSizes(tail) by {
        BuiltEntriesCons(s.currentLsn, calls);
        SumSizesConcat(head, tail);
      }
    }
  }

  /** Any series of appends keeps the queue strictly increasing in LSN. */
  lemma {:induction false} AppendAllKeepsOrdered(s: BufferState, calls: seq<AppendCall>)
    requires Ordered(s)
    ensures Ordered(AppendAll(s, calls).state)
    decreases |calls|
  {
    if calls != [] {
      var c := calls[0];
      AppendKeepsOrdered(s, c.logModule, c.size, c.initRc);
      AppendAllKeepsOrdered(AppendSpec(s, c.logModule, c.size, c.initRc).state, calls[1..]);
    }
  }

  // ----------------------------------------------------------------- flush

  /** With a writer that accepts every entry, a flush drains the queue,
      reports every entry written, and the durable LSN becomes the LSN of the
      last entry that was queued. */
  lemma FlushAllWritten(s: BufferState, writer: Writer)
    requires forall i :: 0 <= i < |s.entries| ==> writer(i, s.entries[i]) == Success
    ensures var r := FlushSpec(s, writer);
            && r.rc == Success
            && r.count == |s.entries|
            && r.attempted == s.entries
            && r.state.entries == []
            && r.state.flushedLsn == (if s.entries == [] then s.flushedLsn else s.entries[|s.entries| - 1].lsn)
            && r.state.currentLsn == s.currentLsn
            && r.state.bytes == s.bytes - SumSizes(s.entries)
  {
    assert FirstFailure(s.entries, writer) == |s.entries|;
  }

  /** If the k-th write (counting from 1) is the first to fail, the flush
      returns its code with `count == k - 1`; exactly the first k entries were
      handed to the writer, head to tail; the queue is the original with its
      first k - 1 entries dropped, so the failed entry is back at the head;
      and `bytes` was debited for all k of them. */
  lemma FlushStopsAtFirstFailure(s: BufferState, writer: Writer, k: nat)
    requires 1 <= k <= |s.entries|
    requires forall i :: 0 <= i < k - 1 ==> writer(i, s.entries[i]) == Success
    requires writer(k - 1, s.entries[k - 1]) != Success
    ensures var r := FlushSpec(s, writer);
            && r.rc == writer(k - 1, s.entries[k - 1]) && r.rc != Success
            && r.count == k - 1
            && r.attempted == s.entries[..k]
            && r.state.entries == s.entries[k - 1..]
            && r.state.entries[0] == s.entries[k - 1]
            && r.state.flushedLsn == (if k == 1 then s.flushedLsn else s.entries[k - 2].lsn)
            && r.state.currentLsn == s.currentLsn
            && r.state.bytes == s.bytes - SumSizes(s.entries[..k])
  {
    assert FirstFailure(s.entries, writer) == k - 1;
  }

  /** `flushedLsn` changes only on a successful write, and then to the LSN of
      the entry just written: after a flush it is the LSN of the last entry
      written, or unchanged if none was. */
  lemma FlushedLsnIsLastWritten(s: BufferState, writer: Writer)
    ensures var r := FlushSpec(s, writer);
            && r.count <= |s.entries|
            && (r.rc == Success <==> r.count == |s.entries|)
            && (forall i :: 0 <= i < r.count ==> writer(i, s.entries[i]) == Success)
            && (r.count == 0 ==> r.state.flushedLsn == s.flushedLsn)
            && (r.count > 0 ==> r.state.flushedLsn == s.entries[r.count - 1].lsn)
  {
    var k := FirstFailure(s.entries, writer);
    if k < |s.entries| {
      assert writer(k, s.entries[k]) != Success;
    }
  }

  /** A flush keeps the ordering invariant, and the durable LSN only moves
      forward. */
  lemma FlushKeepsOrdered(s: BufferState, writer: Writer)
    requires Ordered(s)
    ensures Ordered(FlushSpec(s, writer).state)
    ensures FlushSpec(s, writer).state.flushedLsn >= s.flushedLsn
  {
    var q := s.entries;
    var k := FirstFailure(q, writer);
    var t := FlushSpec(s, writer).state;
    assert t.entries == q[k..];
    forall i | 0 <= i < |t.entries|
      ensures t.flushedLsn < t.entries[i].lsn <= t.currentLsn
    {
      assert t.entries[i] == q[k + i];
      if k > 0 {
        assert q[k - 1].lsn < q[k + i].lsn;
      }
    }
  }

  /** A flush whose writes all succeed keeps `bytes` equal to the pending total. */
  lemma CompleteFlushKeepsAccounted(s: BufferState, writer: Writer)
    requires Accounted(s)
    requires FlushSpec(s, writer).rc == Success
    ensures Accounted(FlushSpec(s, writer).state)
    ensures FlushSpec(s, writer).state.bytes == 0
  {
  }

  /** A failed write does not credit `bytes` back: afterwards the counter is
      short of the pending total by exactly the size of the entry put back at
      the head. */
  lemma FailedFlushLosesBytes(s: BufferState, writer: Writer)
    requires Accounted(s)
    requires FlushSpec(s, writer).rc != Success
    ensures var t := FlushSpec(s, writer).state;
            && t.entries != []
            && t.bytes == SumSizes(t.entries) - TotalSize(t.entries[0])
  {
    var q := s.entries;
    var k := FirstFailure(q, writer);
    assert k < |q|;
    assert q == q[..k + 1] + q[k + 1..];
    SumSizesConcat(q[..k + 1], q[k + 1..]);
    assert q[k..][1..] == q[k + 1..];
  }

  /** Summing over the first k + 1 entries and over the entries from k on
      counts entry k twice. */
  lemma SumSizesOverlap(q: seq<LogEntry>, k: nat)
    requires k < |q|
    ensures SumSizes(q[..k + 1]) + SumSizes(q[k..]) == SumSizes(q) + TotalSize(q[k])
  {
    assert q == q[..k] + q[k..];
    SumSizesConcat(q[..k], q[k..]);
    assert q[..k + 1] == q[..k] + [q[k]];
    SumSizesSnoc(q[..k], q[k]);
  }

  /** What a failed flush leaves, in terms of its count k: the first k + 1
      entries were attempted and debited, and the queue keeps the entries from
      the failed one on. */
  lemma FailedFlushShape(s: BufferState, writer: Writer)
    requires FlushSpec(s, writer).rc != Success
    ensures var r := FlushSpec(s, writer);
            var q := s.entries;
            && r.count < |q|
            && r.attempted == q[..r.count + 1]
            && r.state == s.(flushedLsn := r.state.flushedLsn, bytes := s.bytes - SumSizes(q[..r.count + 1]), entries := q[r.count..])
  {
  }

  /** The bookkeeping behind `RetryAfterFailedFlush`, on the three results
      alone: a failed flush `r1`, a complete retry `r2` from where it stopped,
      and a complete flush `once` from the start. */
  lemma RetryAccounting(s: BufferState, r1: FlushResult, r2: FlushResult, once: FlushResult)
    requires var q := s.entries;
             && r1.count < |q|
             && r1.attempted == q[..r1.count + 1]
             && r1.state == s.(flushedLsn := r1.state.flushedLsn, bytes := s.bytes - SumSizes(q[..r1.count + 1]), entries := q[r1.count..])
    requires var t1 := r1.state;
             && r2.rc == Success && r2.count == |t1.entries| && r2.attempted == t1.entries && r2.state.entries == []
             && r2.state.flushedLsn == (if t1.entries == [] then t1.flushedLsn else t1.entries[|t1.entries| - 1].lsn)
             && r2.state.currentLsn == t1.currentLsn && r2.state.bytes == t1.bytes - SumSizes(t1.entries)
    requires var q := s.entries;
             && once.state.entries == []
             && once.state.flushedLsn == (if q == [] then s.flushedLsn else q[|q| - 1].lsn)
             && once.state.currentLsn == s.currentLsn && once.state.bytes == s.bytes - SumSizes(q)
    ensures && r2.rc == Success
            && r1.count + r2.count == |s.entries|
            && r1.attempted + r2.attempted == s.entries[..r1.count + 1] + s.entries[r1.count..]
            && r2.state == once.state.(bytes := once.state.bytes - TotalSize(s.entries[r1.count]))
  {
    var q := s.entries;
    var k := r1.count;
    assert q[k..][|q[k..]| - 1] == q[|q| - 1];
    SumSizesOverlap(q, k);
  }

  /** Retrying after a failed flush with a writer that now accepts everything
      drains the rest in the original order and ends in the state a flush
      without the failure would have reached, except that `bytes` is lower by
      the size of the entry whose write failed (it was debited twice). */
  lemma RetryAfterFailedFlush(s: BufferState, failing: Writer, retry: Writer, clean: Writer)
    requires FlushSpec(s, failing).rc != Success
    requires var rest := FlushSpec(s, failing).state.entries;
             forall i :: 0 <= i < |rest| ==> retry(i, rest[i]) == Success
    requires forall i :: 0 <= i < |s.entries| ==> clean(i, s.entries[i]) == Success
    ensures var r1 := FlushSpec(s, failing);
            var r2 := FlushSpec(r1.state, retry);
            var once := FlushSpec(s, clean);
            && r2.rc == Success
            && r1.count + r2.count == |s.entries|
            && r1.attempted + r2.attempted == s.entries[..r1.count + 1] + s.entries[r1.count..]
            && r2.state == once.state.(bytes := once.state.bytes - TotalSize(s.entries[r1.count]))
  {
    var r1 := FlushSpec(s, failing);
    var r2 := FlushSpec(r1.state, retry);
    var once := FlushSpec(s, clean);
    FailedFlushShape(s, failing);
    FlushAllWritten(r1.state, retry);
    FlushAllWritten(s, clean);
    RetryAccounting(s, r1, r2, once);
  }

  /** A flush run right after a failed append, even one that writes
      everything, leaves the durable LSN below the current one: the burnt LSN
      is the current one and no queued entry carries it. */
  lemma FailedAppendKeepsFlushedBehind(s: BufferState, logModule: LogModule, size: Int32,
                                       failure: RC, writer: Writer)
    requires Ordered(s) && failure != Success
    ensures var t := FlushSpec(AppendSpec(s, logModule, size, failure).state, writer).state;
            t.flushedLsn < t.currentLsn
  {
    var a := AppendSpec(s, logModule, size, failure).state;
    var t := FlushSpec(a, writer).state;
    FlushedLsnIsLastWritten(a, writer);
    var n := FlushSpec(a, writer).count;
    if n > 0 {
      assert a.entries[n - 1].lsn <= s.currentLsn;
    }
  }

  /** Once a later append succeeds and is flushed, the durable LSN passes
      over the burnt one: from an empty queue, a failed append (LSN c + 1), a
      successful one (LSN c + 2) and a flush that writes it leave `flushedLsn`
      and `currentLsn` both at c + 2, although only the entry with LSN c + 2
      was ever written. */
  lemma FlushPassesBurntLsn(s: BufferState, m1: LogModule, size1: Int32, failure: RC,
                            m2: LogModule, size2: Int32, writer: Writer)
    requires s.entries == [] && failure != Success
    requires writer(0, LogEntry(s.currentLsn + 2, m2, size2)) == Success
    ensures var a1 := AppendSpec(s, m1, size1, failure);
            var a2 := AppendSpec(a1.state, m2, size2, Success);
            var r := FlushSpec(a2.state, writer);
            && a1.lsn == s.currentLsn + 1
            && r.rc == Success
            && r.attempted == [LogEntry(s.currentLsn + 2, m2, size2)]
            && r.state.entries == []
            && r.state.flushedLsn == r.state.currentLsn == s.currentLsn + 2
  {
    var a2 := AppendSpec(AppendSpec(s, m1, size1, failure).state, m2, size2, Success).state;
    assert a2.entries == [LogEntry(s.currentLsn + 2, m2, size2)];
    FlushAllWritten(a2, writer);
  }

  // ------------------------------------------------------- dense LSNs

  /** Dense LSNs are in particular ordered. */
  lemma DenseIsOrdered(s: BufferState)
    requires Dense(s)
    ensures Ordered(s)
  {
  }

  /** A successful append keeps the LSNs dense: its entry carries
      `currentLsn + 1`, right after the last pending one. */
  lemma AppendKeepsDense(s: BufferState, logModule: LogModule, size: Int32)
    requires Dense(s)
    ensures Dense(AppendSpec(s, logModule, size, Success).state)
  {
  }

  /** A failed append breaks density: `currentLsn` moves on, the queue does not. */
  lemma FailedAppendBreaksDense(s: BufferState, logModule: LogModule, size: Int32, failure: RC)
    requires Dense(s) && failure != Success
    ensures !Dense(AppendSpec(s, logModule, size, failure).state)
  {
  }

  /** Any series of appends whose entries are all built keeps the LSNs dense. */
  lemma {:induction false} AppendAllKeepsDense(s: BufferState, calls: seq<AppendCall>)
    requires Dense(s)
    requires forall i :: 0 <= i < |calls| ==> calls[i].initRc == Success
    ensures Dense(AppendAll(s, calls).state)
    decreases |calls|
  {
    if calls != [] {
      var c := calls[0];
      AppendKeepsDense(s, c.logModule, c.size);
      assert forall i :: 0 <= i < |calls[1..]| ==> calls[1..][i] == calls[i + 1];
      AppendAllKeepsDense(AppendSpec(s, c.logModule, c.size, c.initRc).state, calls[1..]);
    }
  }

  /** Every flush, whatever the writer replies, keeps the LSNs dense: the
      written prefix moves from the queue into `flushedLsn`. */
  lemma FlushKeepsDense(s: BufferState, writer: Writer)
    requires Dense(s)
    ensures Dense(FlushSpec(s, writer).state)
  {
    var q := s.entries;
    var k := FirstFailure(q, writer);
    var t := FlushSpec(s, writer).state;
    assert t.flushedLsn == s.flushedLsn + k;
    forall i | 0 <= i < |t.entries|
      ensures t.entries[i].lsn == t.flushedLsn + 1 + i
    {
      assert t.entries[i] == q[k + i];
    }
  }

  /** From dense LSNs, a flush that returns `Success` makes everything handed
      out durable: `flushedLsn` reaches `currentLsn`. */
  lemma DenseCompleteFlushReachesCurrent(s: BufferState, writer: Writer)
    requires Dense(s)
    requires FlushSpec(s, writer).rc == Success
    ensures FlushSpec(s, writer).state.flushedLsn == s.currentLsn
    ensures FlushSpec(s, writer).state.currentLsn == s.currentLsn
  {
    FlushedLsnIsLastWritten(s, writer);
  }

  // ------------------------------------------------------------- scenario

  /** A failed write and its retry, stated as calls on the class: init(0);
      append A (size 10) and B (size 20); flush with a writer that rejects
      LSN 2; flush again with a writer that accepts everything. Because the
      failed write is not credited back, `bytes` reads 0 while B is still
      pending, and minus B's total size once the queue is empty. */
  method FailedWriteScenario() returns (lsnA: LSN, lsnB: LSN, bytesBefore: int,
                                   rc1: RC, count1: nat, pending1: nat, flushed1: LSN, bytes1: int,
                                   rc2: RC, count2: nat, pending2: nat, flushed2: LSN, bytes2: int)
    ensures lsnA == 1 && lsnB == 2 && bytesBefore == 2 * LOG_HEADER_SIZE + 30
    ensures rc1 == Failure(5) && count1 == 1 && pending1 == 1 && flushed1 == 1 && bytes1 == 0
    ensures rc2 == Success && count2 == 1 && pending2 == 0 && flushed2 == 2
    ensures bytes2 == -(LOG_HEADER_SIZE + 20)
  {
    var buffer := new LogEntryBuffer();
    var rc := buffer.Init(0);
    rc, lsnA := buffer.Append(LogModule(0), 10, Success);
    rc, lsnB := buffer.Append(LogModule(0), 20, Success);
    bytesBefore := buffer.Bytes();
    ghost var q := buffer.entries;
    assert q == [LogEntry(1, LogModule(0), 10), LogEntry(2, LogModule(0), 20)];

    var rejectTwo: Writer := (i: nat, e: LogEntry) => if e.lsn == 2 then Failure(5) else Success;
    ghost var attempted;
    FlushStopsAtFirstFailure(buffer.State(), rejectTwo, 2);
    assert q[..2] == q;
    rc1, count1, attempted := buffer.Flush(rejectTwo);
    pending1 := buffer.EntryNumber();
    flushed1 := buffer.flushedLsn;
    bytes1 := buffer.Bytes();

    var acceptAll: Writer := (i: nat, e: LogEntry) => Success;
    FlushAllWritten(buffer.State(), acceptAll);
    rc2, count2, attempted := buffer.Flush(acceptAll);
    pending2 := buffer.EntryNumber();
    flushed2 := buffer.flushedLsn;
    bytes2 := buffer.Bytes();
  }
}
