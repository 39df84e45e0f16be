/** HostBuf, the host's ring of audit records, and the mutex-protected append of hl-logger.c. */
module HostRing {
  import opened Bytes

  /** The ring is allocated this much larger than HARDLOG_AUDIT_CBUFFSIZE. */
  const SLACK: nat := 4096

  /** The ring as a value. size stands for HARDLOG_AUDIT_CBUFFSIZE; head and tail count bytes ever
      appended and ever flushed. */
  datatype Ring = Ring(size: nat, buf: seq<byte>, head: nat, tail: nat) {

    ghost predicate Valid() {
      && 0 < size && size % PAGE == 0
      && |buf| == size + SLACK
      && tail <= head
    }

    /** The exit condition of the loop in make_space_in_cbuff; it ignores the record's length. */
    predicate HasSpace() {
      head - tail < size
    }

    /** An append of n bytes that wraps past the first unflushed byte and reaches it from behind. */
    predicate Hits(n: nat)
      requires 0 < size
    {
      tail < head && head % size < tail % size && tail + size < head + n
    }

    function Append(record: seq<byte>): (r: Ring)
      requires Valid() && |record| <= EVENT_SIZE
      ensures r.Valid() && r.size == size && r.tail == tail && r.head == head + |record|
    {
      this.(buf := Overwrite(buf, head % size, record), head := head + |record|)
    }

    /** The record appended at logical offset at is still in its cells, slack cells included. */
    ghost predicate Intact(at: nat, record: seq<byte>)
      requires Valid() && |record| <= EVENT_SIZE
    {
      buf[at % size..at % size + |record|] == record
    }
  }

  /** Where a later offset falls, relative to an earlier one less than a lap behind. */
  lemma LaterIndex(size: nat, a: nat, h: nat)
    requires 0 < size && a <= h < a + size
    ensures h % size == if a % size <= h % size then a % size + (h - a) else a % size + (h - a) - size
  {
    var q, p := h / size, a / size;
    assert h == q * size + h % size && a == p * size + a % size;
    MulGap(q, p, size);
    MulGap(p + 1, q, size);
    MulDistributes(p, 1, size);
  }

  /** Exactly when an append writes into an earlier record less than a lap old: the write has wrapped
      past the record's lap and reaches beyond its start. A write that runs past the ring's end goes to
      the slack and reaches nothing. */
  lemma AppendOverlapsExactly(size: nat, a: nat, m: nat, h: nat, n: nat)
    requires 0 < size && 0 < m && 0 < n
    requires a + m <= h < a + size
    ensures Span(a % size, m) !! Span(h % size, n) <==> !(h % size < a % size && a + size < h + n)
  {
    LaterIndex(size, a, h);
    if h % size < a % size && a + size < h + n {
      assert a % size in Span(a % size, m) && a % size in Span(h % size, n);
    }
  }

  /** An append that the space check lets through writes into unflushed cells exactly if it hits: into those of
      the stretch that starts at tail if it does, into none at all if it does not. */
  lemma HitsExactly(r: Ring, a: nat, m: nat, n: nat)
    requires r.Valid() && r.HasSpace() && 0 < m && 0 < n
    requires r.tail <= a && a + m <= r.head
    ensures !r.Hits(n) ==> Span(a % r.size, m) !! Span(r.head % r.size, n)
    ensures a == r.tail ==> (r.Hits(n) <==> !(Span(a % r.size, m) !! Span(r.head % r.size, n)))
  {
    AppendOverlapsExactly(r.size, a, m, r.head, n);
    LaterIndex(r.size, a, r.head);
    LaterIndex(r.size, r.tail, a);
    LaterIndex(r.size, r.tail, r.head);
  }

  /** An append that hits nothing keeps every unflushed record. */
  lemma AppendKeepsUnhit(r: Ring, record: seq<byte>, a: nat, earlier: seq<byte>)
    requires r.Valid() && r.HasSpace() && |record| <= EVENT_SIZE && |earlier| <= EVENT_SIZE
    requires r.tail <= a && a + |earlier| <= r.head && !r.Hits(|record|)
    requires r.Intact(a, earlier)
    ensures r.Append(record).Intact(a, earlier)
  {
    if record != [] && earlier != [] {
      HitsExactly(r, a, |earlier|, |record|);
      var lo, at := a % r.size, r.head % r.size;
      SpansApart(lo, |earlier|, at, |record|);
      OverwriteElsewhere(r.buf, at, record, lo, lo + |earlier|);
    }
  }

  lemma SpansApart(lo: nat, m: nat, at: nat, n: nat)
    requires 0 < m && 0 < n
    ensures Span(lo, m) !! Span(at, n) ==> lo + m <= at || at + n <= lo
  {
    var first := if lo <= at then at else lo;
    if !(lo + m <= at || at + n <= lo) {
      assert first in Span(lo, m) && first in Span(at, n);
    }
  }

  lemma AppendMissesRecord(size: nat, a: nat, m: nat, h: nat, n: nat)
    requires 0 < size
    requires a + m <= h && h + n <= a + size
    ensures n == 0 || a % size + m <= h % size || h % size + n <= a % size
  {
    if 0 < n {
      LaterIndex(size, a, h);
    }
  }

  /** The disturbance bound: an append of n bytes keeps every record that starts at or after
      head + n - size, wherever its bytes are. */
  lemma AppendKeepsRecord(r: Ring, record: seq<byte>, a: nat, earlier: seq<byte>)
    requires r.Valid() && |record| <= EVENT_SIZE && |earlier| <= EVENT_SIZE
    requires a + |earlier| <= r.head && r.head + |record| <= a + r.size
    requires r.Intact(a, earlier)
    ensures r.Append(record).Intact(a, earlier)
  {
    AppendMissesRecord(r.size, a, |earlier|, r.head, |record|);
    var lo, at := a % r.size, r.head % r.size;
    assert lo < r.size && at < r.size;
    if 0 < |record| {
      OverwriteElsewhere(r.buf, at, record, lo, lo + |earlier|);
    }
  }

  lemma AppendKeepsRecords(r: Ring, record: seq<byte>)
    requires r.Valid() && |record| <= EVENT_SIZE
    ensures forall a: nat, earlier: seq<byte> ::
              && |earlier| <= EVENT_SIZE && a + |earlier| <= r.head && r.head + |record| <= a + r.size
              && r.Intact(a, earlier)
              ==> r.Append(record).Intact(a, earlier)
  {
    forall a: nat, earlier: seq<byte> |
      |earlier| <= EVENT_SIZE && a + |earlier| <= r.head && r.head + |record| <= a + r.size && r.Intact(a, earlier)
      ensures r.Append(record).Intact(a, earlier)
    {
      AppendKeepsRecord(r, record, a, earlier);
    }
  }

  /** audit_cbuff. */
  class HostBuf {
    const size: nat
    const buffer: array<byte>
    var head: nat
    var tail: nat

    ghost predicate Valid()
      reads this, buffer
    {
      buffer.Length == size + SLACK && View().Valid()
    }

    ghost function View(): Ring
      reads this, buffer
    {
      Ring(size, buffer[..], head, tail)
    }

    /** hardlog_logger_setup. */
    constructor (size: nat)
      requires 0 < size && size % PAGE == 0
      ensures Valid() && fresh(buffer)
      ensures this.size == size && head == 0 && tail == 0
    {
      this.size := size;
      buffer := new byte[size + SLACK];
      head, tail := 0, 0;
    }

    /** The section of audit_log_end_hardlog under hardlog_audit_producer. False means that the caller
        is still waiting in make_space_in_cbuff; target is the head a priority syscall waits for. */
    method Append(record: seq<byte>) returns (ok: bool, target: nat)
      requires Valid() && |record| <= EVENT_SIZE
      modifies this`head, buffer
      ensures Valid()
      ensures ok == old(View().HasSpace())
      ensures View() == if ok then old(View()).Append(record) else old(View())
      ensures target == head
      ensures ok ==> View().Intact(old(head), record)
      ensures forall a: nat, earlier: seq<byte> ::
                && |earlier| <= EVENT_SIZE && a + |earlier| <= old(head)
                && old(head) + |record| <= a + size
                && old(View().Intact(a, earlier))
                ==> View().Intact(a, earlier)
      ensures ok ==> head <= tail + size + EVENT_SIZE - 1
    {
      ghost var before := View();
      ok := head - tail < size;
      if ok {
        CopyInto(buffer, head % size, record);
        head := head + |record|;
        AppendKeepsRecords(before, record);
      }
      target := head;
    }

    /** The flusher's update once usb_write has returned. */
    method SetTail(end: nat)
      requires Valid() && end <= head
      modifies this`tail
      ensures Valid() && View() == old(View()).(tail := end)
    {
      tail := end;
    }
  }
}
