/** Whole runs of the host: any number of producers appending under the mutex, priority-syscall threads
    waiting for the flusher, the one flusher thread in its main loop, and readers of the response file
    that yield to it, interleaved in any order. */
module HostRun {
  import opened Bytes
  import opened HostRing

  /** A record and the logical offset it was appended at. */
  datatype Entry = Entry(at: nat, bytes: seq<byte>) {
    function End(): nat { at + |bytes| }
  }

  /** The arguments of one usb_write call that has returned. */
  datatype Window = Window(start: nat, end: nat) {
    function Total(): nat {
      if start <= end then end - start else 0
    }
  }

  /** The wait of one priority syscall: the head after its append, and the number of flush passes
      completed by then. */
  datatype Ticket = Ticket(target: nat, passes: nat)

  /** Where the flusher is in its loop, with its locals start and end. */
  datatype Pc =
    | ReadHead
    | ReadTail(end: nat)
    | RaiseFlag(start: nat, end: nat)
    | Write(start: nat, end: nat)
    | StoreTail(start: nat, end: nat)
    | LowerFlag

  /** A response reader, at the loop that yields to the logger or past it. */
  datatype Reader = Yielding | Submitting

  datatype Host = Host(ring: Ring, records: seq<Entry>, pc: Pc, logging: bool, written: seq<Window>,
                       passes: nat, tickets: seq<Ticket>, waiting: set<nat>, readers: seq<Reader>)

  datatype Event =
    | Append(record: seq<byte>, priority: bool)
    | Flusher
    | StopWaiting(ticket: nat)
    | CheckFlag(reader: nat)
    | SubmitRead(reader: nat)

  ghost predicate Enabled(s: Host, e: Event) {
    match e
    case Append(record, _) => s.ring.Valid() && s.ring.HasSpace() && |record| <= EVENT_SIZE
    case Flusher => s.ring.Valid()
    case StopWaiting(k) => k in s.waiting && k < |s.tickets| && !(s.ring.tail < s.tickets[k].target)
    case CheckFlag(r) => r < |s.readers| && s.readers[r].Yielding?
    case SubmitRead(r) => r < |s.readers| && s.readers[r].Submitting?
  }

  ghost function Apply(s: Host, e: Event): Host
    requires Enabled(s, e)
  {
    match e
    case Append(record, priority) =>
      var ring := s.ring.Append(record);
      s.(ring := ring,
         records := s.records + [Entry(s.ring.head, record)],
         tickets := if priority then s.tickets + [Ticket(ring.head, s.passes)] else s.tickets,
         waiting := if priority then s.waiting + {|s.tickets|} else s.waiting)
    case Flusher => FlusherStep(s)
    case StopWaiting(k) => s.(waiting := s.waiting - {k})
    case CheckFlag(r) =>
      if s.logging then s else s.(readers := s.readers[r := Submitting])
    case SubmitRead(r) => s.(readers := s.readers[r := Yielding])
  }

  /** One step of hardlog_auditd_thread's loop. */
  function FlusherStep(s: Host): Host {
    match s.pc
    case ReadHead => s.(pc := ReadTail(s.ring.head))
    case ReadTail(end) => s.(pc := RaiseFlag(s.ring.tail, end))
    case RaiseFlag(start, end) =>
      s.(pc := Write(start, end), logging := true)
    case Write(start, end) => s.(pc := StoreTail(start, end), written := s.written + [Window(start, end)])
    case StoreTail(_, end) => s.(pc := LowerFlag, ring := s.ring.(tail := end), passes := s.passes + 1)
    case LowerFlag => s.(pc := ReadHead, logging := false)
  }

  ghost predicate Initial(s: Host) {
    && s.ring.Valid() && s.ring.head == 0 && s.ring.tail == 0
    && s.records == [] && s.pc == ReadHead && !s.logging && s.written == []
    && s.passes == 0 && s.tickets == [] && s.waiting == {}
  }

  ghost predicate Legal(s: Host, run: seq<Event>)
    decreases run
  {
    run == [] || (Enabled(s, run[0]) && Legal(Apply(s, run[0]), run[1..]))
  }

  ghost function After(s: Host, run: seq<Event>): Host
    requires Legal(s, run)
    decreases run
  {
    if run == [] then s else After(Apply(s, run[0]), run[1..])
  }

  /** No append of the run hits unflushed bytes. */
  ghost predicate Unhit(s: Host, run: seq<Event>)
    requires Legal(s, run)
    decreases run
  {
    run == [] ||
    ((run[0].Append? ==> !s.ring.Hits(|run[0].record|)) && Unhit(Apply(s, run[0]), run[1..]))
  }

  // ---- What every step keeps

  /** The records follow one another without gaps up to head. */
  ghost predicate Chained(records: seq<Entry>, head: nat) {
    if records == [] then head == 0
    else var last := records[|records| - 1];
         last.End() == head && |last.bytes| <= EVENT_SIZE && Chained(records[..|records| - 1], last.at)
  }

  /** The windows follow one another without gaps up to reached. */
  ghost predicate Tiled(windows: seq<Window>, reached: nat) {
    if windows == [] then reached == 0
    else var last := windows[|windows| - 1];
         last.start <= last.end == reached && Tiled(windows[..|windows| - 1], last.start)
  }

  ghost predicate Boundary(records: seq<Entry>, o: nat) {
    o == 0 || exists i :: 0 <= i < |records| && records[i].End() == o
  }

  predicate HasSnapshot(pc: Pc) {
    pc.ReadTail? || pc.RaiseFlag? || pc.Write? || pc.StoreTail?
  }

  /** How far the returned usb_write calls have got. */
  function Written(s: Host): nat {
    if s.pc.StoreTail? then s.pc.end else s.ring.tail
  }

  ghost predicate RingInv(s: Host) {
    && s.ring.Valid() && s.ring.head <= s.ring.tail + s.ring.size + EVENT_SIZE - 1
    && Chained(s.records, s.ring.head)
    && Boundary(s.records, s.ring.tail)
  }

  ghost predicate FlusherInv(s: Host) {
    && (HasSnapshot(s.pc) ==> s.ring.tail <= s.pc.end <= s.ring.head && Boundary(s.records, s.pc.end))
    && (s.pc.RaiseFlag? || s.pc.Write? || s.pc.StoreTail? ==> s.pc.start == s.ring.tail)
    && Tiled(s.written, Written(s))
    && (forall w :: w in s.written ==> Boundary(s.records, w.start) && Boundary(s.records, w.end))
  }

  ghost predicate TicketInv(s: Host, t: Ticket) {
    && t.target <= s.ring.head && t.passes <= s.passes
    && (t.passes < s.passes && HasSnapshot(s.pc) ==> t.target <= s.pc.end)
    && (t.passes + 1 < s.passes ==> t.target <= s.ring.tail)
  }

  ghost predicate WaitInv(s: Host) {
    && (forall t :: t in s.tickets ==> TicketInv(s, t))
    && (forall k :: k in s.waiting ==> k < |s.tickets|)
    && (forall k :: 0 <= k < |s.tickets| && k !in s.waiting ==> s.tickets[k].target <= s.ring.tail)
  }

  ghost predicate FlagInv(s: Host) {
    s.logging <==> s.pc.Write? || s.pc.StoreTail? || s.pc.LowerFlag?
  }

  ghost predicate Inv(s: Host) {
    RingInv(s) && FlusherInv(s) && WaitInv(s) && FlagInv(s)
  }

  /** Every record that no flush has passed is in its cells. */
  ghost predicate UnflushedIntact(s: Host)
    requires RingInv(s)
  {
    forall e :: e in s.records && s.ring.tail <= e.at ==> |e.bytes| <= EVENT_SIZE && s.ring.Intact(e.at, e.bytes)
  }

  lemma ChainBounds(records: seq<Entry>, head: nat, i: nat)
    requires Chained(records, head) && i < |records|
    ensures records[i].End() <= head && |records[i].bytes| <= EVENT_SIZE
  {
    if i < |records| - 1 {
      ChainBounds(records[..|records| - 1], records[|records| - 1].at, i);
    }
  }

  lemma BoundaryGrows(records: seq<Entry>, e: Entry)
    ensures forall o: nat :: Boundary(records, o) ==> Boundary(records + [e], o)
    ensures Boundary(records + [e], e.End())
  {
    var more := records + [e];
    assert more[|records|] == e;
    forall o: nat | Boundary(records, o)
      ensures Boundary(more, o)
    {
      if o != 0 {
        var i :| 0 <= i < |records| && records[i].End() == o;
        assert more[i].End() == o;
      }
    }
  }

  lemma HeadIsBoundary(s: Host)
    requires RingInv(s)
    ensures Boundary(s.records, s.ring.head)
  {
    if s.records != [] {
      assert s.records[|s.records| - 1].End() == s.ring.head;
    }
  }

  lemma AppendKeepsInv(s: Host, e: Event)
    requires Inv(s) && e.Append? && Enabled(s, e)
    ensures Inv(Apply(s, e))
  {
    var s' := Apply(s, e);
    var entry := Entry(s.ring.head, e.record);
    assert s'.records[..|s'.records| - 1] == s.records;
    assert s'.records[|s.records|] == entry;
    BoundaryGrows(s.records, entry);
    assert RingInv(s');
    assert FlusherInv(s');
    forall t | t in s'.tickets
      ensures TicketInv(s', t)
    {
      if t !in s.tickets {
        assert t == Ticket(s'.ring.head, s.passes);
      } else {
        assert TicketInv(s, t);
      }
    }
    assert WaitInv(s');
  }

  lemma FlusherKeepsInv(s: Host)
    requires Inv(s)
    ensures Inv(FlusherStep(s))
  {
    FlusherKeepsWindows(s);
    FlusherKeepsWaits(s);
  }

  lemma FlusherKeepsWindows(s: Host)
    requires RingInv(s) && FlusherInv(s)
    ensures RingInv(FlusherStep(s)) && FlusherInv(FlusherStep(s))
  {
    HeadIsBoundary(s);
    if s.pc.Write? {
      var w := Window(s.pc.start, s.pc.end);
      assert (s.written + [w])[..|s.written|] == s.written;
      assert forall v :: v in s.written + [w] ==> v in s.written || v == w;
    }
  }

  lemma FlusherKeepsWaits(s: Host)
    requires RingInv(s) && FlusherInv(s) && WaitInv(s)
    ensures WaitInv(FlusherStep(s))
  {
    var s' := FlusherStep(s);
    forall t | t in s'.tickets
      ensures TicketInv(s', t)
    {
      assert TicketInv(s, t);
    }
  }

  lemma ReaderKeepsInv(s: Host, e: Event)
    requires Inv(s) && (e.CheckFlag? || e.SubmitRead? || e.StopWaiting?) && Enabled(s, e)
    ensures Inv(Apply(s, e))
  {
    var s' := Apply(s, e);
    forall t | t in s'.tickets
      ensures TicketInv(s', t)
    {
      assert TicketInv(s, t);
    }
  }

  lemma StepKeepsInv(s: Host, e: Event)
    requires Inv(s) && Enabled(s, e)
    ensures Inv(Apply(s, e))
  {
    match e
    case Append(_, _) => AppendKeepsInv(s, e);
    case Flusher => FlusherKeepsInv(s);
    case _ => ReaderKeepsInv(s, e);
  }

  lemma {:induction false} RunKeepsInv(s: Host, run: seq<Event>)
    requires Inv(s) && Legal(s, run)
    ensures Inv(After(s, run))
    decreases run
  {
    if run != [] {
      StepKeepsInv(s, run[0]);
      RunKeepsInv(Apply(s, run[0]), run[1..]);
    }
  }

  // ---- Making runs

  lemma StepThenRun(s: Host, e: Event, rest: seq<Event>)
    requires Enabled(s, e) && Legal(Apply(s, e), rest)
    ensures Legal(s, [e] + rest) && After(s, [e] + rest) == After(Apply(s, e), rest)
  {
    assert ([e] + rest)[1..] == rest;
  }

  lemma TwoThenRun(s: Host, e: Event, e': Event, rest: seq<Event>)
    requires Enabled(s, e) && Enabled(Apply(s, e), e') && Legal(Apply(Apply(s, e), e'), rest)
    ensures Legal(s, [e] + ([e'] + rest)) && After(s, [e] + ([e'] + rest)) == After(Apply(Apply(s, e), e'), rest)
  {
    StepThenRun(Apply(s, e), e', rest);
    StepThenRun(s, e, [e'] + rest);
  }

  lemma {:induction false} RunThenRun(s: Host, a: seq<Event>, b: seq<Event>)
    requires Legal(s, a) && Legal(After(s, a), b)
    ensures Legal(s, a + b) && After(s, a + b) == After(After(s, a), b)
    decreases a
  {
    if a == [] {
      assert a + b == b;
    } else {
      FirstOf(a, b);
      var s1 := Apply(s, a[0]);
      assert After(s, a) == After(s1, a[1..]);
      RunThenRun(s1, a[1..], b);
      StepThenRun(s, a[0], a[1..] + b);
    }
  }

  lemma StepRunStepRun(s: Host, e: Event, a: seq<Event>, e': Event, b: seq<Event>) returns (run: seq<Event>)
    requires Enabled(s, e) && Legal(Apply(s, e), a)
    requires Enabled(After(Apply(s, e), a), e') && Legal(Apply(After(Apply(s, e), a), e'), b)
    ensures Legal(s, run) && After(s, run) == After(Apply(After(Apply(s, e), a), e'), b)
  {
    StepThenRun(After(Apply(s, e), a), e', b);
    RunThenRun(Apply(s, e), a, [e'] + b);
    StepThenRun(s, e, a + ([e'] + b));
    run := [e] + (a + ([e'] + b));
  }

  /** Where the flusher is with k steps of the pass over a window to go. */
  function PassPc(k: nat, start: nat, end: nat): Pc {
    match k
    case 0 => ReadHead
    case 1 => LowerFlag
    case 2 => StoreTail(start, end)
    case 3 => Write(start, end)
    case 4 => RaiseFlag(start, end)
    case _ => ReadTail(end)
  }

  predicate FlusherOnly(run: seq<Event>) {
    forall e :: e in run ==> e == Flusher
  }

  /** The flusher alone, through the rest of a pass. */
  lemma FlusherAlone(s: Host, k: nat, start: nat, end: nat) returns (run: seq<Event>)
    requires Inv(s) && k <= 5 && s.pc == PassPc(k, start, end) && (1 < k ==> s.ring.tail == start)
    ensures Legal(s, run) && FlusherOnly(run) && |run| == k
    ensures var h := After(s, run);
            && Inv(h) && h.pc == ReadHead
            && h.ring == s.ring.(tail := if 1 < k then end else s.ring.tail)
            && h.passes == s.passes + (if 1 < k then 1 else 0)
            && h.waiting == s.waiting && h.tickets == s.tickets && h.records == s.records
    decreases k
  {
    if k == 0 {
      run := [];
    } else {
      FlusherKeepsInv(s);
      AloneStep(s, k, start, end);
      var rest := FlusherAlone(FlusherStep(s), k - 1, start, end);
      run := [Flusher] + rest;
      StepThenRun(s, Flusher, rest);
    }
  }

  lemma AloneStep(s: Host, k: nat, start: nat, end: nat)
    requires Inv(s) && 0 < k <= 5 && s.pc == PassPc(k, start, end) && (1 < k ==> s.ring.tail == start)
    ensures var h := FlusherStep(s);
            && h.pc == PassPc(k - 1, start, end)
            && h.ring == s.ring.(tail := if k == 2 then end else s.ring.tail)
            && h.passes == s.passes + (if k == 2 then 1 else 0)
            && h.waiting == s.waiting && h.tickets == s.tickets && h.records == s.records
  {
  }

  /** A whole pass with nothing in between. */
  lemma WholePass(s: Host) returns (run: seq<Event>)
    requires Inv(s) && s.pc == ReadHead
    ensures Legal(s, run) && FlusherOnly(run) && |run| == 6
    ensures var h := After(s, run);
            && Inv(h) && h.pc == ReadHead && h.ring == s.ring.(tail := s.ring.head)
            && h.records == s.records && h.tickets == s.tickets && h.waiting == s.waiting
  {
    FlusherKeepsInv(s);
    var rest := FlusherAlone(FlusherStep(s), 5, s.ring.tail, s.ring.head);
    run := [Flusher] + rest;
    StepThenRun(s, Flusher, rest);
  }

  /** The same record, n times over. */
  lemma {:induction false} Fill(s: Host, record: seq<byte>, n: nat) returns (run: seq<Event>)
    requires Inv(s) && |record| == EVENT_SIZE
    requires n == 0 || s.ring.head - s.ring.tail + EVENT_SIZE * (n - 1) < s.ring.size
    ensures Legal(s, run)
    ensures var h := After(s, run);
            && Inv(h) && h.pc == s.pc && h.ring.size == s.ring.size && h.ring.tail == s.ring.tail
            && h.ring.head == s.ring.head + EVENT_SIZE * n
            && s.records <= h.records
    decreases n
  {
    if n == 0 {
      run := [];
    } else {
      var e := Append(record, false);
      StepKeepsInv(s, e);
      var s' := Apply(s, e);
      var rest := Fill(s', record, n - 1);
      run := [e] + rest;
      StepThenRun(s, e, rest);
    }
  }

  // ---- Main results

  /** The space check is not enough, whatever the ring's size: some run overwrites a record before any flush
      has reached it. A first record is flushed; a second, of one byte, is then lapped by others that
      the check lets through. */
  lemma SpaceCheckIsNotEnough(s: Host) returns (run: seq<Event>, last: Event)
    requires Initial(s)
    ensures Legal(s, run) && last.Append? && Enabled(After(s, run), last)
    ensures var before, after := After(s, run), Apply(After(s, run), last);
            && RingInv(before) && RingInv(after)
            && before.ring.HasSpace() && before.ring.head - before.ring.tail + |last.record| > before.ring.size
            && 1 < |after.records| && after.ring.tail <= after.records[1].at
            && |after.records[1].bytes| <= EVENT_SIZE
            && !after.ring.Intact(after.records[1].at, after.records[1].bytes)
  {
    var first, one := Append(FullRecord(), false), Append([1], false);
    var pass := OneByteUnflushed(s);
    var s3 := Apply(After(Apply(s, first), pass), one);
    var fill;
    fill, last := LapTheByte(s3);
    run := StepRunStepRun(s, first, pass, one, fill);
  }

  function FullRecord(): (r: seq<byte>)
    ensures |r| == EVENT_SIZE && r[EVENT_SIZE - 1] == 2
  {
    seq(EVENT_SIZE, i => 2)
  }

  lemma OneByteUnflushed(s: Host) returns (pass: seq<Event>)
    requires Initial(s)
    ensures Enabled(s, Append(FullRecord(), false)) && Legal(Apply(s, Append(FullRecord(), false)), pass)
    ensures var s2 := After(Apply(s, Append(FullRecord(), false)), pass);
            && Enabled(s2, Append([1], false))
            && ByteWaits(Apply(s2, Append([1], false)))
  {
    var s1 := Apply(s, Append(FullRecord(), false));
    StepKeepsInv(s, Append(FullRecord(), false));
    SizeInSlots(s.ring.size);
    pass := WholePass(s1);
    var s2 := After(s1, pass);
    StepKeepsInv(s2, Append([1], false));
  }

  /** A flushed record of full length, and one unflushed byte behind it. */
  ghost predicate ByteWaits(s: Host) {
    && Inv(s) && s.ring.tail == EVENT_SIZE && s.ring.head == EVENT_SIZE + 1
    && |s.records| == 2 && s.records[1] == Entry(EVENT_SIZE, [1])
  }

  lemma LapTheByte(s: Host) returns (fill: seq<Event>, last: Event)
    requires ByteWaits(s)
    ensures Legal(s, fill) && last.Append? && Enabled(After(s, fill), last)
    ensures var before, after := After(s, fill), Apply(After(s, fill), last);
            && RingInv(before) && RingInv(after)
            && before.ring.HasSpace() && before.ring.head - before.ring.tail + |last.record| > before.ring.size
            && 1 < |after.records| && after.ring.tail <= after.records[1].at
            && |after.records[1].bytes| <= EVENT_SIZE
            && !after.ring.Intact(after.records[1].at, after.records[1].bytes)
  {
    SizeInSlots(s.ring.size);
    fill := Fill(s, FullRecord(), s.ring.size / EVENT_SIZE - 1);
    last := Append(FullRecord(), false);
    var s' := After(s, fill);
    StepKeepsInv(s', last);
    Lapped(s'.ring, FullRecord());
    assert s'.records[1] == s.records[1];
  }

  lemma SizeInSlots(size: nat)
    requires 0 < size && size % PAGE == 0
    ensures 8 <= size / EVENT_SIZE && size == EVENT_SIZE * (size / EVENT_SIZE)
  {
    assert size == PAGE * (size / PAGE);
    assert 1 <= size / PAGE;
    DivModUnique(size, EVENT_SIZE, 8 * (size / PAGE), 0);
  }

  lemma Lapped(r: Ring, record: seq<byte>)
    requires r.Valid() && r.head == r.size + 1 && |record| == EVENT_SIZE && record[EVENT_SIZE - 1] == 2
    ensures !r.Append(record).Intact(EVENT_SIZE, [1])
  {
    SizeInSlots(r.size);
    NextLap(r.size);
    LastByteLands(r.buf, record);
    var after := Overwrite(r.buf, 1, record);
    assert after[EVENT_SIZE..EVENT_SIZE + 1][0] == 2;
  }

  lemma NextLap(size: nat)
    requires EVENT_SIZE < size
    ensures (size + 1) % size == 1 && EVENT_SIZE % size == EVENT_SIZE
  {
    DivModUnique(size + 1, size, 1, 1);
    DivModUnique(EVENT_SIZE, size, 0, EVENT_SIZE);
  }

  lemma LastByteLands(buf: seq<byte>, record: seq<byte>)
    requires record != [] && 1 + |record| <= |buf|
    ensures Overwrite(buf, 1, record)[|record|] == record[|record| - 1]
  {
    var after := Overwrite(buf, 1, record);
    assert after[1..1 + |record|][|record| - 1] == after[|record|];
  }

  /** The bound of RunSafety is reached, whatever the ring's size: the check lets a record through as long as one byte
      is free. */
  lemma BoundIsReached(s: Host) returns (run: seq<Event>)
    requires Initial(s)
    ensures Legal(s, run)
    ensures var h := After(s, run); h.ring.head == h.ring.tail + h.ring.size + 511
  {
    SizeInSlots(s.ring.size);
    var fill := Fill(s, FullRecord(), s.ring.size / EVENT_SIZE - 1);
    var short, last := Append(FullRecord()[1..], false), Append(FullRecord(), false);
    TwoThenRun(After(s, fill), short, last, []);
    RunThenRun(s, fill, [short] + ([last] + []));
    run := fill + ([short] + ([last] + []));
  }

  lemma {:induction false} TiledMeans(windows: seq<Window>, reached: nat)
    requires Tiled(windows, reached)
    ensures forall i :: 0 <= i < |windows| ==> windows[i].start <= windows[i].end <= reached
    ensures windows != [] ==> windows[0].start == 0 && windows[|windows| - 1].end == reached
    ensures forall i :: 0 <= i < |windows| - 1 ==> windows[i].end == windows[i + 1].start
  {
    if windows != [] {
      TiledMeans(windows[..|windows| - 1], windows[|windows| - 1].start);
    }
  }

  /** Run safety: in every interleaving the counters stay within one ring and one record of each other,
      and the windows handed to usb_write cut the stream, in order and without gap or overlap, at record
      boundaries, reaching exactly tail when no write is waiting for its tail update. */
  lemma RunSafety(s: Host, run: seq<Event>)
    requires Initial(s) && Legal(s, run)
    ensures var h := After(s, run);
            && h.ring.tail <= h.ring.head <= h.ring.tail + h.ring.size + 511
            && (forall i :: 0 <= i < |h.written| - 1 ==> h.written[i].end == h.written[i + 1].start)
            && (forall w :: w in h.written ==>
                  w.start <= w.end && Boundary(h.records, w.start) && Boundary(h.records, w.end))
            && (if h.written == [] then Written(h) == 0
                else h.written[0].start == 0 && h.written[|h.written| - 1].end == Written(h))
            && (!h.pc.StoreTail? ==> Written(h) == h.ring.tail)
  {
    RunKeepsInv(s, run);
    var h := After(s, run);
    TiledMeans(h.written, Written(h));
  }

  /** A record boundary never falls inside a record. */
  lemma {:induction false} BoundaryOutside(records: seq<Entry>, head: nat, b: nat, i: nat)
    requires Chained(records, head) && Boundary(records, b) && i < |records|
    ensures b <= records[i].at || records[i].End() <= b
  {
    var k := |records| - 1;
    var front := records[..k];
    if b != 0 {
      var j :| 0 <= j < |records| && records[j].End() == b;
      if i == k {
        if j < k {
          ChainBounds(front, records[k].at, j);
        }
      } else if j < k {
        assert front[j].End() == b;
        BoundaryOutside(front, records[k].at, b, i);
      } else {
        ChainBounds(records, head, i);
      }
    }
  }

  /** Cuts at record boundaries never split a record: each record that the windows have reached lies
      whole in one of them. */
  lemma {:induction false} RecordInOneWindow(windows: seq<Window>, reached: nat, records: seq<Entry>, head: nat, i: nat)
    returns (w: nat)
    requires Tiled(windows, reached) && Chained(records, head) && i < |records|
    requires forall v :: v in windows ==> Boundary(records, v.start)
    requires records[i].End() <= reached && 0 < |records[i].bytes|
    ensures w < |windows| && windows[w].start <= records[i].at && records[i].End() <= windows[w].end
  {
    var k := |windows| - 1;
    assert windows[k] in windows;
    BoundaryOutside(records, head, windows[k].start, i);
    if windows[k].start <= records[i].at {
      w := k;
    } else {
      w := RecordInOneWindow(windows[..k], windows[k].start, records, head, i);
    }
  }

  lemma {:induction false} ListsGrow(s: Host, run: seq<Event>)
    requires Legal(s, run)
    ensures var h := After(s, run); s.records <= h.records && s.tickets <= h.tickets
    decreases run
  {
    if run != [] {
      ListsGrow(Apply(s, run[0]), run[1..]);
    }
  }

  /** In some reachable state a priority syscall appends its record, and by the end of the run it has stopped
      waiting. */
  ghost predicate PriorityServed(s: Host, before: seq<Event>, record: seq<byte>, after: seq<Event>) {
    && Initial(s) && Legal(s, before)
    && var s0 := After(s, before);
       && Enabled(s0, Append(record, true)) && Legal(Apply(s0, Append(record, true)), after)
       && |s0.tickets| !in After(Apply(s0, Append(record, true)), after).waiting
  }

  lemma ServedIsReached(s: Host, before: seq<Event>, record: seq<byte>, after: seq<Event>)
    requires PriorityServed(s, before, record, after)
    ensures var s0 := After(s, before);
            var h := After(Apply(s0, Append(record, true)), after);
            && Inv(h) && s0.records + [Entry(s0.ring.head, record)] <= h.records
            && s0.ring.head + |record| <= h.ring.tail
  {
    var e := Append(record, true);
    RunKeepsInv(s, before);
    var s0 := After(s, before);
    StepKeepsInv(s0, e);
    RunKeepsInv(Apply(s0, e), after);
    ListsGrow(Apply(s0, e), after);
    assert Apply(s0, e).tickets[|s0.tickets|] == Ticket(s0.ring.head + |record|, s0.passes);
  }

  /** Priority durability: once a priority syscall has stopped waiting, every byte up to the end of its own record
      is in a window whose usb_write has returned, and its record and each one before it, unless empty, lies
      whole in one of them. */
  lemma PriorityDurability(s: Host, before: seq<Event>, record: seq<byte>, after: seq<Event>, i: nat)
    requires PriorityServed(s, before, record, after) && i <= |After(s, before).records|
    ensures var s0 := After(s, before);
            var h := After(Apply(s0, Append(record, true)), after);
            && Tiled(h.written, Written(h)) && s0.ring.head + |record| <= Written(h)
            && |s0.records| < |h.records| && h.records[|s0.records|] == Entry(s0.ring.head, record)
            && h.records[..|s0.records|] == s0.records
            && (h.records[i].bytes != [] ==>
                  exists w ::
                    && 0 <= w < |h.written|
                    && h.written[w].start <= h.records[i].at && h.records[i].End() <= h.written[w].end)
  {
    ServedIsReached(s, before, record, after);
    var s0 := After(s, before);
    var h := After(Apply(s0, Append(record, true)), after);
    RunKeepsInv(s, before);
    EarlierEnds(h.records, h.ring.head, |s0.records|, i);
    if h.records[i].bytes != [] {
      var w := RecordInOneWindow(h.written, Written(h), h.records, h.ring.head, i);
    }
  }

  lemma {:induction false} EarlierEnds(records: seq<Entry>, head: nat, k: nat, i: nat)
    requires Chained(records, head) && i <= k < |records|
    ensures records[i].End() <= records[k].End()
  {
    var last := |records| - 1;
    if k < last {
      EarlierEnds(records[..last], records[last].at, k, i);
    } else {
      ChainBounds(records, head, i);
    }
  }

  /** Bounded wait: two completed flush passes after its append, nothing keeps a priority syscall
      waiting. */
  lemma BoundedWait(s: Host, before: seq<Event>, record: seq<byte>, after: seq<Event>)
    requires Initial(s) && Legal(s, before) && Enabled(After(s, before), Append(record, true))
    requires Legal(Apply(After(s, before), Append(record, true)), after)
    requires var s0 := After(s, before);
             var h := After(Apply(s0, Append(record, true)), after);
             |s0.tickets| in h.waiting && s0.passes + 2 <= h.passes
    ensures var s0 := After(s, before);
            Enabled(After(Apply(s0, Append(record, true)), after), StopWaiting(|s0.tickets|))
  {
    var e := Append(record, true);
    RunKeepsInv(s, before);
    var s0 := After(s, before);
    StepKeepsInv(s0, e);
    RunKeepsInv(Apply(s0, e), after);
    ListsGrow(Apply(s0, e), after);
    var h := After(Apply(s0, e), after);
    assert h.tickets[|s0.tickets|] == Ticket(s0.ring.head + |record|, s0.passes);
    assert TicketInv(h, h.tickets[|s0.tickets|]);
  }

  /** And the flusher gets that far: from every reachable state, at most eleven steps of its own let any waiting
      priority syscall go. */
  lemma WaitEnds(s: Host, run: seq<Event>, k: nat) returns (more: seq<Event>)
    requires Initial(s) && Legal(s, run) && k in After(s, run).waiting
    ensures FlusherOnly(more) && |more| <= 11 && Legal(After(s, run), more)
    ensures Enabled(After(After(s, run), more), StopWaiting(k))
  {
    RunKeepsInv(s, run);
    var h := After(s, run);
    var left, start, end := StepsLeft(h);
    var rest := FlusherAlone(h, left, start, end);
    var pass := WholePass(After(h, rest));
    RunThenRun(h, rest, pass);
    more := rest + pass;
    assert TicketInv(h, h.tickets[k]);
  }

  lemma StepsLeft(s: Host) returns (k: nat, start: nat, end: nat)
    requires FlusherInv(s)
    ensures k <= 5 && s.pc == PassPc(k, start, end) && (1 < k ==> s.ring.tail == start)
  {
    start := s.ring.tail;
    match s.pc
    case ReadHead => k, end := 0, 0;
    case ReadTail(e) => k, end := 5, e;
    case RaiseFlag(_, e) => k, end := 4, e;
    case Write(_, e) => k, end := 3, e;
    case StoreTail(_, e) => k, end := 2, e;
    case LowerFlag => k, end := 1, 0;
  }

  /** The bound is tight: a pass whose snapshot came before the append completes without letting the priority
      syscall go. */
  lemma OnePassIsNotEnough(s: Host, record: seq<byte>) returns (run: seq<Event>)
    requires Initial(s) && 0 < |record| <= EVENT_SIZE
    ensures Legal(s, [Flusher] + ([Append(record, true)] + run)) && FlusherOnly(run)
    ensures var h := After(s, [Flusher] + ([Append(record, true)] + run));
            h.pc == ReadHead && h.passes == 1 && 0 in h.waiting && !Enabled(h, StopWaiting(0))
  {
    var s2 := SnapshotThenAppend(s, record);
    run := FlusherAlone(s2, 5, 0, 0);
    TwoThenRun(s, Flusher, Append(record, true), run);
  }

  lemma SnapshotThenAppend(s: Host, record: seq<byte>) returns (s': Host)
    requires Initial(s) && 0 < |record| <= EVENT_SIZE
    ensures Enabled(s, Flusher) && Enabled(Apply(s, Flusher), Append(record, true))
    ensures s' == Apply(Apply(s, Flusher), Append(record, true)) && Inv(s')
    ensures s'.pc == PassPc(5, 0, 0) && s'.ring.tail == 0 && s'.passes == 0
    ensures s'.tickets == [Ticket(|record|, 0)] && 0 in s'.waiting
  {
    var s1 := Apply(s, Flusher);
    StepKeepsInv(s, Flusher);
    StepKeepsInv(s1, Append(record, true));
    s' := Apply(s1, Append(record, true));
  }

  // ---- A pass with anything in between

  function FlusherSteps(run: seq<Event>): nat {
    if run == [] then 0 else (if run[0] == Flusher then 1 else 0) + FlusherSteps(run[1..])
  }

  /** n steps into the pass that found tail and head so. */
  ghost predicate InPass(from: Host, s: Host, n: nat)
    requires n <= 6
  {
    var start, end := from.ring.tail, from.ring.head;
    && s.pc == PassPc(6 - n, if n == 1 then s.ring.tail else start, end)
    && s.written == from.written + (if 4 <= n then [Window(start, end)] else [])
    && s.ring.tail == (if 5 <= n then end else start)
    && s.passes == from.passes + (if 5 <= n then 1 else 0)
    && (s.logging <==> 3 <= n <= 5)
  }

  lemma StepInPass(from: Host, s: Host, n: nat, e: Event)
    requires 1 <= n <= 6 && InPass(from, s, n) && Enabled(s, e) && (e.Flusher? ==> n < 6)
    ensures InPass(from, Apply(s, e), if e.Flusher? then n + 1 else n)
  {
  }

  lemma {:induction false} RunInPass(from: Host, s: Host, n: nat, run: seq<Event>)
    requires 1 <= n <= 6 && InPass(from, s, n) && Legal(s, run) && n + FlusherSteps(run) <= 6
    ensures InPass(from, After(s, run), n + FlusherSteps(run))
    decreases run
  {
    if run != [] {
      StepInPass(from, s, n, run[0]);
      RunInPass(from, Apply(s, run[0]), if run[0] == Flusher then n + 1 else n, run[1..]);
    }
  }

  /** A pass, whatever comes between its steps: the window written is from the tail to the head that its first step
      found; after its fifth step tail is that head; the flag is up from its third step to its last. */
  lemma PassOverRuns(s: Host, before: seq<Event>, run: seq<Event>)
    requires Initial(s) && Legal(s, before) && After(s, before).pc == ReadHead
    requires Legal(After(s, before), [Flusher] + run) && FlusherSteps(run) <= 5
    ensures var from, n := After(s, before), 1 + FlusherSteps(run);
            var h := After(from, [Flusher] + run);
            && h.written == from.written + (if 4 <= n then [Window(from.ring.tail, from.ring.head)] else [])
            && h.ring.tail == (if 5 <= n then from.ring.head else from.ring.tail)
            && h.passes == from.passes + (if 5 <= n then 1 else 0)
            && (h.logging <==> 3 <= n <= 5) && (h.pc == ReadHead <==> n == 6)
  {
    RunKeepsInv(s, before);
    var from := After(s, before);
    assert ([Flusher] + run)[1..] == run;
    RunInPass(from, FlusherStep(from), 1, run);
  }

  // ---- Readers

  /** The flag is up before every event of the run, and after the last. */
  ghost predicate FlagStaysUp(s: Host, run: seq<Event>)
    requires Legal(s, run)
    decreases run
  {
    s.logging && (run == [] || FlagStaysUp(Apply(s, run[0]), run[1..]))
  }

  function Reads(run: seq<Event>, r: nat): nat {
    if run == [] then 0 else (if run[0] == SubmitRead(r) then 1 else 0) + Reads(run[1..], r)
  }

  /** Bounded interference: while the logging flag stays up, a response reader submits at most one sector read, and
      none if it was still yielding when the flag went up. */
  lemma {:induction false} BoundedInterference(s: Host, run: seq<Event>, r: nat)
    requires Legal(s, run) && FlagStaysUp(s, run) && r < |s.readers|
    ensures Reads(run, r) <= if s.readers[r].Submitting? then 1 else 0
    decreases run
  {
    if run != [] {
      BoundedInterference(Apply(s, run[0]), run[1..], r);
    }
  }

  /** A reader that yields goes on to submit its read exactly if it finds the flag down. */
  lemma ReaderGoesOnExactly(s: Host, r: nat)
    requires r < |s.readers| && s.readers[r].Yielding?
    ensures Enabled(s, CheckFlag(r))
    ensures Legal(s, [CheckFlag(r), SubmitRead(r)]) <==> !s.logging
  {
    var s' := Apply(s, CheckFlag(r));
    assert [CheckFlag(r), SubmitRead(r)][1..] == [SubmitRead(r)];
    if Enabled(s', SubmitRead(r)) {
      assert Legal(Apply(s', SubmitRead(r)), []);
      StepThenRun(s', SubmitRead(r), []);
      assert [SubmitRead(r)] + [] == [SubmitRead(r)];
    }
  }

  /** The record that holds the byte at an offset. */
  lemma {:induction false} RecordAt(records: seq<Entry>, head: nat, o: nat) returns (i: nat)
    requires Chained(records, head) && o < head
    ensures i < |records| && records[i].at <= o < records[i].End()
  {
    var k := |records| - 1;
    if records[k].at <= o {
      i := k;
    } else {
      i := RecordAt(records[..k], records[k].at, o);
    }
  }

  /** The i-th record is unflushed, and an append of n bytes writes into its cells. */
  ghost predicate Disturbs(s: Host, n: nat, i: nat)
    requires s.ring.Valid() && i < |s.records|
  {
    && s.ring.tail <= s.records[i].at
    && !(Span(s.records[i].at % s.ring.size, |s.records[i].bytes|) !! Span(s.ring.head % s.ring.size, n))
  }

  /** Over every run, an append that the space check lets through writes into the cells of some unflushed record
      if and only if it hits. */
  lemma AppendDisturbsExactly(s: Host, run: seq<Event>, n: nat)
    requires Initial(s) && Legal(s, run) && After(s, run).ring.HasSpace() && 0 < n
    ensures var h := After(s, run);
            && h.ring.Valid()
            && (h.ring.Hits(n) <==> exists i: nat :: i < |h.records| && Disturbs(h, n, i))
  {
    RunKeepsInv(s, run);
    var h := After(s, run);
    if h.ring.Hits(n) {
      var i := HitDisturbs(h, n);
    }
    forall i: nat | i < |h.records| && Disturbs(h, n, i)
      ensures h.ring.Hits(n)
    {
      DisturbedIsHit(h, n, i);
    }
  }

  lemma HitDisturbs(s: Host, n: nat) returns (i: nat)
    requires RingInv(s) && s.ring.HasSpace() && 0 < n && s.ring.Hits(n)
    ensures i < |s.records| && Disturbs(s, n, i)
  {
    i := RecordAt(s.records, s.ring.head, s.ring.tail);
    BoundaryOutside(s.records, s.ring.head, s.ring.tail, i);
    ChainBounds(s.records, s.ring.head, i);
    HitsExactly(s.ring, s.ring.tail, |s.records[i].bytes|, n);
  }

  lemma DisturbedIsHit(s: Host, n: nat, i: nat)
    requires RingInv(s) && s.ring.HasSpace() && 0 < n && i < |s.records| && Disturbs(s, n, i)
    ensures s.ring.Hits(n)
  {
    var e := s.records[i];
    ChainBounds(s.records, s.ring.head, i);
    NoCells(e.at % s.ring.size);
    if e.bytes != [] {
      HitsExactly(s.ring, e.at, |e.bytes|, n);
    }
  }

  lemma NoCells(lo: nat)
    ensures Span(lo, 0) == {}
  {
  }

  lemma AppendKeepsIntact(s: Host, e: Event)
    requires Inv(s) && UnflushedIntact(s) && e.Append? && Enabled(s, e) && !s.ring.Hits(|e.record|)
    ensures RingInv(Apply(s, e)) && UnflushedIntact(Apply(s, e))
  {
    AppendKeepsInv(s, e);
    var s' := Apply(s, e);
    forall x | x in s'.records && s'.ring.tail <= x.at
      ensures |x.bytes| <= EVENT_SIZE && s'.ring.Intact(x.at, x.bytes)
    {
      if x in s.records {
        var i :| 0 <= i < |s.records| && s.records[i] == x;
        ChainBounds(s.records, s.ring.head, i);
        AppendKeepsUnhit(s.ring, e.record, x.at, x.bytes);
      }
    }
  }

  lemma StepKeepsIntact(s: Host, e: Event)
    requires Inv(s) && UnflushedIntact(s) && Enabled(s, e)
    requires e.Append? ==> !s.ring.Hits(|e.record|)
    ensures Inv(Apply(s, e)) && UnflushedIntact(Apply(s, e))
  {
    StepKeepsInv(s, e);
    if e.Append? {
      AppendKeepsIntact(s, e);
    }
  }

  lemma {:induction false} UnhitRunKeepsInv(s: Host, run: seq<Event>)
    requires Inv(s) && UnflushedIntact(s) && Legal(s, run) && Unhit(s, run)
    ensures Inv(After(s, run)) && UnflushedIntact(After(s, run))
    decreases run
  {
    if run != [] {
      StepKeepsIntact(s, run[0]);
      UnhitRunKeepsInv(Apply(s, run[0]), run[1..]);
    }
  }

  /** Over a run whose appends hit no unflushed bytes, every record not yet flushed is in its cells, slack
      cells included. */
  lemma UnhitRunKeepsRecords(s: Host, run: seq<Event>, i: nat)
    requires Initial(s) && Legal(s, run) && Unhit(s, run)
    requires var h := After(s, run); i < |h.records| && h.ring.tail <= h.records[i].at
    ensures var h := After(s, run);
            var e := h.records[i];
            h.ring.Valid() && |e.bytes| <= EVENT_SIZE && h.ring.Intact(e.at, e.bytes)
  {
    UnhitRunKeepsInv(s, run);
    assert After(s, run).records[i] in After(s, run).records;
  }

  // ---- Records less than a lap old

  /** Every record that starts less than a lap behind head is in its cells, flushed or not. */
  ghost predicate RecentIntact(s: Host)
    requires RingInv(s)
  {
    forall e :: e in s.records && s.ring.head <= e.at + s.ring.size
            ==> |e.bytes| <= EVENT_SIZE && s.ring.Intact(e.at, e.bytes)
  }

  lemma AppendKeepsRecent(s: Host, e: Event)
    requires Inv(s) && RecentIntact(s) && e.Append? && Enabled(s, e)
    ensures RingInv(Apply(s, e)) && RecentIntact(Apply(s, e))
  {
    AppendKeepsInv(s, e);
    var s' := Apply(s, e);
    forall x | x in s'.records && s'.ring.head <= x.at + s'.ring.size
      ensures |x.bytes| <= EVENT_SIZE && s'.ring.Intact(x.at, x.bytes)
    {
      if x in s.records {
        var i :| 0 <= i < |s.records| && s.records[i] == x;
        ChainBounds(s.records, s.ring.head, i);
        AppendKeepsRecord(s.ring, e.record, x.at, x.bytes);
      }
    }
  }

  lemma StepKeepsRecent(s: Host, e: Event)
    requires Inv(s) && RecentIntact(s) && Enabled(s, e)
    ensures Inv(Apply(s, e)) && RecentIntact(Apply(s, e))
  {
    StepKeepsInv(s, e);
    if e.Append? {
      AppendKeepsRecent(s, e);
    }
  }

  lemma {:induction false} RunKeepsRecent(s: Host, run: seq<Event>)
    requires Inv(s) && RecentIntact(s) && Legal(s, run)
    ensures Inv(After(s, run)) && RecentIntact(After(s, run))
    decreases run
  {
    if run != [] {
      StepKeepsRecent(s, run[0]);
      RunKeepsRecent(Apply(s, run[0]), run[1..]);
    }
  }
}
