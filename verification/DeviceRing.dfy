/** The audit device's ring and its flusher thread: what the gadget driver appends reaches the log file. */
module DeviceRing {
  import opened Bytes

  /** The largest piece the gadget appends at once. */
  const FSG_BUFLEN: nat := 16384
  /** The ring is allocated this much larger than HARDLOG_DATA_CBUFFSIZE. */
  const SLACK: nat := 2 * 1024 * 1024

  /** Where hardlog_flushd_thread is, with its locals. */
  datatype Pc =
    | Snapshot
    | Whole(start: nat, end: nat, realEnd: nat)
    | First(start: nat, end: nat, realEnd: nat)
    | Second(end: nat, realEnd: nat)
    | StoreTail(realEnd: nat)

  /** What vfs_write does with a request: takes all of it, or less, or none. */
  datatype Vfs = All | Short(taken: nat)

  /** How many of n bytes it takes. */
  function Taken(vfs: Vfs, n: nat): (t: nat)
    ensures t <= n
  {
    if vfs.All? then n else Min(vfs.taken, n)
  }

  /** size stands for HARDLOG_DATA_CBUFFSIZE. received is every byte ever appended; others are the files
      behind the command and response units. */
  datatype Device = Device(size: nat, buf: seq<byte>, head: nat, tail: nat, pc: Pc,
                           file: seq<byte>, pos: nat, endOffset: nat,
                           received: seq<byte>, faststorage: bool, others: map<nat, seq<byte>>) {

    ghost predicate Valid() {
      && 0 < size && |buf| == size + SLACK && tail <= head
      && endOffset <= pos <= |file|
      && match pc
         case Snapshot => true
         case Whole(start, end, realEnd) => start < end < size && tail <= realEnd <= head
         case First(start, end, realEnd) => end < start < size && tail <= realEnd <= head
         case Second(end, realEnd) => end < size && tail <= realEnd <= head
         case StoreTail(realEnd) => tail <= realEnd <= head
    }

    /** The exit condition of the loop in make_space_in_cbuff. */
    predicate HasSpace() {
      head - tail < size
    }

    function Append(data: seq<byte>): (d: Device)
      requires Valid() && |data| <= FSG_BUFLEN
      ensures d.Valid()
    {
      this.(buf := Overwrite(buf, head % size, data), head := head + |data|, received := received + data)
    }

    /** fs_write of the ring's bytes [start, end) at the file position. */
    function FsWrite(end: nat, start: nat, vfs: Vfs): (d: Device)
      requires Valid() && start <= end <= size
      ensures d == this.(file := d.file, pos := d.pos, endOffset := d.endOffset)
      ensures d.Valid()
    {
      var n := Taken(vfs, end - start);
      var pos' := pos + n;
      this.(file := WriteAt(file, pos, buf[start..start + n]), pos := pos',
            endOffset := if 0 < n then pos' else endOffset)
    }
  }

  /** One step of the flusher. */
  function FlushStep(d: Device, vfs: Vfs): (d': Device)
    requires d.Valid()
    ensures d'.Valid()
  {
    match d.pc
    case Snapshot =>
      var end, start := d.head % d.size, d.tail % d.size;
      if end < start then d.(pc := First(start, end, d.head))
      else if 0 < end - start then d.(pc := Whole(start, end, d.head))
      else d
    case Whole(start, end, realEnd) => d.FsWrite(end, start, vfs).(pc := StoreTail(realEnd))
    case First(start, end, realEnd) => d.FsWrite(d.size, start, vfs).(pc := Second(end, realEnd))
    case Second(end, realEnd) => d.FsWrite(end, 0, vfs).(pc := StoreTail(realEnd))
    case StoreTail(realEnd) => d.(pc := Snapshot, tail := realEnd)
  }

  /** Write is one buffer of a WRITE command for the given unit; offset is where its LBA points. */
  datatype Event = Flush(vfs: Vfs) | Write(unit: nat, offset: nat, data: seq<byte>)

  ghost predicate Enabled(d: Device, e: Event) {
    && d.Valid()
    && match e
       case Flush(_) => true
       case Write(unit, offset, data) =>
         if d.faststorage && unit == 0 then d.HasSpace() && |data| <= FSG_BUFLEN
         else if unit == 0 then offset + |data| <= |d.file|
         else unit in d.others && offset + |data| <= |d.others[unit]|
  }

  /** do_hardlog_write takes the log unit's data to the ring, whatever its LBA; do_write takes everything
      else to its file. */
  ghost function Apply(d: Device, e: Event): (d': Device)
    requires Enabled(d, e)
    ensures d'.Valid()
  {
    match e
    case Flush(vfs) => FlushStep(d, vfs)
    case Write(unit, offset, data) =>
      if d.faststorage && unit == 0 then d.Append(data)
      else if unit == 0 then d.(file := WriteAt(d.file, offset, data))
      else d.(others := d.others[unit := WriteAt(d.others[unit], offset, data)])
  }

  ghost predicate Legal(d: Device, run: seq<Event>)
    decreases run
  {
    run == [] || (Enabled(d, run[0]) && Legal(Apply(d, run[0]), run[1..]))
  }

  ghost function After(d: Device, run: seq<Event>): (r: Device)
    requires Legal(d, run)
    ensures d.Valid() ==> r.Valid()
    decreases run
  {
    if run == [] then d else After(Apply(d, run[0]), run[1..])
  }

  /** Nothing has been appended or flushed. */
  ghost predicate Initial(d: Device) {
    && d.Valid() && d.head == 0 && d.tail == 0 && d.pc == Snapshot
    && d.pos == 0 && d.endOffset == 0 && d.received == []
  }

  // ---- Append-only log

  /** The log kept its length and its bytes. */
  ghost predicate Keeps(d: Device, d': Device) {
    && d.endOffset <= d'.endOffset <= |d'.file| && d.endOffset <= |d.file|
    && d'.file[..d.endOffset] == d.file[..d.endOffset]
  }

  lemma StepKeepsLog(d: Device, e: Event)
    requires Enabled(d, e) && d.faststorage
    ensures Keeps(d, Apply(d, e))
  {
    var d' := Apply(d, e);
    assert d'.file[..d.pos] == d.file[..d.pos];
    assert d'.file[..d.pos][..d.endOffset] == d'.file[..d.endOffset];
    assert d.file[..d.pos][..d.endOffset] == d.file[..d.endOffset];
  }

  /** Append-only log: with faststorage on, whatever is written to whichever unit at whatever LBA, and however
      the flusher is scheduled and its writes come out, the end offset never falls and nothing below it
      changes. */
  lemma {:induction false} LogIsAppendOnly(d: Device, run: seq<Event>)
    requires d.Valid() && d.faststorage && Legal(d, run)
    ensures After(d, run).faststorage && Keeps(d, After(d, run))
    decreases run
  {
    if run != [] {
      var d1 := Apply(d, run[0]);
      StepKeepsLog(d, run[0]);
      LogIsAppendOnly(d1, run[1..]);
      var d2 := After(d1, run[1..]);
      assert d2.file[..d1.endOffset][..d.endOffset] == d2.file[..d.endOffset];
      assert d1.file[..d1.endOffset][..d.endOffset] == d1.file[..d.endOffset];
    }
  }

  /** What the gadget would do without: the log unit is a plain file, the ring and the end offset stay as they
      were set up, and each WRITE lands at its LBA. */
  lemma {:induction false} PlainFile(d: Device, run: seq<Event>)
    requires Initial(d) && !d.faststorage && Legal(d, run)
    ensures var r := After(d, run); Initial(r) && !r.faststorage && r.file == Patched(d.file, 0, run)
    decreases run
  {
    if run != [] {
      PlainFile(Apply(d, run[0]), run[1..]);
    }
  }

  /** A file after the run's WRITEs to its unit, each at its own offset. */
  ghost function Patched(file: seq<byte>, unit: nat, run: seq<Event>): seq<byte>
    decreases run
  {
    if run == [] then file
    else
      var e := run[0];
      var file' := if e.Write? && e.unit == unit && e.offset <= |file| then WriteAt(file, e.offset, e.data) else file;
      Patched(file', unit, run[1..])
  }

  /** The units other than the log's are plain files in any case, and no WRITE to another unit touches them. */
  lemma {:induction false} OtherUnits(d: Device, run: seq<Event>, unit: nat)
    requires d.Valid() && Legal(d, run) && unit != 0
    ensures var r := After(d, run);
            && r.others.Keys == d.others.Keys
            && (unit in d.others ==> r.others[unit] == Patched(d.others[unit], unit, run))
    decreases run
  {
    if run != [] {
      OtherUnits(Apply(d, run[0]), run[1..], unit);
    }
  }

  predicate Covers(e: Event, unit: nat, i: nat) {
    e.Write? && e.unit == unit && e.offset <= i < e.offset + |e.data|
  }

  /** The latest WRITE that covers a unit's byte. */
  function LatestWrite(run: seq<Event>, unit: nat, i: nat): (k: Option<nat>)
    ensures k.Some? ==> k.value < |run| && Covers(run[k.value], unit, i)
    ensures forall m :: (if k.Some? then k.value < m else 0 <= m) && m < |run| ==> !Covers(run[m], unit, i)
  {
    if run == [] then None
    else
      var later := LatestWrite(run[1..], unit, i);
      if later.Some? then Some(later.value + 1) else if Covers(run[0], unit, i) then Some(0) else None
  }

  ghost predicate WritesWithin(run: seq<Event>, unit: nat, length: nat) {
    forall e :: e in run && e.Write? && e.unit == unit ==> e.offset + |e.data| <= length
  }

  /** And what such a file holds: each byte is that of the latest WRITE that covers it, and its own if there is none. */
  lemma {:induction false} PatchedByte(file: seq<byte>, unit: nat, run: seq<Event>, i: nat)
    requires i < |file| && WritesWithin(run, unit, |file|)
    ensures |Patched(file, unit, run)| == |file|
    ensures Patched(file, unit, run)[i] ==
            match LatestWrite(run, unit, i)
            case None => file[i]
            case Some(k) => run[k].data[i - run[k].offset]
    decreases run
  {
    if run != [] {
      var e := run[0];
      if e.Write? && e.unit == unit {
        WriteByte(file, e.offset, e.data, i);
        PatchedByte(WriteAt(file, e.offset, e.data), unit, run[1..], i);
      } else {
        PatchedByte(file, unit, run[1..], i);
      }
    }
  }

  lemma WriteByte(file: seq<byte>, at: nat, data: seq<byte>, i: nat)
    requires at + |data| <= |file| && i < |file|
    ensures |WriteAt(file, at, data)| == |file|
    ensures WriteAt(file, at, data)[i] == if at <= i < at + |data| then data[i - at] else file[i]
  {
    WriteAtMeans(file, at, data);
  }

  ghost predicate Changes(d: Device, e: Event, i: nat)
    requires Enabled(d, e)
  {
    i < |d.file| && (|Apply(d, e).file| <= i || Apply(d, e).file[i] != d.file[i])
  }

  /** A run in which e and later e' both change the log file's byte i. */
  ghost predicate Rewrites(d: Device, a: seq<Event>, e: Event, b: seq<Event>, e': Event, i: nat) {
    && Legal(d, a) && Enabled(After(d, a), e) && Changes(After(d, a), e, i)
    && var d1 := Apply(After(d, a), e);
       Legal(d1, b) && Enabled(After(d1, b), e') && Changes(After(d1, b), e', i)
  }

  lemma StepChanges(d: Device, e: Event, i: nat)
    requires Enabled(d, e) && d.faststorage
    ensures Apply(d, e).faststorage && d.pos <= Apply(d, e).pos
    ensures Changes(d, e, i) ==> d.pos <= i < Apply(d, e).pos
  {
    var d' := Apply(d, e);
    if e.Flush? && i < |d.file| {
      FlushChanges(d, e.vfs, i);
    }
  }

  lemma WriteChanges(file: seq<byte>, at: nat, data: seq<byte>, i: nat)
    requires at <= |file| && i < |file|
    ensures var r := WriteAt(file, at, data);
            i < |r| && (r[i] != file[i] ==> at <= i < at + |data|)
  {
    var r := WriteAt(file, at, data);
    if i < at {
      assert r[..at][i] == file[..at][i];
    }
  }

  lemma FsWriteChanges(d: Device, end: nat, start: nat, vfs: Vfs, i: nat)
    requires d.Valid() && start <= end <= d.size && i < |d.file|
    ensures var r := d.FsWrite(end, start, vfs);
            d.pos <= r.pos && i < |r.file| && (r.file[i] != d.file[i] ==> d.pos <= i < r.pos)
  {
    var n := Taken(vfs, end - start);
    WriteChanges(d.file, d.pos, d.buf[start..start + n], i);
  }

  lemma FlushChanges(d: Device, vfs: Vfs, i: nat)
    requires d.Valid() && i < |d.file|
    ensures var d' := FlushStep(d, vfs);
            d.pos <= d'.pos && i < |d'.file| && (d'.file[i] != d.file[i] ==> d.pos <= i < d'.pos)
  {
    match d.pc
    case Whole(start, end, _) => FsWriteChanges(d, end, start, vfs, i);
    case First(start, _, _) => FsWriteChanges(d, d.size, start, vfs, i);
    case Second(end, _) => FsWriteChanges(d, end, 0, vfs, i);
    case _ =>
  }

  lemma {:induction false} PosGrows(d: Device, run: seq<Event>)
    requires d.Valid() && d.faststorage && Legal(d, run)
    ensures After(d, run).faststorage && d.pos <= After(d, run).pos
    decreases run
  {
    if run != [] {
      StepChanges(d, run[0], 0);
      PosGrows(Apply(d, run[0]), run[1..]);
    }
  }

  /** Write once, exactly: from its start, whatever its file holds, the device has a run that changes some byte
      of the log file twice if and only if faststorage is off. */
  lemma WriteOnceExactly(d: Device)
    requires Initial(d) && d.file != []
    ensures (exists a, e, b, e', i :: Rewrites(d, a, e, b, e', i)) <==> !d.faststorage
  {
    if d.faststorage {
      forall a, e, b, e', i
        ensures !Rewrites(d, a, e, b, e', i)
      {
        if Rewrites(d, a, e, b, e', i) {
          NoRewrite(d, a, e, b, e', i);
        }
      }
    } else {
      var other := if d.file[0] == 0 then 1 else 0;
      var e, e' := Write(0, 0, [other]), Write(0, 0, [d.file[0]]);
      var d1 := Apply(d, e);
      assert d1.file[0..1] == e.data;
      assert d1.file[0] == other;
      assert Apply(d1, e').file[0..1] == e'.data;
      assert Rewrites(d, [], e, [], e', 0);
    }
  }

  lemma NoRewrite(d: Device, a: seq<Event>, e: Event, b: seq<Event>, e': Event, i: nat)
    requires d.Valid() && d.faststorage
    ensures !Rewrites(d, a, e, b, e', i)
  {
    if Rewrites(d, a, e, b, e', i) {
      PosGrows(d, a);
      var d1 := After(d, a);
      StepChanges(d1, e, i);
      PosGrows(Apply(d1, e), b);
      StepChanges(After(Apply(d1, e), b), e', i);
    }
  }

  // ---- The ring refines a stream

  /** An append that neither runs past the ring's end nor takes the occupancy past its size. */
  predicate Fits(d: Device, data: seq<byte>)
    requires 0 < d.size
  {
    d.head - d.tail + |data| <= d.size && d.head % d.size + |data| <= d.size
  }

  ghost predicate Tidy(d: Device, run: seq<Event>)
    requires Legal(d, run)
    decreases run
  {
    run == [] ||
    (&& d.faststorage
     && (run[0].Write? && run[0].unit == 0 ==> Fits(d, run[0].data))
     && (run[0].Flush? ==> run[0].vfs == All)
     && Tidy(Apply(d, run[0]), run[1..]))
  }

  /** How much of the stream has reached the file. */
  function Flushed(d: Device): int {
    match d.pc
    case Second(end, realEnd) => realEnd - end
    case StoreTail(realEnd) => realEnd
    case _ => d.tail
  }

  /** Every byte from tail to head is in its cell. */
  ghost predicate RingHolds(d: Device)
    requires d.Valid()
  {
    && |d.received| == d.head && d.head - d.tail <= d.size
    && forall o :: d.tail <= o < d.head ==> d.buf[o % d.size] == d.received[o]
  }

  /** The ring holds the stream, and the pass under way is over a stretch of it. */
  ghost predicate RingInv(d: Device) {
    && d.Valid() && RingHolds(d)
    && match d.pc
       case Snapshot => true
       case Whole(start, end, realEnd) => start == d.tail % d.size && end - start == realEnd - d.tail
       case First(start, end, realEnd) =>
         start == d.tail % d.size && d.size - start + end == realEnd - d.tail && end == realEnd % d.size
       case Second(end, realEnd) => end == realEnd % d.size && d.tail <= realEnd - end
       case StoreTail(_) => true
  }

  ghost predicate Inv(d: Device) {
    && RingInv(d)
    && d.pos == d.endOffset == Flushed(d)
    && d.file[..d.pos] == d.received[..d.pos]
  }

  /** A stretch of the ring that does not wrap holds the stream bytes it stands for. */
  lemma RingSlice(d: Device, lo: nat, n: nat)
    requires d.Valid() && RingHolds(d) && d.tail <= lo && lo + n <= d.head && lo % d.size + n <= d.size
    ensures d.buf[lo % d.size..lo % d.size + n] == d.received[lo..lo + n]
  {
    var at := lo % d.size;
    var got, want := d.buf[at..at + n], d.received[lo..lo + n];
    forall i | 0 <= i < |got|
      ensures got[i] == want[i]
    {
      SameLap(lo, i, d.size);
    }
  }

  lemma SameLap(lo: nat, i: nat, size: nat)
    requires 0 < size && lo % size + i < size
    ensures (lo + i) % size == lo % size + i
  {
    DivModUnique(lo + i, size, lo / size, lo % size + i);
  }

  lemma NewByteInCell(d: Device, data: seq<byte>, i: nat)
    requires d.Valid() && |data| <= FSG_BUFLEN && i < |data| && d.head % d.size + i < d.size
    ensures d.Append(data).buf[(d.head + i) % d.size] == data[i]
  {
    var d', at := d.Append(data), d.head % d.size;
    DivModUnique(d.head + i, d.size, d.head / d.size, at + i);
    assert d'.buf[at..at + |data|][i] == data[i];
  }

  lemma OldByteKeepsCell(d: Device, data: seq<byte>, o: nat)
    requires d.Valid() && |data| <= FSG_BUFLEN && Fits(d, data)
    requires d.tail <= o < d.head
    ensures d.Append(data).buf[o % d.size] == d.buf[o % d.size]
  {
    CellsApart(o, d.head, |data|, d.size);
  }

  lemma AppendHolds(d: Device, data: seq<byte>)
    requires d.Valid() && RingHolds(d) && |data| <= FSG_BUFLEN && Fits(d, data)
    ensures RingHolds(d.Append(data))
  {
    var d' := d.Append(data);
    forall o | d'.tail <= o < d'.head
      ensures d'.buf[o % d.size] == d'.received[o]
    {
      if o < d.head {
        OldByteKeepsCell(d, data, o);
      } else {
        NewByteInCell(d, data, o - d.head);
      }
    }
  }

  /** An older byte less than a lap behind everything being appended keeps its cell. */
  lemma CellsApart(o: nat, head: nat, n: nat, size: nat)
    requires 0 < size && o < head && head + n <= o + size && head % size + n <= size
    ensures o % size < head % size || head % size + n <= o % size
  {
    var q, p := head / size, o / size;
    assert head == q * size + head % size && o == p * size + o % size;
    MulGap(q, p, size);
    MulGap(p + 1, q, size);
    MulDistributes(p, 1, size);
  }

  /** The window a pass snapshots, in one piece or two. */
  lemma SnapshotWindow(size: nat, tail: nat, head: nat)
    requires 0 < size && tail <= head <= tail + size
    ensures var start, end := tail % size, head % size;
            && (end < start ==> head - tail == size - start + end)
            && (start < end ==> head - tail == end - start)
  {
    DifferenceMod(head, tail, size);
    if head == tail + size {
      DivModUnique(head - tail, size, 1, 0);
    } else {
      DivModUnique(head - tail, size, 0, head - tail);
    }
  }

  lemma WriteGrowsFile(file: seq<byte>, pos: nat, data: seq<byte>, received: seq<byte>)
    requires pos <= |file| && pos + |data| <= |received|
    requires file[..pos] == received[..pos] && data == received[pos..pos + |data|]
    ensures WriteAt(file, pos, data)[..pos + |data|] == received[..pos + |data|]
  {
    var r := WriteAt(file, pos, data);
    assert r[..pos + |data|] == r[..pos] + r[pos..pos + |data|];
  }

  /** Writing a stretch of the ring that holds the next stream bytes extends the file's prefix. */
  lemma PieceExtendsFile(d: Device, start: nat, end: nat)
    requires d.Valid() && RingHolds(d) && start <= end <= d.size
    requires d.tail <= d.pos && d.pos + (end - start) <= d.head && d.pos % d.size == start
    requires d.file[..d.pos] == d.received[..d.pos]
    ensures var d' := d.FsWrite(end, start, All);
            && d'.pos == d.pos + (end - start) && d'.file[..d'.pos] == d.received[..d'.pos]
            && (start < end ==> d'.endOffset == d'.pos)
  {
    RingSlice(d, d.pos, end - start);
    WriteGrowsFile(d.file, d.pos, d.buf[start..end], d.received);
  }

  lemma SnapshotKeepsInv(d: Device)
    requires Inv(d) && d.pc == Snapshot
    ensures Inv(FlushStep(d, All))
  {
    SnapshotWindow(d.size, d.tail, d.head);
  }

  lemma WholeKeepsInv(d: Device)
    requires Inv(d) && d.pc.Whole?
    ensures Inv(FlushStep(d, All))
  {
    PieceExtendsFile(d, d.pc.start, d.pc.end);
  }

  lemma FirstKeepsInv(d: Device)
    requires Inv(d) && d.pc.First?
    ensures Inv(FlushStep(d, All))
  {
    PieceExtendsFile(d, d.pc.start, d.size);
  }

  lemma SecondKeepsInv(d: Device)
    requires Inv(d) && d.pc.Second?
    ensures Inv(FlushStep(d, All))
  {
    DivModUnique(d.pos, d.size, d.pc.realEnd / d.size, 0);
    PieceExtendsFile(d, 0, d.pc.end);
  }

  lemma FlushKeepsInv(d: Device)
    requires Inv(d)
    ensures Inv(FlushStep(d, All))
  {
    match d.pc
    case Snapshot => SnapshotKeepsInv(d);
    case Whole(_, _, _) => WholeKeepsInv(d);
    case First(_, _, _) => FirstKeepsInv(d);
    case Second(_, _) => SecondKeepsInv(d);
    case StoreTail(_) =>
  }

  lemma TidyStepKeepsInv(d: Device, e: Event)
    requires Inv(d) && Enabled(d, e) && d.faststorage
    requires e.Write? && e.unit == 0 ==> Fits(d, e.data)
    requires e.Flush? ==> e.vfs == All
    ensures Inv(Apply(d, e)) && Apply(d, e).faststorage
  {
    if e.Flush? {
      FlushKeepsInv(d);
    } else if e.unit == 0 {
      AppendHolds(d, e.data);
      assert (d.received + e.data)[..d.pos] == d.received[..d.pos];
    }
  }

  lemma {:induction false} TidyRunKeepsInv(d: Device, run: seq<Event>)
    requires Inv(d) && Legal(d, run) && Tidy(d, run)
    ensures Inv(After(d, run))
    decreases run
  {
    if run != [] {
      TidyStepKeepsInv(d, run[0]);
      TidyRunKeepsInv(Apply(d, run[0]), run[1..]);
    }
  }

  /** The ring refines a stream: over any interleaving of fitting appends with a flusher whose writes succeed,
      the log file holds exactly the first tail bytes received whenever no pass is under way, and during
      a pass exactly those plus the pieces already written. */
  lemma FileIsStreamPrefix(d: Device, run: seq<Event>)
    requires Initial(d) && Legal(d, run) && Tidy(d, run)
    ensures var r := After(d, run);
            && r.Valid() && r.pos == r.endOffset == Flushed(r) <= |r.received|
            && r.file[..r.pos] == r.received[..r.pos]
            && (r.pc == Snapshot ==> r.pos == r.tail)
  {
    TidyRunKeepsInv(d, run);
  }

  /** One pass of the flusher's loop with no append in between; first and second are what vfs_write makes of
      its requests. */
  function Pass(d: Device, first: Vfs, second: Vfs): (r: Device)
    requires d.Valid() && d.pc == Snapshot
    ensures r.Valid() && r.pc == Snapshot
  {
    var end, start := d.head % d.size, d.tail % d.size;
    if end < start then d.FsWrite(d.size, start, first).FsWrite(end, 0, second).(tail := d.head)
    else if 0 < end - start then d.FsWrite(end, start, first).(tail := d.head)
    else d
  }

  /** A pass is what its steps do when nothing comes between them. */
  lemma PassIsSteps(d: Device, first: Vfs, second: Vfs)
    requires d.Valid() && d.pc == Snapshot
    ensures var d1 := FlushStep(d, first);
            Pass(d, first, second) ==
            if d1.pc == Snapshot then d1
            else if d1.pc.Whole? then FlushStep(FlushStep(d1, first), All)
            else FlushStep(FlushStep(FlushStep(d1, first), second), All)
  {
    var end, start := d.head % d.size, d.tail % d.size;
    if end < start {
      FsWritePc(d, First(start, end, d.head), d.size, start, first);
      FsWritePc(d.FsWrite(d.size, start, first), Second(end, d.head), end, 0, second);
    } else if start < end {
      FsWritePc(d, Whole(start, end, d.head), end, start, first);
    }
  }

  lemma FsWritePc(d: Device, pc: Pc, end: nat, start: nat, vfs: Vfs)
    requires d.Valid() && d.(pc := pc).Valid() && start <= end <= d.size
    ensures d.(pc := pc).FsWrite(end, start, vfs) == d.FsWrite(end, start, vfs).(pc := pc)
  {
  }

  // ---- Passes with appends in between

  function Flushes(run: seq<Event>): nat {
    if run == [] then 0 else (if run[0].Flush? then 1 else 0) + Flushes(run[1..])
  }

  ghost predicate AllTaken(run: seq<Event>) {
    forall e :: e in run && e.Flush? ==> e.vfs == All
  }

  /** How many steps and bytes the flusher has to go in its pass. */
  function StepsLeft(pc: Pc): nat {
    match pc
    case Snapshot => 0
    case Whole(_, _, _) => 2
    case First(_, _, _) => 3
    case Second(_, _) => 2
    case StoreTail(_) => 1
  }

  function BytesLeft(d: Device): int {
    match d.pc
    case Whole(start, end, _) => end - start
    case First(start, end, _) => d.size - start + end
    case Second(end, _) => end
    case _ => 0
  }

  /** The pass, or what it has come to, is the one that found head at realEnd. */
  predicate PassTo(d: Device, realEnd: nat) {
    if d.pc == Snapshot then d.tail == realEnd else d.pc.realEnd == realEnd
  }

  lemma StepInPass(d: Device, e: Event, realEnd: nat)
    requires Enabled(d, e) && PassTo(d, realEnd) && (e.Flush? ==> d.pc != Snapshot)
    ensures var d' := Apply(d, e);
            && PassTo(d', realEnd) && StepsLeft(d'.pc) == StepsLeft(d.pc) - (if e.Flush? then 1 else 0)
            && (d'.pc != Snapshot ==> d'.tail == d.tail)
            && ((e.Flush? ==> e.vfs == All) ==> d'.pos + BytesLeft(d') == d.pos + BytesLeft(d))
  {
  }

  lemma {:induction false} RunInPass(d: Device, run: seq<Event>, realEnd: nat)
    requires d.Valid() && Legal(d, run) && PassTo(d, realEnd) && Flushes(run) <= StepsLeft(d.pc)
    ensures var r := After(d, run);
            && PassTo(r, realEnd) && StepsLeft(r.pc) == StepsLeft(d.pc) - Flushes(run)
            && (r.pc != Snapshot ==> r.tail == d.tail)
            && (AllTaken(run) ==> r.pos + BytesLeft(r) == d.pos + BytesLeft(d))
    decreases run
  {
    if run != [] {
      StepInPass(d, run[0], realEnd);
      RunInPass(Apply(d, run[0]), run[1..], realEnd);
    }
  }

  /** The flusher's steps from one snapshot to the next. */
  function PassSteps(d: Device): nat
    requires 0 < d.size
  {
    if d.head % d.size < d.tail % d.size then 4 else 3
  }

  lemma SnapshotTaken(d: Device, vfs: Vfs)
    requires d.Valid() && d.pc == Snapshot
    ensures var d' := FlushStep(d, vfs);
            if (d.head - d.tail) % d.size == 0 then d' == d
            else
              && d'.pc != Snapshot && PassTo(d', d.head) && d'.tail == d.tail && d'.pos == d.pos
              && StepsLeft(d'.pc) == PassSteps(d) - 1 && BytesLeft(d') == (d.head - d.tail) % d.size
  {
    DifferenceMod(d.head, d.tail, d.size);
  }

  /** Each pass whose occupancy is not 0 modulo the ring size moves tail to its snapshot, whatever is appended
      while it is under way and however its writes come out: after its last step, tail is the head it found,
      and until then it is still at work for that head. If its writes succeed, it has written the occupancy
      modulo the ring size. A pass over an occupancy of 0 modulo the ring size does nothing. */
  lemma PassOverRuns(d: Device, run: seq<Event>)
    requires d.Valid() && d.pc == Snapshot && Legal(d, run)
    requires run != [] && run[0].Flush? && Flushes(run) <= PassSteps(d)
    ensures (d.head - d.tail) % d.size == 0 ==> Apply(d, run[0]) == d
    ensures (d.head - d.tail) % d.size != 0 ==>
              var r := After(d, run);
              if Flushes(run) < PassSteps(d) then r.pc != Snapshot && r.pc.realEnd == d.head && r.tail == d.tail
              else
                && r.pc == Snapshot && r.tail == d.head
                && (AllTaken(run) ==> r.pos == d.pos + (d.head - d.tail) % d.size)
  {
    SnapshotTaken(d, run[0].vfs);
    if (d.head - d.tail) % d.size != 0 {
      RunInPass(Apply(d, run[0]), run[1..], d.head);
      assert AllTaken(run) ==> AllTaken(run[1..]);
    }
  }

  /** The log unit's data in a run's WRITEs. */
  function LogData(run: seq<Event>): seq<byte> {
    if run == [] then [] else Logged(run[0]) + LogData(run[1..])
  }

  function Logged(e: Event): seq<byte> {
    if e.Write? && e.unit == 0 then e.data else []
  }

  lemma StepReceives(d: Device, e: Event)
    requires d.faststorage && Enabled(d, e)
    ensures Apply(d, e).received == d.received + Logged(e) && Apply(d, e).faststorage
  {
  }

  lemma {:induction false} ReceivedIs(d: Device, run: seq<Event>)
    requires d.faststorage && Legal(d, run)
    ensures After(d, run).received == d.received + LogData(run)
    decreases run
  {
    if run != [] {
      StepReceives(d, run[0]);
      ReceivedIs(Apply(d, run[0]), run[1..]);
    }
  }

  lemma {:induction false} ReceivedGrows(d: Device, run: seq<Event>)
    requires d.Valid() && Legal(d, run)
    ensures d.received <= After(d, run).received
    decreases run
  {
    if run != [] {
      ReceivedGrows(Apply(d, run[0]), run[1..]);
    }
  }

  /** A run of a whole pass that finds something to write, with fitting appends in between. */
  ghost predicate WholePass(h: Device, run: seq<Event>) {
    && h.Valid() && h.pc == Snapshot && (h.head - h.tail) % h.size != 0 && Legal(h, run) && Tidy(h, run)
    && run != [] && run[0].Flush? && Flushes(run) == PassSteps(h)
  }

  /** The file is the whole stream as h had received it. */
  ghost predicate Delivered(h: Device, r: Device) {
    && r.pc == Snapshot && r.tail == h.head == |h.received| == r.pos <= |r.file|
    && r.file[..r.pos] == h.received
  }

  /** And what it has written, for fitting appends: when the pass is over, the file is the whole stream received
      before it began, whatever has been appended since. */
  lemma PassDelivers(d: Device, before: seq<Event>, run: seq<Event>)
    requires Initial(d) && Legal(d, before) && Tidy(d, before) && WholePass(After(d, before), run)
    ensures Delivered(After(d, before), After(After(d, before), run))
  {
    TidyRunKeepsInv(d, before);
    PassDeliversFrom(After(d, before), run);
  }

  lemma PassDeliversFrom(h: Device, run: seq<Event>)
    requires Inv(h) && WholePass(h, run)
    ensures Delivered(h, After(h, run))
  {
    TidyRunKeepsInv(h, run);
    PassOverRuns(h, run);
    ReceivedGrows(h, run);
    var r := After(h, run);
    assert r.received[..|h.received|] == h.received;
  }

  // ---- Passes whose writes are not taken whole

  /** Every append of the run fits, whatever comes of the flusher's writes. */
  ghost predicate Fitting(d: Device, run: seq<Event>)
    requires Legal(d, run)
    decreases run
  {
    run == [] ||
    (&& d.faststorage && (run[0].Write? && run[0].unit == 0 ==> Fits(d, run[0].data))
     && Fitting(Apply(d, run[0]), run[1..]))
  }

  lemma FittingStepKeepsRing(d: Device, e: Event)
    requires RingInv(d) && Enabled(d, e) && d.faststorage && (e.Write? && e.unit == 0 ==> Fits(d, e.data))
    ensures RingInv(Apply(d, e))
  {
    match e
    case Flush(_) =>
      if d.pc == Snapshot {
        SnapshotWindow(d.size, d.tail, d.head);
      }
    case Write(unit, _, data) =>
      if unit == 0 {
        AppendHolds(d, data);
      }
  }

  lemma {:induction false} FittingRunKeepsRing(d: Device, run: seq<Event>)
    requires RingInv(d) && Legal(d, run) && Fitting(d, run)
    ensures RingInv(After(d, run))
    decreases run
  {
    if run != [] {
      FittingStepKeepsRing(d, run[0]);
      FittingRunKeepsRing(Apply(d, run[0]), run[1..]);
    }
  }

  /** The stretch of the stream that the flusher's next write is for. */
  function WriteFrom(d: Device): int {
    if d.pc.Second? then d.pc.realEnd - d.pc.end else d.tail
  }

  function WriteLength(d: Device): int {
    match d.pc
    case Whole(start, end, _) => end - start
    case First(start, _, _) => d.size - start
    case Second(end, _) => end
    case _ => 0
  }

  /** n bytes of the stream from lo on have been written at the file position, and nothing else but the flusher has
      moved. */
  ghost predicate Wrote(d: Device, r: Device, lo: int, n: nat) {
    && d.tail <= lo && lo + n <= d.head == |d.received| && d.pos <= |d.file|
    && r == if n == 0 then d.(pc := r.pc)
            else d.(pc := r.pc, file := WriteAt(d.file, d.pos, d.received[lo..lo + n]),
                    pos := d.pos + n, endOffset := d.pos + n)
  }

  /** Over every run with fitting appends, however earlier writes came out, and whatever vfs_write takes of this one:
      exactly that much of the stretch that the write is for follows at the file position. As the tail moves past
      all of the window (PassOverRuns), the rest is lost for good. */
  lemma WriteTakes(d: Device, before: seq<Event>, vfs: Vfs)
    requires Initial(d) && Legal(d, before) && Fitting(d, before)
    requires var h := After(d, before); h.pc.Whole? || h.pc.First? || h.pc.Second?
    ensures var h := After(d, before);
            && h.Valid() && h.tail <= WriteFrom(h) && 0 <= WriteLength(h) && WriteFrom(h) + WriteLength(h) <= h.head
            && Wrote(h, FlushStep(h, vfs), WriteFrom(h), Taken(vfs, WriteLength(h)))
  {
    FittingRunKeepsRing(d, before);
    var h := After(d, before);
    match h.pc
    case Whole(_, _, _) => WholeTakes(h, vfs);
    case First(_, _, _) => FirstTakes(h, vfs);
    case Second(_, _) => SecondTakes(h, vfs);
  }

  lemma WholeTakes(h: Device, vfs: Vfs)
    requires RingInv(h) && h.pc.Whole?
    ensures h.tail + WriteLength(h) <= h.head && Wrote(h, FlushStep(h, vfs), h.tail, Taken(vfs, WriteLength(h)))
  {
    var Whole(start, end, realEnd) := h.pc;
    SliceAt(h, h.tail, start, end);
    FsWriteTakes(h, end, start, vfs, StoreTail(realEnd), h.tail);
  }

  lemma FirstTakes(h: Device, vfs: Vfs)
    requires RingInv(h) && h.pc.First?
    ensures h.tail + WriteLength(h) <= h.head && Wrote(h, FlushStep(h, vfs), h.tail, Taken(vfs, WriteLength(h)))
  {
    var First(start, end, realEnd) := h.pc;
    SliceAt(h, h.tail, start, h.size);
    FsWriteTakes(h, h.size, start, vfs, Second(end, realEnd), h.tail);
  }

  lemma SecondTakes(h: Device, vfs: Vfs)
    requires RingInv(h) && h.pc.Second?
    ensures h.tail <= WriteFrom(h) && Wrote(h, FlushStep(h, vfs), WriteFrom(h), Taken(vfs, WriteLength(h)))
  {
    var Second(end, realEnd) := h.pc;
    SecondSlice(h, realEnd - end, end, realEnd);
    FsWriteTakes(h, end, 0, vfs, StoreTail(realEnd), realEnd - end);
  }

  lemma SecondSlice(h: Device, lo: nat, end: nat, realEnd: nat)
    requires h.Valid() && RingHolds(h) && end == realEnd % h.size && lo == realEnd - end && h.tail <= lo
    requires realEnd <= h.head
    ensures end <= h.size && |h.received| == h.head && h.buf[0..end] == h.received[lo..lo + end]
  {
    SecondStart(realEnd, h.size, end);
    SliceAt(h, lo, 0, end);
  }

  lemma SliceAt(h: Device, lo: nat, start: nat, end: nat)
    requires h.Valid() && RingHolds(h) && start == lo % h.size && start <= end <= h.size
    requires h.tail <= lo && lo + (end - start) <= h.head
    ensures |h.received| == h.head && h.buf[start..end] == h.received[lo..lo + (end - start)]
  {
    RingSlice(h, lo, end - start);
  }

  lemma FsWriteTakes(d: Device, end: nat, start: nat, vfs: Vfs, pc: Pc, lo: nat)
    requires d.Valid() && start <= end <= d.size && d.tail <= lo && lo + (end - start) <= d.head == |d.received|
    requires d.buf[start..end] == d.received[lo..lo + (end - start)]
    ensures Wrote(d, d.FsWrite(end, start, vfs).(pc := pc), lo, Taken(vfs, end - start))
  {
    FirstOfSlices(d.buf, start, d.received, lo, end - start, Taken(vfs, end - start));
    FsWriteIs(d, end, start, vfs);
  }

  lemma FirstOfSlices(a: seq<byte>, i: nat, b: seq<byte>, j: nat, n: nat, m: nat)
    requires m <= n && i + n <= |a| && j + n <= |b| && a[i..i + n] == b[j..j + n]
    ensures a[i..i + m] == b[j..j + m]
  {
    assert a[i..i + n][..m] == a[i..i + m] && b[j..j + n][..m] == b[j..j + m];
  }

  lemma SecondStart(realEnd: nat, size: nat, end: nat)
    requires 0 < size && end == realEnd % size
    ensures end <= realEnd && (realEnd - end) % size == 0
  {
    DivMod(realEnd, size);
    DivModUnique(realEnd - end, size, realEnd / size, 0);
  }

  // ---- Rings that the space check lets fill up

  /** A ring filled to exactly its size is stuck: the flusher takes it for empty and the gadget waits for
      the flusher. */
  lemma {:induction false} FullRingIsStuck(d: Device, run: seq<Event>)
    requires d.Valid() && d.faststorage && d.pc == Snapshot && d.head == d.tail + d.size && Legal(d, run)
    ensures var r := After(d, run); r.head == d.head && r.tail == d.tail && r.file == d.file && r.received == d.received
    decreases run
  {
    if run != [] {
      DifferenceMod(d.head, d.tail, d.size);
      DivModUnique(d.size, d.size, 1, 0);
      FullRingIsStuck(Apply(d, run[0]), run[1..]);
    }
  }

  lemma StepThenRun(d: Device, e: Event, rest: seq<Event>)
    requires Enabled(d, e) && Legal(Apply(d, e), rest)
    ensures Legal(d, [e] + rest) && After(d, [e] + rest) == After(Apply(d, e), rest)
  {
    assert ([e] + rest)[1..] == rest;
  }

  /** The same chunk, n times over, with the flusher asleep. */
  lemma {:induction false} Fill(d: Device, chunk: seq<byte>, n: nat) returns (run: seq<Event>)
    requires d.Valid() && d.faststorage && d.pc == Snapshot && |chunk| <= FSG_BUFLEN
    requires n == 0 || d.head - d.tail + |chunk| * (n - 1) < d.size
    ensures Legal(d, run)
    ensures var r := After(d, run);
            && r.Valid() && r.faststorage && r.pc == Snapshot && r.size == d.size && r.tail == d.tail && r.pos == d.pos
            && r.head == d.head + |chunk| * n
    decreases n
  {
    if n == 0 {
      run := [];
    } else {
      var e := Write(0, 0, chunk);
      MulDistributes(n - 1, 1, |chunk|);
      EarlierToo(|chunk|, n);
      var rest := Fill(Apply(d, e), chunk, n - 1);
      StepThenRun(d, e, rest);
      run := [e] + rest;
    }
  }

  lemma EarlierToo(c: nat, n: nat)
    requires 0 < n
    ensures 0 <= c * (n - 1) && (1 < n ==> c + c * (n - 2) == c * (n - 1))
  {
  }

  /** From its start, a device of any size gets stuck: chunks of any length that divides the ring's, appended
      while the flusher sleeps, fill the ring to exactly its size. */
  lemma RingGetsStuck(d: Device, chunk: seq<byte>) returns (run: seq<Event>)
    requires Initial(d) && d.faststorage && 0 < |chunk| <= FSG_BUFLEN && d.size % |chunk| == 0
    ensures Legal(d, run)
    ensures var r := After(d, run); r.Valid() && r.faststorage && r.pc == Snapshot && r.head == r.tail + r.size
  {
    var n := d.size / |chunk|;
    WholeChunks(d.size, |chunk|);
    run := Fill(d, chunk, n);
  }

  lemma WholeChunks(size: nat, c: nat)
    requires 0 < c && 0 < size && size % c == 0
    ensures var n := size / c; 0 < n && c * n == size && c * (n - 1) < size
  {
    var n := size / c;
    assert size == n * c;
    assert c * (n - 1) == c * n - c;
  }

  // ---- Chunks of one size

  /** All data for the log unit comes in chunks of one size, and the flusher's writes succeed. */
  ghost predicate EqualChunks(run: seq<Event>, chunk: nat) {
    run == [] ||
    (&& (run[0].Write? && run[0].unit == 0 ==> |run[0].data| == chunk)
     && (run[0].Flush? ==> run[0].vfs == All)
     && EqualChunks(run[1..], chunk))
  }

  ghost predicate Aligned(d: Device, chunk: nat)
    requires 0 < chunk
  {
    && d.head % chunk == 0 && d.tail % chunk == 0
    && match d.pc
       case Snapshot => true
       case Whole(_, _, realEnd) => realEnd % chunk == 0
       case First(_, _, realEnd) => realEnd % chunk == 0
       case Second(_, realEnd) => realEnd % chunk == 0
       case StoreTail(realEnd) => realEnd % chunk == 0
  }

  lemma RoomForWhole(x: nat, size: nat, chunk: nat)
    requires 0 < chunk && x % chunk == 0 && size % chunk == 0 && x < size
    ensures x + chunk <= size
  {
    MulGap(x / chunk, size / chunk, chunk);
    assert x == (x / chunk) * chunk && size == (size / chunk) * chunk;
    MulGap(size / chunk, x / chunk, chunk);
  }

  lemma DifferenceMultiple(x: nat, y: nat, chunk: nat)
    requires 0 < chunk && y <= x && x % chunk == 0 && y % chunk == 0
    ensures (x - y) % chunk == 0
  {
    assert x == (x / chunk) * chunk && y == (y / chunk) * chunk;
    MulGap(x / chunk, y / chunk, chunk);
    DivModUnique(x - y, chunk, x / chunk - y / chunk, 0);
  }

  lemma TimesMultiple(q: nat, size: nat, chunk: nat)
    requires 0 < chunk && size % chunk == 0
    ensures (q * size) % chunk == 0
  {
    var k := size / chunk;
    assert size == k * chunk;
    assert q * size == (q * k) * chunk;
    DivModUnique(q * size, chunk, q * k, 0);
  }

  lemma ModMultiple(x: nat, size: nat, chunk: nat)
    requires 0 < chunk && 0 < size && x % chunk == 0 && size % chunk == 0
    ensures (x % size) % chunk == 0
  {
    TimesMultiple(x / size, size, chunk);
    assert x % size == x - (x / size) * size;
    DifferenceMultiple(x, (x / size) * size, chunk);
  }

  /** When every chunk has one size and it divides the ring's, the space check is enough: no append spills
      or overfills, so the file refines the stream without further care. */
  lemma {:induction false} EqualChunksAreTidy(d: Device, run: seq<Event>, chunk: nat)
    requires 0 < chunk <= FSG_BUFLEN && d.Valid() && d.size % chunk == 0 && d.faststorage && Aligned(d, chunk)
    requires Legal(d, run) && EqualChunks(run, chunk)
    ensures Tidy(d, run)
    decreases run
  {
    if run != [] {
      EqualStepIsTidy(d, run[0], chunk);
      EqualChunksAreTidy(Apply(d, run[0]), run[1..], chunk);
    }
  }

  lemma AlignedFlush(d: Device, vfs: Vfs, chunk: nat)
    requires 0 < chunk && d.Valid() && Aligned(d, chunk)
    ensures Aligned(FlushStep(d, vfs), chunk)
  {
  }

  lemma EqualStepIsTidy(d: Device, e: Event, chunk: nat)
    requires 0 < chunk <= FSG_BUFLEN && Enabled(d, e) && d.size % chunk == 0 && d.faststorage && Aligned(d, chunk)
    requires e.Write? && e.unit == 0 ==> |e.data| == chunk
    ensures e.Write? && e.unit == 0 ==> Fits(d, e.data)
    ensures Aligned(Apply(d, e), chunk) && Apply(d, e).size == d.size && Apply(d, e).faststorage
  {
    if e.Flush? {
      AlignedFlush(d, e.vfs, chunk);
    } else if e.unit == 0 {
      DifferenceMultiple(d.head, d.tail, chunk);
      RoomForWhole(d.head - d.tail, d.size, chunk);
      ModMultiple(d.head, d.size, chunk);
      RoomForWhole(d.head % d.size, d.size, chunk);
      DivModUnique(d.head + chunk, chunk, d.head / chunk + 1, 0);
    }
  }

  /** The ring's bytes not yet flushed, when they do not wrap. */
  function Pending(d: Device): seq<byte>
    requires d.Valid()
  {
    var lo, hi := d.tail % d.size, d.head % d.size;
    if lo <= hi then d.buf[lo..hi] else []
  }

  /** What the divisibility rules out: a chunk that runs past the ring's end, though there is room for it. With
      whatever was pending before it, it is flushed with its last bytes replaced by what the ring's first
      cells held; so the file gets the right bytes exactly if those happen to be the same. */
  lemma SpillIsLost(d: Device, data: seq<byte>)
    requires d.Valid() && d.pc == Snapshot && |data| <= FSG_BUFLEN
    requires d.head - d.tail + |data| < d.size < d.head % d.size + |data|
    ensures var kept := d.size - d.head % d.size;
            var stale := d.buf[..|data| - kept];
            var r := Pass(d.Append(data), All, All);
            && r.tail == r.head == d.head + |data|
            && d.pos <= r.pos <= |r.file|
            && r.file[d.pos..r.pos] == Pending(d) + data[..kept] + stale
            && (r.file[d.pos..r.pos] == Pending(d) + data <==> stale == data[kept..])
  {
    var kept := d.size - d.head % d.size;
    SameLapBelow(d.tail, d.head, |data|, d.size);
    WrapPoint(d.head, |data|, d.size);
    SpillLayout(d.buf, d.size, d.tail % d.size, d.head % d.size, data);
    TwoPiecePass(d.Append(data));
    TwoTails(Pending(d), data, kept, d.buf[..|data| - kept]);
  }

  lemma TwoTails(pending: seq<byte>, data: seq<byte>, kept: nat, other: seq<byte>)
    requires kept + |other| == |data|
    ensures pending + data[..kept] + other == pending + data <==> other == data[kept..]
  {
    var a, b := pending + data[..kept] + other, pending + data;
    assert a[|pending| + kept..] == other && b[|pending| + kept..] == data[kept..];
    if other == data[kept..] {
      assert data[..kept] + data[kept..] == data;
      assert a == b;
    }
  }

  lemma SameLapBelow(tail: nat, head: nat, n: nat, size: nat)
    requires 0 < size && tail <= head && head - tail + n < size < head % size + n
    ensures head % size + n - size < tail % size <= head % size
  {
    DifferenceMod(head, tail, size);
    DivModUnique(head - tail, size, 0, head - tail);
  }

  /** And it happens: from its start, a device of any size from 3 on spills a chunk of two bytes, after all but
      one byte of the ring have been filled one by one and flushed. */
  lemma SpillIsReached(d: Device, data: seq<byte>) returns (run: seq<Event>)
    requires Initial(d) && d.faststorage && 3 <= d.size && |data| == 2
    ensures Legal(d, run)
    ensures var r := After(d, run);
            && r.Valid() && r.pc == Snapshot && Enabled(r, Write(0, 0, data)) && r.faststorage
            && r.head - r.tail + |data| < r.size < r.head % r.size + |data|
  {
    var fill := Fill(d, [1], d.size - 1);
    var d1 := After(d, fill);
    DivModUnique(d1.head, d1.size, 0, d.size - 1);
    DivModUnique(0, d1.size, 0, 0);
    var pass := PassRun(d1);
    RunThenRun(d, fill, pass);
    run := fill + pass;
  }

  /** A pass in one piece with nothing in between, as a run. */
  lemma PassRun(d: Device) returns (run: seq<Event>)
    requires d.Valid() && d.pc == Snapshot && d.tail % d.size < d.head % d.size
    ensures Legal(d, run)
    ensures var r := After(d, run);
            && r.Valid() && r.pc == Snapshot && r.size == d.size && r.tail == r.head == d.head
            && r.faststorage == d.faststorage
  {
    var e := Flush(All);
    var d1 := Apply(d, e);
    var d2 := Apply(d1, e);
    var d3 := Apply(d2, e);
    assert Legal(d3, []) && After(d3, []) == d3;
    StepThenRun(d2, e, []);
    StepThenRun(d1, e, [e] + []);
    StepThenRun(d, e, [e] + ([e] + []));
    run := [e] + ([e] + ([e] + []));
  }

  lemma {:induction false} RunThenRun(d: Device, a: seq<Event>, b: seq<Event>)
    requires d.Valid() && Legal(d, a) && Legal(After(d, a), b)
    ensures Legal(d, a + b) && After(d, a + b) == After(After(d, a), b)
    decreases a
  {
    if a == [] {
      assert a + b == b;
    } else {
      var d1 := Apply(d, a[0]);
      assert After(d, a) == After(d1, a[1..]);
      FirstOf(a, b);
      RunThenRun(d1, a[1..], b);
      StepThenRun(d, a[0], a[1..] + b);
    }
  }

  lemma TwoPiecePass(d: Device)
    requires d.Valid() && d.pc == Snapshot && d.head % d.size < d.tail % d.size
    ensures var r := Pass(d, All, All);
            && r.tail == r.head == d.head
            && d.pos <= r.pos <= |r.file|
            && r.file[d.pos..r.pos] == d.buf[d.tail % d.size..d.size] + d.buf[0..d.head % d.size]
  {
    TwoPieces(d.file, d.pos, d.buf[d.tail % d.size..d.size], d.buf[0..d.head % d.size]);
  }

  lemma WrapPoint(head: nat, n: nat, size: nat)
    requires n < size < head % size + n
    ensures (head + n) % size == head % size + n - size
  {
    MulDistributes(head / size, 1, size);
    DivModUnique(head + n, size, head / size + 1, head % size + n - size);
  }

  /** The ring from lo to its end, and its start, after an append that runs past its end. */
  lemma SpillLayout(buf: seq<byte>, size: nat, lo: nat, at: nat, data: seq<byte>)
    requires lo <= at < size < at + |data| <= |buf| && at + |data| - size < lo
    ensures var buf' := Overwrite(buf, at, data);
            var spilled := at + |data| - size;
            buf'[lo..size] == buf[lo..at] + data[..|data| - spilled] && buf'[0..spilled] == buf[..spilled]
  {
    var buf' := Overwrite(buf, at, data);
    assert buf'[at..size] == buf'[at..at + |data|][..size - at];
    assert buf'[lo..size] == buf'[lo..at] + buf'[at..size];
    assert buf'[lo..at] == buf[lo..at];
  }

  lemma TwoPieces(file: seq<byte>, pos: nat, a: seq<byte>, b: seq<byte>)
    requires pos <= |file|
    ensures var r := WriteAt(WriteAt(file, pos, a), pos + |a|, b);
            r[pos..pos + |a| + |b|] == a + b
  {
    var f := WriteAt(file, pos, a);
    var r := WriteAt(f, pos + |a|, b);
    assert r[..pos + |a|] == f[..pos + |a|];
    assert r[pos..pos + |a|] == f[pos..pos + |a|];
  }

  lemma EmptyWrite(file: seq<byte>, pos: nat)
    requires pos <= |file|
    ensures WriteAt(file, pos, []) == file
  {
  }

  lemma FsWriteIs(d: Device, end: nat, start: nat, vfs: Vfs)
    requires d.Valid() && start <= end <= d.size
    ensures var r, n := d.FsWrite(end, start, vfs), Taken(vfs, end - start);
            r == if n == 0 then d
                 else d.(file := WriteAt(d.file, d.pos, d.buf[start..start + n]),
                         pos := d.pos + n, endOffset := d.pos + n)
  {
    EmptyWrite(d.file, d.pos);
  }

  // ---- The driver's own data

  /** data_cbuff, the log file's position, and the flusher that empties one into the other. */
  class DataCbuff {
    const size: nat
    const buffer: array<byte>
    var head: nat
    var tail: nat
    var file: seq<byte>
    var f_pos: nat
    var file_end_offset: nat
    ghost var received: seq<byte>

    ghost predicate Valid()
      reads this, buffer
    {
      buffer.Length == size + SLACK && View().Valid()
    }

    /** The flusher between passes. */
    ghost function View(): Device
      reads this, buffer
    {
      Device(size, buffer[..], head, tail, Snapshot, file, f_pos, file_end_offset, received, true, map[])
    }

    /** hardlog_setup. */
    constructor (size: nat, file: seq<byte>)
      requires 0 < size
      ensures Valid() && Initial(View()) && fresh(buffer) && this.size == size && this.file == file
    {
      this.size := size;
      buffer := new byte[size + SLACK];
      head, tail, f_pos, file_end_offset := 0, 0, 0, 0;
      this.file := file;
      received := [];
    }

    /** make_space_in_cbuff and the copy; false means that the gadget is still waiting for space. */
    method Append(data: seq<byte>) returns (ok: bool)
      requires Valid() && |data| <= FSG_BUFLEN
      modifies this`head, this`received, buffer
      ensures Valid() && ok == old(View().HasSpace())
      ensures View() == if ok then old(View()).Append(data) else old(View())
    {
      ok := head - tail < size;
      if ok {
        CopyInto(buffer, head % size, data);
        head := head + |data|;
        received := received + data;
      }
    }

    /** vfs_write, which takes n bytes. */
    method VfsWrite(start: nat, n: nat)
      requires Valid() && start + n <= size
      modifies this`file, this`f_pos
      ensures file == WriteAt(old(file), old(f_pos), View().buf[start..start + n]) && f_pos == old(f_pos) + n
      ensures n == 0 ==> file == old(file)
    {
      assert buffer[..][start..start + n] == buffer[start..start + n];
      file := WriteAt(file, f_pos, buffer[start..start + n]);
      f_pos := f_pos + n;
      EmptyWrite(old(file), old(f_pos));
    }

    /** fs_write. */
    method FsWrite(end: nat, start: nat, vfs: Vfs)
      requires Valid() && start <= end <= size
      modifies this`file, this`f_pos, this`file_end_offset
      ensures Valid() && View() == old(View()).FsWrite(end, start, vfs)
    {
      ghost var before := View();
      FsWriteIs(before, end, start, vfs);
      if end - start <= 0 {
        return;
      }
      var len := Taken(vfs, end - start);
      VfsWrite(start, len);
      if len <= 0 {
        return;
      }
      file_end_offset := f_pos;
    }

    /** The body of hardlog_flushd_thread's loop; first and second are what vfs_write makes of its two
        requests. */
    method FlushPass(first: Vfs, second: Vfs)
      requires Valid()
      modifies this`file, this`f_pos, this`file_end_offset, this`tail
      ensures Valid() && View() == Pass(old(View()), first, second)
    {
      var real_end := head;
      var end, start := real_end % size, tail % size;
      if end < start {
        FsWrite(size, start, first);
        FsWrite(end, 0, second);
        tail := real_end;
      } else if end - start > 0 {
        FsWrite(end, start, first);
        tail := real_end;
      }
    }
  }
}
