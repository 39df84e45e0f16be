/** The host and its device together: the runs of HostRun, with the staging page, the sectors and the pages that
    each usb_write of the flusher sends. Pages are read from the ring one by one, and producers append in between.
    The device takes every request. */
module HostDevice {
  import opened Bytes
  import opened HostRing
  import opened HostRun
  import opened BioWrite
  import opened HostFlush

  /** One usb_write: the ring as each page was read from it, and when it ended; the ring's size, the window, the
      staging page as the write found it, and its first sector. */
  datatype Flush = Flush(rings: seq<Ring>, ring: Ring, size: nat, start: nat, end: nat, tmp: Page, sector: nat) {
    function Total(): nat {
      if start <= end then end - start else 0
    }

    ghost predicate Good() {
      && |rings| == CeilDiv(Total(), PAGE)
      && ring.Valid() && ring.size == size
      && forall i :: 0 <= i < |rings| ==> rings[i].Valid() && rings[i].size == size
    }

    ghost function Pages(): seq<Page>
      requires Good()
    {
      seq(|rings|, i requires 0 <= i < |rings| => SentPage(rings[i], tmp, start, Total(), i))
    }

    /** The ring as the last page found it. */
    function Last(): Ring {
      if rings == [] then ring else rings[|rings| - 1]
    }

    function Sent(): Flushed {
      Flushed(Last(), start, Total(), CeilDiv(Total(), PAGE))
    }
  }

  /** rings is what the pages of the write under way have found; next is the first sector no page has taken. */
  datatype Rig = Rig(host: Host, rings: seq<Ring>, tmp: Page, next: nat, flushes: seq<Flush>)

  datatype RigEvent = HostStep(e: Event) | ReadPage

  function PagesToRead(pc: Pc): nat {
    if pc.Write? && pc.start <= pc.end then CeilDiv(pc.end - pc.start, PAGE) else 0
  }

  ghost predicate RigEnabled(r: Rig, e: RigEvent) {
    match e
    case HostStep(e) => Enabled(r.host, e) && (WriteEnds(r, e) ==> |r.rings| == PagesToRead(r.host.pc))
    case ReadPage => r.host.pc.Write? && |r.rings| < PagesToRead(r.host.pc)
  }

  /** usb_write returns. */
  predicate WriteEnds(r: Rig, e: Event) {
    e.Flusher? && r.host.pc.Write?
  }

  function ThisFlush(r: Rig): Flush
    requires r.host.pc.Write?
  {
    Flush(r.rings, r.host.ring, r.host.ring.size, r.host.pc.start, r.host.pc.end, r.tmp, r.next)
  }

  ghost function Step(r: Rig, e: RigEvent): Rig
    requires RigEnabled(r, e)
  {
    match e
    case ReadPage => r.(rings := r.rings + [r.host.ring])
    case HostStep(e) =>
      if WriteEnds(r, e) then
        var f := ThisFlush(r);
        Rig(Apply(r.host, e), [], EndTmp(f), r.next + SECTORS_PER_PAGE * |f.rings|, r.flushes + [f])
      else r.(host := Apply(r.host, e))
  }

  /** The staging page as a flush leaves it. */
  ghost function EndTmp(f: Flush): Page {
    if f.Last().Valid() then Staged(f.Last(), f.tmp, f.start, f.Total(), CeilDiv(f.Total(), PAGE)) else f.tmp
  }

  ghost predicate RigLegal(r: Rig, run: seq<RigEvent>)
    decreases run
  {
    run == [] || (RigEnabled(r, run[0]) && RigLegal(Step(r, run[0]), run[1..]))
  }

  ghost function RigAfter(r: Rig, run: seq<RigEvent>): Rig
    requires RigLegal(r, run)
    decreases run
  {
    if run == [] then r else RigAfter(Step(r, run[0]), run[1..])
  }

  /** No append of the run hits unflushed bytes. */
  ghost predicate RigUnhit(r: Rig, run: seq<RigEvent>)
    requires RigLegal(r, run)
    decreases run
  {
    run == [] ||
    (&& (run[0].HostStep? && run[0].e.Append? ==> !r.host.ring.Hits(|run[0].e.record|))
     && RigUnhit(Step(r, run[0]), run[1..]))
  }

  /** After bio_open: the welcome message has the first sector. */
  ghost predicate Opened(r: Rig) {
    Initial(r.host) && r.rings == [] && r.next == 1 && r.flushes == []
  }

  /** The host's part of a run. */
  function HostEvents(run: seq<RigEvent>): seq<Event> {
    if run == [] then []
    else if run[0].HostStep? then [run[0].e] + HostEvents(run[1..])
    else HostEvents(run[1..])
  }

  /** The host of a run of the rig is that of a run of the host, to which all that HostRun says applies. */
  lemma {:induction false} RigIsHostRun(r: Rig, run: seq<RigEvent>)
    requires RigLegal(r, run)
    ensures Legal(r.host, HostEvents(run)) && RigAfter(r, run).host == After(r.host, HostEvents(run))
    decreases run
  {
    if run != [] {
      var r' := Step(r, run[0]);
      RigIsHostRun(r', run[1..]);
      if run[0].HostStep? {
        StepThenRun(r.host, run[0].e, HostEvents(run[1..]));
      }
    }
  }

  // ---- What every step keeps

  ghost predicate AllGood(flushes: seq<Flush>, size: nat) {
    forall f :: f in flushes ==> f.Good() && f.size == size
  }

  lemma FlushGood(flushes: seq<Flush>, size: nat, w: nat)
    requires AllGood(flushes, size) && w < |flushes|
    ensures flushes[w].Good() && flushes[w].size == size
  {
    assert flushes[w] in flushes;
  }

  /** The flushes are those of the windows of the run. */
  ghost predicate SameWindows(flushes: seq<Flush>, written: seq<Window>) {
    && |flushes| == |written|
    && forall i :: 0 <= i < |flushes| ==> flushes[i].start == written[i].start && flushes[i].end == written[i].end
  }

  ghost function SlotsFilled(flushes: seq<Flush>, size: nat): seq<Slot>
    requires AllGood(flushes, size)
  {
    if flushes == [] then []
    else
      var last := flushes[|flushes| - 1];
      SlotsFilled(flushes[..|flushes| - 1], size) + Consecutive(last.sector, last.Pages())
  }

  /** Where the i-th page of the w-th flush is among them. */
  lemma {:induction false} SlotOf(flushes: seq<Flush>, size: nat, w: nat, i: nat) returns (k: nat)
    requires AllGood(flushes, size) && w < |flushes| && i < |flushes[w].rings|
    ensures k < |SlotsFilled(flushes, size)|
    ensures SlotsFilled(flushes, size)[k] == Slot(flushes[w].sector + SECTORS_PER_PAGE * i, flushes[w].Pages()[i])
  {
    var n := |flushes| - 1;
    var front := SlotsFilled(flushes[..n], size);
    if w == n {
      ConsecutiveAt(flushes[n].sector, flushes[n].Pages(), i);
      k := |front| + i;
    } else {
      k := SlotOf(flushes[..n], size, w, i);
    }
  }

  ghost function Sents(flushes: seq<Flush>): (sents: seq<Flushed>)
    ensures |sents| == |flushes|
    ensures forall i :: 0 <= i < |flushes| ==> sents[i] == flushes[i].Sent()
  {
    if flushes == [] then [] else Sents(flushes[..|flushes| - 1]) + [flushes[|flushes| - 1].Sent()]
  }

  lemma SentsRings(flushes: seq<Flush>, size: nat)
    requires AllGood(flushes, size)
    ensures Rings(Sents(flushes))
  {
    forall i | 0 <= i < |flushes|
      ensures Sents(flushes)[i].ring.Valid()
    {
      assert flushes[i] in flushes && flushes[i].Good();
    }
  }

  /** Each flush found the staging page as those before it had left it, and left it as tmp. */
  ghost predicate TmpsFollow(tmp0: Page, flushes: seq<Flush>, tmp: Page) {
    if flushes == [] then tmp == tmp0
    else
      var last := flushes[|flushes| - 1];
      tmp == EndTmp(last) && TmpsFollow(tmp0, flushes[..|flushes| - 1], last.tmp)
  }

  lemma {:induction false} TmpIsStaged(tmp0: Page, flushes: seq<Flush>, size: nat, tmp: Page)
    requires AllGood(flushes, size) && TmpsFollow(tmp0, flushes, tmp)
    ensures Rings(Sents(flushes)) && tmp == StagedBy(tmp0, Sents(flushes))
  {
    SentsRings(flushes, size);
    if flushes != [] {
      var k := |flushes| - 1;
      TmpIsStaged(tmp0, flushes[..k], size, flushes[k].tmp);
      assert Sents(flushes)[..k] == Sents(flushes[..k]);
      assert Sents(flushes)[k] == flushes[k].Sent();
    }
  }

  /** The write under way has read some of its pages, and no other has. */
  ghost predicate ReadingInv(r: Rig) {
    && |r.rings| <= PagesToRead(r.host.pc)
    && forall i :: 0 <= i < |r.rings| ==> r.rings[i].Valid() && r.rings[i].size == r.host.ring.size
  }

  ghost predicate RigInv(r: Rig, tmp0: Page) {
    && Inv(r.host) && ReadingInv(r)
    && AllGood(r.flushes, r.host.ring.size) && SameWindows(r.flushes, r.host.written)
    && 1 <= r.next && InOwnSlots(SlotsFilled(r.flushes, r.host.ring.size), r.next)
    && TmpsFollow(tmp0, r.flushes, r.tmp)
  }

  lemma ReadKeepsRig(r: Rig, tmp0: Page)
    requires RigInv(r, tmp0) && RigEnabled(r, ReadPage)
    ensures RigInv(Step(r, ReadPage), tmp0)
  {
  }

  lemma OneMoreFlush(flushes: seq<Flush>, f: Flush, size: nat, tmp0: Page)
    requires AllGood(flushes, size) && f.Good() && f.size == size
    requires 1 <= f.sector && InOwnSlots(SlotsFilled(flushes, size), f.sector) && TmpsFollow(tmp0, flushes, f.tmp)
    ensures AllGood(flushes + [f], size) && TmpsFollow(tmp0, flushes + [f], EndTmp(f))
    ensures InOwnSlots(SlotsFilled(flushes + [f], size), f.sector + SECTORS_PER_PAGE * |f.rings|)
  {
    assert (flushes + [f])[..|flushes|] == flushes;
    OwnSlotsGrow(SlotsFilled(flushes, size), f.sector, f.Pages(), f.sector + SECTORS_PER_PAGE * |f.rings|);
  }

  lemma WriteKeepsRig(r: Rig, tmp0: Page)
    requires RigInv(r, tmp0) && r.host.pc.Write? && |r.rings| == PagesToRead(r.host.pc)
    ensures RigEnabled(r, HostStep(Flusher)) && RigInv(Step(r, HostStep(Flusher)), tmp0)
    ensures Step(r, HostStep(Flusher)).host.ring == r.host.ring
    ensures Step(r, HostStep(Flusher)).host.records == r.host.records
  {
    var f := ThisFlush(r);
    WriteStep(r.host);
    OneMoreFlush(r.flushes, f, r.host.ring.size, tmp0);
    WindowsGrow(r.flushes, r.host.written, f, Window(f.start, f.end));
  }

  lemma WriteStep(s: Host)
    requires Inv(s) && s.pc.Write?
    ensures var s' := FlusherStep(s);
            && Enabled(s, Flusher) && Apply(s, Flusher) == s' && Inv(s')
            && s'.ring == s.ring && s'.records == s.records && s'.pc.StoreTail?
            && s'.written == s.written + [Window(s.pc.start, s.pc.end)]
  {
    FlusherKeepsInv(s);
  }

  lemma WindowsGrow(flushes: seq<Flush>, written: seq<Window>, f: Flush, w: Window)
    requires SameWindows(flushes, written) && f.start == w.start && f.end == w.end
    ensures SameWindows(flushes + [f], written + [w])
  {
  }

  lemma OtherKeepsRig(r: Rig, e: Event, tmp0: Page)
    requires RigInv(r, tmp0) && Enabled(r.host, e) && !WriteEnds(r, e)
    ensures RigInv(Step(r, HostStep(e)), tmp0)
    ensures Step(r, HostStep(e)).host.ring.size == r.host.ring.size
    ensures Step(r, HostStep(e)).host.records ==
            r.host.records + (if e.Append? then [Entry(r.host.ring.head, e.record)] else [])
  {
    StepKeepsInv(r.host, e);
  }

  lemma StepKeepsRig(r: Rig, e: RigEvent, tmp0: Page)
    requires RigInv(r, tmp0) && RigEnabled(r, e)
    ensures RigInv(Step(r, e), tmp0)
  {
    match e
    case ReadPage => ReadKeepsRig(r, tmp0);
    case HostStep(e) =>
      if WriteEnds(r, e) {
        WriteKeepsRig(r, tmp0);
      } else {
        OtherKeepsRig(r, e, tmp0);
      }
  }

  lemma {:induction false} RunKeepsRig(r: Rig, run: seq<RigEvent>, tmp0: Page)
    requires RigInv(r, tmp0) && RigLegal(r, run)
    ensures RigInv(RigAfter(r, run), tmp0)
    decreases run
  {
    if run != [] {
      StepKeepsRig(r, run[0], tmp0);
      RunKeepsRig(Step(r, run[0]), run[1..], tmp0);
    }
  }

  // ---- What the pages found in the ring

  /** The record is in its cells. */
  ghost predicate Finds(ring: Ring, e: Entry) {
    ring.Valid() && |e.bytes| <= EVENT_SIZE && ring.Intact(e.at, e.bytes)
  }

  /** A page of the window was read from a ring in which every record less than a lap old was in its cells, and,
      if nothing had been hit, every record of the window. head is no less than the ring's was. */
  ghost predicate ReadGood(ring: Ring, records: seq<Entry>, start: nat, end: nat, head: nat, unhit: bool) {
    && ring.head <= head
    && (forall e :: e in records && e.bytes != [] && e.End() <= ring.head <= e.at + ring.size ==> Finds(ring, e))
    && (unhit ==> forall e :: e in records && e.bytes != [] && start <= e.at && e.End() <= end ==> Finds(ring, e))
  }

  ghost predicate ReadsGood(rings: seq<Ring>, records: seq<Entry>, start: nat, end: nat, head: nat, unhit: bool) {
    forall i :: 0 <= i < |rings| ==> ReadGood(rings[i], records, start, end, head, unhit)
  }

  ghost predicate FlushesRead(flushes: seq<Flush>, records: seq<Entry>, head: nat, unhit: bool) {
    forall f :: f in flushes ==> ReadsGood(f.rings, records, f.start, f.end, head, unhit)
  }

  ghost predicate AllReadsGood(r: Rig, unhit: bool) {
    && (r.host.pc.Write? ==>
          ReadsGood(r.rings, r.host.records, r.host.pc.start, r.host.pc.end, r.host.ring.head, unhit))
    && FlushesRead(r.flushes, r.host.records, r.host.ring.head, unhit)
  }

  lemma ReadNow(s: Host, unhit: bool)
    requires Inv(s) && RecentIntact(s) && (unhit ==> UnflushedIntact(s)) && s.pc.Write?
    ensures ReadGood(s.ring, s.records, s.pc.start, s.pc.end, s.ring.head, unhit)
  {
  }

  lemma ReadLater(ring: Ring, records: seq<Entry>, start: nat, end: nat, head: nat, unhit: bool, e: Entry, head': nat)
    requires ReadGood(ring, records, start, end, head, unhit) && end <= head <= e.at && head <= head'
    ensures ReadGood(ring, records + [e], start, end, head', unhit)
  {
  }

  lemma ReadsLater(rings: seq<Ring>, records: seq<Entry>, start: nat, end: nat, head: nat, unhit: bool,
                   e: Entry, head': nat)
    requires ReadsGood(rings, records, start, end, head, unhit) && end <= head <= e.at && head <= head'
    ensures ReadsGood(rings, records + [e], start, end, head', unhit)
  {
    forall i | 0 <= i < |rings|
      ensures ReadGood(rings[i], records + [e], start, end, head', unhit)
    {
      ReadLater(rings[i], records, start, end, head, unhit, e, head');
    }
  }

  lemma FlushesLater(flushes: seq<Flush>, records: seq<Entry>, head: nat, unhit: bool, e: Entry, head': nat)
    requires FlushesRead(flushes, records, head, unhit) && head <= e.at && head <= head'
    requires forall f :: f in flushes ==> f.end <= head
    ensures FlushesRead(flushes, records + [e], head', unhit)
  {
    forall f | f in flushes
      ensures ReadsGood(f.rings, records + [e], f.start, f.end, head', unhit)
    {
      ReadsLater(f.rings, records, f.start, f.end, head, unhit, e, head');
    }
  }

  lemma WindowsPast(r: Rig, tmp0: Page)
    requires RigInv(r, tmp0)
    ensures forall f :: f in r.flushes ==> f.end <= r.host.ring.head
  {
    TiledMeans(r.host.written, Written(r.host));
  }

  lemma GoodAfterAppend(r: Rig, e: Event, unhit: bool)
    requires AllReadsGood(r, unhit) && e.Append? && Enabled(r.host, e)
    requires r.host.pc.Write? ==> r.host.pc.end <= r.host.ring.head
    requires forall f :: f in r.flushes ==> f.end <= r.host.ring.head
    ensures AllReadsGood(Step(r, HostStep(e)), unhit)
  {
    var entry := Entry(r.host.ring.head, e.record);
    var head, head' := r.host.ring.head, r.host.ring.head + |e.record|;
    if r.host.pc.Write? {
      ReadsLater(r.rings, r.host.records, r.host.pc.start, r.host.pc.end, head, unhit, entry, head');
    }
    FlushesLater(r.flushes, r.host.records, head, unhit, entry, head');
  }

  lemma GoodAfterRead(r: Rig, tmp0: Page, unhit: bool)
    requires RigInv(r, tmp0) && AllReadsGood(r, unhit) && RigEnabled(r, ReadPage)
    requires RecentIntact(r.host) && (unhit ==> UnflushedIntact(r.host))
    ensures AllReadsGood(Step(r, ReadPage), unhit)
  {
    ReadNow(r.host, unhit);
  }

  lemma GoodAfterOther(r: Rig, e: Event, unhit: bool)
    requires ReadingInv(r) && AllReadsGood(r, unhit) && !e.Append? && RigEnabled(r, HostStep(e))
    ensures AllReadsGood(Step(r, HostStep(e)), unhit)
  {
  }

  lemma StepKeepsGood(r: Rig, e: RigEvent, tmp0: Page, unhit: bool)
    requires RigInv(r, tmp0) && AllReadsGood(r, unhit) && RigEnabled(r, e)
    requires RecentIntact(r.host) && (unhit ==> UnflushedIntact(r.host))
    ensures AllReadsGood(Step(r, e), unhit)
  {
    match e
    case ReadPage => GoodAfterRead(r, tmp0, unhit);
    case HostStep(e) =>
      if e.Append? {
        WindowsPast(r, tmp0);
        GoodAfterAppend(r, e, unhit);
      } else {
        GoodAfterOther(r, e, unhit);
      }
  }

  /** A step of the rig, as far as its host goes. */
  lemma HostKeeps(r: Rig, e: RigEvent, unhit: bool)
    requires Inv(r.host) && RecentIntact(r.host) && (unhit ==> UnflushedIntact(r.host)) && RigEnabled(r, e)
    requires unhit && e.HostStep? && e.e.Append? ==> !r.host.ring.Hits(|e.e.record|)
    ensures var s := Step(r, e).host; Inv(s) && RecentIntact(s) && (unhit ==> UnflushedIntact(s))
  {
    if e.HostStep? {
      StepKeepsRecent(r.host, e.e);
      if unhit {
        StepKeepsIntact(r.host, e.e);
      }
    }
  }

  lemma {:induction false} RunKeepsGood(r: Rig, run: seq<RigEvent>, tmp0: Page, unhit: bool)
    requires RigInv(r, tmp0) && AllReadsGood(r, unhit) && RecentIntact(r.host)
    requires (unhit ==> UnflushedIntact(r.host)) && RigLegal(r, run) && (unhit ==> RigUnhit(r, run))
    ensures RigInv(RigAfter(r, run), tmp0) && AllReadsGood(RigAfter(r, run), unhit)
    ensures RecentIntact(RigAfter(r, run).host) && (unhit ==> UnflushedIntact(RigAfter(r, run).host))
    decreases run
  {
    if run != [] {
      StepKeepsRig(r, run[0], tmp0);
      StepKeepsGood(r, run[0], tmp0, unhit);
      HostKeeps(r, run[0], unhit);
      RunKeepsGood(Step(r, run[0]), run[1..], tmp0, unhit);
    }
  }

  // ---- What is on the device

  /** The device, whatever requests the pages were gathered into. */
  ghost function OnDevice(r: Rig, disk: Disk): Disk
    requires AllGood(r.flushes, r.host.ring.size)
  {
    WriteSlots(disk, SlotsFilled(r.flushes, r.host.ring.size))
  }

  ghost predicate Holds(disk: Disk, s: nat, x: nat, b: byte)
    requires x < SECTOR
  {
    s in disk && |disk[s]| == SECTOR && disk[s][x] == b
  }

  lemma PageOnDevice(r: Rig, disk: Disk, tmp0: Page, w: nat, i: nat, b: nat)
    requires RigInv(r, tmp0) && w < |r.flushes| && i < |r.flushes[w].rings| && b < PAGE
    ensures r.flushes[w].Good()
    ensures var s := r.flushes[w].sector + SECTORS_PER_PAGE * i + b / SECTOR;
            Holds(OnDevice(r, disk), s, b % SECTOR, r.flushes[w].Pages()[i][b])
  {
    var f := r.flushes[w];
    FlushGood(r.flushes, r.host.ring.size, w);
    var k := SlotOf(r.flushes, r.host.ring.size, w, i);
    var slots := SlotsFilled(r.flushes, r.host.ring.size);
    SlotOnDevice(disk, slots, r.next, k, f.sector + SECTORS_PER_PAGE * i, f.Pages()[i], b);
  }

  lemma SlotOnDevice(disk: Disk, slots: seq<Slot>, next: nat, k: nat, sector: nat, page: Page, b: nat)
    requires InOwnSlots(slots, next) && k < |slots| && slots[k] == Slot(sector, page) && b < PAGE
    ensures Holds(WriteSlots(disk, slots), sector + b / SECTOR, b % SECTOR, page[b])
  {
    SlotStays(disk, slots, next, k, b);
  }

  /** The p-th byte of a flush's pages is on the device, in the sector that many bytes on from its first. */
  lemma PageByteOnDevice(r: Rig, disk: Disk, tmp0: Page, w: nat, p: nat)
    requires RigInv(r, tmp0) && w < |r.flushes| && p / PAGE < |r.flushes[w].rings|
    ensures r.flushes[w].Good()
    ensures var f := r.flushes[w];
            Holds(OnDevice(r, disk), f.sector + p / SECTOR, p % SECTOR, f.Pages()[p / PAGE][p % PAGE])
  {
    PageOnDevice(r, disk, tmp0, w, p / PAGE, p % PAGE);
    SectorOfByte(p);
  }

  lemma SectorOfByte(p: nat)
    ensures SECTORS_PER_PAGE * (p / PAGE) + (p % PAGE) / SECTOR == p / SECTOR && (p % PAGE) % SECTOR == p % SECTOR
  {
    var q, b := p / PAGE, p % PAGE;
    assert p == SECTOR * (SECTORS_PER_PAGE * q + b / SECTOR) + b % SECTOR;
    DivModUnique(p, SECTOR, SECTORS_PER_PAGE * q + b / SECTOR, b % SECTOR);
  }

  /** The byte for the offset is on the device where the w-th flush places it. */
  ghost predicate ByteOnDevice(r: Rig, disk: Disk, w: nat, o: nat, b: byte)
    requires AllGood(r.flushes, r.host.ring.size) && w < |r.flushes|
  {
    var f := r.flushes[w];
    && Place(f.start, f.Total(), o).Some?
    && var p := Place(f.start, f.Total(), o).value;
       Holds(OnDevice(r, disk), f.sector + p / SECTOR, p % SECTOR, b)
  }

  /** The flush carries the j-th byte of the record, and found the record in its cells when it read that page. */
  ghost predicate Catches(f: Flush, e: Entry, j: nat)
    requires 0 < f.size
  {
    && Carried(f.size, f.start, f.Total(), e.at, e.at + j)
    && var i := Place(f.start, f.Total(), e.at + j).value / PAGE;
       i < |f.rings| && Finds(f.rings[i], e)
  }

  lemma CaughtPage(f: Flush, e: Entry, j: nat)
    requires f.Good() && 0 < f.size && j < |e.bytes| && Catches(f, e, j)
    ensures var p := Place(f.start, f.Total(), e.at + j).value;
            p / PAGE < |f.rings| && f.Pages()[p / PAGE][p % PAGE] == e.bytes[j]
  {
    var p := Place(f.start, f.Total(), e.at + j).value;
    ByteDelivered(f.rings[p / PAGE], f.tmp, f.start, f.Total(), e.at, e.bytes, j);
  }

  /** Every byte that some flush has caught is on the device. */
  lemma CaughtOnDevice(r: Rig, disk: Disk, tmp0: Page, w: nat, e: Entry, j: nat)
    requires RigInv(r, tmp0) && w < |r.flushes| && j < |e.bytes| && Catches(r.flushes[w], e, j)
    ensures ByteOnDevice(r, disk, w, e.at + j, e.bytes[j])
  {
    var f := r.flushes[w];
    FlushGood(r.flushes, r.host.ring.size, w);
    CaughtPage(f, e, j);
    PageByteOnDevice(r, disk, tmp0, w, Place(f.start, f.Total(), e.at + j).value);
  }

  /** The flush carries the byte, and either the record is of its own window, or it was less than a lap old when
      its page was read. */
  ghost predicate InReach(f: Flush, e: Entry, j: nat)
    requires 0 < f.size
  {
    && Carried(f.size, f.start, f.Total(), e.at, e.at + j)
    && var i := Place(f.start, f.Total(), e.at + j).value / PAGE;
       && i < |f.rings|
       && ((f.start <= e.at && e.End() <= f.end) || e.End() <= f.rings[i].head <= e.at + f.size)
  }

  lemma ReachCatches(r: Rig, tmp0: Page, w: nat, e: Entry, j: nat)
    requires RigInv(r, tmp0) && AllReadsGood(r, true) && w < |r.flushes| && e in r.host.records && j < |e.bytes|
    requires InReach(r.flushes[w], e, j)
    ensures Catches(r.flushes[w], e, j)
  {
    var f := r.flushes[w];
    assert f in r.flushes && f.Good() && f.size == r.host.ring.size;
    var i := Place(f.start, f.Total(), e.at + j).value / PAGE;
    assert ReadsGood(f.rings, r.host.records, f.start, f.end, r.host.ring.head, true);
    assert ReadGood(f.rings[i], r.host.records, f.start, f.end, r.host.ring.head, true);
  }

  /** Every byte of the record that a flush has in reach is on the device. */
  ghost predicate RecordOnDevice(r: Rig, disk: Disk, e: Entry)
    requires AllGood(r.flushes, r.host.ring.size) && 0 < r.host.ring.size
  {
    forall w, j {:trigger ByteOnDevice(r, disk, w, e.at + j, e.bytes[j])} ::
      0 <= w < |r.flushes| && 0 <= j < |e.bytes| && r.flushes[w].size == r.host.ring.size && InReach(r.flushes[w], e, j)
      ==> ByteOnDevice(r, disk, w, e.at + j, e.bytes[j])
  }

  lemma ReachedOnDevice(r: Rig, disk: Disk, tmp0: Page, e: Entry)
    requires RigInv(r, tmp0) && AllReadsGood(r, true) && e in r.host.records
    ensures RecordOnDevice(r, disk, e)
  {
    forall w, j |
      0 <= w < |r.flushes| && 0 <= j < |e.bytes| && r.flushes[w].size == r.host.ring.size && InReach(r.flushes[w], e, j)
      ensures ByteOnDevice(r, disk, w, e.at + j, e.bytes[j])
    {
      ReachCatches(r, tmp0, w, e, j);
      CaughtOnDevice(r, disk, tmp0, w, e, j);
    }
  }

  // ---- Priority syscalls

  /** In some reachable state a priority syscall appends its record, and by the end of the run it has stopped
      waiting. */
  ghost predicate RigServed(r: Rig, before: seq<RigEvent>, record: seq<byte>, after: seq<RigEvent>) {
    && Opened(r) && RigLegal(r, before)
    && var r0, e := RigAfter(r, before), HostStep(Append(record, true));
       && RigEnabled(r0, e) && RigLegal(Step(r0, e), after)
       && |r0.host.tickets| !in RigAfter(Step(r0, e), after).host.waiting
  }

  /** The end of that run. */
  ghost function Served(r: Rig, before: seq<RigEvent>, record: seq<byte>, after: seq<RigEvent>): Rig
    requires RigServed(r, before, record, after)
  {
    RigAfter(Step(RigAfter(r, before), HostStep(Append(record, true))), after)
  }

  /** None of its appends hits unflushed bytes. */
  ghost predicate ServedUnhit(r: Rig, before: seq<RigEvent>, record: seq<byte>, after: seq<RigEvent>)
    requires RigServed(r, before, record, after)
  {
    var r0 := RigAfter(r, before);
    && RigUnhit(r, before) && !r0.host.ring.Hits(|record|)
    && RigUnhit(Step(r0, HostStep(Append(record, true))), after)
  }

  lemma ServedKeepsGood(r: Rig, before: seq<RigEvent>, record: seq<byte>, after: seq<RigEvent>)
    requires RigServed(r, before, record, after) && ServedUnhit(r, before, record, after)
    ensures RigInv(Served(r, before, record, after), r.tmp) && AllReadsGood(Served(r, before, record, after), true)
  {
    var e := HostStep(Append(record, true));
    RunKeepsGood(r, before, r.tmp, true);
    var r0 := RigAfter(r, before);
    StepKeepsRig(r0, e, r.tmp);
    StepKeepsGood(r0, e, r.tmp, true);
    HostKeeps(r0, e, true);
    RunKeepsGood(Step(r0, e), after, r.tmp, true);
  }

  lemma ServedIsHostRun(r: Rig, before: seq<RigEvent>, record: seq<byte>, after: seq<RigEvent>)
    requires RigServed(r, before, record, after)
    ensures PriorityServed(r.host, HostEvents(before), record, HostEvents(after))
    ensures After(r.host, HostEvents(before)) == RigAfter(r, before).host
    ensures After(Apply(RigAfter(r, before).host, Append(record, true)), HostEvents(after)) ==
            Served(r, before, record, after).host
  {
    RigIsHostRun(r, before);
    RigIsHostRun(Step(RigAfter(r, before), HostStep(Append(record, true))), after);
  }

  /** The i-th of the records up to the syscall's own is in a flushed window. */
  lemma PriorityFlushed(r: Rig, before: seq<RigEvent>, record: seq<byte>, after: seq<RigEvent>, i: nat)
    returns (w: nat)
    requires RigServed(r, before, record, after) && ServedUnhit(r, before, record, after)
    requires i <= |RigAfter(r, before).host.records|
    ensures var s0, h := RigAfter(r, before).host, Served(r, before, record, after);
            && RigInv(h, r.tmp) && AllReadsGood(h, true)
            && i < |h.host.records| && s0.records + [Entry(s0.ring.head, record)] <= h.host.records
            && (h.host.records[i].bytes != [] ==>
                  && w < |h.flushes| && h.flushes[w].start <= h.host.records[i].at
                  && h.host.records[i].End() <= h.flushes[w].end)
  {
    ServedKeepsGood(r, before, record, after);
    ServedIsHostRun(r, before, record, after);
    ServedIsReached(r.host, HostEvents(before), record, HostEvents(after));
    var h := Served(r, before, record, after);
    EarlierEnds(h.host.records, h.host.ring.head, |RigAfter(r, before).host.records|, i);
    w := 0;
    if h.host.records[i].bytes != [] {
      w := RecordInOneWindow(h.host.written, Written(h.host), h.host.records, h.host.ring.head, i);
    }
  }

  /** Priority durability, down to the device: over a run whose appends hit no unflushed bytes, wherever among the
      pages of a write they come, once a priority syscall has stopped waiting, its own record and every record
      before it lie whole in a window that was flushed; and every byte of them that this flush or another has
      in reach, which CarriedExactly, SentExactly and PlainWindowCarries tell, is on the device, in the sector
      and at the offset given by its place. */
  lemma PriorityOnDevice(r: Rig, disk: Disk, before: seq<RigEvent>, record: seq<byte>, after: seq<RigEvent>, i: nat)
    returns (w: nat)
    requires RigServed(r, before, record, after) && ServedUnhit(r, before, record, after)
    requires i <= |RigAfter(r, before).host.records|
    ensures var s0, h := RigAfter(r, before).host, Served(r, before, record, after);
            && AllGood(h.flushes, h.host.ring.size) && 0 < h.host.ring.size
            && SameWindows(h.flushes, h.host.written) && Tiled(h.host.written, Written(h.host))
            && i < |h.host.records| && s0.records + [Entry(s0.ring.head, record)] <= h.host.records
            && var e := h.host.records[i];
               && (e.bytes != [] ==> w < |h.flushes| && h.flushes[w].start <= e.at && e.End() <= h.flushes[w].end)
               && RecordOnDevice(h, disk, e)
  {
    w := PriorityFlushed(r, before, record, after, i);
    var h := Served(r, before, record, after);
    ReachedOnDevice(h, disk, r.tmp, h.host.records[i]);
  }

  /** The padding of a flush, over a run: what the latest longer last page left, or what the staging page was
      allocated with. */
  lemma PaddingOverRun(r: Rig, run: seq<RigEvent>, w: nat, q: nat)
    requires Opened(r) && RigLegal(r, run) && w < |RigAfter(r, run).flushes|
    requires var f := RigAfter(r, run).flushes[w]; 0 < f.Total() % PAGE <= q < PAGE
    ensures var h := RigAfter(r, run);
            var f := h.flushes[w];
            && f.Good() && Rings(Sents(h.flushes[..w]))
            && |f.rings| == f.Total() / PAGE + 1
            && f.Pages()[f.Total() / PAGE][q] == LatestByte(r.tmp, Sents(h.flushes[..w]), q)
  {
    RunKeepsRig(r, run, r.tmp);
    var h := RigAfter(r, run);
    var f := h.flushes[w];
    assert f in h.flushes && f.Good();
    TmpBefore(r.tmp, h.flushes, h.tmp, w);
    TmpIsStaged(r.tmp, h.flushes[..w], h.host.ring.size, f.tmp);
    PaddingIsStale(r.tmp, Sents(h.flushes[..w]), f.Last(), f.start, f.Total(), q);
  }

  lemma {:induction false} TmpBefore(tmp0: Page, flushes: seq<Flush>, tmp: Page, w: nat)
    requires TmpsFollow(tmp0, flushes, tmp) && w < |flushes|
    ensures TmpsFollow(tmp0, flushes[..w], flushes[w].tmp)
  {
    var k := |flushes| - 1;
    if w < k {
      var front := flushes[..k];
      assert front[..w] == flushes[..w] && front[w] == flushes[w];
      TmpBefore(tmp0, front, flushes[k].tmp, w);
    }
  }

  // ---- No gaps between flushes

  ghost function AllPages(flushes: seq<Flush>, size: nat): seq<Page>
    requires AllGood(flushes, size)
  {
    if flushes == [] then [] else AllPages(flushes[..|flushes| - 1], size) + flushes[|flushes| - 1].Pages()
  }

  /** Each flush starts at the sector where the one before it ended. */
  ghost predicate Laid(flushes: seq<Flush>, next: nat) {
    if flushes == [] then next == 1
    else
      var last := flushes[|flushes| - 1];
      next == last.sector + SECTORS_PER_PAGE * |last.rings| && Laid(flushes[..|flushes| - 1], last.sector)
  }

  lemma {:induction false} LaidEndToEnd(flushes: seq<Flush>, size: nat, next: nat)
    requires AllGood(flushes, size) && Laid(flushes, next)
    ensures next == 1 + SECTORS_PER_PAGE * |AllPages(flushes, size)|
    ensures SlotsFilled(flushes, size) == Consecutive(1, AllPages(flushes, size))
  {
    if flushes != [] {
      var k := |flushes| - 1;
      var front := AllPages(flushes[..k], size);
      LaidEndToEnd(flushes[..k], size, flushes[k].sector);
      ConsecutiveJoined(1, front, flushes[k].Pages());
    }
  }

  lemma {:induction false} RunIsLaid(r: Rig, run: seq<RigEvent>)
    requires Laid(r.flushes, r.next) && RigLegal(r, run)
    ensures Laid(RigAfter(r, run).flushes, RigAfter(r, run).next)
    decreases run
  {
    if run != [] {
      var r' := Step(r, run[0]);
      if run[0].HostStep? && WriteEnds(r, run[0].e) {
        assert r'.flushes[..|r.flushes|] == r.flushes;
      }
      RunIsLaid(r', run[1..]);
    }
  }

  /** Over every run, the pages of all flushes fill the sectors behind the welcome message without a gap. */
  lemma PagesFillSectors(r: Rig, run: seq<RigEvent>)
    requires Opened(r) && RigLegal(r, run)
    ensures var h := RigAfter(r, run);
            && AllGood(h.flushes, h.host.ring.size)
            && h.next == 1 + SECTORS_PER_PAGE * |AllPages(h.flushes, h.host.ring.size)|
            && SlotsFilled(h.flushes, h.host.ring.size) == Consecutive(1, AllPages(h.flushes, h.host.ring.size))
  {
    RunKeepsRig(r, run, r.tmp);
    RunIsLaid(r, run);
    LaidEndToEnd(RigAfter(r, run).flushes, RigAfter(r, run).host.ring.size, RigAfter(r, run).next);
  }

  /** Where the w-th flush's pages are among all pages, and on the device. */
  lemma {:induction false} PagesOf(flushes: seq<Flush>, size: nat, next: nat, w: nat, i: nat) returns (k: nat)
    requires AllGood(flushes, size) && Laid(flushes, next) && w < |flushes| && i < |flushes[w].rings|
    ensures flushes[w] in flushes
    ensures k < |AllPages(flushes, size)| && AllPages(flushes, size)[k] == flushes[w].Pages()[i]
    ensures flushes[w].sector + SECTORS_PER_PAGE * i == 1 + SECTORS_PER_PAGE * k
  {
    var n := |flushes| - 1;
    if w == n {
      LaidEndToEnd(flushes[..n], size, flushes[n].sector);
      k := |AllPages(flushes[..n], size)| + i;
    } else {
      var front := flushes[..n];
      assert front[w] == flushes[w];
      k := PagesOf(front, size, flushes[n].sector, w, i);
    }
  }
}
