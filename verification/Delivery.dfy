/** The whole way of a record: the pages of the host's flushes, as WRITE commands, through the gadget's transfers and
    the device ring to the log file. */
module Delivery {
  import opened Bytes
  import opened HostRing
  import HostRun
  import opened BioWrite
  import opened HostFlush
  import opened HostDevice
  import DeviceRing
  import UsbTransfer

  // ---- Commands

  /** A WRITE command for the log unit that the gadget has been through, and the data it was sent with. */
  datatype Transfer = Transfer(c: UsbTransfer.Command, x: UsbTransfer.Xfer, run: seq<UsbTransfer.Event>,
                               payload: seq<byte>)

  ghost predicate Clean(t: Transfer) {
    && UsbTransfer.Initial(t.c, t.x) && UsbTransfer.WholeBlocks(t.c) && |t.payload| == t.c.total
    && UsbTransfer.Legal(t.c, t.x, t.run) && UsbTransfer.Clean(t.c, t.x, t.run, t.payload)
    && UsbTransfer.After(t.c, t.x, t.run).exit != UsbTransfer.Running
  }

  ghost predicate AllClean(ts: seq<Transfer>) {
    forall t :: t in ts ==> Clean(t)
  }

  function Payloads(ts: seq<Transfer>): seq<byte> {
    if ts == [] then [] else ts[0].payload + Payloads(ts[1..])
  }

  /** What the transfers have put in the device ring. */
  ghost function Appended(ts: seq<Transfer>): seq<byte>
    requires AllClean(ts)
  {
    if ts == [] then []
    else
      assert ts[0] in ts;
      UsbTransfer.After(ts[0].c, ts[0].x, ts[0].run).appended + Appended(ts[1..])
  }

  lemma {:induction false} AppendedIsPayloads(ts: seq<Transfer>)
    requires AllClean(ts)
    ensures Appended(ts) == Payloads(ts)
  {
    if ts != [] {
      var t := ts[0];
      assert t in ts && Clean(t);
      UsbTransfer.CleanCommandDelivers(t.c, t.x, t.run, t.payload);
      AppendedIsPayloads(ts[1..]);
    }
  }

  // ---- Pages as a stream

  function Flatten(pages: seq<Page>): (bytes: seq<byte>)
    ensures |bytes| == PAGE * |pages|
  {
    if pages == [] then []
    else
      OneMorePage(|pages|);
      Flatten(pages[..|pages| - 1]) + pages[|pages| - 1]
  }

  lemma OneMorePage(n: nat)
    requires 0 < n
    ensures PAGE * (n - 1) + PAGE == PAGE * n
  {
  }

  lemma {:induction false} FlattenAt(pages: seq<Page>, i: nat, b: nat)
    requires i < |pages| && b < PAGE
    ensures PAGE * i + b < |Flatten(pages)| && Flatten(pages)[PAGE * i + b] == pages[i][b]
  {
    var k := |pages| - 1;
    OneMorePage(|pages|);
    if i < k {
      FlattenAt(pages[..k], i, b);
    }
  }

  lemma {:induction false} FlattenJoined(a: seq<Page>, b: seq<Page>)
    ensures Flatten(a + b) == Flatten(a) + Flatten(b)
  {
    if b == [] {
      assert a + b == a;
    } else {
      LastOf(a, b);
      FlattenJoined(a, b[..|b| - 1]);
    }
  }

  /** What the device is sent in all: the welcome message's sector, and the pages of every flush. */
  function Sent(welcome: seq<byte>, pages: seq<Page>): seq<byte>
    requires |welcome| == SECTOR
  {
    welcome + Flatten(pages)
  }

  /** Each page is as many bytes into the stream as its place among the pages says, whatever sectors it was
      addressed to. */
  lemma PageInStream(welcome: seq<byte>, pages: seq<Page>, i: nat, b: nat)
    requires |welcome| == SECTOR && i < |pages| && b < PAGE
    ensures SECTOR + PAGE * i + b < |Sent(welcome, pages)| && Sent(welcome, pages)[SECTOR + PAGE * i + b] == pages[i][b]
  {
    FlattenAt(pages, i, b);
  }

  /** So the gadget, which ignores addresses, puts a page where its sector says exactly when the sectors before
      it have all been filled: after a failed request, which leaves a gap of sectors, never again. */
  lemma PlaceIsSector(slots: seq<Slot>, free: nat, i: nat)
    requires InOwnSlots(slots, free) && i < |slots|
    ensures SECTOR + PAGE * i <= SECTOR * slots[i].sector
    ensures SECTOR + PAGE * i == SECTOR * slots[i].sector <==> slots[i].sector == 1 + SECTORS_PER_PAGE * i
    ensures forall k :: i <= k < |slots| && SECTOR + PAGE * i != SECTOR * slots[i].sector
                    ==> SECTOR + PAGE * k != SECTOR * slots[k].sector
  {
    SectorsBefore(slots, free, i);
    forall k | i <= k < |slots| && SECTOR + PAGE * i != SECTOR * slots[i].sector
      ensures SECTOR + PAGE * k != SECTOR * slots[k].sector
    {
      SectorsBetween(slots, free, i, k);
    }
  }

  lemma {:induction false} SectorsBefore(slots: seq<Slot>, free: nat, i: nat)
    requires InOwnSlots(slots, free) && i < |slots|
    ensures 1 + SECTORS_PER_PAGE * i <= slots[i].sector
  {
    if 0 < i {
      SectorsBefore(slots, free, i - 1);
    }
  }

  lemma {:induction false} SectorsBetween(slots: seq<Slot>, free: nat, i: nat, k: nat)
    requires InOwnSlots(slots, free) && i <= k < |slots|
    ensures slots[i].sector + SECTORS_PER_PAGE * (k - i) <= slots[k].sector
    decreases k
  {
    if i < k {
      SectorsBetween(slots, free, i, k - 1);
    }
  }

  // ---- The log file

  /** What the gadget received, once every command for the log unit has been through it. */
  ghost predicate Carries(ts: seq<Transfer>, run: seq<DeviceRing.Event>, sent: seq<byte>)
  {
    AllClean(ts) && Payloads(ts) == sent && DeviceRing.LogData(run) == Appended(ts)
  }

  /** A byte sent is in the log file, as far into it as into all that was sent, once it has been flushed. */
  lemma SentIsInLog(d: DeviceRing.Device, run: seq<DeviceRing.Event>, ts: seq<Transfer>, sent: seq<byte>, x: nat)
    requires DeviceRing.Initial(d) && d.faststorage && DeviceRing.Legal(d, run) && DeviceRing.Tidy(d, run)
    requires Carries(ts, run, sent)
    ensures var r := DeviceRing.After(d, run);
            && r.received == sent && r.pos <= |sent| && r.pos <= |r.file|
            && (x < r.pos ==> r.file[x] == sent[x])
  {
    AppendedIsPayloads(ts);
    DeviceRing.ReceivedIs(d, run);
    DeviceRing.FileIsStreamPrefix(d, run);
    var r := DeviceRing.After(d, run);
    assert [] + sent == sent;
    assert x < r.pos ==> r.file[..r.pos][x] == r.received[..r.pos][x];
  }

  lemma PageByteInStream(r: Rig, welcome: seq<byte>, tmp0: Page, w: nat, p: nat)
    requires RigInv(r, tmp0) && Laid(r.flushes, r.next) && |welcome| == SECTOR
    requires w < |r.flushes| && p / PAGE < |r.flushes[w].rings|
    ensures r.flushes[w].Good()
    ensures var sent := Sent(welcome, AllPages(r.flushes, r.host.ring.size));
            var x := SECTOR * r.flushes[w].sector + p;
            x < |sent| && sent[x] == r.flushes[w].Pages()[p / PAGE][p % PAGE]
  {
    var k := PagesOf(r.flushes, r.host.ring.size, r.next, w, p / PAGE);
    PageInStream(welcome, AllPages(r.flushes, r.host.ring.size), k, p % PAGE);
    StreamPlace(r.flushes[w].sector, k, p);
  }

  lemma StreamPlace(sector: nat, k: nat, p: nat)
    requires sector + SECTORS_PER_PAGE * (p / PAGE) == 1 + SECTORS_PER_PAGE * k
    ensures SECTOR * sector + p == SECTOR + PAGE * k + p % PAGE
  {
  }

  /** The byte for the offset is in the log file where the w-th flush places it. */
  ghost predicate ByteInLog(r: Rig, file: seq<byte>, w: nat, o: nat, b: byte)
    requires w < |r.flushes|
  {
    var f := r.flushes[w];
    && Place(f.start, f.Total(), o).Some?
    && var x := SECTOR * f.sector + Place(f.start, f.Total(), o).value;
       x < |file| && file[x] == b
  }

  lemma CaughtInLog(r: Rig, welcome: seq<byte>, tmp0: Page, file: seq<byte>, w: nat, e: HostRun.Entry, j: nat)
    requires RigInv(r, tmp0) && Laid(r.flushes, r.next) && |welcome| == SECTOR
    requires w < |r.flushes| && j < |e.bytes| && r.flushes[w].size == r.host.ring.size
    requires Catches(r.flushes[w], e, j)
    requires AllGood(r.flushes, r.host.ring.size) && Sent(welcome, AllPages(r.flushes, r.host.ring.size)) <= file
    ensures ByteInLog(r, file, w, e.at + j, e.bytes[j])
  {
    var f := r.flushes[w];
    FlushGood(r.flushes, r.host.ring.size, w);
    CaughtPage(f, e, j);
    PageByteInFile(r, welcome, tmp0, file, w, Place(f.start, f.Total(), e.at + j).value, e.bytes[j]);
  }

  lemma PageByteInFile(r: Rig, welcome: seq<byte>, tmp0: Page, file: seq<byte>, w: nat, p: nat, b: byte)
    requires RigInv(r, tmp0) && Laid(r.flushes, r.next) && |welcome| == SECTOR
    requires w < |r.flushes| && p / PAGE < |r.flushes[w].rings|
    requires r.flushes[w].Good() && r.flushes[w].Pages()[p / PAGE][p % PAGE] == b
    requires AllGood(r.flushes, r.host.ring.size) && Sent(welcome, AllPages(r.flushes, r.host.ring.size)) <= file
    ensures var x := SECTOR * r.flushes[w].sector + p; x < |file| && file[x] == b
  {
    PageByteInStream(r, welcome, tmp0, w, p);
  }

  /** Every byte of the record that a flush has in reach is in the log file. */
  ghost predicate RecordInLog(r: Rig, file: seq<byte>, e: HostRun.Entry)
    requires 0 < r.host.ring.size
  {
    forall w, j {:trigger ByteInLog(r, file, w, e.at + j, e.bytes[j])} ::
      0 <= w < |r.flushes| && 0 <= j < |e.bytes| && r.flushes[w].size == r.host.ring.size && InReach(r.flushes[w], e, j)
      ==> ByteInLog(r, file, w, e.at + j, e.bytes[j])
  }

  lemma ReachedInLog(r: Rig, welcome: seq<byte>, tmp0: Page, file: seq<byte>, e: HostRun.Entry)
    requires RigInv(r, tmp0) && AllReadsGood(r, true) && Laid(r.flushes, r.next) && |welcome| == SECTOR
    requires e in r.host.records && 0 < r.host.ring.size
    requires Sent(welcome, AllPages(r.flushes, r.host.ring.size)) <= file
    ensures RecordInLog(r, file, e)
  {
    forall w, j |
      0 <= w < |r.flushes| && 0 <= j < |e.bytes| && r.flushes[w].size == r.host.ring.size && InReach(r.flushes[w], e, j)
      ensures ByteInLog(r, file, w, e.at + j, e.bytes[j])
    {
      ReachCatches(r, tmp0, w, e, j);
      CaughtInLog(r, welcome, tmp0, file, w, e, j);
    }
  }

  /** The host's half: whatever file begins with all that was sent. */
  lemma PriorityInSent(r: Rig, before: seq<RigEvent>, record: seq<byte>, after: seq<RigEvent>, i: nat,
                       welcome: seq<byte>, file: seq<byte>) returns (w: nat)
    requires RigServed(r, before, record, after) && ServedUnhit(r, before, record, after)
    requires i <= |RigAfter(r, before).host.records| && |welcome| == SECTOR
    requires var h := Served(r, before, record, after);
             && AllGood(h.flushes, h.host.ring.size) && Sent(welcome, AllPages(h.flushes, h.host.ring.size)) <= file
    ensures var s0, h := RigAfter(r, before).host, Served(r, before, record, after);
            && 0 < h.host.ring.size && i < |h.host.records|
            && s0.records + [HostRun.Entry(s0.ring.head, record)] <= h.host.records
            && var e := h.host.records[i];
               && (e.bytes != [] ==> w < |h.flushes| && h.flushes[w].start <= e.at && e.End() <= h.flushes[w].end)
               && RecordInLog(h, file, e)
  {
    w := PriorityFlushed(r, before, record, after, i);
    RunIsLaid(r, before);
    var e := HostStep(HostRun.Append(record, true));
    RunIsLaid(Step(RigAfter(r, before), e), after);
    var h := Served(r, before, record, after);
    ReachedInLog(h, welcome, r.tmp, file, h.host.records[i]);
  }

  /** From a priority syscall to the log file: in a run of the host whose appends hit no unflushed bytes, with
      everything the host has sent gone through the gadget in clean commands, over fitting appends, to a log
      file whose flusher is up to date, every byte of the record that a thread has waited for, and of every
      record before it, that a flush has in reach is in the log file, as far behind that flush's first sector
      as its place says. */
  lemma PriorityInLog(r: Rig, before: seq<RigEvent>, record: seq<byte>, after: seq<RigEvent>, i: nat,
                      welcome: seq<byte>, d: DeviceRing.Device, drun: seq<DeviceRing.Event>, ts: seq<Transfer>)
    returns (w: nat)
    requires RigServed(r, before, record, after) && ServedUnhit(r, before, record, after)
    requires i <= |RigAfter(r, before).host.records| && |welcome| == SECTOR
    requires DeviceRing.Initial(d) && d.faststorage && DeviceRing.Legal(d, drun) && DeviceRing.Tidy(d, drun)
    requires var h := Served(r, before, record, after);
             && AllGood(h.flushes, h.host.ring.size)
             && Carries(ts, drun, Sent(welcome, AllPages(h.flushes, h.host.ring.size)))
    requires var dev := DeviceRing.After(d, drun); dev.pc == DeviceRing.Snapshot && dev.tail == dev.head
    ensures var s0, h := RigAfter(r, before).host, Served(r, before, record, after);
            && 0 < h.host.ring.size && i < |h.host.records|
            && s0.records + [HostRun.Entry(s0.ring.head, record)] <= h.host.records
            && var e := h.host.records[i];
               && (e.bytes != [] ==> w < |h.flushes| && h.flushes[w].start <= e.at && e.End() <= h.flushes[w].end)
               && RecordInLog(h, DeviceRing.After(d, drun).file, e)
  {
    var h := Served(r, before, record, after);
    UpToDate(d, drun, ts, Sent(welcome, AllPages(h.flushes, h.host.ring.size)));
    w := PriorityInSent(r, before, record, after, i, welcome, DeviceRing.After(d, drun).file);
  }

  lemma UpToDate(d: DeviceRing.Device, run: seq<DeviceRing.Event>, ts: seq<Transfer>, sent: seq<byte>)
    requires DeviceRing.Initial(d) && d.faststorage && DeviceRing.Legal(d, run) && DeviceRing.Tidy(d, run)
    requires Carries(ts, run, sent)
    requires var r := DeviceRing.After(d, run); r.pc == DeviceRing.Snapshot && r.tail == r.head
    ensures sent <= DeviceRing.After(d, run).file
  {
    DeviceRing.TidyRunKeepsInv(d, run);
    SentIsInLog(d, run, ts, sent, 0);
    var r := DeviceRing.After(d, run);
    assert r.received[..r.pos] == sent;
  }
}
