/** One pass of hardlog_auditd_thread's loop, and which bytes of the stream it puts on the device. */
module HostFlush {
  import opened Bytes
  import opened HostRing
  import opened HostRun
  import opened BioWrite

  // ---- Which bytes of the window its pages carry

  /** The logical offset of the byte at position p of the pages sent for the window of total bytes at
      start: whole pages begin at a page boundary, the last part at the window's own offset. */
  function Source(start: nat, total: nat, p: nat): nat {
    if p < PAGE * (total / PAGE) then start - start % PAGE + p else start + p
  }

  /** The ring cell that byte is fetched from. */
  function FetchedCell(size: nat, start: nat, total: nat, p: nat): int
    requires 0 < size
  {
    var whole := PAGE * (total / PAGE);
    if p < whole then Source(start, total, p) % size else (start + whole) % size + (p - whole)
  }

  lemma WholePageCell(size: nat, x: nat, j: nat)
    requires 0 < size && size % PAGE == 0 && j < PAGE
    ensures PageBase(x % size) + j == (x - x % PAGE + j) % size
  {
    var q := x / size;
    assert x == q * size + x % size;
    MultipleMod(q, size, x % size);
    var y := PageBase(x % size) + j;
    PageFits(size, x % size);
    DivModUnique(x - x % PAGE + j, size, q, y);
  }

  /** Pages do not straddle laps. */
  lemma MultipleMod(q: nat, size: nat, r: nat)
    requires size % PAGE == 0
    ensures (q * size + r) % PAGE == r % PAGE
  {
    var pages := size / PAGE;
    assert q * size == (q * pages) * PAGE;
    DivModUnique(q * size + r, PAGE, q * pages + r / PAGE, r % PAGE);
  }

  lemma WholeOrLast(total: nat, p: nat)
    requires p < total
    ensures p / PAGE < CeilDiv(total, PAGE)
    ensures p < PAGE * (total / PAGE) <==> PAGE <= total - PAGE * (p / PAGE)
    ensures PAGE * (total / PAGE) <= p ==> p / PAGE == total / PAGE
  {
    CeilDivIs(total, PAGE, p / PAGE);
  }

  lemma PageAtByte(ring: Ring, tmp: Page, index: nat, left: nat, j: nat)
    requires ring.Valid() && index < ring.size && j < PAGE
    ensures PageBase(index) + PAGE <= ring.size
    ensures PAGE <= left ==> PageAt(ring, tmp, index, left)[j] == ring.buf[PageBase(index) + j]
    ensures j < left < PAGE ==> PageAt(ring, tmp, index, left)[j] == ring.buf[index + j]
  {
    PageFits(ring.size, index);
  }

  lemma PagesOn(start: nat, i: nat)
    ensures (start + PAGE * i) % PAGE == start % PAGE
  {
    DivModUnique(start + PAGE * i, PAGE, start / PAGE + i, start % PAGE);
  }

  lemma PageOf(i: nat, j: nat)
    requires j < PAGE
    ensures (PAGE * i + j) / PAGE == i
  {
    DivModUnique(PAGE * i + j, PAGE, i, j);
  }

  lemma CellOf(size: nat, start: nat, total: nat, i: nat, j: nat)
    requires 0 < size && size % PAGE == 0 && PAGE * i + j < total && j < PAGE
    ensures var index := PageIndex(size, start, i);
            FetchedCell(size, start, total, PAGE * i + j) ==
            if PAGE <= total - PAGE * i then PageBase(index) + j else index + j
  {
    PageOf(i, j);
    WholeOrLast(total, PAGE * i + j);
    if PAGE <= total - PAGE * i {
      PagesOn(start, i);
      WholePageCell(size, start + PAGE * i, j);
    }
  }

  /** Every byte of a page ahead of the padding is the ring byte in its FetchedCell. */
  lemma PageByte(ring: Ring, tmp: Page, start: nat, total: nat, p: nat)
    requires ring.Valid() && p < total
    ensures PAGE * (p / PAGE) < total
    ensures var cell := FetchedCell(ring.size, start, total, p);
            0 <= cell < |ring.buf| && SentPage(ring, tmp, start, total, p / PAGE)[p % PAGE] == ring.buf[cell]
  {
    WholeOrLast(total, p);
    PageAtByte(ring, tmp, PageIndex(ring.size, start, p / PAGE), total - PAGE * (p / PAGE), p % PAGE);
    CellOf(ring.size, start, total, p / PAGE, p % PAGE);
  }

  lemma SentByte(ring: Ring, tmp: Page, start: nat, total: nat, p: nat)
    requires ring.Valid() && p < total
    ensures var pages := SentPages(ring, tmp, start, total);
            var cell := FetchedCell(ring.size, start, total, p);
            && p / PAGE < |pages| && 0 <= cell < |ring.buf|
            && pages[p / PAGE][p % PAGE] == ring.buf[cell]
  {
    WholeOrLast(total, p);
    PageByte(ring, tmp, start, total, p);
  }

  ghost predicate Sends(start: nat, total: nat, o: nat) {
    exists p: nat :: p < total && Source(start, total, p) == o
  }

  /** Where in its pages a window carries the byte at an offset, if it does: in a whole page, from the start of
      the page that the window starts in, or in the last part. */
  function Place(start: nat, total: nat, o: nat): Option<nat> {
    var base, whole := start - start % PAGE, PAGE * (total / PAGE);
    if base <= o < base + whole then Some(o - base)
    else if start + whole <= o < start + total then Some(o - start)
    else None
  }

  /** There is no other place. */
  lemma PlaceIs(start: nat, total: nat, o: nat, p: nat)
    ensures p < total && Source(start, total, p) == o <==> Place(start, total, o) == Some(p)
  {
  }

  lemma SendsExactly(start: nat, total: nat, o: nat)
    ensures Sends(start, total, o) <==> Place(start, total, o).Some?
  {
    if Place(start, total, o).Some? {
      PlaceIs(start, total, o, Place(start, total, o).value);
    }
    forall p: nat | p < total && Source(start, total, p) == o
      ensures Place(start, total, o) == Some(p)
    {
      PlaceIs(start, total, o, p);
    }
  }

  /** Of its own bytes, a window's pages miss as many before the last part as the window's start is into its
      page: these and no others. */
  lemma PageCoverage(start: nat, total: nat, o: nat)
    requires start <= o < start + total
    ensures var whole := PAGE * (total / PAGE);
            Sends(start, total, o) <==> !(0 < whole && start + whole - start % PAGE <= o < start + whole)
  {
    SendsExactly(start, total, o);
  }

  /** Of the bytes ahead of it, a window's pages send those on the page it starts in, if it has a whole page. */
  lemma FrontCoverage(start: nat, total: nat, o: nat)
    requires o < start
    ensures Sends(start, total, o) <==> start / PAGE == o / PAGE && PAGE <= total
  {
    SendsExactly(start, total, o);
    OnStartPage(start, o);
    PageMultiple(total);
  }

  lemma OnStartPage(start: nat, o: nat)
    requires o < start
    ensures start - start % PAGE <= o <==> start / PAGE == o / PAGE
  {
    var a, b := start / PAGE, o / PAGE;
    assert start == a * PAGE + start % PAGE && o == b * PAGE + o % PAGE;
    MulGap(a, b, PAGE);
    MulGap(b, a, PAGE);
  }

  lemma PageMultiple(total: nat)
    ensures PAGE <= total ==> PAGE <= PAGE * (total / PAGE)
    ensures total < PAGE ==> PAGE * (total / PAGE) == 0
  {
  }

  /** Nothing of a window is missed exactly when it starts on a page boundary or is shorter than a page. */
  lemma NothingMissed(start: nat, total: nat)
    ensures (forall o: nat :: start <= o < start + total ==> Sends(start, total, o)) <==>
            start % PAGE == 0 || total < PAGE
  {
    var whole := PAGE * (total / PAGE);
    forall o: nat | start <= o < start + total
      ensures Sends(start, total, o) <==> !(0 < whole && start + whole - start % PAGE <= o < start + whole)
    {
      PageCoverage(start, total, o);
    }
    if start % PAGE != 0 && PAGE <= total {
      assert !Sends(start, total, start + whole - 1);
    }
  }

  // ---- Over all windows of a run

  ghost predicate SentBy(windows: seq<Window>, o: nat) {
    exists w :: 0 <= w < |windows| && Sends(windows[w].start, windows[w].Total(), o)
  }

  /** A later window that starts on the page of the byte at an offset, and has a whole page. */
  ghost predicate Resends(windows: seq<Window>, own: nat, o: nat) {
    exists w :: own < w < |windows| && windows[w].start / PAGE == o / PAGE && PAGE <= windows[w].Total()
  }

  lemma WindowBounds(start: nat, total: nat, o: nat)
    requires Sends(start, total, o)
    ensures o < start + total
  {
    SendsExactly(start, total, o);
  }

  /** Which bytes are sent, over all windows of a run: exactly those that their own window places, and those that
      a later window sends again from the page it starts in. */
  lemma SentExactly(windows: seq<Window>, reached: nat, own: nat, o: nat)
    requires Tiled(windows, reached) && own < |windows| && windows[own].start <= o < windows[own].end
    ensures SentBy(windows, o) <==> Sends(windows[own].start, windows[own].Total(), o) || Resends(windows, own, o)
  {
    forall w | 0 <= w < |windows| && w != own
      ensures Sends(windows[w].start, windows[w].Total(), o) <==>
              own < w && windows[w].start / PAGE == o / PAGE && PAGE <= windows[w].Total()
    {
      OtherWindow(windows, reached, own, o, w);
    }
  }

  lemma {:induction false} WindowsApart(windows: seq<Window>, reached: nat, v: nat, w: nat)
    requires Tiled(windows, reached) && v < w < |windows|
    ensures windows[v].end <= windows[w].start
    decreases w
  {
    TiledMeans(windows, reached);
    if v + 1 < w {
      WindowsApart(windows, reached, v, w - 1);
    }
  }

  lemma OtherWindow(windows: seq<Window>, reached: nat, own: nat, o: nat, w: nat)
    requires Tiled(windows, reached) && own < |windows| && windows[own].start <= o < windows[own].end
    requires w < |windows| && w != own
    ensures Sends(windows[w].start, windows[w].Total(), o) <==>
            own < w && windows[w].start / PAGE == o / PAGE && PAGE <= windows[w].Total()
  {
    TiledMeans(windows, reached);
    if own < w {
      WindowsApart(windows, reached, own, w);
      FrontCoverage(windows[w].start, windows[w].Total(), o);
    } else {
      WindowsApart(windows, reached, w, own);
      if Sends(windows[w].start, windows[w].Total(), o) {
        WindowBounds(windows[w].start, windows[w].Total(), o);
      }
    }
  }

  // ---- Records on the device

  /** A record's byte is found in the cell it is looked up in exactly when the lookup starts on the lap on
      which the record was appended: slack cells are never read for a record of the next lap, and the
      other way round. The lookup starts at the byte itself in a whole page, and at the last part's
      first byte after that. */
  lemma LookupFindsRecord(size: nat, start: nat, total: nat, p: nat, at: nat)
    requires 0 < size && p < total && at <= Source(start, total, p)
    ensures var o := Source(start, total, p);
            var whole := PAGE * (total / PAGE);
            FetchedCell(size, start, total, p) == at % size + (o - at)
            <==> (if p < whole then o else start + whole) / size == at / size
  {
    var o := Source(start, total, p);
    var whole := PAGE * (total / PAGE);
    var b := if p < whole then o else start + whole;
    SameBlock(b, at, size);
  }

  /** The byte at offset o of a record appended at an offset is among the window's pages: it is sent, and
      looked up on the record's lap. */
  predicate Carried(size: nat, start: nat, total: nat, at: nat, o: nat)
    requires 0 < size
  {
    var whole := PAGE * (total / PAGE);
    && Place(start, total, o).Some?
    && (if Place(start, total, o).value < whole then o else start + whole) / size == at / size
  }

  /** Exactly when some byte of the pages is fetched, for that offset, from the record's own cell; for the window
      the record is in as well as for any other. */
  lemma CarriedExactly(size: nat, start: nat, total: nat, at: nat, o: nat)
    requires 0 < size && at <= o
    ensures Carried(size, start, total, at, o) <==>
            exists p: nat ::
              p < total && Source(start, total, p) == o && FetchedCell(size, start, total, p) == at % size + (o - at)
  {
    if Place(start, total, o).Some? {
      var p := Place(start, total, o).value;
      PlaceIs(start, total, o, p);
      LookupFindsRecord(size, start, total, p, at);
    }
    forall p: nat | p < total && Source(start, total, p) == o
      ensures Place(start, total, o) == Some(p)
    {
      PlaceIs(start, total, o, p);
    }
  }

  /** For every window, on however many laps, before or behind the record: a byte of it that is carried, and is
      in its cell when its page is read, is in that page, at its place. Slack cells are no exception. */
  lemma ByteDelivered(ring: Ring, tmp: Page, start: nat, total: nat, at: nat, bytes: seq<byte>, k: nat)
    requires ring.Valid() && |bytes| <= EVENT_SIZE && ring.Intact(at, bytes) && k < |bytes|
    requires Carried(ring.size, start, total, at, at + k)
    ensures var p := Place(start, total, at + k).value;
            PAGE * (p / PAGE) < total && SentPage(ring, tmp, start, total, p / PAGE)[p % PAGE] == bytes[k]
  {
    var p := CarriedCell(ring.size, start, total, at, k);
    PageByte(ring, tmp, start, total, p);
    FromSlice(ring.buf, at % ring.size, bytes, k);
  }

  lemma CarriedCell(size: nat, start: nat, total: nat, at: nat, k: nat) returns (p: nat)
    requires 0 < size && Carried(size, start, total, at, at + k)
    ensures Place(start, total, at + k) == Some(p) && p < total
    ensures FetchedCell(size, start, total, p) == at % size + k
  {
    p := Place(start, total, at + k).value;
    PlaceIs(start, total, at + k, p);
    LookupFindsRecord(size, start, total, p, at);
  }

  lemma FromSlice(s: seq<byte>, lo: nat, part: seq<byte>, k: nat)
    requires lo + |part| <= |s| && s[lo..lo + |part|] == part && k < |part|
    ensures s[lo + k] == part[k]
  {
    assert s[lo..lo + |part|][k] == part[k];
  }

  /** A window on one lap of the ring that is page aligned or short carries every byte of its records, at its
      distance from the window's start. */
  lemma PlainWindowCarries(size: nat, start: nat, total: nat, at: nat, o: nat)
    requires 0 < size && start <= at <= o < start + total && start / size == (start + total - 1) / size
    requires start % PAGE == 0 || total < PAGE
    ensures Carried(size, start, total, at, o) && Place(start, total, o) == Some(o - start)
  {
    var whole, last := PAGE * (total / PAGE), start + total - 1;
    BlocksInOrder(start, at, last, size);
    BlocksInOrder(start, o, last, size);
    if start + whole <= o {
      BlocksInOrder(start, start + whole, last, size);
    }
  }

  // ---- The loop body

  /** The flusher thread, with its locals. */
  class Auditd {
    const buf: HostBuf
    const usb: UsbWriter
    var start: nat
    var end: nat
    var hardlog_logging: bool

    /** Among the rest, that no flush so far has reused a sector of an earlier one. */
    ghost predicate Valid()
      reads this, buf, buf.buffer, usb, usb.ring, usb.ring.buffer, usb.tmpbuf
    {
      && usb.ring == buf && usb.Valid()
      && 1 <= usb.bdevice_sector && InOwnSlots(SlotsOf(usb.requests), usb.bdevice_sector)
    }

    /** The locals are a snapshot of the counters; appends since then have only moved head on. */
    ghost predicate Snapped()
      reads this, buf
    {
      buf.tail == start <= end <= buf.head
    }

    constructor (buf: HostBuf, usb: UsbWriter)
      requires usb.ring == buf && usb.Valid() && usb.bdevice_sector == 1 && usb.requests == []
      ensures Valid() && !hardlog_logging && this.buf == buf && this.usb == usb
    {
      this.buf, this.usb := buf, usb;
      start, end, hardlog_logging := 0, 0, false;
    }

    method Snapshot()
      requires Valid()
      modifies this`start, this`end
      ensures Valid() && Snapped() && start == buf.tail && end == buf.head
    {
      end := buf.head;
      start := buf.tail;
    }

    /** The write. The pages of the whole window go out, or a first part of them when the device fails a
        request. */
    method WriteOut(io: nat -> Io) returns (ghost taken: nat, ghost added: nat)
      requires Valid() && Snapped()
      modifies this`hardlog_logging, usb`bdevice_sector, usb`requests, usb`bi_sector, usb`bi_pages, usb.tmpbuf
      ensures Valid() && Snapped() && hardlog_logging && buf.View() == old(buf.View())
      ensures var pages := SentPages(buf.View(), old(usb.tmpbuf[..]), start, end - start);
              && usb.Ended(SlotsOf(old(usb.requests)), old(usb.bdevice_sector), pages, taken, added)
              && (AllDone(io, CeilDiv(|pages|, PAGES_PER_BIO)) ==> taken == |pages|)
              && usb.tmpbuf[..] == LeftStaged(old(usb.tmpbuf[..]), pages, (end - start) % PAGE != 0, added)
    {
      hardlog_logging := true;
      taken, added := usb.Flush(end, start, io);
    }

    /** The tail update, whatever came of the write. */
    method Finish()
      requires Valid() && Snapped()
      modifies this`hardlog_logging, buf`tail
      ensures Valid() && !hardlog_logging
      ensures buf.View() == old(buf.View()).(tail := end)
    {
      buf.SetTail(end);
      hardlog_logging := false;
    }

    /** The loop body, when nothing comes between its parts. */
    method Pass(io: nat -> Io) returns (ghost taken: nat, ghost added: nat)
      requires Valid()
      modifies this, buf`tail, usb`bdevice_sector, usb`requests, usb`bi_sector, usb`bi_pages, usb.tmpbuf
      ensures Valid() && !hardlog_logging
      ensures buf.View() == old(buf.View()).(tail := old(buf.head))
      ensures var total := old(buf.head) - old(buf.tail);
              var pages := SentPages(old(buf.View()), old(usb.tmpbuf[..]), old(buf.tail), total);
              && usb.Ended(SlotsOf(old(usb.requests)), old(usb.bdevice_sector), pages, taken, added)
              && (AllDone(io, CeilDiv(|pages|, PAGES_PER_BIO)) ==> taken == |pages|)
              && usb.tmpbuf[..] ==
                 LeftStaged(old(usb.tmpbuf[..]), pages, (old(buf.head) - old(buf.tail)) % PAGE != 0, added)
    {
      Snapshot();
      taken, added := WriteOut(io);
      Finish();
    }

    /** A producer's append, wherever in a pass it comes, leaves the flusher's snapshot good. */
    method AppendUnder(record: seq<byte>) returns (ok: bool)
      requires Valid() && |record| <= EVENT_SIZE
      modifies buf`head, buf.buffer
      ensures Valid() && (old(Snapped()) ==> Snapped())
      ensures buf.View() == if ok then old(buf.View()).Append(record) else old(buf.View())
    {
      var target;
      ok, target := buf.Append(record);
    }
  }
}
