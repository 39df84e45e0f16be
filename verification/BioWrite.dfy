/** bio_write of hl-bio-fs.c: a window of HostBuf goes to the audit device as 4 KB pages, at most 256 of
    them in one block request. */
module BioWrite {
  import opened Bytes
  import opened HostRing

  const SECTORS_PER_PAGE: nat := 8
  const PAGES_PER_BIO: nat := 256

  /** What the device has been sent, by sector. */
  type Disk = map<nat, seq<byte>>
  type Page = p: seq<byte> | |p| == PAGE witness seq(PAGE, i => 0)

  // ---- The pages of a window

  /** The ring index the i-th page is looked up at. */
  function PageIndex(size: nat, start: nat, i: nat): (x: nat)
    requires 0 < size
    ensures x < size
  {
    (start + PAGE * i) % size
  }

  /** vmalloc_to_page gives the page that holds the index, from that page's own start. */
  function PageBase(index: nat): (base: nat)
    ensures base <= index < base + PAGE && base % PAGE == 0
  {
    index - index % PAGE
  }

  lemma PageFits(size: nat, index: nat)
    requires size % PAGE == 0 && index < size
    ensures PageBase(index) + PAGE <= size
  {
  }

  /** The page sent for the left bytes at an index: a whole page of the ring, or those last bytes in the
      staging page, whose remainder is whatever was there before. */
  function PageAt(ring: Ring, tmp: Page, index: nat, left: nat): Page
    requires ring.Valid() && index < ring.size
  {
    PageFits(ring.size, index);
    if PAGE <= left then ring.buf[PageBase(index)..PageBase(index) + PAGE]
    else ring.buf[index..index + left] + tmp[left..]
  }

  /** The i-th page sent for the window of total bytes at start. */
  function SentPage(ring: Ring, tmp: Page, start: nat, total: nat, i: nat): Page
    requires ring.Valid() && PAGE * i < total
  {
    PageAt(ring, tmp, PageIndex(ring.size, start, i), total - PAGE * i)
  }

  function SentPages(ring: Ring, tmp: Page, start: nat, total: nat): seq<Page>
    requires ring.Valid()
  {
    seq(CeilDiv(total, PAGE), i requires 0 <= i < CeilDiv(total, PAGE) => SentPage(ring, tmp, start, total, i))
  }

  lemma LastPage(total: nat, i: nat)
    requires PAGE * i < total
    ensures i < CeilDiv(total, PAGE)
    ensures total - PAGE * i < PAGE <==> total % PAGE != 0 && i + 1 == CeilDiv(total, PAGE)
    ensures total - PAGE * i <= PAGE <==> i + 1 == CeilDiv(total, PAGE)
    ensures total - PAGE * i < PAGE ==> i == total / PAGE
  {
    CeilDivIs(total, PAGE, i);
  }

  /** The same, with the remaining bytes as the loop counts them. */
  lemma NextPage(total: nat, consumed: nat, i: nat, pages: seq<Page>)
    requires consumed == PAGE * i && consumed < total && |pages| == CeilDiv(total, PAGE)
    ensures i < |pages|
    ensures total - consumed < PAGE <==> total % PAGE != 0 && i + 1 == |pages|
    ensures total - consumed <= PAGE <==> i + 1 == |pages|
    ensures consumed + PAGE == PAGE * (i + 1)
  {
    LastPage(total, i);
  }

  // ---- The staging page

  /** How many bytes of its last, short page a window puts in the staging page: none if its last page is a whole
      one, or if a request failed before that page was added. */
  function Staging(total: nat, added: nat): (n: nat)
    ensures n < PAGE
  {
    if added == CeilDiv(total, PAGE) then total % PAGE else 0
  }

  /** The q-th of them. */
  function StagedByte(ring: Ring, start: nat, total: nat, q: nat): byte
    requires ring.Valid() && q < total % PAGE
  {
    var index := PageIndex(ring.size, start, total / PAGE);
    PageFits(ring.size, index);
    ring.buf[index + q]
  }

  /** The staging page after the first added pages of a window have been added. */
  function Staged(ring: Ring, tmp: Page, start: nat, total: nat, added: nat): Page
    requires ring.Valid()
  {
    if Staging(total, added) == 0 then tmp else SentPage(ring, tmp, start, total, total / PAGE)
  }

  /** The same, told from the window's pages and whether the last of them is short. */
  function LeftStaged(tmp: Page, pages: seq<Page>, short: bool, added: nat): Page {
    if short && pages != [] && added == |pages| then pages[added - 1] else tmp
  }

  lemma LeftIsStaged(ring: Ring, tmp: Page, start: nat, total: nat, added: nat)
    requires ring.Valid()
    ensures LeftStaged(tmp, SentPages(ring, tmp, start, total), total % PAGE != 0, added) ==
            Staged(ring, tmp, start, total, added)
  {
    if total % PAGE != 0 {
      LastPage(total, total / PAGE);
    }
  }

  lemma StagedByteIs(ring: Ring, tmp: Page, start: nat, total: nat, added: nat, q: nat)
    requires ring.Valid() && q < PAGE
    ensures Staged(ring, tmp, start, total, added)[q] ==
            if q < Staging(total, added) then StagedByte(ring, start, total, q) else tmp[q]
  {
  }

  /** A window that was flushed, from the ring as it was then; added pages of it were gathered. */
  datatype Flushed = Flushed(ring: Ring, start: nat, total: nat, added: nat) {
    /** The length of the short page it left in the staging page. */
    function Short(): (n: nat)
      ensures n < PAGE
    {
      Staging(total, added)
    }

    function Byte(q: nat): byte
      requires ring.Valid() && q < Short()
    {
      StagedByte(ring, start, total, q)
    }
  }

  ghost predicate Rings(history: seq<Flushed>) {
    forall i :: 0 <= i < |history| ==> history[i].ring.Valid()
  }

  /** The staging page after a history of flushes. */
  ghost function StagedBy(tmp: Page, history: seq<Flushed>): Page
    requires Rings(history)
  {
    if history == [] then tmp
    else
      var f := history[|history| - 1];
      Staged(f.ring, StagedBy(tmp, history[..|history| - 1]), f.start, f.total, f.added)
  }

  /** The latest flush that put more than q bytes in the staging page. */
  ghost function LatestLonger(history: seq<Flushed>, q: nat): (i: Option<nat>)
    ensures i.Some? ==> i.value < |history| && q < history[i.value].Short()
    ensures forall k :: (if i.Some? then i.value < k else 0 <= k) && k < |history| ==> history[k].Short() <= q
  {
    if history == [] then None
    else
      var k := |history| - 1;
      if q < history[k].Short() then Some(k) else LatestLonger(history[..k], q)
  }

  ghost function LatestByte(tmp: Page, history: seq<Flushed>, q: nat): byte
    requires Rings(history) && q < PAGE
  {
    match LatestLonger(history, q)
    case None => tmp[q]
    case Some(i) => history[i].Byte(q)
  }

  /** A byte of the staging page is that of the latest flush whose short last page was long enough to reach
      it, and what the page was allocated with if there was none. */
  lemma {:induction false} StagedByLatest(tmp: Page, history: seq<Flushed>, q: nat)
    requires Rings(history) && q < PAGE
    ensures StagedBy(tmp, history)[q] == LatestByte(tmp, history, q)
  {
    if history != [] {
      var k := |history| - 1;
      StagedByLatest(tmp, history[..k], q);
      var f := history[k];
      StagedByteIs(f.ring, StagedBy(tmp, history[..k]), f.start, f.total, f.added, q);
    }
  }

  /** The padding of a last page is what the latest longer one left there. */
  lemma {:induction false} PaddingIsStale(tmp: Page, history: seq<Flushed>, ring: Ring, start: nat, total: nat, q: nat)
    requires Rings(history) && ring.Valid() && 0 < total % PAGE <= q < PAGE
    ensures PAGE * (total / PAGE) < total && total / PAGE + 1 == CeilDiv(total, PAGE)
    ensures SentPage(ring, StagedBy(tmp, history), start, total, total / PAGE)[q] == LatestByte(tmp, history, q)
  {
    LastPage(total, total / PAGE);
    StagedByLatest(tmp, history, q);
  }

  /** The bytes of short last pages are record text. */
  ghost predicate NoNulsStaged(history: seq<Flushed>)
    requires Rings(history)
  {
    forall i, q: nat :: 0 <= i < |history| && q < history[i].Short() ==> history[i].Byte(q) != NUL
  }

  ghost predicate NulFrom(page: Page, part: nat) {
    forall q :: part <= q < PAGE ==> page[q] == NUL
  }

  /** When the padding is NUL: exactly if the staging page was allocated so, and no earlier flush ended in a
      longer short page. */
  lemma PaddingIsNulExactly(tmp: Page, history: seq<Flushed>, ring: Ring, start: nat, total: nat)
    requires Rings(history) && NoNulsStaged(history) && ring.Valid() && 0 < total % PAGE
    ensures NulFrom(SentPage(ring, StagedBy(tmp, history), start, total, total / PAGE), total % PAGE) <==>
            && NulFrom(tmp, total % PAGE)
            && (forall i :: 0 <= i < |history| ==> history[i].Short() <= total % PAGE)
  {
    var part := total % PAGE;
    var page := SentPage(ring, StagedBy(tmp, history), start, total, total / PAGE);
    forall q | part <= q < PAGE
      ensures page[q] == LatestByte(tmp, history, q)
    {
      PaddingIsStale(tmp, history, ring, start, total, q);
    }
    NulsExactly(tmp, history, part, page);
  }

  lemma NulsExactly(tmp: Page, history: seq<Flushed>, part: nat, page: Page)
    requires Rings(history) && NoNulsStaged(history) && part < PAGE
    requires forall q :: part <= q < PAGE ==> page[q] == LatestByte(tmp, history, q)
    ensures NulFrom(page, part) <==>
            NulFrom(tmp, part) && forall i :: 0 <= i < |history| ==> history[i].Short() <= part
  {
    forall q | part <= q < PAGE
      ensures page[q] == NUL <==> LatestLonger(history, q) == None && tmp[q] == NUL
    {
    }
    if NulFrom(page, part) {
      assert page[part] == NUL;
    }
  }

  // ---- The device

  function PageSectors(page: Page): (sectors: seq<seq<byte>>)
    ensures |sectors| == SECTORS_PER_PAGE
  {
    seq(SECTORS_PER_PAGE, j requires 0 <= j < SECTORS_PER_PAGE => page[SECTOR * j..SECTOR * j + SECTOR])
  }

  /** The sectors of pages laid end to end. */
  function Sectors(pages: seq<Page>): (sectors: seq<seq<byte>>)
    ensures |sectors| == SECTORS_PER_PAGE * |pages|
  {
    if pages == [] then [] else PageSectors(pages[0]) + Sectors(pages[1..])
  }

  /** Sectors written to consecutive places from the given one. */
  function WriteSectors(disk: Disk, sector: nat, sectors: seq<seq<byte>>): Disk
    decreases |sectors|
  {
    if sectors == [] then disk else WriteSectors(disk[sector := sectors[0]], sector + 1, sectors[1..])
  }

  lemma {:induction false} WriteSectorsMeans(disk: Disk, sector: nat, sectors: seq<seq<byte>>, s: nat)
    ensures var after := WriteSectors(disk, sector, sectors);
            if sector <= s < sector + |sectors| then s in after && after[s] == sectors[s - sector]
            else (s in after <==> s in disk) && (s in disk ==> after[s] == disk[s])
    decreases |sectors|
  {
    if sectors != [] {
      WriteSectorsMeans(disk[sector := sectors[0]], sector + 1, sectors[1..], s);
    }
  }

  /** One block request carrying all the pages to the sectors from the given one. */
  function WriteBio(disk: Disk, sector: nat, pages: seq<Page>): Disk {
    WriteSectors(disk, sector, Sectors(pages))
  }

  lemma {:induction false} SectorsJoined(a: seq<Page>, b: seq<Page>)
    ensures Sectors(a + b) == Sectors(a) + Sectors(b)
  {
    if a == [] {
      assert a + b == b;
    } else {
      assert (a + b)[1..] == a[1..] + b;
      SectorsJoined(a[1..], b);
    }
  }

  lemma {:induction false} SectorsSplit(disk: Disk, sector: nat, a: seq<seq<byte>>, b: seq<seq<byte>>)
    ensures WriteSectors(disk, sector, a + b) == WriteSectors(WriteSectors(disk, sector, a), sector + |a|, b)
    decreases |a|
  {
    if a == [] {
      assert a + b == b;
    } else {
      assert (a + b)[1..] == a[1..] + b;
      SectorsSplit(disk[sector := a[0]], sector + 1, a[1..], b);
    }
  }

  /** A request may be cut in two anywhere. */
  lemma BioSplits(disk: Disk, sector: nat, a: seq<Page>, b: seq<Page>)
    ensures WriteBio(disk, sector, a + b) == WriteBio(WriteBio(disk, sector, a), sector + SECTORS_PER_PAGE * |a|, b)
  {
    SectorsJoined(a, b);
    var sa, sb := Sectors(a), Sectors(b);
    SectorsSplit(disk, sector, sa, sb);
  }

  // ---- Requests

  /** What the device took of one block request: pages for the sectors from the given one. */
  datatype Request = Request(sector: nat, pages: seq<Page>)

  /** One page and the first of its eight sectors. */
  datatype Slot = Slot(sector: nat, page: Page)

  /** Pages in order, in slots that follow one another from the sector on. */
  function Consecutive(sector: nat, pages: seq<Page>): (slots: seq<Slot>)
    ensures |slots| == |pages|
    decreases |pages|
  {
    if pages == [] then [] else [Slot(sector, pages[0])] + Consecutive(sector + SECTORS_PER_PAGE, pages[1..])
  }

  lemma {:induction false} ConsecutiveAt(sector: nat, pages: seq<Page>, i: nat)
    requires i < |pages|
    ensures Consecutive(sector, pages)[i] == Slot(sector + SECTORS_PER_PAGE * i, pages[i])
    decreases |pages|
  {
    if 0 < i {
      ConsecutiveAt(sector + SECTORS_PER_PAGE, pages[1..], i - 1);
    }
  }

  lemma {:induction false} ConsecutiveJoined(sector: nat, a: seq<Page>, b: seq<Page>)
    ensures Consecutive(sector, a + b) == Consecutive(sector, a) + Consecutive(sector + SECTORS_PER_PAGE * |a|, b)
    decreases |a|
  {
    if a == [] {
      assert a + b == b;
    } else {
      assert (a + b)[1..] == a[1..] + b;
      ConsecutiveJoined(sector + SECTORS_PER_PAGE, a[1..], b);
    }
  }

  lemma ConsecutiveGrows(before: seq<Slot>, sector: nat, pages: seq<Page>, done: nat, i: nat, n: nat)
    requires done <= i <= |pages| && n <= i - done
    ensures before + Consecutive(sector, pages[..done])
            + Consecutive(sector + SECTORS_PER_PAGE * done, pages[done..i][..n])
         == before + Consecutive(sector, pages[..done + n])
  {
    assert pages[..done] + pages[done..i][..n] == pages[..done + n];
    ConsecutiveJoined(sector, pages[..done], pages[done..i][..n]);
  }

  /** The slots that requests fill, one after the other. */
  function SlotsOf(requests: seq<Request>): seq<Slot> {
    if requests == [] then []
    else
      var last := requests[|requests| - 1];
      SlotsOf(requests[..|requests| - 1]) + Consecutive(last.sector, last.pages)
  }

  lemma SlotsOfOneMore(requests: seq<Request>, r: Request)
    ensures SlotsOf(requests + [r]) == SlotsOf(requests) + Consecutive(r.sector, r.pages)
  {
    assert (requests + [r])[..|requests|] == requests;
  }

  /** The device after a history of requests. */
  function Replay(disk: Disk, requests: seq<Request>): Disk {
    if requests == [] then disk
    else
      var last := requests[|requests| - 1];
      WriteBio(Replay(disk, requests[..|requests| - 1]), last.sector, last.pages)
  }

  /** The device after slots written one at a time. */
  function WriteSlots(disk: Disk, slots: seq<Slot>): Disk {
    if slots == [] then disk
    else
      var last := slots[|slots| - 1];
      WriteBio(WriteSlots(disk, slots[..|slots| - 1]), last.sector, [last.page])
  }

  lemma WriteOneMore(disk: Disk, slots: seq<Slot>, last: Slot)
    ensures WriteSlots(disk, slots + [last]) == WriteBio(WriteSlots(disk, slots), last.sector, [last.page])
  {
    assert (slots + [last])[..|slots|] == slots;
  }

  lemma {:induction false} ConsecutiveIsBio(disk: Disk, before: seq<Slot>, sector: nat, pages: seq<Page>)
    ensures WriteSlots(disk, before + Consecutive(sector, pages)) == WriteBio(WriteSlots(disk, before), sector, pages)
    decreases |pages|
  {
    if pages == [] {
      assert before + Consecutive(sector, pages) == before;
      WriteNothing(WriteSlots(disk, before), sector);
    } else {
      var first := Slot(sector, pages[0]);
      var next := sector + SECTORS_PER_PAGE;
      assert before + Consecutive(sector, pages) == before + [first] + Consecutive(next, pages[1..]);
      ConsecutiveIsBio(disk, before + [first], next, pages[1..]);
      WriteOneMore(disk, before, first);
      assert pages == [pages[0]] + pages[1..];
      BioSplits(WriteSlots(disk, before), sector, [pages[0]], pages[1..]);
    }
  }

  lemma WriteNothing(disk: Disk, sector: nat)
    ensures WriteBio(disk, sector, []) == disk
  {
  }

  /** Batching is invisible: whatever requests its pages were gathered into, the device is left as if each
      page had been written to its slot on its own. */
  lemma {:induction false} BatchingIsInvisible(disk: Disk, requests: seq<Request>)
    ensures Replay(disk, requests) == WriteSlots(disk, SlotsOf(requests))
  {
    if requests != [] {
      var k := |requests| - 1;
      BatchingIsInvisible(disk, requests[..k]);
      ConsecutiveIsBio(disk, SlotsOf(requests[..k]), requests[k].sector, requests[k].pages);
    }
  }

  /** Every page the device has taken is in eight sectors of its own, after the welcome message's sector
      and before the next free one. */
  ghost predicate InOwnSlots(slots: seq<Slot>, free: nat) {
    && (forall i :: 0 <= i < |slots| ==> 1 <= slots[i].sector && slots[i].sector + SECTORS_PER_PAGE <= free)
    && (forall i, j :: 0 <= i < j < |slots| ==> slots[i].sector + SECTORS_PER_PAGE <= slots[j].sector)
  }

  lemma OwnSlotsGrow(slots: seq<Slot>, free: nat, pages: seq<Page>, free': nat)
    requires InOwnSlots(slots, free) && 1 <= free && free + SECTORS_PER_PAGE * |pages| <= free'
    ensures InOwnSlots(slots + Consecutive(free, pages), free')
  {
    forall i | 0 <= i < |pages|
      ensures Consecutive(free, pages)[i].sector == free + SECTORS_PER_PAGE * i
    {
      ConsecutiveAt(free, pages, i);
    }
  }

  lemma PageOnDisk(disk: Disk, sector: nat, page: Page, b: nat)
    requires b < PAGE
    ensures b / SECTOR < SECTORS_PER_PAGE
    ensures var s := sector + b / SECTOR;
            var after := WriteBio(disk, sector, [page]);
            s in after && |after[s]| == SECTOR && after[s][b % SECTOR] == page[b]
  {
    var one: seq<Page> := [page];
    assert one[1..] == [] && one[0] == page;
    assert Sectors(one) == PageSectors(page);
    WriteSectorsMeans(disk, sector, Sectors(one), sector + b / SECTOR);
  }

  lemma OtherPageKeeps(disk: Disk, sector: nat, page: Page, s: nat)
    requires s < sector || sector + SECTORS_PER_PAGE <= s
    ensures var after := WriteBio(disk, sector, [page]);
            (s in after <==> s in disk) && (s in disk ==> after[s] == disk[s])
  {
    WriteSectorsMeans(disk, sector, Sectors([page]), s);
  }

  /** A page in a slot of its own stays on the device, byte for byte. */
  lemma {:induction false} SlotStays(disk: Disk, slots: seq<Slot>, free: nat, i: nat, b: nat)
    requires InOwnSlots(slots, free) && i < |slots| && b < PAGE
    ensures var s := slots[i].sector + b / SECTOR;
            var after := WriteSlots(disk, slots);
            s in after && |after[s]| == SECTOR && after[s][b % SECTOR] == slots[i].page[b]
  {
    var k := |slots| - 1;
    if i == k {
      PageOnDisk(WriteSlots(disk, slots[..k]), slots[k].sector, slots[k].page, b);
    } else {
      SlotStays(disk, slots[..k], slots[k].sector, i, b);
      OtherPageKeeps(WriteSlots(disk, slots[..k]), slots[k].sector, slots[k].page, slots[i].sector + b / SECTOR);
    }
  }

  // ---- bio_write

  /** How the device answers one block request; a failed one may have taken a first part of its pages. */
  datatype Io = Done | Failed(taken: nat)

  ghost predicate AllDone(io: nat -> Io, requests: nat) {
    forall k: nat :: k < requests ==> io(k).Done?
  }

  class UsbWriter {
    const ring: HostBuf
    const tmpbuf: array<byte>
    var bdevice_sector: nat
    var requests: seq<Request>  // what the device has taken
    // usb_bio
    var bi_sector: nat
    var bi_pages: seq<Page>

    ghost predicate Valid()
      reads this, ring, ring.buffer, tmpbuf
    {
      && ring.Valid()
      && tmpbuf.Length == PAGE && tmpbuf != ring.buffer
    }

    /** bio_open: the welcome message has taken the first sector. */
    constructor (ring: HostBuf)
      requires ring.Valid()
      ensures Valid() && fresh(tmpbuf) && this.ring == ring
      ensures bdevice_sector == 1 && requests == []
    {
      this.ring := ring;
      tmpbuf := new byte[PAGE];
      bdevice_sector := 1;
      requests := [];
      bi_sector, bi_pages := 0, [];
    }

    /** bio_add_page for the left bytes at a ring index. */
    method AddPage(index: nat, left: nat)
      requires Valid() && index < ring.size
      modifies this`bdevice_sector, this`bi_pages, tmpbuf
      ensures ring.View() == old(ring.View())
      ensures bdevice_sector == old(bdevice_sector) + SECTORS_PER_PAGE
      ensures bi_pages == old(bi_pages) + [PageAt(ring.View(), old(tmpbuf[..]), index, left)]
      ensures tmpbuf[..] == if PAGE <= left then old(tmpbuf[..]) else PageAt(ring.View(), old(tmpbuf[..]), index, left)
    {
      bdevice_sector := bdevice_sector + SECTORS_PER_PAGE;
      if left >= PAGE {
        PageFits(ring.size, index);
        bi_pages := bi_pages + [ring.buffer[PageBase(index)..PageBase(index) + PAGE]];
      } else {
        CopyInto(tmpbuf, 0, ring.buffer[index..index + left]);
        bi_pages := bi_pages + [tmpbuf[..]];
      }
    }

    /** submit_bio_wait, bio_reset, and pointing the bio at the next free sector. */
    method Submit(io: Io) returns (len: int, ghost taken: nat)
      modifies this`requests, this`bi_sector, this`bi_pages
      ensures bi_pages == [] && bi_sector == bdevice_sector
      ensures len >= 0 <==> io.Done?
      ensures taken == if io.Done? then |old(bi_pages)| else Min(io.taken, |old(bi_pages)|)
      ensures SlotsOf(requests) == SlotsOf(old(requests)) + Consecutive(old(bi_sector), old(bi_pages)[..taken])
    {
      var n := if io.Done? then |bi_pages| else Min(io.taken, |bi_pages|);
      var request := Request(bi_sector, bi_pages[..n]);
      SlotsOfOneMore(requests, request);
      len, taken := if io.Done? then 0 else -5, n;
      requests := requests + [request];
      bi_sector, bi_pages := bdevice_sector, [];
    }

    /** In a flush of the given pages, i have been added and all but the last added of them submitted, in
        the given number of requests; before is what the device had taken earlier. */
    ghost predicate Sending(before: seq<Slot>, sector0: nat, pages: seq<Page>, i: nat, submitted: nat)
      reads this
    {
      var done := PAGES_PER_BIO * submitted;
      && done <= i <= |pages| && bi_pages == pages[done..i]
      && bi_sector == sector0 + SECTORS_PER_PAGE * done
      && bdevice_sector == sector0 + SECTORS_PER_PAGE * i
      && SlotsOf(requests) == before + Consecutive(sector0, pages[..done])
    }

    /** A flush of the given pages has ended: added of them were gathered, and the device took the first taken
        of those. */
    ghost predicate Ended(before: seq<Slot>, sector0: nat, pages: seq<Page>, taken: nat, added: nat)
      reads this
    {
      && taken <= added <= |pages|
      && SlotsOf(requests) == before + Consecutive(sector0, pages[..taken])
      && bdevice_sector == sector0 + SECTORS_PER_PAGE * added
    }

    method SubmitPages(io: Io, ghost before: seq<Slot>, ghost sector0: nat, ghost pages: seq<Page>,
                       ghost i: nat, ghost submitted: nat)
      returns (len: int, ghost taken: nat)
      requires Sending(before, sector0, pages, i, submitted)
      modifies this`requests, this`bi_sector, this`bi_pages
      ensures bi_pages == [] && bi_sector == bdevice_sector
      ensures len >= 0 <==> io.Done?
      ensures Ended(before, sector0, pages, taken, i)
      ensures io.Done? ==> taken == i
    {
      len, taken := Submit(io);
      ghost var done := PAGES_PER_BIO * submitted;
      ConsecutiveGrows(before, sector0, pages, done, i, taken);
      taken := done + taken;
    }

    /** One turn of bio_write's loop: add a page, and submit the bio when it is full. */
    method SendPage(index: nat, left: nat, added: nat, submitted: nat, io: nat -> Io,
                    ghost before: seq<Slot>, ghost sector0: nat, ghost pages: seq<Page>, ghost i: nat)
      returns (len: int, added': nat, submitted': nat, ghost taken: nat)
      requires Valid() && Sending(before, sector0, pages, i, submitted)
      requires index < ring.size && added == |bi_pages| < PAGES_PER_BIO
      requires i < |pages| && pages[i] == PageAt(ring.View(), tmpbuf[..], index, left)
      requires AllDone(io, submitted)
      modifies this`bdevice_sector, this`requests, this`bi_sector, this`bi_pages, tmpbuf
      ensures ring.View() == old(ring.View())
      ensures tmpbuf[..] == if PAGE <= left then old(tmpbuf[..]) else pages[i]
      ensures len >= 0 ==>
                && Sending(before, sector0, pages, i + 1, submitted')
                && added' == |bi_pages| < PAGES_PER_BIO && AllDone(io, submitted')
      ensures len < 0 ==>
                && submitted' * PAGES_PER_BIO < |pages| && io(submitted').Failed?
                && Ended(before, sector0, pages, taken, i + 1)
    {
      SliceGrows(pages, PAGES_PER_BIO * submitted, i);
      AddPage(index, left);
      len, added', submitted', taken := 0, added + 1, submitted, 0;
      if added' == PAGES_PER_BIO {
        len, taken := SubmitPages(io(submitted), before, sector0, pages, i + 1, submitted);
        if len >= 0 {
          added', submitted' := 0, submitted + 1;
        }
      }
    }

    /** bio_write's loop, over all pages of the window. */
    method SendPages(start: nat, total: nat, io: nat -> Io, ghost pages: seq<Page>, ghost short: bool)
      returns (len: int, added_pages: nat, submitted: nat, ghost taken: nat, ghost added: nat)
      requires Valid() && 0 < total && bi_pages == [] && bi_sector == bdevice_sector
      requires |pages| == CeilDiv(total, PAGE) && (short <==> total % PAGE != 0)
      requires forall i :: 0 <= i < |pages| ==> pages[i] == SentPage(ring.View(), tmpbuf[..], start, total, i)
      modifies this`bdevice_sector, this`requests, this`bi_sector, this`bi_pages, tmpbuf
      ensures ring.View() == old(ring.View())
      ensures tmpbuf[..] == LeftStaged(old(tmpbuf[..]), pages, short, added)
      ensures len >= 0 ==>
                && added == |pages|
                && Sending(SlotsOf(old(requests)), old(bdevice_sector), pages, |pages|, submitted)
                && added_pages == |bi_pages| < PAGES_PER_BIO && AllDone(io, submitted)
      ensures len < 0 ==>
                && submitted * PAGES_PER_BIO < |pages| && io(submitted).Failed?
                && Ended(SlotsOf(old(requests)), old(bdevice_sector), pages, taken, added)
    {
      var remaining, consumed := total, 0;
      ghost var r, tmp, sector0, before := ring.View(), tmpbuf[..], bdevice_sector, SlotsOf(requests);
      added_pages, submitted, added := 0, 0, 0;
      assert before + Consecutive(sector0, pages[..0]) == before;
      while true
        invariant Sending(before, sector0, pages, added, submitted)
        invariant added_pages == |bi_pages| < PAGES_PER_BIO && AllDone(io, submitted)
        invariant ring.View() == r && tmpbuf[..] == tmp
        invariant consumed == PAGE * added && remaining == total - consumed && 0 < remaining
        decreases remaining
      {
        var cbuff_index := (start + consumed) % ring.size;
        NextPage(total, consumed, added, pages);
        len, added_pages, submitted, taken :=
          SendPage(cbuff_index, remaining, added_pages, submitted, io, before, sector0, pages, added);
        added := added + 1;
        if len < 0 {
          return;
        }
        consumed := consumed + PAGE;
        if remaining <= PAGE {
          break;
        }
        remaining := remaining - PAGE;
      }
    }

    /** The whole of bio_write; io gives the device's answer to each of its requests. The first added pages of
        the window, in order, are gathered in consecutive slots, and the device takes the first taken of
        them: all the ceiling of total / 4096 exactly when every request succeeds, and then bio_write
        reports success. The staging page is left with the last short page, if it was gathered. */
    method Write(end: nat, start: nat, io: nat -> Io) returns (len: int, ghost taken: nat, ghost added: nat)
      requires Valid() && start <= end
      modifies this`bdevice_sector, this`requests, this`bi_sector, this`bi_pages, tmpbuf
      ensures Valid() && ring.View() == old(ring.View())
      ensures var pages := SentPages(ring.View(), old(tmpbuf[..]), start, end - start);
              && Ended(SlotsOf(old(requests)), old(bdevice_sector), pages, taken, added)
              && (len >= 0 <==> start < end && AllDone(io, CeilDiv(|pages|, PAGES_PER_BIO)))
              && tmpbuf[..] == LeftStaged(old(tmpbuf[..]), pages, (end - start) % PAGE != 0, added)
      ensures len >= 0 ==> taken == added == CeilDiv(end - start, PAGE)
    {
      len, taken, added := -1, 0, 0;
      ghost var sector0, before := bdevice_sector, SlotsOf(requests);
      ghost var pages := SentPages(ring.View(), tmpbuf[..], start, end - start);
      assert before + Consecutive(sector0, pages[..0]) == before;
      if end - start <= 0 {
        return;
      }
      bi_sector, bi_pages := bdevice_sector, [];
      var added_pages, submitted;
      len, added_pages, submitted, taken, added := SendPages(start, end - start, io, pages, (end - start) % PAGE != 0);
      RequestCount(|pages|, submitted);
      if len >= 0 {
        taken := added;
        if added_pages > 0 {
          len, taken := SubmitPages(io(submitted), before, sector0, pages, added, submitted);
        }
      }
    }

    /** bio_write, and the sectors of earlier flushes. */
    method Flush(end: nat, start: nat, io: nat -> Io) returns (ghost taken: nat, ghost added: nat)
      requires Valid() && start <= end
      requires 1 <= bdevice_sector && InOwnSlots(SlotsOf(requests), bdevice_sector)
      modifies this`bdevice_sector, this`requests, this`bi_sector, this`bi_pages, tmpbuf
      ensures Valid() && ring.View() == old(ring.View())
      ensures 1 <= bdevice_sector && InOwnSlots(SlotsOf(requests), bdevice_sector)
      ensures var pages := SentPages(ring.View(), old(tmpbuf[..]), start, end - start);
              && Ended(SlotsOf(old(requests)), old(bdevice_sector), pages, taken, added)
              && (AllDone(io, CeilDiv(|pages|, PAGES_PER_BIO)) ==> taken == |pages|)
              && tmpbuf[..] == LeftStaged(old(tmpbuf[..]), pages, (end - start) % PAGE != 0, added)
    {
      ghost var pages := SentPages(ring.View(), tmpbuf[..], start, end - start);
      ghost var sector, slots := bdevice_sector, SlotsOf(requests);
      var len;
      len, taken, added := Write(end, start, io);
      OwnSlotsGrow(slots, sector, pages[..taken], bdevice_sector);
    }
  }

  lemma RequestCount(pages: nat, submitted: nat)
    ensures submitted * PAGES_PER_BIO < pages ==> submitted < CeilDiv(pages, PAGES_PER_BIO)
    ensures var added := pages - submitted * PAGES_PER_BIO;
            0 <= added < PAGES_PER_BIO ==>
              CeilDiv(pages, PAGES_PER_BIO) == if added == 0 then submitted else submitted + 1
  {
  }
}
