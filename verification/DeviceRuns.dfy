/** Runs of the host and its device that are made step by step: what can happen, from every start and for every
    size of the ring. */
module DeviceRuns {
  import opened Bytes
  import opened HostRing
  import opened HostRun
  import opened BioWrite
  import opened HostFlush
  import opened HostDevice

  // ---- Putting runs together

  /** A run whose appends hit no unflushed bytes. */
  ghost predicate Harmless(r: Rig, run: seq<RigEvent>) {
    RigLegal(r, run) && RigUnhit(r, run)
  }

  lemma RigThenRun(r: Rig, e: RigEvent, rest: seq<RigEvent>)
    requires RigEnabled(r, e) && Harmless(Step(r, e), rest)
    requires e.HostStep? && e.e.Append? ==> !r.host.ring.Hits(|e.e.record|)
    ensures Harmless(r, [e] + rest) && RigAfter(r, [e] + rest) == RigAfter(Step(r, e), rest)
  {
    assert ([e] + rest)[1..] == rest;
  }

  lemma {:induction false} RigRunThenRun(r: Rig, a: seq<RigEvent>, b: seq<RigEvent>)
    requires Harmless(r, a) && Harmless(RigAfter(r, a), b)
    ensures Harmless(r, a + b) && RigAfter(r, a + b) == RigAfter(RigAfter(r, a), b)
    decreases a
  {
    if a == [] {
      assert a + b == b;
    } else {
      FirstOf(a, b);
      var r1 := Step(r, a[0]);
      assert RigAfter(r, a) == RigAfter(r1, a[1..]);
      RigRunThenRun(r1, a[1..], b);
      RigThenRun(r, a[0], a[1..] + b);
    }
  }

  // ---- A pass with nothing in between

  /** The flush of a window when all its pages find the same ring. */
  function Undisturbed(ring: Ring, start: nat, end: nat, tmp: Page, sector: nat): Flush {
    Flush(seq(PagesToRead(Write(start, end)), _ => ring), ring, ring.size, start, end, tmp, sector)
  }

  /** The pages of the write under way that are still missing. */
  lemma {:induction false} ReadPages(r: Rig, tmp0: Page, n: nat) returns (run: seq<RigEvent>)
    requires RigInv(r, tmp0) && r.host.pc.Write? && |r.rings| + n == PagesToRead(r.host.pc)
    ensures Harmless(r, run) && RigAfter(r, run) == r.(rings := r.rings + seq(n, _ => r.host.ring))
    ensures RigInv(RigAfter(r, run), tmp0)
    decreases n
  {
    if n == 0 {
      run := [];
      assert r.rings + seq(n, _ => r.host.ring) == r.rings;
    } else {
      ReadKeepsRig(r, tmp0);
      var rest := ReadPages(Step(r, ReadPage), tmp0, n - 1);
      run := [ReadPage] + rest;
      RigThenRun(r, ReadPage, rest);
      assert [r.host.ring] + seq(n - 1, _ => r.host.ring) == seq(n, _ => r.host.ring);
    }
  }

  ghost predicate OneMore<T(!new)>(before: seq<T>, after: seq<T>, last: T) {
    && |after| == |before| + 1 && after[|before|] == last
    && forall i :: 0 <= i < |before| ==> after[i] == before[i]
  }

  /** What a pass, or the rest of one, leaves. */
  ghost predicate PassEnds(r: Rig, h: Rig, tmp0: Page, k: nat, start: nat, end: nat) {
    && RigInv(h, tmp0) && h.host.pc == ReadHead && h.host.records == r.host.records
    && h.host.ring == r.host.ring.(tail := if 1 < k then end else r.host.ring.tail)
    && (if 3 <= k then
          && OneMore(r.host.written, h.host.written, Window(start, end))
          && OneMore(r.flushes, h.flushes, Undisturbed(r.host.ring, start, end, r.tmp, r.next))
        else h.host.written == r.host.written && h.flushes == r.flushes)
  }

  /** The write, and the rest of the pass behind it. */
  lemma WriteAlone(r: Rig, tmp0: Page, start: nat, end: nat) returns (run: seq<RigEvent>)
    requires RigInv(r, tmp0) && r.host.pc == Write(start, end) && r.rings == []
    ensures Harmless(r, run)
    ensures var h := RigAfter(r, run);
            && RigInv(h, tmp0) && h.host == FlusherStep(r.host) && h.rings == []
            && h.flushes == r.flushes + [Undisturbed(r.host.ring, start, end, r.tmp, r.next)]
  {
    var n := PagesToRead(r.host.pc);
    var pages := ReadPages(r, tmp0, n);
    var r1 := RigAfter(r, pages);
    assert r1.rings == seq(n, _ => r.host.ring);
    WriteKeepsRig(r1, tmp0);
    var e := HostStep(Flusher);
    assert Harmless(Step(r1, e), []);
    RigThenRun(r1, e, []);
    RigRunThenRun(r, pages, [e] + []);
    run := pages + ([e] + []);
  }

  lemma OneStep(r: Rig, e: RigEvent)
    requires RigEnabled(r, e) && (e.HostStep? && e.e.Append? ==> !r.host.ring.Hits(|e.e.record|))
    ensures Harmless(r, [e]) && RigAfter(r, [e]) == Step(r, e)
  {
    RigThenRun(r, e, []);
    assert [e] + [] == [e];
  }

  /** The next step of a pass, or the write with all its pages. */
  lemma PassPart(r: Rig, tmp0: Page, k: nat, start: nat, end: nat) returns (run: seq<RigEvent>)
    requires RigInv(r, tmp0) && 0 < k <= 5 && r.host.pc == PassPc(k, start, end) && r.rings == []
    requires 1 < k ==> r.host.ring.tail == start
    ensures Harmless(r, run)
    ensures var h := RigAfter(r, run);
            && RigInv(h, tmp0) && h.host == FlusherStep(r.host) && h.rings == [] && (k < 3 ==> h.flushes == r.flushes)
            && (3 < k ==> h == r.(host := h.host))
            && (k == 3 ==> OneMore(r.flushes, h.flushes, Undisturbed(r.host.ring, start, end, r.tmp, r.next)))
  {
    if k == 3 {
      run := WriteAlone(r, tmp0, start, end);
    } else {
      OtherKeepsRig(r, Flusher, tmp0);
      OneStep(r, HostStep(Flusher));
      run := [HostStep(Flusher)];
    }
  }

  /** The flusher alone, through the rest of a pass over a window. */
  lemma {:induction false} RigAlone(r: Rig, tmp0: Page, k: nat, start: nat, end: nat) returns (run: seq<RigEvent>)
    requires RigInv(r, tmp0) && k <= 5 && r.host.pc == PassPc(k, start, end) && r.rings == []
    requires 1 < k ==> r.host.ring.tail == start
    ensures Harmless(r, run) && PassEnds(r, RigAfter(r, run), tmp0, k, start, end)
    decreases k
  {
    if k == 0 {
      run := [];
    } else {
      AloneStep(r.host, k, start, end);
      var first := PassPart(r, tmp0, k, start, end);
      var rest := RigAlone(RigAfter(r, first), tmp0, k - 1, start, end);
      RigRunThenRun(r, first, rest);
      run := first + rest;
    }
  }

  /** A whole pass, over everything appended. */
  lemma RigPass(r: Rig, tmp0: Page) returns (run: seq<RigEvent>)
    requires RigInv(r, tmp0) && r.host.pc == ReadHead
    ensures Harmless(r, run)
    ensures var h := RigAfter(r, run);
            && RigInv(h, tmp0) && h.host.pc == ReadHead && h.host.ring == r.host.ring.(tail := r.host.ring.head)
            && OneMore(r.host.written, h.host.written, Window(r.host.ring.tail, r.host.ring.head))
            && OneMore(r.flushes, h.flushes,
                       Undisturbed(r.host.ring, r.host.ring.tail, r.host.ring.head, r.tmp, r.next))
  {
    OtherKeepsRig(r, Flusher, tmp0);
    OneStep(r, HostStep(Flusher));
    var r1 := Step(r, HostStep(Flusher));
    var rest := RigAlone(r1, tmp0, 5, r.host.ring.tail, r.host.ring.head);
    RigRunThenRun(r, [HostStep(Flusher)], rest);
    run := [HostStep(Flusher)] + rest;
  }

  // ---- Appends

  /** An append that leaves the occupancy within the ring's size. */
  lemma RigAppend(r: Rig, tmp0: Page, record: seq<byte>)
    requires RigInv(r, tmp0) && record != [] && |record| <= EVENT_SIZE
    requires r.host.ring.head + |record| <= r.host.ring.tail + r.host.ring.size
    ensures var run := [HostStep(Append(record, false))];
            && Harmless(r, run)
            && RigInv(RigAfter(r, run), tmp0)
            && RigAfter(r, run) == r.(host := Apply(r.host, Append(record, false)))
  {
    var e := Append(record, false);
    OtherKeepsRig(r, e, tmp0);
    OneStep(r, HostStep(e));
  }

  /** Appends that come to n bytes. */
  lemma {:induction false} RigFill(r: Rig, tmp0: Page, n: nat) returns (run: seq<RigEvent>)
    requires RigInv(r, tmp0)
    requires 0 < n ==> r.host.ring.head + n <= r.host.ring.tail + r.host.ring.size
    ensures Harmless(r, run)
    ensures var h := RigAfter(r, run);
            && RigInv(h, tmp0) && h == r.(host := h.host)
            && h.host.pc == r.host.pc && h.host.written == r.host.written
            && h.host.ring.size == r.host.ring.size && h.host.ring.tail == r.host.ring.tail
            && h.host.ring.head == r.host.ring.head + n
    decreases n
  {
    if n == 0 {
      run := [];
    } else {
      var record := seq(Min(n, EVENT_SIZE), _ => 65);
      var one := [HostStep(Append(record, false))];
      RigAppend(r, tmp0, record);
      var rest := RigFill(RigAfter(r, one), tmp0, n - |record|);
      RigRunThenRun(r, one, rest);
      run := one + rest;
    }
  }

  /** Appends that come to n bytes, and the pass that flushes them with what was there before. */
  lemma FillAndPass(r: Rig, tmp0: Page, n: nat) returns (run: seq<RigEvent>)
    requires RigInv(r, tmp0) && r.host.pc == ReadHead
    requires 0 < n ==> r.host.ring.head + n <= r.host.ring.tail + r.host.ring.size
    ensures Harmless(r, run)
    ensures var h, end := RigAfter(r, run), r.host.ring.head + n;
            && RigInv(h, tmp0) && h.host.pc == ReadHead
            && h.host.ring.size == r.host.ring.size && h.host.ring.tail == h.host.ring.head == end
            && OneMore(r.host.written, h.host.written, Window(r.host.ring.tail, end))
  {
    var fill := RigFill(r, tmp0, n);
    var pass := RigPass(RigAfter(r, fill), tmp0);
    RigRunThenRun(r, fill, pass);
    run := fill + pass;
  }

  // ---- Bytes that a window misses

  lemma {:induction false} WrittenGrows(s: Host, run: seq<Event>)
    requires Legal(s, run)
    ensures s.written <= After(s, run).written
    decreases run
  {
    if run != [] {
      WrittenGrows(Apply(s, run[0]), run[1..]);
    }
  }

  /** The window that a flushed byte is in. */
  lemma {:induction false} WindowAt(windows: seq<Window>, reached: nat, o: nat) returns (w: nat)
    requires Tiled(windows, reached) && o < reached
    ensures w < |windows| && windows[w].start <= o < windows[w].end
  {
    var k := |windows| - 1;
    if windows[k].start <= o {
      w := k;
    } else {
      w := WindowAt(windows[..k], windows[k].start, o);
    }
  }

  /** Flushed, and in no page of any write that has returned. */
  ghost predicate Unsent(s: Host, o: nat) {
    o < Written(s) && !SentBy(s.written, o)
  }

  /** Whether more windows send an unsent byte again. */
  lemma MoreWindows(windows: seq<Window>, reached: nat, more: seq<Window>, reached': nat, o: nat)
    requires Tiled(windows, reached) && Tiled(more, reached') && windows <= more
    requires o < reached && !SentBy(windows, o)
    ensures SentBy(more, o) <==>
            exists w :: |windows| <= w < |more| && more[w].start / PAGE == o / PAGE && PAGE <= more[w].Total()
  {
    var own := WindowAt(windows, reached, o);
    assert !Sends(windows[own].start, windows[own].Total(), o);
    assert more[own] == windows[own];
    SentExactly(windows, reached, own, o);
    SentExactly(more, reached', own, o);
    forall w | own < w < |windows|
      ensures !(more[w].start / PAGE == o / PAGE && PAGE <= more[w].Total())
    {
      assert more[w] == windows[w];
    }
  }

  lemma {:induction false} LaterStart(windows: seq<Window>, reached: nat, more: seq<Window>, reached': nat, w: nat)
    requires Tiled(windows, reached) && Tiled(more, reached') && windows <= more && |windows| <= w < |more|
    ensures reached <= more[w].start
  {
    TiledMeans(windows, reached);
    TiledMeans(more, reached');
    if windows != [] {
      var k := |windows| - 1;
      assert more[k] == windows[k];
      WindowsApart(more, reached', k, w);
    }
  }

  /** Once the flushed stretch has left its page, an unsent byte is lost: no continuation sends it. */
  lemma LostForGood(r: Rig, run: seq<RigEvent>, more: seq<RigEvent>, o: nat)
    requires Opened(r) && RigLegal(r, run) && RigLegal(RigAfter(r, run), more)
    requires var h := RigAfter(r, run).host; Unsent(h, o) && o / PAGE < Written(h) / PAGE
    ensures Unsent(RigAfter(RigAfter(r, run), more).host, o)
  {
    var h := RigAfter(r, run);
    var g := RigAfter(h, more);
    RunKeepsRig(r, run, r.tmp);
    RunKeepsRig(h, more, r.tmp);
    RigIsHostRun(h, more);
    WrittenGrows(h.host, HostEvents(more));
    MoreWindows(h.host.written, Written(h.host), g.host.written, Written(g.host), o);
    forall w | |h.host.written| <= w < |g.host.written|
      ensures g.host.written[w].start / PAGE != o / PAGE
    {
      LaterStart(h.host.written, Written(h.host), g.host.written, Written(g.host), w);
      QuotientsInOrder(Written(h.host), g.host.written[w].start);
    }
    LaterEnd(h.host.written, Written(h.host), g.host.written, Written(g.host));
  }

  lemma QuotientsInOrder(a: nat, b: nat)
    requires a <= b
    ensures a / PAGE <= b / PAGE
  {
    MulGap(b / PAGE, a / PAGE, PAGE);
  }

  lemma LaterEnd(windows: seq<Window>, reached: nat, more: seq<Window>, reached': nat)
    requires Tiled(windows, reached) && Tiled(more, reached') && windows <= more
    ensures reached <= reached'
  {
    TiledMeans(windows, reached);
    TiledMeans(more, reached');
    if windows != [] {
      assert more[|windows| - 1] == windows[|windows| - 1];
    }
  }

  /** Some continuation has a write that sends the byte. */
  ghost predicate CanBeSent(r: Rig, o: nat) {
    exists more :: RigLegal(r, more) && SentBy(RigAfter(r, more).host.written, o)
  }

  lemma NeverSent(r: Rig, run: seq<RigEvent>, o: nat)
    requires Opened(r) && RigLegal(r, run)
    requires var h := RigAfter(r, run).host; Unsent(h, o) && o / PAGE < Written(h) / PAGE
    ensures !CanBeSent(RigAfter(r, run), o)
  {
    forall more | RigLegal(RigAfter(r, run), more)
      ensures !SentBy(RigAfter(RigAfter(r, run), more).host.written, o)
    {
      LostForGood(r, run, more, o);
    }
  }

  /** Appends up to a page, and a pass. */
  lemma NextWholePage(h: Rig, tmp0: Page) returns (more: seq<RigEvent>, w: nat)
    requires RigInv(h, tmp0) && h.host.pc == ReadHead
    ensures Harmless(h, more)
    ensures var windows := RigAfter(h, more).host.written;
            w < |windows| && windows[w].start == h.host.ring.tail && PAGE <= windows[w].Total()
  {
    var occupied := h.host.ring.head - h.host.ring.tail;
    w := |h.host.written|;
    if PAGE <= occupied {
      more := FillAndPass(h, tmp0, 0);
    } else {
      more := FillAndPass(h, tmp0, PAGE - occupied);
    }
  }

  /** They send a byte of the page that the next window starts in. */
  lemma ResentByNext(h: Rig, tmp0: Page, o: nat)
    requires RigInv(h, tmp0) && h.host.pc == ReadHead && o < h.host.ring.tail && o / PAGE == h.host.ring.tail / PAGE
    ensures CanBeSent(h, o)
  {
    var more, w := NextWholePage(h, tmp0);
    SentFromFront(RigAfter(h, more).host.written, w, o);
  }

  lemma SentFromFront(windows: seq<Window>, w: nat, o: nat)
    requires w < |windows| && o < windows[w].start && windows[w].start / PAGE == o / PAGE && PAGE <= windows[w].Total()
    ensures SentBy(windows, o)
  {
    FrontCoverage(windows[w].start, windows[w].Total(), o);
  }

  /** In which states between two passes an unsent byte can still be sent: exactly while the next window is to
      start on its page. */
  lemma CanBeSentExactly(r: Rig, run: seq<RigEvent>, o: nat)
    requires Opened(r) && RigLegal(r, run) && RigAfter(r, run).host.pc == ReadHead
    requires Unsent(RigAfter(r, run).host, o)
    ensures var h := RigAfter(r, run); CanBeSent(h, o) <==> o / PAGE == h.host.ring.tail / PAGE
  {
    var h := RigAfter(r, run);
    QuotientsInOrder(o, h.host.ring.tail);
    if o / PAGE == h.host.ring.tail / PAGE {
      RunKeepsRig(r, run, r.tmp);
      ResentByNext(h, r.tmp, o);
    } else {
      NeverSent(r, run, o);
    }
  }

  /** Two windows, of 100 bytes and of a page. Neither sends offset 4096, whatever the ring's size. */
  lemma MissedByTwo(r: Rig) returns (run: seq<RigEvent>)
    requires Opened(r)
    ensures Harmless(r, run)
    ensures var h := RigAfter(r, run);
            && RigInv(h, r.tmp) && h.host.pc == ReadHead && h.host.ring.size == r.host.ring.size
            && h.host.ring.head == h.host.ring.tail == 100 + PAGE
            && |h.host.written| == 2
            && h.host.written[0] == Window(0, 100) && h.host.written[1] == Window(100, 100 + PAGE)
            && Unsent(h.host, PAGE)
  {
    var one := FillAndPass(r, r.tmp, 100);
    var two := FillAndPass(RigAfter(r, one), r.tmp, PAGE);
    RigRunThenRun(r, one, two);
    run := one + two;
    MissedIsUnsent(RigAfter(r, run).host.written);
  }

  lemma MissedIsUnsent(windows: seq<Window>)
    requires 2 <= |windows| <= 3 && windows[0] == Window(0, 100) && windows[1] == Window(100, 100 + PAGE)
    requires |windows| == 3 ==> windows[2] == Window(100 + PAGE, 2 * PAGE)
    ensures !SentBy(windows, PAGE)
  {
    SendsExactly(0, 100, PAGE);
    SendsExactly(100, PAGE, PAGE);
    SendsExactly(100 + PAGE, PAGE - 100, PAGE);
  }

  /** A third window behind those, of n bytes. */
  lemma ThirdWindow(r: Rig, n: nat) returns (run: seq<RigEvent>)
    requires Opened(r) && n <= PAGE
    ensures Harmless(r, run)
    ensures var h := RigAfter(r, run).host;
            && h.pc == ReadHead && h.ring.tail == 100 + PAGE + n && |h.written| == 3
            && h.written[0] == Window(0, 100) && h.written[1] == Window(100, 100 + PAGE)
            && h.written[2] == Window(100 + PAGE, 100 + PAGE + n)
  {
    var two := MissedByTwo(r);
    var three := FillAndPass(RigAfter(r, two), r.tmp, n);
    RigRunThenRun(r, two, three);
    run := two + three;
  }

  /** From every start, whatever the ring's size, and though no append hits unflushed bytes: a third window of
      less than a page, and the byte at offset 4096 is lost for good. */
  lemma ByteIsLost(r: Rig) returns (run: seq<RigEvent>)
    requires Opened(r)
    ensures Harmless(r, run)
    ensures var h := RigAfter(r, run); PAGE < h.host.ring.tail && Unsent(h.host, PAGE) && !CanBeSent(h, PAGE)
  {
    run := ThirdWindow(r, PAGE - 100);
    var h := RigAfter(r, run);
    MissedIsUnsent(h.host.written);
    NeverSent(r, run, PAGE);
  }

  /** A third window of a page, and the byte is sent by that one. */
  lemma ByteIsResent(r: Rig) returns (run: seq<RigEvent>)
    requires Opened(r)
    ensures Harmless(r, run)
    ensures var windows := RigAfter(r, run).host.written;
            && |windows| == 3 && windows[1].start <= PAGE < windows[1].end <= windows[2].start
            && !Sends(windows[1].start, windows[1].Total(), PAGE)
            && Sends(windows[2].start, windows[2].Total(), PAGE)
  {
    run := ThirdWindow(r, PAGE);
    SendsExactly(100, PAGE, PAGE);
    SendsExactly(100 + PAGE, PAGE, PAGE);
  }

  // ---- Padding that is not NUL

  /** An append and the pass that flushes it. */
  lemma AppendAndPass(r: Rig, tmp0: Page, record: seq<byte>) returns (run: seq<RigEvent>)
    requires RigInv(r, tmp0) && r.host.pc == ReadHead && r.host.ring.head == r.host.ring.tail
    requires record != [] && |record| <= EVENT_SIZE
    ensures Harmless(r, run)
    ensures var h := RigAfter(r, run);
            var ring := r.host.ring.Append(record);
            && RigInv(h, tmp0) && h.host.pc == ReadHead && h.host.ring == ring.(tail := ring.head)
            && OneMore(r.flushes, h.flushes, Undisturbed(ring, r.host.ring.head, ring.head, r.tmp, r.next))
  {
    var one := [HostStep(Append(record, false))];
    RigAppend(r, tmp0, record);
    var pass := RigPass(RigAfter(r, one), tmp0);
    RigRunThenRun(r, one, pass);
    run := one + pass;
  }

  lemma TwoRecordsTwoFlushes(r: Rig, a: seq<byte>, b: seq<byte>) returns (run: seq<RigEvent>)
    requires Opened(r) && 0 < |a| <= EVENT_SIZE && 0 < |b| <= EVENT_SIZE
    ensures Harmless(r, run)
    ensures var h := RigAfter(r, run);
            && |h.flushes| == 2
            && h.flushes[0] == Undisturbed(r.host.ring.Append(a), 0, |a|, r.tmp, 1)
            && h.flushes[1].start == |a| && h.flushes[1].end == |a| + |b|
  {
    var first := AppendAndPass(r, r.tmp, a);
    var second := AppendAndPass(RigAfter(r, first), r.tmp, b);
    RigRunThenRun(r, first, second);
    run := first + second;
  }

  /** From every start, whatever the ring's size and even if the staging page was allocated NUL: a record, a
      flush, a shorter record and a flush leave the first record's bytes behind the second's. */
  lemma PaddingHoldsOldRecord(r: Rig, a: seq<byte>, b: seq<byte>, q: nat) returns (run: seq<RigEvent>)
    requires Opened(r) && 0 < |b| <= q < |a| <= EVENT_SIZE
    ensures RigLegal(r, run) && |RigAfter(r, run).flushes| == 2
    ensures var f := RigAfter(r, run).flushes[1];
            && f.Good() && f.Total() == |b|
            && |f.rings| == 1 && f.Pages()[0][q] == a[q]
  {
    run := TwoRecordsTwoFlushes(r, a, b);
    var h := RigAfter(r, run);
    ShortOnly(|b|);
    PaddingOverRun(r, run, 1, q);
    assert h.flushes[..1] == [h.flushes[0]];
    OneEarlier(r.tmp, h.flushes[0], q);
    FromSlice(r.host.ring.Append(a).buf, 0, a, q);
  }

  lemma ShortOnly(total: nat)
    requires total < PAGE
    ensures total / PAGE == 0 && total % PAGE == total
  {
  }

  lemma OneEarlier(tmp0: Page, f: Flush, q: nat)
    requires f.Last().Valid() && f.start == 0 && q < f.end < PAGE
    ensures Rings(Sents([f])) && LatestByte(tmp0, Sents([f]), q) == f.Last().buf[q]
  {
    var one := Sents([f]);
    assert one == [f.Sent()];
    assert CeilDiv(f.end, PAGE) == 1;
    assert LatestLonger(one, q) == Some(0);
    assert PageIndex(f.Last().size, 0, 0) == 0;
  }
}
