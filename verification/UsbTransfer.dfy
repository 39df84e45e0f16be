/** do_hardlog_write: the loop that keeps a ring of buffer heads busy with transfers from the host and drains
    them into the device ring. */
module UsbTransfer {
  import opened Bytes
  import DeviceRing

  datatype BufState = Empty | Busy | Full

  /** One piece asked of the host: where in the command's data it starts, and its length. */
  datatype Req = Req(offset: nat, amount: nat)

  /** A buffer head: the piece it was filled for (bulk_out_intended_length is its amount), the length
      requested of the controller, and the transfer's status and received bytes. */
  datatype Buff = Buff(state: BufState, req: Req, length: nat, status: int, data: seq<byte>)

  /** How the loop is left: all written; nothing left to drain; a failed transfer; a short packet; a signal;
      no gadget to transfer from. */
  datatype Exit = Running | Written | StoppedEarly | TransferError | ShortPacket | Interrupted | NoGadget

  /** The command: the length it asks for, the length the host announced, and the LBA's byte offset; and the
      unit's file length and block size, and the bulk-out packet size. */
  datatype Command = Command(total: nat, announced: nat, start: nat, fileLength: nat, blksize: nat, maxpacket: nat)

  /** filled and emptied record the pieces in the order buffers were filled and drained; appended is what
      this command has put in the device ring; outstanding counts the buffers between drain and fill. */
  datatype Xfer = Xfer(bufs: seq<Buff>, fill: nat, drain: nat, outstanding: nat,
                       toReq: nat, toWrite: int, getMore: bool, usbOffset: nat, fileOffset: nat,
                       usbLeft: int, residue: int, exit: Exit,
                       filled: seq<Req>, emptied: seq<Req>, appended: seq<byte>)

  /** bh->next, and the k-th head from one on. */
  function Head(n: nat, from: nat, k: nat): (i: nat)
    requires from < n && k <= n
    ensures i < n
  {
    if from + k < n then from + k else from + k - n
  }

  function RoundUp(amount: nat, packet: nat): nat {
    if packet == 0 || amount % packet == 0 then amount else amount + packet - amount % packet
  }

  function RoundDown(amount: nat, block: nat): (r: nat)
    ensures r <= amount
  {
    if block == 0 then amount else amount - amount % block
  }

  /** The nearest multiples, above and below. */
  lemma Rounded(amount: nat, unit: nat)
    ensures var up, down := RoundUp(amount, unit), RoundDown(amount, unit);
            if unit == 0 then up == down == amount
            else up % unit == down % unit == 0 && down <= amount < down + unit && amount <= up < amount + unit
  {
    if 0 < unit {
      var q := amount / unit;
      DivMod(amount, unit);
      MulDistributes(q, 1, unit);
      DivModUnique(q * unit, unit, q, 0);
      DivModUnique((q + 1) * unit, unit, q + 1, 0);
    }
  }

  function Amount(reqs: seq<Req>): nat {
    if reqs == [] then 0 else Amount(reqs[..|reqs| - 1]) + reqs[|reqs| - 1].amount
  }

  /** What of a drained buffer is written: no more than the file has room for, than was intended, or than
      whole blocks. */
  function Accepted(c: Command, x: Xfer, b: Buff): (n: nat)
    requires x.fileOffset <= c.fileLength
    ensures n <= |b.data| && n <= b.req.amount && n <= c.fileLength - x.fileOffset
  {
    RoundDown(Min(Min(c.fileLength - x.fileOffset, |b.data|), b.req.amount), c.blksize)
  }

  ghost predicate Shape(c: Command, x: Xfer) {
    && x.fill < |x.bufs| && x.drain < |x.bufs| && x.outstanding <= |x.bufs|
    && x.fill == Head(|x.bufs|, x.drain, x.outstanding)
    && x.fileOffset <= c.fileLength && c.start <= x.usbOffset
  }

  /** One turn of the loop; signal says whether a signal is pending, gone whether the gadget has gone. A turn
      that appends is taken once make_space_in_cbuff has returned. */
  function Turn(c: Command, x: Xfer, signal: bool, gone: bool): Xfer
    requires Shape(c, x)
  {
    if x.exit != Running then x
    else if x.toWrite <= 0 then x.(exit := Written)
    else if x.bufs[x.fill].state == Empty && x.getMore then Request(c, x, gone)
    else if x.bufs[x.drain].state == Empty && !x.getMore then x.(exit := StoppedEarly)
    else if x.bufs[x.drain].state == Full then Drain(c, x, signal)
    else if signal then x.(exit := Interrupted)
    else x
  }

  function Request(c: Command, x: Xfer, gone: bool): Xfer
    requires Shape(c, x)
  {
    if c.fileLength <= x.usbOffset then x.(getMore := false)
    else
      var amount := Min(x.toReq, DeviceRing.FSG_BUFLEN);
      var counted := Count(x, amount);
      if gone then counted.(exit := NoGadget)
      else Start(counted, Buff(Busy, Req(x.usbOffset - c.start, amount), RoundUp(amount, c.maxpacket), 0, []))
  }

  function Count(x: Xfer, amount: nat): Xfer
    requires amount <= x.toReq
  {
    x.(usbOffset := x.usbOffset + amount, usbLeft := x.usbLeft - amount,
       toReq := x.toReq - amount, getMore := x.toReq != amount)
  }

  /** start_out_transfer on the next head to fill. */
  function Start(x: Xfer, b: Buff): Xfer
    requires x.fill < |x.bufs|
  {
    x.(bufs := x.bufs[x.fill := b], fill := Head(|x.bufs|, x.fill, 1),
       outstanding := x.outstanding + 1, filled := x.filled + [b.req])
  }

  function Drain(c: Command, x: Xfer, signal: bool): Xfer
    requires Shape(c, x)
  {
    var b := x.bufs[x.drain];
    var taken := Take(x);
    if b.status != 0 then taken.(exit := TransferError) else Put(c, taken, b, signal)
  }

  /** The next head to drain is emptied. */
  function Take(x: Xfer): Xfer
    requires x.drain < |x.bufs|
  {
    var b := x.bufs[x.drain];
    x.(bufs := x.bufs[x.drain := b.(state := Empty)],
       drain := Head(|x.bufs|, x.drain, 1),
       outstanding := if x.outstanding == 0 then 0 else x.outstanding - 1,
       emptied := x.emptied + [b.req])
  }

  /** Its data goes to the device ring. A signal is noticed after the copy but before the counters move. */
  function Put(c: Command, x: Xfer, b: Buff, signal: bool): Xfer
    requires x.fileOffset <= c.fileLength
  {
    var amount := Accepted(c, x, b);
    var put := x.(appended := x.appended + b.data[..amount]);
    if amount != 0 && signal then put.(exit := Interrupted)
    else
      put.(fileOffset := x.fileOffset + amount, toWrite := x.toWrite - amount, residue := x.residue - amount,
           exit := if |b.data| < b.req.amount then ShortPacket else x.exit)
  }

  /** The loop takes a turn, or a transfer completes: any busy buffer, with any status and any bytes that fit
      the requested length. */
  datatype Event = Loop(signal: bool, gone: bool) | Complete(buf: nat, status: int, data: seq<byte>)

  ghost predicate Enabled(c: Command, x: Xfer, e: Event) {
    && Shape(c, x)
    && (e.Complete? ==> e.buf < |x.bufs| && x.bufs[e.buf].state == Busy && |e.data| <= x.bufs[e.buf].length)
  }

  ghost function Apply(c: Command, x: Xfer, e: Event): Xfer
    requires Enabled(c, x, e)
  {
    match e
    case Loop(signal, gone) => Turn(c, x, signal, gone)
    case Complete(i, status, data) => x.(bufs := x.bufs[i := x.bufs[i].(state := Full, status := status, data := data)])
  }

  ghost predicate Legal(c: Command, x: Xfer, run: seq<Event>)
    decreases run
  {
    run == [] || (Enabled(c, x, run[0]) && Legal(c, Apply(c, x, run[0]), run[1..]))
  }

  ghost function After(c: Command, x: Xfer, run: seq<Event>): Xfer
    requires Legal(c, x, run)
    decreases run
  {
    if run == [] then x else After(c, Apply(c, x, run[0]), run[1..])
  }

  /** On entry to the loop, LBA checked: nothing outstanding; the command asks for no more than the host
      announced. */
  ghost predicate Initial(c: Command, x: Xfer) {
    && Shape(c, x) && x.outstanding == 0 && x.exit == Running && x.getMore
    && (forall b :: b in x.bufs ==> b.state == Empty)
    && x.toReq == x.toWrite == c.total && x.usbOffset == x.fileOffset == c.start < c.fileLength
    && c.total <= c.announced == x.residue == x.usbLeft
    && x.filled == [] && x.emptied == [] && x.appended == []
  }

  // ---- What every event keeps

  /** The buffers between drain and fill, in order. */
  ghost function Outstanding(x: Xfer): (reqs: seq<Req>)
    requires x.drain < |x.bufs| && x.outstanding <= |x.bufs|
    ensures |reqs| == x.outstanding
  {
    seq(x.outstanding, k requires 0 <= k < x.outstanding => x.bufs[Head(|x.bufs|, x.drain, k)].req)
  }

  ghost predicate Queue(c: Command, x: Xfer) {
    && Shape(c, x)
    && (forall k :: 0 <= k < |x.bufs| ==>
          (x.bufs[Head(|x.bufs|, x.drain, k)].state == Empty <==> x.outstanding <= k))
    && x.filled == x.emptied + Outstanding(x)
  }

  ghost predicate Counters(c: Command, x: Xfer) {
    && c.total <= c.announced && x.toReq <= c.total
    && x.usbOffset == c.start + (c.total - x.toReq)
    && x.usbLeft == c.announced - (c.total - x.toReq)
    && (if x.exit == NoGadget then Amount(x.filled) <= c.total else Amount(x.filled) == c.total - x.toReq)
    && c.total - Amount(x.emptied) <= x.toWrite <= c.total
    && x.fileOffset == c.start + (c.total - x.toWrite)
    && x.residue == c.announced - (c.total - x.toWrite)
    && (x.exit == Interrupted || |x.appended| == c.total - x.toWrite)
  }

  /** Each piece starts where the one before it ended. */
  ghost predicate Contiguous(reqs: seq<Req>) {
    forall i :: 0 <= i < |reqs| ==> reqs[i].offset == Amount(reqs[..i])
  }

  ghost predicate Inv(c: Command, x: Xfer) {
    Queue(c, x) && Counters(c, x) && Contiguous(x.filled)
  }

  lemma AmountJoined(a: seq<Req>, b: seq<Req>)
    ensures Amount(a + b) == Amount(a) + Amount(b)
  {
    if b == [] {
      assert a + b == a;
    } else {
      assert (a + b)[..|a + b| - 1] == a + b[..|b| - 1];
      AmountJoined(a, b[..|b| - 1]);
    }
  }

  lemma HeadShift(n: nat, from: nat, k: nat)
    requires from < n && k < n
    ensures Head(n, Head(n, from, 1), k) == Head(n, from, k + 1)
  {
  }

  lemma HeadsDiffer(n: nat, from: nat, k: nat, l: nat)
    requires from < n && k < n && l < n
    ensures Head(n, from, k) == Head(n, from, l) <==> k == l
  {
  }

  /** A buffer can be filled only when not all are outstanding, and only the one to drain is drained. */
  lemma NextToFill(c: Command, x: Xfer)
    requires Queue(c, x)
    ensures x.bufs[x.fill].state == Empty ==> x.outstanding < |x.bufs|
    ensures x.bufs[x.drain].state != Empty ==> 0 < x.outstanding && Outstanding(x)[0] == x.bufs[x.drain].req
    ensures x.bufs[x.drain].state == Empty ==> x.outstanding == 0 && x.fill == x.drain
  {
    assert Head(|x.bufs|, x.drain, 0) == x.drain;
  }

  lemma RequestKeepsQueue(c: Command, x: Xfer)
    requires Queue(c, x) && x.bufs[x.fill].state == Empty
    ensures Queue(c, Request(c, x, false))
  {
    NextToFill(c, x);
    var x' := Request(c, x, false);
    if x.usbOffset < c.fileLength {
      forall k | 0 <= k < |x.bufs|
        ensures x'.bufs[Head(|x.bufs|, x.drain, k)].state == Empty <==> x'.outstanding <= k
      {
        HeadsDiffer(|x.bufs|, x.drain, k, x.outstanding);
      }
      assert Outstanding(x') == Outstanding(x) + [x'.bufs[x.fill].req] by {
        forall k | 0 <= k < x.outstanding
          ensures Outstanding(x')[k] == Outstanding(x)[k]
        {
          HeadsDiffer(|x.bufs|, x.drain, k, x.outstanding);
        }
      }
    }
  }

  lemma DrainKeepsStates(c: Command, x: Xfer, signal: bool, k: nat)
    requires Queue(c, x) && x.bufs[x.drain].state == Full && k < |x.bufs|
    ensures var x' := Drain(c, x, signal);
            x'.bufs[Head(|x.bufs|, x'.drain, k)].state == Empty <==> x'.outstanding <= k
  {
    NextToFill(c, x);
    var n := |x.bufs|;
    HeadShift(n, x.drain, k);
    if k + 1 < n {
      HeadsDiffer(n, x.drain, k + 1, 0);
      assert x.bufs[Head(n, x.drain, k + 1)].state == Empty <==> x.outstanding <= k + 1;
    } else {
      assert Head(n, x.drain, n) == x.drain;
    }
  }

  lemma DrainTakesFirst(c: Command, x: Xfer, signal: bool)
    requires Queue(c, x) && x.bufs[x.drain].state == Full
    ensures Outstanding(x) == [x.bufs[x.drain].req] + Outstanding(Drain(c, x, signal))
  {
    NextToFill(c, x);
    var n, now, later := |x.bufs|, Outstanding(x), Outstanding(Drain(c, x, signal));
    forall k | 0 < k < |now|
      ensures now[k] == later[k - 1]
    {
      HeadShift(n, x.drain, k - 1);
      HeadsDiffer(n, x.drain, k, 0);
    }
  }

  lemma DrainKeepsShape(c: Command, x: Xfer, signal: bool)
    requires Queue(c, x) && x.bufs[x.drain].state == Full
    ensures Shape(c, Drain(c, x, signal)) && |Drain(c, x, signal).bufs| == |x.bufs|
  {
    NextToFill(c, x);
    HeadShift(|x.bufs|, x.drain, x.outstanding - 1);
  }

  lemma DrainKeepsOrder(c: Command, x: Xfer, signal: bool)
    requires Queue(c, x) && x.bufs[x.drain].state == Full && Shape(c, Drain(c, x, signal))
    ensures var x' := Drain(c, x, signal); x'.filled == x'.emptied + Outstanding(x')
  {
    DrainTakesFirst(c, x, signal);
  }

  lemma DrainKeepsQueue(c: Command, x: Xfer, signal: bool)
    requires Queue(c, x) && x.bufs[x.drain].state == Full
    ensures Queue(c, Drain(c, x, signal))
  {
    DrainKeepsShape(c, x, signal);
    DrainKeepsOrder(c, x, signal);
    var x' := Drain(c, x, signal);
    forall k | 0 <= k < |x'.bufs|
      ensures x'.bufs[Head(|x'.bufs|, x'.drain, k)].state == Empty <==> x'.outstanding <= k
    {
      DrainKeepsStates(c, x, signal, k);
    }
  }

  lemma CompleteKeepsQueue(c: Command, x: Xfer, e: Event)
    requires Queue(c, x) && e.Complete? && Enabled(c, x, e)
    ensures Queue(c, Apply(c, x, e)) && Outstanding(Apply(c, x, e)) == Outstanding(x)
  {
    var x' := Apply(c, x, e);
    forall k | 0 <= k < |x.bufs|
      ensures x'.bufs[Head(|x.bufs|, x.drain, k)].state == Empty <==> x.outstanding <= k
    {
      assert x.bufs[Head(|x.bufs|, x.drain, k)].state == Empty <==> x.outstanding <= k;
    }
  }

  lemma ContiguousGrows(reqs: seq<Req>, req: Req)
    requires Contiguous(reqs) && req.offset == Amount(reqs)
    ensures Contiguous(reqs + [req]) && Amount(reqs + [req]) == Amount(reqs) + req.amount
  {
    AmountJoined(reqs, [req]);
    var more := reqs + [req];
    forall i | 0 <= i < |more|
      ensures more[i].offset == Amount(more[..i])
    {
      assert more[..i] == reqs[..i];
      assert reqs[..|reqs|] == reqs;
    }
  }

  lemma RequestKeepsCounters(c: Command, x: Xfer)
    requires Shape(c, x) && Counters(c, x) && Contiguous(x.filled) && x.exit == Running
    ensures Counters(c, Request(c, x, false)) && Contiguous(Request(c, x, false).filled)
  {
    if x.usbOffset < c.fileLength {
      var req := Req(x.usbOffset - c.start, Min(x.toReq, DeviceRing.FSG_BUFLEN));
      ContiguousGrows(x.filled, req);
      assert Request(c, x, false).filled == x.filled + [req];
    }
  }

  lemma GoneKeepsInv(c: Command, x: Xfer)
    requires Inv(c, x) && x.exit == Running
    ensures Inv(c, Request(c, x, true))
  {
    assert Outstanding(Request(c, x, true)) == Outstanding(x);
  }

  lemma RequestKeepsInv(c: Command, x: Xfer, gone: bool)
    requires Inv(c, x) && x.exit == Running && x.bufs[x.fill].state == Empty
    ensures Inv(c, Request(c, x, gone))
  {
    if gone {
      GoneKeepsInv(c, x);
    } else {
      RequestKeepsQueue(c, x);
      RequestKeepsCounters(c, x);
    }
  }

  lemma AcceptedFits(c: Command, x: Xfer)
    requires Inv(c, x) && x.exit == Running && x.bufs[x.drain].state == Full
    ensures Accepted(c, x, x.bufs[x.drain]) <= x.toWrite
    ensures Amount(x.emptied + [x.bufs[x.drain].req]) == Amount(x.emptied) + x.bufs[x.drain].req.amount
  {
    NextToFill(c, x);
    NextInQueue(x.filled, x.emptied, Outstanding(x));
  }

  lemma DrainKeepsCounters(c: Command, x: Xfer, signal: bool)
    requires Shape(c, x) && Counters(c, x) && x.exit == Running
    requires Accepted(c, x, x.bufs[x.drain]) <= x.toWrite
    requires Amount(x.emptied + [x.bufs[x.drain].req]) == Amount(x.emptied) + x.bufs[x.drain].req.amount
    ensures Counters(c, Drain(c, x, signal)) && Drain(c, x, signal).filled == x.filled
  {
  }

  lemma DrainKeepsInv(c: Command, x: Xfer, signal: bool)
    requires Inv(c, x) && x.exit == Running && x.bufs[x.drain].state == Full
    ensures Inv(c, Drain(c, x, signal))
  {
    DrainKeepsQueue(c, x, signal);
    AcceptedFits(c, x);
    DrainKeepsCounters(c, x, signal);
  }

  lemma CompleteKeepsInv(c: Command, x: Xfer, e: Event)
    requires Inv(c, x) && e.Complete? && Enabled(c, x, e)
    ensures Inv(c, Apply(c, x, e))
  {
    CompleteKeepsQueue(c, x, e);
  }

  lemma TurnKeepsInv(c: Command, x: Xfer, signal: bool, gone: bool)
    requires Inv(c, x)
    ensures Inv(c, Turn(c, x, signal, gone))
  {
    if x.exit == Running && 0 < x.toWrite {
      if x.bufs[x.fill].state == Empty && x.getMore {
        RequestKeepsInv(c, x, gone);
      } else if x.bufs[x.drain].state == Full {
        DrainKeepsInv(c, x, signal);
      } else {
        ExitKeepsInv(c, x, StoppedEarly);
        ExitKeepsInv(c, x, Interrupted);
      }
    } else {
      ExitKeepsInv(c, x, Written);
    }
  }

  lemma ExitKeepsInv(c: Command, x: Xfer, exit: Exit)
    requires Inv(c, x)
    ensures x.exit == Running && exit != NoGadget ==> Inv(c, x.(exit := exit))
  {
    assert Outstanding(x.(exit := exit)) == Outstanding(x);
  }

  lemma StepKeepsInv(c: Command, x: Xfer, e: Event)
    requires Inv(c, x) && Enabled(c, x, e)
    ensures Inv(c, Apply(c, x, e))
  {
    match e
    case Loop(signal, gone) => TurnKeepsInv(c, x, signal, gone);
    case Complete(_, _, _) => CompleteKeepsInv(c, x, e);
  }

  lemma {:induction false} RunKeepsInv(c: Command, x: Xfer, run: seq<Event>)
    requires Inv(c, x) && Legal(c, x, run)
    ensures Inv(c, After(c, x, run))
    decreases run
  {
    if run != [] {
      StepKeepsInv(c, x, run[0]);
      RunKeepsInv(c, Apply(c, x, run[0]), run[1..]);
    }
  }

  lemma InitialInv(c: Command, x: Xfer)
    requires Initial(c, x)
    ensures Inv(c, x)
  {
    assert Outstanding(x) == [];
    forall k | 0 <= k < |x.bufs|
      ensures x.bufs[Head(|x.bufs|, x.drain, k)].state == Empty
    {
      assert x.bufs[Head(|x.bufs|, x.drain, k)] in x.bufs;
    }
  }

  // ---- Main results

  /** Over every interleaving of the loop with completions, errors, short packets and signals: buffers are
      drained in the order they were filled and for the pieces they were filled for, which follow one
      another; what has been requested is what is outstanding plus what has been drained; the file offset
      stays inside the file; and the amount left to write and the residue fall together and stay
      non-negative, by exactly what goes into the ring. */
  lemma TransferSafety(c: Command, x: Xfer, run: seq<Event>)
    requires Initial(c, x) && Legal(c, x, run)
    ensures var y := After(c, x, run);
            && Shape(c, y) && y.filled == y.emptied + Outstanding(y) && Contiguous(y.filled)
            && Amount(y.filled) == Amount(y.emptied) + Amount(Outstanding(y))
            && (y.exit != NoGadget ==> Amount(y.filled) == c.total - y.toReq)
            && c.start <= y.fileOffset <= c.fileLength
            && 0 <= y.toWrite && 0 <= y.residue && 0 <= y.usbLeft
            && y.usbLeft == x.usbLeft - (c.total - y.toReq) && y.usbOffset == c.start + (c.total - y.toReq)
            && y.residue - y.toWrite == x.residue - x.toWrite
            && y.fileOffset - c.start == c.total - y.toWrite
            && (y.exit != Interrupted ==> |y.appended| == c.total - y.toWrite)
  {
    InitialInv(c, x);
    RunKeepsInv(c, x, run);
    var y := After(c, x, run);
    AmountJoined(y.emptied, Outstanding(y));
  }

  /** The loop only ever waits for a transfer: when a turn changes nothing, the buffer to drain is one whose
      transfer is in flight. */
  lemma WaitsOnlyForTransfers(c: Command, x: Xfer, run: seq<Event>)
    requires Initial(c, x) && Legal(c, x, run)
    requires var y := After(c, x, run); Shape(c, y) && y.exit == Running && Turn(c, y, false, false) == y
    ensures var y := After(c, x, run); y.bufs[y.drain].state == Busy
  {
    InitialInv(c, x);
    RunKeepsInv(c, x, run);
    var y := After(c, x, run);
    NextToFill(c, y);
  }

  // ---- The pieces asked for

  /** The k-th piece: a whole buffer, or what is left of the command. */
  function Piece(c: Command, k: nat): Req
    requires DeviceRing.FSG_BUFLEN * k <= c.total
  {
    Req(DeviceRing.FSG_BUFLEN * k, Min(DeviceRing.FSG_BUFLEN, c.total - DeviceRing.FSG_BUFLEN * k))
  }

  ghost predicate IsPiece(c: Command, req: Req, k: nat) {
    DeviceRing.FSG_BUFLEN * k < c.total && req == Piece(c, k) && c.start + req.offset < c.fileLength
  }

  ghost predicate Pieces(c: Command, x: Xfer) {
    && (forall k :: 0 <= k < |x.filled| ==> IsPiece(c, x.filled[k], k))
    && (x.exit != NoGadget ==> c.total - x.toReq == Min(c.total, DeviceRing.FSG_BUFLEN * |x.filled|))
    && (x.exit == Running && x.getMore ==> 0 < x.toReq || c.total == 0)
    && (x.exit == Running && !x.getMore ==> x.toReq == 0 || c.fileLength <= x.usbOffset)
    && (forall b :: b in x.bufs && b.state == Busy ==> b.length == RoundUp(b.req.amount, c.maxpacket))
  }

  lemma BusyStays(bufs: seq<Buff>, i: nat, b: Buff, packet: nat)
    requires i < |bufs| && (b.state == Busy ==> b.length == RoundUp(b.req.amount, packet))
    requires forall r :: r in bufs && r.state == Busy ==> r.length == RoundUp(r.req.amount, packet)
    ensures forall r :: r in bufs[i := b] && r.state == Busy ==> r.length == RoundUp(r.req.amount, packet)
  {
    forall r | r in bufs[i := b] && r.state == Busy
      ensures r.length == RoundUp(r.req.amount, packet)
    {
      assert r in bufs || r == b;
    }
  }

  lemma RequestKeepsPieces(c: Command, x: Xfer, gone: bool)
    requires Inv(c, x) && Pieces(c, x) && x.exit == Running && 0 < x.toWrite && x.getMore
    ensures Pieces(c, Request(c, x, gone))
  {
    if x.usbOffset < c.fileLength && !gone {
      var k := |x.filled|;
      var b := Request(c, x, false).bufs[x.fill];
      assert IsPiece(c, b.req, k);
      BusyStays(x.bufs, x.fill, b, c.maxpacket);
    }
  }

  lemma DrainKeepsPieces(c: Command, x: Xfer, signal: bool)
    requires Shape(c, x) && Pieces(c, x) && x.exit == Running
    ensures Pieces(c, Drain(c, x, signal))
  {
    BusyStays(x.bufs, x.drain, x.bufs[x.drain].(state := Empty), c.maxpacket);
  }

  lemma StepKeepsPieces(c: Command, x: Xfer, e: Event)
    requires Inv(c, x) && Pieces(c, x) && Enabled(c, x, e)
    ensures Pieces(c, Apply(c, x, e))
  {
    match e
    case Complete(i, _, _) => BusyStays(x.bufs, i, Apply(c, x, e).bufs[i], c.maxpacket);
    case Loop(signal, gone) =>
      if x.exit == Running && 0 < x.toWrite {
        if x.bufs[x.fill].state == Empty && x.getMore {
          RequestKeepsPieces(c, x, gone);
        } else if x.bufs[x.drain].state == Full {
          DrainKeepsPieces(c, x, signal);
        }
      }
  }

  lemma {:induction false} RunKeepsPieces(c: Command, x: Xfer, run: seq<Event>)
    requires Inv(c, x) && Pieces(c, x) && Legal(c, x, run)
    ensures Pieces(c, After(c, x, run))
    decreases run
  {
    if run != [] {
      StepKeepsInv(c, x, run[0]);
      StepKeepsPieces(c, x, run[0]);
      RunKeepsPieces(c, Apply(c, x, run[0]), run[1..]);
    }
  }

  /** What is asked of the host, over every run: the command cut into whole buffers and a rest, in order, as far as
      pieces begin within the file and no further; each transfer is for the piece, rounded up to whole packets.
      Requests stop only when everything has been asked for or the file's end is reached. */
  lemma PiecesAre(c: Command, x: Xfer, run: seq<Event>)
    requires Initial(c, x) && Legal(c, x, run)
    ensures var y := After(c, x, run);
            && (forall k :: 0 <= k < |y.filled| ==> IsPiece(c, y.filled[k], k))
            && (y.exit == Running && !y.getMore ==>
                  c.total <= DeviceRing.FSG_BUFLEN * |y.filled| ||
                  c.fileLength <= c.start + DeviceRing.FSG_BUFLEN * |y.filled|)
            && (forall b :: b in y.bufs && b.state == Busy ==>
                  if c.maxpacket == 0 then b.length == b.req.amount
                  else b.length % c.maxpacket == 0 && b.req.amount <= b.length < b.req.amount + c.maxpacket)
  {
    InitialInv(c, x);
    RunKeepsInv(c, x, run);
    RunKeepsPieces(c, x, run);
    forall b | b in After(c, x, run).bufs && b.state == Busy
      ensures if c.maxpacket == 0 then b.length == b.req.amount
              else b.length % c.maxpacket == 0 && b.req.amount <= b.length < b.req.amount + c.maxpacket
    {
      Rounded(b.req.amount, c.maxpacket);
    }
  }

  // ---- How the loop is left

  /** A transfer that has completed: the piece it was for, its status and its bytes. */
  datatype Arrival = Arrival(req: Req, status: int, data: seq<byte>) {
    predicate Whole() {
      status == 0 && req.amount <= |data|
    }
  }

  /** The completions of a run. */
  ghost function Arrivals(c: Command, x: Xfer, run: seq<Event>): seq<Arrival>
    requires Legal(c, x, run)
    decreases run
  {
    if run == [] then []
    else
      var rest := Arrivals(c, Apply(c, x, run[0]), run[1..]);
      match run[0]
      case Complete(i, status, data) => [Arrival(x.bufs[i].req, status, data)] + rest
      case Loop(_, _) => rest
  }

  /** n is what is taken of an arrival when the file has so much room left: nothing of a failed one; of any other as
      many whole blocks as there are in what was sent, was asked for and has room. */
  ghost predicate IsCut(c: Command, room: int, a: Arrival, n: nat) {
    var most := Min(Min(|a.data|, a.req.amount), room);
    if a.status != 0 then n == 0
    else n <= most && if c.blksize == 0 then n == most else n % c.blksize == 0 && most < n + c.blksize
  }

  function Sum(ns: seq<nat>): nat {
    if ns == [] then 0 else Sum(ns[..|ns| - 1]) + ns[|ns| - 1]
  }

  /** The cuts of drained arrivals, one after the other. */
  ghost predicate Cuts(c: Command, drained: seq<Arrival>, ns: seq<nat>) {
    && |ns| == |drained|
    && (drained == [] ||
        var k := |drained| - 1;
        && Cuts(c, drained[..k], ns[..k])
        && IsCut(c, c.fileLength - c.start - Sum(ns[..k]), drained[k], ns[k]))
  }

  function Gathered(drained: seq<Arrival>, ns: seq<nat>): seq<byte>
    requires |ns| == |drained|
  {
    if drained == [] then []
    else
      var k := |drained| - 1;
      Gathered(drained[..k], ns[..k]) + drained[k].data[..Min(ns[k], |drained[k].data|)]
  }

  /** The exit that the last of the drained arrivals calls for, all before it being whole. */
  ghost predicate LeftBy(drained: seq<Arrival>, exit: Exit) {
    && (forall i :: 0 <= i < |drained| - 1 ==> drained[i].Whole())
    && (exit == TransferError <==> drained != [] && drained[|drained| - 1].status != 0)
    && (exit == ShortPacket ==> drained != [] && !drained[|drained| - 1].Whole())
    && (drained != [] && !drained[|drained| - 1].Whole() ==>
          exit == TransferError || exit == ShortPacket || exit == Interrupted)
  }

  /** The arrivals that have been drained, and what was taken of each. */
  ghost predicate Drained(c: Command, x: Xfer, arrivals: seq<Arrival>, drained: seq<Arrival>, ns: seq<nat>) {
    && |drained| == |x.emptied|
    && (forall i :: 0 <= i < |drained| ==> drained[i] in arrivals && drained[i].req == x.emptied[i])
    && Cuts(c, drained, ns) && x.appended == Gathered(drained, ns)
    && LeftBy(drained, x.exit)
  }

  ghost predicate DrainInv(c: Command, x: Xfer, arrivals: seq<Arrival>, drained: seq<Arrival>, ns: seq<nat>) {
    && Drained(c, x, arrivals, drained, ns)
    && (forall b :: b in x.bufs && b.state == Full ==> Arrival(b.req, b.status, b.data) in arrivals)
    && (x.exit == Running ==> x.fileOffset == c.start + Sum(ns))
  }

  lemma OneMoreDrained(c: Command, drained: seq<Arrival>, ns: seq<nat>, a: Arrival, n: nat)
    requires Cuts(c, drained, ns) && IsCut(c, c.fileLength - c.start - Sum(ns), a, n) && n <= |a.data|
    ensures Cuts(c, drained + [a], ns + [n]) && Sum(ns + [n]) == Sum(ns) + n
    ensures Gathered(drained + [a], ns + [n]) == Gathered(drained, ns) + a.data[..n]
  {
    assert (drained + [a])[..|drained|] == drained && (ns + [n])[..|ns|] == ns;
  }

  lemma AcceptedIsCut(c: Command, x: Xfer, b: Buff)
    requires x.fileOffset <= c.fileLength
    ensures IsCut(c, c.fileLength - x.fileOffset, Arrival(b.req, b.status, b.data),
                  if b.status != 0 then 0 else Accepted(c, x, b))
  {
    Rounded(Min(Min(c.fileLength - x.fileOffset, |b.data|), b.req.amount), c.blksize);
  }

  /** What a turn that drains makes of the exit and of the ring. */
  lemma DrainTakes(c: Command, x: Xfer, signal: bool, a: Arrival, n: nat)
    requires Shape(c, x) && x.exit == Running
    requires var b := x.bufs[x.drain];
             a == Arrival(b.req, b.status, b.data) && n == if b.status != 0 then 0 else Accepted(c, x, b)
    ensures n <= |a.data|
    ensures var x' := Drain(c, x, signal);
            && x'.appended == x.appended + a.data[..n] && x'.emptied == x.emptied + [a.req]
            && (x'.exit == Running ==> x'.fileOffset == x.fileOffset + n)
            && x'.bufs == x.bufs[x.drain := x.bufs[x.drain].(state := Empty)]
            && (x'.exit == TransferError <==> a.status != 0)
            && (x'.exit == ShortPacket ==> !a.Whole())
            && (!a.Whole() ==> x'.exit == TransferError || x'.exit == ShortPacket || x'.exit == Interrupted)
  {
    assert x.appended + a.data[..0] == x.appended;
  }

  lemma DrainDrains(c: Command, x: Xfer, signal: bool, arrivals: seq<Arrival>, drained: seq<Arrival>, ns: seq<nat>)
    returns (drained': seq<Arrival>, ns': seq<nat>)
    requires Shape(c, x) && DrainInv(c, x, arrivals, drained, ns) && x.exit == Running && x.bufs[x.drain].state == Full
    ensures DrainInv(c, Drain(c, x, signal), arrivals, drained', ns')
  {
    var b := x.bufs[x.drain];
    assert b in x.bufs;
    var a := Arrival(b.req, b.status, b.data);
    var n := if b.status != 0 then 0 else Accepted(c, x, b);
    AcceptedIsCut(c, x, b);
    DrainTakes(c, x, signal, a, n);
    OneMoreDrained(c, drained, ns, a, n);
    drained', ns' := drained + [a], ns + [n];
    FullStays(x.bufs, x.drain, b.(state := Empty), arrivals);
    StillLeftBy(drained, a, Drain(c, x, signal).exit);
  }

  lemma StillLeftBy(drained: seq<Arrival>, a: Arrival, exit: Exit)
    requires LeftBy(drained, Running)
    requires (exit == TransferError <==> a.status != 0) && (exit == ShortPacket ==> !a.Whole())
    requires !a.Whole() ==> exit == TransferError || exit == ShortPacket || exit == Interrupted
    ensures LeftBy(drained + [a], exit)
  {
  }

  lemma FullStays(bufs: seq<Buff>, i: nat, b: Buff, arrivals: seq<Arrival>)
    requires i < |bufs| && (b.state == Full ==> Arrival(b.req, b.status, b.data) in arrivals)
    requires forall r :: r in bufs && r.state == Full ==> Arrival(r.req, r.status, r.data) in arrivals
    ensures forall r :: r in bufs[i := b] && r.state == Full ==> Arrival(r.req, r.status, r.data) in arrivals
  {
    forall r | r in bufs[i := b] && r.state == Full
      ensures Arrival(r.req, r.status, r.data) in arrivals
    {
      assert r in bufs || r == b;
    }
  }

  lemma CompleteArrives(c: Command, x: Xfer, e: Event, arrivals: seq<Arrival>, drained: seq<Arrival>, ns: seq<nat>)
    requires DrainInv(c, x, arrivals, drained, ns) && e.Complete? && Enabled(c, x, e)
    ensures DrainInv(c, Apply(c, x, e), arrivals + [Arrival(x.bufs[e.buf].req, e.status, e.data)], drained, ns)
  {
    var more := arrivals + [Arrival(x.bufs[e.buf].req, e.status, e.data)];
    assert more[|arrivals|] == Arrival(x.bufs[e.buf].req, e.status, e.data);
    FullStays(x.bufs, e.buf, Apply(c, x, e).bufs[e.buf], more);
  }

  lemma TurnDrains(c: Command, x: Xfer, signal: bool, gone: bool, arrivals: seq<Arrival>,
                   drained: seq<Arrival>, ns: seq<nat>)
    returns (drained': seq<Arrival>, ns': seq<nat>)
    requires Inv(c, x) && DrainInv(c, x, arrivals, drained, ns)
    ensures DrainInv(c, Turn(c, x, signal, gone), arrivals, drained', ns')
  {
    drained', ns' := drained, ns;
    if x.exit == Running && 0 < x.toWrite {
      if x.bufs[x.fill].state == Empty && x.getMore {
        if x.usbOffset < c.fileLength && !gone {
          FullStays(x.bufs, x.fill, Request(c, x, false).bufs[x.fill], arrivals);
        }
      } else if x.bufs[x.drain].state == Full {
        drained', ns' := DrainDrains(c, x, signal, arrivals, drained, ns);
      }
    }
  }

  lemma {:induction false} RunDrains(c: Command, x: Xfer, run: seq<Event>, arrivals: seq<Arrival>,
                                     drained: seq<Arrival>, ns: seq<nat>)
    returns (drained': seq<Arrival>, ns': seq<nat>)
    requires Inv(c, x) && Legal(c, x, run) && DrainInv(c, x, arrivals, drained, ns)
    ensures DrainInv(c, After(c, x, run), arrivals + Arrivals(c, x, run), drained', ns')
    decreases run
  {
    if run == [] {
      drained', ns' := drained, ns;
      assert arrivals + Arrivals(c, x, run) == arrivals;
    } else {
      var e := run[0];
      StepKeepsInv(c, x, e);
      if e.Complete? {
        var a := Arrival(x.bufs[e.buf].req, e.status, e.data);
        CompleteArrives(c, x, e, arrivals, drained, ns);
        drained', ns' := RunDrains(c, Apply(c, x, e), run[1..], arrivals + [a], drained, ns);
        assert arrivals + [a] + Arrivals(c, Apply(c, x, e), run[1..]) == arrivals + Arrivals(c, x, run);
      } else {
        drained', ns' := TurnDrains(c, x, e.signal, e.gone, arrivals, drained, ns);
        drained', ns' := RunDrains(c, Apply(c, x, e), run[1..], arrivals, drained', ns');
      }
    }
  }

  /** What the ring gets and how the loop is left, over every run, told from its completions: buffers are drained with
      what their transfers brought; all but the last brought their piece whole and without error; the loop ends in
      a transfer error exactly if the last one failed, and nothing is taken of that one; in a short packet only if
      the last one was short, and if it was, it does end. The ring has got, of each in turn, as many whole blocks
      as were sent, asked for and fit the file. */
  lemma LeftAsArrived(c: Command, x: Xfer, run: seq<Event>) returns (drained: seq<Arrival>, ns: seq<nat>)
    requires Initial(c, x) && Legal(c, x, run)
    ensures Drained(c, After(c, x, run), Arrivals(c, x, run), drained, ns)
  {
    InitialInv(c, x);
    drained, ns := RunDrains(c, x, run, [], [], []);
    assert [] + Arrivals(c, x, run) == Arrivals(c, x, run);
  }

  /** A pending signal: no turn with one appends anything and goes on; one that appends leaves the counters behind; one
      that would wait is left. Without a signal the loop is not left for one. */
  lemma SignalLeaves(c: Command, x: Xfer, gone: bool)
    requires Shape(c, x) && x.exit == Running
    ensures var z := Turn(c, x, true, gone);
            && (z.exit == Running ==> z.appended == x.appended)
            && (z.appended != x.appended ==>
                  && z.exit == Interrupted
                  && z.toWrite == x.toWrite && z.residue == x.residue && z.fileOffset == x.fileOffset)
            && (Turn(c, x, false, gone) == x ==> z.exit == Interrupted)
    ensures Turn(c, x, false, gone).exit != Interrupted
  {
  }

  /** A gadget that has gone: the loop is left when it is to start a transfer, and only then; the transfer has been
      counted by then, though no buffer is busy for it. */
  lemma GoneLeaves(c: Command, x: Xfer, signal: bool)
    requires Shape(c, x) && x.exit == Running
    ensures var z, y := Turn(c, x, signal, true), Turn(c, x, signal, false);
            && (z.exit == NoGadget <==> y.filled != x.filled)
            && z.filled == x.filled && z.bufs == (if z.exit == NoGadget then x.bufs else y.bufs)
            && z.toReq == y.toReq && z.usbOffset == y.usbOffset && z.usbLeft == y.usbLeft && z.getMore == y.getMore
            && y.exit != NoGadget && (y.filled == x.filled ==> z == y)
  {
  }

  // ---- A clean command

  /** The host sends the payload, piece by piece, without errors or short packets; no signal arrives and the
      gadget stays. */
  ghost predicate CleanEvent(x: Xfer, e: Event, payload: seq<byte>) {
    match e
    case Loop(signal, gone) => !signal && !gone
    case Complete(i, status, data) =>
      i < |x.bufs| ==>
        var req := x.bufs[i].req;
        && status == 0 && req.amount <= |data|
        && req.offset + req.amount <= |payload| && data[..req.amount] == payload[req.offset..req.offset + req.amount]
  }

  ghost predicate Clean(c: Command, x: Xfer, run: seq<Event>, payload: seq<byte>)
    requires Legal(c, x, run)
    decreases run
  {
    run == [] || (CleanEvent(x, run[0], payload) && Clean(c, Apply(c, x, run[0]), run[1..], payload))
  }

  /** Nothing is clipped and every piece is whole blocks. */
  predicate WholeBlocks(c: Command) {
    && c.start + c.total <= c.fileLength
    && 0 < c.blksize && c.total % c.blksize == 0 && DeviceRing.FSG_BUFLEN % c.blksize == 0
  }

  ghost predicate Received(b: Buff, payload: seq<byte>) {
    && b.status == 0 && b.req.amount <= |b.data|
    && b.req.offset + b.req.amount <= |payload|
    && b.data[..b.req.amount] == payload[b.req.offset..b.req.offset + b.req.amount]
  }

  /** Everything requested is whole blocks, and requests go on until nothing is left to ask for. */
  ghost predicate CleanPieces(c: Command, x: Xfer) {
    && WholeBlocks(c)
    && (x.getMore <==> 0 < x.toReq || c.total == 0)
    && x.toReq % c.blksize == 0
    && (forall r :: r in x.filled ==> r.amount % c.blksize == 0)
  }

  /** What has been drained has been written, and it is the payload so far. */
  ghost predicate CleanData(c: Command, x: Xfer, payload: seq<byte>) {
    && (x.exit == Running || (x.exit == Written && x.toWrite == 0))
    && |payload| == c.total && 0 <= x.toWrite == c.total - Amount(x.emptied)
    && x.appended == payload[..Amount(x.emptied)]
  }

  ghost predicate CleanBuffers(bufs: seq<Buff>, payload: seq<byte>) {
    forall b :: b in bufs && b.state == Full ==> Received(b, payload)
  }

  ghost predicate CleanInv(c: Command, x: Xfer, payload: seq<byte>) {
    Inv(c, x) && CleanPieces(c, x) && CleanData(c, x, payload) && CleanBuffers(x.bufs, payload)
  }

  lemma EmptyReceives(bufs: seq<Buff>, i: nat, b: Buff, payload: seq<byte>)
    requires i < |bufs| && b.state != Full
    requires CleanBuffers(bufs, payload)
    ensures CleanBuffers(bufs[i := b], payload)
  {
    forall r | r in bufs[i := b] && r.state == Full
      ensures Received(r, payload)
    {
      assert r in bufs;
    }
  }

  lemma CleanRequest(c: Command, x: Xfer, payload: seq<byte>)
    requires CleanInv(c, x, payload) && x.exit == Running && 0 < x.toWrite && x.getMore && x.bufs[x.fill].state == Empty
    ensures CleanInv(c, Request(c, x, false), payload)
  {
    RequestKeepsInv(c, x, false);
    var x' := Request(c, x, false);
    MultipleDifference(x.toReq, DeviceRing.FSG_BUFLEN, c.blksize);
    if x.usbOffset < c.fileLength {
      EmptyReceives(x.bufs, x.fill, x'.bufs[x.fill], payload);
    }
  }

  lemma MultipleDifference(x: nat, y: nat, d: nat)
    requires 0 < d && x % d == 0 && y % d == 0
    ensures y <= x ==> (x - y) % d == 0
  {
    if y <= x {
      DifferenceMod(x, y, d);
    }
  }

  /** The buffer to drain holds the piece that follows what has been drained. */
  lemma NextPiece(c: Command, x: Xfer)
    requires Inv(c, x) && x.bufs[x.drain].state == Full
    ensures var req := x.bufs[x.drain].req;
            && req in x.filled && req.offset == Amount(x.emptied)
            && Amount(x.emptied + [req]) == Amount(x.emptied) + req.amount <= c.total
  {
    NextToFill(c, x);
    NextInQueue(x.filled, x.emptied, Outstanding(x));
  }

  lemma NextInQueue(filled: seq<Req>, emptied: seq<Req>, waiting: seq<Req>)
    requires filled == emptied + waiting && waiting != [] && Contiguous(filled)
    ensures waiting[0] in filled && waiting[0].offset == Amount(emptied)
    ensures Amount(emptied + [waiting[0]]) == Amount(emptied) + waiting[0].amount <= Amount(filled)
  {
    var k := |emptied|;
    assert filled[k] == waiting[0] && filled[..k] == emptied;
    assert filled == emptied + [waiting[0]] + waiting[1..];
    AmountJoined(emptied + [waiting[0]], waiting[1..]);
    assert (emptied + [waiting[0]])[..k] == emptied;
  }

  /** A buffer drained in a clean command is taken whole. */
  lemma CleanBuffer(c: Command, x: Xfer, b: Buff)
    requires Shape(c, x) && 0 < c.blksize && b.req.amount % c.blksize == 0
    requires b.req.amount <= |b.data| && b.req.amount <= c.fileLength - x.fileOffset
    ensures Accepted(c, x, b) == b.req.amount
  {
  }

  /** The drained buffer extends the payload prefix in the ring. */
  lemma DrainExtends(c: Command, x: Xfer, payload: seq<byte>, b: Buff)
    requires Shape(c, x) && CleanData(c, x, payload) && x.exit == Running && b == x.bufs[x.drain]
    requires Received(b, payload) && Accepted(c, x, b) == b.req.amount && b.req.offset == Amount(x.emptied)
    requires Amount(x.emptied + [b.req]) == Amount(x.emptied) + b.req.amount <= c.total
    ensures CleanData(c, Drain(c, x, false), payload)
  {
    var done := Amount(x.emptied);
    assert payload[..done] + payload[done..done + b.req.amount] == payload[..done + b.req.amount];
  }

  lemma CleanDrain(c: Command, x: Xfer, payload: seq<byte>)
    requires CleanInv(c, x, payload) && x.exit == Running && x.bufs[x.drain].state == Full
    ensures CleanInv(c, Drain(c, x, false), payload)
  {
    var b := x.bufs[x.drain];
    assert b in x.bufs;
    NextPiece(c, x);
    CleanBuffer(c, x, b);
    DrainExtends(c, x, payload, b);
    EmptyReceives(x.bufs, x.drain, b.(state := Empty), payload);
    DrainKeepsInv(c, x, false);
  }

  lemma CompleteReceives(bufs: seq<Buff>, i: nat, b: Buff, payload: seq<byte>)
    requires i < |bufs| && Received(b, payload)
    requires CleanBuffers(bufs, payload)
    ensures CleanBuffers(bufs[i := b], payload)
  {
    forall r | r in bufs[i := b] && r.state == Full
      ensures Received(r, payload)
    {
      assert r in bufs || r == b;
    }
  }

  lemma CompleteKeepsRest(c: Command, x: Xfer, e: Event, payload: seq<byte>)
    requires CleanPieces(c, x) && CleanData(c, x, payload) && e.Complete? && Enabled(c, x, e)
    ensures CleanPieces(c, Apply(c, x, e)) && CleanData(c, Apply(c, x, e), payload)
  {
  }

  lemma CompleteKeepsBuffers(c: Command, x: Xfer, e: Event, payload: seq<byte>)
    requires CleanBuffers(x.bufs, payload) && e.Complete? && Enabled(c, x, e) && CleanEvent(x, e, payload)
    ensures CleanBuffers(Apply(c, x, e).bufs, payload)
  {
    CompleteReceives(x.bufs, e.buf, Apply(c, x, e).bufs[e.buf], payload);
  }

  lemma CleanComplete(c: Command, x: Xfer, e: Event, payload: seq<byte>)
    requires CleanInv(c, x, payload) && e.Complete? && Enabled(c, x, e) && CleanEvent(x, e, payload)
    ensures CleanInv(c, Apply(c, x, e), payload)
  {
    CompleteKeepsInv(c, x, e);
    CompleteKeepsRest(c, x, e, payload);
    CompleteKeepsBuffers(c, x, e, payload);
  }

  /** A clean command never runs out of buffers to drain before everything is written. */
  lemma CleanNotEarly(c: Command, x: Xfer, payload: seq<byte>)
    requires CleanInv(c, x, payload) && 0 < x.toWrite
    ensures x.getMore || x.bufs[x.drain].state != Empty
  {
    NextToFill(c, x);
    if x.bufs[x.drain].state == Empty {
      assert x.filled == x.emptied;
    }
  }

  lemma CleanStep(c: Command, x: Xfer, e: Event, payload: seq<byte>)
    requires CleanInv(c, x, payload) && Enabled(c, x, e) && CleanEvent(x, e, payload)
    ensures CleanInv(c, Apply(c, x, e), payload)
  {
    if e.Complete? {
      CleanComplete(c, x, e, payload);
    } else if x.exit == Running && 0 < x.toWrite {
      CleanNotEarly(c, x, payload);
      if x.bufs[x.fill].state == Empty && x.getMore {
        CleanRequest(c, x, payload);
      } else if x.bufs[x.drain].state == Full {
        CleanDrain(c, x, payload);
      }
    }
  }

  lemma {:induction false} CleanRunKeepsInv(c: Command, x: Xfer, run: seq<Event>, payload: seq<byte>)
    requires CleanInv(c, x, payload) && Legal(c, x, run) && Clean(c, x, run, payload)
    ensures CleanInv(c, After(c, x, run), payload)
    decreases run
  {
    if run != [] {
      CleanStep(c, x, run[0], payload);
      CleanRunKeepsInv(c, Apply(c, x, run[0]), run[1..], payload);
    }
  }

  /** A clean, unclipped command of whole blocks: at every moment the ring has received a prefix of the
      payload, the loop is left only when all is written, and then the ring has received exactly the
      payload, in order, and the residue is what the host announced beyond the command. */
  lemma CleanCommandDelivers(c: Command, x: Xfer, run: seq<Event>, payload: seq<byte>)
    requires Initial(c, x) && WholeBlocks(c) && |payload| == c.total
    requires Legal(c, x, run) && Clean(c, x, run, payload)
    ensures var y := After(c, x, run);
            && (y.exit == Running || y.exit == Written)
            && y.appended <= payload
            && (y.exit == Written ==> y.appended == payload && y.toWrite == 0 && y.residue == c.announced - c.total)
  {
    InitialInv(c, x);
    CleanRunKeepsInv(c, x, run, payload);
  }

  // ---- A clean command ends

  function Load(b: Buff): nat {
    match b.state
    case Empty => 0
    case Full => 1
    case Busy => 2
  }

  /** What the buffers have to go through before they are empty again. */
  function Weight(bufs: seq<Buff>): nat {
    if bufs == [] then 0 else Weight(bufs[..|bufs| - 1]) + Load(bufs[|bufs| - 1])
  }

  lemma {:induction false} WeightUpdate(bufs: seq<Buff>, i: nat, b: Buff)
    requires i < |bufs|
    ensures Weight(bufs[i := b]) + Load(bufs[i]) == Weight(bufs) + Load(b)
  {
    var k := |bufs| - 1;
    if i == k {
      assert bufs[i := b][..k] == bufs[..k];
    } else {
      assert bufs[i := b][..k] == bufs[..k][i := b];
      WeightUpdate(bufs[..k], i, b);
    }
  }

  lemma {:induction false} EmptyWeighsNothing(bufs: seq<Buff>)
    requires forall b :: b in bufs ==> b.state == Empty
    ensures Weight(bufs) == 0
  {
    if bufs != [] {
      assert bufs[|bufs| - 1] in bufs;
      EmptyWeighsNothing(bufs[..|bufs| - 1]);
    }
  }

  /** Falls with every event that does anything: a byte still to ask for weighs more than all that can happen
      to the buffer it comes in. */
  function Rank(x: Xfer): nat {
    3 * x.toReq + Weight(x.bufs) + if x.exit == Running then 1 else 0
  }

  ghost predicate Useful(c: Command, x: Xfer, e: Event)
    requires Enabled(c, x, e)
  {
    Apply(c, x, e) != x
  }

  ghost function UsefulEvents(c: Command, x: Xfer, run: seq<Event>): nat
    requires Legal(c, x, run)
    decreases run
  {
    if run == [] then 0 else (if Useful(c, x, run[0]) then 1 else 0) + UsefulEvents(c, Apply(c, x, run[0]), run[1..])
  }

  lemma RequestRank(c: Command, x: Xfer)
    requires Shape(c, x) && x.exit == Running && x.bufs[x.fill].state == Empty
    requires 0 < x.toReq && x.usbOffset < c.fileLength
    ensures Rank(Request(c, x, false)) < Rank(x)
  {
    var amount := Min(x.toReq, DeviceRing.FSG_BUFLEN);
    WeightUpdate(x.bufs, x.fill, Buff(Busy, Req(x.usbOffset - c.start, amount), RoundUp(amount, c.maxpacket), 0, []));
  }

  lemma DrainRank(c: Command, x: Xfer)
    requires Shape(c, x) && x.exit == Running && x.bufs[x.drain].state == Full
    ensures Rank(Drain(c, x, false)) < Rank(x)
  {
    WeightUpdate(x.bufs, x.drain, x.bufs[x.drain].(state := Empty));
  }

  lemma TurnRank(c: Command, x: Xfer, payload: seq<byte>)
    requires CleanInv(c, x, payload) && Turn(c, x, false, false) != x
    requires Turn(c, x, false, false).exit != StoppedEarly
    ensures Rank(Turn(c, x, false, false)) < Rank(x)
  {
    if x.exit == Running && 0 < x.toWrite {
      if x.bufs[x.fill].state == Empty && x.getMore {
        RequestRank(c, x);
      } else if x.bufs[x.drain].state == Full {
        DrainRank(c, x);
      }
    }
  }

  lemma CompleteRank(c: Command, x: Xfer, e: Event)
    requires e.Complete? && Enabled(c, x, e)
    ensures Rank(Apply(c, x, e)) < Rank(x)
  {
    WeightUpdate(x.bufs, e.buf, x.bufs[e.buf].(state := Full, status := e.status, data := e.data));
  }

  lemma UsefulFalls(c: Command, x: Xfer, e: Event, payload: seq<byte>)
    requires CleanInv(c, x, payload) && Enabled(c, x, e) && CleanEvent(x, e, payload)
    ensures CleanInv(c, Apply(c, x, e), payload)
    ensures Rank(Apply(c, x, e)) + (if Useful(c, x, e) then 1 else 0) <= Rank(x)
  {
    CleanStep(c, x, e, payload);
    if e.Complete? {
      CompleteRank(c, x, e);
    } else if Useful(c, x, e) {
      TurnRank(c, x, payload);
    }
  }

  lemma {:induction false} CleanRunFalls(c: Command, x: Xfer, run: seq<Event>, payload: seq<byte>)
    requires CleanInv(c, x, payload) && Legal(c, x, run) && Clean(c, x, run, payload)
    ensures Rank(After(c, x, run)) + UsefulEvents(c, x, run) <= Rank(x)
    decreases run
  {
    if run != [] {
      UsefulFalls(c, x, run[0], payload);
      CleanRunFalls(c, Apply(c, x, run[0]), run[1..], payload);
    }
  }

  /** A clean command ends: no clean run has more than three events for each byte, and one, that do anything;
      and as long as the loop has not been left, such an event is at hand: a turn of the loop, or the
      completion of the transfer it waits for. */
  lemma CleanCommandEnds(c: Command, x: Xfer, run: seq<Event>, payload: seq<byte>)
    requires Initial(c, x) && WholeBlocks(c) && |payload| == c.total
    requires Legal(c, x, run) && Clean(c, x, run, payload)
    ensures UsefulEvents(c, x, run) <= 3 * c.total + 1
    ensures var y := After(c, x, run);
            && Shape(c, y)
            && (y.exit == Running ==> Turn(c, y, false, false) != y || y.bufs[y.drain].state == Busy)
            && (y.exit != Running ==> y.exit == Written && y.appended == payload)
  {
    InitialInv(c, x);
    EmptyWeighsNothing(x.bufs);
    CleanRunFalls(c, x, run, payload);
    CleanCommandDelivers(c, x, run, payload);
    RunKeepsInv(c, x, run);
    var y := After(c, x, run);
    NextToFill(c, y);
  }

  // ---- The driver's own data

  /** do_hardlog_write's locals and the fsg_common fields it updates, with the device ring it appends to. */
  class FsgTransfer {
    const c: Command
    const bufs: array<Buff>
    const cbuff: DeviceRing.DataCbuff
    var next_to_fill: nat
    var next_to_drain: nat
    var amount_left_to_req: nat
    var amount_left_to_write: int
    var get_some_more: bool
    var usb_offset: nat
    var file_offset: nat
    var usb_amount_left: int
    var residue: int
    var exit: Exit
    ghost var outstanding: nat
    ghost var filled: seq<Req>
    ghost var emptied: seq<Req>
    ghost var received: nat  // bytes in the device ring's stream before this command

    ghost predicate Valid()
      reads this, bufs, cbuff, cbuff.buffer
    {
      && cbuff.Valid() && received <= |cbuff.received|
      && Shape(c, View())
      && forall i :: 0 <= i < bufs.Length ==> bufs[i].req.amount <= DeviceRing.FSG_BUFLEN
    }

    ghost function View(): Xfer
      requires received <= |cbuff.received|
      reads this, bufs, cbuff
    {
      Xfer(bufs[..], next_to_fill, next_to_drain, outstanding, amount_left_to_req, amount_left_to_write,
           get_some_more, usb_offset, file_offset, usb_amount_left, residue, exit,
           filled, emptied, cbuff.received[received..])
    }

    constructor (c: Command, bufs: array<Buff>, cbuff: DeviceRing.DataCbuff, start: nat)
      requires cbuff.Valid() && start < bufs.Length && c.start < c.fileLength && c.total <= c.announced
      requires forall i :: 0 <= i < bufs.Length ==>
                 bufs[i].state == Empty && bufs[i].req.amount <= DeviceRing.FSG_BUFLEN
      ensures Valid() && Initial(c, View()) && this.c == c && this.bufs == bufs && this.cbuff == cbuff
    {
      this.c, this.bufs, this.cbuff := c, bufs, cbuff;
      next_to_fill, next_to_drain := start, start;
      amount_left_to_req, amount_left_to_write, get_some_more := c.total, c.total, true;
      usb_offset, file_offset := c.start, c.start;
      usb_amount_left, residue := c.announced, c.announced;
      exit := Running;
      outstanding, filled, emptied, received := 0, [], [], |cbuff.received|;
    }

    /** bh->next. */
    function Next(i: nat): nat {
      if i + 1 < bufs.Length then i + 1 else i + 1 - bufs.Length
    }

    /** Queueing a request for more data from the host. */
    method RequestMore(gone: bool)
      requires Valid() && exit == Running && bufs[next_to_fill].state == Empty && outstanding < bufs.Length
      modifies this, bufs
      ensures Valid()
      ensures View() == Request(c, old(View()), gone)
    {
      var amount := Min(amount_left_to_req, DeviceRing.FSG_BUFLEN);
      if usb_offset >= c.fileLength {
        get_some_more := false;
        return;
      }
      CountRequest(amount);
      if gone {
        exit := NoGadget;
        return;
      }
      StartOutTransfer(Buff(Busy, Req(usb_offset - amount - c.start, amount), RoundUp(amount, c.maxpacket), 0, []));
    }

    method CountRequest(amount: nat)
      requires Valid() && amount <= amount_left_to_req
      modifies this`usb_offset, this`usb_amount_left, this`amount_left_to_req, this`get_some_more
      ensures Valid() && View() == Count(old(View()), amount)
    {
      usb_offset := usb_offset + amount;
      usb_amount_left := usb_amount_left - amount;
      amount_left_to_req := amount_left_to_req - amount;
      get_some_more := amount_left_to_req != 0;
    }

    method StartOutTransfer(bh: Buff)
      requires Valid() && outstanding < bufs.Length && bh.req.amount <= DeviceRing.FSG_BUFLEN
      modifies this`next_to_fill, this`outstanding, this`filled, bufs
      ensures View() == Start(old(View()), bh) && Valid()
    {
      bufs[next_to_fill] := bh;
      next_to_fill := Next(next_to_fill);
      outstanding, filled := outstanding + 1, filled + [bh.req];
    }

    method TakeBuffer() returns (bh: Buff)
      requires Valid() && 0 < outstanding
      modifies this`next_to_drain, this`outstanding, this`emptied, bufs
      ensures View() == Take(old(View())) && Valid() && bh == old(bufs[next_to_drain])
    {
      bh := bufs[next_to_drain];
      bufs[next_to_drain] := bh.(state := Empty);
      next_to_drain := Next(next_to_drain);
      outstanding, emptied := outstanding - 1, emptied + [bh.req];
    }

    /** The copy into the device ring; make_space_in_cbuff has returned. */
    method PutData(bh: Buff, signal: bool)
      requires Valid() && bh.req.amount <= DeviceRing.FSG_BUFLEN
      requires cbuff.head - cbuff.tail < cbuff.size
      modifies this`file_offset, this`amount_left_to_write, this`residue, this`exit
      modifies cbuff`head, cbuff`received, cbuff.buffer
      ensures Valid() && View() == Put(c, old(View()), bh, signal)
    {
      var amount := AmountToWrite(bh);
      if amount != 0 {
        WriteData(bh.data[..amount], signal);
        if signal {
          return;
        }
      } else {
        assert View().appended + bh.data[..0] == View().appended;
      }
      if |bh.data| < bh.req.amount {
        exit := ShortPacket;
      }
    }

    /** The copy to the ring, and the counters unless a signal is noticed. */
    method WriteData(data: seq<byte>, signal: bool)
      requires Valid() && |data| <= DeviceRing.FSG_BUFLEN && file_offset + |data| <= c.fileLength
      requires cbuff.head - cbuff.tail < cbuff.size
      modifies this`file_offset, this`amount_left_to_write, this`residue, this`exit
      modifies cbuff`head, cbuff`received, cbuff.buffer
      ensures Valid()
      ensures View() == var x := old(View()).(appended := old(View()).appended + data);
                        if signal then x.(exit := Interrupted)
                        else x.(fileOffset := x.fileOffset + |data|,
                                toWrite := x.toWrite - |data|, residue := x.residue - |data|)
    {
      CopyToRing(data);
      if signal {
        exit := Interrupted;
        return;
      }
      CountWritten(|data|);
    }

    method AmountToWrite(bh: Buff) returns (amount: nat)
      requires Valid()
      ensures amount == Accepted(c, View(), bh)
    {
      amount := |bh.data|;
      if c.fileLength - file_offset < amount {
        amount := c.fileLength - file_offset;
      }
      amount := RoundDown(Min(amount, bh.req.amount), c.blksize);
    }

    method CountWritten(amount: nat)
      requires Valid() && file_offset + amount <= c.fileLength
      modifies this`file_offset, this`amount_left_to_write, this`residue
      ensures Valid()
      ensures View() == var x := old(View());
                        x.(fileOffset := x.fileOffset + amount,
                           toWrite := x.toWrite - amount, residue := x.residue - amount)
    {
      file_offset := file_offset + amount;
      amount_left_to_write := amount_left_to_write - amount;
      residue := residue - amount;
    }

    method CopyToRing(data: seq<byte>)
      requires Valid() && |data| <= DeviceRing.FSG_BUFLEN && cbuff.head - cbuff.tail < cbuff.size
      modifies cbuff`head, cbuff`received, cbuff.buffer
      ensures Valid() && View() == old(View()).(appended := old(View()).appended + data)
    {
      var ok := cbuff.Append(data);
      assert cbuff.received == old(cbuff.received) + data;
    }

    /** Writing received data. */
    method DrainNext(signal: bool)
      requires Valid() && 0 < outstanding
      requires cbuff.head - cbuff.tail < cbuff.size
      modifies this, bufs, cbuff`head, cbuff`received, cbuff.buffer
      ensures Valid() && View() == Drain(c, old(View()), signal)
    {
      var bh := TakeBuffer();
      if bh.status != 0 {
        exit := TransferError;
      } else {
        PutData(bh, signal);
      }
    }

    /** One turn of the loop; a turn that appends is taken once make_space_in_cbuff has returned. */
    method LoopTurn(signal: bool, gone: bool)
      requires Valid() && Queue(c, View())
      requires bufs[next_to_drain].state == Full ==> cbuff.head - cbuff.tail < cbuff.size
      modifies this, bufs, cbuff`head, cbuff`received, cbuff.buffer
      ensures Valid()
      ensures View() == Turn(c, old(View()), signal, gone)
    {
      NextToFill(c, View());
      if exit == Running {
        if amount_left_to_write <= 0 {
          exit := Written;
        } else if bufs[next_to_fill].state == Empty && get_some_more {
          RequestMore(gone);
        } else if bufs[next_to_drain].state == Empty && !get_some_more {
          exit := StoppedEarly;
        } else if bufs[next_to_drain].state == Full {
          DrainNext(signal);
        } else if signal {
          exit := Interrupted;
        }
      }
    }
  }
}
