/** The request and response protocol: one client of the host library, the host module's ioctls, the command
    and response units of the device, and the device library's polling loop, interleaved in any order. */
module Protocol {
  import opened Bytes
  import opened ReadyMessage
  import opened ResponsePath

  const REQUEST_SIZE: nat := 4096
  const EXIT: seq<byte> := [101, 120, 105, 116]
  const PERCENT: byte := 37

  // ---- Data

  /** Where the client is: command written but server_request not yet raised, polling, copying the response
      sector by sector, or stopped by the exception stoul throws. */
  datatype Client = Idle | Raising | Polling | Reading(size: nat, got: seq<byte>) | Dead

  /** Where the device library is. The REQUEST ioctl reads the flag in one step and clears it in a later one;
      asked is what it read. */
  datatype Library =
    | ReadFlag
    | ClearFlag(asked: bool)
    | Handle
    | WriteBlocks(response: seq<byte>, done: nat)
    | Announce(response: seq<byte>)

  /** A published response. readable says that the command sector's old content let its size be read back. */
  datatype Answer = Answer(response: seq<byte>, readable: bool)

  /** sector is the command unit's first sector, area the response unit's file, request the host module's
      request_buffer. received holds what each READRESPONSE gave the client, None for a failed read. */
  datatype State = State(client: Client, library: Library, server_request: bool,
                         request: seq<byte>, sector: seq<byte>, area: seq<byte>,
                         sent: seq<seq<byte>>, handled: seq<seq<byte>>, answers: seq<Answer>,
                         received: seq<Option<seq<byte>>>)

  datatype Event =
    | Send(command: seq<byte>)
    | Raise
    | Poll
    | ReadSector
    | Device(response: seq<byte>)

  // ---- Steps

  /** A word as cin >> command gives it: it fits the sector with its newline, is not the word that ends the
      client, is not taken for READY and, since the module passes it on as a format, has no conversion. */
  ghost predicate Command(c: seq<byte>) {
    && c != [] && |c| < SECTOR && c != EXIT && c != READY
    && forall i :: 0 <= i < |c| ==> !IsSpace(c[i]) && c[i] != NUL && c[i] != PERCENT
  }

  /** SENDREQUEST: the text and its terminator over what request_buffer held before. */
  function Requested(request: seq<byte>, c: seq<byte>): (r: seq<byte>)
    requires |request| == REQUEST_SIZE && |c| < SECTOR
    ensures |r| == REQUEST_SIZE && c + [NEWLINE] <= r[..SECTOR]
  {
    Overwrite(request, 0, c + [NEWLINE, NUL])
  }

  /** CHECKRESPONSEREADY: the sector over the start of request_buffer. */
  function Polled(s: State): (r: seq<byte>)
    requires |s.request| == REQUEST_SIZE && |s.sector| == SECTOR
    ensures |r| == REQUEST_SIZE && s.sector <= r
  {
    Overwrite(s.request, 0, s.sector)
  }

  /** Behind a message for n bytes, data has no digit left that could be taken for one of the message's. */
  predicate Readable(data: seq<byte>, n: nat)
    requires |Message(n)| <= |data|
  {
    var stale := LeadingDigits(data[|Message(n)|..]);
    stale == [] || (n == 0 && Value(stale) == 0)
  }

  ghost predicate Sized(s: State) {
    |s.request| == REQUEST_SIZE && |s.sector| == SECTOR <= |s.area|
  }

  ghost predicate Enabled(s: State, e: Event) {
    Sized(s) &&
    match e
    case Send(c) => s.client.Idle? && Command(c)
    case Raise => s.client.Raising?
    case Poll => s.client.Polling?
    case ReadSector => s.client.Reading?
    case Device(response) => LibraryCanStep(s, response)
  }

  ghost predicate LibraryCanStep(s: State, response: seq<byte>) {
    match s.library
    case Handle => |response| < UINT64_LIMIT
    case WriteBlocks(r, done) => done < |r| && done <= |s.area| && done % CHUNK == 0
    case Announce(r) => |r| < UINT64_LIMIT
    case _ => true
  }

  ghost function Apply(s: State, e: Event): State
    requires Enabled(s, e)
  {
    match e
    case Send(c) =>
      var request := Requested(s.request, c);
      s.(client := Raising, request := request, sector := request[..SECTOR], sent := s.sent + [c])
    case Raise => s.(client := Polling, server_request := true)
    case Poll => PollStep(s)
    case ReadSector => ReadStep(s)
    case Device(response) => LibraryStep(s, response)
  }

  function PollStep(s: State): State
    requires |s.request| == REQUEST_SIZE && |s.sector| == SECTOR
  {
    var request := Polled(s);
    s.(request := request,
       client := if !IsResponseReady(request) then Polling
                 else match GetResponseSize(request)
                      case None => Dead
                      case Some(size) => Reading(size, []))
  }

  function ReadStep(s: State): State
    requires s.client.Reading?
  {
    var Reading(size, got) := s.client;
    if |s.area| < |got| + SECTOR then s.(client := Idle, received := s.received + [None])
    else
      var more := got + s.area[|got|..|got| + SECTOR];
      if size <= |more| then s.(client := Idle, received := s.received + [Some(more[..size])])
      else s.(client := Reading(size, more))
  }

  ghost function LibraryStep(s: State, response: seq<byte>): State
    requires Sized(s) && LibraryCanStep(s, response)
  {
    match s.library
    case ReadFlag => s.(library := ClearFlag(s.server_request))
    case ClearFlag(asked) => s.(library := if asked then Handle else ReadFlag, server_request := false)
    case Handle => s.(library := NextWrite(response, 0), handled := s.handled + [FirstLine(s.sector)])
    case WriteBlocks(r, done) =>
      s.(library := NextWrite(r, done + CHUNK), area := WriteAt(s.area, done, Block(r, done)))
    case Announce(r) =>
      MessageFits(|r|);
      s.(library := ReadFlag, sector := Publish(s.sector, |r|),
         answers := s.answers + [Answer(r, Readable(Polled(s), |r|))])
  }

  function NextWrite(response: seq<byte>, done: nat): Library {
    if done < |response| then WriteBlocks(response, done) else Announce(response)
  }

  ghost predicate Initial(s: State) {
    && Sized(s) && s.client.Idle? && s.library == ReadFlag && !s.server_request
    && s.sent == [] && s.handled == [] && s.answers == [] && s.received == []
  }

  ghost predicate Legal(s: State, run: seq<Event>)
    decreases run
  {
    run == [] || (Enabled(s, run[0]) && Legal(Apply(s, run[0]), run[1..]))
  }

  ghost function After(s: State, run: seq<Event>): State
    requires Legal(s, run)
    decreases run
  {
    if run == [] then s else After(Apply(s, run[0]), run[1..])
  }

  // ---- What a sector says

  /** A request is read back by the device library as the word that was sent, and is taken for an answer by
      the client only if that word is READY. */
  lemma RequestSays(c: seq<byte>, data: seq<byte>)
    requires c != [] && (forall i :: 0 <= i < |c| ==> !IsSpace(c[i]) && c[i] != NUL) && c + [NEWLINE] <= data
    ensures FirstLine(data) == c
    ensures IsResponseReady(data) <==> c == READY
  {
    var rest := data[|c| + 1..];
    assert data == c + [NEWLINE] + rest;
    FirstLineThrough(c, rest);
    RequestCString(c, rest);
    WordThenRest(c, [NEWLINE] + CString(rest));
  }

  lemma RequestCString(c: seq<byte>, rest: seq<byte>)
    requires NUL !in c
    ensures CString(c + [NEWLINE] + rest) == c + ([NEWLINE] + CString(rest))
  {
    CStringThrough(c + [NEWLINE], rest);
    Regroup(c, [NEWLINE], [], CString(rest));
    assert c + [NEWLINE] + [] == c + [NEWLINE];
    assert [] + CString(rest) == CString(rest);
  }

  /** An answer is taken for one, and its size is read back exactly when it is readable. */
  lemma AnswerSays(s: State, n: nat)
    requires Sized(s) && n < UINT64_LIMIT && |Message(n)| <= SECTOR
    ensures var s' := s.(sector := Publish(s.sector, n));
            && Polled(s') == Publish(Polled(s), n)
            && IsResponseReady(Polled(s'))
            && (GetResponseSize(Polled(s')) == Some(n) <==> Readable(Polled(s), n))
  {
    var s' := s.(sector := Publish(s.sector, n));
    assert Polled(s') == Publish(Polled(s), n);
    ReadyRoundTrip(Polled(s), n);
  }

  // ---- What every step keeps

  predicate Quiet(l: Library) {
    l.ReadFlag? || (l.ClearFlag? && !l.asked)
  }

  predicate Busy(l: Library) {
    l.WriteBlocks? || l.Announce?
  }

  ghost predicate Stored(response: seq<byte>, area: seq<byte>) {
    response + Padding(response) <= area
  }

  /** The sector still holds the latest request. */
  ghost predicate RequestShown(s: State) {
    s.sent != [] && s.sent[|s.sent| - 1] + [NEWLINE] <= s.sector
  }

  ghost predicate AnswerStored(s: State) {
    s.answers != [] && Stored(s.answers[|s.answers| - 1].response, s.area)
  }

  /** The sector holds the latest answer. */
  ghost predicate AnswerShown(s: State)
    requires Sized(s)
  {
    && AnswerStored(s) && IsResponseReady(Polled(s))
    && var last := s.answers[|s.answers| - 1];
       GetResponseSize(Polled(s)) == Some(|last.response|) <==> last.readable
  }

  ghost predicate LogInv(s: State) {
    && s.handled <= s.sent && |s.sent| <= |s.handled| + 1
    && (forall c :: c in s.sent ==> Command(c))
    && |s.handled| == |s.answers| + (if Busy(s.library) then 1 else 0)
    && |s.sent| == |s.received| + (if s.client.Idle? then 0 else 1)
    && |s.received| <= |s.answers|
    && forall j :: 0 <= j < |s.received| ==> (s.answers[j].readable <==> s.received[j] == Some(s.answers[j].response))
  }

  ghost predicate LibraryInv(s: State) {
    match s.library
    case WriteBlocks(r, done) =>
      done < |r| < UINT64_LIMIT && done <= |s.area| && done % CHUNK == 0 && s.area[..done] == r[..done]
    case Announce(r) => |r| < UINT64_LIMIT && Stored(r, s.area)
    case _ => true
  }

  ghost predicate WaitingInv(s: State)
    requires Sized(s)
  {
    if |s.handled| < |s.sent| then
      && RequestShown(s) && !Busy(s.library)
      && (s.library == ClearFlag(true) ==> s.server_request)
      && (s.library.Handle? ==> !s.server_request)
    else
      && !s.server_request && (Quiet(s.library) || Busy(s.library))
      && (if Busy(s.library) then RequestShown(s) else AnswerShown(s))
  }

  ghost predicate ReadingInv(s: State)
    requires s.client.Reading?
  {
    var Reading(size, got) := s.client;
    && AnswerStored(s)
    && (s.answers[|s.answers| - 1].readable <==> size == |s.answers[|s.answers| - 1].response|)
    && |got| % SECTOR == 0 && got <= s.area && (got == [] || |got| < size)
  }

  ghost predicate ClientInv(s: State)
    requires Sized(s)
  {
    match s.client
    case Polling => WaitingInv(s)
    case Raising => !s.server_request && Quiet(s.library) && |s.sent| == |s.handled| + 1 && RequestShown(s)
    case Reading(_, _) => !s.server_request && Quiet(s.library) && s.handled == s.sent && ReadingInv(s)
    case _ => !s.server_request && Quiet(s.library) && s.handled == s.sent
  }

  ghost predicate Inv(s: State) {
    Sized(s) && LogInv(s) && LibraryInv(s) && ClientInv(s)
  }

  lemma ShownRequestSays(s: State)
    requires Sized(s) && LogInv(s) && RequestShown(s)
    ensures FirstLine(s.sector) == s.sent[|s.sent| - 1] && !IsResponseReady(Polled(s))
  {
    var c := s.sent[|s.sent| - 1];
    assert c in s.sent && Command(c);
    RequestSays(c, s.sector);
    RequestSays(c, Polled(s));
  }

  lemma SendKeepsInv(s: State, c: seq<byte>)
    requires Inv(s) && Enabled(s, Send(c))
    ensures Inv(Apply(s, Send(c)))
  {
  }

  lemma RaiseKeepsInv(s: State)
    requires Inv(s) && Enabled(s, Raise)
    ensures Inv(Apply(s, Raise))
  {
  }

  /** Polling leaves what the next poll will see as it is. */
  lemma PolledStays(s: State)
    requires Sized(s)
    ensures Sized(PollStep(s)) && Polled(PollStep(s)) == Polled(s)
  {
  }

  lemma NotReadyKeepsInv(s: State)
    requires Inv(s) && s.client.Polling? && !IsResponseReady(Polled(s))
    ensures Inv(PollStep(s))
  {
    PolledStays(s);
  }

  lemma ReadyKeepsInv(s: State)
    requires Inv(s) && s.client.Polling? && IsResponseReady(Polled(s))
    requires s.handled == s.sent && !Busy(s.library)
    ensures Inv(PollStep(s))
  {
    PolledStays(s);
  }

  lemma PollKeepsInv(s: State)
    requires Inv(s) && Enabled(s, Poll)
    ensures Inv(Apply(s, Poll))
  {
    if |s.handled| < |s.sent| || Busy(s.library) {
      ShownRequestSays(s);
      NotReadyKeepsInv(s);
    } else {
      assert s.handled == s.sent;
      ReadyKeepsInv(s);
    }
  }

  lemma MoreKeepsInv(s: State, more: seq<byte>)
    requires Inv(s) && s.client.Reading? && more <= s.area && |more| % SECTOR == 0 && |more| < s.client.size
    ensures Inv(s.(client := Reading(s.client.size, more)))
  {
  }

  lemma ReadKeepsInv(s: State)
    requires Inv(s) && Enabled(s, ReadSector)
    ensures Inv(Apply(s, ReadSector))
  {
    var Reading(size, got) := s.client;
    var last := s.answers[|s.answers| - 1];
    if last.readable {
      SectorInArea(last.response, s.area, got);
    }
    if |got| + SECTOR <= |s.area| {
      var more := got + s.area[|got|..|got| + SECTOR];
      if size <= |more| {
        ReceiveKeepsInv(s, Some(more[..size]));
      } else {
        SectorsAdd(|got|);
        MoreKeepsInv(s, more);
      }
    } else {
      ReceiveKeepsInv(s, None);
    }
  }

  lemma SectorsAdd(n: nat)
    requires n % SECTOR == 0
    ensures (n + SECTOR) % SECTOR == 0
  {
  }

  lemma ReceiveKeepsInv(s: State, r: Option<seq<byte>>)
    requires Inv(s) && s.client.Reading?
    requires s.answers[|s.answers| - 1].readable <==> r == Some(s.answers[|s.answers| - 1].response)
    ensures Inv(s.(client := Idle, received := s.received + [r]))
  {
  }

  /** The next sector of a stored response is within the response unit. */
  lemma SectorInArea(response: seq<byte>, area: seq<byte>, got: seq<byte>)
    requires Stored(response, area) && SECTOR <= |area|
    requires |got| % SECTOR == 0 && got <= area && (got == [] || |got| < |response|)
    ensures |got| + SECTOR <= |area|
    ensures var more := got + area[|got|..|got| + SECTOR];
            && more <= area
            && (|response| <= |more| ==> more[..|response|] == response)
  {
    var padded := response + Padding(response);
    assert padded[..|response|] == response;
    if got != [] {
      NextSector(|got|, |padded|);
    }
  }

  lemma NextSector(n: nat, padded: nat)
    requires n % SECTOR == 0 && padded % CHUNK == 0 && n < padded
    ensures n + SECTOR <= padded
  {
    var a, b := n / SECTOR, CHUNK / SECTOR * (padded / CHUNK);
    assert n == a * SECTOR && padded == b * SECTOR;
    MulGap(b, a, SECTOR);
    MulGap(a, b, SECTOR);
  }

  lemma HandleKeepsInv(s: State, response: seq<byte>)
    requires Inv(s) && s.library.Handle? && Enabled(s, Device(response))
    ensures Inv(Apply(s, Device(response)))
  {
    ShownRequestSays(s);
    var s' := LibraryStep(s, response);
    assert s.sent == s.handled + [s.sent[|s.sent| - 1]];
    assert s'.handled == s.sent;
    assert response == [] ==> response + Padding(response) == [];
  }

  lemma WriteKeepsInv(s: State, response: seq<byte>)
    requires Inv(s) && s.library.WriteBlocks? && Enabled(s, Device(response))
    ensures Inv(Apply(s, Device(response)))
  {
    var WriteBlocks(r, done) := s.library;
    BlockStored(s.area, r, done);
  }

  lemma BlockStored(area: seq<byte>, r: seq<byte>, done: nat)
    requires done < |r| && done <= |area| && done % CHUNK == 0 && area[..done] == r[..done]
    ensures var area' := WriteAt(area, done, Block(r, done));
            && |area| <= |area'| && done + CHUNK <= |area'|
            && if done + CHUNK < |r| then area'[..done + CHUNK] == r[..done + CHUNK] else Stored(r, area')
  {
    var area' := WriteAt(area, done, Block(r, done));
    NextBlock(r, done);
    assert area'[..done + CHUNK] == r[..done] + Block(r, done);
    if done + CHUNK == |r| {
      assert r + Padding(r) == r[..done + CHUNK];
    }
  }

  lemma AnnounceKeepsInv(s: State, response: seq<byte>)
    requires Inv(s) && s.library.Announce? && Enabled(s, Device(response))
    ensures Inv(Apply(s, Device(response)))
  {
    var r := s.library.response;
    MessageFits(|r|);
    AnswerSays(s, |r|);
  }

  lemma StepKeepsInv(s: State, e: Event)
    requires Inv(s) && Enabled(s, e)
    ensures Inv(Apply(s, e))
  {
    match e
    case Send(c) => SendKeepsInv(s, c);
    case Raise => RaiseKeepsInv(s);
    case Poll => PollKeepsInv(s);
    case ReadSector => ReadKeepsInv(s);
    case Device(response) =>
      match s.library {
        case Handle => HandleKeepsInv(s, response);
        case WriteBlocks(_, _) => WriteKeepsInv(s, response);
        case Announce(_) => AnnounceKeepsInv(s, response);
        case _ =>
      }
  }

  lemma {:induction false} RunKeepsInv(s: State, run: seq<Event>)
    requires Inv(s) && Legal(s, run)
    ensures Inv(After(s, run))
    decreases run
  {
    if run != [] {
      StepKeepsInv(s, run[0]);
      RunKeepsInv(Apply(s, run[0]), run[1..]);
    }
  }

  // ---- Safety

  /** The device library handles the commands as they were sent, in order, none twice; at most the latest is
      not handled yet, and it is by the time the client takes its next command. */
  lemma RequestsInOrder(s: State, run: seq<Event>)
    requires Initial(s) && Legal(s, run)
    ensures var h := After(s, run);
            && h.handled <= h.sent && |h.sent| <= |h.handled| + 1
            && (h.client.Idle? ==> h.handled == h.sent)
            && |h.answers| <= |h.handled| <= |h.answers| + 1
  {
    RunKeepsInv(s, run);
  }

  /** A polling client is told READY exactly when its latest request has been handled and the library is done
      with it. The response area then begins with the complete response, the library is not writing, and
      the size is read back exactly when the answer is readable. */
  lemma ReadyMeansComplete(s: State, run: seq<Event>)
    requires Initial(s) && Legal(s, run) && After(s, run).client.Polling?
    ensures var h := After(s, run);
            && |h.request| == REQUEST_SIZE && |h.sector| == SECTOR
            && (IsResponseReady(Polled(h)) <==> h.handled == h.sent && Quiet(h.library))
            && (IsResponseReady(Polled(h)) ==>
                  && |h.answers| == |h.sent| && h.answers != []
                  && var last := h.answers[|h.answers| - 1];
                     && last.response <= h.area
                     && (GetResponseSize(Polled(h)) == Some(|last.response|) <==> last.readable))
  {
    RunKeepsInv(s, run);
    var h := After(s, run);
    if |h.handled| < |h.sent| || Busy(h.library) {
      ShownRequestSays(h);
    }
    if |h.handled| == |h.sent| {
      assert h.handled == h.sent;
    }
  }

  /** What the client has received for the j-th request is the j-th response, byte for byte, exactly if that
      answer was readable; and while the client copies, the library leaves the response area alone. */
  lemma ReceivedIsResponse(s: State, run: seq<Event>, j: nat)
    requires Initial(s) && Legal(s, run) && j < |After(s, run).received|
    ensures var h := After(s, run);
            j < |h.answers| && (h.answers[j].readable <==> h.received[j] == Some(h.answers[j].response))
    ensures After(s, run).client.Reading? ==> Quiet(After(s, run).library) && !After(s, run).server_request
  {
    RunKeepsInv(s, run);
  }

  /** How an answer gets unreadable: a shorter number over the digits of an earlier, longer one, which a short
      command does not cover. The 9 bytes of the second answer are read back as 92345. */
  lemma ShorterNumberMisread(request: seq<byte>)
    requires |request| == REQUEST_SIZE && Message(12345) + [NUL] <= request
    ensures var data := Requested(request, [65, 76, 76]);
            && |Message(9)| <= |data|
            && !Readable(data, 9) && GetResponseSize(Publish(data, 9)) == Some(92345)
  {
    var data := Requested(request, [65, 76, 76]);
    var old_message := Message(12345) + [NUL];
    assert Digits(12345) == [49, 50, 51, 52, 53];
    assert old_message[7..12] == [50, 51, 52, 53, NUL];
    assert request[7..12] == old_message[7..12];
    OverwriteElsewhere(request, 0, [65, 76, 76, NEWLINE, NUL], 7, 12);
    StaleDigitsExample(data);
    ReadyRoundTrip(data, 9);
  }

  // ---- The request that is lost

  /** The latest request was raised, is not handled, and nothing says that it should be. */
  predicate Lost(s: State) {
    s.client.Polling? && !s.server_request && Quiet(s.library) && |s.handled| < |s.sent|
  }

  /** The library has read the flag as down, the client has raised it since, and the next step clears it. */
  predicate Racing(s: State) {
    s.library == ClearFlag(false) && s.server_request
  }

  lemma LossStep(s: State, e: Event)
    requires Inv(s) && Enabled(s, e) && !Lost(s)
    ensures Lost(Apply(s, e)) <==> e.Device? && Racing(s)
  {
    if e.Poll? {
      PollKeepsInv(s);
    }
  }

  /** A request is lost in exactly one way: the library clears the flag in the racing state. */
  lemma LossExactly(s: State, run: seq<Event>, e: Event)
    requires Initial(s) && Legal(s, run)
    requires var h := After(s, run); Enabled(h, e) && !Lost(h)
    ensures var h := After(s, run);
            Lost(Apply(h, e)) <==> e.Device? && h.library == ClearFlag(false) && h.server_request
  {
    RunKeepsInv(s, run);
    LossStep(After(s, run), e);
  }

  /** It can happen to any command. */
  lemma AnyRequestCanBeLost(s: State, c: seq<byte>)
    requires Initial(s) && Command(c)
    ensures var run := [Send(c), Device([]), Raise, Device([])];
            Legal(s, run) && Lost(After(s, run))
  {
    var run := [Send(c), Device([]), Raise, Device([])];
    var s1 := Apply(s, run[0]);
    var s2 := Apply(s1, run[1]);
    var s3 := Apply(s2, run[2]);
    var s4 := Apply(s3, run[3]);
    assert run[1..][0] == run[1] && run[1..][1..] == run[2..];
    assert run[2..][0] == run[2] && run[2..][1..] == run[3..];
    assert run[3..][0] == run[3] && run[3..][1..] == [];
    assert Legal(s4, []) && After(s4, []) == s4;
    assert Legal(s3, run[3..]) && After(s3, run[3..]) == s4;
    assert Legal(s2, run[2..]) && After(s2, run[2..]) == s4;
    assert Legal(s1, run[1..]) && After(s1, run[1..]) == s4;
  }

  lemma LostStaysLost(s: State, e: Event)
    requires Inv(s) && Lost(s) && Enabled(s, e)
    ensures var s' := Apply(s, e); Lost(s') && s'.handled == s.handled && s'.received == s.received
  {
    if e.Poll? {
      ShownRequestSays(s);
    }
  }

  lemma {:induction false} LostRunStaysLost(s: State, more: seq<Event>)
    requires Inv(s) && Lost(s) && Legal(s, more)
    ensures var h := After(s, more); Lost(h) && h.handled == s.handled && h.received == s.received
    decreases more
  {
    if more != [] {
      LostStaysLost(s, more[0]);
      StepKeepsInv(s, more[0]);
      LostRunStaysLost(Apply(s, more[0]), more[1..]);
    }
  }

  /** A lost request is lost for good: whatever happens next, the client polls and nothing is handled. */
  lemma LostForever(s: State, run: seq<Event>, more: seq<Event>)
    requires Initial(s) && Legal(s, run) && Lost(After(s, run)) && Legal(After(s, run), more)
    ensures var g := After(s, run);
            var h := After(g, more);
            Lost(h) && h.handled == g.handled && h.received == g.received
  {
    RunKeepsInv(s, run);
    LostRunStaysLost(After(s, run), more);
  }

  /** No raise falls between the two steps of a REQUEST ioctl. */
  ghost predicate NoRace(s: State, run: seq<Event>)
    requires Legal(s, run)
    decreases run
  {
    run == [] || ((run[0].Raise? ==> !s.library.ClearFlag?) && NoRace(Apply(s, run[0]), run[1..]))
  }

  lemma {:induction false} NoRaceKeeps(s: State, run: seq<Event>)
    requires Inv(s) && !Lost(s) && !Racing(s) && Legal(s, run) && NoRace(s, run)
    ensures !Lost(After(s, run)) && !Racing(After(s, run))
    decreases run
  {
    if run != [] {
      LossStep(s, run[0]);
      StepKeepsInv(s, run[0]);
      NoRaceKeeps(Apply(s, run[0]), run[1..]);
    }
  }

  /** If no request is raised between the two steps of a REQUEST ioctl, none is lost. */
  lemma NoRaceNoLoss(s: State, run: seq<Event>)
    requires Initial(s) && Legal(s, run) && NoRace(s, run)
    ensures !Lost(After(s, run)) && !Racing(After(s, run))
  {
    NoRaceKeeps(s, run);
  }

  /** A step of the library alone. */
  ghost predicate LibraryOnly(run: seq<Event>) {
    forall e :: e in run ==> e.Device?
  }

  function Rank(l: Library): nat {
    match l
    case ReadFlag => 4
    case ClearFlag(_) => 3
    case Handle => 2
    case WriteBlocks(_, _) => 1
    case Announce(_) => 0
  }

  function Remaining(l: Library): nat {
    if l.WriteBlocks? && l.done <= |l.response| then |l.response| - l.done else 0
  }

  lemma StepThenRun(s: State, e: Event, rest: seq<Event>)
    requires Enabled(s, e) && Legal(Apply(s, e), rest)
    ensures Legal(s, [e] + rest) && After(s, [e] + rest) == After(Apply(s, e), rest)
  {
    assert ([e] + rest)[1..] == rest;
  }

  lemma {:induction false} LibraryAnswers(s: State, response: seq<byte>) returns (run: seq<Event>)
    requires Inv(s) && s.client.Polling? && !Lost(s) && !Racing(s) && |response| < UINT64_LIMIT
    requires |s.handled| < |s.sent| || Busy(s.library)
    ensures LibraryOnly(run) && Legal(s, run)
    ensures var h := After(s, run); Inv(h) && h.handled == h.sent == s.sent && IsResponseReady(Polled(h))
    decreases Rank(s.library), Remaining(s.library)
  {
    var e := Device(response);
    var s' := Apply(s, e);
    StepKeepsInv(s, e);
    if s.library.Announce? {
      assert s'.handled == s'.sent;
      run := [e];
      assert Legal(s', []) && After(s', []) == s';
      StepThenRun(s, e, []);
    } else {
      LossStep(s, e);
      var rest := LibraryAnswers(s', response);
      StepThenRun(s, e, rest);
      run := [e] + rest;
    }
  }

  /** A polled request is answered by the library's own next steps, whatever the response, unless it is lost
      or about to be. */
  lemma RequestIsAnswered(s: State, run: seq<Event>, response: seq<byte>) returns (more: seq<Event>)
    requires Initial(s) && Legal(s, run) && |response| < UINT64_LIMIT
    requires var h := After(s, run);
             && h.client.Polling? && !Lost(h) && !Racing(h)
             && (|h.handled| < |h.sent| || Busy(h.library))
    ensures LibraryOnly(more) && Legal(After(s, run), more)
    ensures var h := After(After(s, run), more);
            && h.handled == h.sent == After(s, run).sent
            && |h.request| == REQUEST_SIZE && |h.sector| == SECTOR && IsResponseReady(Polled(h))
  {
    RunKeepsInv(s, run);
    more := LibraryAnswers(After(s, run), response);
  }

  // ---- A turn of the library with nothing in between

  /** What handling a request comes to: the response stored, its size announced. */
  ghost function Answered(s: State, response: seq<byte>): State
    requires Sized(s) && |response| < UINT64_LIMIT
  {
    MessageFits(|response|);
    s.(library := ReadFlag, server_request := false,
       handled := s.handled + [FirstLine(s.sector)],
       area := WriteAt(s.area, 0, response + Padding(response)),
       sector := Publish(s.sector, |response|),
       answers := s.answers + [Answer(response, Readable(Polled(s), |response|))])
  }

  lemma CommitOneBlock(area0: seq<byte>, response: seq<byte>, done: nat)
    requires done < |response| && done % CHUNK == 0
    ensures done <= |WriteAt(area0, 0, response[..done])|
    ensures WriteAt(WriteAt(area0, 0, response[..done]), done, Block(response, done)) ==
            WriteAt(area0, 0,
                    if done + CHUNK <= |response| then response[..done + CHUNK] else response + Padding(response))
  {
    NextBlock(response, done);
    AppendedWrite(area0, response[..done], Block(response, done));
  }

  lemma {:induction false} BlocksIsCommit(s: State, area0: seq<byte>, response: seq<byte>, done: nat)
    returns (run: seq<Event>)
    requires Sized(s) && done <= |response| < UINT64_LIMIT && s.library == NextWrite(response, done)
    requires done % CHUNK == 0 && s.area == WriteAt(area0, 0, response[..done])
    ensures Legal(s, run)
    ensures After(s, run) == s.(library := Announce(response), area := WriteAt(area0, 0, response + Padding(response)))
    decreases |response| - done
  {
    if done == |response| {
      run := [];
      assert response[..done] == response + Padding(response);
    } else {
      var e := Device([]);
      var s' := LibraryStep(s, []);
      CommitOneBlock(area0, response, done);
      WholeOrPart(done, CHUNK);
      var rest := [];
      if done + CHUNK <= |response| {
        rest := BlocksIsCommit(s', area0, response, done + CHUNK);
      } else {
        assert Legal(s', []) && After(s', []) == s';
      }
      StepThenRun(s, e, rest);
      run := [e] + rest;
    }
  }

  lemma {:induction false} RunThenStep(s: State, run: seq<Event>, e: Event)
    requires Legal(s, run) && Enabled(After(s, run), e)
    ensures Legal(s, run + [e]) && After(s, run + [e]) == Apply(After(s, run), e)
    decreases run
  {
    if run == [] {
      var s' := Apply(s, e);
      assert Legal(s', []) && After(s', []) == s';
      StepThenRun(s, e, []);
      assert [e] + [] == run + [e];
    } else {
      FirstOf(run, [e]);
      var s' := Apply(s, run[0]);
      assert After(s, run) == After(s', run[1..]);
      RunThenStep(s', run[1..], e);
      StepThenRun(s, run[0], run[1..] + [e]);
    }
  }

  /** commit_response's writes, then the message: from the command read to the library's next poll. */
  lemma HandlingIsSteps(s: State, response: seq<byte>) returns (run: seq<Event>)
    requires Sized(s) && s.library == NextWrite(response, 0) && |response| < UINT64_LIMIT
    ensures Legal(s, run)
    ensures After(s, run) == Answered(s, response).(handled := s.handled, server_request := s.server_request)
  {
    assert WriteAt(s.area, 0, response[..0]) == s.area;
    var blocks := BlocksIsCommit(s, s.area, response, 0);
    RunThenStep(s, blocks, Device([]));
    run := blocks + [Device([])];
  }

  /** A turn of start_device_communication's loop that finds a request is steps of the protocol. */
  lemma TurnIsSteps(s: State, response: seq<byte>) returns (run: seq<Event>)
    requires Sized(s) && s.library == ReadFlag && s.server_request && |response| < UINT64_LIMIT
    ensures Legal(s, run) && After(s, run) == Answered(s, response)
  {
    var e := Device(response);
    var s1 := LibraryStep(s, response);
    var s2 := LibraryStep(s1, response);
    var s3 := LibraryStep(s2, response);
    var rest := HandlingIsSteps(s3, response);
    StepThenRun(s2, e, rest);
    StepThenRun(s1, e, [e] + rest);
    StepThenRun(s, e, [e] + ([e] + rest));
    run := [e] + ([e] + ([e] + rest));
  }

  // ---- READRESPONSE with nothing in between

  /** Sector reads, and no other event. */
  ghost predicate ReadsOnly(run: seq<Event>) {
    forall e :: e in run ==> e == ReadSector
  }

  /** What the sector reads of a response of the given size come to: its first bytes, exactly if the response unit
      is long enough for every one of them. */
  function Received(area: seq<byte>, size: nat): Option<seq<byte>> {
    if SECTOR * SectorsFor(size) <= |area| then Some(area[..size]) else None
  }

  lemma {:induction false} SectorsFrom(s: State, size: nat, i: nat) returns (run: seq<Event>)
    requires Sized(s) && SECTOR * i <= |s.area| && s.client == Reading(size, s.area[..SECTOR * i])
    requires i == 0 || SECTOR * i < size
    ensures ReadsOnly(run) && Legal(s, run)
    ensures After(s, run) == s.(client := Idle, received := s.received + [Received(s.area, size)])
    decreases SectorsFor(size) - i
  {
    SectorInBounds(size, i);
    var s' := ReadStep(s);
    var rest := [];
    if s'.client.Reading? {
      NextOfArea(s.area, i);
      rest := SectorsFrom(s', size, i + 1);
    } else {
      LastOfArea(s, size, i);
      assert Legal(s', []) && After(s', []) == s';
    }
    StepThenRun(s, ReadSector, rest);
    run := [ReadSector] + rest;
  }

  lemma NextOfArea(area: seq<byte>, i: nat)
    requires SECTOR * i + SECTOR <= |area|
    ensures area[..SECTOR * i] + area[SECTOR * i..SECTOR * i + SECTOR] == area[..SECTOR * (i + 1)]
  {
  }

  lemma LastOfArea(s: State, size: nat, i: nat)
    requires SECTOR * i <= |s.area| && s.client == Reading(size, s.area[..SECTOR * i])
    requires (i == 0 || SECTOR * i < size) && !ReadStep(s).client.Reading?
    ensures ReadStep(s) == s.(client := Idle, received := s.received + [Received(s.area, size)])
  {
    SectorInBounds(size, i);
    if SECTOR * i + SECTOR <= |s.area| {
      NextOfArea(s.area, i);
      assert s.area[..SECTOR * (i + 1)][..size] == s.area[..size];
    }
  }

  /** READRESPONSE's loop over the sectors is steps of the protocol. */
  lemma ReadsAreSteps(s: State, size: nat) returns (run: seq<Event>)
    requires Sized(s) && s.client == Reading(size, [])
    ensures ReadsOnly(run) && Legal(s, run)
    ensures After(s, run) == s.(client := Idle, received := s.received + [Received(s.area, size)])
  {
    assert s.area[..SECTOR * 0] == [];
    run := SectorsFrom(s, size, 0);
  }

  // ---- A whole exchange

  lemma {:induction false} RunThenRun(s: State, a: seq<Event>, b: seq<Event>)
    requires Legal(s, a) && Legal(After(s, a), b)
    ensures Legal(s, a + b) && After(s, a + b) == After(After(s, a), b)
    decreases a
  {
    if a == [] {
      assert a + b == b;
    } else {
      FirstOf(a, b);
      var s1 := Apply(s, a[0]);
      assert After(s, a) == After(s1, a[1..]);
      RunThenRun(s1, a[1..], b);
      StepThenRun(s, a[0], a[1..] + b);
    }
  }

  /** The request is written and raised. */
  ghost function Asked(s: State, c: seq<byte>): State
    requires Sized(s) && |c| < SECTOR
  {
    var request := Requested(s.request, c);
    s.(client := Polling, request := request, sector := request[..SECTOR], sent := s.sent + [c], server_request := true)
  }

  /** What a poll finds once the request has been answered. */
  lemma AnswerOverRequest(s: State, c: seq<byte>, response: seq<byte>)
    requires Sized(s) && |c| < SECTOR && |response| < UINT64_LIMIT
    ensures |Message(|response|)| <= SECTOR
    ensures Polled(Asked(s, c)) == Requested(s.request, c)
    ensures Polled(Answered(Asked(s, c), response)) == Publish(Requested(s.request, c), |response|)
    ensures IsResponseReady(Publish(Requested(s.request, c), |response|))
  {
    MessageFits(|response|);
    AnswerSays(Asked(s, c), |response|);
  }

  /** A request, the library's turn and a poll. The client goes on to read as many bytes as the digits say that
      are now at the start of the module's request buffer. */
  lemma Exchange(s: State, c: seq<byte>, response: seq<byte>) returns (run: seq<Event>)
    requires Sized(s) && s.client.Idle? && s.library == ReadFlag && Command(c) && |response| < UINT64_LIMIT
    ensures |Message(|response|)| <= SECTOR && Legal(s, run)
    ensures var h := After(s, run);
            && Sized(h) && h.library == ReadFlag && h.received == s.received
            && h.request == Publish(Requested(s.request, c), |response|)
            && h.client == (match GetResponseSize(h.request)
                            case None => Dead
                            case Some(size) => Reading(size, []))
            && h.answers == s.answers + [Answer(response, Readable(Requested(s.request, c), |response|))]
  {
    AnswerOverRequest(s, c, response);
    var asked := Asked(s, c);
    var turn := TurnIsSteps(asked, response);
    RunThenStep(asked, turn, Poll);
    StepThenRun(Apply(s, Send(c)), Raise, turn + [Poll]);
    StepThenRun(s, Send(c), [Raise] + (turn + [Poll]));
    run := [Send(c)] + ([Raise] + (turn + [Poll]));
  }

  /** A request of ten characters, answered by 12345 bytes: the message has a NUL behind it. */
  lemma LongNumber(request: seq<byte>)
    requires |request| == REQUEST_SIZE
    ensures |Message(12345)| == 11
    ensures var data := Publish(Requested(request, seq(10, _ => 65)), 12345);
            Message(12345) + [NUL] <= data && GetResponseSize(data) == Some(12345)
  {
    var c: seq<byte> := seq(10, _ => 65);
    var sent := Requested(request, c);
    assert sent[..12] == c + [NEWLINE, NUL];
    assert sent[..12][11] == NUL;
    assert |Digits(12345)| == 5;
    var data := Publish(sent, 12345);
    assert data[11..][0] == NUL;
    assert data == Message(12345) + data[11..];
    HostReads(12345, data[11..]);
    assert Digits(12345) + [] == Digits(12345);
    ValueOfDigits(12345);
  }

  /** The exchange with the long answer, up to the client's next command. */
  lemma LongExchange(s: State, first: seq<byte>) returns (run: seq<Event>)
    requires Initial(s) && |first| == 12345
    ensures Legal(s, run)
    ensures var h := After(s, run);
            && Sized(h) && h.client.Idle? && h.library == ReadFlag
            && Message(12345) + [NUL] <= h.request && h.answers == [Answer(first, true)]
  {
    var c: seq<byte> := seq(10, _ => 65);
    var one := Exchange(s, c, first);
    LongNumber(s.request);
    ReadyRoundTrip(Requested(s.request, c), 12345);
    var copying := ReadsAreSteps(After(s, one), 12345);
    RunThenRun(s, one, copying);
    run := one + copying;
  }

  /** From every start: after an answer of 12345 bytes, the 9 bytes that answer ALL are announced so that the client
      goes on to read 92345. */
  lemma MisreadIsReached(s: State, first: seq<byte>, second: seq<byte>) returns (run: seq<Event>)
    requires Initial(s) && |first| == 12345 && |second| == 9
    ensures Legal(s, run)
    ensures var h := After(s, run);
            h.client == Reading(92345, []) && h.answers == [Answer(first, true), Answer(second, false)]
  {
    var one := LongExchange(s, first);
    var h := After(s, one);
    ShorterNumberMisread(h.request);
    var two := Exchange(h, [65, 76, 76], second);
    RunThenRun(s, one, two);
    run := one + two;
  }
}
