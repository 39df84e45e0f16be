/** The buffers and flags behind the protocol's steps: the host module's request_buffer, the command unit of
    the device with its server_request flag, and the client's own request. */
module Ioctl {
  import opened Bytes
  import opened ReadyMessage
  import opened Protocol
  import opened ResponsePath
  import Answering

  /** lun1, the command unit. */
  class CommandUnit {
    const file: array<byte>
    var server_request: bool

    constructor (file: array<byte>)
      ensures this.file == file && !server_request
    {
      this.file := file;
      server_request := false;
    }

    /** do_write of one sector, with the hook at its end. */
    method Write(data: seq<byte>)
      requires |data| == SECTOR <= file.Length
      modifies this, file
      ensures file[..] == Overwrite(old(file[..]), 0, data)
      ensures server_request
    {
      CopyInto(file, 0, data);
      server_request := true;
    }

    /** The REQUEST ioctl, when nothing comes between its two steps. */
    method Request(ghost s: State) returns (asked: bool)
      requires Sized(s) && s.library == ReadFlag && s.server_request == server_request
      modifies this
      ensures LibraryCanStep(LibraryStep(s, []), [])
      ensures var s' := LibraryStep(LibraryStep(s, []), []);
              server_request == s'.server_request && (asked <==> s'.library == Handle)
    {
      asked := server_request;
      if server_request {
        server_request := false;
      }
    }
  }

  class HostModule {
    const request_buffer: array<byte>
    const unit: CommandUnit

    ghost predicate Valid() {
      request_buffer.Length == REQUEST_SIZE && unit.file.Length >= SECTOR && request_buffer != unit.file
    }

    /** The buffers and the flag are those of a protocol state. */
    ghost predicate Shows(s: State)
      reads request_buffer, unit, unit.file
      requires Valid()
    {
      && s.request == request_buffer[..] && s.sector == unit.file[..SECTOR]
      && s.server_request == unit.server_request
    }

    constructor (unit: CommandUnit)
      requires unit.file.Length >= SECTOR
      ensures Valid() && this.unit == unit && fresh(request_buffer)
    {
      this.unit := unit;
      request_buffer := new byte[REQUEST_SIZE];
    }

    /** SENDREQUEST: the protocol's Send and Raise. */
    method SendRequest(data: seq<byte>, ghost s: State, ghost c: seq<byte>)
      requires Valid() && Shows(s)
      requires CString(data) == c + [NEWLINE] && Enabled(s, Send(c))
      modifies request_buffer, unit, unit.file
      ensures var sent := Apply(s, Send(c)); Enabled(sent, Raise) && Shows(Apply(sent, Raise))
    {
      var text := CString(data);
      CopyInto(request_buffer, 0, Printed(text, REQUEST_SIZE));
      assert Printed(text, REQUEST_SIZE) == c + [NEWLINE, NUL];
      unit.Write(request_buffer[..SECTOR]);
    }

    /** CHECKRESPONSEREADY: the protocol's Poll. */
    method CheckResponseReady(ghost s: State) returns (data: seq<byte>)
      requires Valid() && Shows(s) && Enabled(s, Poll)
      modifies request_buffer
      ensures Shows(Apply(s, Poll)) && data == Polled(s)
    {
      CopyInto(request_buffer, 0, unit.file[..SECTOR]);
      data := request_buffer[..];
    }
  }

  lemma {:induction false} FirstLineWithin(data: seq<byte>, more: seq<byte>)
    requires NEWLINE in data
    ensures FirstLine(data + more) == FirstLine(data)
  {
    assert (data + more)[0] == data[0];
    if data[0] != NEWLINE {
      assert (data + more)[1..] == data[1..] + more;
      FirstLineWithin(data[1..], more);
    }
  }

  /** The device library: its polling loop, and the files it answers with. */
  class DeviceLibrary {
    const unit: CommandUnit
    const responder: Answering.Responder

    ghost predicate Shows(s: State)
      reads unit, unit.file, responder
      requires unit.file.Length >= SECTOR
    {
      && s.sector == unit.file[..SECTOR] && s.server_request == unit.server_request && s.area == responder.respFile
    }

    constructor (unit: CommandUnit, responder: Answering.Responder)
      ensures this.unit == unit && this.responder == responder
    {
      this.unit, this.responder := unit, responder;
    }

    /** The temporary files once the command now in the sector has been handled. */
    ghost function Next(decode: seq<byte> -> Answering.Request, log: seq<byte>, pack: seq<byte> -> seq<byte>)
      : Answering.Temp
      reads unit.file, responder
      requires forall c :: decode(c).Valid()
    {
      var made := Answering.Made(log, decode(FirstLine(unit.file[..])));
      Answering.Handled(responder.tmp, made, responder.compression, pack)
    }

    /** handle_command, up to the message. */
    method HandleCommand(decode: seq<byte> -> Answering.Request, log: seq<byte>, pack: seq<byte> -> seq<byte>)
      returns (command: seq<byte>, byteCount: nat)
      requires unit.file.Length >= SECTOR && forall c :: decode(c).Valid()
      modifies responder
      ensures command == FirstLine(unit.file[..])
      ensures NEWLINE in unit.file[..SECTOR] ==> command == FirstLine(unit.file[..SECTOR])
      ensures responder.tmp == old(Next(decode, log, pack))
      ensures var answer := Answering.Answer(responder.tmp, responder.compression);
              && byteCount == |answer|
              && responder.respFile == WriteAt(old(responder.respFile), 0, answer + Padding(answer))
    {
      command := FirstLine(unit.file[..]);
      assert unit.file[..] == unit.file[..SECTOR] + unit.file[SECTOR..];
      if NEWLINE in unit.file[..SECTOR] {
        FirstLineWithin(unit.file[..SECTOR], unit.file[SECTOR..]);
      }
      responder.Make(decode(command), log);
      byteCount := responder.Commit(pack);
    }

    /** One turn of start_device_communication's loop, when nothing comes in between: nothing asked for, or a
        command read, answered and announced. decode says what request a command is, with the offsets that came
        with it. */
    method Turn(decode: seq<byte> -> Answering.Request, log: seq<byte>, pack: seq<byte> -> seq<byte>, ghost s: State)
      returns (command: Option<seq<byte>>)
      requires unit.file.Length >= SECTOR && Shows(s) && Sized(s) && s.library == ReadFlag
      requires forall c :: decode(c).Valid()
      requires |Answering.Answer(Next(decode, log, pack), responder.compression)| < UINT64_LIMIT
      modifies unit, unit.file, responder
      ensures command.Some? <==> s.server_request
      ensures command.Some? && NEWLINE in s.sector ==> command.value == FirstLine(s.sector)
      ensures responder.tmp == if command.Some? then old(Next(decode, log, pack)) else old(responder.tmp)
      ensures Shows(if s.server_request then
                      Answered(s, old(Answering.Answer(Next(decode, log, pack), responder.compression)))
                    else s)
    {
      var asked := unit.Request(s);
      if !asked {
        return None;
      }
      var line, byteCount := HandleCommand(decode, log, pack);
      command := Some(line);
      MessageFits(byteCount);
      CopyInto(unit.file, 0, Message(byteCount));
    }
  }

  lemma CStringOfRequest(c: seq<byte>, rest: seq<byte>)
    requires NUL !in c
    ensures CString(c + [NEWLINE, NUL] + rest) == c + [NEWLINE]
  {
    assert c + [NEWLINE, NUL] + rest == (c + [NEWLINE]) + ([NUL] + rest);
    CStringThrough(c + [NEWLINE], [NUL] + rest);
  }

  /** start_device_communication of the host library. */
  class Client {
    const hreq: array<byte>
    const hostModule: HostModule

    ghost predicate Valid() {
      && hostModule.Valid() && hreq.Length == REQUEST_SIZE
      && hreq != hostModule.request_buffer && hreq != hostModule.unit.file
    }

    constructor (hostModule: HostModule)
      requires hostModule.Valid()
      ensures Valid() && this.hostModule == hostModule
    {
      this.hostModule := hostModule;
      hreq := new byte[REQUEST_SIZE];
    }

    /** One command, up to the ioctl's return. */
    method Ask(command: seq<byte>, ghost s: State)
      requires Valid() && hostModule.Shows(s) && Enabled(s, Send(command))
      modifies hreq, hostModule.request_buffer, hostModule.unit, hostModule.unit.file
      ensures var sent := Apply(s, Send(command)); Enabled(sent, Raise) && hostModule.Shows(Apply(sent, Raise))
    {
      CopyInto(hreq, 0, Printed(command + [NEWLINE], REQUEST_SIZE));
      assert Printed(command + [NEWLINE], REQUEST_SIZE) == command + [NEWLINE, NUL];
      ghost var k := |command| + 2;
      assert hreq[..] == command + [NEWLINE, NUL] + hreq[k..];
      CStringOfRequest(command, hreq[k..]);
      hostModule.SendRequest(hreq[..], s, command);
    }

    /** One turn of the inner loop, up to what the client does next: poll again (None), stop on the exception
        (Some(None)), or read a response of the size found. */
    method Check(ghost s: State) returns (next: Option<Option<nat>>)
      requires Valid() && hostModule.Shows(s) && Enabled(s, Poll)
      modifies hreq, hostModule.request_buffer
      ensures hostModule.Shows(Apply(s, Poll))
      ensures Apply(s, Poll).client ==
              match next {
                case None => Polling
                case Some(None) => Dead
                case Some(Some(size)) => Reading(size, [])
              }
    {
      var data := hostModule.CheckResponseReady(s);
      CopyInto(hreq, 0, data);
      assert hreq[..] == data;
      next := if IsResponseReady(hreq[..]) then Some(GetResponseSize(hreq[..])) else None;
    }

    /** READRESPONSE, when nothing comes in between: the protocol's sector reads. */
    method Receive(library: DeviceLibrary, size: nat, ghost s: State) returns (data: seq<byte>, ghost run: seq<Event>)
      requires library.unit.file.Length >= SECTOR && library.Shows(s) && Sized(s) && s.client == Reading(size, [])
      ensures |data| == size && ReadsOnly(run) && Legal(s, run)
      ensures After(s, run) == s.(client := Idle, received := s.received + [Received(s.area, size)])
      ensures Received(s.area, size).Some? ==> data == Received(s.area, size).value
    {
      data := GetResponse(library.responder.respFile, size, _ => true);
      run := ReadsAreSteps(s, size);
    }
  }
}
