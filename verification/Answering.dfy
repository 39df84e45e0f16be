/** decode_command's two kinds of request, from the log file to what the host reads back: the response is made in a
    temporary file, packed if compression is on, and committed to the response unit. */
module Answering {
  import opened Bytes
  import opened LogDump
  import opened LogFilter
  import opened ResponsePath

  /** ALL, or a filter on a key, over a window of the log. junk and most are what malloc and fread make of the dump. */
  datatype Request =
    | All(start: nat, end: nat, junk: seq<byte>, most: seq<nat>)
    | Matching(start: nat, end: nat, key: seq<byte>)
  {
    predicate Valid() {
      All? ==> |junk| == CHUNK
    }
  }

  /** The temporary files response and response.gz; None is a file that does not exist. */
  datatype Temp = Temp(plain: Option<seq<byte>>, packed: Option<seq<byte>>)

  // ---- One request

  /** What a request writes to the temporary response file, replacing what was there; None when its window is
      refused. */
  function Made(log: seq<byte>, q: Request): Option<seq<byte>>
    requires q.Valid()
  {
    var bytes := WindowBytes(q.start, q.end);
    match q
    case All(start, _, junk, most) =>
      if LIMIT <= bytes then None else Some(TrimAll(Buffers(log, start, bytes, junk, most, 0)))
    case Matching(start, _, key) => Some(Unlines(Kept(LinesRead(Lines(From(log, start)), bytes), key)))
  }

  /** ALL over a window of 100 MB or more, or one that wraps, unless it wraps by almost everything. */
  predicate Refused(q: Request) {
    q.All? && LIMIT <= WindowBytes(q.start, q.end)
  }

  /** The log can deliver the window's chunks whole, and is NUL from the window's end to its last chunk's. */
  ghost predicate WholeChunks(log: seq<byte>, start: nat, end: nat, most: seq<nat>) {
    && start <= end && FullReads(most, CeilDiv(end - start, CHUNK))
    && var last := start + CHUNK * CeilDiv(end - start, CHUNK);
       last <= |log| && forall i :: end <= i < last ==> log[i] == NUL
  }

  /** The text is what the request is for. ALL: the bytes of the window that are not NUL, if it can be read in whole
      chunks. Matching: the lines of the window that contain the key. */
  ghost predicate Meets(log: seq<byte>, q: Request, text: seq<byte>) {
    match q
    case All(start, end, _, most) =>
      WholeChunks(log, start, end, most) && end < start + LIMIT ==> end <= |log| && Trims(log[start..end], text)
    case Matching(start, end, key) =>
      && (start <= end < UINT64_LIMIT ==>
            Filtered(log, start, end - start, key, text) && HasBegun(log, start, end, key, text))
      && (end < start < UINT64_LIMIT ==> Filtered(log, start, UINT64_LIMIT - (start - end), key, text))
  }

  /** What a request makes is what it is for, and it makes nothing exactly if it is refused. */
  lemma MadeMeets(log: seq<byte>, q: Request)
    requires q.Valid()
    ensures Made(log, q).None? <==> Refused(q)
    ensures Made(log, q).Some? ==> Meets(log, q, Made(log, q).value)
  {
    match q
    case All(start, end, junk, most) =>
      if WholeChunks(log, start, end, most) && end < start + LIMIT {
        DumpTrims(log, start, end, junk, most);
      }
    case Matching(start, end, key) => WindowIsFiltered(log, start, end, key);
  }

  lemma DumpTrims(log: seq<byte>, start: nat, end: nat, junk: seq<byte>, most: seq<nat>)
    requires |junk| == CHUNK && WholeChunks(log, start, end, most) && end < start + LIMIT
    ensures end <= |log|
    ensures Trims(log[start..end], TrimAll(Buffers(log, start, WindowBytes(start, end), junk, most, 0)))
  {
    ChunkedTrimIsWholeTrim(log, start, end, junk, most);
  }

  /** The temporary files when a request has been handled: a refused one leaves the file of the one before, pigz
      makes the packed file anew if there is a file to pack. */
  function Handled(t: Temp, made: Option<seq<byte>>, compression: bool, pack: seq<byte> -> seq<byte>): Temp {
    var plain := if made.Some? then made else t.plain;
    Temp(plain, if compression && plain.Some? then Some(pack(plain.value)) else t.packed)
  }

  /** The file that commit_response opens. */
  function Committed(t: Temp, compression: bool): Option<seq<byte>> {
    if compression then t.packed else t.plain
  }

  /** What the host is to get: nothing if there is no such file. */
  function Answer(t: Temp, compression: bool): seq<byte> {
    var file := Committed(t, compression);
    if file.Some? then file.value else []
  }

  /** response.cpp, with its files. */
  class Responder {
    const compression: bool
    var tmp: Temp
    var respFile: seq<byte>

    constructor (compression: bool, tmp: Temp, respFile: seq<byte>)
      ensures this.compression == compression && this.tmp == tmp && this.respFile == respFile
    {
      this.compression, this.tmp, this.respFile := compression, tmp, respFile;
    }

    /** dump_log or filter_and_dump_log. */
    method Make(q: Request, log: seq<byte>)
      requires q.Valid()
      modifies this`tmp
      ensures var made := Made(log, q); tmp == if made.Some? then old(tmp).(plain := made) else old(tmp)
      ensures if Refused(q) then tmp == old(tmp) else tmp.plain.Some? && Meets(log, q, tmp.plain.value)
    {
      MadeMeets(log, q);
      var out, count;
      match q
      case All(start, end, junk, most) =>
        out, count := DumpLog(log, start, end, junk, most);
        if out.Some? {
          tmp := tmp.(plain := out);
        }
      case Matching(start, end, key) =>
        var text;
        text, count := FilterLog(log, start, end, key);
        tmp := tmp.(plain := Some(text));
    }

    /** commit, up to the size it announces. Without a file to open, the response unit is left alone and the size
        is zero. */
    method Commit(pack: seq<byte> -> seq<byte>) returns (bytes: nat)
      modifies this`tmp, this`respFile
      ensures tmp == Handled(old(tmp), None, compression, pack)
      ensures var answer := Answer(tmp, compression);
              bytes == |answer| && respFile == WriteAt(old(respFile), 0, answer + Padding(answer))
    {
      if compression && tmp.plain.Some? {
        tmp := tmp.(packed := Some(pack(tmp.plain.value)));
      }
      var file := if compression then tmp.packed else tmp.plain;
      if file.None? {
        NothingWritten([], respFile);
        return 0;
      }
      respFile, bytes := CommitResponse(file.value, respFile);
    }

    /** A request handled, and its response read back by the host. The host gets what the request is for, packed if
        compression is on; a refused request leaves the file of the one before. */
    method Serve(q: Request, log: seq<byte>, pack: seq<byte> -> seq<byte>, ok: nat -> bool)
      returns (received: seq<byte>)
      requires q.Valid() && forall i: nat :: ok(i)
      modifies this
      ensures tmp == Handled(old(tmp), Made(log, q), compression, pack)
      ensures received == Answer(tmp, compression)
      ensures if Refused(q) then tmp.plain == old(tmp.plain) else tmp.plain.Some? && Meets(log, q, tmp.plain.value)
      ensures tmp.plain.Some? ==> received == if compression then pack(tmp.plain.value) else tmp.plain.value
    {
      Make(q, log);
      var bytes := Commit(pack);
      received := GetResponse(respFile, bytes, ok);
      ghost var answer := Answer(tmp, compression);
      if answer != [] {
        SectorsWritten(answer);
        StartsWith(old(respFile), answer, Padding(answer));
      }
    }
  }

  // ---- Many requests

  /** The temporary files after requests that made what is listed. */
  function HandledAll(t: Temp, history: seq<Option<seq<byte>>>, compression: bool, pack: seq<byte> -> seq<byte>): Temp {
    if history == [] then t
    else
      var k := |history| - 1;
      Handled(HandledAll(t, history[..k], compression, pack), history[k], compression, pack)
  }

  /** The latest request that was not refused. */
  function LatestMade(history: seq<Option<seq<byte>>>): (i: Option<nat>)
    ensures i.Some? ==> i.value < |history| && history[i.value].Some?
    ensures forall k :: (if i.Some? then i.value < k else 0 <= k) && k < |history| ==> history[k].None?
  {
    if history == [] then None
    else
      var k := |history| - 1;
      if history[k].Some? then Some(k) else LatestMade(history[..k])
  }

  lemma {:induction false} PlainIsLatest(t: Temp, history: seq<Option<seq<byte>>>, compression: bool,
                                         pack: seq<byte> -> seq<byte>)
    ensures var i := LatestMade(history);
            HandledAll(t, history, compression, pack).plain == if i.Some? then history[i.value] else t.plain
    ensures HandledAll(t, history, compression, pack).plain.None? ==>
            HandledAll(t, history, compression, pack).packed == t.packed
  {
    if history != [] {
      PlainIsLatest(t, history[..|history| - 1], compression, pack);
    }
  }

  /** A request, and the log as it found it. */
  datatype Ask = Ask(log: seq<byte>, q: Request)

  ghost predicate Asks(asks: seq<Ask>) {
    forall i :: 0 <= i < |asks| ==> asks[i].q.Valid()
  }

  ghost function MadeAll(asks: seq<Ask>): (history: seq<Option<seq<byte>>>)
    requires Asks(asks)
  {
    seq(|asks|, i requires 0 <= i < |asks| => Made(asks[i].log, asks[i].q))
  }

  /** The latest request that was not refused. */
  ghost predicate LatestServed(asks: seq<Ask>, i: nat) {
    i < |asks| && !Refused(asks[i].q) && forall k :: i < k < |asks| ==> Refused(asks[k].q)
  }

  /** What the host gets for the last of any requests: a text that is what the latest one that was not refused is for,
      packed if compression is on; if all were refused, the file that was there when the library started, if any. */
  lemma {:induction false} AnswerIsLatest(t: Temp, asks: seq<Ask>, compression: bool, pack: seq<byte> -> seq<byte>)
    requires asks != [] && Asks(asks)
    ensures var answer := Answer(HandledAll(t, MadeAll(asks), compression, pack), compression);
            && (forall i: nat :: LatestServed(asks, i) ==>
                  exists text ::
                    Meets(asks[i].log, asks[i].q, text) && answer == if compression then pack(text) else text)
            && ((forall k :: 0 <= k < |asks| ==> Refused(asks[k].q)) ==>
                  answer == if t.plain.Some? then (if compression then pack(t.plain.value) else t.plain.value)
                            else if compression && t.packed.Some? then t.packed.value
                            else [])
  {
    var history := MadeAll(asks);
    AnswerOf(t, history, compression, pack);
    forall k | 0 <= k < |asks|
      ensures history[k].None? <==> Refused(asks[k].q)
      ensures history[k].Some? ==> Meets(asks[k].log, asks[k].q, history[k].value)
    {
      MadeMeets(asks[k].log, asks[k].q);
    }
    forall i: nat | LatestServed(asks, i)
      ensures LatestMade(history) == Some(i)
    {
    }
  }

  /** The same, told from what they made. */
  lemma {:induction false} AnswerOf(t: Temp, history: seq<Option<seq<byte>>>, compression: bool,
                                    pack: seq<byte> -> seq<byte>)
    requires history != []
    ensures var i := LatestMade(history);
            var plain := if i.Some? then history[i.value] else t.plain;
            Answer(HandledAll(t, history, compression, pack), compression) ==
            if plain.Some? then (if compression then pack(plain.value) else plain.value)
            else if compression && t.packed.Some? then t.packed.value
            else []
  {
    var k := |history| - 1;
    PlainIsLatest(t, history[..k], compression, pack);
    PlainIsLatest(t, history, compression, pack);
  }

  /** A refused request is answered like the request before it, whatever that was for. */
  lemma {:induction false} RefusedRepeats(t: Temp, history: seq<Option<seq<byte>>>, compression: bool,
                                          pack: seq<byte> -> seq<byte>)
    requires history != []
    ensures Answer(HandledAll(t, history + [None], compression, pack), compression) ==
            Answer(HandledAll(t, history, compression, pack), compression)
  {
    assert (history + [None])[..|history|] == history;
    var k := |history| - 1;
    PlainIsLatest(t, history[..k], compression, pack);
  }
}
