/** The 512-byte buffer in which a record is put together, by calls that append to it, and the record handed to
    the ring in the end. */
module EventBuffer {
  import opened Bytes

  const BLOCK_SIZE: nat := EVENT_SIZE - 1
  /** Shorter records are taken for end markers and dropped. */
  const SHORTEST: nat := 35

  // ---- What the calls append

  /** One append. Text stands for what the format and its arguments print. */
  datatype Call = Text(text: seq<byte>) | Quoted(s: seq<byte>) | Hex(s: seq<byte>)

  function HexDigit(d: nat): (b: byte)
    requires d < 16
    ensures b != NUL && b != QUOTE
  {
    if d < 10 then 48 + d else 55 + d
  }

  /** hex_byte_pack_upper, byte by byte. */
  function HexOf(s: seq<byte>): (h: seq<byte>)
    ensures |h| == 2 * |s| && NUL !in h
  {
    if s == [] then [] else HexOf(s[..|s| - 1]) + [HexDigit(s[|s| - 1] / 16), HexDigit(s[|s| - 1] % 16)]
  }

  /** What a call appends when there is room for it. */
  function Piece(c: Call): seq<byte> {
    match c
    case Text(t) => t
    case Quoted(s) => [QUOTE] + s + [QUOTE]
    case Hex(s) => HexOf(s)
  }

  /** The room a call asks for, next to its piece: a terminator, or for hex digits nothing. */
  function Extra(c: Call): nat {
    if c.Hex? then 0 else 1
  }

  predicate Fits(content: seq<byte>, c: Call) {
    Piece(c) == [] || |content| + |Piece(c)| + Extra(c) <= BLOCK_SIZE
  }

  /** The content after a call; None once consumed counts bytes of a text that were not stored. A text that
      does not fit is cut: all but the last ten bytes of it count as appended. Other calls are dropped. */
  function Append(content: seq<byte>, c: Call): (r: Option<seq<byte>>)
    requires |content| <= BLOCK_SIZE
    ensures r.Some? ==> |r.value| <= BLOCK_SIZE
  {
    var whole := content + Piece(c);
    if Fits(content, c) then Some(whole)
    else if !c.Text? || |content| == BLOCK_SIZE then Some(content)
    else if |whole| <= BLOCK_SIZE + 9 then Some(whole[..|whole| - 10])
    else None
  }

  /** A truncating call keeps 501 to 510 bytes of what the record would have been, and counts bytes that it
      has not stored exactly when the text is more than nine bytes longer than the room for it. */
  lemma TruncationKeepsPrefix(content: seq<byte>, text: seq<byte>)
    requires |content| < BLOCK_SIZE && !Fits(content, Text(text))
    ensures Append(content, Text(text)).Some? <==> |text| <= BLOCK_SIZE - |content| + 9
    ensures var r := Append(content, Text(text));
            r.Some? ==> r.value <= content + text && 501 <= |r.value| <= 510
  {
  }

  function Run(calls: seq<Call>): (r: Option<seq<byte>>)
    ensures r.Some? ==> |r.value| <= BLOCK_SIZE
  {
    if calls == [] then Some([])
    else match Run(calls[..|calls| - 1])
      case None => None
      case Some(content) => Append(content, calls[|calls| - 1])
  }

  /** The pieces of all the calls, one after the other. */
  function Whole(calls: seq<Call>): seq<byte> {
    if calls == [] then [] else Whole(calls[..|calls| - 1]) + Piece(calls[|calls| - 1])
  }

  /** How long a record can get: one byte more if its last piece is hex digits. */
  function Limit(calls: seq<Call>): (n: nat)
    ensures n == BLOCK_SIZE || n == BLOCK_SIZE - 1
  {
    if calls == [] then BLOCK_SIZE - 1
    else var c := calls[|calls| - 1];
         if Piece(c) == [] then Limit(calls[..|calls| - 1]) else BLOCK_SIZE - Extra(c)
  }

  lemma {:induction false} NeverLonger(calls: seq<Call>)
    ensures Run(calls).Some? ==> |Run(calls).value| <= |Whole(calls)|
    ensures Whole(calls) == [] ==> Run(calls) == Some([])
  {
    if calls != [] {
      NeverLonger(calls[..|calls| - 1]);
    }
  }

  /** The record is the exact concatenation of its pieces exactly when they are not too long together;
      otherwise it is shorter. */
  lemma {:induction false} ExactConcatenation(calls: seq<Call>)
    ensures |Whole(calls)| <= Limit(calls) <==> Run(calls) == Some(Whole(calls))
    ensures |Whole(calls)| > Limit(calls) && Run(calls).Some? ==> |Run(calls).value| < |Whole(calls)|
  {
    if calls != [] {
      var front := calls[..|calls| - 1];
      ExactConcatenation(front);
      NeverLonger(front);
    }
  }

  /** A string that does not fit leaves the record as it was, in quotes as in hex digits; one that fits is appended
      whole. */
  lemma StringCall(calls: seq<Call>, s: seq<byte>)
    requires Run(calls).Some?
    ensures var content := Run(calls).value;
            && Run(calls + [Quoted(s)]) ==
               Some(if |content| + |s| + 3 <= 511 then content + [QUOTE] + s + [QUOTE] else content)
            && Run(calls + [Hex(s)]) == Some(if |content| + 2 * |s| <= 511 then content + HexOf(s) else content)
  {
    var content := Run(calls).value;
    assert (calls + [Quoted(s)])[..|calls|] == calls && (calls + [Hex(s)])[..|calls|] == calls;
    assert content + ([QUOTE] + s + [QUOTE]) == content + [QUOTE] + s + [QUOTE];
  }

  /** What has been recorded stays: later calls leave the first 501 bytes, or all if there are fewer. */
  lemma {:induction false} RecordedStays(calls: seq<Call>, more: seq<Call>)
    requires Run(calls + more).Some?
    ensures Run(calls).Some?
    ensures var kept := Min(|Run(calls).value|, 501);
            kept <= |Run(calls + more).value| && Run(calls + more).value[..kept] == Run(calls).value[..kept]
  {
    if more == [] {
      assert calls + more == calls;
    } else {
      LastOf(calls, more);
      RecordedStays(calls, more[..|more| - 1]);
    }
  }

  // ---- The record

  /** What audit_log_end_hardlog hands to the ring; None for an end marker. */
  function Record(content: seq<byte>): (r: Option<seq<byte>>)
    requires |content| <= BLOCK_SIZE
    ensures r.Some? ==> SHORTEST < |r.value| <= EVENT_SIZE
  {
    if |CString(content)| < SHORTEST then None
    else Some(content + [if |content| <= 509 then NEWLINE else NUL])
  }

  /** strlen is short exactly if the content is, or has a NUL early on. */
  lemma {:induction false} ShortString(s: seq<byte>, n: nat)
    ensures |CString(s)| < n <==> |s| < n || NUL in s[..n]
  {
    if s != [] && s[0] != NUL && 0 < n {
      ShortString(s[1..], n - 1);
      if n <= |s| {
        assert s[..n] == [s[0]] + s[1..][..n - 1];
      }
    } else if s != [] && 0 < n <= |s| {
      assert s[..n][0] == NUL;
    }
  }

  /** The record of a run: dropped exactly if it is shorter than 35 bytes or has a NUL among them, ended by a
      newline exactly if consumed was at most 509, and never longer than a ring slot. */
  lemma RecordOfRun(calls: seq<Call>)
    requires Run(calls).Some?
    ensures var content := Run(calls).value;
            && (Record(content).None? <==> |content| < SHORTEST || NUL in content[..SHORTEST])
            && (Record(content).Some? ==>
                  && content <= Record(content).value
                  && |Record(content).value| == |content| + 1 <= EVENT_SIZE
                  && Record(content).value[|content|] == if |content| <= 509 then NEWLINE else NUL)
  {
    ShortString(Run(calls).value, SHORTEST);
  }

  // ---- Which calls stay in the buffer

  /** consumed after a call, wherever it was. The quoted and the hex form compare unsigned, so past the buffer
      they find room. */
  function Counted(n: nat, c: Call): (n': nat)
  {
    match c
    case Text(t) => if BLOCK_SIZE <= n then n else if |t| < BLOCK_SIZE - n then n + |t| else n + |t| - 10
    case Quoted(s) => if n <= BLOCK_SIZE && BLOCK_SIZE - n < |s| + 3 then n else n + |s| + 2
    case Hex(s) => if n <= BLOCK_SIZE && BLOCK_SIZE - n < 2 * |s| then n else n + 2 * |s|
  }

  /** One past the last byte it writes, with its terminator; 0 if it writes none. */
  function Reach(n: nat, c: Call): nat {
    match c
    case Text(t) => if BLOCK_SIZE <= n then 0 else Min(n + |t| + 1, BLOCK_SIZE)
    case Quoted(s) => if n <= BLOCK_SIZE && BLOCK_SIZE - n < |s| + 3 then 0 else n + |s| + 3
    case Hex(s) => if n <= BLOCK_SIZE && BLOCK_SIZE - n < 2 * |s| then 0 else n + 2 * |s| + 1
  }

  function CountedBy(calls: seq<Call>): nat {
    if calls == [] then 0 else Counted(CountedBy(calls[..|calls| - 1]), calls[|calls| - 1])
  }

  ghost predicate Stays(calls: seq<Call>) {
    calls == [] ||
    (Stays(calls[..|calls| - 1]) && Reach(CountedBy(calls[..|calls| - 1]), calls[|calls| - 1]) <= EVENT_SIZE)
  }

  /** A text more than ten bytes longer than the room it finds. */
  predicate Overruns(n: nat, c: Call) {
    c.Text? && n < BLOCK_SIZE && BLOCK_SIZE - n + 10 < |c.text|
  }

  predicate Overrun(calls: seq<Call>) {
    calls != [] && (Overrun(calls[..|calls| - 1]) || Overruns(CountedBy(calls[..|calls| - 1]), calls[|calls| - 1]))
  }

  /** Of the sequences of calls that stay in the buffer: consumed ends past it exactly if some text was more than ten
      bytes too long. */
  lemma {:induction false} PastTheBuffer(calls: seq<Call>)
    requires forall j :: 0 <= j < |calls| && Overrun(calls[..j]) ==> calls[j].Text?
    ensures Overrun(calls) <==> BLOCK_SIZE < CountedBy(calls)
  {
    if calls != [] {
      var k := |calls| - 1;
      var front := calls[..k];
      forall j | 0 <= j < k && Overrun(front[..j])
        ensures front[j].Text?
      {
        assert front[..j] == calls[..j];
      }
      PastTheBuffer(front);
    }
  }

  /** Which sequences of calls stay in the 512 bytes: exactly those in which nothing but texts comes after a text
      more than ten bytes too long. */
  lemma {:induction false} StaysExactly(calls: seq<Call>)
    ensures Stays(calls) <==> forall j :: 0 <= j < |calls| && Overrun(calls[..j]) ==> calls[j].Text?
  {
    if calls != [] {
      var k := |calls| - 1;
      var front := calls[..k];
      StaysExactly(front);
      assert forall j :: 0 <= j < k ==> front[..j] == calls[..j];
      if Stays(front) {
        PastTheBuffer(front);
      }
    }
  }

  lemma {:induction false} CountedIsLength(calls: seq<Call>)
    ensures Run(calls).Some? ==> CountedBy(calls) == |Run(calls).value|
  {
    if calls != [] {
      CountedIsLength(calls[..|calls| - 1]);
    }
  }

  // ---- The buffer

  /** buf after a bounded print of text behind content. */
  lemma TextStored(buf: seq<byte>, content: seq<byte>, text: seq<byte>)
    requires |buf| == EVENT_SIZE && |content| < BLOCK_SIZE && buf[..|content|] == content
    ensures var buf' := Overwrite(buf, |content|, Printed(text, BLOCK_SIZE - |content|));
            var r := Append(content, Text(text));
            && (r.Some? ==> buf'[..|r.value|] == r.value)
            && buf'[Min(|content| + |text|, BLOCK_SIZE - 1)] == NUL
  {
    var whole := content + text;
    var printed := Printed(text, BLOCK_SIZE - |content|);
    var buf' := Overwrite(buf, |content|, printed);
    var stored := Min(|whole|, BLOCK_SIZE - 1);
    assert buf'[..stored] == whole[..stored];
    assert buf'[|content| + |printed| - 1] == printed[|printed| - 1];
    var r := Append(content, Text(text));
    if r.Some? && r.value != whole {
      assert buf'[..stored][..|r.value|] == buf'[..|r.value|];
    }
  }

  lemma HexGrows(s: seq<byte>, i: nat)
    requires i < |s|
    ensures HexOf(s[..i + 1]) == HexOf(s[..i]) + [HexDigit(s[i] / 16), HexDigit(s[i] % 16)]
  {
    assert s[..i + 1][..i] == s[..i];
  }

  /** Text behind the first at bytes, as vsnprintf leaves it. */
  method StoreText(buffer: array<byte>, at: nat, text: seq<byte>)
    requires buffer.Length == EVENT_SIZE && at < BLOCK_SIZE
    modifies buffer
    ensures var r := Append(old(buffer[..at]), Text(text)); r.Some? ==> buffer[..|r.value|] == r.value
    ensures buffer[Min(at + |text|, BLOCK_SIZE - 1)] == NUL
  {
    TextStored(buffer[..], buffer[..at], text);
    CopyInto(buffer, at, Printed(text, BLOCK_SIZE - at));
    ghost var r := Append(old(buffer[..at]), Text(text));
    assert r.Some? ==> buffer[..][..|r.value|] == buffer[..|r.value|];
  }

  /** Bytes behind the first at bytes. */
  method Store(buffer: array<byte>, at: nat, s: seq<byte>)
    requires at + |s| <= buffer.Length
    modifies buffer
    ensures buffer[..at + |s|] == old(buffer[..at]) + s
  {
    CopyInto(buffer, at, s);
    assert buffer[..at + |s|] == buffer[..][..at + |s|];
  }

  /** A quoted string behind the first at bytes, and its terminator. */
  method StoreQuoted(buffer: array<byte>, at: nat, s: seq<byte>)
    requires at + |s| + 3 <= buffer.Length
    modifies buffer
    ensures buffer[..at + |s| + 2] == old(buffer[..at]) + Piece(Quoted(s))
    ensures buffer[at + |s| + 2] == NUL
  {
    ghost var content := buffer[..at];
    var ptr := at;
    Store(buffer, ptr, [QUOTE]);
    ptr := ptr + 1;
    Store(buffer, ptr, s);
    ptr := ptr + |s|;
    Store(buffer, ptr, [QUOTE]);
    ptr := ptr + 1;
    assert content + [QUOTE] + s + [QUOTE] == content + Piece(Quoted(s));
    buffer[ptr] := NUL;
    assert buffer[..ptr] == content + Piece(Quoted(s));
  }

  /** The hex digits of a string behind the first at bytes, and their terminator. */
  method StoreHex(buffer: array<byte>, at: nat, s: seq<byte>)
    requires at + 2 * |s| < buffer.Length
    modifies buffer
    ensures buffer[..at + 2 * |s|] == old(buffer[..at]) + HexOf(s)
    ensures buffer[at + 2 * |s|] == NUL
  {
    var ptr := at;
    for i := 0 to |s|
      invariant ptr == at + 2 * i
      invariant buffer[..ptr] == old(buffer[..at]) + HexOf(s[..i])
    {
      HexGrows(s, i);
      buffer[ptr], buffer[ptr + 1] := HexDigit(s[i] / 16), HexDigit(s[i] % 16);
      ptr := ptr + 2;
      assert buffer[..ptr] == buffer[..ptr - 2] + [HexDigit(s[i] / 16), HexDigit(s[i] % 16)];
    }
    assert s[..|s|] == s;
    ghost var digits := buffer[..ptr];
    buffer[ptr] := NUL;
    assert buffer[..ptr] == digits;
  }

  /** strlen of the whole buffer tells short contents from others as their own length would. */
  lemma StringLength(buffer: seq<byte>, consumed: nat)
    requires consumed < |buffer| && (consumed < 501 ==> buffer[consumed] == NUL)
    ensures |CString(buffer)| < SHORTEST <==> |CString(buffer[..consumed])| < SHORTEST
  {
    var content, rest := buffer[..consumed], buffer[consumed..];
    assert buffer == content + rest;
    if NUL in content {
      CStringStops(content, rest);
    } else {
      CStringThrough(content, rest);
      CStringThrough(content, []);
      assert content + [] == content;
    }
  }

  lemma FullBuffer(content: seq<byte>, text: seq<byte>)
    ensures |content| == BLOCK_SIZE ==> Append(content, Text(text)) == Some(content)
  {
    assert content + [] == content;
  }

  class EventBuf {
    const buffer: array<byte>
    var consumed: nat
    /** Whether some call has stored a terminator, and where the last of them is. */
    ghost var started: bool
    ghost var terminator: nat
    /** consumed counts bytes that were not stored. */
    ghost var spilled: bool

    ghost predicate Valid()
      reads this, buffer
    {
      && buffer.Length == EVENT_SIZE
      && (if spilled then BLOCK_SIZE <= consumed else consumed <= BLOCK_SIZE)
      && (!started ==> consumed == 0)
      && (started ==> terminator < EVENT_SIZE && buffer[terminator] == NUL)
      && (started && !spilled ==> consumed <= terminator && (consumed < 501 ==> terminator == consumed))
    }

    ghost function Content(): (c: Option<seq<byte>>)
      requires Valid()
      reads this, buffer
      ensures c.Some? ==> |c.value| <= BLOCK_SIZE
    {
      if spilled then None else Some(buffer[..consumed])
    }

    /** audit_log_start_hardlog. */
    constructor ()
      ensures Valid() && fresh(buffer) && Content() == Some([]) && !started
    {
      buffer := new byte[EVENT_SIZE];
      consumed, terminator := 0, 0;
      started, spilled := false, false;
    }

    /** audit_log_format_hardlog. */
    method Format(text: seq<byte>)
      requires Valid()
      modifies this, buffer
      ensures Valid() && started
      ensures Content() == match old(Content()) { case None => None case Some(c) => Append(c, Text(text)) }
      ensures consumed == Counted(old(consumed), Text(text))
    {
      if BLOCK_SIZE as int - consumed as int <= 0 {
        FullBuffer(buffer[..Min(consumed, BLOCK_SIZE)], text);
        return;
      }
      StoreText(buffer, consumed, text);
      var len := |text|;
      started, terminator := true, Min(consumed + len, BLOCK_SIZE - 1);
      if len < BLOCK_SIZE - consumed {
        consumed := consumed + len;
      } else {
        consumed := consumed + len - 10;
        spilled := BLOCK_SIZE <= consumed;
      }
    }

    /** audit_log_n_string_hardlog. The comparison is unsigned: it protects the buffer only while consumed is
        within it. */
    method NString(s: seq<byte>)
      requires Valid() && Reach(consumed, Quoted(s)) <= EVENT_SIZE
      modifies this, buffer
      ensures Valid() && (old(started) ==> started)
      ensures Content() == match old(Content()) { case None => None case Some(c) => Append(c, Quoted(s)) }
      ensures consumed == Counted(old(consumed), Quoted(s))
      ensures 0 < Reach(old(consumed), Quoted(s)) ==> started
    {
      if BLOCK_SIZE - consumed < |s| + 3 {
        return;
      }
      StoreQuoted(buffer, consumed, s);
      consumed := consumed + |s| + 2;
      started, terminator := true, consumed;
    }

    /** audit_log_n_hex_hardlog. */
    method NHex(s: seq<byte>)
      requires Valid() && Reach(consumed, Hex(s)) <= EVENT_SIZE
      modifies this, buffer
      ensures Valid() && (old(started) ==> started)
      ensures Content() == match old(Content()) { case None => None case Some(c) => Append(c, Hex(s)) }
      ensures consumed == Counted(old(consumed), Hex(s))
      ensures 0 < Reach(old(consumed), Hex(s)) ==> started
    {
      if BLOCK_SIZE - consumed < 2 * |s| {
        return;
      }
      StoreHex(buffer, consumed, s);
      consumed := consumed + 2 * |s|;
      started, terminator := true, consumed;
    }

    /** audit_log_end_hardlog, up to the append to the ring. */
    method End() returns (record: Option<seq<byte>>)
      requires Valid() && consumed <= BLOCK_SIZE && started
      modifies this, buffer
      ensures old(Content()).Some? ==> record == Record(old(Content().value))
      ensures record.Some? ==> |record.value| == old(consumed) + 1
    {
      ghost var content := buffer[..consumed];
      StringLength(buffer[..], consumed);
      assert content == buffer[..][..consumed];
      if |CString(buffer[..])| < SHORTEST {
        return None;
      }
      if consumed < BLOCK_SIZE {
        CopyInto(buffer, consumed, Printed([NEWLINE], BLOCK_SIZE - consumed));
      }
      consumed := consumed + 1;
      assert !spilled ==> buffer[..consumed] == content + [if |content| <= 509 then NEWLINE else NUL];
      return Some(buffer[..consumed]);
    }
  }
}
