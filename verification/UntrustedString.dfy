/** audit_log_n_untrustedstring: a string goes into a record between quotes or as hex digits, and comes out
    again. */
module UntrustedString {
  import opened Bytes
  import opened EventBuffer

  /** The choice; control stands for audit_string_contains_control. */
  function Choose(control: seq<byte> -> bool, s: seq<byte>): Call {
    if control(s) then Hex(s) else Quoted(s)
  }

  /** The field a string is recorded as. */
  function Field(control: seq<byte> -> bool, s: seq<byte>): seq<byte> {
    Piece(Choose(control, s))
  }

  // ---- Reading a field back

  predicate IsHexDigit(b: byte) {
    48 <= b <= 57 || 65 <= b <= 70
  }

  function DigitValue(b: byte): (d: nat)
    requires IsHexDigit(b)
    ensures d < 16
  {
    if b <= 57 then b - 48 else b - 55
  }

  function UpToQuote(data: seq<byte>): (s: seq<byte>)
    ensures s <= data
  {
    if data == [] || data[0] == QUOTE then [] else [data[0]] + UpToQuote(data[1..])
  }

  function HexBytes(data: seq<byte>): (s: seq<byte>)
    ensures 2 * |s| <= |data|
  {
    if |data| < 2 || !IsHexDigit(data[0]) || !IsHexDigit(data[1]) then []
    else [16 * DigitValue(data[0]) + DigitValue(data[1])] + HexBytes(data[2..])
  }

  /** A reader of fields: the string, and what follows its field; None for an unclosed quote. */
  function ParseField(data: seq<byte>): Option<(seq<byte>, seq<byte>)> {
    if data != [] && data[0] == QUOTE then
      var s := UpToQuote(data[1..]);
      if |s| + 1 == |data| then None else Some((s, data[|s| + 2..]))
    else
      var s := HexBytes(data);
      Some((s, data[2 * |s|..]))
  }

  lemma {:induction false} UpToQuoteThrough(s: seq<byte>, rest: seq<byte>)
    requires QUOTE !in s
    ensures UpToQuote(s + [QUOTE] + rest) == s
  {
    var data := s + [QUOTE] + rest;
    if s == [] {
      assert data[0] == QUOTE;
    } else {
      assert data[1..] == s[1..] + [QUOTE] + rest;
      UpToQuoteThrough(s[1..], rest);
    }
  }

  lemma {:induction false} UpToQuoteHasNone(data: seq<byte>)
    ensures QUOTE !in UpToQuote(data)
  {
    if data != [] && data[0] != QUOTE {
      UpToQuoteHasNone(data[1..]);
    }
  }

  lemma HexPair(b: byte)
    ensures IsHexDigit(HexDigit(b / 16)) && IsHexDigit(HexDigit(b % 16))
    ensures 16 * DigitValue(HexDigit(b / 16)) + DigitValue(HexDigit(b % 16)) == b
  {
  }

  /** The digits of a string start with those of its first byte. */
  lemma {:induction false} HexOfFirst(s: seq<byte>)
    requires s != []
    ensures HexOf(s) == [HexDigit(s[0] / 16), HexDigit(s[0] % 16)] + HexOf(s[1..])
  {
    var k := |s| - 1;
    if k == 0 {
      assert s[..0] == [] && s[1..] == [];
    } else {
      HexOfFirst(s[..k]);
      assert s[..k][1..] == s[1..][..k - 1];
    }
  }

  lemma {:induction false} HexBytesThrough(s: seq<byte>, rest: seq<byte>)
    requires rest == [] || !IsHexDigit(rest[0])
    ensures HexBytes(HexOf(s) + rest) == s
  {
    if s == [] {
      assert HexOf(s) + rest == rest;
    } else {
      HexOfFirst(s);
      HexPair(s[0]);
      var data := HexOf(s) + rest;
      assert data[2..] == HexOf(s[1..]) + rest;
      HexBytesThrough(s[1..], rest);
    }
  }

  lemma HexStartsWithDigit(s: seq<byte>)
    ensures s != [] ==> HexOf(s) != [] && IsHexDigit(HexOf(s)[0])
  {
    if s != [] {
      HexOfFirst(s);
      HexPair(s[0]);
    }
  }

  /** Round trip: whatever follows a field, unless hex digits follow hex digits, the string is read back and
      the rest is where it was, exactly if the string is one that may go between quotes. */
  lemma FieldRoundTrip(control: seq<byte> -> bool, s: seq<byte>, rest: seq<byte>)
    requires rest == [] || (!IsHexDigit(rest[0]) && rest[0] != QUOTE)
    ensures ParseField(Field(control, s) + rest) == Some((s, rest)) <==> control(s) || QUOTE !in s
  {
    var data := Field(control, s) + rest;
    if control(s) {
      HexBytesThrough(s, rest);
      HexStartsWithDigit(s);
      if s == [] {
        assert data == rest;
      }
      assert data[2 * |s|..] == rest;
    } else {
      assert data[1..] == s + [QUOTE] + rest;
      if QUOTE !in s {
        UpToQuoteThrough(s, rest);
        assert data[|s| + 2..] == rest;
      } else {
        UpToQuoteHasNone(data[1..]);
      }
    }
  }

  /** The assumption on the control-character test. */
  ghost predicate FlagsQuotes(control: seq<byte> -> bool) {
    forall s: seq<byte> :: QUOTE in s ==> control(s)
  }

  /** Fields tell strings apart, and where one ends. */
  lemma FieldsDiffer(control: seq<byte> -> bool, s: seq<byte>, t: seq<byte>, rest: seq<byte>, rest': seq<byte>)
    requires FlagsQuotes(control)
    requires rest == [] || (!IsHexDigit(rest[0]) && rest[0] != QUOTE)
    requires rest' == [] || (!IsHexDigit(rest'[0]) && rest'[0] != QUOTE)
    ensures Field(control, s) + rest == Field(control, t) + rest' <==> s == t && rest == rest'
  {
    FieldRoundTrip(control, s, rest);
    FieldRoundTrip(control, t, rest');
  }

  // ---- In a record

  lemma Associates(a: seq<byte>, b: seq<byte>, c: seq<byte>)
    ensures a + b + c == a + (b + c)
    ensures a + [] == a
  {
  }

  lemma {:induction false} WholeSplits(before: seq<Call>, after: seq<Call>)
    ensures Whole(before + after) == Whole(before) + Whole(after)
  {
    if after == [] {
      assert before + after == before;
      Associates(Whole(before), [], []);
    } else {
      var k := |after| - 1;
      WholeSplits(before, after[..k]);
      LastOf(before, after);
      Associates(Whole(before), Whole(after[..k]), Piece(after[k]));
    }
  }

  lemma FieldInWhole(before: seq<Call>, call: Call, after: seq<Call>)
    ensures var whole := Whole(before + [call] + after);
            && whole == Whole(before) + (Piece(call) + Whole(after))
            && whole[|Whole(before)|..] == Piece(call) + Whole(after)
  {
    WholeSplits(before + [call], after);
    assert (before + [call])[..|before|] == before;
    Associates(Whole(before), Piece(call), Whole(after));
  }

  /** A string recorded between other pieces is read back from the record, if the pieces are not too long
      together and what follows the field is told from it. */
  lemma StringInRecord(control: seq<byte> -> bool, before: seq<Call>, s: seq<byte>, after: seq<Call>)
    requires FlagsQuotes(control)
    requires var calls := before + [Choose(control, s)] + after; |Whole(calls)| <= Limit(calls)
    requires var rest := Whole(after); rest == [] || (!IsHexDigit(rest[0]) && rest[0] != QUOTE)
    ensures var record := Run(before + [Choose(control, s)] + after);
            && record.Some? && |Whole(before)| <= |record.value|
            && ParseField(record.value[|Whole(before)|..]) == Some((s, Whole(after)))
  {
    var call := Choose(control, s);
    ExactConcatenation(before + [call] + after);
    FieldInWhole(before, call, after);
    FieldRoundTrip(control, s, Whole(after));
  }

  /** audit_log_n_untrustedstring, with hardlog active. */
  method LogUntrusted(ab: EventBuf, control: seq<byte> -> bool, s: seq<byte>)
    requires ab.Valid() && Reach(ab.consumed, Choose(control, s)) <= EVENT_SIZE
    modifies ab, ab.buffer
    ensures ab.Valid()
    ensures ab.Content() == match old(ab.Content()) { case None => None case Some(c) => Append(c, Choose(control, s)) }
  {
    if control(s) {
      ab.NHex(s);
    } else {
      ab.NString(s);
    }
  }
}
