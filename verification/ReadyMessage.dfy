/** The READY message: written by the device library over the start of the command sector, parsed by the host
    library. */
module ReadyMessage {
  import opened Bytes

  const READY: seq<byte> := [82, 69, 65, 68, 89]

  // ---- Decimal text

  predicate IsDigit(b: byte) {
    48 <= b <= 57
  }

  /** to_string. */
  function Digits(n: nat): (s: seq<byte>)
    ensures s != [] && forall i :: 0 <= i < |s| ==> IsDigit(s[i])
  {
    if n < 10 then [48 + n] else Digits(n / 10) + [48 + n % 10]
  }

  /** The value of a digit string. */
  function Value(s: seq<byte>): nat
    requires forall i :: 0 <= i < |s| ==> IsDigit(s[i])
  {
    if s == [] then 0
    else
      assert IsDigit(s[|s| - 1]);
      var last: int := s[|s| - 1];
      10 * Value(s[..|s| - 1]) + last - 48
  }

  lemma {:induction false} ValueOfDigits(n: nat)
    ensures Value(Digits(n)) == n
  {
    if n < 10 {
      assert Value([]) == 0;
    } else {
      ValueOfDigits(n / 10);
      var s := Digits(n);
      assert s[..|s| - 1] == Digits(n / 10);
    }
  }

  function Pow10(k: nat): (p: nat)
    ensures 1 <= p
  {
    if k == 0 then 1 else 10 * Pow10(k - 1)
  }

  lemma {:induction false} DigitsShort(n: nat, k: nat)
    requires 0 < k && n < Pow10(k)
    ensures |Digits(n)| <= k
  {
    if 10 <= n {
      assert Pow10(k) == 10 * Pow10(k - 1);
      DigitsShort(n / 10, k - 1);
    }
  }

  // ---- Streams over a C string

  predicate IsSpace(b: byte) {
    b == 32 || 9 <= b <= 13
  }

  function SkipSpaces(s: seq<byte>): (r: seq<byte>)
    ensures |r| <= |s|
  {
    if s != [] && IsSpace(s[0]) then SkipSpaces(s[1..]) else s
  }

  function Word(s: seq<byte>): (w: seq<byte>)
    ensures w <= s
  {
    if s == [] || IsSpace(s[0]) then [] else [s[0]] + Word(s[1..])
  }

  function LeadingDigits(s: seq<byte>): (d: seq<byte>)
    ensures d <= s && forall i :: 0 <= i < |d| ==> IsDigit(d[i])
  {
    if s == [] || !IsDigit(s[0]) then [] else [s[0]] + LeadingDigits(s[1..])
  }

  /** response >> word. */
  function NextWord(s: seq<byte>): seq<byte> {
    Word(SkipSpaces(s))
  }

  function AfterWord(s: seq<byte>): seq<byte> {
    var t := SkipSpaces(s);
    t[|Word(t)|..]
  }

  /** stoul: an optional sign and the leading digits; no digits and values past 64 bits throw. */
  function Stoul(w: seq<byte>): Option<nat> {
    var signed := w != [] && (w[0] == 43 || w[0] == 45);
    var digits := LeadingDigits(if signed then w[1..] else w);
    if digits == [] || UINT64_LIMIT <= Value(digits) then None
    else if signed && w[0] == 45 then Some((UINT64_LIMIT - Value(digits)) % UINT64_LIMIT)
    else Some(Value(digits))
  }

  /** is_response_ready. */
  predicate IsResponseReady(data: seq<byte>) {
    NextWord(CString(data)) == READY
  }

  /** get_response_size; None when stoul throws. */
  function GetResponseSize(data: seq<byte>): Option<nat> {
    Stoul(NextWord(AfterWord(CString(data))))
  }

  // ---- The message

  function Message(bytes: nat): seq<byte> {
    READY + [SPACE] + Digits(bytes)
  }

  /** A message for any size_t count is far shorter than a sector. */
  lemma MessageFits(bytes: nat)
    requires bytes < UINT64_LIMIT
    ensures |Message(bytes)| <= 26
  {
    assert Pow10(4) == 10000;
    assert Pow10(8) == 10000 * 10000 by {
      assert Pow10(6) == 1000000;
    }
    assert Pow10(12) == 1000000000000 by {
      assert Pow10(10) == 10000000000;
    }
    assert Pow10(16) == 10000000000000000 by {
      assert Pow10(14) == 100000000000000;
    }
    assert Pow10(20) == 100000000000000000000 by {
      assert Pow10(18) == 1000000000000000000;
    }
    DigitsShort(bytes, 20);
  }

  /** commit_response_message, on the command sector. */
  function Publish(sector: seq<byte>, bytes: nat): (r: seq<byte>)
    requires |Message(bytes)| <= |sector|
    ensures |r| == |sector|
  {
    Overwrite(sector, 0, Message(bytes))
  }

  lemma {:induction false} WordThrough(a: seq<byte>, b: seq<byte>)
    requires forall i :: 0 <= i < |a| ==> !IsSpace(a[i])
    ensures Word(a + b) == a + Word(b)
  {
    if a == [] {
      assert a + b == b;
    } else {
      assert (a + b)[1..] == a[1..] + b;
      WordThrough(a[1..], b);
    }
  }

  lemma {:induction false} DigitsThrough(a: seq<byte>, b: seq<byte>)
    requires forall i :: 0 <= i < |a| ==> IsDigit(a[i])
    ensures LeadingDigits(a + b) == a + LeadingDigits(b)
  {
    if a == [] {
      assert a + b == b;
    } else {
      assert (a + b)[1..] == a[1..] + b;
      DigitsThrough(a[1..], b);
    }
  }

  /** Cutting at a space or a NUL does not cut a digit string short. */
  lemma {:induction false} DigitsOfWord(s: seq<byte>)
    ensures LeadingDigits(Word(CString(s))) == LeadingDigits(s)
  {
    if s != [] && IsDigit(s[0]) {
      assert CString(s)[1..] == CString(s[1..]);
      assert Word(CString(s))[1..] == Word(CString(s[1..]));
      DigitsOfWord(s[1..]);
    }
  }

  lemma WordThenRest(w: seq<byte>, rest: seq<byte>)
    requires w != [] && forall i :: 0 <= i < |w| ==> !IsSpace(w[i])
    requires rest != [] && IsSpace(rest[0])
    ensures NextWord(w + rest) == w && AfterWord(w + rest) == rest
  {
    WordThrough(w, rest);
    assert (w + rest)[0] == w[0];
    assert SkipSpaces(w + rest) == w + rest;
    assert Word(rest) == [];
    assert w + [] == w;
  }

  lemma SpaceThenWord(t: seq<byte>)
    requires t != [] && !IsSpace(t[0])
    ensures NextWord([SPACE] + t) == Word(t)
  {
    assert ([SPACE] + t)[1..] == t;
    assert SkipSpaces(t) == t;
  }

  lemma Regroup(a: seq<byte>, b: seq<byte>, c: seq<byte>, d: seq<byte>)
    ensures a + b + c + d == a + (b + (c + d))
  {
  }

  lemma MessageHasNoNul(n: nat)
    ensures NUL !in Message(n)
  {
    assert forall i :: 0 <= i < |Digits(n)| ==> IsDigit(Digits(n)[i]);
    assert NUL !in READY;
  }

  lemma MessageCString(n: nat, rest: seq<byte>)
    ensures CString(Message(n) + rest) == READY + ([SPACE] + (Digits(n) + CString(rest)))
  {
    MessageHasNoNul(n);
    CStringThrough(Message(n), rest);
    Regroup(READY, [SPACE], Digits(n), CString(rest));
  }

  lemma SecondWordDigits(n: nat, rest: seq<byte>)
    ensures LeadingDigits(Word(Digits(n) + CString(rest))) == Digits(n) + LeadingDigits(rest)
  {
    WordThrough(Digits(n), CString(rest));
    DigitsThrough(Digits(n), Word(CString(rest)));
    DigitsOfWord(rest);
  }

  lemma StoulUnsigned(w: seq<byte>)
    requires w != [] && IsDigit(w[0])
    ensures Stoul(w) == if Value(LeadingDigits(w)) < UINT64_LIMIT then Some(Value(LeadingDigits(w))) else None
  {
  }

  lemma SignedStoul(sign: byte, t: seq<byte>)
    requires sign == 43 || sign == 45
    ensures Stoul([sign] + t) ==
            var digits := LeadingDigits(t);
            if digits == [] || UINT64_LIMIT <= Value(digits) then None
            else Some(if sign == 43 || Value(digits) == 0 then Value(digits) else UINT64_LIMIT - Value(digits))
  {
    assert ([sign] + t)[1..] == t;
  }

  lemma DigitsBefore(n: nat, rest: seq<byte>)
    requires rest == [] || !IsDigit(rest[0])
    ensures LeadingDigits(Digits(n) + rest) == Digits(n) && Value(Digits(n)) == n && LeadingDigits(rest) == []
    ensures (Digits(n) + rest)[0] == Digits(n)[0]
  {
    DigitsThrough(Digits(n), rest);
    assert Digits(n) + [] == Digits(n);
    ValueOfDigits(n);
  }

  /** What stoul makes of a number, of one with a sign, which wraps if it is a minus, and of no number. */
  lemma StoulReads(n: nat, rest: seq<byte>)
    requires n < UINT64_LIMIT && (rest == [] || !IsDigit(rest[0]))
    ensures Stoul(Digits(n) + rest) == Some(n) && Stoul([43] + (Digits(n) + rest)) == Some(n)
    ensures Stoul([45] + (Digits(n) + rest)) == Some(if n == 0 then 0 else UINT64_LIMIT - n)
    ensures Stoul([43] + rest) == Stoul([45] + rest) == None
  {
    DigitsBefore(n, rest);
    var t := Digits(n) + rest;
    StoulUnsigned(t);
    SignedStoul(43, t);
    SignedStoul(45, t);
    SignedStoul(43, rest);
    SignedStoul(45, rest);
  }

  /** What the host reads after a message for n, whatever follows it in the sector: ready, and the number
      spelled by the message's digits and any digits that come right after them. */
  lemma HostReads(n: nat, rest: seq<byte>)
    ensures IsResponseReady(Message(n) + rest)
    ensures var digits := Digits(n) + LeadingDigits(rest);
            GetResponseSize(Message(n) + rest) == if Value(digits) < UINT64_LIMIT then Some(Value(digits)) else None
  {
    var tail := Digits(n) + CString(rest);
    MessageCString(n, rest);
    WordThenRest(READY, [SPACE] + tail);
    SpaceThenWord(tail);
    SecondWordDigits(n, rest);
    StoulUnsigned(Word(tail));
  }

  lemma {:induction false} ValueExtends(a: seq<byte>, b: seq<byte>)
    requires forall i :: 0 <= i < |a| ==> IsDigit(a[i])
    requires forall i :: 0 <= i < |b| ==> IsDigit(b[i])
    ensures Value(a) <= Value(a + b)
    ensures b == [] ==> Value(a + b) == Value(a)
    ensures b != [] ==> (Value(a + b) == Value(a) <==> Value(a) == 0 && Value(b) == 0)
  {
    if b == [] {
      assert a + b == a;
    } else {
      var init := b[..|b| - 1];
      assert (a + b)[..|a + b| - 1] == a + init;
      ValueExtends(a, init);
    }
  }

  /** READY round trip: published over a sector, the message for n bytes is read back as n exactly when no
      digit of the sector's old content comes right after it, or n is zero and those digits are too. */
  lemma ReadyRoundTrip(sector: seq<byte>, n: nat)
    requires |Message(n)| <= |sector| && n < UINT64_LIMIT
    ensures var data := Publish(sector, n);
            var stale := LeadingDigits(sector[|Message(n)|..]);
            && IsResponseReady(data)
            && (GetResponseSize(data) == Some(n) <==> stale == [] || (n == 0 && Value(stale) == 0))
  {
    var rest := sector[|Message(n)|..];
    assert Publish(sector, n) == Message(n) + rest;
    HostReads(n, rest);
    ValueOfDigits(n);
    ValueExtends(Digits(n), LeadingDigits(rest));
  }

  /** A shorter message over a longer one: 9 bytes published over READY 12345 are read as 92345. */
  lemma StaleDigitsExample(sector: seq<byte>)
    requires 12 <= |sector| && sector[7..12] == [50, 51, 52, 53, NUL]
    ensures |Message(9)| <= |sector| && GetResponseSize(Publish(sector, 9)) == Some(92345)
  {
    var rest := sector[7..];
    assert |Message(9)| == 7;
    assert Publish(sector, 9) == Message(9) + rest;
    HostReads(9, rest);
    StaleDigits(sector);
    ValueOf92345();
  }

  lemma StaleDigits(sector: seq<byte>)
    requires 12 <= |sector| && sector[7..12] == [50, 51, 52, 53, NUL]
    ensures Digits(9) + LeadingDigits(sector[7..]) == [57, 50, 51, 52, 53]
  {
    var rest, stale := sector[11..], [50, 51, 52, 53, NUL];
    assert sector[7..12][4] == sector[11] == stale[4];
    assert sector[7..] == sector[7..12][..4] + rest;
    assert sector[7..12][..4] == [50, 51, 52, 53];
    DigitsThrough([50, 51, 52, 53], rest);
    assert LeadingDigits(rest) == [];
  }

  lemma ValueOf92345()
    ensures Value([57, 50, 51, 52, 53]) == 92345
  {
    assert [57, 50, 51, 52, 53][..4] == [57, 50, 51, 52];
    assert [57, 50, 51, 52][..3] == [57, 50, 51];
    assert [57, 50, 51][..2] == [57, 50];
    assert [57, 50][..1] == [57];
    assert Value([57]) == 9;
  }
}
