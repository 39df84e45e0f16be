/** Bytes, memory copies and small arithmetic shared by every component. */
module Bytes {

  type byte = x: int | 0 <= x < 256

  const NUL: byte := 0
  const NEWLINE: byte := 10
  const SPACE: byte := 32
  const QUOTE: byte := 34

  const PAGE: nat := 4096
  const SECTOR: nat := 512
  /** The largest audit record. */
  const EVENT_SIZE: nat := 512
  /** The device library's file buffers. */
  const CHUNK: nat := 128 * 1024
  /** What a uint64_t, or a size_t, stays below. */
  const UINT64_LIMIT: nat := 0x1_0000_0000_0000_0000

  datatype Option<+T> = None | Some(value: T)

  function Min(a: int, b: int): int {
    if a <= b then a else b
  }

  /** Number of blocks of size d needed to hold n bytes. */
  function CeilDiv(n: nat, d: nat): (q: nat)
    requires 0 < d
    ensures n <= q * d < n + d
  {
    (n + d - 1) / d
  }

  /** Block i is the last of them exactly when it holds byte n - 1. */
  lemma CeilDivIs(n: nat, d: nat, i: nat)
    requires 0 < d && d * i < n
    ensures i < CeilDiv(n, d)
    ensures n <= d * i + d <==> CeilDiv(n, d) == i + 1
  {
    var q := CeilDiv(n, d);
    Times(q, i, d);
    Times(i + 2, q, d);
    Times(i, q, d);
  }

  lemma Times(a: nat, b: nat, d: nat)
    ensures a <= b ==> a * d <= b * d
    ensures (a + 2) * d == a * d + d + d
  {
  }

  lemma MulGap(p: nat, q: nat, d: nat)
    ensures p < q ==> p * d + d <= q * d
  {
    if p < q {
      MulDistributes(q - p - 1, p + 1, d);
      MulDistributes(p, 1, d);
    }
  }

  lemma MulDistributes(a: nat, b: nat, d: nat)
    ensures (a + b) * d == a * d + b * d
  {
  }

  /** Quotient and remainder are determined. */
  lemma DivModUnique(x: nat, d: nat, q: nat, r: nat)
    requires r < d && x == q * d + r
    ensures x / d == q && x % d == r
  {
    assert x == (x / d) * d + x % d;
    MulGap(q, x / d, d);
    MulGap(x / d, q, d);
  }

  /** Two numbers are in the same block of d exactly when their blocks start at the same place. */
  lemma SameBlock(x: nat, y: nat, d: nat)
    requires 0 < d
    ensures x - x % d == y - y % d <==> x / d == y / d
  {
    assert x == (x / d) * d + x % d && y == (y / d) * d + y % d;
    MulGap(x / d, y / d, d);
    MulGap(y / d, x / d, d);
  }

  lemma Difference(q: nat, a: nat, p: nat, b: nat, d: nat)
    requires a < d && b < d && p * d + b <= q * d + a
    ensures if a < b then p < q && q * d + a - (p * d + b) == (q - p - 1) * d + (a + d - b)
            else p <= q && q * d + a - (p * d + b) == (q - p) * d + (a - b)
  {
    MulGap(q, p, d);
    if a < b {
      MulGap(p, q, d);
      MulDistributes(q - p - 1, p + 1, d);
      MulDistributes(p, 1, d);
    } else {
      MulDistributes(q - p, p, d);
    }
  }

  lemma DifferenceOfParts(x: nat, y: nat, q: nat, a: nat, p: nat, b: nat, d: nat)
    requires a < d && b < d && y <= x && x == q * d + a && y == p * d + b
    ensures (x - y) % d == if a < b then a + d - b else a - b
  {
    Difference(q, a, p, b, d);
    if a < b {
      DivModUnique(x - y, d, q - p - 1, a + d - b);
    } else {
      DivModUnique(x - y, d, q - p, a - b);
    }
  }

  lemma DivMod(x: nat, d: nat)
    requires 0 < d
    ensures x == (x / d) * d + x % d
  {
  }

  /** How far apart two numbers are, modulo d, by where they are in their blocks. */
  lemma DifferenceMod(x: nat, y: nat, d: nat)
    requires 0 < d && y <= x
    ensures (x - y) % d == if x % d < y % d then x % d + d - y % d else x % d - y % d
  {
    DivMod(x, d);
    DivMod(y, d);
    DifferenceOfParts(x, y, x / d, x % d, y / d, y % d, d);
  }

  lemma BlocksInOrder(lo: nat, x: nat, hi: nat, d: nat)
    requires 0 < d && lo <= x <= hi && lo / d == hi / d
    ensures x / d == lo / d
  {
    assert x == (x / d) * d + x % d && lo == (lo / d) * d + lo % d && hi == (hi / d) * d + hi % d;
    MulGap(x / d, lo / d, d);
    MulGap(hi / d, x / d, d);
  }

  lemma SliceGrows<T>(s: seq<T>, lo: nat, hi: nat)
    requires lo <= hi < |s|
    ensures s[lo..hi + 1] == s[lo..hi] + [s[hi]]
  {
  }

  /** A concatenation without its last element, and that element. */
  lemma LastOf<T>(a: seq<T>, b: seq<T>)
    requires b != []
    ensures var s := a + b; s[..|s| - 1] == a + b[..|b| - 1] && s[|s| - 1] == b[|b| - 1]
  {
  }

  lemma FirstOf<T>(a: seq<T>, b: seq<T>)
    requires a != []
    ensures [a[0]] + (a[1..] + b) == a + b
  {
  }

  /** The len numbers from lo: the cells a copy touches, the sectors a write covers. */
  function Span(lo: nat, len: nat): (span: set<nat>)
    ensures forall c: nat :: c in span <==> lo <= c < lo + len
  {
    if len == 0 then {} else Span(lo, len - 1) + {lo + len - 1}
  }

  /** What a memcpy of data to offset at leaves behind. */
  function Overwrite(s: seq<byte>, at: nat, data: seq<byte>): (r: seq<byte>)
    requires at + |data| <= |s|
    ensures |r| == |s|
    ensures r[at..at + |data|] == data
    ensures forall i :: 0 <= i < |s| && !(at <= i < at + |data|) ==> r[i] == s[i]
  {
    s[..at] + data + s[at + |data|..]
  }

  /** The length of a window of the log file, as uint64_t has it. */
  function WindowBytes(start: nat, end: nat): (bytes: nat)
    ensures start <= end < UINT64_LIMIT ==> bytes == end - start
    ensures end < start < UINT64_LIMIT ==> bytes == UINT64_LIMIT - (start - end)
  {
    (end as int - start as int) % UINT64_LIMIT
  }

  /** A file after data is written at an offset, longer if the data reaches past its end. */
  function WriteAt(file: seq<byte>, at: nat, data: seq<byte>): (r: seq<byte>)
    requires at <= |file|
    ensures |r| >= |file| && |r| >= at + |data|
    ensures r[..at] == file[..at] && r[at..at + |data|] == data
  {
    file[..at] + data + if at + |data| <= |file| then file[at + |data|..] else []
  }

  /** Its bytes: the data's where it was written, the file's everywhere else. */
  lemma WriteAtMeans(file: seq<byte>, at: nat, data: seq<byte>)
    requires at <= |file|
    ensures var r := WriteAt(file, at, data);
            && |r| == (if at + |data| <= |file| then |file| else at + |data|)
            && forall i :: 0 <= i < |r| ==> r[i] == if at <= i < at + |data| then data[i - at] else file[i]
  {
  }

  /** memcpy. */
  method CopyInto(dst: array<byte>, at: nat, src: seq<byte>)
    requires at + |src| <= dst.Length
    modifies dst
    ensures dst[..] == Overwrite(old(dst[..]), at, src)
  {
    forall i | 0 <= i < |src| {
      dst[at + i] := src[i];
    }
  }

  /** A copy elsewhere leaves a disjoint stretch alone. */
  lemma OverwriteElsewhere(s: seq<byte>, at: nat, data: seq<byte>, lo: nat, hi: nat)
    requires at + |data| <= |s| && lo <= hi <= |s|
    requires hi <= at || at + |data| <= lo
    ensures Overwrite(s, at, data)[lo..hi] == s[lo..hi]
  {
  }

  // ---- C strings

  function CString(data: seq<byte>): (s: seq<byte>)
    ensures s <= data
  {
    if data == [] || data[0] == NUL then [] else [data[0]] + CString(data[1..])
  }

  lemma {:induction false} CStringThrough(a: seq<byte>, b: seq<byte>)
    requires NUL !in a
    ensures CString(a + b) == a + CString(b)
  {
    if a == [] {
      assert a + b == b;
    } else {
      assert (a + b)[1..] == a[1..] + b;
      CStringThrough(a[1..], b);
    }
  }

  /** A NUL, if there is one, ends the string before what follows. */
  lemma {:induction false} CStringStops(a: seq<byte>, b: seq<byte>)
    requires NUL in a
    ensures CString(a + b) == CString(a)
  {
    assert (a + b)[0] == a[0];
    if a[0] != NUL {
      assert (a + b)[1..] == a[1..] + b;
      CStringStops(a[1..], b);
    }
  }

  /** vsnprintf's bound: the text, cut to fit with its terminator. */
  function Printed(text: seq<byte>, size: nat): (r: seq<byte>)
    requires 0 < size
    ensures 0 < |r| <= size && r[|r| - 1] == NUL
  {
    text[..Min(|text|, size - 1)] + [NUL]
  }

  // ---- Lines

  /** getline: up to the first newline. */
  function FirstLine(data: seq<byte>): (line: seq<byte>)
    ensures line <= data
  {
    if data == [] || data[0] == NEWLINE then [] else [data[0]] + FirstLine(data[1..])
  }

  lemma {:induction false} FirstLineEnds(data: seq<byte>)
    ensures var line := FirstLine(data);
            NEWLINE !in line && (|line| < |data| ==> data[|line|] == NEWLINE)
  {
    if data != [] && data[0] != NEWLINE {
      FirstLineEnds(data[1..]);
    }
  }

  lemma {:induction false} FirstLineThrough(c: seq<byte>, rest: seq<byte>)
    requires NEWLINE !in c
    ensures FirstLine(c + [NEWLINE] + rest) == c
  {
    var data := c + [NEWLINE] + rest;
    if c == [] {
      assert data[0] == NEWLINE;
    } else {
      assert data[1..] == c[1..] + [NEWLINE] + rest;
      FirstLineThrough(c[1..], rest);
    }
  }
}
