/** filter_and_dump_log: the lines of the log, from the start offset on, that contain a key, as the response. */
module LogFilter {
  import opened Bytes

  // ---- Lines

  function AfterLine(data: seq<byte>): (rest: seq<byte>)
    ensures data != [] ==> |rest| < |data|
  {
    var n := |FirstLine(data)|;
    if n < |data| then data[n + 1..] else []
  }

  /** The lines of a text, as getline finds them: an unfinished last line is one too. */
  function Lines(data: seq<byte>): (lines: seq<seq<byte>>)
    decreases |data|
  {
    if data == [] then [] else [FirstLine(data)] + Lines(AfterLine(data))
  }

  function Unlines(lines: seq<seq<byte>>): seq<byte> {
    if lines == [] then [] else lines[0] + [NEWLINE] + Unlines(lines[1..])
  }

  predicate NoNewlines(lines: seq<seq<byte>>) {
    forall i :: 0 <= i < |lines| ==> NEWLINE !in lines[i]
  }

  lemma {:induction false} LinesHaveNoNewline(data: seq<byte>)
    ensures NoNewlines(Lines(data))
    decreases |data|
  {
    if data != [] {
      FirstLineEnds(data);
      LinesHaveNoNewline(AfterLine(data));
    }
  }

  /** Whole lines, written one after the other, are read back as they were. */
  lemma {:induction false} LinesOfUnlines(lines: seq<seq<byte>>)
    requires NoNewlines(lines)
    ensures Lines(Unlines(lines)) == lines
  {
    if lines != [] {
      var rest := Unlines(lines[1..]);
      FirstLineThrough(lines[0], rest);
      var data := lines[0] + [NEWLINE] + rest;
      assert AfterLine(data) == rest;
      LinesOfUnlines(lines[1..]);
    }
  }

  /** A text that ends in a newline, with one behind it if it does not. */
  function Ended(data: seq<byte>): seq<byte> {
    if data == [] || data[|data| - 1] == NEWLINE then data else data + [NEWLINE]
  }

  lemma EndedSplits(line: seq<byte>, rest: seq<byte>)
    ensures Ended(line + [NEWLINE] + rest) == line + [NEWLINE] + Ended(rest)
  {
    var data := line + [NEWLINE] + rest;
    if rest == [] {
      assert data[|data| - 1] == NEWLINE;
    } else {
      assert data[|data| - 1] == rest[|rest| - 1];
      assert data + [NEWLINE] == line + [NEWLINE] + (rest + [NEWLINE]);
    }
  }

  lemma FirstAndRest(data: seq<byte>)
    requires data != []
    ensures var line := FirstLine(data);
            if |line| < |data| then data == line + [NEWLINE] + AfterLine(data)
            else data == line && AfterLine(data) == [] && Ended(data) == line + [NEWLINE]
  {
    FirstLineEnds(data);
    var line := FirstLine(data);
    if |line| == |data| {
      assert data[|data| - 1] in line;
    }
  }

  /** Nothing of a text is outside its lines: with a newline behind each they are the text, and a newline more if the
      text does not end in one. */
  lemma {:induction false} LinesAreText(data: seq<byte>)
    ensures Unlines(Lines(data)) == Ended(data)
    decreases |data|
  {
    if data != [] {
      var line, rest := FirstLine(data), AfterLine(data);
      FirstAndRest(data);
      NextLine(Lines(data), data, 0);
      LinesAreText(rest);
      EndedSplits(line, rest);
    }
  }

  // ---- Which lines are read

  function Total(lines: seq<seq<byte>>): nat {
    if lines == [] then 0 else |lines[0]| + Total(lines[1..])
  }

  /** How many lines the loop reads: the first, and more as long as those before are not bytes long together,
      newlines not counted. */
  function ReadCount(lines: seq<seq<byte>>, bytes: nat): (n: nat)
    ensures n <= |lines|
  {
    if lines == [] then 0
    else if bytes <= |lines[0]| then 1
    else 1 + ReadCount(lines[1..], bytes - |lines[0]|)
  }

  function LinesRead(lines: seq<seq<byte>>, bytes: nat): seq<seq<byte>> {
    lines[..ReadCount(lines, bytes)]
  }

  /** Line i is read exactly if it is the first or the lines before it are shorter than the window together. */
  lemma {:induction false} ReadExactly(lines: seq<seq<byte>>, bytes: nat, i: nat)
    requires i < |lines|
    ensures i < ReadCount(lines, bytes) <==> i == 0 || Total(lines[..i]) < bytes
  {
    if 0 < i {
      assert lines[..i][1..] == lines[1..][..i - 1];
      if |lines[0]| < bytes {
        ReadExactly(lines[1..], bytes - |lines[0]|, i - 1);
        if i == 1 {
          assert Total(lines[1..][..0]) == 0;
        }
      }
    }
  }

  /** The offset at which line i begins: each line before it counts with its newline. */
  function Begin(lines: seq<seq<byte>>, i: nat): nat
    requires i <= |lines|
  {
    Total(lines[..i]) + i
  }

  lemma NextLine(lines: seq<seq<byte>>, text: seq<byte>, left: nat)
    requires text != [] && lines == Lines(text)
    ensures lines == [FirstLine(text)] + lines[1..] && lines[1..] == Lines(AfterLine(text))
    ensures ReadCount(lines, left) ==
            if left <= |FirstLine(text)| then 1 else 1 + ReadCount(lines[1..], left - |FirstLine(text)|)
  {
  }

  lemma {:induction false} LineAt(data: seq<byte>, i: nat)
    requires i < |Lines(data)|
    ensures BeginsAt(data, Lines(data)[i], Begin(Lines(data), i))
    decreases |data|
  {
    var lines := Lines(data);
    NextLine(lines, data, 0);
    if i == 0 {
      assert lines[..0] == [];
    } else {
      LineAt(AfterLine(data), i - 1);
      assert lines[1..][i - 1] == lines[i];
      BeginNext(lines, i);
      LaterLine(data, |FirstLine(data)| + 1, Begin(lines[1..], i - 1), lines[i]);
    }
  }

  ghost predicate BeginsAt(data: seq<byte>, line: seq<byte>, at: nat) {
    at + |line| <= |data| && data[at..at + |line|] == line
  }

  lemma BeginNext(lines: seq<seq<byte>>, i: nat)
    requires 0 < i <= |lines|
    ensures Begin(lines, i) == |lines[0]| + 1 + Begin(lines[1..], i - 1)
  {
    assert lines[..i][1..] == lines[1..][..i - 1];
  }

  lemma LaterLine(data: seq<byte>, n: nat, at: nat, line: seq<byte>)
    requires n <= |data| && BeginsAt(data[n..], line, at)
    ensures BeginsAt(data, line, n + at)
  {
    assert data[n..][at..at + |line|] == data[n + at..n + at + |line|];
  }

  /** Completeness: every line that begins within the window is read. */
  lemma EveryLineBegunIsRead(data: seq<byte>, bytes: nat, i: nat)
    requires i < |Lines(data)| && Begin(Lines(data), i) < bytes
    ensures i < ReadCount(Lines(data), bytes)
  {
    ReadExactly(Lines(data), bytes, i);
  }

  // ---- Which lines are kept

  /** line.find(key) != string::npos. */
  predicate Contains(line: seq<byte>, key: seq<byte>) {
    key <= line || (line != [] && Contains(line[1..], key))
  }

  lemma {:induction false} ContainsMeans(line: seq<byte>, key: seq<byte>)
    ensures Contains(line, key) <==> exists i :: 0 <= i <= |line| && key <= line[i..]
  {
    if key <= line {
      assert key <= line[0..];
    } else if line != [] {
      ContainsMeans(line[1..], key);
      if Contains(line[1..], key) {
        var i :| 0 <= i <= |line[1..]| && key <= line[1..][i..];
        assert line[1..][i..] == line[i + 1..];
      }
      if i :| 0 <= i <= |line| && key <= line[i..] {
        assert line[0..] == line;
        assert line[1..][i - 1..] == line[i..];
      }
    }
  }

  function Kept(lines: seq<seq<byte>>, key: seq<byte>): (kept: seq<seq<byte>>)
    ensures |kept| <= |lines|
    ensures NoNewlines(lines) ==> NoNewlines(kept)
  {
    if lines == [] then []
    else
      var rest := Kept(lines[1..], key);
      if Contains(lines[0], key) then [lines[0]] + rest else rest
  }

  // ---- The loop

  /** The file from an offset on; nothing past its end. */
  function From(file: seq<byte>, pos: nat): seq<byte> {
    if pos <= |file| then file[pos..] else []
  }

  /** The first line is the only stretch without a newline that ends at one, or at the text's end. */
  lemma FirstLineIs(data: seq<byte>, n: nat)
    requires n <= |data| && (n < |data| ==> data[n] == NEWLINE)
    requires forall k :: 0 <= k < n ==> data[k] != NEWLINE
    ensures FirstLine(data) == data[..n]
  {
    FirstLineEnds(data);
    var line := FirstLine(data);
    assert line == data[..|line|];
  }

  /** getline on a file. */
  method GetLine(file: seq<byte>, pos: nat) returns (ok: bool, line: seq<byte>, next: nat)
    ensures ok <==> From(file, pos) != []
    ensures ok ==> line == FirstLine(From(file, pos)) && From(file, next) == AfterLine(From(file, pos))
  {
    ok, line, next := pos < |file|, [], pos;
    if ok {
      ghost var data := file[pos..];
      var i := pos;
      while i < |file| && file[i] != NEWLINE
        invariant pos <= i <= |file|
        invariant forall k :: 0 <= k < i - pos ==> data[k] != NEWLINE
      {
        i := i + 1;
      }
      FirstLineIs(data, i - pos);
      line := file[pos..i];
      next := i + 1;
      assert line == data[..i - pos];
      assert i < |file| ==> file[next..] == data[i - pos + 1..];
    }
  }

  lemma {:induction false} UnlinesSplits(a: seq<seq<byte>>, b: seq<seq<byte>>)
    ensures Unlines(a + b) == Unlines(a) + Unlines(b)
  {
    if a == [] {
      assert a + b == b;
    } else {
      assert (a + b)[1..] == a[1..] + b;
      UnlinesSplits(a[1..], b);
    }
  }

  lemma {:induction false} KeptSplits(a: seq<seq<byte>>, b: seq<seq<byte>>, key: seq<byte>)
    ensures Kept(a + b, key) == Kept(a, key) + Kept(b, key)
  {
    if a == [] {
      assert a + b == b;
    } else {
      assert (a + b)[1..] == a[1..] + b;
      KeptSplits(a[1..], b, key);
    }
  }

  /** out is what the lines at the given indices say: exactly those with the key, each once, in order. */
  ghost predicate Selects(at: seq<nat>, lines: seq<seq<byte>>, key: seq<byte>, out: seq<seq<byte>>) {
    && |at| == |out|
    && (forall j :: 0 <= j < |at| ==> at[j] < |lines| && out[j] == lines[at[j]] && Contains(lines[at[j]], key))
    && (forall j, k :: 0 <= j < k < |at| ==> at[j] < at[k])
    && (forall i: nat :: i < |lines| && Contains(lines[i], key) ==> i in at)
  }

  lemma SelectsOneMore(at: seq<nat>, lines: seq<seq<byte>>, key: seq<byte>, out: seq<seq<byte>>, line: seq<byte>)
    requires Selects(at, lines, key, out)
    ensures if Contains(line, key) then Selects(at + [|lines|], lines + [line], key, out + [line])
            else Selects(at, lines + [line], key, out)
  {
    var more := lines + [line];
    forall i: nat | i < |more| && Contains(more[i], key) && i < |lines|
      ensures i in at
    {
      assert more[i] == lines[i];
    }
  }

  lemma {:induction false} KeptSelects(lines: seq<seq<byte>>, key: seq<byte>) returns (at: seq<nat>)
    ensures Selects(at, lines, key, Kept(lines, key))
  {
    if lines == [] {
      at := [];
    } else {
      var front, last := lines[..|lines| - 1], lines[|lines| - 1];
      at := KeptSelects(front, key);
      SelectsOneMore(at, front, key, Kept(front, key), last);
      assert lines == front + [last];
      KeptOneMore(front, last, key);
      if Contains(last, key) {
        at := at + [|front|];
      }
    }
  }

  lemma KeptOneMore(lines: seq<seq<byte>>, line: seq<byte>, key: seq<byte>)
    ensures Kept(lines + [line], key) == if Contains(line, key) then Kept(lines, key) + [line] else Kept(lines, key)
  {
    KeptSplits(lines, [line], key);
    assert Kept([line], key) == if Contains(line, key) then [line] else [];
    assert Kept(lines, key) + [] == Kept(lines, key);
  }

  /** Soundness: read line by line, the output is the lines that were read and contain the key, each as often as
      it was read, in their order, and nothing else. */
  lemma OutputIsKeptLines(data: seq<byte>, bytes: nat, key: seq<byte>) returns (at: seq<nat>)
    ensures var read := LinesRead(Lines(data), bytes);
            Selects(at, read, key, Lines(Unlines(Kept(read, key))))
  {
    var read := LinesRead(Lines(data), bytes);
    LinesHaveNoNewline(data);
    LinesOfUnlines(Kept(read, key));
    at := KeptSelects(read, key);
  }

  /** What one more line adds to the output. */
  lemma OneMoreLine(done: seq<seq<byte>>, line: seq<byte>, key: seq<byte>)
    ensures var kept := Kept(done, key);
            && Kept(done + [line], key) == (if Contains(line, key) then kept + [line] else kept)
            && Unlines(kept + [line]) == Unlines(kept) + (line + [NEWLINE])
  {
    KeptOneMore(done, line, key);
    UnlinesSplits(Kept(done, key), [line]);
    assert line + [NEWLINE] + [] == line + [NEWLINE];
  }

  /** One line more, to the response if it has the key. */
  method Emit(line: seq<byte>, key: seq<byte>, response: seq<byte>, total: nat, ghost done: seq<seq<byte>>)
    returns (response': seq<byte>, total': nat)
    requires response == Unlines(Kept(done, key)) && total == |Kept(done, key)|
    ensures response' == Unlines(Kept(done + [line], key)) && total' == |Kept(done + [line], key)|
  {
    OneMoreLine(done, line, key);
    response', total' := response, total;
    if Contains(line, key) {
      response' := response + (line + [NEWLINE]);
      total' := total + 1;
    }
  }

  /** Reading line k, when text is what the file still holds. */
  lemma Advance(lines: seq<seq<byte>>, k: nat, text: seq<byte>, left: nat)
    requires k <= |lines| && lines[k..] == Lines(text) && text != []
    ensures k < |lines| && lines[k] == FirstLine(text) && lines[k + 1..] == Lines(AfterLine(text))
    ensures lines[..k + 1] == lines[..k] + [FirstLine(text)]
    ensures ReadCount(lines[k..], left) ==
            if left <= |FirstLine(text)| then 1 else 1 + ReadCount(lines[k + 1..], left - |FirstLine(text)|)
  {
    NextLine(lines[k..], text, left);
    assert lines[k..][0] == lines[k] && lines[k..][1..] == lines[k + 1..];
  }

  /** The window of the log that starts at an offset, line by line. */
  method FilterWindow(file: seq<byte>, start: nat, bytes: nat, key: seq<byte>) returns (response: seq<byte>, total: nat)
    ensures var kept := Kept(LinesRead(Lines(From(file, start)), bytes), key);
            response == Unlines(kept) && total == |kept|
  {
    var pos, readBytes := start, 0;
    response, total := [], 0;
    ghost var lines, text, k := Lines(From(file, start)), From(file, start), 0;
    while true
      invariant text == From(file, pos) && k <= |lines| && lines[k..] == Lines(text)
      invariant readBytes == 0 || readBytes < bytes
      invariant ReadCount(lines, bytes) == k + ReadCount(lines[k..], bytes - readBytes)
      invariant response == Unlines(Kept(lines[..k], key)) && total == |Kept(lines[..k], key)|
      decreases |text|
    {
      var ok, line, next := GetLine(file, pos);
      if !ok {
        break;
      }
      response, total := Emit(line, key, response, total, lines[..k]);
      Advance(lines, k, text, bytes - readBytes);
      k, text := k + 1, AfterLine(text);
      readBytes := readBytes + |line|;
      pos := next;
      if readBytes >= bytes {
        break;
      }
    }
    assert k == ReadCount(lines, bytes);
  }

  // ---- The response, in terms of the window's offsets

  /** Which lines of the log, from the start offset on, a window of so many bytes answers with: those that have the
      key and are the first, or have lines shorter than the window before them. at lists them. */
  ghost predicate AnswersWith(at: seq<nat>, lines: seq<seq<byte>>, bytes: nat, key: seq<byte>, out: seq<seq<byte>>) {
    && |at| == |out|
    && (forall j :: 0 <= j < |at| ==> at[j] < |lines| && out[j] == lines[at[j]])
    && (forall j, k :: 0 <= j < k < |at| ==> at[j] < at[k])
    && (forall i: nat {:trigger i in at} ::
          i < |lines| ==> (i in at <==> Contains(lines[i], key) && (i == 0 || Total(lines[..i]) < bytes)))
  }

  /** The response, read line by line, is those lines, and each of them ends in a newline. */
  ghost predicate Filtered(log: seq<byte>, start: nat, bytes: nat, key: seq<byte>, response: seq<byte>) {
    && response == Unlines(Lines(response))
    && exists at :: AnswersWith(at, Lines(From(log, start)), bytes, key, Lines(response))
  }

  lemma SelectedAnswers(at: seq<nat>, lines: seq<seq<byte>>, bytes: nat, key: seq<byte>, out: seq<seq<byte>>)
    requires Selects(at, LinesRead(lines, bytes), key, out)
    ensures AnswersWith(at, lines, bytes, key, out)
  {
    var read := LinesRead(lines, bytes);
    forall i: nat | i < |lines|
      ensures i in at <==> Contains(lines[i], key) && (i == 0 || Total(lines[..i]) < bytes)
    {
      ReadExactly(lines, bytes, i);
      if i < |read| && Contains(read[i], key) {
        assert i in at;
      }
      if i in at {
        var j :| 0 <= j < |at| && at[j] == i;
        assert i < |read| && Contains(read[i], key);
      }
    }
  }

  lemma KeptIsFiltered(log: seq<byte>, start: nat, bytes: nat, key: seq<byte>) returns (kept: seq<seq<byte>>)
    ensures kept == Kept(LinesRead(Lines(From(log, start)), bytes), key)
    ensures Lines(Unlines(kept)) == kept && Filtered(log, start, bytes, key, Unlines(kept))
  {
    var data := From(log, start);
    LinesHaveNoNewline(data);
    kept := Kept(LinesRead(Lines(data), bytes), key);
    LinesOfUnlines(kept);
    var at := OutputIsKeptLines(data, bytes, key);
    SelectedAnswers(at, Lines(data), bytes, key, kept);
  }

  /** Every line with the key that begins before the window's end is in the response. */
  ghost predicate HasBegun(log: seq<byte>, start: nat, end: nat, key: seq<byte>, response: seq<byte>) {
    var lines := Lines(From(log, start));
    forall i: nat {:trigger Begin(lines, i)} ::
      i < |lines| && start + Begin(lines, i) < end && Contains(lines[i], key) ==> lines[i] in Lines(response)
  }

  lemma FilteredHasBegun(log: seq<byte>, start: nat, end: nat, key: seq<byte>, response: seq<byte>)
    requires start <= end && Filtered(log, start, end - start, key, response)
    ensures HasBegun(log, start, end, key, response)
  {
    var lines := Lines(From(log, start));
    var at :| AnswersWith(at, lines, end - start, key, Lines(response));
    forall i: nat | i < |lines| && start + Begin(lines, i) < end && Contains(lines[i], key)
      ensures lines[i] in Lines(response)
    {
      assert i in at;
      var j :| 0 <= j < |at| && at[j] == i;
      assert Lines(response)[j] == lines[i];
    }
  }

  lemma WindowIsFiltered(log: seq<byte>, start: nat, end: nat, key: seq<byte>)
    ensures var kept := Kept(LinesRead(Lines(From(log, start)), WindowBytes(start, end)), key);
            && Lines(Unlines(kept)) == kept
            && (start <= end < UINT64_LIMIT ==>
                  && Filtered(log, start, end - start, key, Unlines(kept))
                  && HasBegun(log, start, end, key, Unlines(kept)))
            && (end < start < UINT64_LIMIT ==>
                  Filtered(log, start, UINT64_LIMIT - (start - end), key, Unlines(kept)))
  {
    var kept := KeptIsFiltered(log, start, WindowBytes(start, end), key);
    if start <= end < UINT64_LIMIT {
      FilteredHasBegun(log, start, end, key, Unlines(kept));
    }
  }

  /** filter_and_dump_log, for all offsets of 64 bits: the window is [start, end), or wraps. */
  method FilterLog(file: seq<byte>, start: nat, end: nat, key: seq<byte>) returns (response: seq<byte>, total: nat)
    ensures var read := LinesRead(Lines(From(file, start)), WindowBytes(start, end));
            response == Unlines(Kept(read, key)) && total == |Kept(read, key)|
    ensures start <= end < UINT64_LIMIT ==>
              Filtered(file, start, end - start, key, response) && HasBegun(file, start, end, key, response)
    ensures end < start < UINT64_LIMIT ==> Filtered(file, start, UINT64_LIMIT - (start - end), key, response)
    ensures total == |Lines(response)|
  {
    var bytes: nat := WindowBytes(start, end);
    response, total := FilterWindow(file, start, bytes, key);
    WindowIsFiltered(file, start, end, key);
  }
}
