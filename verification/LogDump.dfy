/** dump_log: the log's bytes from the start offset on, read in chunks and trimmed of NULs, as the response. */
module LogDump {
  import opened Bytes

  /** Larger windows are refused. */
  const LIMIT: nat := 100 * 1024 * 1024

  /** The bytes of s that are not NUL, in order. */
  function NonNul(s: seq<byte>): (t: seq<byte>)
    ensures |t| <= |s|
  {
    if s == [] then []
    else NonNul(s[..|s| - 1]) + if s[|s| - 1] == NUL then [] else [s[|s| - 1]]
  }

  lemma {:induction false} NonNulSplits(a: seq<byte>, b: seq<byte>)
    ensures NonNul(a + b) == NonNul(a) + NonNul(b)
  {
    if b == [] {
      assert a + b == a;
    } else {
      NonNulSplits(a, b[..|b| - 1]);
      LastOf(a, b);
    }
  }

  lemma {:induction false} NothingLeft(s: seq<byte>)
    ensures NonNul(s) == [] <==> forall i :: 0 <= i < |s| ==> s[i] == NUL
  {
    if s != [] {
      var front := s[..|s| - 1];
      NothingLeft(front);
      assert forall i :: 0 <= i < |front| ==> front[i] == s[i];
      if NonNul(s) == [] {
        assert NonNul(front) == [];
      }
    }
  }

  /** t is the bytes of s at the given positions: those of all bytes that are not NUL, in order. */
  ghost predicate Picks(at: seq<nat>, s: seq<byte>, t: seq<byte>) {
    && |at| == |t|
    && (forall j :: 0 <= j < |at| ==> at[j] < |s| && s[at[j]] != NUL && t[j] == s[at[j]])
    && (forall j, k :: 0 <= j < k < |at| ==> at[j] < at[k])
    && (forall i: nat {:trigger i in at} :: i < |s| && s[i] != NUL ==> i in at)
  }

  /** t is s without its NULs: every other byte is there, unchanged, once and in its order. */
  ghost predicate Trims(s: seq<byte>, t: seq<byte>) {
    exists at :: Picks(at, s, t)
  }

  lemma {:induction false} NonNulPicks(s: seq<byte>) returns (at: seq<nat>)
    ensures Picks(at, s, NonNul(s))
  {
    at := [];
    if s != [] {
      var k := |s| - 1;
      var front := s[..k];
      at := NonNulPicks(front);
      PickOneMore(at, front, NonNul(front), s[k]);
      assert front + [s[k]] == s;
      assert s[k] == NUL ==> NonNul(s) == NonNul(front);
      if s[k] != NUL {
        at := at + [k];
      }
    }
  }

  lemma PickOneMore(at: seq<nat>, s: seq<byte>, t: seq<byte>, b: byte)
    requires Picks(at, s, t)
    ensures if b == NUL then Picks(at, s + [b], t) else Picks(at + [|s|], s + [b], t + [b])
  {
    var more := s + [b];
    forall i: nat | i < |more| && more[i] != NUL && i < |s|
      ensures i in at
    {
      assert more[i] == s[i];
    }
  }

  lemma {:induction false} PicksIsNonNul(at: seq<nat>, s: seq<byte>, t: seq<byte>)
    requires Picks(at, s, t)
    ensures t == NonNul(s)
    decreases |s|
  {
    if s == [] {
      assert t == [];
    } else {
      var k := |s| - 1;
      if s[k] == NUL {
        assert forall j :: 0 <= j < |at| ==> at[j] < k;
        PicksIsNonNul(at, s[..k], t);
      } else {
        var m := |at| - 1;
        LastPick(at, s, t);
        PicksIsNonNul(at[..m], s[..k], t[..m]);
        assert t == t[..m] + [t[m]];
      }
    }
  }

  lemma LastPick(at: seq<nat>, s: seq<byte>, t: seq<byte>)
    requires Picks(at, s, t) && s != [] && s[|s| - 1] != NUL
    ensures at != [] && at[|at| - 1] == |s| - 1
    ensures Picks(at[..|at| - 1], s[..|s| - 1], t[..|t| - 1])
  {
    var k := |s| - 1;
    assert k in at;
    var m := |at| - 1;
    var front := s[..k];
    forall i: nat | i < |front| && front[i] != NUL
      ensures i in at[..m]
    {
      assert s[i] != NUL && i in at;
      var j :| 0 <= j < |at| && at[j] == i;
      assert at[..m][j] == i;
    }
  }

  /** There is one such t. */
  lemma TrimsExactly(s: seq<byte>, t: seq<byte>)
    ensures Trims(s, t) <==> t == NonNul(s)
  {
    var at := NonNulPicks(s);
    if at' :| Picks(at', s, t) {
      PicksIsNonNul(at', s, t);
    }
  }

  /** remove_null_chars. */
  method RemoveNullChars(tmp: array<byte>, trim: array<byte>, size: nat) returns (finalSize: nat)
    requires size <= tmp.Length && size <= trim.Length && tmp != trim
    modifies trim
    ensures finalSize <= size && trim[..finalSize] == NonNul(tmp[..size])
    ensures Trims(tmp[..size], trim[..finalSize])
    ensures trim[finalSize..] == old(trim[finalSize..])
  {
    finalSize := 0;
    for i := 0 to size
      invariant finalSize <= i && trim[..finalSize] == NonNul(tmp[..i])
      invariant forall k :: finalSize <= k < trim.Length ==> trim[k] == old(trim[k])
    {
      assert tmp[..i + 1][..i] == tmp[..i];
      if tmp[i] != NUL {
        ghost var kept := trim[..finalSize];
        trim[finalSize] := tmp[i];
        finalSize := finalSize + 1;
        assert trim[..finalSize] == kept + [tmp[i]];
      }
    }
    TrimsExactly(tmp[..size], trim[..finalSize]);
  }

  // ---- The chunk loop

  /** How much the i-th call of fread can deliver; nothing once the list ends. */
  function Most(most: seq<nat>, i: nat): nat {
    if i < |most| then most[i] else 0
  }

  /** What fread delivers at pos: no more than a chunk, than the file has left, or than this call can. */
  function ReadBytes(file: seq<byte>, pos: nat, most: nat): (n: nat)
    ensures n <= CHUNK && n <= most && (n == 0 || pos + n <= |file|)
  {
    if |file| <= pos then 0 else Min(CHUNK, Min(most, |file| - pos))
  }

  /** The buffer after a read: a short one leaves the end of it as it was. */
  function Filled(tmp: seq<byte>, file: seq<byte>, pos: nat, n: nat): (r: seq<byte>)
    requires |tmp| == CHUNK && n <= CHUNK && pos + n <= |file|
    ensures |r| == CHUNK
  {
    file[pos..pos + n] + tmp[n..]
  }

  /** The buffers that are trimmed for a window of bytes at pos, one for each read. */
  function Buffers(file: seq<byte>, pos: nat, bytes: nat, tmp: seq<byte>, most: seq<nat>, i: nat): seq<seq<byte>>
    requires |tmp| == CHUNK
    decreases bytes
  {
    var n := ReadBytes(file, pos, Most(most, i));
    if bytes == 0 || n == 0 then []
    else if bytes < n then [Filled(tmp, file, pos, n)]
    else [Filled(tmp, file, pos, n)] + Buffers(file, pos + n, bytes - n, Filled(tmp, file, pos, n), most, i + 1)
  }

  /** What is written for them. A whole buffer is trimmed, however much of it was read. */
  function TrimAll(buffers: seq<seq<byte>>): seq<byte> {
    if buffers == [] then []
    else TrimAll(buffers[..|buffers| - 1]) + NonNul(buffers[|buffers| - 1])
  }

  function Joined(buffers: seq<seq<byte>>): seq<byte> {
    if buffers == [] then [] else Joined(buffers[..|buffers| - 1]) + buffers[|buffers| - 1]
  }

  lemma {:induction false} TrimAllTrims(buffers: seq<seq<byte>>)
    ensures TrimAll(buffers) == NonNul(Joined(buffers)) && Trims(Joined(buffers), TrimAll(buffers))
  {
    if buffers != [] {
      var k := |buffers| - 1;
      TrimAllTrims(buffers[..k]);
      NonNulSplits(Joined(buffers[..k]), buffers[k]);
    }
    TrimsExactly(Joined(buffers), TrimAll(buffers));
  }

  /** A read of n bytes at an offset, over what the buffer held before: no more than a chunk, than this call can
      deliver or than the file has left, and no less than one of these. */
  ghost predicate Read(n: nat, at: nat, buffer: seq<byte>, before: seq<byte>, file: seq<byte>, most: nat) {
    && 0 < n <= CHUNK && n <= most && at + n <= |file|
    && (n == CHUNK || n == most || at + n == |file|)
    && |before| == CHUNK && buffer == file[at..at + n] + before[n..]
  }

  function Before(tmp: seq<byte>, buffers: seq<seq<byte>>, k: nat): seq<byte>
    requires k <= |buffers|
  {
    if k == 0 then tmp else buffers[k - 1]
  }

  /** The k-th of the reads that filled the buffers, from the i-th call on; at says where each began. */
  ghost predicate KthRead(at: seq<nat>, buffers: seq<seq<byte>>, file: seq<byte>, end: nat, tmp: seq<byte>,
                          most: seq<nat>, i: nat, k: nat)
    requires |at| == |buffers| + 1 && k < |buffers|
  {
    && at[k] < at[k + 1] && at[k] < end
    && Read(at[k + 1] - at[k], at[k], buffers[k], Before(tmp, buffers, k), file, Most(most, i + k))
  }

  /** Each begins within the window, where the one before it ended; there are no more once the window has been read,
      or nothing is delivered. */
  ghost predicate ReadBy(at: seq<nat>, buffers: seq<seq<byte>>, file: seq<byte>, pos: nat, end: nat, tmp: seq<byte>,
                         most: seq<nat>, i: nat)
  {
    && |at| == |buffers| + 1 && at[0] == pos
    && (forall k {:trigger KthRead(at, buffers, file, end, tmp, most, i, k)} ::
          0 <= k < |buffers| ==> KthRead(at, buffers, file, end, tmp, most, i, k))
    && (end <= at[|buffers|] || |file| <= at[|buffers|] || Most(most, i + |buffers|) == 0)
  }

  lemma LaterRead(at: seq<nat>, buffers: seq<seq<byte>>, file: seq<byte>, pos: nat, end: nat, tmp: seq<byte>,
                  most: seq<nat>, i: nat, first: seq<byte>, k: nat)
    requires |at| == |buffers| + 1 && k < |buffers| && KthRead(at, buffers, file, end, first, most, i + 1, k)
    ensures KthRead([pos] + at, [first] + buffers, file, end, tmp, most, i, k + 1)
  {
    assert Before(tmp, [first] + buffers, k + 1) == Before(first, buffers, k);
  }

  /** A first read, and those after it. */
  lemma ReadFirst(at: seq<nat>, buffers: seq<seq<byte>>, file: seq<byte>, pos: nat, end: nat, tmp: seq<byte>,
                  most: seq<nat>, i: nat, n: nat, first: seq<byte>)
    requires pos < end && Read(n, pos, first, tmp, file, Most(most, i))
    requires ReadBy(at, buffers, file, pos + n, end, first, most, i + 1)
    ensures ReadBy([pos] + at, [first] + buffers, file, pos, end, tmp, most, i)
  {
    forall k | 0 <= k < |buffers| + 1
      ensures KthRead([pos] + at, [first] + buffers, file, end, tmp, most, i, k)
    {
      if 0 < k {
        assert KthRead(at, buffers, file, end, first, most, i + 1, k - 1);
        LaterRead(at, buffers, file, pos, end, tmp, most, i, first, k - 1);
      }
    }
  }

  /** Which reads the loop makes, and what each leaves in the buffer that is then trimmed. */
  lemma {:induction false} BuffersMean(file: seq<byte>, pos: nat, bytes: nat, tmp: seq<byte>, most: seq<nat>, i: nat)
    returns (at: seq<nat>)
    requires |tmp| == CHUNK
    ensures ReadBy(at, Buffers(file, pos, bytes, tmp, most, i), file, pos, pos + bytes, tmp, most, i)
    decreases bytes
  {
    var n := ReadBytes(file, pos, Most(most, i));
    if bytes == 0 || n == 0 {
      at := [pos];
    } else {
      var first := Filled(tmp, file, pos, n);
      assert Read(n, pos, first, tmp, file, Most(most, i));
      if bytes < n {
        at := [pos] + [pos + n];
        ReadFirst([pos + n], [], file, pos, pos + bytes, tmp, most, i, n, first);
      } else {
        var rest := BuffersMean(file, pos + n, bytes - n, first, most, i + 1);
        ReadFirst(rest, Buffers(file, pos + n, bytes - n, first, most, i + 1),
                  file, pos, pos + bytes, tmp, most, i, n, first);
        at := [pos] + rest;
      }
    }
  }

  /** Read k, when the buffers from k on are those still to come. */
  lemma OneRead(file: seq<byte>, pos: nat, bytes: nat, tmp: seq<byte>, most: seq<nat>, k: nat,
                buffers: seq<seq<byte>>, n: nat)
    requires |tmp| == CHUNK && k <= |buffers| && buffers[k..] == Buffers(file, pos, bytes, tmp, most, k)
    requires 0 < bytes && n == ReadBytes(file, pos, Most(most, k)) && 0 < n
    ensures k < |buffers| && buffers[k] == Filled(tmp, file, pos, n)
    ensures bytes < n ==> |buffers| == k + 1
    ensures n <= bytes ==> buffers[k + 1..] == Buffers(file, pos + n, bytes - n, buffers[k], most, k + 1)
  {
    assert buffers[k..][0] == buffers[k] && buffers[k..][1..] == buffers[k + 1..];
  }

  lemma TrimOneMore(buffers: seq<seq<byte>>, k: nat)
    requires k < |buffers|
    ensures TrimAll(buffers[..k + 1]) == TrimAll(buffers[..k]) + NonNul(buffers[k])
  {
    assert buffers[..k + 1][..k] == buffers[..k];
  }

  lemma OneTurn(file: seq<byte>, pos: nat, bytes: nat, tmp: seq<byte>, most: seq<nat>, k: nat,
                buffers: seq<seq<byte>>, n: nat, out: seq<byte>)
    requires |tmp| == CHUNK && k <= |buffers| && buffers[k..] == Buffers(file, pos, bytes, tmp, most, k)
    requires 0 < bytes && n == ReadBytes(file, pos, Most(most, k)) && 0 < n
    requires out == TrimAll(buffers[..k])
    ensures k < |buffers| && buffers[k] == Filled(tmp, file, pos, n) && |buffers[k]| == CHUNK
    ensures bytes < n ==> |buffers| == k + 1
    ensures n <= bytes ==> buffers[k + 1..] == Buffers(file, pos + n, bytes - n, buffers[k], most, k + 1)
    ensures out + NonNul(buffers[k]) == TrimAll(buffers[..k + 1])
  {
    OneRead(file, pos, bytes, tmp, most, k, buffers, n);
    TrimOneMore(buffers, k);
  }

  lemma NoMoreReads(file: seq<byte>, pos: nat, bytes: nat, tmp: seq<byte>, most: seq<nat>, k: nat,
                    buffers: seq<seq<byte>>)
    requires |tmp| == CHUNK && k <= |buffers| && buffers[k..] == Buffers(file, pos, bytes, tmp, most, k)
    ensures bytes == 0 || ReadBytes(file, pos, Most(most, k)) == 0 ==> k == |buffers|
  {
  }

  /** The next chunk: read into tmpbuf, trimmed into trimbuf and handed to fwrite. */
  method NextChunk(file: seq<byte>, pos: nat, most: nat, tmpbuf: array<byte>, trimbuf: array<byte>)
    returns (readbytes: nat, written: seq<byte>)
    requires tmpbuf.Length == CHUNK && trimbuf.Length == CHUNK && tmpbuf != trimbuf
    modifies tmpbuf, trimbuf
    ensures readbytes == ReadBytes(file, pos, most)
    ensures if readbytes == 0 then tmpbuf[..] == old(tmpbuf[..]) && written == []
            else tmpbuf[..] == Filled(old(tmpbuf[..]), file, pos, readbytes) && written == NonNul(tmpbuf[..])
  {
    readbytes, written := ReadBytes(file, pos, most), [];
    if readbytes != 0 {
      CopyInto(tmpbuf, 0, file[pos..pos + readbytes]);
      var trimbytes := RemoveNullChars(tmpbuf, trimbuf, CHUNK);
      assert tmpbuf[..CHUNK] == tmpbuf[..];
      written := trimbuf[..trimbytes];
    }
  }

  /** malloc, with what it returns unset. */
  method Malloc(junk: seq<byte>) returns (buffer: array<byte>)
    ensures fresh(buffer) && buffer[..] == junk
  {
    buffer := new byte[|junk|](i requires 0 <= i < |junk| => junk[i]);
  }

  /** The chunk loop. junk is what malloc returned. */
  method DumpWindow(file: seq<byte>, start: nat, window: nat, junk: seq<byte>, most: seq<nat>)
    returns (out: seq<byte>, chunksRead: nat)
    requires |junk| == CHUNK
    ensures var buffers := Buffers(file, start, window, junk, most, 0);
            out == TrimAll(buffers) && chunksRead == |buffers|
  {
    var tmpbuf := Malloc(junk);
    var trimbuf := Malloc(junk);
    var bytes, pos := window, start;
    out, chunksRead := [], 0;
    ghost var buffers, tmp := Buffers(file, start, window, junk, most, 0), junk;
    NoMoreReads(file, pos, bytes, tmp, most, 0, buffers);
    while bytes != 0
      invariant |tmp| == CHUNK && tmpbuf[..] == tmp
      invariant chunksRead <= |buffers| && buffers[chunksRead..] == Buffers(file, pos, bytes, tmp, most, chunksRead)
      invariant out == TrimAll(buffers[..chunksRead]) && (bytes == 0 ==> chunksRead == |buffers|)
    {
      NoMoreReads(file, pos, bytes, tmp, most, chunksRead, buffers);
      var readbytes, written := NextChunk(file, pos, Most(most, chunksRead), tmpbuf, trimbuf);
      if readbytes == 0 {
        break;
      }
      OneTurn(file, pos, bytes, tmp, most, chunksRead, buffers, readbytes, out);
      tmp := buffers[chunksRead];
      out := out + written;
      pos := pos + readbytes;
      chunksRead := chunksRead + 1;
      if readbytes > bytes {
        bytes := 0;
        break;
      }
      bytes := bytes - readbytes;
      NoMoreReads(file, pos, bytes, tmp, most, chunksRead, buffers);
    }
    AllOf(buffers);
  }

  lemma AllOf(buffers: seq<seq<byte>>)
    ensures buffers[..|buffers|] == buffers
  {
  }

  /** dump_log. None when the window is refused and the response file is left alone. */
  method DumpLog(file: seq<byte>, start: nat, end: nat, junk: seq<byte>, most: seq<nat>)
    returns (response: Option<seq<byte>>, chunksRead: nat)
    requires |junk| == CHUNK
    ensures response.None? <==> WindowBytes(start, end) >= LIMIT
    ensures response.Some? ==>
              var buffers := Buffers(file, start, WindowBytes(start, end), junk, most, 0);
              && response.value == TrimAll(buffers) && chunksRead == |buffers|
              && Trims(Joined(buffers), response.value)
  {
    var bytes := WindowBytes(start, end);
    if bytes >= LIMIT {
      return None, 0;
    }
    var out;
    out, chunksRead := DumpWindow(file, start, bytes, junk, most);
    TrimAllTrims(Buffers(file, start, bytes, junk, most, 0));
    response := Some(out);
  }

  // ---- Chunked trim and whole trim

  /** Enough calls for the chunks, each able to deliver a whole one. */
  ghost predicate FullReads(most: seq<nat>, chunks: nat) {
    chunks <= |most| && forall i :: 0 <= i < chunks ==> CHUNK <= most[i]
  }

  /** The bytes of so many chunks. */
  function Chunks(k: nat): nat {
    if k == 0 then 0 else CHUNK + Chunks(k - 1)
  }

  lemma {:induction false} ChunksIs(k: nat)
    ensures Chunks(k) == CHUNK * k
  {
    if k != 0 {
      ChunksIs(k - 1);
    }
  }

  /** The file from pos on, cut into chunks. */
  function Cut(file: seq<byte>, pos: nat, k: nat): (cut: seq<seq<byte>>)
    requires pos + Chunks(k) <= |file|
    ensures |cut| == k
  {
    if k == 0 then [] else Cut(file, pos, k - 1) + [file[pos + Chunks(k - 1)..pos + Chunks(k)]]
  }

  lemma {:induction false} CutFirst(file: seq<byte>, pos: nat, k: nat)
    requires 0 < k && pos + Chunks(k) <= |file|
    ensures pos + CHUNK + Chunks(k - 1) <= |file|
    ensures Cut(file, pos, k) == [file[pos..pos + CHUNK]] + Cut(file, pos + CHUNK, k - 1)
  {
    if 1 < k {
      CutFirst(file, pos, k - 1);
    }
  }

  lemma NonNulStretches(file: seq<byte>, lo: nat, mid: nat, hi: nat)
    requires lo <= mid <= hi <= |file|
    ensures NonNul(file[lo..hi]) == NonNul(file[lo..mid]) + NonNul(file[mid..hi])
  {
    assert file[lo..hi] == file[lo..mid] + file[mid..hi];
    NonNulSplits(file[lo..mid], file[mid..hi]);
  }

  lemma TrimLast(file: seq<byte>, pos: nat, k: nat)
    requires 0 < k && pos + Chunks(k) <= |file|
    ensures TrimAll(Cut(file, pos, k)) ==
            TrimAll(Cut(file, pos, k - 1)) + NonNul(file[pos + Chunks(k - 1)..pos + Chunks(k)])
  {
    var cut := Cut(file, pos, k);
    TrimOneMore(cut, k - 1);
    assert cut[..k - 1] == Cut(file, pos, k - 1) && cut[..k] == cut;
  }

  /** Trimming the chunks is trimming the file. */
  lemma {:induction false} TrimCut(file: seq<byte>, pos: nat, k: nat)
    requires pos + Chunks(k) <= |file|
    ensures TrimAll(Cut(file, pos, k)) == NonNul(file[pos..pos + Chunks(k)])
  {
    if k == 0 {
      assert file[pos..pos] == [];
    } else {
      TrimCut(file, pos, k - 1);
      TrimLast(file, pos, k);
      NonNulStretches(file, pos, pos + Chunks(k - 1), pos + Chunks(k));
    }
  }

  /** With full reads, the buffers are whole chunks of the file, as many as hold the window. */
  lemma {:induction false} FullReadsCut(file: seq<byte>, pos: nat, bytes: nat, chunks: nat, tmp: seq<byte>,
                                        most: seq<nat>, i: nat)
    requires |tmp| == CHUNK && FullReads(most, i + chunks)
    requires bytes <= Chunks(chunks) < bytes + CHUNK && pos + Chunks(chunks) <= |file|
    ensures Buffers(file, pos, bytes, tmp, most, i) == Cut(file, pos, chunks)
    decreases chunks
  {
    if bytes != 0 {
      assert FullReads(most, i + 1);
      FullRead(file, pos, tmp, most, i);
      CutFirst(file, pos, chunks);
      if bytes < CHUNK {
        assert chunks == 1;
      } else {
        FullReadsCut(file, pos + CHUNK, bytes - CHUNK, chunks - 1, file[pos..pos + CHUNK], most, i + 1);
      }
    }
  }

  lemma FullRead(file: seq<byte>, pos: nat, tmp: seq<byte>, most: seq<nat>, i: nat)
    requires |tmp| == CHUNK && FullReads(most, i + 1) && pos + CHUNK <= |file|
    ensures ReadBytes(file, pos, Most(most, i)) == CHUNK
    ensures Filled(tmp, file, pos, CHUNK) == file[pos..pos + CHUNK]
  {
  }

  lemma SmallWindow(start: nat, end: nat)
    requires start <= end < start + LIMIT
    ensures WindowBytes(start, end) == end - start
  {
  }

  lemma TrimToWindow(file: seq<byte>, start: nat, end: nat, last: nat)
    requires start <= end <= last <= |file|
    ensures NonNul(file[start..last]) == NonNul(file[start..end]) <==> forall i :: end <= i < last ==> file[i] == NUL
  {
    var beyond := file[end..last];
    NonNulStretches(file, start, end, last);
    NothingLeft(beyond);
    assert NonNul(file[start..end]) + [] == NonNul(file[start..end]);
    assert forall i :: end <= i < last ==> file[i] == beyond[i - end];
    assert forall i :: 0 <= i < |beyond| ==> beyond[i] == file[end + i];
  }

  lemma TrimOfChunks(file: seq<byte>, start: nat, end: nat, chunks: nat, junk: seq<byte>, most: seq<nat>)
    requires |junk| == CHUNK && FullReads(most, chunks) && start <= end
    requires end - start <= Chunks(chunks) < end - start + CHUNK && start + Chunks(chunks) <= |file|
    ensures var buffers := Buffers(file, start, end - start, junk, most, 0);
            && |buffers| == chunks
            && (TrimAll(buffers) == NonNul(file[start..end]) <==>
                forall i :: end <= i < start + Chunks(chunks) ==> file[i] == NUL)
  {
    FullReadsCut(file, start, end - start, chunks, junk, most, 0);
    TrimCut(file, start, chunks);
    TrimToWindow(file, start, end, start + Chunks(chunks));
  }

  /** Chunked trim equals whole trim: with full reads, the dump of a window is its non-NUL bytes, after one
      read for each chunk begun, exactly when the log is NUL from the window's end to the end of its last
      chunk. */
  lemma ChunkedTrimIsWholeTrim(file: seq<byte>, start: nat, end: nat, junk: seq<byte>, most: seq<nat>)
    requires |junk| == CHUNK && start <= end < start + LIMIT
    requires FullReads(most, CeilDiv(end - start, CHUNK))
    requires start + CHUNK * CeilDiv(end - start, CHUNK) <= |file|
    ensures var chunks := CeilDiv(end - start, CHUNK);
            var buffers := Buffers(file, start, WindowBytes(start, end), junk, most, 0);
            && end <= start + CHUNK * chunks
            && |buffers| == chunks
            && (Trims(file[start..end], TrimAll(buffers)) <==>
                forall i :: end <= i < start + CHUNK * chunks ==> file[i] == NUL)
  {
    var chunks := CeilDiv(end - start, CHUNK);
    SmallWindow(start, end);
    TrimsExactly(file[start..end], TrimAll(Buffers(file, start, end - start, junk, most, 0)));
    ChunksIs(chunks);
    TrimOfChunks(file, start, end, chunks, junk, most);
  }

  /** A short read at the end of the file: what the previous chunk left in the buffer is written once more. */
  lemma ShortReadRepeats(file: seq<byte>, pos: nat, bytes: nat, tmp: seq<byte>, most: seq<nat>, i: nat)
    requires |tmp| == CHUNK && FullReads(most, i + 1) && pos < |file| < pos + CHUNK && |file| - pos <= bytes
    ensures var buffers := Buffers(file, pos, bytes, tmp, most, i);
            Trims(file[pos..] + tmp[|file| - pos..], TrimAll(buffers))
  {
    var n := |file| - pos;
    var last := Filled(tmp, file, pos, n);
    var rest := Buffers(file, pos + n, bytes - n, last, most, i + 1);
    assert rest == [];
    assert Buffers(file, pos, bytes, tmp, most, i) == [last] + rest == [last];
    var one := [last];
    assert one[..1] == one && one[..0] == [];
    TrimOneMore(one, 0);
    assert last == file[pos..] + tmp[n..];
    TrimsExactly(last, TrimAll(one));
  }
}
