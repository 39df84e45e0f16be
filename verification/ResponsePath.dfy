/** The bytes of a response: written by the device library in padded 128 KB blocks, read back by the host
    module sector by sector. */
module ResponsePath {
  import opened Bytes

  function Zeros(n: nat): (z: seq<byte>)
    ensures |z| == n && forall i :: 0 <= i < n ==> z[i] == 0
  {
    if n == 0 then [] else Zeros(n - 1) + [0]
  }

  /** What follows a response in its last block: the buffer's initial zeros when that is the only block,
      the end of the block before it otherwise. */
  function Padding(response: seq<byte>): (p: seq<byte>)
    ensures (|response| + |p|) % CHUNK == 0 && |p| < CHUNK
  {
    var n := |response|;
    var part := n % CHUNK;
    if part == 0 then []
    else if n < CHUNK then Zeros(CHUNK - part)
    else response[n - CHUNK..n - part]
  }

  lemma AppendedWrite(file: seq<byte>, a: seq<byte>, b: seq<byte>)
    ensures WriteAt(WriteAt(file, 0, a), |a|, b) == WriteAt(file, 0, a + b)
  {
  }

  /** What commit_response's buffer holds once done bytes, in whole blocks, have been written. */
  function Buffered(response: seq<byte>, done: nat): (b: seq<byte>)
    requires done <= |response| && done % CHUNK == 0
    ensures |b| == CHUNK
  {
    if done == 0 then Zeros(CHUNK) else response[done - CHUNK..done]
  }

  /** The block written after done bytes. */
  function Block(response: seq<byte>, done: nat): (b: seq<byte>)
    requires done <= |response| && done % CHUNK == 0
    ensures |b| == CHUNK
  {
    Overwrite(Buffered(response, done), 0, response[done..done + Min(CHUNK, |response| - done)])
  }

  lemma WholeBlock(response: seq<byte>, done: nat)
    requires done + CHUNK <= |response| && done % CHUNK == 0
    ensures Block(response, done) == response[done..done + CHUNK]
    ensures response[..done] + Block(response, done) == response[..done + CHUNK]
  {
    assert Block(response, done) == response[done..done + CHUNK];
  }

  lemma LastBlock(response: seq<byte>, done: nat)
    requires done < |response| < done + CHUNK && done % CHUNK == 0
    ensures response[..done] + Block(response, done) == response + Padding(response)
  {
    var part := |response| - done;
    DivModUnique(|response|, CHUNK, done / CHUNK, part);
    StaleIsPadding(response, done, part);
    Rejoin(response, done, Padding(response));
  }

  lemma Rejoin(s: seq<byte>, k: nat, t: seq<byte>)
    requires k <= |s|
    ensures s[..k] + (s[k..] + t) == s + t
  {
  }

  lemma StaleIsPadding(response: seq<byte>, done: nat, part: nat)
    requires 0 < part < CHUNK && |response| == done + part && done % CHUNK == 0 && |response| % CHUNK == part
    ensures Block(response, done) == response[done..] + Padding(response)
  {
    var stale := Buffered(response, done);
    assert Block(response, done) == response[done..] + stale[part..];
    if 0 < done {
      DoneIsWhole(done);
      assert stale[part..] == response[done - CHUNK + part..done];
    }
  }

  lemma NextBlock(response: seq<byte>, done: nat)
    requires done < |response| && done % CHUNK == 0
    ensures response[..done] + Block(response, done) ==
            if done + CHUNK <= |response| then response[..done + CHUNK] else response + Padding(response)
    ensures done + CHUNK <= |response| ==> Block(response, done) == Buffered(response, done + CHUNK)
  {
    if done + CHUNK <= |response| {
      WholeBlock(response, done);
    } else {
      LastBlock(response, done);
    }
  }

  lemma DoneIsWhole(done: nat)
    requires 0 < done && done % CHUNK == 0
    ensures CHUNK <= done
  {
  }

  /** What commit_response has written after done bytes, in whole blocks or all of them. */
  function WrittenAfter(response: seq<byte>, done: nat): seq<byte>
    requires done <= |response|
  {
    if done < |response| then response[..done] else response + Padding(response)
  }

  lemma BlockWritten(response: seq<byte>, done: nat)
    requires done < |response| && done % CHUNK == 0
    ensures response[..done] + Block(response, done) ==
            WrittenAfter(response, done + Min(CHUNK, |response| - done))
    ensures done + CHUNK <= |response| ==> Block(response, done) == Buffered(response, done + CHUNK)
  {
    NextBlock(response, done);
    if done + CHUNK == |response| {
      assert response[..done + CHUNK] == response == response + Padding(response);
    }
  }

  /** One block: read into readbuf over what it held, and written out whole. */
  method CommitBlock(response: seq<byte>, done: nat, bytes: nat, readbuf: array<byte>, file: seq<byte>, pos: nat,
                     ghost start: seq<byte>) returns (file': seq<byte>)
    requires done < |response| && done % CHUNK == 0 && bytes == Min(CHUNK, |response| - done)
    requires readbuf.Length == CHUNK && readbuf[..] == Buffered(response, done)
    requires pos == done <= |file| && file == WriteAt(start, 0, response[..done])
    modifies readbuf
    ensures file' == WriteAt(start, 0, WrittenAfter(response, done + bytes)) && pos + CHUNK <= |file'|
    ensures bytes == CHUNK ==> readbuf[..] == Buffered(response, done + CHUNK)
  {
    CopyInto(readbuf, 0, response[done..done + bytes]);
    ghost var block := Block(response, done);
    assert readbuf[..] == block;
    file' := WriteAt(file, pos, readbuf[..]);
    BlockWritten(response, done);
    AppendedWrite(start, response[..done], block);
  }

  lemma WholeOrPart(done: nat, bytes: nat)
    requires done % CHUNK == 0 && 0 < bytes <= CHUNK
    ensures (done + bytes) % CHUNK == 0 <==> bytes == CHUNK
  {
  }

  lemma AllWritten(response: seq<byte>)
    ensures WrittenAfter(response, |response|) == response + Padding(response)
  {
  }

  lemma NothingWritten(response: seq<byte>, file: seq<byte>)
    ensures WriteAt(file, 0, WrittenAfter(response, 0)) == file
  {
  }

  /** The byte behind the response in its last block: a zero in a response of less than a block, the byte a block
      before it in a longer one. */
  lemma PaddingIs(response: seq<byte>, file: seq<byte>, j: nat)
    requires |response| <= j < |response| + |Padding(response)|
    ensures j < |WriteAt(file, 0, response + Padding(response))|
    ensures WriteAt(file, 0, response + Padding(response))[j] ==
            if |response| < CHUNK then NUL else response[j - CHUNK]
  {
    var padded := response + Padding(response);
    assert WriteAt(file, 0, padded)[0..|padded|][j] == padded[j];
  }

  /** malloc and memset. */
  method Cleared() returns (buffer: array<byte>)
    ensures fresh(buffer) && buffer.Length == CHUNK && buffer[..] == Zeros(CHUNK)
  {
    buffer := new byte[CHUNK](_ => 0);
    assert buffer[..] == Zeros(CHUNK);
  }

  /** commit_response, from the temporary response file to the response unit's file. */
  method CommitResponse(response: seq<byte>, file: seq<byte>) returns (file': seq<byte>, byteCount: nat)
    ensures byteCount == |response|
    ensures file' == WriteAt(file, 0, response + Padding(response))
  {
    var readbuf := Cleared();
    file', byteCount := file, 0;
    var pos := 0;
    NothingWritten(response, file);
    while true
      invariant byteCount <= |response| && (byteCount < |response| ==> byteCount % CHUNK == 0)
      invariant file' == WriteAt(file, 0, WrittenAfter(response, byteCount))
      invariant byteCount < |response| ==> pos == byteCount <= |file'| && readbuf[..] == Buffered(response, byteCount)
      decreases |response| - byteCount
    {
      var bytes := Min(CHUNK, |response| - byteCount);
      if bytes <= 0 {
        break;
      }
      WholeOrPart(byteCount, bytes);
      file' := CommitBlock(response, byteCount, bytes, readbuf, file', pos, file);
      pos := pos + CHUNK;
      byteCount := byteCount + bytes;
    }
    AllWritten(response);
  }

  function SectorsFor(n: nat): (k: nat)
    ensures 1 <= k && n <= SECTOR * k && SECTOR * k <= n + SECTOR
  {
    if n == 0 then 1 else CeilDiv(n, SECTOR)
  }

  lemma SectorsUpTo(n: nat, i: nat)
    requires i == 0 || SECTOR * i < n
    ensures i < SectorsFor(n)
    ensures n - SECTOR * i <= SECTOR <==> SectorsFor(n) == i + 1
  {
    if 0 < n {
      CeilDivIs(n, SECTOR, i);
    }
  }

  lemma AppendedOverwrite(s: seq<byte>, a: seq<byte>, b: seq<byte>)
    requires |a| + |b| <= |s|
    ensures Overwrite(Overwrite(s, 0, a), |a|, b) == Overwrite(s, 0, a + b)
  {
  }

  /** Every one of the first k sector reads succeeds. */
  ghost predicate ReadsSucceed(ok: nat -> bool, k: nat) {
    forall i: nat :: i < k ==> ok(i)
  }

  /** One sector read, into the page and offset that read bytes fall in. */
  method ReadSector(device: seq<byte>, sector: nat, data: array<byte>, read: nat, ghost start: seq<byte>)
    requires read == SECTOR * sector && read + SECTOR <= |device| && read + SECTOR <= data.Length == |start|
    requires data[..] == Overwrite(start, 0, device[..read])
    modifies data
    ensures data[..] == Overwrite(start, 0, device[..read + SECTOR])
  {
    var page, offset := PAGE * (read / PAGE), read % PAGE;
    CopyInto(data, page + offset, device[SECTOR * sector..SECTOR * sector + SECTOR]);
    AppendedOverwrite(start, device[..read], device[read..read + SECTOR]);
    assert device[..read] + device[read..read + SECTOR] == device[..read + SECTOR];
  }

  /** The loop goes on exactly as long as sectors are missing, and stays in the buffer. */
  lemma SectorInBounds(n: nat, i: nat)
    requires i == 0 || SECTOR * i < n
    ensures i < SectorsFor(n) && SECTOR * i + SECTOR <= SECTOR * SectorsFor(n) <= n + SECTOR
    ensures n - SECTOR * i <= SECTOR <==> SectorsFor(n) == i + 1
  {
    SectorsUpTo(n, i);
    MulGap(i, SectorsFor(n), SECTOR);
  }

  /** The k-th read is the first that fails. */
  ghost predicate FailsAt(device: seq<byte>, size: nat, ok: nat -> bool, k: nat) {
    && k < SectorsFor(size) && SECTOR * k + SECTOR <= size + PAGE
    && ReadsSucceed(ok, k) && SECTOR * k <= |device|
    && (!ok(k) || |device| < SECTOR * k + SECTOR)
  }

  /** bio_read_response_file: sector by sector. A read fails beyond the end of the response unit, or when ok says
      so. The caller's buffer is 4096 bytes longer than the response. */
  method ReadResponseFile(device: seq<byte>, data: array<byte>, responseSize: nat, ok: nat -> bool) returns (len: int)
    requires data.Length == responseSize + PAGE
    modifies data
    ensures len >= 0 <==> ReadsSucceed(ok, SectorsFor(responseSize)) && SECTOR * SectorsFor(responseSize) <= |device|
    ensures len >= 0 ==> data[..] == Overwrite(old(data[..]), 0, device[..SECTOR * SectorsFor(responseSize)])
    ensures len < 0 ==>
              exists k: nat ::
                FailsAt(device, responseSize, ok, k) && data[..] == Overwrite(old(data[..]), 0, device[..SECTOR * k])
  {
    var read, size, sector := 0, responseSize, 0;
    ghost var start := data[..];
    assert Overwrite(start, 0, device[..0]) == start;
    while true
      invariant read == SECTOR * sector && read + size == responseSize && (sector == 0 || 0 < size)
      invariant ReadsSucceed(ok, sector) && read <= |device|
      invariant data[..] == Overwrite(start, 0, device[..read])
      decreases size
    {
      SectorInBounds(responseSize, sector);
      if !ok(sector) || |device| < read + SECTOR {
        assert FailsAt(device, responseSize, ok, sector);
        return -5;
      }
      ReadSector(device, sector, data, read, start);
      sector := sector + 1;
      read := read + SECTOR;
      if size <= SECTOR {
        break;
      }
      size := size - SECTOR;
    }
    len := 0;
  }

  /** READRESPONSE: a buffer of the response's size and 4096 bytes, filled from the device and copied back,
      whether or not it could be filled. */
  method GetResponse(device: seq<byte>, size: nat, ok: nat -> bool) returns (data: seq<byte>)
    ensures |data| == size
    ensures ReadsSucceed(ok, SectorsFor(size)) && SECTOR * SectorsFor(size) <= |device| ==> data == device[..size]
    ensures forall k: nat :: FailsAt(device, size, ok, k) ==>
                               SECTOR * k <= size && data[..SECTOR * k] == device[..SECTOR * k]
  {
    var buffer := new byte[size + PAGE];
    var len := ReadResponseFile(device, buffer, size, ok);
    data := buffer[..size];
    if len >= 0 {
      FirstBytes(buffer[..], device, size, SECTOR * SectorsFor(size));
    }
    forall k: nat | FailsAt(device, size, ok, k)
      ensures SECTOR * k <= size && data[..SECTOR * k] == device[..SECTOR * k]
    {
      OneFailure(device, size, ok, k);
      FirstBytes(buffer[..], device, SECTOR * k, SECTOR * k);
    }
  }

  /** There is at most one first failure, and none if all reads succeed. */
  lemma OneFailure(device: seq<byte>, size: nat, ok: nat -> bool, k: nat)
    requires FailsAt(device, size, ok, k)
    ensures SECTOR * k <= size
    ensures !(ReadsSucceed(ok, SectorsFor(size)) && SECTOR * SectorsFor(size) <= |device|)
    ensures forall m: nat :: FailsAt(device, size, ok, m) ==> m == k
  {
    MulGap(k, SectorsFor(size), SECTOR);
    forall m: nat | FailsAt(device, size, ok, m)
      ensures m == k
    {
      MulGap(m, k, SECTOR);
      MulGap(k, m, SECTOR);
    }
  }

  lemma FirstBytes(buffer: seq<byte>, device: seq<byte>, size: nat, read: nat)
    requires size <= read <= |device| && read <= |buffer| && buffer[..read] == device[..read]
    ensures buffer[..size] == device[..size]
  {
    assert buffer[..read][..size] == buffer[..size] && device[..read][..size] == device[..size];
  }

  /** A written response is long enough on the device for every sector that will be asked for. */
  lemma SectorsWritten(response: seq<byte>)
    requires response != []
    ensures SECTOR * SectorsFor(|response|) <= |response + Padding(response)|
  {
    var n := |response + Padding(response)|;
    var k, m := SectorsFor(|response|), CHUNK / SECTOR * (n / CHUNK);
    WholeSectors(n);
    MulGap(m, k, SECTOR);
  }

  lemma WholeSectors(n: nat)
    requires n % CHUNK == 0
    ensures n == CHUNK / SECTOR * (n / CHUNK) * SECTOR
  {
    DivMod(n, CHUNK);
  }

  /** The response path is the identity: whatever the response unit's file held, and whatever its length,
      the host gets back the response's bytes and no others. */
  method SendResponse(response: seq<byte>, file: seq<byte>, ok: nat -> bool) returns (received: seq<byte>)
    requires ReadsSucceed(ok, SectorsFor(|response|))
    ensures received == response
  {
    var device, byteCount := CommitResponse(response, file);
    received := GetResponse(device, byteCount, ok);
    if response != [] {
      SectorsWritten(response);
      StartsWith(file, response, Padding(response));
    }
  }

  lemma StartsWith(file: seq<byte>, response: seq<byte>, padding: seq<byte>)
    ensures WriteAt(file, 0, response + padding)[..|response|] == response
  {
  }
}
