/** The backing file, and the writers that encrypt into it through a fixed buffer. */
module ChunkProcessor {
  import opened Bytes
  import opened Ciphers

  datatype Err = NoErr | Eof | Fault

  /** An operating-system file. A read may be short; a write that is short
      reports an error; a write past the end leaves a hole of zeros. */
  class Store {
    var data: seq<byte>
    var cursor: nat
    /** How often the system has failed. */
    ghost var faults: nat
    /** Whether the file offers ReadAt and WriteAt. */
    const positional: bool

    constructor (data: seq<byte>, positional: bool)
      ensures this.data == data && cursor == 0 && this.positional == positional
    {
      this.data, cursor, this.positional := data, 0, positional;
    }

    method Seek(offset: nat)
      modifies this`cursor
      ensures cursor == offset
    {
      cursor := offset;
    }

    method Read(p: array<byte>) returns (n: nat, err: Err)
      requires p as object != this
      modifies this`cursor, this`faults, p
      ensures faults >= old(faults) && (err == Fault ==> faults > old(faults))
      ensures n <= |Slice(data, old(cursor), p.Length)| && cursor == old(cursor) + n
      ensures p[..n] == Slice(data, old(cursor), n) && p[n..] == old(p[n..])
      ensures err == NoErr && p.Length > 0 ==> n > 0
      ensures err == Eof ==> n == 0 && old(cursor) >= |data|
      ensures p.Length > 0 && old(cursor) >= |data| ==> err != NoErr
    {
      n, err := 0, NoErr;
      if p.Length == 0 {
        return;
      }
      if cursor >= |data| {
        return 0, Eof;
      }
      var failed: bool := *;
      if failed {
        faults := faults + 1;
        return 0, Fault;
      }
      var available := Min(p.Length, |data| - cursor);
      n :| 0 < n <= available;
      forall i | 0 <= i < n {
        p[i] := data[cursor + i];
      }
      cursor := cursor + n;
    }

    method ReadAt(p: array<byte>, off: nat) returns (n: nat, err: Err)
      requires p as object != this
      modifies this`faults, p
      ensures faults >= old(faults) && (err == Fault ==> faults > old(faults))
      ensures n <= |Slice(data, off, p.Length)|
      ensures p[..n] == Slice(data, off, n) && p[n..] == old(p[n..])
      ensures err != Fault ==> n == |Slice(data, off, p.Length)| && (err == Eof <==> n < p.Length)
    {
      var available := if off < |data| then Min(p.Length, |data| - off) else 0;
      n :| 0 <= n <= available;
      var failed: bool := *;
      if !failed {
        n := available;
      }
      forall i | 0 <= i < n {
        p[i] := data[off + i];
      }
      if failed {
        faults := faults + 1;
      }
      err := if failed then Fault else if n < p.Length then Eof else NoErr;
    }

    method Write(p: seq<byte>) returns (n: nat, ok: bool)
      requires cursor <= |data|
      modifies this
      ensures faults >= old(faults) && (!ok ==> faults > old(faults))
      ensures n <= |p| && (ok <==> n == |p|)
      ensures data == Written(old(data), old(cursor), p[..n]) && cursor == old(cursor) + n
    {
      n :| 0 <= n <= |p|;
      data := Written(data, cursor, p[..n]);
      cursor := cursor + n;
      ok := n == |p|;
      if !ok {
        faults := faults + 1;
      }
    }

    method WriteAt(p: seq<byte>, off: nat) returns (n: nat, ok: bool)
      requires off <= |data|
      modifies this`data, this`faults
      ensures faults >= old(faults) && (!ok ==> faults > old(faults))
      ensures n <= |p| && (ok <==> n == |p|)
      ensures data == Written(old(data), off, p[..n])
    {
      n :| 0 <= n <= |p|;
      data := Written(data, off, p[..n]);
      ok := n == |p|;
      if !ok {
        faults := faults + 1;
      }
    }

    method Truncate(size: nat) returns (ok: bool)
      modifies this`data, this`faults
      ensures faults >= old(faults) && (!ok ==> faults > old(faults))
      ensures data == if ok then Resized(old(data), size) else old(data)
    {
      ok := *;
      if ok {
        data := Resized(data, size);
      } else {
        faults := faults + 1;
      }
    }
  }

  /** `after` is `before` with the encryption of the first `k` bytes written at `start`. */
  ghost predicate WroteEncrypted(key: Key, before: seq<byte>, start: nat, data: seq<byte>, k: nat, after: seq<byte>)
  {
    k <= |data| && start + k <= |after| && after == Written(before, start, XorAt(key, start, data[..k]))
  }

  lemma NothingWritten(key: Key, before: seq<byte>, start: nat, data: seq<byte>)
    requires start <= |before|
    ensures WroteEncrypted(key, before, start, data, 0, before)
  {
  }

  /** One chunk more, encrypted for its own position. */
  lemma ChunkExtends(key: Key, before: seq<byte>, start: nat, data: seq<byte>, from: nat, mid: seq<byte>,
                     chunk: seq<byte>, n: nat, after: seq<byte>)
    requires WroteEncrypted(key, before, start, data, from, mid)
    requires n <= |chunk| && from + |chunk| <= |data| && chunk == data[from..from + |chunk|]
    requires WroteEncrypted(key, mid, start + from, chunk, n, after)
    ensures WroteEncrypted(key, before, start, data, from + n, after)
  {
    var done, piece := XorAt(key, start, data[..from]), XorAt(key, start + from, chunk[..n]);
    XorAtSplit(key, start, data[..from + n], from);
    assert data[..from + n][..from] == data[..from] && data[..from + n][from..] == chunk[..n];
    WrittenTwice(before, start, done, piece);
  }

  /** The buffer never holds more than one chunk, already encrypted. */
  method LoadChunk(buf: array<byte>, src: seq<byte>, pos: nat, enc: Encryptor) returns (chunk: seq<byte>)
    requires enc.Valid() && |src| <= buf.Length && pos + |src| <= enc.limit
    requires {buf as object} !! {enc, enc.state, enc.state.cipher}
    modifies buf, enc.state, enc.state.cipher
    ensures enc.Valid() && chunk == XorAt(enc.key, pos, src)
  {
    forall i | 0 <= i < |src| {
      buf[i] := src[i];
    }
    assert buf[..|src|] == src;
    enc.XorInPlace(buf, |src|, pos);
    chunk := buf[..|src|];
  }

  /** One chunk: loaded, encrypted, written at the cursor. */
  method WriteChunk(writer: Store, buf: array<byte>, src: seq<byte>, pos: nat, enc: Encryptor)
    returns (n: nat, ok: bool)
    requires enc.Valid() && |src| <= buf.Length && pos + |src| <= enc.limit && writer.cursor == pos <= |writer.data|
    requires {buf as object, writer} !! {enc, enc.state, enc.state.cipher}
    modifies writer, buf, enc.state, enc.state.cipher
    ensures writer.faults >= old(writer.faults) && (!ok ==> writer.faults > old(writer.faults))
    ensures enc.Valid() && n <= |src| && (ok <==> n == |src|) && writer.cursor == pos + n
    ensures WroteEncrypted(enc.key, old(writer.data), pos, src, n, writer.data)
  {
    var chunk := LoadChunk(buf, src, pos, enc);
    n, ok := writer.Write(chunk);
    assert chunk[..n] == XorAt(enc.key, pos, src[..n]);
  }

  /** The same at an offset. */
  method WriteChunkAt(writer: Store, buf: array<byte>, src: seq<byte>, pos: nat, enc: Encryptor)
    returns (n: nat, ok: bool)
    requires enc.Valid() && |src| <= buf.Length && pos + |src| <= enc.limit && pos <= |writer.data|
    requires {buf as object, writer} !! {enc, enc.state, enc.state.cipher}
    modifies writer`data, writer`faults, buf, enc.state, enc.state.cipher
    ensures writer.faults >= old(writer.faults) && (!ok ==> writer.faults > old(writer.faults))
    ensures enc.Valid() && n <= |src| && (ok <==> n == |src|)
    ensures WroteEncrypted(enc.key, old(writer.data), pos, src, n, writer.data)
  {
    var chunk := LoadChunk(buf, src, pos, enc);
    n, ok := writer.WriteAt(chunk, pos);
    assert chunk[..n] == XorAt(enc.key, pos, src[..n]);
  }

  /** Writes encrypted zeros from the cursor on. A failure leaves a part of them. */
  method FillGap(writer: Store, startPos: nat, gapSize: nat, enc: Encryptor) returns (ok: bool, ghost filled: nat)
    requires enc.Valid() && startPos + gapSize <= enc.limit
    requires writer.cursor == startPos <= |writer.data|
    requires {writer as object} !! {enc, enc.state, enc.state.cipher}
    modifies writer, enc.state, enc.state.cipher
    ensures writer.faults >= old(writer.faults) && (!ok ==> writer.faults > old(writer.faults))
    ensures enc.Valid() && filled <= gapSize && (ok ==> filled == gapSize)
    ensures WroteEncrypted(enc.key, old(writer.data), startPos, Zeros(gapSize), filled, writer.data)
    ensures writer.cursor == startPos + filled
  {
    ghost var before := writer.data;
    var buf := new byte[CHUNK];
    var currentPos, remaining := startPos, gapSize;
    filled := 0;
    NothingWritten(enc.key, before, startPos, Zeros(gapSize));
    while remaining > 0
      invariant 0 <= remaining <= gapSize && filled == gapSize - remaining && currentPos == startPos + filled
      invariant writer.faults >= old(writer.faults)
      invariant enc.Valid() && writer.cursor == currentPos
      invariant WroteEncrypted(enc.key, before, startPos, Zeros(gapSize), filled, writer.data)
    {
      var chunkSize := Min(CHUNK, remaining);
      ghost var mid := writer.data;
      var n, written := WriteChunk(writer, buf, Zeros(chunkSize), currentPos, enc);
      ChunkExtends(enc.key, before, startPos, Zeros(gapSize), filled, mid, Zeros(chunkSize), n, writer.data);
      filled := filled + n;
      if !written {
        return false, filled;
      }
      currentPos, remaining := currentPos + chunkSize, remaining - chunkSize;
    }
    ok := true;
  }

  /** The next `size` bytes, at the cursor. */
  method WriteNext(writer: Store, buf: array<byte>, data: seq<byte>, startPos: nat, from: nat, size: nat,
                  ghost before: seq<byte>, enc: Encryptor) returns (n: nat, ok: bool)
    requires enc.Valid() && startPos + |data| <= enc.limit && from + size <= |data| && size <= buf.Length
    requires writer.cursor == startPos + from <= |writer.data|
    requires WroteEncrypted(enc.key, before, startPos, data, from, writer.data)
    requires {buf as object, writer} !! {enc, enc.state, enc.state.cipher}
    modifies writer, buf, enc.state, enc.state.cipher
    ensures writer.faults >= old(writer.faults) && (!ok ==> writer.faults > old(writer.faults))
    ensures enc.Valid() && n <= size && (ok <==> n == size) && writer.cursor == startPos + from + n
    ensures WroteEncrypted(enc.key, before, startPos, data, from + n, writer.data)
  {
    var srcChunk := data[from..from + size];
    ghost var mid := writer.data;
    n, ok := WriteChunk(writer, buf, srcChunk, startPos + from, enc);
    ChunkExtends(enc.key, before, startPos, data, from, mid, srcChunk, n, writer.data);
  }

  /** The same at an offset. */
  method WriteNextAt(writer: Store, buf: array<byte>, data: seq<byte>, startPos: nat, from: nat, size: nat,
                    ghost before: seq<byte>, enc: Encryptor) returns (n: nat, ok: bool)
    requires enc.Valid() && startPos + |data| <= enc.limit && from + size <= |data| && size <= buf.Length
    requires startPos + from <= |writer.data|
    requires WroteEncrypted(enc.key, before, startPos, data, from, writer.data)
    requires {buf as object, writer} !! {enc, enc.state, enc.state.cipher}
    modifies writer`data, writer`faults, buf, enc.state, enc.state.cipher
    ensures writer.faults >= old(writer.faults) && (!ok ==> writer.faults > old(writer.faults))
    ensures enc.Valid() && n <= size && (ok <==> n == size)
    ensures WroteEncrypted(enc.key, before, startPos, data, from + n, writer.data)
  {
    var srcChunk := data[from..from + size];
    ghost var mid := writer.data;
    n, ok := WriteChunkAt(writer, buf, srcChunk, startPos + from, enc);
    ChunkExtends(enc.key, before, startPos, data, from, mid, srcChunk, n, writer.data);
  }

  /** Encrypts `data` and writes it at the cursor. What was written before a
      failure is the encryption of a prefix. */
  method EncryptAndWriteInChunks(writer: Store, data: seq<byte>, startPos: nat, enc: Encryptor)
    returns (totalWritten: nat, ok: bool)
    requires enc.Valid() && startPos + |data| <= enc.limit
    requires writer.cursor == startPos <= |writer.data|
    requires {writer as object} !! {enc, enc.state, enc.state.cipher}
    modifies writer, enc.state, enc.state.cipher
    ensures writer.faults >= old(writer.faults) && (!ok ==> writer.faults > old(writer.faults))
    ensures enc.Valid() && totalWritten <= |data| && (ok <==> totalWritten == |data|)
    ensures WroteEncrypted(enc.key, old(writer.data), startPos, data, totalWritten, writer.data)
    ensures writer.cursor == startPos + totalWritten
  {
    ghost var before := writer.data;
    var tempBuf := new byte[CHUNK];
    var currentPos, offset := startPos, 0;
    totalWritten := 0;
    NothingWritten(enc.key, before, startPos, data);
    while offset < |data|
      invariant 0 <= offset <= |data| && totalWritten == offset && currentPos == startPos + offset
      invariant writer.faults >= old(writer.faults)
      invariant enc.Valid() && writer.cursor == currentPos
      invariant WroteEncrypted(enc.key, before, startPos, data, offset, writer.data)
    {
      var chunkSize := Min(|data| - offset, CHUNK);
      var n, written := WriteNext(writer, tempBuf, data, startPos, offset, chunkSize, before, enc);
      totalWritten, currentPos := totalWritten + n, currentPos + n;
      if !written {
        return totalWritten, false;
      }
      offset := offset + chunkSize;
    }
    ok := true;
  }

  /** The same at a given offset, without moving the cursor. */
  method EncryptAndWriteAtInChunks(writerAt: Store, data: seq<byte>, offset: nat, enc: Encryptor)
    returns (totalWritten: nat, ok: bool)
    requires enc.Valid() && offset + |data| <= enc.limit
    requires offset <= |writerAt.data|
    requires {writerAt as object} !! {enc, enc.state, enc.state.cipher}
    modifies writerAt`data, writerAt`faults, enc.state, enc.state.cipher
    ensures writerAt.faults >= old(writerAt.faults) && (!ok ==> writerAt.faults > old(writerAt.faults))
    ensures enc.Valid() && totalWritten <= |data| && (ok <==> totalWritten == |data|)
    ensures WroteEncrypted(enc.key, old(writerAt.data), offset, data, totalWritten, writerAt.data)
  {
    ghost var before := writerAt.data;
    var tempBuf := new byte[CHUNK];
    var currentPos, dataOffset := offset, 0;
    totalWritten := 0;
    NothingWritten(enc.key, before, offset, data);
    while dataOffset < |data|
      invariant 0 <= dataOffset <= |data| && totalWritten == dataOffset && currentPos == offset + dataOffset
      invariant writerAt.faults >= old(writerAt.faults)
      invariant enc.Valid()
      invariant WroteEncrypted(enc.key, before, offset, data, dataOffset, writerAt.data)
    {
      var chunkSize := Min(|data| - dataOffset, CHUNK);
      var n, written := WriteNextAt(writerAt, tempBuf, data, offset, dataOffset, chunkSize, before, enc);
      totalWritten, currentPos := totalWritten + n, currentPos + n;
      if !written {
        return totalWritten, false;
      }
      dataOffset := dataOffset + chunkSize;
    }
    ok := true;
  }
}
