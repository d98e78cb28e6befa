/** The encrypted file: what AES-XTS, AES-CTR, ChaCha20 and RC4 contexts share.
    Decrypting the backing file gives the bytes of an ordinary file, and every
    operation does to those bytes what an ordinary file would do. */
module FileContext {
  import opened Bytes
  import opened Ciphers
  import opened ChunkProcessor

  datatype Whence = SeekStart | SeekCurrent | SeekEnd | SeekOther

  // ------------------------------------------- decryption of what is stored

  function Plain(key: Key, stored: seq<byte>): seq<byte>
  {
    XorAt(key, 0, stored)
  }

  /** Writing an encrypted piece at its own position writes the piece. */
  lemma PlainOfWritten(key: Key, stored: seq<byte>, off: nat, data: seq<byte>, n: nat, after: seq<byte>)
    requires off <= |stored| && WroteEncrypted(key, stored, off, data, n, after)
    ensures Plain(key, after) == Written(Plain(key, stored), off, data[..n])
  {
    var r := Written(Plain(key, stored), off, data[..n]);
    forall i | 0 <= i < |r| ensures Plain(key, after)[i] == r[i] {
      if off <= i < off + n {
        XorTwice(data[i - off], key(i));
      }
    }
  }

  /** Reading a piece and decrypting it for its position reads the piece. */
  lemma PlainOfSlice(key: Key, stored: seq<byte>, off: nat, n: nat)
    ensures XorAt(key, off, Slice(stored, off, n)) == Slice(Plain(key, stored), off, n)
  {
  }

  lemma PlainOfShrunk(key: Key, stored: seq<byte>, n: nat)
    requires n <= |stored|
    ensures Plain(key, Resized(stored, n)) == Resized(Plain(key, stored), n)
  {
  }

  /** Zeros written to the end of a file, and then data: one write past the end. */
  lemma WrittenAfterGap(b: seq<byte>, off: nat, data: seq<byte>)
    ensures Written(PadTo(b, off), off, data) == Written(b, off, data)
  {
  }

  lemma GapIsPadding(b: seq<byte>, n: nat)
    ensures Written(b, |b|, Zeros(n)) == PadTo(b, |b| + n) == b + Zeros(n)
  {
  }

  class Context {
    const store: Store
    const reader: Encryptor
    const writer: Encryptor
    const reseeks: bool
    var pos: nat
    var size: nat

    /** The objects are apart and the two ciphers are one; holds after any failure. */
    ghost predicate Wired()
      reads this, store, reader, reader.state, reader.state.cipher, writer, writer.state, writer.state.cipher
    {
      && reader.Valid() && writer.Valid() && reader.key == writer.key && reader.limit == writer.limit
      && reader.state != writer.state && reader.state.cipher != writer.state.cipher
      && size <= |store.data|
    }

    /** The recorded size is the stored size; only a failed gap fill breaks it. */
    ghost predicate Valid()
      reads this, store, reader, reader.state, reader.state.cipher, writer, writer.state, writer.state.cipher
    {
      Wired() && size == |store.data|
    }

    /** What a reader of the file sees. */
    ghost function Contents(): seq<byte>
      reads this, store, writer
    {
      Plain(writer.key, store.data)
    }

    /** The backing file's cursor is where this context believes it to be. */
    ghost predicate InStep()
      reads this, store
    {
      store.cursor == pos
    }

    constructor (store: Store, reader: Encryptor, writer: Encryptor)
      requires reader.Valid() && writer.Valid() && reader.key == writer.key && reader.limit == writer.limit
      requires reader.state != writer.state && reader.state.cipher != writer.state.cipher
      modifies store
      ensures Valid() && InStep() && pos == 0 && store.data == old(store.data)
      ensures this.store == store && this.reader == reader && this.writer == writer
      ensures reseeks <==> writer.cipher.Xts?
    {
      this.store, this.reader, this.writer := store, reader, writer;
      reseeks := writer.cipher.Xts?;
      pos, size := 0, |store.data|;
      new;
      store.Seek(0);
    }

    /** Where the next Read takes its bytes from: AES-XTS seeks first, the
        others read on from wherever the backing file's cursor is. */
    ghost function ReadsFrom(): nat
      reads this, store
    {
      if reseeks then pos else store.cursor
    }

    method Read(p: array<byte>) returns (n: nat, err: Err)
      requires Valid() && pos + |Slice(Contents(), ReadsFrom(), p.Length)| <= reader.limit
      requires p as object !in {this, store, reader.state, reader.state.cipher, writer.state, writer.state.cipher}
      modifies this`pos, store`cursor, store`faults, reader.state, reader.state.cipher, p
      ensures store.faults >= old(store.faults) && (err == Fault ==> store.faults > old(store.faults))
      ensures Valid() && store.data == old(store.data) && pos == old(pos) + n
      ensures n <= |Slice(Contents(), old(ReadsFrom()), p.Length)|
      ensures p[..n] == XorAt(writer.key, old(pos), Slice(store.data, old(ReadsFrom()), n))
      ensures p[n..] == old(p[n..])
      ensures err == NoErr && p.Length > 0 ==> n > 0
      ensures err == Eof ==> n == 0 && old(ReadsFrom()) >= |Contents()|
      ensures store.cursor == old(ReadsFrom()) + n
      ensures reseeks || old(InStep()) ==> p[..n] == Slice(Contents(), old(pos), n)
    {
      if reseeks {
        store.Seek(pos);
      }
      ghost var from := store.cursor;
      n, err := store.Read(p);
      assert p[..n] == Slice(store.data, from, n);
      PlainOfSlice(writer.key, store.data, pos, n);
      if n > 0 {
        reader.XorInPlace(p, n, pos);
        pos := pos + n;
      }
    }

    /** Fills the file with encrypted zeros up to `target`. On a failure some of
        them are there and the recorded size is not changed. */
    method EnsureAppendGap(target: nat) returns (ok: bool, ghost filled: nat)
      requires Valid() && target <= writer.limit
      modifies this`size, store, writer.state, writer.state.cipher
      ensures store.faults >= old(store.faults) && (!ok ==> store.faults > old(store.faults))
      ensures Wired() && pos == old(pos)
      ensures ok ==> Valid() && size == Max(old(size), target) && Contents() == PadTo(old(Contents()), target)
      ensures ok ==> store.cursor == if target > old(size) then target else old(store.cursor)
      ensures !ok ==> target > old(size) && size == old(size) && old(size) + filled <= target
      ensures !ok ==> Contents() == old(Contents()) + Zeros(filled) && store.cursor == size + filled
    {
      filled := 0;
      if target <= size {
        return true, 0;
      }
      var gapSize := target - size;
      store.Seek(size);
      ghost var before := store.data;
      ok, filled := FillGap(store, size, gapSize, writer);
      PlainOfWritten(writer.key, before, size, Zeros(gapSize), filled, store.data);
      assert Zeros(gapSize)[..filled] == Zeros(filled);
      GapIsPadding(Plain(writer.key, before), filled);
      if !ok {
        return;
      }
      size := target;
    }

    /** Writes `p` at the position. Even an empty write past the end extends the file. */
    method Write(p: seq<byte>) returns (n: nat, ok: bool)
      requires Valid() && pos + |p| <= writer.limit
      modifies this, store, writer.state, writer.state.cipher
      ensures store.faults >= old(store.faults) && (!ok ==> store.faults > old(store.faults))
      ensures Wired() && n <= |p| && pos == old(pos) + n && (ok ==> n == |p|)
      ensures ok || n > 0 ==> Valid() && InStep() && Contents() == Written(old(Contents()), old(pos), p[..n])
      ensures !ok && n == 0 ==> exists k :: 0 <= k <= Max(0, pos - |old(Contents())|)
                                            && Contents() == old(Contents()) + Zeros(k)
    {
      ghost var original := Contents();
      var filled, k := EnsureAppendGap(pos);
      if !filled {
        return 0, false;
      }
      ghost var before := store.data;
      store.Seek(pos);
      n, ok := EncryptAndWriteInChunks(store, p, pos, writer);
      PlainOfWritten(writer.key, before, pos, p, n, store.data);
      WrittenAfterGap(original, pos, p[..n]);
      if n == 0 && !ok {
        PaddedBy(original, pos);
      }
      if n > 0 {
        pos := pos + n;
        if pos > size {
          size := pos;
        }
      }
    }

    method Seek(offset: int, whence: Whence) returns (newPos: int, ok: bool)
      requires Valid()
      modifies this`pos, store`cursor
      ensures Valid() && store.data == old(store.data)
      ensures var target := match whence
                            case SeekStart => offset
                            case SeekCurrent => old(pos) + offset
                            case SeekEnd => |Contents()| + offset
                            case SeekOther => -1;
              if target < 0 then !ok && pos == old(pos) && store.cursor == old(store.cursor)
              else ok && newPos == pos == target && InStep()
    {
      match whence {
        case SeekStart => newPos := offset;
        case SeekCurrent => newPos := pos + offset;
        case SeekEnd => newPos := size + offset;
        case SeekOther => return 0, false;
      }
      if newPos < 0 {
        return 0, false;
      }
      store.Seek(newPos);
      pos := newPos;
      return pos, true;
    }

    method Size() returns (n: nat)
      requires Valid()
      ensures n == |Contents()|
    {
      n := size;
    }

    method Truncate(n: nat) returns (ok: bool)
      requires Valid() && n <= writer.limit
      modifies this, store, writer.state, writer.state.cipher
      ensures store.faults >= old(store.faults) && (!ok ==> store.faults > old(store.faults))
      ensures Wired()
      ensures ok ==> Valid() && Contents() == Resized(old(Contents()), n) && pos == Min(old(pos), n)
      ensures ok ==> store.cursor == if n > |old(Contents())| then n else old(store.cursor)
      ensures !ok ==> pos == old(pos) && exists k :: k >= 0 && Contents() == old(Contents()) + Zeros(k)
    {
      ghost var original := Contents();
      if n > size {
        var filled, k := EnsureAppendGap(n);
        if !filled {
          return false;
        }
        assert Contents() == Resized(original, n);
      } else if n < size {
        ok := store.Truncate(n);
        if !ok {
          assert Contents() == original + Zeros(0);
          return false;
        }
        PlainOfShrunk(writer.key, old(store.data), n);
      } else {
        assert Resized(original, n) == original;
      }
      size := n;
      if pos > n {
        pos := n;
      }
      ok := true;
    }

    method ReadAt(p: array<byte>, off: nat) returns (n: nat, err: Err)
      requires Valid() && off + |Slice(Contents(), off, p.Length)| <= reader.limit
      requires p as object !in {this, store, reader.state, reader.state.cipher, writer.state, writer.state.cipher}
      modifies store`cursor, store`faults, reader.state, reader.state.cipher, p
      ensures store.faults >= old(store.faults) && (err == Fault ==> store.faults > old(store.faults))
      ensures Valid() && store.data == old(store.data) && pos == old(pos)
      ensures n <= |Slice(Contents(), off, p.Length)| && p[..n] == Slice(Contents(), off, n) && p[n..] == old(p[n..])
      ensures err != Fault && p.Length > 0 && off < |Contents()| ==> n > 0
      ensures store.positional && err != Fault ==>
                n == |Slice(Contents(), off, p.Length)| && (err == Eof <==> n < p.Length)
      ensures store.cursor == if store.positional then old(store.cursor) else off + n
    {
      if store.positional {
        n, err := store.ReadAt(p, off);
      } else {
        store.Seek(off);
        n, err := store.Read(p);
      }
      assert p[..n] == Slice(store.data, off, n);
      PlainOfSlice(writer.key, store.data, off, n);
      if n > 0 {
        reader.XorInPlace(p, n, off);
      }
    }

    method WriteAt(p: seq<byte>, off: nat) returns (n: nat, ok: bool)
      requires Valid() && off + |p| <= writer.limit
      modifies this`size, store, writer.state, writer.state.cipher
      ensures store.faults >= old(store.faults) && (!ok ==> store.faults > old(store.faults))
      ensures Wired() && n <= |p| && pos == old(pos) && (ok ==> n == |p|)
      ensures ok || n > 0 ==> Valid() && Contents() == Written(old(Contents()), off, p[..n])
      ensures ok || n > 0 ==>
                store.cursor == if !store.positional then off + n
                                else if off > |old(Contents())| then off
                                else old(store.cursor)
      ensures !ok && n == 0 ==> exists k :: 0 <= k <= Max(0, off - |old(Contents())|)
                                            && Contents() == old(Contents()) + Zeros(k)
    {
      ghost var original := Contents();
      var filled, k := EnsureAppendGap(off);
      if !filled {
        return 0, false;
      }
      ghost var before := store.data;
      if store.positional {
        n, ok := EncryptAndWriteAtInChunks(store, p, off, writer);
      } else {
        store.Seek(off);
        n, ok := EncryptAndWriteInChunks(store, p, off, writer);
      }
      PlainOfWritten(writer.key, before, off, p, n, store.data);
      WrittenAfterGap(original, off, p[..n]);
      if n == 0 && !ok {
        PaddedBy(original, off);
      }
      if n > 0 {
        var newEnd := off + n;
        if newEnd > size {
          size := newEnd;
        }
      }
    }
  }

  lemma PaddedBy(b: seq<byte>, off: nat)
    ensures Written(b, off, []) == b + Zeros(Max(0, off - |b|))
  {
  }
}
