/** The write-back block cache put over a file context that is slow at random access. */
module Adapter {
  import opened Bytes
  import opened ChunkProcessor
  import opened FileContext
  import opened BlockCache

  const DEFAULT_BLOCK_SIZE: nat := 4096

  class Adapter {
    const ctx: Context
    const blockSize: nat
    var cache: Cache
    var dirtyBlocks: set<nat>
    var pos: nat
    var size: nat

    ghost predicate Valid()
      reads this, ctx, ctx.store, ctx.reader, ctx.reader.state, ctx.reader.state.cipher,
            ctx.writer, ctx.writer.state, ctx.writer.state.cipher
    {
      && ctx.Valid() && size <= ctx.writer.limit
      && Coherent(blockSize, cache, ctx.Contents(), size, dirtyBlocks)
    }

    /** The byte array that the adapter stands for. */
    ghost function Contents(): seq<byte>
      reads this, ctx, ctx.store, ctx.reader, ctx.reader.state, ctx.reader.state.cipher,
            ctx.writer, ctx.writer.state, ctx.writer.state.cipher
      requires Valid()
    {
      SeenBytes(blockSize, cache, ctx.Contents(), size)
    }

    constructor (ctx: Context, blockSize: int)
      requires ctx.Valid() && |ctx.Contents()| <= ctx.writer.limit
      modifies ctx`pos, ctx.store`cursor
      ensures Valid() && this.ctx == ctx && pos == 0 && Contents() == ctx.Contents() == old(ctx.Contents())
    {
      this.ctx := ctx;
      this.blockSize := if blockSize <= 0 then DEFAULT_BLOCK_SIZE else blockSize;
      cache, dirtyBlocks, pos := map[], {}, 0;
      new;
      var end, ok := ctx.Seek(0, SeekEnd);
      var _, _ := ctx.Seek(0, SeekStart);
      size := end;
      CleanCacheIsFile(this.blockSize, cache, ctx.Contents(), size);
    }

    /** What loading a block needs; it holds in the middle of a write too. */
    ghost predicate Loadable()
      reads this, ctx, ctx.store, ctx.reader, ctx.reader.state, ctx.reader.state.cipher,
            ctx.writer, ctx.writer.state, ctx.writer.state.cipher
    {
      ctx.Valid() && |ctx.Contents()| <= size <= ctx.writer.limit && Whole(blockSize, cache)
    }

    /** The cached block, loaded from the context if need be. */
    method GetBlock(b: nat) returns (block: seq<byte>, ok: bool)
      requires Loadable()
      modifies this`cache, ctx`pos, ctx.store`cursor, ctx.store`faults, ctx.reader.state, ctx.reader.state.cipher
      ensures ctx.store.faults >= old(ctx.store.faults) && (!ok ==> ctx.store.faults > old(ctx.store.faults))
      ensures Loadable() && ctx.Contents() == old(ctx.Contents())
      ensures Loaded(blockSize, old(cache), cache, ctx.Contents())
      ensures ok ==> b in cache && cache[b] == block
    {
      if b in cache {
        return cache[b], true;
      }
      var blockStart := b * blockSize;
      var n := Inside(blockSize, size, b);
      if n <= 0 {
        block := Zeros(blockSize);
      } else {
        block, ok := LoadBlock(blockStart, n);
        if !ok {
          return;
        }
      }
      LoadsBlock(blockSize, cache, ctx.Contents(), size, b, block);
      cache := cache[b := block];
      ok := true;
    }

    /** Reads `n` bytes, or as many as there are, and fills the block up with zeros. */
    method LoadBlock(blockStart: nat, n: nat) returns (block: seq<byte>, ok: bool)
      requires Loadable() && n <= blockSize && blockStart + n <= size
      modifies ctx`pos, ctx.store`cursor, ctx.store`faults, ctx.reader.state, ctx.reader.state.cipher
      ensures ctx.store.faults >= old(ctx.store.faults) && (!ok ==> ctx.store.faults > old(ctx.store.faults))
      ensures Loadable() && ctx.Contents() == old(ctx.Contents())
      ensures ok ==> |block| == blockSize
      ensures ok ==> forall j | 0 <= j < blockSize ::
                       block[j] == if j < n then At(ctx.Contents(), blockStart + j) else 0
    {
      var _, sought := ctx.Seek(blockStart, SeekStart);
      if !sought {
        return [], false;
      }
      var got, err := ReadFull(ctx, n);
      if err == Fault {
        return [], false;
      }
      block := got + Zeros(blockSize - |got|);
      ok := true;
    }

    method Read(p: array<byte>) returns (n: nat, err: Err)
      requires Valid()
      requires p as object !in {this, ctx, ctx.store, ctx.reader.state, ctx.reader.state.cipher,
                                ctx.writer.state, ctx.writer.state.cipher}
      modifies this`cache, this`pos, ctx`pos, ctx.store`cursor, ctx.store`faults,
               ctx.reader.state, ctx.reader.state.cipher, p
      ensures ctx.store.faults >= old(ctx.store.faults) && (err == Fault ==> ctx.store.faults > old(ctx.store.faults))
      ensures Valid() && Contents() == old(Contents()) && ctx.Contents() == old(ctx.Contents())
      ensures err == Eof <==> old(pos) >= |Contents()|
      ensures err == NoErr ==> n == |Slice(Contents(), old(pos), p.Length)| && pos == old(pos) + n
      ensures n <= p.Length && p[..n] == Slice(Contents(), old(pos), n) && p[n..] == old(p[n..])
      ensures err == Eof ==> n == 0
      ensures err != NoErr ==> pos == old(pos)
    {
      n := 0;
      if pos >= size {
        return 0, Eof;
      }
      var toRead := Min(p.Length, size - pos);
      var ok;
      n, ok := Fill(p, toRead);
      CopiedFrom(p[..], old(p[..]), Contents(), pos, n);
      assert p[..][..n] == p[..n] && p[..][n..] == p[n..];
      if !ok {
        return n, Fault;
      }
      pos := pos + n;
      err := NoErr;
    }

    static lemma CopiedFrom(now: seq<byte>, before: seq<byte>, contents: seq<byte>, from: nat, n: nat)
      requires Filled(now, before, contents, from, n) && n <= |now|
      ensures now[..n] == Slice(contents, from, n) && now[n..] == before[n..]
    {
    }

    /** The first `n` bytes come from the contents at `from`, the others are as before. */
    static ghost predicate Filled(now: seq<byte>, before: seq<byte>, contents: seq<byte>, from: nat, n: nat)
    {
      && |now| == |before| && from + n <= |contents|
      && forall j | 0 <= j < |now| :: now[j] == if j < n then contents[from + j] else before[j]
    }

    /** Between `n` and `n + more` the bytes come from the contents at `from`, the others are as before. */
    static ghost predicate Copied(now: seq<byte>, mid: seq<byte>, contents: seq<byte>, from: nat, n: nat, more: nat)
    {
      && |now| == |mid| && from + n + more <= |contents|
      && forall j | 0 <= j < |now| :: now[j] == if n <= j < n + more then contents[from + j] else mid[j]
    }

    static lemma FilledMore(now: seq<byte>, mid: seq<byte>, before: seq<byte>, contents: seq<byte>,
                            from: nat, n: nat, more: nat)
      requires Filled(mid, before, contents, from, n) && Copied(now, mid, contents, from, n, more)
      ensures Filled(now, before, contents, from, n + more)
    {
    }

    /** Fills the first `toRead` bytes of `p`, block by block. */
    method Fill(p: array<byte>, toRead: nat) returns (n: nat, ok: bool)
      requires Valid() && toRead <= p.Length && pos + toRead <= size
      requires p as object !in {this, ctx, ctx.store, ctx.reader.state, ctx.reader.state.cipher,
                                ctx.writer.state, ctx.writer.state.cipher}
      modifies this`cache, ctx`pos, ctx.store`cursor, ctx.store`faults, ctx.reader.state, ctx.reader.state.cipher, p
      ensures ctx.store.faults >= old(ctx.store.faults) && (!ok ==> ctx.store.faults > old(ctx.store.faults))
      ensures Valid() && Contents() == old(Contents()) && ctx.Contents() == old(ctx.Contents())
      ensures n <= toRead && (ok ==> n == toRead)
      ensures Filled(p[..], old(p[..]), Contents(), pos, n)
    {
      n := 0;
      ghost var contents, before := Contents(), p[..];
      while n < toRead
        invariant Valid() && Contents() == contents && ctx.Contents() == old(ctx.Contents())
        invariant n <= toRead && ctx.store.faults >= old(ctx.store.faults)
        invariant Filled(p[..], before, contents, pos, n)
      {
        ghost var mid := p[..];
        var copied;
        copied, ok := CopyOut(p, n, toRead);
        if !ok {
          return;
        }
        FilledMore(p[..], mid, before, contents, pos, n, copied);
        n := n + copied;
      }
      ok := true;
    }

    /** Copies from the block at `pos + n` into `p`, up to the block's end. */
    method CopyOut(p: array<byte>, n: nat, toRead: nat) returns (copied: nat, ok: bool)
      requires Valid() && n < toRead <= p.Length && pos + toRead <= size
      requires p as object !in {this, ctx, ctx.store, ctx.reader.state, ctx.reader.state.cipher,
                                ctx.writer.state, ctx.writer.state.cipher}
      modifies this`cache, ctx`pos, ctx.store`cursor, ctx.store`faults, ctx.reader.state, ctx.reader.state.cipher, p
      ensures ctx.store.faults >= old(ctx.store.faults) && (!ok ==> ctx.store.faults > old(ctx.store.faults))
      ensures Valid() && Contents() == old(Contents()) && ctx.Contents() == old(ctx.Contents())
      ensures ok ==> 0 < copied <= toRead - n
      ensures ok ==> Copied(p[..], old(p[..]), Contents(), pos, n, copied)
      ensures !ok ==> p[..] == old(p[..])
    {
      var blockIdx, offset := (pos + n) / blockSize, (pos + n) % blockSize;
      copied := Min(blockSize - offset, toRead - n);
      var block;
      block, ok := BlockForReading(blockIdx);
      if !ok {
        return 0, false;
      }
      PieceSeen(blockSize, cache, ctx.Contents(), size, pos + n, copied, blockIdx, offset);
      var piece := block[offset..offset + copied];
      CopyInto(p, n, piece);
      CopiedPiece(p[..], old(p[..]), Contents(), pos, n, piece);
    }

    /** The block, cached or loaded; what a reader sees stays. */
    method BlockForReading(b: nat) returns (block: seq<byte>, ok: bool)
      requires Valid()
      modifies this`cache, ctx`pos, ctx.store`cursor, ctx.store`faults, ctx.reader.state, ctx.reader.state.cipher
      ensures ctx.store.faults >= old(ctx.store.faults) && (!ok ==> ctx.store.faults > old(ctx.store.faults))
      ensures Valid() && Contents() == old(Contents()) && ctx.Contents() == old(ctx.Contents())
      ensures ok ==> b in cache && cache[b] == block && |block| == blockSize
    {
      ghost var before := cache;
      block, ok := GetBlock(b);
      LoadKeepsCoherent(blockSize, before, cache, ctx.Contents(), size, dirtyBlocks);
    }

    static method CopyInto(p: array<byte>, at: nat, piece: seq<byte>)
      requires at + |piece| <= p.Length
      modifies p
      ensures forall j | 0 <= j < p.Length :: p[j] == if at <= j < at + |piece| then piece[j - at] else old(p[j])
    {
      forall i | at <= i < at + |piece| {
        p[i] := piece[i - at];
      }
    }

    static lemma CopiedPiece(now: seq<byte>, mid: seq<byte>, contents: seq<byte>, from: nat, n: nat, piece: seq<byte>)
      requires |now| == |mid| && from + n + |piece| <= |contents|
      requires piece == contents[from + n..from + n + |piece|]
      requires forall j | 0 <= j < |now| :: now[j] == if n <= j < n + |piece| then piece[j - n] else mid[j]
      ensures Copied(now, mid, contents, from, n, |piece|)
    {
    }

    /** A write of nothing past the end grows the recorded size and marks no
        block; a later Sync then writes the growth back exactly if the new last
        block was already dirty. Every other write keeps the cache in order. */
    method Write(p: seq<byte>) returns (n: nat, ok: bool)
      requires Valid() && pos + |p| <= ctx.writer.limit
      modifies this, ctx`pos, ctx.store`cursor, ctx.store`faults, ctx.reader.state, ctx.reader.state.cipher
      ensures ctx.store.faults >= old(ctx.store.faults) && (!ok ==> ctx.store.faults > old(ctx.store.faults))
      ensures ctx.Valid() && ctx.Contents() == old(ctx.Contents())
      ensures ok ==> n == |p| && pos == old(pos) + n && size == Max(old(size), pos)
      ensures ok ==> (Valid() <==> p != [] || old(pos) <= old(size) || (old(pos) - 1) / blockSize in old(dirtyBlocks))
      ensures ok && Valid() ==> Contents() == Written(old(Contents()), old(pos), p)
      ensures !ok ==> pos == old(pos) && size == old(size)
    {
      ghost var before, file, dirty := cache, ctx.Contents(), dirtyBlocks;
      n, ok := CopyAll(p);
      if !ok {
        return;
      }
      WriteKeepsCoherent(blockSize, before, cache, file, size, dirty, dirtyBlocks, pos, p);
      pos := pos + n;
      if pos > size {
        size := pos;
      }
    }

    /** Patches the blocks from the position on, one after the other. */
    method CopyAll(p: seq<byte>) returns (n: nat, ok: bool)
      requires Valid() && pos + |p| <= ctx.writer.limit
      modifies this`cache, this`dirtyBlocks, ctx`pos, ctx.store`cursor, ctx.store`faults,
               ctx.reader.state, ctx.reader.state.cipher
      ensures ctx.store.faults >= old(ctx.store.faults) && (!ok ==> ctx.store.faults > old(ctx.store.faults))
      ensures Loadable() && ctx.Contents() == old(ctx.Contents()) && (ok ==> n == |p|)
      ensures ok ==> Writing(blockSize, old(cache), cache, ctx.Contents(), old(dirtyBlocks), dirtyBlocks, pos, p)
      ensures p == [] ==> cache == old(cache) && dirtyBlocks == old(dirtyBlocks)
    {
      n := 0;
      ghost var before, file, dirty := cache, ctx.Contents(), dirtyBlocks;
      while n < |p|
        invariant ctx.store.faults >= old(ctx.store.faults)
        invariant n <= |p| && Loadable() && ctx.Contents() == file
        invariant Writing(blockSize, before, cache, file, dirty, dirtyBlocks, pos, p[..n])
        invariant p == [] ==> cache == before && dirtyBlocks == dirty
      {
        var copied;
        copied, ok := CopyIn(p, n, before, file, dirty);
        if !ok {
          return n, false;
        }
        n := n + copied;
      }
      assert p[..n] == p;
      ok := true;
    }

    /** Copies from `p` into the block at `pos + n`, up to the block's end, and marks it. */
    method CopyIn(p: seq<byte>, n: nat, ghost before: Cache, ghost file: seq<byte>, ghost dirty: set<nat>)
      returns (copied: nat, ok: bool)
      requires Loadable() && n < |p| && ctx.Contents() == file
      requires Writing(blockSize, before, cache, file, dirty, dirtyBlocks, pos, p[..n])
      modifies this`cache, this`dirtyBlocks, ctx`pos, ctx.store`cursor, ctx.store`faults,
               ctx.reader.state, ctx.reader.state.cipher
      ensures ctx.store.faults >= old(ctx.store.faults) && (!ok ==> ctx.store.faults > old(ctx.store.faults))
      ensures Loadable() && ctx.Contents() == file
      ensures ok ==> 0 < copied <= |p| - n
      ensures ok ==> Writing(blockSize, before, cache, file, dirty, dirtyBlocks, pos, p[..n + copied])
    {
      ghost var mid := cache;
      var block;
      block, ok := GetBlock((pos + n) / blockSize);
      if !ok {
        return 0, false;
      }
      LoadWhileWriting(blockSize, before, mid, cache, file, dirty, dirtyBlocks, pos, p[..n]);
      copied := PatchBlock(p, n, block, before, file, dirty);
    }

    /** The block at `pos + n` is at hand: patch it and mark it. */
    method PatchBlock(p: seq<byte>, n: nat, block: seq<byte>, ghost before: Cache, ghost file: seq<byte>,
                      ghost dirty: set<nat>) returns (copied: nat)
      requires Whole(blockSize, cache) && n < |p|
      requires (pos + n) / blockSize in cache && cache[(pos + n) / blockSize] == block
      requires Writing(blockSize, before, cache, file, dirty, dirtyBlocks, pos, p[..n])
      modifies this`cache, this`dirtyBlocks
      ensures Whole(blockSize, cache) && 0 < copied <= |p| - n
      ensures Writing(blockSize, before, cache, file, dirty, dirtyBlocks, pos, p[..n + copied])
    {
      var blockIdx, offset := (pos + n) / blockSize, (pos + n) % blockSize;
      copied := Min(blockSize - offset, |p| - n);
      var patched := cache[blockIdx := Patched(block, offset, p[n..n + copied])];
      PatchWhileWriting(blockSize, before, cache, file, dirty, dirtyBlocks, pos, p, n, copied, patched);
      cache := patched;
      dirtyBlocks := dirtyBlocks + {blockIdx};
    }

    method Seek(offset: int, whence: Whence) returns (newPos: int, ok: bool)
      requires Valid()
      modifies this`pos
      ensures Valid() && Contents() == old(Contents())
      ensures var target := match whence
                            case SeekStart => offset
                            case SeekCurrent => old(pos) + offset
                            case SeekEnd => |Contents()| + offset
                            case SeekOther => -1;
              if target < 0 then !ok && pos == old(pos) else ok && newPos == pos == target
    {
      match whence {
        case SeekStart => newPos := offset;
        case SeekCurrent => newPos := pos + offset;
        case SeekEnd => newPos := size + offset;
        case SeekOther => return 0, false;
      }
      if newPos < 0 {
        return 0, false;
      }
      pos := newPos;
      return pos, true;
    }

    method ReadAt(p: array<byte>, off: nat) returns (n: nat, err: Err)
      requires Valid()
      requires p as object !in {this, ctx, ctx.store, ctx.reader.state, ctx.reader.state.cipher,
                                ctx.writer.state, ctx.writer.state.cipher}
      modifies this`cache, this`pos, ctx`pos, ctx.store`cursor, ctx.store`faults,
               ctx.reader.state, ctx.reader.state.cipher, p
      ensures ctx.store.faults >= old(ctx.store.faults) && (err == Fault ==> ctx.store.faults > old(ctx.store.faults))
      ensures Valid() && Contents() == old(Contents()) && ctx.Contents() == old(ctx.Contents()) && pos == old(pos)
      ensures n <= p.Length && p[..n] == Slice(Contents(), off, n) && p[n..] == old(p[n..])
      ensures err == NoErr ==> n == p.Length
      ensures n < |Slice(Contents(), off, p.Length)| ==> ctx.store.faults > old(ctx.store.faults)
      ensures off >= |Contents()| ==> err == Eof && n == 0
    {
      var oldPos := pos;
      pos := off;
      n, err := Read(p);
      pos := oldPos;
      if n < p.Length {
        err := Eof;
      }
    }

    method WriteAt(p: seq<byte>, off: nat) returns (n: nat, ok: bool)
      requires Valid() && off + |p| <= ctx.writer.limit
      modifies this, ctx`pos, ctx.store`cursor, ctx.store`faults, ctx.reader.state, ctx.reader.state.cipher
      ensures ctx.store.faults >= old(ctx.store.faults) && (!ok ==> ctx.store.faults > old(ctx.store.faults))
      ensures ctx.Valid() && ctx.Contents() == old(ctx.Contents()) && pos == old(pos)
      ensures ok ==> n == |p| && (Valid() <==> p != [] || off <= old(size) || (off - 1) / blockSize in old(dirtyBlocks))
      ensures ok && Valid() ==> Contents() == Written(old(Contents()), off, p)
    {
      var oldPos := pos;
      pos := off;
      n, ok := Write(p);
      pos := oldPos;
    }

    method Size() returns (n: nat)
      requires Valid()
      ensures n == |Contents()|
    {
      n := size;
    }

    /** Writes one dirty block back, as far as it lies inside the file. */
    method FlushBlock(b: nat, ghost dirty: set<nat>) returns (ok: bool)
      requires ctx.Valid() && size <= ctx.writer.limit && b in dirty
      requires Coherent(blockSize, cache, ctx.Contents(), size, dirty)
      modifies ctx, ctx.store, ctx.writer.state, ctx.writer.state.cipher
      ensures ctx.store.faults >= old(ctx.store.faults) && (!ok ==> ctx.store.faults > old(ctx.store.faults))
      ensures ok ==> ctx.Valid() && Coherent(blockSize, cache, ctx.Contents(), size, dirty - {b})
      ensures ok ==> SeenBytes(blockSize, cache, ctx.Contents(), size)
                     == old(SeenBytes(blockSize, cache, ctx.Contents(), size))
    {
      if b !in cache {
        return true;
      }
      var block := cache[b];
      var blockStart := b * blockSize;
      var n := Inside(blockSize, size, b);
      if n <= 0 {
        FlushOutside(blockSize, cache, ctx.Contents(), size, dirty, b);
        return true;
      }
      FlushKeepsSeen(blockSize, cache, ctx.Contents(), size, dirty, b);
      var _, sought := ctx.Seek(blockStart, SeekStart);
      if !sought {
        return false;
      }
      var written;
      written, ok := ctx.Write(block[..n]);
      assert ok ==> block[..n][..written] == block[..n];
    }

    /** Flushes the dirty blocks in whatever order the map yields them. */
    method FlushAll() returns (ok: bool)
      requires Valid()
      modifies ctx, ctx.store, ctx.writer.state, ctx.writer.state.cipher
      ensures ctx.store.faults >= old(ctx.store.faults) && (!ok ==> ctx.store.faults > old(ctx.store.faults))
      ensures ok ==> ctx.Valid() && Coherent(blockSize, cache, ctx.Contents(), size, {})
      ensures ok ==> ctx.Contents() == old(Contents())
      ensures ok ==> SeenBytes(blockSize, cache, ctx.Contents(), size) == old(Contents())
    {
      var left := dirtyBlocks;
      while left != {}
        invariant ctx.store.faults >= old(ctx.store.faults)
        invariant ctx.Valid() && Coherent(blockSize, cache, ctx.Contents(), size, left)
        invariant SeenBytes(blockSize, cache, ctx.Contents(), size) == old(Contents())
        decreases left
      {
        var b :| b in left;
        ok := FlushBlock(b, left);
        if !ok {
          return false;
        }
        left := left - {b};
      }
      CleanCacheIsFile(blockSize, cache, ctx.Contents(), size);
      ok := true;
    }

    /** Afterwards the context below holds exactly what a reader of the adapter sees,
        and nothing is left to flush. */
    method Sync() returns (ok: bool)
      requires Valid()
      modifies this`dirtyBlocks, ctx, ctx.store, ctx.writer.state, ctx.writer.state.cipher
      ensures ctx.store.faults >= old(ctx.store.faults) && (!ok ==> ctx.store.faults > old(ctx.store.faults))
      ensures ok ==> Valid() && Contents() == old(Contents()) && ctx.Contents() == Contents() && dirtyBlocks == {}
    {
      ok := FlushAll();
      if !ok {
        return false;
      }
      dirtyBlocks := {};
      ok := *;
      if !ok {
        ctx.store.faults := ctx.store.faults + 1;
      }
    }

    /** Closing writes everything back first. */
    method Close() returns (ok: bool)
      requires Valid()
      modifies ctx, ctx.store, ctx.writer.state, ctx.writer.state.cipher
      ensures ctx.store.faults >= old(ctx.store.faults) && (!ok ==> ctx.store.faults > old(ctx.store.faults))
      ensures ok ==> ctx.Valid() && ctx.Contents() == old(Contents())
    {
      ok := FlushAll();
      if !ok {
        return false;
      }
      ok := *;
      if !ok {
        ctx.store.faults := ctx.store.faults + 1;
      }
    }

    /** A new size, in the cache only: the file below is never truncated. The reader
        sees the array cut or padded; whether a later write-back can keep it so is
        what the condition says. */
    method Truncate(n: nat)
      requires Valid() && n <= ctx.writer.limit
      modifies this`cache, this`dirtyBlocks, this`size
      ensures size == n && Whole(blockSize, cache)
      ensures SeenBytes(blockSize, cache, ctx.Contents(), size) == Resized(old(Contents()), n)
      ensures Valid() <==> CutHolds(blockSize, old(cache), |ctx.Contents()|, old(size), old(dirtyBlocks), n)
      ensures cache == Cut(blockSize, old(cache), old(size), n)
      ensures dirtyBlocks == CutDirty(blockSize, old(cache), old(dirtyBlocks), old(size), n)
    {
      ghost var before, dirty := cache, dirtyBlocks;
      CutKeepsCoherent(blockSize, cache, ctx.Contents(), size, dirtyBlocks, n);
      if n < size {
        DropBehind(n / blockSize);
        ZeroBehind(n);
      } else if n > size {
        ZeroBehind(size);
      }
      assert cache == Cut(blockSize, before, size, n) && dirtyBlocks == CutDirty(blockSize, before, dirty, size, n);
      size := n;
    }

    /** Forgets the blocks behind the last one. */
    method DropBehind(last: nat)
      modifies this`cache, this`dirtyBlocks
      ensures cache == map k | k in old(cache) && k <= last :: old(cache)[k]
      ensures old(dirtyBlocks) <= old(cache).Keys ==> dirtyBlocks == set k | k in old(dirtyBlocks) && k <= last
    {
      var rest := cache.Keys;
      while rest != {}
        invariant rest <= old(cache).Keys
        invariant cache == map k | k in old(cache) && (k <= last || k in rest) :: old(cache)[k]
        invariant dirtyBlocks == set k | k in old(dirtyBlocks) && (k <= last || k in rest || k !in old(cache))
        decreases rest
      {
        var b :| b in rest;
        rest := rest - {b};
        if b > last {
          cache := cache - {b};
          dirtyBlocks := dirtyBlocks - {b};
        }
      }
    }

    /** Zeros behind this end, in its block, if that is cached. */
    method ZeroBehind(end: nat)
      requires Whole(blockSize, cache)
      modifies this`cache, this`dirtyBlocks
      ensures var b := end / blockSize;
              && cache == (if b in old(cache) then old(cache)[b := ZeroedFrom(old(cache)[b], end % blockSize)]
                           else old(cache))
              && dirtyBlocks == old(dirtyBlocks) + (if b in old(cache) then {b} else {})
    {
      var b := end / blockSize;
      if b in cache {
        cache := cache[b := ZeroedFrom(cache[b], end % blockSize)];
        dirtyBlocks := dirtyBlocks + {b};
      }
    }
  }

  /** One read of at most `n` bytes. */
  method ReadPart(ctx: Context, n: nat) returns (part: seq<byte>, err: Err)
    requires ctx.Valid() && ctx.InStep() && ctx.pos + n <= ctx.reader.limit
    modifies ctx`pos, ctx.store`cursor, ctx.store`faults, ctx.reader.state, ctx.reader.state.cipher
    ensures ctx.store.faults >= old(ctx.store.faults) && (err == Fault ==> ctx.store.faults > old(ctx.store.faults))
    ensures ctx.Valid() && ctx.store.data == old(ctx.store.data) && ctx.InStep()
    ensures |part| <= n && ctx.pos == old(ctx.pos) + |part|
    ensures forall j | 0 <= j < |part| :: part[j] == At(ctx.Contents(), old(ctx.pos) + j)
    ensures err == NoErr && n > 0 ==> |part| > 0
    ensures err == Eof ==> part == [] && old(ctx.pos) >= |ctx.Contents()|
  {
    var buf := new byte[n];
    var k;
    k, err := ctx.Read(buf);
    part := buf[..k];
  }

  /** Reads until `n` bytes are there, the file ends, or a read fails. */
  method ReadFull(ctx: Context, n: nat) returns (got: seq<byte>, err: Err)
    requires ctx.Valid() && ctx.InStep() && ctx.pos + n <= ctx.reader.limit
    modifies ctx`pos, ctx.store`cursor, ctx.store`faults, ctx.reader.state, ctx.reader.state.cipher
    ensures ctx.store.faults >= old(ctx.store.faults) && (err == Fault ==> ctx.store.faults > old(ctx.store.faults))
    ensures ctx.Valid() && ctx.store.data == old(ctx.store.data)
    ensures |got| <= n && forall j | 0 <= j < |got| :: got[j] == At(ctx.Contents(), old(ctx.pos) + j)
    ensures err == NoErr ==> |got| == n
    ensures err == Eof ==> old(ctx.pos) + |got| >= |ctx.Contents()|
  {
    got, err := [], NoErr;
    while |got| < n && err == NoErr
      invariant ctx.store.faults >= old(ctx.store.faults)
      invariant err == Fault ==> ctx.store.faults > old(ctx.store.faults)
      invariant ctx.Valid() && ctx.store.data == old(ctx.store.data) && ctx.InStep()
      invariant |got| <= n && ctx.pos == old(ctx.pos) + |got|
      invariant forall j | 0 <= j < |got| :: got[j] == At(ctx.Contents(), old(ctx.pos) + j)
      invariant err == Eof ==> old(ctx.pos) + |got| >= |ctx.Contents()|
      decreases n - |got|, err == NoErr
    {
      var part;
      part, err := ReadPart(ctx, n - |got|);
      got := got + part;
    }
  }
}
