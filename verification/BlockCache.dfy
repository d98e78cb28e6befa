/** A cache of fixed-size blocks over a byte file, as values: what a reader
    sees through it, and how loading, patching and flushing a block change that. */
module BlockCache {
  import opened Bytes

  type Cache = map<nat, seq<byte>>

  lemma DivModUnique(x: nat, d: nat, q: nat, r: nat)
    requires d > 0 && r < d && x == q * d + r
    ensures x / d == q && x % d == r
  {
    var e := x / d - q;
    assert x == (x / d) * d + x % d;
    assert (x / d) * d - q * d == e * d;
    assert e >= 1 ==> e * d >= d;
    assert e <= -1 ==> e * d + d <= 0;
  }

  lemma BlockStep(x: nat, d: nat, k: nat)
    requires d > 0 && k < d - x % d
    ensures (x + k) / d == x / d && (x + k) % d == x % d + k
  {
    DivModUnique(x + k, d, x / d, x % d + k);
  }

  lemma BlockIndex(d: nat, b: nat, j: nat)
    requires d > 0 && j < d
    ensures (b * d + j) / d == b && (b * d + j) % d == j
  {
    DivModUnique(b * d + j, d, b, j);
  }

  /** Every cached block is a whole block. */
  predicate Whole(d: nat, cache: Cache)
  {
    d > 0 && forall b | b in cache :: |cache[b]| == d
  }

  /** The byte a reader sees at `i`: the cached one, else the file's, else zero. */
  function Seen(d: nat, cache: Cache, file: seq<byte>, i: nat): byte
    requires Whole(d, cache)
  {
    if i / d in cache then cache[i / d][i % d] else At(file, i)
  }

  /** A cached block with nothing to flush: it is what the file holds. */
  predicate Clean(d: nat, block: seq<byte>, file: seq<byte>, b: nat)
  {
    |block| == d && forall j | 0 <= j < d :: block[j] == At(file, b * d + j)
  }

  lemma LoadKeepsSeen(d: nat, cache: Cache, file: seq<byte>, b: nat, block: seq<byte>)
    requires Whole(d, cache) && b !in cache && Clean(d, block, file, b)
    ensures Whole(d, cache[b := block])
    ensures forall i: nat :: Seen(d, cache[b := block], file, i) == Seen(d, cache, file, i)
  {
    forall i: nat
      ensures Seen(d, cache[b := block], file, i) == Seen(d, cache, file, i)
    {
      if i / d == b {
        assert i == b * d + i % d;
      }
    }
  }

  function Patched(block: seq<byte>, at: nat, data: seq<byte>): (r: seq<byte>)
    requires at + |data| <= |block|
    ensures |r| == |block|
    ensures forall j | 0 <= j < |r| :: r[j] == if at <= j < at + |data| then data[j - at] else block[j]
  {
    seq(|block|, j requires 0 <= j < |block| => if at <= j < at + |data| then data[j - at] else block[j])
  }

  /** Patching the block of position `x` changes what is seen at exactly the bytes written. */
  lemma PatchSeen(d: nat, cache: Cache, file: seq<byte>, x: nat, data: seq<byte>)
    requires Whole(d, cache) && x / d in cache && x % d + |data| <= d
    ensures var c := cache[x / d := Patched(cache[x / d], x % d, data)];
            && Whole(d, c)
            && forall i: nat ::
                 Seen(d, c, file, i) == if x <= i < x + |data| then data[i - x] else Seen(d, cache, file, i)
  {
    var c := cache[x / d := Patched(cache[x / d], x % d, data)];
    forall i: nat
      ensures Seen(d, c, file, i) == if x <= i < x + |data| then data[i - x] else Seen(d, cache, file, i)
    {
      if x <= i < x + |data| {
        BlockStep(x, d, i - x);
      } else if i / d == x / d {
        assert i == (x / d) * d + i % d && x == (x / d) * d + x % d;
      }
    }
  }

  /** The part of a block that lies inside a file of `size` bytes. */
  function Inside(d: nat, size: nat, b: nat): nat
  {
    if b * d >= size then 0 else Min(d, size - b * d)
  }

  /** What a whole cache holds, against the file: blocks outside `dirty` are
      clean, nothing is seen past `size`, and if the file is still too short
      then its last block is one of the dirty ones. */
  ghost predicate Coherent(d: nat, cache: Cache, file: seq<byte>, size: nat, dirty: set<nat>)
  {
    && Whole(d, cache)
    && (forall b | b in cache && b !in dirty :: Clean(d, cache[b], file, b))
    && |file| <= size
    && (forall i: nat | i >= size :: Seen(d, cache, file, i) == 0)
    && (|file| < size ==> (size - 1) / d in dirty)
    && dirty <= cache.Keys
  }

  /** The array a reader sees. */
  ghost function SeenBytes(d: nat, cache: Cache, file: seq<byte>, size: nat): (r: seq<byte>)
    requires Whole(d, cache)
    ensures |r| == size && forall i | 0 <= i < size :: r[i] == Seen(d, cache, file, i)
  {
    seq(size, i requires 0 <= i < size => Seen(d, cache, file, i))
  }

  function Flushed(d: nat, cache: Cache, file: seq<byte>, size: nat, b: nat): seq<byte>
    requires Whole(d, cache) && b in cache
  {
    Written(file, b * d, cache[b][..Inside(d, size, b)])
  }

  lemma FlushSeen(d: nat, cache: Cache, file: seq<byte>, size: nat, b: nat, i: nat)
    requires Whole(d, cache) && b in cache && Inside(d, size, b) > 0
    ensures Seen(d, cache, Flushed(d, cache, file, size, b), i) == Seen(d, cache, file, i)
  {
    if b * d <= i < b * d + Inside(d, size, b) {
      BlockIndex(d, b, i - b * d);
    }
  }

  lemma FlushCleans(d: nat, cache: Cache, file: seq<byte>, size: nat, dirty: set<nat>, b: nat)
    requires Coherent(d, cache, file, size, dirty) && b in dirty && Inside(d, size, b) > 0
    ensures Clean(d, cache[b], Flushed(d, cache, file, size, b), b)
  {
    var n := Inside(d, size, b);
    forall j | 0 <= j < d ensures cache[b][j] == At(Flushed(d, cache, file, size, b), b * d + j) {
      BlockIndex(d, b, j);
      if j >= n {
        assert Seen(d, cache, file, b * d + j) == 0;
      }
    }
  }

  lemma FlushLeavesOthers(d: nat, cache: Cache, file: seq<byte>, size: nat, b: nat, k: nat)
    requires Whole(d, cache) && b in cache && k in cache && k != b && Clean(d, cache[k], file, k)
    ensures Clean(d, cache[k], Flushed(d, cache, file, size, b), k)
  {
    forall j | 0 <= j < d ensures cache[k][j] == At(Flushed(d, cache, file, size, b), k * d + j) {
      BlockIndex(d, k, j);
      var x := k * d + j;
      if b * d <= x < b * d + Inside(d, size, b) {
        BlockIndex(d, b, x - b * d);
      }
    }
  }

  lemma FlushReachesTail(d: nat, cache: Cache, file: seq<byte>, size: nat, dirty: set<nat>, b: nat)
    requires Coherent(d, cache, file, size, dirty) && b in dirty && Inside(d, size, b) > 0
    ensures |file| <= |Flushed(d, cache, file, size, b)| <= size
    ensures |Flushed(d, cache, file, size, b)| < size ==> (size - 1) / d in dirty - {b}
  {
    if (size - 1) / d == b {
      assert size - 1 == b * d + (size - 1) % d;
    }
  }

  /** Flushing one dirty block, in whatever order, changes nothing a reader sees. */
  lemma FlushKeepsSeen(d: nat, cache: Cache, file: seq<byte>, size: nat, dirty: set<nat>, b: nat)
    requires Coherent(d, cache, file, size, dirty) && b in dirty && Inside(d, size, b) > 0
    ensures var f := Flushed(d, cache, file, size, b);
            && Coherent(d, cache, f, size, dirty - {b})
            && SeenBytes(d, cache, f, size) == SeenBytes(d, cache, file, size)
  {
    var f := Flushed(d, cache, file, size, b);
    FlushReachesTail(d, cache, file, size, dirty, b);
    forall i: nat ensures Seen(d, cache, f, i) == Seen(d, cache, file, i) {
      FlushSeen(d, cache, file, size, b, i);
    }
    forall k | k in cache && k !in dirty - {b} ensures Clean(d, cache[k], f, k) {
      if k == b {
        FlushCleans(d, cache, file, size, dirty, b);
      } else {
        FlushLeavesOthers(d, cache, file, size, b, k);
      }
    }
  }

  lemma CleanByte(d: nat, block: seq<byte>, file: seq<byte>, i: nat)
    requires d > 0 && Clean(d, block, file, i / d)
    ensures block[i % d] == At(file, i)
  {
    var b, j := i / d, i % d;
    assert i == b * d + j;
    assert block[j] == At(file, b * d + j);
  }

  /** With nothing left to flush, the file is what a reader sees. */
  lemma CleanCacheIsFile(d: nat, cache: Cache, file: seq<byte>, size: nat)
    requires Coherent(d, cache, file, size, {})
    ensures file == SeenBytes(d, cache, file, size)
  {
    forall i | 0 <= i < size ensures Seen(d, cache, file, i) == file[i] {
      if i / d in cache {
        CleanByte(d, cache[i / d], file, i);
      }
    }
  }

  /** A block that lies past the end has nothing to flush. */
  lemma FlushOutside(d: nat, cache: Cache, file: seq<byte>, size: nat, dirty: set<nat>, b: nat)
    requires Coherent(d, cache, file, size, dirty) && b in dirty && Inside(d, size, b) == 0
    ensures Coherent(d, cache, file, size, dirty - {b})
  {
    forall j | 0 <= j < d ensures cache[b][j] == At(file, b * d + j) {
      BlockIndex(d, b, j);
      assert Seen(d, cache, file, b * d + j) == 0;
    }
    assert size > 0 ==> size - 1 == ((size - 1) / d) * d + (size - 1) % d;
  }

  /** Blocks were loaded and nothing else happened. */
  ghost predicate Loaded(d: nat, before: Cache, after: Cache, file: seq<byte>)
  {
    && Whole(d, before) && Whole(d, after)
    && before.Keys <= after.Keys
    && (forall k | k in before :: after[k] == before[k])
    && (forall k | k in after && k !in before :: Clean(d, after[k], file, k))
    && (forall i: nat :: Seen(d, after, file, i) == Seen(d, before, file, i))
  }

  lemma LoadsBlock(d: nat, cache: Cache, file: seq<byte>, size: nat, b: nat, block: seq<byte>)
    requires Whole(d, cache) && |file| <= size && b !in cache && |block| == d
    requires forall j | 0 <= j < d :: block[j] == if j < Inside(d, size, b) then At(file, b * d + j) else 0
    ensures Loaded(d, cache, cache[b := block], file)
  {
    assert Clean(d, block, file, b);
    LoadKeepsSeen(d, cache, file, b, block);
  }

  lemma LoadKeepsCoherent(d: nat, before: Cache, after: Cache, file: seq<byte>, size: nat, dirty: set<nat>)
    requires Coherent(d, before, file, size, dirty) && Loaded(d, before, after, file)
    ensures Coherent(d, after, file, size, dirty)
    ensures SeenBytes(d, after, file, size) == SeenBytes(d, before, file, size)
  {
    forall k | k in after && k !in dirty ensures Clean(d, after[k], file, k) {
      if k in before {
        assert Clean(d, before[k], file, k);
      }
    }
    forall i: nat | i >= size ensures Seen(d, after, file, i) == 0 {
      assert Seen(d, before, file, i) == 0;
    }
  }

  /** The bytes of a cached block are what is seen at its positions. */
  lemma BlockBytes(d: nat, cache: Cache, file: seq<byte>, x: nat, k: nat)
    requires Whole(d, cache) && x / d in cache && k <= d - x % d
    ensures forall q | x <= q < x + k :: Seen(d, cache, file, q) == cache[x / d][x % d + (q - x)]
  {
    forall q | x <= q < x + k
      ensures Seen(d, cache, file, q) == cache[x / d][x % d + (q - x)]
    {
      BlockStep(x, d, q - x);
    }
  }

  lemma PieceSeen(d: nat, cache: Cache, file: seq<byte>, size: nat, x: nat, k: nat, b: nat, offset: nat)
    requires Whole(d, cache) && b == x / d && offset == x % d && b in cache && k <= d - offset && x + k <= size
    ensures cache[b][offset..offset + k] == SeenBytes(d, cache, file, size)[x..x + k]
  {
    BlockBytes(d, cache, file, x, k);
    var piece, seen := cache[b][offset..offset + k], SeenBytes(d, cache, file, size)[x..x + k];
    forall j | 0 <= j < k ensures piece[j] == seen[j] {
      assert seen[j] == Seen(d, cache, file, x + j);
    }
  }

  /** A write in progress: `data` is seen at `at`, everything else as before, and
      every block touched is marked. */
  ghost predicate Writing(d: nat, before: Cache, after: Cache, file: seq<byte>, dirty: set<nat>, marked: set<nat>,
                          at: nat, data: seq<byte>)
  {
    && Whole(d, before) && Whole(d, after)
    && (forall i: nat :: Seen(d, after, file, i) ==
          if at <= i < at + |data| then data[i - at] else Seen(d, before, file, i))
    && (forall b | b in after && b !in marked :: Clean(d, after[b], file, b))
    && dirty <= marked <= after.Keys
    && (data != [] ==> (at + |data| - 1) / d in marked)
  }

  lemma LoadWhileWriting(d: nat, before: Cache, mid: Cache, after: Cache, file: seq<byte>, dirty: set<nat>,
                         marked: set<nat>, at: nat, data: seq<byte>)
    requires Writing(d, before, mid, file, dirty, marked, at, data) && Loaded(d, mid, after, file)
    ensures Writing(d, before, after, file, dirty, marked, at, data)
  {
    forall k | k in after && k !in marked ensures Clean(d, after[k], file, k) {
      if k in mid {
        assert Clean(d, mid[k], file, k);
      }
    }
  }

  lemma PatchWhileWriting(d: nat, before: Cache, mid: Cache, file: seq<byte>, dirty: set<nat>, marked: set<nat>,
                          at: nat, data: seq<byte>, n: nat, k: nat, after: Cache)
    requires n < n + k <= |data| && Writing(d, before, mid, file, dirty, marked, at, data[..n])
    requires (at + n) / d in mid && (at + n) % d + k <= d
    requires after == mid[(at + n) / d := Patched(mid[(at + n) / d], (at + n) % d, data[n..n + k])]
    ensures Writing(d, before, after, file, dirty, marked + {(at + n) / d}, at, data[..n + k])
  {
    var x := at + n;
    PatchSeen(d, mid, file, x, data[n..n + k]);
    BlockStep(x, d, k - 1);
  }

  /** A finished write keeps the cache in order for the new size, unless it wrote
      nothing and so moved the end of the file into a block with nothing to flush. */
  lemma WriteKeepsCoherent(d: nat, before: Cache, after: Cache, file: seq<byte>, size: nat, dirty: set<nat>,
                           marked: set<nat>, at: nat, data: seq<byte>)
    requires Coherent(d, before, file, size, dirty) && Writing(d, before, after, file, dirty, marked, at, data)
    ensures Coherent(d, after, file, Max(size, at + |data|), marked) <==>
              data != [] || at <= size || (at - 1) / d in marked
    ensures SeenBytes(d, after, file, Max(size, at + |data|)) == Written(SeenBytes(d, before, file, size), at, data)
  {
    forall i: nat | i >= Max(size, at + |data|) ensures Seen(d, after, file, i) == 0 {
      assert Seen(d, before, file, i) == 0;
    }
    var r, w := SeenBytes(d, after, file, Max(size, at + |data|)), Written(SeenBytes(d, before, file, size), at, data);
    forall i | 0 <= i < |r| ensures r[i] == w[i] {
      assert i >= size ==> Seen(d, before, file, i) == 0;
    }
  }

  // ------------------------------------------------------------- another size

  function ZeroedFrom(block: seq<byte>, offset: nat): (r: seq<byte>)
    requires offset <= |block|
    ensures |r| == |block| && forall j | 0 <= j < |r| :: r[j] == if j < offset then block[j] else 0
  {
    block[..offset] + Zeros(|block| - offset)
  }

  /** The block that the old or the new end lies in, whichever comes first. */
  function EndBlock(d: nat, size: nat, n: nat): nat
    requires d > 0
  {
    Min(size, n) / d
  }

  /** The cache for the new size `n`: no blocks behind the new end, and zeros behind
      the smaller of the two ends in its block, if that is cached. */
  function Cut(d: nat, cache: Cache, size: nat, n: nat): Cache
    requires Whole(d, cache)
  {
    var b := EndBlock(d, size, n);
    var kept := if n < size then (map k | k in cache && k <= b :: cache[k]) else cache;
    if n != size && b in cache then kept[b := ZeroedFrom(cache[b], Min(size, n) % d)] else kept
  }

  function CutDirty(d: nat, cache: Cache, dirty: set<nat>, size: nat, n: nat): set<nat>
    requires d > 0
  {
    var b := EndBlock(d, size, n);
    (if n < size then (set k | k in dirty && k <= b) else dirty) + (if n != size && b in cache then {b} else {})
  }

  /** A smaller block ends before a larger one begins. */
  lemma BlockEnds(d: nat, a: nat, b: nat)
    requires a < b
    ensures a * d + d <= b * d
  {
    var more := b - a - 1;
    assert b * d == a * d + d + more * d;
    assert more * d >= 0;
  }

  lemma BlocksInOrder(d: nat, i: nat, m: nat)
    requires d > 0 && i / d != m / d
    ensures i < m <==> i / d < m / d
  {
    var a, b := i / d, m / d;
    assert i == a * d + i % d && m == b * d + m % d;
    if a < b {
      BlockEnds(d, a, b);
    } else {
      BlockEnds(d, b, a);
    }
  }

  lemma CutBlock(d: nat, cache: Cache, size: nat, n: nat, k: nat)
    requires Whole(d, cache)
    ensures Whole(d, Cut(d, cache, size, n))
    ensures var b := EndBlock(d, size, n);
            && (k in Cut(d, cache, size, n) <==> k in cache && (n < size ==> k <= b))
            && (k in Cut(d, cache, size, n) ==>
                  Cut(d, cache, size, n)[k] ==
                  if n != size && k == b then ZeroedFrom(cache[k], Min(size, n) % d) else cache[k])
  {
  }

  /** Where a position stands to an end, by block and by offset. */
  lemma PositionInBlock(d: nat, i: nat, m: nat)
    requires d > 0
    ensures i / d == m / d ==> (i < m <==> i % d < m % d)
    ensures i / d != m / d ==> (i < m <==> i / d < m / d)
  {
    var a, b := i / d, m / d;
    assert i == a * d + i % d && m == b * d + m % d;
    if a != b {
      BlocksInOrder(d, i, m);
    }
  }

  lemma CutSeen(d: nat, cache: Cache, file: seq<byte>, size: nat, n: nat, i: nat)
    requires Whole(d, cache) && forall i: nat | i >= size :: Seen(d, cache, file, i) == 0
    ensures Whole(d, Cut(d, cache, size, n))
    ensures i < n ==> Seen(d, Cut(d, cache, size, n), file, i) == if i < size then Seen(d, cache, file, i) else 0
    ensures i >= n && i >= |file| ==> Seen(d, Cut(d, cache, size, n), file, i) == 0
  {
    CutBlock(d, cache, size, n, i / d);
    PositionInBlock(d, i, Min(size, n));
    assert i >= size ==> Seen(d, cache, file, i) == 0;
  }

  /** The cache is in order for the new size exactly if the file below is no longer,
      and, if it is shorter, the new last block is to be flushed. */
  predicate CutHolds(d: nat, cache: Cache, fileSize: nat, size: nat, dirty: set<nat>, n: nat)
    requires d > 0
  {
    && fileSize <= n
    && (fileSize < n ==> (n - 1) / d in dirty
                         || (n != size && (n - 1) / d == EndBlock(d, size, n) && (n - 1) / d in cache))
  }

  /** Whatever the size was, a reader sees the array cut or padded with zeros. But the
      cache stays in order only where the condition holds. */
  lemma CutKeepsCoherent(d: nat, cache: Cache, file: seq<byte>, size: nat, dirty: set<nat>, n: nat)
    requires Coherent(d, cache, file, size, dirty)
    ensures Whole(d, Cut(d, cache, size, n))
    ensures SeenBytes(d, Cut(d, cache, size, n), file, n) == Resized(SeenBytes(d, cache, file, size), n)
    ensures Coherent(d, Cut(d, cache, size, n), file, n, CutDirty(d, cache, dirty, size, n)) <==>
            CutHolds(d, cache, |file|, size, dirty, n)
  {
    var c, t := Cut(d, cache, size, n), CutDirty(d, cache, dirty, size, n);
    CutSeen(d, cache, file, size, n, 0);
    forall i: nat
      ensures i < n ==> Seen(d, c, file, i) == if i < size then Seen(d, cache, file, i) else 0
      ensures i >= n && i >= |file| ==> Seen(d, c, file, i) == 0
    {
      CutSeen(d, cache, file, size, n, i);
    }
    if n > 0 {
      LastBlockMarked(d, cache, dirty, size, n);
    }
  }

  lemma LastBlockMarked(d: nat, cache: Cache, dirty: set<nat>, size: nat, n: nat)
    requires d > 0 && n > 0
    ensures (n - 1) / d in CutDirty(d, cache, dirty, size, n) <==>
            (n - 1) / d in dirty || (n != size && (n - 1) / d == EndBlock(d, size, n) && (n - 1) / d in cache)
  {
    if n < size && (n - 1) / d != n / d {
      BlocksInOrder(d, n - 1, n);
    }
  }

  /** Flushing these blocks, one after the other. */
  function FlushedAll(d: nat, cache: Cache, file: seq<byte>, size: nat, order: seq<nat>): seq<byte>
    requires Whole(d, cache) && forall b | b in order :: b in cache
  {
    if order == [] then file
    else Flushed(d, cache, FlushedAll(d, cache, file, size, order[..|order| - 1]), size, order[|order| - 1])
  }

  /** Where the condition fails no order of flushing makes the file below as long as
      the array: it stays too long, or too short. */
  lemma {:induction false} CutIsNotWrittenBack(d: nat, cache: Cache, file: seq<byte>, size: nat, dirty: set<nat>,
                                               n: nat, order: seq<nat>)
    requires Coherent(d, cache, file, size, dirty) && !CutHolds(d, cache, |file|, size, dirty, n)
    requires Whole(d, Cut(d, cache, size, n))
    requires forall b | b in order ::
               b in Cut(d, cache, size, n) && b in CutDirty(d, cache, dirty, size, n) && Inside(d, n, b) > 0
    ensures |FlushedAll(d, Cut(d, cache, size, n), file, n, order)| != n
    ensures |file| > n <==> |FlushedAll(d, Cut(d, cache, size, n), file, n, order)| > n
  {
    if order != [] {
      var c, b := Cut(d, cache, size, n), order[|order| - 1];
      CutIsNotWrittenBack(d, cache, file, size, dirty, n, order[..|order| - 1]);
      assert b in order;
      if |file| < n {
        LastBlockMarked(d, cache, dirty, size, n);
        FlushStaysShort(d, n, b);
      }
    }
  }

  lemma BehindIsOutside(d: nat, n: nat, b: nat)
    requires d > 0 && n > 0 && b > (n - 1) / d
    ensures Inside(d, n, b) == 0
  {
    var last := (n - 1) / d;
    assert n - 1 == last * d + (n - 1) % d;
    BlockEnds(d, last, b);
  }

  lemma FlushStaysShort(d: nat, n: nat, b: nat)
    requires d > 0 && n > 0 && b != (n - 1) / d && Inside(d, n, b) > 0
    ensures b * d + Inside(d, n, b) < n
  {
    var last := (n - 1) / d;
    assert n - 1 == last * d + (n - 1) % d;
    if b > last {
      BehindIsOutside(d, n, b);
    } else {
      BlockEnds(d, b, last);
    }
  }
}
