/** Bytes, exclusive or, and an ordinary byte file as the reference for the encrypted ones. */
module Bytes {

  type byte = bv8

  function Xor(a: byte, b: byte): byte
  {
    a ^ b
  }

  lemma XorTwice(a: byte, k: byte)
    ensures Xor(Xor(a, k), k) == a
  {
  }

  function Zeros(n: nat): (z: seq<byte>)
    ensures |z| == n && forall i | 0 <= i < n :: z[i] == 0
  {
    seq(n, _ => 0)
  }

  function Min(a: int, b: int): int
  {
    if a < b then a else b
  }

  function Max(a: int, b: int): int
  {
    if a < b then b else a
  }

  // --------------------------------------------------- an ordinary byte file

  /** The byte at `i`, zero past the end. */
  function At(b: seq<byte>, i: nat): byte
  {
    if i < |b| then b[i] else 0
  }

  /** The contents extended with zeros to at least `n` bytes. */
  function PadTo(b: seq<byte>, n: nat): (r: seq<byte>)
    ensures |r| == Max(|b|, n) && forall i | 0 <= i < |r| :: r[i] == At(b, i)
  {
    seq(Max(|b|, n), i requires 0 <= i => At(b, i))
  }

  /** The contents after `p` is written at `off`; a gap before it reads as zeros. */
  function Written(b: seq<byte>, off: nat, p: seq<byte>): (r: seq<byte>)
    ensures |r| == Max(|b|, off + |p|)
    ensures forall i | 0 <= i < |r| :: r[i] == if off <= i < off + |p| then p[i - off] else At(b, i)
  {
    seq(Max(|b|, off + |p|), i requires 0 <= i => if off <= i < off + |p| then p[i - off] else At(b, i))
  }

  function Resized(b: seq<byte>, n: nat): (r: seq<byte>)
    ensures |r| == n && forall i | 0 <= i < n :: r[i] == At(b, i)
  {
    seq(n, i requires 0 <= i => At(b, i))
  }

  /** The at most `n` bytes from `off` on. */
  function Slice(b: seq<byte>, off: nat, n: nat): (r: seq<byte>)
    ensures |r| == if off < |b| then Min(n, |b| - off) else 0
    ensures forall i | 0 <= i < |r| :: r[i] == b[off + i]
  {
    if off < |b| then b[off..Min(off + n, |b|)] else []
  }

  /** Two writes one after the other are one write. */
  lemma WrittenTwice(b: seq<byte>, off: nat, p: seq<byte>, q: seq<byte>)
    ensures Written(Written(b, off, p), off + |p|, q) == Written(b, off, p + q)
  {
  }
}
