/** The four stream ciphers. Each one XORs byte `p` of a file with a key byte
    that depends on `p` alone; the code below computes it in blocks, with
    counters and with cached cipher objects. The primitives (one AES block, one
    ChaCha20 block, the RC4 generator) are unknown functions. */
module Ciphers {
  import opened Bytes

  const BLOCK: nat := 16
  const CHACHA_BLOCK: nat := 64
  const TWO32: nat := 0x1_0000_0000
  const TWO38: nat := 0x40_0000_0000
  const MAX_INT64: nat := 0x7FFF_FFFF_FFFF_FFFF
  const CHUNK: nat := 65536
  const QUICK_LIMIT: nat := 1024

  type Block = b: seq<byte> | |b| == 16
    witness [0, 0, 0, 0, 0, 0, 0, 0, 0, 0, 0, 0, 0, 0, 0, 0]

  /** A cipher input that is computed as a number: its sixteen octets. */
  newtype octet = x: int | 0 <= x < 256
  type Counter = seq<octet>

  datatype Cipher =
    | Xts(cipher1: Block -> Block, cipher2: Counter -> Block)
    | Ctr(encrypt: Counter -> Block)
    | ChaCha(block: nat -> seq<byte>)
    | Rc4(stream: nat -> byte)

  // --------------------------------------------------------------- key bytes

  function LittleEndian(n: nat, k: nat): (r: Counter)
    ensures |r| == k
  {
    if k == 0 then [] else [(n % 256) as octet] + LittleEndian(n / 256, k - 1)
  }

  function Power256(k: nat): nat
  {
    if k == 0 then 1 else 256 * Power256(k - 1)
  }

  function BigEndian(n: nat, k: nat): (r: Counter)
    ensures |r| == k
  {
    if k == 0 then [] else BigEndian(n / 256, k - 1) + [(n % 256) as octet]
  }

  /** The eight octets of a counter block that stay zero. */
  function Nonce(): Counter
  {
    [0, 0, 0, 0, 0, 0, 0, 0]
  }

  function XorBlock(a: Block, b: Block): Block
  {
    seq(BLOCK, i requires 0 <= i < BLOCK => Xor(a[i], b[i]))
  }

  /** The tweak of a disk block: its number, little-endian, under the second key. */
  function Tweak(c: Cipher, n: nat): Block
    requires c.Xts?
  {
    c.cipher2(LittleEndian(n, 8) + Nonce())
  }

  /** A block of zeros in XTS mode: the tweak enciphered, under the tweak. */
  function XtsKeystream(c: Cipher, n: nat): Block
    requires c.Xts?
  {
    XorBlock(c.cipher1(Tweak(c, n)), Tweak(c, n))
  }

  /** Counter block `n` of section 6.5 of NIST SP 800-38A: a zero nonce and the
      block number, big-endian. */
  function CounterBlock(n: nat): Counter
  {
    Nonce() + BigEndian(n, 8)
  }

  /** The ChaCha20 block for a counter, as section 2.3 of RFC 8439 has it. */
  function ChaChaByte(c: Cipher, p: nat): byte
    requires c.ChaCha?
  {
    At(c.block(p / CHACHA_BLOCK), p % CHACHA_BLOCK)
  }

  /** The key byte of file position `p`. */
  function KeyByte(c: Cipher, p: nat): byte
  {
    match c
    case Xts(_, _) => XtsKeystream(c, p / BLOCK)[p % BLOCK]
    case Ctr(encrypt) => encrypt(CounterBlock(p / BLOCK))[p % BLOCK]
    case ChaCha(_) => ChaChaByte(c, p)
    case Rc4(stream) => stream(p)
  }

  // -------------------------------------------- which input a position is given

  /** Octets as a number, the least first: octet `i` counts 256 to the power `i`. */
  function LeastFirst(s: Counter): nat
  {
    if s == [] then 0 else LeastFirst(s[..|s| - 1]) + s[|s| - 1] as nat * Power256(|s| - 1)
  }

  /** Octets as a number, the least last. */
  function LeastLast(s: Counter): nat
  {
    if s == [] then 0 else s[0] as nat * Power256(|s| - 1) + LeastLast(s[1..])
  }

  lemma OneMorePower(k: nat, a: nat, b: nat)
    ensures a * Power256(k + 1) == 256 * (a * Power256(k))
    ensures 256 * (a + b) == 256 * a + 256 * b
  {
    assert Power256(k + 1) == 256 * Power256(k);
  }

  lemma {:induction false} LeastFirstCons(x: octet, s: Counter)
    ensures LeastFirst([x] + s) == x as nat + 256 * LeastFirst(s)
  {
    var t := [x] + s;
    if s == [] {
      assert t[..0] == [];
      assert LeastFirst(t) == LeastFirst([]) + x as nat * Power256(0);
    } else {
      assert t[..|t| - 1] == [x] + s[..|s| - 1] && t[|t| - 1] == s[|s| - 1];
      LeastFirstCons(x, s[..|s| - 1]);
      OneMorePower(|s| - 1, s[|s| - 1] as nat, LeastFirst(s[..|s| - 1]));
      OneMorePower(|s| - 1, LeastFirst(s[..|s| - 1]), s[|s| - 1] as nat * Power256(|s| - 1));
    }
  }

  lemma {:induction false} LeastLastSnoc(s: Counter, x: octet)
    ensures LeastLast(s + [x]) == 256 * LeastLast(s) + x as nat
  {
    var t := s + [x];
    if s == [] {
      assert t[1..] == [];
      assert LeastLast(t) == x as nat * Power256(0) + LeastLast([]);
    } else {
      assert t[1..] == s[1..] + [x] && t[0] == s[0];
      LeastLastSnoc(s[1..], x);
      OneMorePower(|s| - 1, s[0] as nat, LeastLast(s[1..]));
      OneMorePower(|s| - 1, s[0] as nat * Power256(|s| - 1), LeastLast(s[1..]));
    }
  }

  lemma DivideByOctet(n: nat, k: nat)
    requires k > 0 && n < Power256(k)
    ensures n / 256 < Power256(k - 1) && n == 256 * (n / 256) + n % 256
  {
  }

  lemma {:induction false} LittleEndianIs(n: nat, k: nat)
    requires n < Power256(k)
    ensures LeastFirst(LittleEndian(n, k)) == n
  {
    if k > 0 {
      DivideByOctet(n, k);
      LittleEndianIs(n / 256, k - 1);
      LeastFirstCons((n % 256) as octet, LittleEndian(n / 256, k - 1));
    }
  }

  lemma {:induction false} BigEndianIs(n: nat, k: nat)
    requires n < Power256(k)
    ensures LeastLast(BigEndian(n, k)) == n
  {
    if k > 0 {
      DivideByOctet(n, k);
      BigEndianIs(n / 256, k - 1);
      LeastLastSnoc(BigEndian(n / 256, k - 1), (n % 256) as octet);
    }
  }

  lemma {:induction false} ZerosAfter(s: Counter, zeros: Counter)
    requires forall i | 0 <= i < |zeros| :: zeros[i] == 0
    ensures LeastFirst(s + zeros) == LeastFirst(s)
  {
    if zeros == [] {
      assert s + zeros == s;
    } else {
      assert (s + zeros)[..|s + zeros| - 1] == s + zeros[..|zeros| - 1];
      ZerosAfter(s, zeros[..|zeros| - 1]);
    }
  }

  lemma {:induction false} ZerosBefore(zeros: Counter, s: Counter)
    requires forall i | 0 <= i < |zeros| :: zeros[i] == 0
    ensures LeastLast(zeros + s) == LeastLast(s)
  {
    if zeros == [] {
      assert zeros + s == s;
    } else {
      assert (zeros + s)[1..] == zeros[1..] + s;
      ZerosBefore(zeros[1..], s);
    }
  }

  lemma EightOctets()
    ensures Power256(8) == 0x1_0000_0000_0000_0000
  {
    assert Power256(1) == 256;
    assert Power256(2) == 65536;
    assert Power256(4) == 0x1_0000_0000;
  }

  lemma TweakInputIs(n: nat)
    requires n <= MAX_INT64
    ensures LeastFirst(LittleEndian(n, 8) + Nonce()) == n
  {
    EightOctets();
    LittleEndianIs(n, 8);
    ZerosAfter(LittleEndian(n, 8), Nonce());
  }

  lemma CounterIs(n: nat)
    requires n <= MAX_INT64
    ensures LeastLast(CounterBlock(n)) == n
  {
    EightOctets();
    BigEndianIs(n, 8);
    ZerosBefore(Nonce(), BigEndian(n, 8));
  }

  /** Byte `i` of AES-XTS block `n`: the second key enciphers the sixteen octets that
      stand for `n`, the least first, and the first key what comes out of that. */
  lemma XtsInput(cipher1: Block -> Block, cipher2: Counter -> Block, n: nat, i: nat) returns (input: Counter)
    requires 16 * n + i <= MAX_INT64 && i < 16
    ensures |input| == 16 && LeastFirst(input) == n
    ensures KeyByte(Xts(cipher1, cipher2), 16 * n + i) == Xor(cipher1(cipher2(input))[i], cipher2(input)[i])
  {
    input := LittleEndian(n, 8) + Nonce();
    TweakInputIs(n);
    assert (16 * n + i) / BLOCK == n && (16 * n + i) % BLOCK == i;
  }

  /** Byte `i` of AES-CTR block `n`: the key enciphers the sixteen octets that stand
      for `n`, the least last. */
  lemma CtrInput(encrypt: Counter -> Block, n: nat, i: nat) returns (input: Counter)
    requires 16 * n + i <= MAX_INT64 && i < 16
    ensures |input| == 16 && LeastLast(input) == n
    ensures KeyByte(Ctr(encrypt), 16 * n + i) == encrypt(input)[i]
  {
    input := CounterBlock(n);
    CounterIs(n);
    assert (16 * n + i) / BLOCK == n && (16 * n + i) % BLOCK == i;
  }

  /** Byte `i` of ChaCha20 block `n` is byte `i` of the block of counter `n`, and that
      counter has 32 bits (section 2.3 of RFC 8439). */
  lemma ChaChaInput(block: nat -> seq<byte>, n: nat, i: nat)
    requires 64 * n + i < TWO38 && i < 64 && |block(n)| == 64
    ensures KeyByte(ChaCha(block), 64 * n + i) == block(n)[i] && n < 0x1_0000_0000
  {
    assert (64 * n + i) / CHACHA_BLOCK == n && (64 * n + i) % CHACHA_BLOCK == i;
  }

  /** Byte `p` of RC4 is the generator's byte number `p`, whichever byte that is. */
  lemma Rc4Input(stream: nat -> byte, p: nat)
    ensures KeyByte(Rc4(stream), p) == stream(p)
  {
  }

  /** With an injective second cipher no two AES-XTS blocks have the same tweak. */
  lemma TweaksDiffer(c: Cipher, m: nat, n: nat)
    requires c.Xts? && m != n && 16 * m <= MAX_INT64 && 16 * n <= MAX_INT64
    requires forall s, t :: c.cipher2(s) == c.cipher2(t) ==> s == t
    ensures Tweak(c, m) != Tweak(c, n)
  {
    TweakInputIs(m);
    TweakInputIs(n);
  }

  predicate DifferAt(c: Cipher, m: nat, n: nat, i: nat)
  {
    i < 16 && KeyByte(c, 16 * m + i) != KeyByte(c, 16 * n + i)
  }

  /** With an injective cipher no two AES-CTR blocks have the same key bytes. */
  lemma CtrBlocksDiffer(c: Cipher, m: nat, n: nat)
    requires c.Ctr? && m != n && 16 * m <= MAX_INT64 && 16 * n <= MAX_INT64
    requires forall s, t :: c.encrypt(s) == c.encrypt(t) ==> s == t
    ensures exists i :: DifferAt(c, m, n, i)
  {
    CounterIs(m);
    CounterIs(n);
    var a, b := c.encrypt(CounterBlock(m)), c.encrypt(CounterBlock(n));
    var i :| 0 <= i < 16 && a[i] != b[i];
    BlockStart(m, i);
    BlockStart(n, i);
    assert DifferAt(c, m, n, i);
  }

  /** A key stream: one byte for each file position. */
  type Key = nat -> byte

  ghost predicate KeyOf(c: Cipher, key: Key)
  {
    forall p: nat {:trigger KeyByte(c, p)} :: key(p) == KeyByte(c, p)
  }

  /** `data` under the key bytes from `pos` on; its own inverse. */
  function XorAt(key: Key, pos: nat, data: seq<byte>): (r: seq<byte>)
    ensures |r| == |data|
    ensures forall i | 0 <= i < |r| :: r[i] == Xor(data[i], key(pos + i))
  {
    seq(|data|, i requires 0 <= i < |data| => Xor(data[i], key(pos + i)))
  }

  lemma XorAtTwice(key: Key, pos: nat, data: seq<byte>)
    ensures XorAt(key, pos, XorAt(key, pos, data)) == data
  {
    forall i | 0 <= i < |data| ensures XorAt(key, pos, XorAt(key, pos, data))[i] == data[i] {
      XorTwice(data[i], key(pos + i));
    }
  }

  /** However a file is cut into pieces, each piece meets the same key bytes. */
  lemma XorAtSplit(key: Key, pos: nat, data: seq<byte>, k: nat)
    requires k <= |data|
    ensures XorAt(key, pos, data) == XorAt(key, pos, data[..k]) + XorAt(key, pos + k, data[k..])
  {
  }

  /** Positions the code can work at: the 64-bit file offsets, and for ChaCha20
      the 256 GiB that its 32-bit block counter reaches. */
  function Limit(c: Cipher): nat
  {
    if c.ChaCha? then TWO38 else MAX_INT64
  }

  // -------------------------------------------------------- counter increment

  /** Big-endian increment with carry, as the library's CTR mode does it. */
  function Increment(s: Counter): (r: Counter)
    ensures |r| == |s|
  {
    if s == [] then []
    else if s[|s| - 1] == 255 then Increment(s[..|s| - 1]) + [0]
    else s[..|s| - 1] + [s[|s| - 1] + 1]
  }

  /** Some byte can absorb the carry. */
  predicate Absorbs(s: Counter)
  {
    exists i | 0 <= i < |s| :: s[i] != 255
  }

  lemma NextOctet(n: nat)
    ensures if n % 256 == 255 then (n + 1) / 256 == n / 256 + 1 && (n + 1) % 256 == 0
            else (n + 1) / 256 == n / 256 && (n + 1) % 256 == n % 256 + 1
    ensures n % 256 == 255 ==> n + 1 == 256 * (n / 256 + 1)
  {
  }

  lemma {:induction false} IncrementBigEndian(n: nat, k: nat)
    requires n + 1 < Power256(k)
    ensures Increment(BigEndian(n, k)) == BigEndian(n + 1, k) && Absorbs(BigEndian(n, k))
  {
    var s, high := BigEndian(n, k), BigEndian(n / 256, k - 1);
    assert s[..|s| - 1] == high && s[|s| - 1] == (n % 256) as octet;
    NextOctet(n);
    if n % 256 == 255 {
      IncrementBigEndian(n / 256, k - 1);
      AbsorbsLonger(high, s[|s| - 1]);
    }
  }

  lemma AbsorbsLonger(s: Counter, last: octet)
    requires Absorbs(s)
    ensures Absorbs(s + [last])
  {
    var i :| 0 <= i < |s| && s[i] != 255;
    assert (s + [last])[i] != 255;
  }

  lemma {:induction false} IncrementPrefix(p: Counter, s: Counter)
    requires Absorbs(s)
    ensures Increment(p + s) == p + Increment(s)
  {
    var t := p + s;
    assert t[..|t| - 1] == p + s[..|s| - 1];
    if s[|s| - 1] == 255 {
      var i :| 0 <= i < |s| && s[i] != 255;
      assert s[..|s| - 1][i] != 255;
      IncrementPrefix(p, s[..|s| - 1]);
    }
  }

  /** Block numbers of 64-bit positions never carry out of the low eight counter
      bytes, so incrementing the whole counter only moves to the next block. */
  lemma CounterIncrements(n: nat)
    requires n <= MAX_INT64
    ensures Increment(CounterBlock(n)) == CounterBlock(n + 1)
  {
    EightOctets();
    IncrementBigEndian(n, 8);
    IncrementPrefix(Nonce(), BigEndian(n, 8));
  }

  // ------------------------------------------------------- XOR in place

  /** XORs `n` bytes of `data` from `at` on with key bytes from `from` on. */
  method XorRange(data: array<byte>, at: nat, n: nat, key: seq<byte>, from: nat)
    requires at + n <= data.Length && from + n <= |key|
    modifies data
    ensures forall i | 0 <= i < data.Length ::
              data[i] == if at <= i < at + n then Xor(old(data[i]), key[from + (i - at)]) else old(data[i])
  {
    forall i | at <= i < at + n {
      data[i] := Xor(data[i], key[from + (i - at)]);
    }
  }

  /** The first `n` bytes of `data` XORed in place with the key bytes of file position `pos`. */
  twostate predicate Xored(c: Cipher, data: array<byte>, n: nat, pos: nat)
    requires n <= data.Length
    reads data
  {
    && (forall i | 0 <= i < n :: data[i] == Xor(old(data[i]), KeyByte(c, pos + i)))
    && (forall i | n <= i < data.Length :: data[i] == old(data[i]))
  }

  /** AES-XTS, block by block, the same for encryption and decryption. */
  method XorBlocks(c: Cipher, data: array<byte>, n: nat, pos: nat)
    requires c.Xts? && n <= data.Length && pos + n <= MAX_INT64
    modifies data
    ensures Xored(c, data, n, pos)
  {
    var dataOffset, p := 0, pos;
    while dataOffset < n
      invariant dataOffset <= n && p == pos + dataOffset
      invariant forall i | 0 <= i < dataOffset :: data[i] == Xor(old(data[i]), KeyByte(c, pos + i))
      invariant forall i | dataOffset <= i < data.Length :: data[i] == old(data[i])
    {
      var blockNum, blockOffset := p / BLOCK, p % BLOCK;
      var toProcess := Min(BLOCK - blockOffset, n - dataOffset);
      var keystream := GenerateKeystream(c, blockNum);
      XorRange(data, dataOffset, toProcess, keystream, blockOffset);
      dataOffset, p := dataOffset + toProcess, p + toProcess;
    }
  }

  method GenerateKeystream(c: Cipher, blockNum: nat) returns (keystream: Block)
    requires c.Xts?
    ensures forall i | 0 <= i < BLOCK :: keystream[i] == KeyByte(c, blockNum * BLOCK + i)
  {
    var tweak := Tweak(c, blockNum);
    keystream := Zeros(BLOCK);
    keystream := XorBlock(keystream, tweak);
    assert keystream == tweak by {
      assert forall k: byte :: Xor(0, k) == k;
    }
    keystream := c.cipher1(keystream);
    keystream := XorBlock(keystream, tweak);
    forall i | 0 <= i < BLOCK ensures keystream[i] == KeyByte(c, blockNum * BLOCK + i) {
      BlockStart(blockNum, i);
    }
  }

  lemma BlockStart(n: nat, i: nat)
    requires i < BLOCK
    ensures (n * BLOCK + i) / BLOCK == n && (n * BLOCK + i) % BLOCK == i
  {
  }

  /** Positions up to the end of a block share its number. */
  lemma SameBlock(p: nat, i: nat)
    requires i < BLOCK - p % BLOCK
    ensures (p + i) / BLOCK == p / BLOCK && (p + i) % BLOCK == p % BLOCK + i
  {
  }

  lemma NextByteOrBlock(p: nat)
    ensures if p % BLOCK + 1 < BLOCK then (p + 1) / BLOCK == p / BLOCK && (p + 1) % BLOCK == p % BLOCK + 1
            else (p + 1) / BLOCK == p / BLOCK + 1 && (p + 1) % BLOCK == 0
  {
  }

  /** The sixteen key bytes of a block. */
  function KeyBlock(c: Cipher, n: nat): Block
    requires c.Xts? || c.Ctr?
  {
    if c.Xts? then XtsKeystream(c, n) else c.encrypt(CounterBlock(n))
  }

  lemma KeyBytesOfBlock(c: Cipher, p: nat, n: nat)
    requires (c.Xts? || c.Ctr?) && n <= BLOCK - p % BLOCK
    ensures forall q | p <= q < p + n :: KeyByte(c, q) == KeyBlock(c, p / BLOCK)[p % BLOCK + (q - p)]
  {
    forall q | p <= q < p + n
      ensures KeyByte(c, q) == KeyBlock(c, p / BLOCK)[p % BLOCK + (q - p)]
    {
      SameBlock(p, q - p);
    }
  }

  // ---------------------------------------------------------------- AES-CTR

  /** The library's CTR stream: a counter, and how much of its block is used. */
  class CtrStream {
    const encrypt: Counter -> Block
    var counter: Counter
    var used: nat
    ghost var at: nat

    ghost predicate Valid()
      reads this
    {
      used < BLOCK && used == at % BLOCK && counter == CounterBlock(at / BLOCK)
    }

    constructor (encrypt: Counter -> Block, iv: Counter, ghost n: nat)
      requires iv == CounterBlock(n)
      ensures Valid() && at == n * BLOCK && this.encrypt == encrypt
    {
      this.encrypt, counter, used, at := encrypt, iv, 0, n * BLOCK;
    }

    method NextKeyByte() returns (k: byte)
      requires Valid() && at < MAX_INT64
      modifies this
      ensures Valid() && at == old(at) + 1 && k == KeyByte(Ctr(encrypt), old(at))
    {
      k := encrypt(counter)[used];
      used := used + 1;
      NextByteOrBlock(at);
      if used == BLOCK {
        CounterIncrements(at / BLOCK);
        counter, used := Increment(counter), 0;
      }
      at := at + 1;
    }

    method XORKeyStream(data: array<byte>, n: nat)
      requires Valid() && n <= data.Length && at + n <= MAX_INT64 && data as object != this
      modifies this, data
      ensures Valid() && at == old(at) + n
      ensures Xored(Ctr(encrypt), data, n, old(at))
    {
      for i := 0 to n
        invariant Valid() && at == old(at) + i
        invariant forall j | 0 <= j < i :: data[j] == Xor(old(data[j]), KeyByte(Ctr(encrypt), old(at) + j))
        invariant forall j | i <= j < data.Length :: data[j] == old(data[j])
      {
        var k := NextKeyByte();
        data[i] := Xor(data[i], k);
      }
    }
  }

  /** Short data: a fresh counter block for every sixteen bytes. */
  method XorKeystreamQuick(c: Cipher, data: array<byte>, n: nat, pos: nat)
    requires c.Ctr? && n <= data.Length && pos + n <= MAX_INT64
    modifies data
    ensures Xored(c, data, n, pos)
  {
    var dataOffset, p := 0, pos;
    while dataOffset < n
      invariant dataOffset <= n && p == pos + dataOffset
      invariant forall i | 0 <= i < dataOffset :: data[i] == Xor(old(data[i]), KeyByte(c, pos + i))
      invariant forall i | dataOffset <= i < data.Length :: data[i] == old(data[i])
    {
      var blockNum, blockOffset := p / BLOCK, p % BLOCK;
      var stream: Block := c.encrypt(CounterBlock(blockNum));
      var toProcess := Min(BLOCK - blockOffset, n - dataOffset);
      KeyBytesOfBlock(c, p, toProcess);
      XorRange(data, dataOffset, toProcess, stream, blockOffset);
      dataOffset, p := dataOffset + toProcess, p + toProcess;
    }
  }

  /** Long data goes through a library stream started at the right counter, the
      bytes before `pos` in its first block thrown away. */
  method XorKeystream(c: Cipher, data: array<byte>, n: nat, pos: nat)
    requires c.Ctr? && n <= data.Length && pos + n <= MAX_INT64
    modifies data
    ensures Xored(c, data, n, pos)
  {
    if n < QUICK_LIMIT {
      XorKeystreamQuick(c, data, n, pos);
      return;
    }
    var blockNum, blockOffset := pos / BLOCK, pos % BLOCK;
    var stream := new CtrStream(c.encrypt, CounterBlock(blockNum), blockNum);
    if blockOffset > 0 {
      var discard := new byte[blockOffset];
      stream.XORKeyStream(discard, blockOffset);
    }
    stream.XORKeyStream(data, n);
  }

  // --------------------------------------------------------------- ChaCha20

  /** The library's ChaCha20 object; it refuses to run past its last block. */
  class ChaChaCipher {
    const block: nat -> seq<byte>
    var at: nat

    constructor (block: nat -> seq<byte>)
      ensures this.block == block && at == 0
    {
      this.block, at := block, 0;
    }

    method SetCounter(counter: nat)
      requires counter < TWO32
      modifies this
      ensures at == counter * CHACHA_BLOCK
    {
      at := counter * CHACHA_BLOCK;
    }

    method XORKeyStream(data: array<byte>, n: nat)
      requires n <= data.Length && at + n <= TWO38 && data as object != this
      modifies this, data
      ensures at == old(at) + n
      ensures Xored(ChaCha(block), data, n, old(at))
    {
      for i := 0 to n
        invariant at == old(at) + i
        invariant forall j | 0 <= j < i :: data[j] == Xor(old(data[j]), KeyByte(ChaCha(block), old(at) + j))
        invariant forall j | i <= j < data.Length :: data[j] == old(data[j])
      {
        data[i] := Xor(data[i], At(block(at / CHACHA_BLOCK), at % CHACHA_BLOCK));
        at := at + 1;
      }
    }
  }

  lemma CounterFits(pos: nat)
    requires pos < TWO38
    ensures pos / CHACHA_BLOCK % TWO32 == pos / CHACHA_BLOCK
    ensures pos / CHACHA_BLOCK * CHACHA_BLOCK + pos % CHACHA_BLOCK == pos
  {
  }

  /** The block number is cut to 32 bits; below 2^38 bytes nothing is lost. */
  method XorChaCha(c: Cipher, data: array<byte>, n: nat, pos: nat)
    requires c.ChaCha? && n <= data.Length && pos + n <= TWO38
    modifies data
    ensures Xored(c, data, n, pos)
  {
    if n == 0 {
      return;
    }
    var cipher := new ChaChaCipher(c.block);
    var blockNum, blockOffset := pos / CHACHA_BLOCK, pos % CHACHA_BLOCK;
    CounterFits(pos);
    cipher.SetCounter(blockNum % TWO32);
    if blockOffset > 0 {
      var discard := new byte[blockOffset];
      cipher.XORKeyStream(discard, blockOffset);
    }
    cipher.XORKeyStream(data, n);
  }

  // -------------------------------------------------------------------- RC4

  /** The RC4 generator: key bytes come one after the other. */
  class Rc4Cipher {
    const stream: nat -> byte
    var at: nat

    constructor (stream: nat -> byte)
      ensures this.stream == stream && at == 0
    {
      this.stream, at := stream, 0;
    }

    method XORKeyStream(data: array<byte>, n: nat)
      requires n <= data.Length && data as object != this
      modifies this, data
      ensures at == old(at) + n
      ensures Xored(Rc4(stream), data, n, old(at))
    {
      for i := 0 to n
        invariant at == old(at) + i
        invariant forall j | 0 <= j < i :: data[j] == Xor(old(data[j]), stream(old(at) + j))
        invariant forall j | i <= j < data.Length :: data[j] == old(data[j])
      {
        data[i] := Xor(data[i], stream(at));
        at := at + 1;
      }
    }
  }

  /** A generator kept between calls, and the position it has reached. */
  class CipherState {
    const cipher: Rc4Cipher
    var pos: nat

    ghost predicate Valid()
      reads this, cipher
    {
      cipher.at == pos
    }

    constructor (stream: nat -> byte)
      ensures Valid() && pos == 0 && fresh(cipher) && cipher.stream == stream
    {
      cipher := new Rc4Cipher(stream);
      pos := 0;
    }

    /** Whatever was asked before, `data` is XORed with the key bytes of its own
        position. A call at another position leaves the kept generator alone. */
    method EncryptAt(data: array<byte>, n: nat, pos: nat)
      requires Valid() && n <= data.Length && data as object != this && data as object != cipher
      modifies this, cipher, data
      ensures Valid() && Xored(Rc4(cipher.stream), data, n, pos)
      ensures this.pos == if pos == old(this.pos) then pos + n else old(this.pos)
    {
      if pos == this.pos {
        cipher.XORKeyStream(data, n);
        this.pos := this.pos + n;
        return;
      }
      var other := new Rc4Cipher(cipher.stream);
      if pos > 0 {
        var discardBuf := new byte[CHUNK];
        var remaining := pos;
        while remaining > 0
          invariant 0 <= remaining <= pos && other.at == pos - remaining
          invariant Valid() && unchanged(this) && unchanged(cipher) && unchanged(data)
        {
          var chunkSize := Min(remaining, CHUNK);
          other.XORKeyStream(discardBuf, chunkSize);
          remaining := remaining - chunkSize;
        }
      }
      assert data[..n] == old(data[..n]) && data[n..] == old(data[n..]);
      other.XORKeyStream(data, n);
    }
  }

  /** What a file context calls to encrypt or decrypt in place. Only RC4 has
      state to keep between calls. */
  class Encryptor {
    const cipher: Cipher
    const state: CipherState
    const limit: nat
    ghost const key: Key

    ghost predicate Valid()
      reads this, state, state.cipher
    {
      && state.Valid() && (cipher.Rc4? ==> state.cipher.stream == cipher.stream)
      && KeyOf(cipher, key) && limit == Limit(cipher)
    }

    constructor (cipher: Cipher, ghost key: Key)
      requires KeyOf(cipher, key)
      ensures Valid() && this.cipher == cipher && this.key == key && fresh(state) && fresh(state.cipher)
    {
      this.cipher, this.key, limit := cipher, key, Limit(cipher);
      state := new CipherState(if cipher.Rc4? then cipher.stream else p => 0);
    }

    method XorInPlace(data: array<byte>, n: nat, pos: nat)
      requires Valid() && n <= data.Length && pos + n <= limit
      requires data as object != state && data as object != state.cipher
      modifies state, state.cipher, data
      ensures Valid() && data[..n] == XorAt(key, pos, old(data[..n])) && data[n..] == old(data[n..])
    {
      match cipher {
        case Xts(_, _) => XorBlocks(cipher, data, n, pos);
        case Ctr(_) => XorKeystream(cipher, data, n, pos);
        case ChaCha(_) => XorChaCha(cipher, data, n, pos);
        case Rc4(_) => state.EncryptAt(data, n, pos);
      }
      assert Xored(cipher, data, n, pos);
    }
  }
}
