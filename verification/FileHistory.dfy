/** Whole histories of calls on an encrypted file, against an ordinary one. */
module FileHistory {
  import opened Bytes
  import opened ChunkProcessor
  import opened Ciphers
  import opened FileContext

  datatype Call =
    | CallRead(n: nat)
    | CallWrite(data: seq<byte>)
    | CallSeek(offset: int, whence: Whence)
    | CallTruncate(n: nat)
    | CallReadAt(n: nat, off: nat)
    | CallWriteAt(data: seq<byte>, off: nat)

  /** An ordinary file and its position. */
  datatype PlainFile = PlainFile(bytes: seq<byte>, pos: nat)

  function Target(f: PlainFile, call: Call): int
    requires call.CallSeek?
  {
    match call.whence
    case SeekStart => call.offset
    case SeekCurrent => f.pos + call.offset
    case SeekEnd => |f.bytes| + call.offset
    case SeekOther => -1
  }

  /** A read may be short, but it gets something if it asks for bytes and there are any. */
  predicate MayGet(bytes: seq<byte>, off: nat, n: nat, got: seq<byte>)
  {
    && |got| <= n && got == Slice(bytes, off, |got|)
    && (n > 0 && off < |bytes| ==> got != [])
  }

  /** What an ordinary file may answer to a call, and what it then is. */
  predicate Behaves(f: PlainFile, call: Call, got: seq<byte>, g: PlainFile)
  {
    match call
    case CallRead(n) =>
      MayGet(f.bytes, f.pos, n, got) && g == f.(pos := f.pos + |got|)
    case CallWrite(data) =>
      got == [] && g == PlainFile(Written(f.bytes, f.pos, data), f.pos + |data|)
    case CallSeek(offset, whence) =>
      var target := Target(f, call);
      got == [] && g == if target < 0 then f else f.(pos := target)
    case CallTruncate(n) =>
      got == [] && g == PlainFile(Resized(f.bytes, n), Min(f.pos, n))
    case CallReadAt(n, off) =>
      MayGet(f.bytes, off, n, got) && g == f
    case CallWriteAt(data, off) =>
      got == [] && g == f.(bytes := Written(f.bytes, off, data))
  }

  /** Where a seek goes: to the offset itself, by the offset from here, or by the offset
      from the end; and seeking from here twice is seeking by the sum. */
  lemma SeekMeans(f: PlainFile, a: int, b: int, g: PlainFile, h: PlainFile)
    requires f.pos + a >= 0 && f.pos + a + b >= 0
    requires Behaves(f, CallSeek(a, SeekCurrent), [], g) && Behaves(g, CallSeek(b, SeekCurrent), [], h)
    ensures Behaves(f, CallSeek(f.pos + a + b, SeekStart), [], h)
    ensures Behaves(f, CallSeek(f.pos + a + b - |f.bytes|, SeekEnd), [], h)
    ensures Behaves(f, CallSeek(a + b, SeekCurrent), [], h) && h == PlainFile(f.bytes, f.pos + a + b)
  {
  }

  /** What was written is read back, by position or by offset, and nothing around it
      has changed; a gap before it reads as zeros. */
  lemma WrittenIsRead(f: PlainFile, data: seq<byte>, off: nat, g: PlainFile, at: nat, got: seq<byte>, h: PlainFile)
    requires Behaves(f, CallWriteAt(data, off), [], g) && Behaves(g, CallReadAt(|got|, at), got, h)
    ensures h == g && g.pos == f.pos
    ensures f.pos == off ==> Behaves(f, CallWrite(data), [], g.(pos := off + |data|))
    ensures forall i | 0 <= i < |got| ::
              got[i] == if off <= at + i < off + |data| then data[at + i - off]
                        else if at + i < |f.bytes| then f.bytes[at + i] else 0
  {
  }

  /** A history: the calls, the answers, and an ordinary file that gives them. */
  ghost predicate BehavesThroughout(calls: seq<Call>, answers: seq<seq<byte>>, files: seq<PlainFile>)
  {
    && |answers| <= |calls| && |files| == |answers| + 1
    && forall i | 0 <= i < |answers| :: Behaves(files[i], calls[i], answers[i], files[i + 1])
  }

  /** Where a call leaves the backing file's cursor. */
  function Moves(f: PlainFile, cursor: nat, call: Call, got: seq<byte>, positional: bool): nat
  {
    match call
    case CallRead(_) => f.pos + |got|
    case CallWrite(data) => f.pos + |data|
    case CallSeek(_, _) =>
      var target := Target(f, call);
      if target < 0 then cursor else target
    case CallTruncate(n) => if n > |f.bytes| then n else cursor
    case CallReadAt(_, off) => if positional then cursor else off + |got|
    case CallWriteAt(data, off) => if !positional then off + |data| else if off > |f.bytes| then off else cursor
  }

  /** The cursor along a history that begins with it at the position. */
  ghost predicate CursorMoves(calls: seq<Call>, answers: seq<seq<byte>>, files: seq<PlainFile>,
                              cursors: seq<nat>, positional: bool)
    requires |files| == |cursors| == |answers| + 1 && |answers| <= |calls|
  {
    && cursors[0] == files[0].pos
    && forall i | 0 <= i < |answers| ::
         cursors[i + 1] == Moves(files[i], cursors[i], calls[i], answers[i], positional)
  }

  /** Only a Read of a cipher that does not seek first needs the cursor at the position. */
  predicate ReadsAstray(f: PlainFile, cursor: nat, call: Call, reseeks: bool)
  {
    call.CallRead? && !reseeks && cursor != f.pos
  }

  /** The offsets that the code can handle. */
  predicate Fits(size: nat, pos: nat, call: Call, limit: nat)
  {
    size <= limit &&
    match call
    case CallRead(_) => pos <= limit
    case CallWrite(data) => pos + |data| <= limit
    case CallSeek(offset, whence) => true
    case CallTruncate(n) => n <= limit
    case CallReadAt(_, off) => off <= limit
    case CallWriteAt(data, off) => off + |data| <= limit
  }

  /** The last offset that a call touches. */
  function Touches(f: PlainFile, call: Call): nat
  {
    match call
    case CallRead(_) => f.pos
    case CallWrite(data) => f.pos + |data|
    case CallSeek(_, _) => 0
    case CallTruncate(n) => n
    case CallReadAt(_, off) => off
    case CallWriteAt(data, off) => off + |data|
  }

  /** Every offset of 64 bits fits, with ChaCha20 every one up to 2^38; and no read
      through AES-XTS goes astray. */
  lemma OffsetsFit(cipher: Cipher, f: PlainFile, call: Call, cursor: nat)
    requires Max(|f.bytes|, Touches(f, call)) <= if cipher.ChaCha? then 0x40_0000_0000 else 0x7FFF_FFFF_FFFF_FFFF
    ensures Fits(|f.bytes|, f.pos, call, Limit(cipher))
    ensures !ReadsAstray(f, cursor, call, true)
    ensures cursor == f.pos || !call.CallRead? ==> !ReadsAstray(f, cursor, call, false)
  {
  }

  ghost function Abstract(c: Context): PlainFile
    reads c, c.store, c.writer
  {
    PlainFile(c.Contents(), c.pos)
  }

  /** One call: the answer of an ordinary file, and where the cursor is afterwards. */
  method Perform(c: Context, call: Call) returns (got: seq<byte>, ok: bool)
    requires c.Valid() && Fits(c.size, c.pos, call, c.writer.limit)
    requires !ReadsAstray(Abstract(c), c.store.cursor, call, c.reseeks)
    modifies c, c.store, c.reader.state, c.reader.state.cipher, c.writer.state, c.writer.state.cipher
    ensures c.store.faults >= old(c.store.faults) && (!ok ==> c.store.faults > old(c.store.faults))
    ensures ok ==> c.Valid() && Behaves(old(Abstract(c)), call, got, Abstract(c))
    ensures ok ==> c.store.cursor == Moves(old(Abstract(c)), old(c.store.cursor), call, got, c.store.positional)
  {
    got, ok := [], true;
    match call {
      case CallRead(n) => got, ok := PerformRead(c, n);
      case CallWrite(data) =>
        var k;
        k, ok := c.Write(data);
        assert ok ==> data[..k] == data;
      case CallSeek(offset, whence) => var _, _ := c.Seek(offset, whence);
      case CallTruncate(n) => ok := c.Truncate(n);
      case CallReadAt(n, off) => got, ok := PerformReadAt(c, n, off);
      case CallWriteAt(data, off) =>
        var k;
        k, ok := c.WriteAt(data, off);
        assert ok ==> data[..k] == data;
    }
  }

  method PerformRead(c: Context, n: nat) returns (got: seq<byte>, ok: bool)
    requires c.Valid() && Fits(c.size, c.pos, CallRead(n), c.writer.limit) && (c.reseeks || c.InStep())
    modifies c`pos, c.store`cursor, c.store`faults, c.reader.state, c.reader.state.cipher
    ensures c.store.faults >= old(c.store.faults) && (!ok ==> c.store.faults > old(c.store.faults))
    ensures ok ==> c.Valid() && Behaves(old(Abstract(c)), CallRead(n), got, Abstract(c))
    ensures ok ==> c.store.cursor == old(c.pos) + |got|
  {
    var p := new byte[n];
    var k, err := c.Read(p);
    got, ok := p[..k], err != Fault;
  }

  method PerformReadAt(c: Context, n: nat, off: nat) returns (got: seq<byte>, ok: bool)
    requires c.Valid() && Fits(c.size, c.pos, CallReadAt(n, off), c.writer.limit)
    modifies c.store`cursor, c.store`faults, c.reader.state, c.reader.state.cipher
    ensures c.store.faults >= old(c.store.faults) && (!ok ==> c.store.faults > old(c.store.faults))
    ensures ok ==> c.Valid() && Behaves(old(Abstract(c)), CallReadAt(n, off), got, Abstract(c))
    ensures ok ==> c.store.cursor == if c.store.positional then old(c.store.cursor) else off + |got|
  {
    var p := new byte[n];
    var k, err := c.ReadAt(p, off);
    got, ok := p[..k], err != Fault;
  }

  /** Any history at all through AES-XTS gets the answers an ordinary file would have
      given. Through AES-CTR, ChaCha20 or RC4 so does any in which each Read finds the
      cursor at the position, which the calls before it decide. Else only a storage
      error or an offset out of range cuts it short. */
  method Replay(c: Context, calls: seq<Call>)
    returns (answers: seq<seq<byte>>, ghost files: seq<PlainFile>, ghost cursors: seq<nat>, fault: bool)
    requires c.Valid() && c.InStep()
    modifies c, c.store, c.reader.state, c.reader.state.cipher, c.writer.state, c.writer.state.cipher
    ensures fault ==> c.store.faults > old(c.store.faults)
    ensures BehavesThroughout(calls, answers, files) && files[0] == old(Abstract(c))
    ensures |cursors| == |files| && CursorMoves(calls, answers, files, cursors, c.store.positional)
    ensures fault || |answers| == |calls| ||
              (var f, call := files[|answers|], calls[|answers|];
               || !Fits(|f.bytes|, f.pos, call, c.writer.limit)
               || ReadsAstray(f, cursors[|answers|], call, c.reseeks))
  {
    answers, fault := [], false;
    files, cursors := [Abstract(c)], [c.store.cursor];
    for i := 0 to |calls|
      invariant c.Valid() && !fault && c.store.faults >= old(c.store.faults)
      invariant |answers| == i && BehavesThroughout(calls, answers, files)
      invariant files[0] == old(Abstract(c)) && files[i] == Abstract(c)
      invariant |cursors| == i + 1 && cursors[i] == c.store.cursor
      invariant CursorMoves(calls, answers, files, cursors, c.store.positional)
    {
      if !Fits(c.size, c.pos, calls[i], c.writer.limit) {
        return;
      }
      if calls[i].CallRead? && !c.reseeks && c.store.cursor != c.pos {
        return;
      }
      var got, ok := Perform(c, calls[i]);
      if !ok {
        fault := true;
        return;
      }
      answers := answers + [got];
      files, cursors := files + [Abstract(c)], cursors + [c.store.cursor];
    }
  }
}
