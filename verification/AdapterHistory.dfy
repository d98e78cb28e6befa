/** Whole histories of requests to the block cache, against an ordinary file. */
module AdapterHistory {
  import opened Adapter
  import opened BlockCache
  import opened Bytes
  import opened ChunkProcessor
  import opened FileHistory

  datatype Request = On(call: Call) | SyncNow

  /** What an ordinary file may answer; writing back is nothing to its reader. A file
      that becomes shorter keeps its position here. */
  predicate Serves(f: PlainFile, request: Request, got: seq<byte>, g: PlainFile)
  {
    if request.SyncNow? then got == [] && g == f
    else if request.call.CallTruncate? then got == [] && g == f.(bytes := Resized(f.bytes, request.call.n))
    else Behaves(f, request.call, got, g)
  }

  ghost predicate ServesThroughout(requests: seq<Request>, answers: seq<seq<byte>>, files: seq<PlainFile>)
  {
    && |answers| <= |requests| && |files| == |answers| + 1
    && forall i | 0 <= i < |answers| :: Serves(files[i], requests[i], answers[i], files[i + 1])
  }

  /** A write has to fit, and a write of nothing past the end is one that a later
      write-back may lose; so is a new size, where its condition does not hold. */
  ghost predicate Handled(a: Adapter, request: Request)
    reads a, a.ctx, a.ctx.store, a.ctx.writer
    requires a.blockSize > 0
  {
    request.On? ==>
      var limit := a.ctx.writer.limit;
      match request.call
      case CallTruncate(n) =>
        n <= limit && CutHolds(a.blockSize, a.cache, |a.ctx.Contents()|, a.size, a.dirtyBlocks, n)
      case CallWrite(data) => a.pos + |data| <= limit && (data == [] ==> a.pos <= a.size)
      case CallWriteAt(data, off) => off + |data| <= limit && (data == [] ==> off <= a.size)
      case _ => true
  }

  method IsHandled(a: Adapter, request: Request) returns (handled: bool)
    requires a.Valid()
    ensures handled <==> Handled(a, request)
  {
    if request.SyncNow? {
      return true;
    }
    var limit := a.ctx.writer.limit;
    match request.call {
      case CallTruncate(n) =>
        var below := a.ctx.Size();
        handled := n <= limit && CutHolds(a.blockSize, a.cache, below, a.size, a.dirtyBlocks, n);
      case CallWrite(data) => handled := a.pos + |data| <= limit && (data == [] ==> a.pos <= a.size);
      case CallWriteAt(data, off) => handled := off + |data| <= limit && (data == [] ==> off <= a.size);
      case _ => handled := true;
    }
  }

  ghost function Seen(a: Adapter): PlainFile
    reads a, a.ctx, a.ctx.store, a.ctx.reader, a.ctx.reader.state, a.ctx.reader.state.cipher,
          a.ctx.writer, a.ctx.writer.state, a.ctx.writer.state.cipher
    requires a.Valid()
  {
    PlainFile(a.Contents(), a.pos)
  }

  method Serve(a: Adapter, request: Request) returns (got: seq<byte>, ok: bool)
    requires a.Valid() && Handled(a, request)
    modifies a, a.ctx, a.ctx.store, a.ctx.reader.state, a.ctx.reader.state.cipher,
             a.ctx.writer.state, a.ctx.writer.state.cipher
    ensures a.ctx.store.faults >= old(a.ctx.store.faults) && (!ok ==> a.ctx.store.faults > old(a.ctx.store.faults))
    ensures ok ==> a.Valid() && Serves(old(Seen(a)), request, got, Seen(a))
    ensures ok && request.SyncNow? ==> a.ctx.Contents() == a.Contents()
  {
    if request.SyncNow? {
      ok := a.Sync();
      got := [];
    } else {
      got, ok := ServeCall(a, request.call);
    }
  }

  method ServeCall(a: Adapter, call: Call) returns (got: seq<byte>, ok: bool)
    requires a.Valid() && Handled(a, On(call))
    modifies a, a.ctx`pos, a.ctx.store`cursor, a.ctx.store`faults, a.ctx.reader.state, a.ctx.reader.state.cipher
    ensures a.ctx.store.faults >= old(a.ctx.store.faults) && (!ok ==> a.ctx.store.faults > old(a.ctx.store.faults))
    ensures ok ==> a.Valid() && Serves(old(Seen(a)), On(call), got, Seen(a))
  {
    got, ok := [], true;
    match call {
      case CallRead(n) =>
        var p := new byte[n];
        var k, err := a.Read(p);
        got, ok := p[..k], err != Fault;
      case CallWrite(data) => var _, wrote := a.Write(data); ok := wrote;
      case CallSeek(offset, whence) => var _, _ := a.Seek(offset, whence);
      case CallTruncate(n) => a.Truncate(n);
      case CallReadAt(n, off) =>
        var p := new byte[n];
        var k, err := a.ReadAt(p, off);
        got, ok := p[..k], err != Fault && (k == n || off + k >= a.size);
      case CallWriteAt(data, off) => var _, wrote := a.WriteAt(data, off); ok := wrote;
    }
  }

  /** Through the cache any history of reads, seeks, writes, new sizes and write-backs
      gets the answers of an ordinary file, and after a write-back that file is below.
      Only an error, an offset out of range or a request not handled cuts it short. */
  method Replay(a: Adapter, requests: seq<Request>)
    returns (answers: seq<seq<byte>>, ghost files: seq<PlainFile>, fault: bool)
    requires a.Valid()
    modifies a, a.ctx, a.ctx.store, a.ctx.reader.state, a.ctx.reader.state.cipher,
             a.ctx.writer.state, a.ctx.writer.state.cipher
    ensures fault ==> a.ctx.store.faults > old(a.ctx.store.faults)
    ensures ServesThroughout(requests, answers, files) && files[0] == old(Seen(a))
    ensures !fault && answers != [] && requests[|answers| - 1].SyncNow? ==> a.ctx.Contents() == files[|answers|].bytes
    ensures !fault ==> a.Valid() && files[|answers|] == Seen(a)
    ensures fault || |answers| == |requests| || !Handled(a, requests[|answers|])
  {
    answers, fault := [], false;
    files := [Seen(a)];
    for i := 0 to |requests|
      invariant a.Valid() && !fault && a.ctx.store.faults >= old(a.ctx.store.faults)
      invariant |answers| == i && ServesThroughout(requests, answers, files)
      invariant files[0] == old(Seen(a)) && files[i] == Seen(a)
      invariant i > 0 && requests[i - 1].SyncNow? ==> a.ctx.Contents() == a.Contents()
    {
      var handled := IsHandled(a, requests[i]);
      if !handled {
        return;
      }
      var got, ok := Serve(a, requests[i]);
      if !ok {
        fault := true;
        return;
      }
      answers := answers + [got];
      files := files + [Seen(a)];
    }
  }
}
