/** The convert and recovery code itself, statement by statement. `disk` is the
    only state; the ghost fields record the machine state each statement
    reaches, so that every moment at which the process can die is in `trace`. */
module ConvertManager {
  import opened Glob
  import opened Order
  import opened Trees
  import opened ConvertModel
  import opened ConvertRecovery
  import opened Verification

  class Manager {
    /** Where the root is. */
    const root: string
    var disk: Disk
    ghost var proc: Proc
    ghost var used: set<OpId>
    ghost var verified: map<OpId, Verified>
    ghost var trace: seq<State>
    ghost var faults: nat

    ghost function Now(): State
      reads this
    {
      State(disk, proc, used, verified)
    }

    /** The trace is a run of the machine and ends in the present. */
    ghost predicate Valid()
      reads this
    {
      Run(root, trace) && trace[|trace| - 1] == Now()
    }

    /** Mounted on a disk that some earlier process left. */
    constructor (root: string, disk: Disk, ghost used: set<OpId>)
      ensures Valid() && this.root == root && this.disk == disk && proc == Idle
      ensures this.used == used && verified == map[]
      ensures trace == [State(disk, Idle, used, map[])] && faults == 0
    {
      this.root, this.disk, proc, this.used, verified, faults := root, disk, Idle, used, map[], 0;
      trace := [State(disk, Idle, used, map[])];
    }

    // ------------------------------------------------------------ recording

    ghost method Log()
      requires Run(root, trace) && Next(root, trace[|trace| - 1], Now())
      modifies this`trace
      ensures Valid() && trace == old(trace) + [Now()]
    {
      var before := trace;
      trace := trace + [Now()];
      forall i | 0 <= i < |trace| - 1 ensures NextAt(root, trace, i) {
        if i < |before| - 1 {
          assert NextAt(root, before, i);
        }
      }
    }

    /** A statement failed: the error is returned and the process is done. */
    ghost method Abort()
      requires Valid()
      modifies this`proc, this`trace, this`faults
      ensures Valid() && proc == Idle && old(trace) <= trace && faults > old(faults)
    {
      faults := faults + 1;
      proc := Idle;
      Log();
    }

    /** The statement the running process has come to. */
    ghost predicate AtStatement(st: Statement)
      reads this
    {
      proc.At? && Program(proc.point, proc.mk) == st
    }

    // ----------------------------------------------------------- statements

    method WriteMarker(dir: Path, marker: Marker, ghost next: Proc) returns (ok: bool)
      requires Valid() && AtStatement(Write(dir, marker, next))
      modifies this
      ensures Valid() && old(trace) <= trace && used == old(used) && faults >= old(faults)
      ensures faults == old(faults) ==> ok
      ensures !ok ==> proc == Idle
      ensures ok ==> disk == PutMarker(old(disk), dir, marker)
      ensures ok ==> proc == next && verified == old(RecordVerified(Now().(disk := EnsureDir(disk, dir))))
    {
      var failed: bool := *;
      if failed {
        Abort();
        return false;
      }
      disk := EnsureDir(disk, dir);
      Log();
      failed := *;
      if failed {
        Abort();
        return false;
      }
      verified := RecordVerified(Now());
      disk := PutMarker(disk, dir, marker);
      proc := next;
      Log();
      failed := *;
      if failed {
        Abort();
        return false;
      }
      return true;
    }

    /** The marker of the export that decrypting runs, in the root it reads. */
    method WriteExportMarker(dir: Path, marker: Marker, ghost next: Proc) returns (ok: bool)
      requires Valid() && AtStatement(PutExport(dir, marker, next))
      modifies this
      ensures Valid() && old(trace) <= trace && used == old(used) && verified == old(verified) && faults >= old(faults)
      ensures faults == old(faults) ==> ok
      ensures ok ==> disk == PutMarker(old(disk), dir, marker)
      ensures proc == if ok then next else Idle
    {
      var failed: bool := *;
      if failed {
        Abort();
        return false;
      }
      disk := EnsureDir(disk, dir);
      Log();
      failed := *;
      if failed {
        Abort();
        return false;
      }
      disk := PutMarker(disk, dir, marker);
      proc := next;
      Log();
      failed := *;
      if failed {
        Abort();
        return false;
      }
      return true;
    }

    /** Removing a marker that is not there succeeds. Commit and clean-up
        ignore a failure, the discarding of a conversion does not. */
    method RemoveMarkerFile(dir: Path, op: OpId, ghost mayFail: bool, ghost next: Proc) returns (ok: bool)
      requires Valid() && AtStatement(Remove(dir, op, mayFail, next))
      modifies this
      ensures Valid() && old(trace) <= trace && used == old(used) && verified == old(verified) && faults >= old(faults)
      ensures disk == old(disk) || disk == DropMarker(old(disk), dir, op)
      ensures faults == old(faults) ==> ok
      ensures ok ==> disk == DropMarker(old(disk), dir, op)
      ensures proc == if ok || mayFail then next else Idle
    {
      var failed: bool := *;
      if failed {
        Ignore(dir, op, mayFail, next);
        return false;
      }
      disk := DropMarker(disk, dir, op);
      proc := next;
      Log();
      failed := *;
      if failed {
        faults := faults + 1;
        if !mayFail {
          Abort();
        }
        return false;
      }
      return true;
    }

    ghost method Ignore(dir: Path, op: OpId, mayFail: bool, next: Proc)
      requires Valid() && AtStatement(Remove(dir, op, mayFail, next))
      modifies this`proc, this`trace, this`faults
      ensures Valid() && old(trace) <= trace && faults > old(faults)
      ensures proc == if mayFail then next else Idle
    {
      if mayFail {
        faults := faults + 1;
        proc := next;
        Log();
      } else {
        Abort();
      }
    }

    /** May rename and then fail to sync: an error does not mean nothing happened. */
    method RenamePath(from: Path, to: Path, ghost next: Proc) returns (ok: bool)
      requires Valid() && AtStatement(Rename(from, to, next))
      modifies this
      ensures Valid() && old(trace) <= trace && used == old(used) && verified == old(verified) && faults >= old(faults)
      ensures faults == old(faults) ==> (ok <==> CanRename(old(disk), from, to))
      ensures ok ==> CanRename(old(disk), from, to) && disk == Renamed(old(disk), from, to)
      ensures !CanRename(old(disk), from, to) ==> disk == old(disk)
      ensures proc == if ok then next else Idle
    {
      if !CanRename(disk, from, to) {
        proc := Idle;
        Log();
        return false;
      }
      var failed: bool := *;
      if failed {
        Abort();
        return false;
      }
      disk := Renamed(disk, from, to);
      proc := next;
      Log();
      failed := *;
      if failed {
        Abort();
        return false;
      }
      return true;
    }

    method MkdirAllPath(dir: Path, ghost next: Proc) returns (ok: bool)
      requires Valid() && AtStatement(Mkdir(dir, next))
      modifies this
      ensures Valid() && old(trace) <= trace && used == old(used) && verified == old(verified) && faults >= old(faults)
      ensures faults == old(faults) ==> ok
      ensures ok ==> disk == EnsureDir(old(disk), dir)
      ensures proc == if ok then next else Idle
    {
      var failed: bool := *;
      if failed {
        Abort();
        return false;
      }
      disk := EnsureDir(disk, dir);
      proc := next;
      Log();
      failed := *;
      if failed {
        Abort();
        return false;
      }
      return true;
    }

    /** Removes what is below the directory bit by bit, then the directory. */
    method RemoveAllPath(dir: Path, ghost next: Proc) returns (ok: bool)
      requires Valid() && AtStatement(RemoveAll(dir, next))
      requires dir in disk
      modifies this
      ensures Valid() && old(trace) <= trace && used == old(used) && verified == old(verified) && faults >= old(faults)
      ensures faults == old(faults) ==> ok
      ensures ok ==> disk == old(disk) - {dir}
      ensures proc == if ok then next else Idle
    {
      var pieces: nat :| true;
      for i := 0 to pieces
        invariant Valid() && old(trace) <= trace && used == old(used) && verified == old(verified)
        invariant faults == old(faults) && proc == old(proc)
        invariant dir in disk && disk - {dir} == old(disk) - {dir}
      {
        assert ShrunkMarkers(disk[dir], disk[dir]);
        var left: Dir :| ShrunkMarkers(disk[dir], left);
        disk := disk[dir := left];
        Log();
      }
      var failed: bool := *;
      if failed {
        Abort();
        return false;
      }
      disk := disk - {dir};
      proc := next;
      Log();
      failed := *;
      if failed {
        Abort();
        return false;
      }
      return true;
    }

    /** Importing the plain tree into a new encrypted root, or exporting the
        encrypted root: the work directory fills up and may be left half done. */
    method FillWork(dir: Path, op: OpId, ghost next: Proc) returns (ok: bool)
      requires Valid() && AtStatement(Build(dir, next))
      requires dir in disk && op == proc.mk.op
      modifies this
      ensures Valid() && old(trace) <= trace && used == old(used) && verified == old(verified) && faults >= old(faults)
      ensures faults == old(faults) ==> ok
      ensures dir in disk && disk - {dir} == old(disk) - {dir}
      ensures proc == if ok then next else Idle
    {
      var pieces: nat :| true;
      for i := 0 to pieces
        invariant Valid() && old(trace) <= trace && used == old(used) && verified == old(verified)
        invariant faults == old(faults) && proc == old(proc)
        invariant dir in disk && disk - {dir} == old(disk) - {dir}
      {
        assert TransferOnly(EMPTY_DIR, op);
        var made: Dir :| TransferOnly(made, op);
        disk := disk[dir := made];
        Log();
      }
      var failed: bool := *;
      if failed {
        Abort();
        return false;
      }
      proc := next;
      Log();
      return true;
    }

    // -------------------------------------------------------------- convert

    /** Converts the tree at the root in place. Without an error the converted,
        verified tree is at the root and the original at the backup. Without a fault
        there is no error, if the work tree that was built is found alike. */
    method ConvertRoot(hash: Hash, kind: Kind, op: OpId) returns (ok: bool, ghost built: Content)
      requires Valid() && proc.Idle? && CollisionFree(hash)
      requires ValidOpId(op) && op !in used
      modifies this
      ensures Valid() && old(trace) < trace && proc.Idle? && used == old(used) + {op} && faults >= old(faults)
      ensures StartConvert(old(Now()), trace[|old(trace)|], op, kind)
      ensures Clean(old(disk), op) ==> OneConversion(root, trace[|old(trace)| - 1..], op, kind)
      ensures faults == old(faults) && Clean(old(disk), op) && Alike(kind, old(disk)[Root].content, built) ==> ok
      ensures ok ==>
                var original := EnsureDir(old(disk), Root)[Root].content;
                && Backup(op) in disk && disk[Backup(op)].content == original
                && Root in disk && Agrees(kind, original, disk[Root].content)
                && Work(op) !in disk && disk[Root].content == built
    {
      ok, built := Convert(hash, kind, op);
      TraceIsOneConversion(root, trace, |old(trace)| - 1, op, kind);
    }

    method Convert(hash: Hash, kind: Kind, op: OpId) returns (ok: bool, ghost built: Content)
      requires Valid() && proc.Idle? && CollisionFree(hash)
      requires ValidOpId(op) && op !in used
      modifies this
      ensures Valid() && old(trace) < trace && proc.Idle? && used == old(used) + {op} && faults >= old(faults)
      ensures StartConvert(old(Now()), trace[|old(trace)|], op, kind)
      ensures faults == old(faults) && Root in old(disk) && Backup(op) !in old(disk) ==>
                Alike(kind, old(disk)[Root].content, built) ==> ok
      ensures ok ==>
                var original := EnsureDir(old(disk), Root)[Root].content;
                && Backup(op) in disk && disk[Backup(op)].content == original
                && Root in disk && Agrees(kind, original, disk[Root].content)
                && Work(op) !in disk && disk[Root].content == built
    {
      built := EMPTY_DIR.content;
      var marker := NewMarker(op, kind);
      proc := At(WriteCreating, marker);
      used := used + {op};
      ghost var start := Now();
      assert StartConvert(old(Now()), start, op, kind);
      Log();
      ok := WriteMarker(Root, marker.(phase := CreatingWork), At(MakeWork, marker));
      assert trace[|old(trace)|] == start;
      if ok {
        ok, built := ConvertTree(hash, kind, marker);
      }
    }

    /** Encryption and decryption differ in what fills the work directory and in
        which side is the plain one; they touch the disk in the same order. */
    method ConvertTree(hash: Hash, kind: Kind, marker: Marker) returns (ok: bool, ghost built: Content)
      requires Valid() && proc == At(MakeWork, marker) && CollisionFree(hash)
      requires marker == NewMarker(marker.op, kind) && Root in disk && ValidOpId(marker.op)
      modifies this
      ensures Valid() && old(trace) <= trace && proc.Idle? && used == old(used) && faults >= old(faults)
      ensures faults == old(faults) && marker.backup !in old(disk) && Alike(kind, old(disk)[Root].content, built) ==> ok
      ensures ok ==>
                && Backup(marker.op) in disk && disk[Backup(marker.op)].content == old(disk)[Root].content
                && Root in disk && Agrees(kind, old(disk)[Root].content, disk[Root].content)
                && Work(marker.op) !in disk && disk[Root].content == built
    {
      built := EMPTY_DIR.content;
      ok := PrepareWork(marker);
      if !ok {
        return;
      }
      built := disk[marker.work].content;
      ok := CheckWork(hash, kind, marker);
    }

    /** A verdict is one that the machine's statement may give. */
    static lemma VerdictIsStep(root: string, hash: Hash, kind: Kind, s: State, marker: Marker, v: Verdict)
      requires s.proc == At(Point.CheckWork, marker) && marker.kind == MarkerKind.Convert(kind)
      requires marker.root in s.disk && marker.work in s.disk
      requires VerdictOf(hash, kind, s.disk[marker.root].content, s.disk[marker.work].content, v)
      ensures v.Mismatch? ==> Next(root, s, s.(proc := At(WriteFailed, marker)))
      ensures v.Pass? ==> Next(root, s, s.(proc := At(WriteRootRename, marker)))
    {
    }

    /** Verification, and then the commit or the record of the failure. */
    method CheckWork(hash: Hash, kind: Kind, marker: Marker) returns (ok: bool)
      requires Valid() && proc == At(Point.CheckWork, marker) && CollisionFree(hash)
      requires marker == NewMarker(marker.op, kind) && ValidOpId(marker.op)
      requires Root in disk && marker.work in disk
      modifies this
      ensures Valid() && old(trace) <= trace && proc.Idle? && used == old(used) && faults >= old(faults)
      ensures faults == old(faults) && marker.backup !in old(disk) ==>
                Alike(kind, old(disk)[Root].content, old(disk)[marker.work].content) ==> ok
      ensures ok ==>
                && marker.backup in disk && disk[marker.backup].content == old(disk)[Root].content
                && Root in disk && Agrees(kind, old(disk)[Root].content, disk[Root].content)
                && marker.work !in disk && disk[Root].content == old(disk)[marker.work].content
    {
      var verdict, _ := VerifyTrees(hash, kind, disk[marker.root].content, disk[marker.work].content);
      VerdictIsStep(root, hash, kind, Now(), marker, verdict);
      match verdict
      case Failed =>
        Abort();
        ok := false;
      case Mismatch(_) =>
        proc := At(WriteFailed, marker);
        Log();
        RecordVerificationFailure(marker);
        ok := false;
      case Pass =>
        proc := At(WriteRootRename, marker);
        Log();
        ok := CommitConvertRename(marker);
    }

    method PrepareWork(marker: Marker) returns (ok: bool)
      requires Valid() && proc == At(MakeWork, marker) && ValidMarker(marker) && Root in disk
      modifies this
      ensures Valid() && old(trace) <= trace && used == old(used) && faults >= old(faults)
      ensures faults == old(faults) ==> ok
      ensures ok ==> (marker.backup in disk <==> marker.backup in old(disk))
      ensures proc == if ok then At(Point.CheckWork, marker) else Idle
      ensures ok ==> Root in disk && disk[Root].content == old(disk)[Root].content && marker.work in disk
    {
      ok := MkdirAllPath(marker.work, At(WriteCopying, marker));
      if !ok {
        return;
      }
      ghost var start := if Exports(marker) then StartExport else BuildWork;
      ok := WriteMarker(marker.root, marker.(phase := CopyingToWork), At(start, marker));
      if !ok {
        return;
      }
      ok := CopyToWork(marker);
      if !ok {
        return;
      }
      ok := WriteMarker(marker.root, marker.(phase := VerifyingWork), At(Point.CheckWork, marker));
    }

    /** Encrypting imports the root into the work directory; decrypting exports the
        root, which keeps a marker in the root while it lasts. */
    method CopyToWork(marker: Marker) returns (ok: bool)
      requires Valid() && ValidMarker(marker) && Root in disk && marker.work in disk
      requires proc == At(if Exports(marker) then StartExport else BuildWork, marker)
      modifies this
      ensures Valid() && old(trace) <= trace && used == old(used) && faults >= old(faults)
      ensures faults == old(faults) ==> ok
      ensures ok ==> (marker.backup in disk <==> marker.backup in old(disk))
      ensures proc == if ok then At(WriteVerifying, marker) else Idle
      ensures ok ==> Root in disk && disk[Root].content == old(disk)[Root].content && marker.work in disk
      ensures ok ==> disk[Root].markers == if Exports(marker) then old(disk)[Root].markers - {ExportId(marker.op)}
                                           else old(disk)[Root].markers
    {
      if marker.kind == MarkerKind.Convert(Decrypt) {
        ok := WriteExportMarker(marker.root, ExportMarker(marker), At(BuildWork, marker));
        if !ok {
          return;
        }
      }
      ghost var before := disk;
      ok := FillWork(marker.work, marker.op, At(if Exports(marker) then EndExport else WriteVerifying, marker));
      if !ok {
        return;
      }
      assert Root in disk - {marker.work} && disk[Root] == (disk - {marker.work})[Root] == before[Root];
      assert marker.backup in disk <==> marker.backup in disk - {marker.work};
      assert marker.backup in before <==> marker.backup in before - {marker.work};
      if marker.kind == MarkerKind.Convert(Decrypt) {
        ok := RemoveMarkerFile(marker.root, ExportId(marker.op), false, At(WriteVerifying, marker));
      }
    }

    method RecordVerificationFailure(marker: Marker)
      requires Valid() && proc == At(WriteFailed, marker)
      modifies this
      ensures Valid() && old(trace) <= trace && proc.Idle? && used == old(used) && faults >= old(faults)
      ensures faults == old(faults) ==> disk == PutMarker(old(disk), marker.root, marker.(phase := NeedsAttention))
    {
      var ok := WriteMarker(marker.root, marker.(phase := NeedsAttention), Idle);
    }

    method CommitConvertRename(marker: Marker) returns (ok: bool)
      requires Valid() && proc == At(WriteRootRename, marker) && ValidMarker(marker)
      requires Root in disk && marker.work in disk
      modifies this
      ensures Valid() && old(trace) <= trace && proc.Idle? && used == old(used) && faults >= old(faults)
      ensures faults == old(faults) && marker.backup !in old(disk) ==> ok
      ensures ok ==>
                && marker.backup in disk && disk[marker.backup].content == old(disk)[Root].content
                && Root in disk && disk[Root].content == old(disk)[marker.work].content
                && marker.work !in disk
    {
      ok := MoveRootAway(marker);
      if !ok {
        return;
      }
      ok := InstallWork(marker);
      if !ok {
        return;
      }
      CleanUpMarkers(marker);
    }

    /** The second half of the commit: the work directory becomes the root. */
    method InstallWork(marker: Marker) returns (ok: bool)
      requires Valid() && proc == At(RenameWork, marker) && ValidMarker(marker)
      requires marker.backup in disk && Root !in disk && marker.work in disk
      modifies this
      ensures Valid() && old(trace) <= trace && used == old(used) && faults >= old(faults)
      ensures faults == old(faults) ==> ok
      ensures proc == if ok then At(CleanRoot, marker) else Idle
      ensures ok ==>
                && marker.backup in disk && disk[marker.backup] == old(disk)[marker.backup]
                && Root in disk && disk[Root].content == old(disk)[marker.work].content
                && marker.work !in disk
    {
      ok := RenamePath(marker.work, marker.root, At(WriteCompleted, marker));
      if !ok {
        return;
      }
      ok := WriteMarker(marker.root, marker.(phase := Completed), At(CleanRoot, marker));
    }

    /** Failures to remove the markers of a finished conversion are ignored. */
    method CleanUpMarkers(marker: Marker)
      requires Valid() && proc == At(CleanRoot, marker)
      modifies this
      ensures Valid() && old(trace) <= trace && proc.Idle? && used == old(used) && faults >= old(faults)
      ensures disk.Keys == old(disk).Keys && forall p | p in disk :: disk[p].content == old(disk)[p].content
      ensures ValidMarker(marker) ==> OnlyMarkersGone(old(disk), disk, marker.op)
      ensures faults == old(faults) ==>
                disk == DropMarker(DropMarker(old(disk), marker.root, marker.op), marker.backup, marker.op)
    {
      var _ := RemoveMarkerFile(marker.root, marker.op, true, At(CleanBackup, marker));
      ghost var half := disk;
      var _ := RemoveMarkerFile(marker.backup, marker.op, true, Idle);
      if ValidMarker(marker) {
        DropGone(old(disk), marker.op, Root);
        DropGone(half, marker.op, marker.backup);
        BothGone(old(disk), half, disk, marker.op);
      }
    }

    /** The first half of the commit: the root becomes the backup, marked so. */
    method MoveRootAway(marker: Marker) returns (ok: bool)
      requires Valid() && proc == At(WriteRootRename, marker) && ValidMarker(marker)
      requires Root in disk && marker.work in disk
      modifies this
      ensures Valid() && old(trace) <= trace && used == old(used) && faults >= old(faults)
      ensures faults == old(faults) && marker.backup !in old(disk) ==> ok
      ensures proc == if ok then At(RenameWork, marker) else Idle
      ensures ok ==>
                && marker.backup in disk && disk[marker.backup].content == old(disk)[Root].content
                && Root !in disk && marker.work in disk && disk[marker.work] == old(disk)[marker.work]
    {
      ok := WriteMarker(marker.root, marker.(phase := RenamingRootToBackup), At(RenameRoot, marker));
      if !ok {
        return;
      }
      ok := RenamePath(marker.root, marker.backup, At(WriteBackup, marker));
      if !ok {
        return;
      }
      ghost var before := disk;
      ok := MarkBackup(marker);
      assert ok ==> disk[marker.work] == (disk - {marker.backup})[marker.work] == before[marker.work];
    }

    method MarkBackup(marker: Marker) returns (ok: bool)
      requires Valid() && proc == At(WriteBackup, marker) && ValidMarker(marker)
      requires marker.backup in disk
      modifies this
      ensures Valid() && old(trace) <= trace && used == old(used) && faults >= old(faults)
      ensures faults == old(faults) ==> ok
      ensures proc == if ok then At(RenameWork, marker) else Idle
      ensures ok ==> disk.Keys == old(disk).Keys && disk[marker.backup].content == old(disk)[marker.backup].content
      ensures ok ==> disk - {marker.backup} == old(disk) - {marker.backup}
    {
      ok := WriteMarker(marker.backup, marker.(phase := RenamingRootToBackup), At(WriteWorkRename, marker));
      if !ok {
        return;
      }
      ok := WriteMarker(marker.backup, marker.(phase := RenamingWorkToRoot), At(RenameWork, marker));
    }

    // ------------------------------------------------------------- recovery

    /** Recovery acts on what it decided; without faults it does all of it. */
    method RecoverConvert() returns (action: RecoverAction, ghost dec: Decision)
      requires Valid() && proc.Idle?
      modifies this
      ensures Valid() && old(trace) <= trace && proc.Idle? && used == old(used) && faults >= old(faults)
      ensures forall i | |old(trace)| - 1 <= i < |trace| - 1 :: NextOfOneAt(root, trace, i)
      ensures Chooses(root, old(disk), dec) && Told(root, old(disk), disk, action)
      ensures faults == old(faults) ==> (disk, action) == Outcome(old(disk), dec)
    {
      action, dec := Recover();
      StartsNoConversion(root, trace, |old(trace)| - 1);
    }

    method Recover() returns (action: RecoverAction, ghost dec: Decision)
      requires Valid() && proc.Idle?
      modifies this
      ensures Valid() && old(trace) <= trace && proc.Idle? && used == old(used) && faults >= old(faults)
      ensures Chooses(root, old(disk), dec) && Told(root, old(disk), disk, action)
      ensures faults == old(faults) ==> (disk, action) == Outcome(old(disk), dec)
    {
      var ok, markers := FindConvertMarkers();
      if !ok {
        return ActError, ListError;
      }
      if markers == [] {
        EmptyListingDecides(root, disk);
        return ActNone, Nothing;
      }
      var opIds := OperationIds(markers);
      if opIds != {markers[0].op} {
        ghost var j := OtherOperation(markers);
        MixedListingDecides(root, disk, markers, j);
        return ActNeedsAttention, Attention;
      }
      ListingDecides(root, disk, markers);
      ghost var p :| Listed(root, disk, p, markers[0]);
      dec := DecideFrom(disk, markers[0]);
      action := RecoverFromMarker(markers[0]);
    }

    static method OperationIds(markers: seq<Marker>) returns (ids: set<OpId>)
      ensures ids == Operations(markers)
    {
      ids := {};
      for i := 0 to |markers|
        invariant ids == Operations(markers[..i])
      {
        ids := ids + {markers[i].op};
      }
      assert markers[..|markers|] == markers;
    }

    /** The convert markers in the root, the backups and the work directories. */
    method FindConvertMarkers() returns (ok: bool, markers: seq<Marker>)
      ensures ok <==> Listable(root, disk)
      ensures ok ==> ListingOf(root, disk, markers)
    {
      if !WellFormed(Pattern(root, BACKUP)) || !WellFormed(Pattern(root, WORK)) {
        return false, [];
      }
      var candidates := Candidates();
      ok, markers := true, [];
      var seen: set<Key> := {};
      ghost var source := 0;
      for i := 0 to |candidates|
        invariant ok && ListedSoFar(root, disk, candidates, i, source, markers, seen)
      {
        var listed, found := ListConvertMarkers(candidates[i]);
        if !listed {
          assert candidates[i] in candidates;
          return false, [];
        }
        var merged, keys := Merge(markers, seen, found);
        ghost var from := if markers == [] && found != [] then i else source;
        ListingAdds(root, disk, candidates, i, source, markers, seen, found, from, merged, keys);
        markers, seen, source := merged, keys, from;
      }
      ListedSoFarIsListing(root, disk, candidates, source, markers, seen);
    }

    /** Adds the markers that are not a repetition of an earlier one. */
    static method Merge(markers: seq<Marker>, seen: set<Key>, found: seq<Marker>)
      returns (merged: seq<Marker>, keys: set<Key>)
      requires seen == set m | m in markers :: KeyOf(m)
      ensures MergeOf(markers, seen, found, merged, keys)
    {
      merged, keys := markers, seen;
      for i := 0 to |found|
        invariant MergeOf(markers, seen, found[..i], merged, keys)
      {
        if KeyOf(found[i]) !in keys {
          merged := merged + [found[i]];
          keys := keys + {KeyOf(found[i])};
        }
      }
      assert found[..|found|] == found;
    }

    /** The root, what the backup pattern finds, what else the work pattern finds. */
    method Candidates() returns (candidates: seq<Path>)
      ensures CandidatesOf(root, disk, candidates)
    {
      var first := set p | p in disk && Sees(root, p) && Group(root, p) == 1;
      var second := set p | p in disk && Sees(root, p) && Group(root, p) == 2;
      var backups := SortedPaths(root, first);
      var works := SortedPaths(root, second);
      candidates := [Root] + backups + works;
      CandidatesInOrder(root, backups, works);
      forall p | p in disk && Sees(root, p) ensures p in candidates {
        if p.Root? {
          assert candidates[0] == Root;
        } else {
          assert Group(root, p) == 1 || Group(root, p) == 2;
          assert p in first || p in second;
        }
      }
    }

    /** The paths in the order of their texts, as a sorted list of matches. */
    static method SortedPaths(root: string, paths: set<Path>) returns (s: seq<Path>)
      requires forall p | p in paths :: Proper(root, p)
      ensures forall p :: p in s <==> p in paths
      ensures forall i, j | 0 <= i < j < |s| :: Less(PathText(root, s[i]), PathText(root, s[j]))
    {
      var texts := SortedNames(set p | p in paths :: PathText(root, p));
      s := [];
      for i := 0 to |texts|
        invariant |s| == i && forall j | 0 <= j < i :: s[j] in paths && PathText(root, s[j]) == texts[j]
      {
        assert texts[i] in texts;
        var p :| p in paths && PathText(root, p) == texts[i];
        s := s + [p];
      }
      forall p | p in paths ensures p in s {
        var text := PathText(root, p);
        assert text in texts;
        var i :| 0 <= i < |texts| && texts[i] == text;
        TextInjective(root, p, s[i]);
      }
    }

    /** The convert markers of one directory, or an error for a file that is not
        a marker as it should be. Markers of imports and exports are passed over. */
    method ListConvertMarkers(p: Path) returns (ok: bool, markers: seq<Marker>)
      requires Sees(root, p)
      ensures ok <==> DirListable(disk, p)
      ensures ok ==> forall m :: m in markers <==> Listed(root, disk, p, m)
    {
      if p !in disk {
        return true, [];
      }
      ok, markers := ListDir(disk[p].markers);
    }

    static method ListDir(files: map<OpId, MarkerFile>) returns (ok: bool, markers: seq<Marker>)
      ensures ok <==> forall n | n in files :: ListableFile(n, files[n])
      ensures ok ==> forall m :: m in markers <==> InFiles(files, m)
    {
      ok, markers := true, [];
      var names := SortedNames(files.Keys);
      for i := 0 to |names|
        invariant ok
        invariant forall j | 0 <= j < i :: ListableFile(names[j], files[names[j]])
        invariant forall m | m in markers :: InFiles(files, m)
        invariant forall m | InFiles(files, m) && m.op in names[..i] :: m in markers
      {
        assert names[i] in names;
        var file := files[names[i]];
        if file.Unreadable? {
          return false, [];
        }
        if file.marker.kind.Convert? {
          if !ValidOpId(file.marker.op) || names[i] != file.marker.op {
            return false, [];
          }
          markers := markers + [file.marker];
        }
      }
      assert forall n | n in files :: n in names;
      assert names[..|names|] == names;
    }

    /** The names in order, as a directory listing or a glob returns them. */
    static method SortedNames(names: set<string>) returns (s: seq<string>)
      ensures forall x :: x in s <==> x in names
      ensures StrictlySorted(s)
    {
      s := [];
      var rest := names;
      while rest != {}
        invariant rest <= names
        invariant forall x :: x in s <==> x in names && x !in rest
        invariant forall i, j | 0 <= i < j < |s| :: s[i] != s[j]
        decreases rest
      {
        var x :| x in rest;
        rest := rest - {x};
        s := s + [x];
      }
      SortDistinct(s);
      s := Sort(s);
    }

    method RecoverFromMarker(marker: Marker) returns (action: RecoverAction)
      requires Valid() && proc.Idle? && marker.kind.Convert?
      requires Chooses(root, disk, DecideFrom(disk, marker))
      modifies this
      ensures ToldOf(old(disk), disk, marker.op, action)
      ensures Valid() && old(trace) <= trace && proc.Idle? && used == old(used) && faults >= old(faults)
      ensures faults == old(faults) ==> (disk, action) == Outcome(old(disk), DecideFrom(old(disk), marker))
    {
      if !ValidMarker(marker) {
        return ActNeedsAttention;
      }
      var rootExists, workExists, backupExists := marker.root in disk, marker.work in disk, marker.backup in disk;
      ghost var dec := DecideFrom(disk, marker);
      proc := RecoveryStart(disk, dec);
      assert StartRecovery(root, old(Now()), Now(), dec);
      Log();
      action := ActOnMarker(marker, rootExists, workExists, backupExists);
    }

    /** What recovery does for each phase. */
    method ActOnMarker(marker: Marker, rootExists: bool, workExists: bool, backupExists: bool)
      returns (action: RecoverAction)
      requires Valid() && ValidMarker(marker) && marker.kind.Convert?
      requires rootExists == (marker.root in disk) && workExists == (marker.work in disk)
      requires backupExists == (marker.backup in disk)
      requires proc == RecoveryStart(disk, DecideFrom(disk, marker))
      modifies this
      ensures ToldOf(old(disk), disk, marker.op, action)
      ensures Valid() && old(trace) <= trace && proc.Idle? && used == old(used) && faults >= old(faults)
      ensures faults == old(faults) ==> (disk, action) == Outcome(old(disk), DecideFrom(old(disk), marker))
    {
      match marker.phase {
        case CreatingWork | CopyingToWork | VerifyingWork =>
          if !rootExists || backupExists {
            return ActNeedsAttention;
          }
          action := DiscardWork(marker);
        case RenamingRootToBackup =>
          if rootExists && workExists && !backupExists {
            action := RenameBothAgain(marker);
            return;
          }
          action := RecoverRename(marker, rootExists, workExists, backupExists);
        case RenamingWorkToRoot =>
          action := RecoverRename(marker, rootExists, workExists, backupExists);
        case Completed =>
          CleanUpMarkers(marker);
          action := ActCompleted;
        case NeedsAttention =>
          action := ActNeedsAttention;
        case OtherPhase =>
          action := ActNeedsAttention;
      }
    }

    method DiscardWork(marker: Marker) returns (action: RecoverAction)
      requires Valid() && proc == RecoveryStart(disk, Discard(marker))
      requires ValidMarker(marker) && Root in disk && marker.backup !in disk
      modifies this
      ensures ToldOf(old(disk), disk, marker.op, action)
      ensures Valid() && old(trace) <= trace && proc.Idle? && used == old(used) && faults >= old(faults)
      ensures faults == old(faults) ==> (disk, action) == Outcome(old(disk), Discard(marker))
    {
      var ok;
      if marker.work in disk {
        ok := RemoveAllPath(marker.work, At(RemoveMarker, marker));
        if !ok {
          return ActNeedsAttention;
        }
      }
      assert faults == old(faults) ==> disk == old(disk) - {marker.work};
      ok := RemoveMarkerFile(marker.root, marker.op, false, Idle);
      if !ok {
        return ActNeedsAttention;
      }
      action := ActRerun;
    }

    method RenameBothAgain(marker: Marker) returns (action: RecoverAction)
      requires Valid() && proc == At(RecoverRenameRoot, marker) && ValidMarker(marker)
      requires Root in disk && marker.work in disk && marker.backup !in disk
      modifies this
      ensures ToldOf(old(disk), disk, marker.op, action)
      ensures Valid() && old(trace) <= trace && proc.Idle? && used == old(used) && faults >= old(faults)
      ensures faults == old(faults) ==> (disk, action) == Outcome(old(disk), RenameBoth(marker))
    {
      var ok := RenamePath(marker.root, marker.backup, At(RecoverWriteMarker, marker));
      if !ok {
        return ActNeedsAttention;
      }
      ok := WriteMarker(marker.backup, marker.(phase := RenamingWorkToRoot), At(RecoverRenameWork, marker));
      if !ok {
        return ActNeedsAttention;
      }
      action := FinishRecoveredWorkRename(marker);
      if action.ActContinueRename? {
        InstalledFromRoot(old(disk), marker.(phase := RenamingWorkToRoot), disk);
      }
    }

    /** Shared by both rename phases: finish the second rename, or only tidy up. */
    method RecoverRename(marker: Marker, rootExists: bool, workExists: bool, backupExists: bool)
      returns (action: RecoverAction)
      requires ValidMarker(marker)
      requires Valid() && proc == RecoveryStart(disk, DecideRename(marker, rootExists, workExists, backupExists))
      requires rootExists == (Root in disk) && workExists == (marker.work in disk)
      requires backupExists == (marker.backup in disk)
      modifies this
      ensures ToldOf(old(disk), disk, marker.op, action)
      ensures Valid() && old(trace) <= trace && proc.Idle? && used == old(used) && faults >= old(faults)
      ensures faults == old(faults) ==>
                (disk, action) == Outcome(old(disk), DecideRename(marker, rootExists, workExists, backupExists))
    {
      if !rootExists && workExists && backupExists {
        action := FinishRecoveredWorkRename(marker);
        return;
      }
      if rootExists && !workExists && backupExists {
        CleanUpMarkers(marker);
        return ActCompleted;
      }
      action := ActNeedsAttention;
    }

    method FinishRecoveredWorkRename(marker: Marker) returns (action: RecoverAction)
      requires Valid() && proc == At(RecoverRenameWork, marker) && ValidMarker(marker)
      requires Root !in disk && marker.work in disk && marker.backup in disk
      modifies this
      ensures action == ActNeedsAttention ||
              (action == ActContinueRename && WorkInstalled(old(disk), disk, marker.op))
      ensures Valid() && old(trace) <= trace && proc.Idle? && used == old(used) && faults >= old(faults)
      ensures faults == old(faults) ==> (disk, action) == FinishRename(old(disk), marker)
    {
      var ok := RenamePath(marker.work, marker.root, At(CleanRoot, marker));
      if !ok {
        return ActNeedsAttention;
      }
      RenamedIsInstalled(old(disk), marker.op);
      ghost var renamed := disk;
      CleanUpMarkers(marker);
      InstalledThenCleaned(old(disk), renamed, disk, marker.op);
      action := ActContinueRename;
    }
  }

  lemma {:induction false} UsedGrows(r: string, tr: seq<State>, i: nat, j: nat)
    requires Run(r, tr) && i <= j < |tr|
    ensures tr[i].used <= tr[j].used
    decreases j
  {
    if i < j {
      UsedGrows(r, tr, i, j - 1);
      StepOfRun(r, tr, j - 1);
    }
  }

  lemma StepOfRun(r: string, tr: seq<State>, i: nat)
    requires Run(r, tr) && i < |tr| - 1
    ensures tr[i].used <= tr[i + 1].used && (tr[i].used == tr[i + 1].used ==> NextOfOne(r, tr[i], tr[i + 1]))
  {
    assert NextAt(r, tr, i);
    StepUses(r, tr[i], tr[i + 1]);
  }

  lemma StepUses(r: string, s: State, t: State)
    requires Next(r, s, t)
    ensures s.used <= t.used && (s.used == t.used ==> NextOfOne(r, s, t))
  {
    if op, kind :| StartConvert(s, t, op, kind) {
      assert op in t.used;
    } else if s.proc.At? && Execute(s, t) {
      ExecuteUses(s, t);
    }
  }

  lemma ExecuteUses(s: State, t: State)
    requires s.proc.At? && Execute(s, t)
    ensures s.used == t.used
  {
  }

  lemma OneStepStartsNone(r: string, tr: seq<State>, n: nat, i: nat)
    requires Run(r, tr) && n <= i < |tr| - 1 && tr[|tr| - 1].used == tr[n].used
    ensures NextOfOne(r, tr[i], tr[i + 1])
  {
    UsedGrows(r, tr, n, i);
    UsedGrows(r, tr, i + 1, |tr| - 1);
    StepOfRun(r, tr, i);
  }

  /** While no id is given out no conversion starts. */
  lemma StartsNoConversion(r: string, tr: seq<State>, n: nat)
    requires Run(r, tr) && n < |tr| && tr[|tr| - 1].used == tr[n].used
    ensures forall i | n <= i < |tr| - 1 :: NextOfOneAt(r, tr, i)
  {
    forall i | n <= i < |tr| - 1 ensures NextOfOneAt(r, tr, i) {
      OneStepStartsNone(r, tr, n, i);
    }
  }

  lemma TraceIsOneConversion(r: string, tr: seq<State>, n: nat, op: OpId, kind: Kind)
    requires Run(r, tr) && n + 1 < |tr| && StartConvert(tr[n], tr[n + 1], op, kind)
    requires tr[|tr| - 1].used == tr[n].used + {op}
    ensures Clean(tr[n].disk, op) ==> OneConversion(r, tr[n..], op, kind)
  {
    var part := tr[n..];
    assert part[0] == tr[n] && part[1] == tr[n + 1];
    forall i | 1 <= i < |part| - 1 ensures NextOfOneAt(r, part, i) {
      OneStepStartsNone(r, tr, n + 1, n + i);
      assert part[i] == tr[n + i] && part[i + 1] == tr[n + i + 1];
    }
  }

  /** Two markers with the same key are reported once. */
  type Key = (OpId, Phase, Path, Path, Path)

  ghost predicate StrictlySorted(s: seq<string>)
  {
    forall i, j | 0 <= i < j < |s| :: Less(s[i], s[j])
  }

  lemma {:induction false} InsertStrict(s: seq<string>, x: string)
    requires StrictlySorted(s) && x !in s
    ensures StrictlySorted(Insert(s, x)) && forall y :: y in Insert(s, x) <==> y == x || y in s
  {
    if s == [] {
    } else if Leq(x, s[0]) {
      forall j | 0 <= j < |s| ensures Less(x, s[j]) {
        if j > 0 {
          LeqTransitive(x, s[0], s[j]);
        }
      }
    } else {
      LeqTotal(x, s[0]);
      InsertStrict(s[1..], x);
      assert s == [s[0]] + s[1..];
      var rest := Insert(s[1..], x);
      forall j | 0 <= j < |rest| ensures Less(s[0], rest[j]) {
        assert rest[j] in rest;
        if rest[j] != x {
          assert rest[j] in s[1..];
        }
      }
    }
  }

  lemma {:induction false} SortDistinct(s: seq<string>)
    requires forall i, j | 0 <= i < j < |s| :: s[i] != s[j]
    ensures StrictlySorted(Sort(s)) && forall x :: x in Sort(s) <==> x in s
  {
    if s != [] {
      SortDistinct(s[..|s| - 1]);
      InsertStrict(Sort(s[..|s| - 1]), s[|s| - 1]);
    }
  }

  function Operations(markers: seq<Marker>): set<OpId>
  {
    set m | m in markers :: m.op
  }

  /** What a complete list of the convert markers on a disk says. */
  ghost predicate ListingOf(r: string, d: Disk, markers: seq<Marker>)
  {
    && Listable(r, d)
    && (forall m | m in markers :: exists p :: Listed(r, d, p, m))
    && (forall p, m | Listed(r, d, p, m) :: m.op in Operations(markers))
    && (markers != [] ==> exists p :: First(r, d, p, markers[0]))
  }

  lemma OtherOperation(markers: seq<Marker>) returns (j: nat)
    requires markers != [] && Operations(markers) != {markers[0].op}
    ensures j < |markers| && markers[j].op != markers[0].op
  {
    assert markers[0] in markers;
    var x :| x in Operations(markers) && x != markers[0].op;
    j :| 0 <= j < |markers| && markers[j].op == x;
  }

  lemma EmptyListingDecides(r: string, d: Disk)
    requires ListingOf(r, d, [])
    ensures Chooses(r, d, Nothing)
  {
  }

  lemma MixedListingDecides(r: string, d: Disk, markers: seq<Marker>, i: nat)
    requires ListingOf(r, d, markers) && i < |markers| && markers[i].op != markers[0].op
    ensures Chooses(r, d, Attention)
  {
    assert markers[0] in markers && markers[i] in markers;
    var p :| Listed(r, d, p, markers[0]);
    var q :| Listed(r, d, q, markers[i]);
    ChooseSeveral(r, d, p, markers[0], q, markers[i]);
  }

  lemma OneOperation(r: string, d: Disk, markers: seq<Marker>)
    requires ListingOf(r, d, markers) && markers != []
    requires Operations(markers) == {markers[0].op}
    ensures !SeveralOperations(r, d)
  {
    forall p, m | Listed(r, d, p, m) ensures m.op == markers[0].op {
    }
  }

  lemma ListingDecides(r: string, d: Disk, markers: seq<Marker>)
    requires ListingOf(r, d, markers) && markers != []
    requires Operations(markers) == {markers[0].op}
    ensures Chooses(r, d, DecideFrom(d, markers[0])) && markers[0].kind.Convert?
  {
    OneOperation(r, d, markers);
    var p :| First(r, d, p, markers[0]);
    ChooseFirst(r, d, p, markers[0]);
  }

  /** The directories up to `i` have been listed into `markers`, from `source` on. */
  ghost predicate ListedSoFar(r: string, d: Disk, candidates: seq<Path>, i: nat, source: nat, markers: seq<Marker>,
                              seen: set<Key>)
    requires i <= |candidates|
  {
    && (forall j | 0 <= j < i :: DirListable(d, candidates[j]))
    && (seen == set m | m in markers :: KeyOf(m))
    && (forall m | m in markers :: exists p :: Listed(r, d, p, m))
    && (forall j, m | 0 <= j < i && Listed(r, d, candidates[j], m) :: KeyOf(m) in seen)
    && (markers != [] ==> source < i && Listed(r, d, candidates[source], markers[0]))
    && (forall j, m | 0 <= j < (if markers == [] then i else source) :: !Listed(r, d, candidates[j], m))
  }

  ghost predicate CandidatesOf(r: string, d: Disk, candidates: seq<Path>)
  {
    && (forall p | p in d && Sees(r, p) :: p in candidates)
    && (forall p | p in candidates :: Sees(r, p))
    && (forall i, j | 0 <= i < j < |candidates| :: Before(r, candidates[i], candidates[j]))
  }

  lemma FirstOfListing(r: string, d: Disk, candidates: seq<Path>, source: nat, markers: seq<Marker>, seen: set<Key>)
    requires CandidatesOf(r, d, candidates) && ListedSoFar(r, d, candidates, |candidates|, source, markers, seen)
    requires markers != []
    ensures First(r, d, candidates[source], markers[0])
  {
    forall q, m | Listed(r, d, q, m) ensures q == candidates[source] || Before(r, candidates[source], q) {
      assert q in candidates;
      var j :| 0 <= j < |candidates| && candidates[j] == q;
      assert Listed(r, d, candidates[j], m);
    }
  }

  lemma ListedSoFarIsListing(r: string, d: Disk, candidates: seq<Path>, source: nat, markers: seq<Marker>,
                             seen: set<Key>)
    requires Searchable(r)
    requires CandidatesOf(r, d, candidates) && ListedSoFar(r, d, candidates, |candidates|, source, markers, seen)
    ensures ListingOf(r, d, markers)
  {
    forall p | p in d && Sees(r, p) ensures DirListable(d, p) {
      assert p in candidates;
    }
    forall p, m | Listed(r, d, p, m)
      ensures m.op in Operations(markers)
    {
      assert p in candidates;
      var j :| 0 <= j < |candidates| && candidates[j] == p;
      assert KeyOf(m) in seen;
      var n :| n in markers && KeyOf(n) == KeyOf(m);
    }
    if markers != [] {
      FirstOfListing(r, d, candidates, source, markers, seen);
    }
  }

  lemma ListingAdds(r: string, d: Disk, candidates: seq<Path>, i: nat, source: nat, markers: seq<Marker>,
                    seen: set<Key>, found: seq<Marker>, source': nat, markers': seq<Marker>, seen': set<Key>)
    requires i < |candidates| && ListedSoFar(r, d, candidates, i, source, markers, seen)
    requires DirListable(d, candidates[i]) && forall m :: m in found <==> Listed(r, d, candidates[i], m)
    requires source' == if markers == [] && found != [] then i else source
    requires MergeOf(markers, seen, found, markers', seen')
    ensures ListedSoFar(r, d, candidates, i + 1, source', markers', seen')
  {
    if markers == [] && found != [] {
      assert found[0] in found;
    }
    if markers == [] && found == [] {
      forall j, m | 0 <= j < i + 1 ensures !Listed(r, d, candidates[j], m) {
      }
    }
  }

  ghost predicate MergeOf(markers: seq<Marker>, seen: set<Key>, found: seq<Marker>, merged: seq<Marker>, keys: set<Key>)
  {
    && keys == (set m | m in merged :: KeyOf(m))
    && markers <= merged && (markers == [] && found != [] ==> merged != [] && merged[0] == found[0])
    && (forall m | m in merged :: m in markers || m in found)
    && (forall m | m in found :: KeyOf(m) in keys)
    && seen <= keys && (found == [] ==> merged == markers)
  }

  /** A convert marker in the file named after it. */
  predicate InFiles(files: map<OpId, MarkerFile>, m: Marker)
  {
    m.op in files && files[m.op] == Readable(m) && m.kind.Convert?
  }

  predicate DirListable(d: Disk, p: Path)
  {
    p in d ==> forall n | n in d[p].markers :: ListableFile(n, d[p].markers[n])
  }

  function KeyOf(m: Marker): Key
  {
    (m.op, m.phase, m.root, m.work, m.backup)
  }

  lemma CandidatesInOrder(r: string, backups: seq<Path>, works: seq<Path>)
    requires forall p | p in backups :: Group(r, p) == 1
    requires forall p | p in works :: Group(r, p) == 2
    requires forall i, j | 0 <= i < j < |backups| :: Less(PathText(r, backups[i]), PathText(r, backups[j]))
    requires forall i, j | 0 <= i < j < |works| :: Less(PathText(r, works[i]), PathText(r, works[j]))
    ensures var all := [Root] + backups + works;
            forall i, j | 0 <= i < j < |all| :: Before(r, all[i], all[j])
  {
    ChainOfGroup(r, backups, 1);
    ChainOfGroup(r, works, 2);
    ChainJoins(r, [Root], backups);
    forall p, q | p in [Root] + backups && q in works ensures Before(r, p, q) {
      assert p == Root || p in backups;
    }
    ChainJoins(r, [Root] + backups, works);
  }

  ghost predicate Chain(r: string, paths: seq<Path>)
  {
    forall i, j | 0 <= i < j < |paths| :: Before(r, paths[i], paths[j])
  }

  lemma ChainOfGroup(r: string, paths: seq<Path>, group: nat)
    requires group > 0 && forall p | p in paths :: Group(r, p) == group
    requires forall i, j | 0 <= i < j < |paths| :: Less(PathText(r, paths[i]), PathText(r, paths[j]))
    ensures Chain(r, paths)
  {
    forall i, j | 0 <= i < j < |paths| ensures Before(r, paths[i], paths[j]) {
      assert paths[i] in paths && paths[j] in paths;
    }
  }

  lemma ChainJoins(r: string, a: seq<Path>, b: seq<Path>)
    requires Chain(r, a) && Chain(r, b)
    requires forall p, q | p in a && q in b :: Before(r, p, q)
    ensures Chain(r, a + b)
  {
    forall i, j | 0 <= i < j < |a + b| ensures Before(r, (a + b)[i], (a + b)[j]) {
      if i < |a| <= j {
        assert (a + b)[i] in a && (a + b)[j] in b;
      }
    }
  }

  /** Two paths that are written alike are the same path. */
  lemma TextInjective(r: string, p: Path, q: Path)
    requires Proper(r, p) && Proper(r, q) && PathText(r, p) == PathText(r, q)
    ensures p == q
  {
    var text := PathText(r, p);
    match p {
      case Backup(a) => OwnIsTagged(r, BACKUP, a); assert text[|r + BACKUP|..] == a && text[|r| + 11] == 'b';
      case Work(a) => OwnIsTagged(r, WORK, a); assert text[|r + WORK|..] == a && text[|r| + 11] == 'w';
      case _ =>
    }
    match q {
      case Backup(b) => OwnIsTagged(r, BACKUP, b); assert text[|r + BACKUP|..] == b && text[|r| + 11] == 'b';
      case Work(b) => OwnIsTagged(r, WORK, b); assert text[|r + WORK|..] == b && text[|r| + 11] == 'w';
      case _ =>
    }
  }
}
