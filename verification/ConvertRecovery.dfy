/** One conversion, stopped anywhere, and the recoveries after it, themselves
    stopped anywhere: where the disk can be, and where recovery takes it. */
module ConvertRecovery {
  import opened Glob
  import opened Trees
  import opened ConvertModel

  /** The disk a conversion starts from: every earlier one was settled. */
  ghost predicate Clean(base: Disk, op: OpId)
  {
    && Root in base && ValidOpId(op)
    && Work(op) !in base && Backup(op) !in base
    && op !in base[Root].markers && ExportId(op) !in base[Root].markers
    && forall p, n | p in base && !p.Elsewhere? && n in base[p].markers ::
         ListableFile(n, base[p].markers[n]) && !IsConvertFile(base[p].markers[n])
  }

  /** Everything but this operation's three directories is as it was. */
  ghost predicate Around(base: Disk, op: OpId, d: Disk)
  {
    forall p | p != Root && p != Work(op) && p != Backup(op) ::
      (p in d <==> p in base) && (p in d ==> d[p] == base[p])
  }

  /** A marker file of this operation, in one of the given phases. */
  predicate OwnFile(op: OpId, kind: Kind, f: MarkerFile, phases: set<Phase>)
  {
    f.Readable? && f.marker.(phase := CreatingWork) == NewMarker(op, kind) && f.marker.phase in phases
  }

  /** An export that was interrupted leaves its marker; only decrypting exports. */
  predicate Leftover(op: OpId, kind: Kind, markers: map<OpId, MarkerFile>)
  {
    ExportId(op) in markers ==>
      kind == Decrypt && markers[ExportId(op)].Readable? && markers[ExportId(op)].marker.kind.Transfer?
  }

  /** The original directory, with or without this operation's markers in it. */
  predicate Original(base: Disk, op: OpId, kind: Kind, dir: Dir, phases: set<Phase>)
    requires Root in base
  {
    && dir.content == base[Root].content
    && dir.markers - {op, ExportId(op)} == base[Root].markers
    && (op in dir.markers ==> OwnFile(op, kind, dir.markers[op], phases))
    && Leftover(op, kind, dir.markers)
  }

  datatype Stage = Untouched | Early | Failed | Marked | Moved | Swapped

  predicate MarkedRoot(base: Disk, op: OpId, kind: Kind, d: Disk, phases: set<Phase>)
    requires Root in base
  {
    && Root in d && Backup(op) !in d
    && Original(base, op, kind, d[Root], phases) && op in d[Root].markers
    && (Work(op) in d ==> TransferOnly(d[Work(op)], op))
  }

  predicate NoExport(op: OpId, dir: Dir)
  {
    ExportId(op) !in dir.markers
  }

  const EARLY: set<Phase> := {CreatingWork, CopyingToWork, VerifyingWork}
  const RENAMING: set<Phase> := {RenamingRootToBackup, RenamingWorkToRoot}

  ghost predicate InStage(base: Disk, op: OpId, kind: Kind, d: Disk, stage: Stage)
    requires Clean(base, op)
  {
    match stage
    case Untouched =>
      && Root in d && Work(op) !in d && Backup(op) !in d
      && Original(base, op, kind, d[Root], {}) && op !in d[Root].markers
    case Early =>
      MarkedRoot(base, op, kind, d, EARLY)
    case Failed =>
      MarkedRoot(base, op, kind, d, {NeedsAttention}) && NoExport(op, d[Root])
    case Marked =>
      && MarkedRoot(base, op, kind, d, {RenamingRootToBackup}) && NoExport(op, d[Root]) && Work(op) in d
      && Agrees(kind, base[Root].content, d[Work(op)].content)
    case Moved =>
      && Root !in d && Work(op) in d && TransferOnly(d[Work(op)], op)
      && Backup(op) in d && Original(base, op, kind, d[Backup(op)], RENAMING) && op in d[Backup(op)].markers
      && NoExport(op, d[Backup(op)])
      && Agrees(kind, base[Root].content, d[Work(op)].content)
    case Swapped =>
      && Work(op) !in d && Root in d && Backup(op) in d
      && TransferOnly(d[Root].(markers := d[Root].markers - {op}), op)
      && (op in d[Root].markers ==> OwnFile(op, kind, d[Root].markers[op], {Completed}))
      && Original(base, op, kind, d[Backup(op)], RENAMING) && NoExport(op, d[Backup(op)])
      && Agrees(kind, base[Root].content, d[Root].content)
  }

  /** The conversion rolled back: the original is at the root, and nothing else is
      left but, after decrypting, perhaps the marker of the interrupted export. */
  ghost predicate RolledBack(base: Disk, op: OpId, kind: Kind, d: Disk)
    requires Clean(base, op)
  {
    && Around(base, op, d) && Work(op) !in d && Backup(op) !in d
    && Root in d && d[Root].content == base[Root].content
    && d[Root].markers - {ExportId(op)} == base[Root].markers && Leftover(op, kind, d[Root].markers)
  }

  /** The conversion done: the converted tree is at the root, the original at the backup. */
  ghost predicate Done(base: Disk, op: OpId, kind: Kind, d: Disk)
    requires Clean(base, op)
  {
    && Around(base, op, d) && Work(op) !in d
    && Root in d && TransferOnly(d[Root], op) && Agrees(kind, base[Root].content, d[Root].content)
    && Backup(op) in d && d[Backup(op)] == base[Root]
  }

  ghost predicate Recoverable(base: Disk, op: OpId, kind: Kind, d: Disk)
    requires Clean(base, op)
  {
    Around(base, op, d) && exists stage :: InStage(base, op, kind, d, stage)
  }

  /** The stage in which a statement finds the disk. */
  function StageOf(at: Point): Stage
  {
    match at
    case WriteCreating => Untouched
    case RenameRoot | RecoverRenameRoot => Marked
    case WriteBackup | WriteWorkRename | RenameWork | RecoverWriteMarker | RecoverRenameWork => Moved
    case WriteCompleted | CleanRoot | CleanBackup => Swapped
    case _ => Early
  }

  predicate NeedsWork(at: Point)
  {
    at.WriteCopying? || at.StartExport? || at.BuildWork? || at.EndExport? || at.WriteVerifying? || at.CheckWork? ||
    at.WriteFailed? || at.WriteRootRename? || at.RemoveWork?
  }

  /** Outside the export its marker is not there. */
  predicate OutsideExport(at: Point)
  {
    at.WriteCreating? || at.MakeWork? || at.WriteCopying? || at.StartExport? || at.WriteVerifying? ||
    at.CheckWork? || at.WriteFailed? || at.WriteRootRename?
  }

  /** What a running process still counts on. */
  ghost predicate AtStage(base: Disk, op: OpId, kind: Kind, s: State)
    requires Clean(base, op)
  {
    s.proc.At? ==>
      && s.proc.mk.(phase := CreatingWork) == NewMarker(op, kind)
      && InStage(base, op, kind, s.disk, StageOf(s.proc.point))
      && (NeedsWork(s.proc.point) ==> Work(op) in s.disk)
      && (s.proc.point.RemoveMarker? ==> Work(op) !in s.disk)
      && (s.proc.point.StartExport? ==> kind == Decrypt)
      && (OutsideExport(s.proc.point) ==> NoExport(op, s.disk[Root]))
      && (s.proc.point.WriteRootRename? ==> Agrees(kind, base[Root].content, s.disk[Work(op)].content))
  }

  ghost predicate OnTrack(base: Disk, op: OpId, kind: Kind, s: State)
    requires Clean(base, op)
  {
    Recoverable(base, op, kind, s.disk) && AtStage(base, op, kind, s)
  }

  // ------------------------------------------------- what recovery decides

  /** The only convert marker of a directory is this operation's. */
  predicate OwnDir(op: OpId, dir: Dir)
  {
    forall n | n in dir.markers ::
      ListableFile(n, dir.markers[n]) && (IsConvertFile(dir.markers[n]) ==> n == op)
  }

  lemma BaseDirs(base: Disk, op: OpId, p: Path)
    requires Clean(base, op) && p in base && !p.Elsewhere?
    ensures OwnDir(op, base[p]) && NoConvertMarkers(base[p])
  {
    forall n | n in base[p].markers
      ensures ListableFile(n, base[p].markers[n])
    {
    }
  }

  lemma OriginalDir(base: Disk, op: OpId, kind: Kind, dir: Dir, phases: set<Phase>)
    requires Clean(base, op) && Original(base, op, kind, dir, phases)
    ensures OwnDir(op, dir)
  {
    BaseDirs(base, op, Root);
    forall n | n in dir.markers
      ensures ListableFile(n, dir.markers[n]) && (IsConvertFile(dir.markers[n]) ==> n == op)
    {
      if n != op && n != ExportId(op) {
        assert n in dir.markers - {op, ExportId(op)};
      }
    }
  }

  lemma OwnDirs(base: Disk, op: OpId, kind: Kind, d: Disk, stage: Stage)
    requires Clean(base, op) && InStage(base, op, kind, d, stage)
    ensures Root in d ==> OwnDir(op, d[Root])
    ensures Work(op) in d ==> OwnDir(op, d[Work(op)]) && NoConvertMarkers(d[Work(op)])
    ensures Backup(op) in d ==> OwnDir(op, d[Backup(op)])
  {
    match stage
    case Untouched => OriginalDir(base, op, kind, d[Root], {});
    case Early => OriginalDir(base, op, kind, d[Root], EARLY);
    case Failed => OriginalDir(base, op, kind, d[Root], {NeedsAttention});
    case Marked => OriginalDir(base, op, kind, d[Root], {RenamingRootToBackup});
    case Moved => OriginalDir(base, op, kind, d[Backup(op)], RENAMING);
    case Swapped =>
      OriginalDir(base, op, kind, d[Backup(op)], RENAMING);
      assert forall n | n in d[Root].markers && n != op :: n in d[Root].markers - {op};
  }

  lemma SeenIsOwn(r: string, p: Path)
    requires Exact(r) && Sees(r, p)
    ensures !p.Elsewhere?
  {
    assert forall text :: Elsewhere(text) == p ==> !Sees(r, Elsewhere(text));
  }

  lemma ListsOwnMarkers(r: string, base: Disk, op: OpId, kind: Kind, d: Disk)
    requires Exact(r) && Clean(base, op) && Recoverable(base, op, kind, d)
    ensures Listable(r, d)
    ensures forall p, m :: Listed(r, d, p, m) ==> m.op == op && (p == Root || p == Backup(op))
    ensures !SeveralOperations(r, d)
  {
    var stage :| InStage(base, op, kind, d, stage);
    OwnDirs(base, op, kind, d, stage);
    forall p | p in d && Sees(r, p)
      ensures OwnDir(op, d[p]) && (p == Root || p == Backup(op) || NoConvertMarkers(d[p]))
    {
      if p != Root && p != Work(op) && p != Backup(op) {
        SeenIsOwn(r, p);
        BaseDirs(base, op, p);
      }
    }
  }

  predicate OwnMarker(op: OpId, kind: Kind, m: Marker)
  {
    m.(phase := CreatingWork) == NewMarker(op, kind)
  }

  lemma PutKeepsOthers(markers: map<OpId, MarkerFile>, op: OpId, f: MarkerFile)
    ensures markers[op := f] - {op, ExportId(op)} == markers - {op, ExportId(op)}
    ensures markers[op := f] - {op} == markers - {op} && markers - {op} - {op} == markers - {op}
    ensures markers - {op} - {op, ExportId(op)} == markers - {op, ExportId(op)}
    ensures op !in markers && ExportId(op) !in markers ==> markers - {op, ExportId(op)} == markers
    ensures op !in markers ==> markers - {op} == markers && markers - {op, ExportId(op)} == markers - {ExportId(op)}
    ensures ExportId(op) != op
  {
    ExportIdIsAnother(op);
  }

  /** What recovery decides in each stage. */
  ghost predicate Decided(base: Disk, op: OpId, kind: Kind, d: Disk, stage: Stage, dec: Decision)
    requires Clean(base, op) && InStage(base, op, kind, d, stage)
  {
    match stage
    case Untouched => dec == Nothing
    case Early => dec.Discard? && OwnMarker(op, kind, dec.mk)
    case Failed => dec == Attention
    case Marked => dec.RenameBoth? && OwnMarker(op, kind, dec.mk)
    case Moved => dec.RenameWorkOnly? && OwnMarker(op, kind, dec.mk)
    case Swapped =>
      if op !in d[Root].markers && op !in d[Backup(op)].markers then dec == Nothing
      else (dec.CleanUp? || dec.CleanUpCompleted?) && OwnMarker(op, kind, dec.mk)
  }

  /** The marker recovery acts on: the root's if it has one, else the backup's. */
  lemma DecisionOf(r: string, base: Disk, op: OpId, kind: Kind, d: Disk, stage: Stage) returns (dec: Decision)
    requires Exact(r) && Clean(base, op) && Around(base, op, d) && InStage(base, op, kind, d, stage)
    ensures Chooses(r, d, dec) && Decided(base, op, kind, d, stage, dec)
  {
    ListsOwnMarkers(r, base, op, kind, d);
    if Root in d && op in d[Root].markers {
      var m := d[Root].markers[op].marker;
      assert Listed(r, d, Root, m);
      assert First(r, d, Root, m);
      dec := DecideFrom(d, m);
    } else if Backup(op) in d && op in d[Backup(op)].markers {
      var m := d[Backup(op)].markers[op].marker;
      assert Listed(r, d, Backup(op), m);
      assert First(r, d, Backup(op), m);
      dec := DecideFrom(d, m);
    } else {
      dec := Nothing;
    }
  }

  /** No directory of another path that the search sees holds a marker that claims
      to be a conversion of this root. */
  ghost predicate Unclaimed(r: string, base: Disk)
  {
    Searchable(r) ==>
      forall text, n | Elsewhere(text) in base && Sees(r, Elsewhere(text)) && n in base[Elsewhere(text)].markers ::
        var f := base[Elsewhere(text)].markers[n];
        IsConvertFile(f) ==> !ValidMarker(f.marker)
  }

  lemma ExactIsUnclaimed(r: string, base: Disk)
    requires Exact(r)
    ensures Unclaimed(r, base)
  {
  }

  /** The directories that are not this operation's hold no valid convert marker that is seen. */
  lemma OthersHoldNone(r: string, base: Disk, op: OpId, d: Disk, p: Path, n: OpId)
    requires Clean(base, op) && Unclaimed(r, base) && Around(base, op, d) && Searchable(r) && Sees(r, p)
    requires p in d && n in d[p].markers && p != Root && p != Work(op) && p != Backup(op)
    ensures IsConvertFile(d[p].markers[n]) ==> !ValidMarker(d[p].markers[n].marker)
  {
    assert p in base && d[p] == base[p];
    if p.Elsewhere? {
      assert p == Elsewhere(p.text);
    } else {
      BaseDirs(base, op, p);
    }
  }

  /** A valid convert marker that is listed is this operation's own. */
  lemma ListedIsOwn(r: string, base: Disk, op: OpId, kind: Kind, d: Disk, stage: Stage, p: Path, m: Marker)
    requires Clean(base, op) && Unclaimed(r, base) && Around(base, op, d) && InStage(base, op, kind, d, stage)
    requires Searchable(r) && Listed(r, d, p, m) && ValidMarker(m)
    ensures m.op == op && (p == Root || p == Backup(op))
  {
    OwnDirs(base, op, kind, d, stage);
    if p != Root && p != Work(op) && p != Backup(op) {
      OthersHoldNone(r, base, op, d, p, m.op);
    }
  }

  /** Whatever recovery reads, it acts on this operation's first marker or not at all:
      it may miss directories, be refused, or find what it cannot take for a conversion
      of this root. */
  lemma ActsOnOwnMarker(r: string, base: Disk, op: OpId, kind: Kind, d: Disk, stage: Stage, dec: Decision)
    requires Clean(base, op) && Unclaimed(r, base) && Around(base, op, d) && InStage(base, op, kind, d, stage)
    requires Chooses(r, d, dec)
    ensures RecoveryStart(d, dec).Idle? || Decided(base, op, kind, d, stage, dec)
  {
    if RecoveryStart(d, dec).At? {
      var p, m :| First(r, d, p, m) && dec == DecideFrom(d, m);
      ListedIsOwn(r, base, op, kind, d, stage, p, m);
      if Root in d && op in d[Root].markers {
        RootIsFirst(r, base, op, kind, d, stage, p, m);
      }
      DecidesByStage(base, op, kind, d, stage, p, m);
    }
  }

  /** If the root has the marker, that is the first. */
  lemma RootIsFirst(r: string, base: Disk, op: OpId, kind: Kind, d: Disk, stage: Stage, p: Path, m: Marker)
    requires Clean(base, op) && InStage(base, op, kind, d, stage) && Root in d && op in d[Root].markers
    requires First(r, d, p, m)
    ensures p == Root
  {
    assert Listed(r, d, Root, d[Root].markers[op].marker);
  }

  /** What the marker of the root, or else of the backup, leads to. */
  lemma DecidesByStage(base: Disk, op: OpId, kind: Kind, d: Disk, stage: Stage, p: Path, m: Marker)
    requires Clean(base, op) && InStage(base, op, kind, d, stage)
    requires p in d && op in d[p].markers && d[p].markers[op] == Readable(m)
    requires p == Root || (p == Backup(op) && (Root in d ==> op !in d[Root].markers))
    ensures Decided(base, op, kind, d, stage, DecideFrom(d, m))
  {
  }

  // --------------------------------------------- what each statement does

  lemma PutAtRoot(base: Disk, op: OpId, kind: Kind, d: Disk, m: Marker, phases: set<Phase>)
    requires Clean(base, op) && OwnMarker(op, kind, m)
    requires InStage(base, op, kind, d, Untouched) || MarkedRoot(base, op, kind, d, phases)
    ensures MarkedRoot(base, op, kind, PutMarker(d, Root, m), {m.phase})
    ensures NoExport(op, d[Root]) ==> NoExport(op, PutMarker(d, Root, m)[Root])
    ensures EnsureDir(d, Root) == d
  {
    PutKeepsOthers(d[Root].markers, op, Readable(m));
  }

  lemma MakesWork(base: Disk, op: OpId, kind: Kind, d: Disk)
    requires Clean(base, op) && InStage(base, op, kind, d, Early)
    ensures InStage(base, op, kind, EnsureDir(d, Work(op)), Early)
  {
  }

  lemma ChangesWork(base: Disk, op: OpId, kind: Kind, d: Disk, dir: Dir)
    requires Clean(base, op) && InStage(base, op, kind, d, Early) && TransferOnly(dir, op)
    ensures InStage(base, op, kind, d[Work(op) := dir], Early)
    ensures InStage(base, op, kind, d - {Work(op)}, Early)
  {
  }

  lemma RenamesRoot(base: Disk, op: OpId, kind: Kind, d: Disk)
    requires Clean(base, op) && InStage(base, op, kind, d, Marked)
    ensures CanRename(d, Root, Backup(op)) && InStage(base, op, kind, Renamed(d, Root, Backup(op)), Moved)
  {
  }

  lemma PutAtBackup(base: Disk, op: OpId, kind: Kind, d: Disk, m: Marker)
    requires Clean(base, op) && InStage(base, op, kind, d, Moved)
    requires OwnMarker(op, kind, m) && m.phase in RENAMING
    ensures InStage(base, op, kind, PutMarker(d, Backup(op), m), Moved)
    ensures EnsureDir(d, Backup(op)) == d
  {
    PutKeepsOthers(d[Backup(op)].markers, op, Readable(m));
  }

  lemma RenamesWork(base: Disk, op: OpId, kind: Kind, d: Disk)
    requires Clean(base, op) && InStage(base, op, kind, d, Moved)
    ensures CanRename(d, Work(op), Root) && InStage(base, op, kind, Renamed(d, Work(op), Root), Swapped)
  {
    PutKeepsOthers(d[Work(op)].markers, op, Unreadable);
  }

  lemma PutCompleted(base: Disk, op: OpId, kind: Kind, d: Disk, m: Marker)
    requires Clean(base, op) && InStage(base, op, kind, d, Swapped)
    requires OwnMarker(op, kind, m) && m.phase == Completed
    ensures InStage(base, op, kind, PutMarker(d, Root, m), Swapped)
    ensures EnsureDir(d, Root) == d
  {
    PutKeepsOthers(d[Root].markers, op, Readable(m));
  }

  lemma DropsMarker(base: Disk, op: OpId, kind: Kind, d: Disk, p: Path)
    requires Clean(base, op) && InStage(base, op, kind, d, Swapped) && (p == Root || p == Backup(op))
    ensures InStage(base, op, kind, DropMarker(d, p, op), Swapped)
    ensures op !in DropMarker(d, p, op)[p].markers
  {
    PutKeepsOthers(d[p].markers, op, Unreadable);
  }

  lemma DropsEarly(base: Disk, op: OpId, kind: Kind, d: Disk)
    requires Clean(base, op) && InStage(base, op, kind, d, Early) && Work(op) !in d
    ensures InStage(base, op, kind, DropMarker(d, Root, op), Untouched)
  {
    PutKeepsOthers(d[Root].markers, op, Unreadable);
  }

  lemma PutsExport(base: Disk, op: OpId, kind: Kind, d: Disk, m: Marker)
    requires Clean(base, op) && InStage(base, op, kind, d, Early) && OwnMarker(op, kind, m) && Exports(m)
    ensures InStage(base, op, kind, PutMarker(d, Root, ExportMarker(m)), Early)
    ensures EnsureDir(d, Root) == d
  {
    var id, f := ExportId(op), Readable(ExportMarker(m));
    ExportIdIsAnother(op);
    assert d[Root].markers[id := f] - {op, id} == d[Root].markers - {op, id};
  }

  lemma DropsExport(base: Disk, op: OpId, kind: Kind, d: Disk)
    requires Clean(base, op) && InStage(base, op, kind, d, Early)
    ensures var e := DropMarker(d, Root, ExportId(op));
            InStage(base, op, kind, e, Early) && NoExport(op, e[Root])
  {
    ExportIdIsAnother(op);
    var id := ExportId(op);
    assert d[Root].markers - {id} - {op, id} == d[Root].markers - {op, id};
  }

  // ------------------------------------------------------------ the machine

  /** A step of the conversion itself, of a recovery, or a crash: anything but
      the start of another conversion. */
  ghost predicate NextOfOne(r: string, s: State, t: State)
  {
    || Stop(s, t)
    || (exists dec :: StartRecovery(r, s, t, dec))
    || (s.proc.At? && Execute(s, t))
  }

  ghost predicate Arrives(base: Disk, op: OpId, kind: Kind, t: State)
    requires Clean(base, op)
  {
    if t.proc.At? then AtStage(base, op, kind, t)
    else exists stage :: InStage(base, op, kind, t.disk, stage)
  }

  lemma StartShape(base: Disk, op: OpId, kind: Kind, d: Disk, stage: Stage, dec: Decision)
    requires Clean(base, op) && InStage(base, op, kind, d, stage) && Decided(base, op, kind, d, stage, dec)
    ensures var proc := RecoveryStart(d, dec);
            proc.At? ==> OwnMarker(op, kind, proc.mk) && StageOf(proc.point) == stage
                         && !proc.point.WriteRootRename? && (NeedsWork(proc.point) ==> Work(op) in d)
                         && (proc.point.RemoveMarker? ==> Work(op) !in d)
  {
  }

  lemma RecoveryArrives(base: Disk, op: OpId, kind: Kind, s: State, t: State, stage: Stage, dec: Decision)
    requires Clean(base, op) && InStage(base, op, kind, s.disk, stage)
    requires Decided(base, op, kind, s.disk, stage, dec) && t == s.(proc := RecoveryStart(s.disk, dec))
    ensures Arrives(base, op, kind, t)
  {
    StartShape(base, op, kind, s.disk, stage, dec);
    assert InStage(base, op, kind, t.disk, stage);
  }

  lemma ExecuteAround(base: Disk, op: OpId, kind: Kind, s: State, t: State)
    requires Clean(base, op) && OnTrack(base, op, kind, s) && s.proc.At? && Execute(s, t)
    ensures Around(base, op, t.disk)
  {
    forall p | p != Root && p != Work(op) && p != Backup(op)
      ensures (p in t.disk <==> p in s.disk) && (p in t.disk ==> t.disk[p] == s.disk[p])
    {
      ExecuteElsewhere(s, t, p);
    }
  }

  /** A statement touches only the root and its own operation's directories. */
  lemma ExecuteElsewhere(s: State, t: State, p: Path)
    requires s.proc.At? && ValidMarker(s.proc.mk) && Execute(s, t)
    requires p != Root && p != Work(s.proc.mk.op) && p != Backup(s.proc.mk.op)
    ensures (p in t.disk <==> p in s.disk) && (p in t.disk ==> t.disk[p] == s.disk[p])
  {
  }

  lemma PrepareArrives(base: Disk, op: OpId, kind: Kind, s: State, t: State)
    requires Clean(base, op) && AtStage(base, op, kind, s) && s.proc.At? && Execute(s, t)
    requires s.proc.point.WriteCreating? || s.proc.point.WriteCopying? || s.proc.point.WriteVerifying?
    ensures Arrives(base, op, kind, t)
  {
    PutAtRoot(base, op, kind, s.disk, Program(s.proc.point, s.proc.mk).marker, EARLY);
  }

  lemma BuildArrives(base: Disk, op: OpId, kind: Kind, s: State, t: State)
    requires Clean(base, op) && AtStage(base, op, kind, s) && s.proc.At? && Execute(s, t)
    requires s.proc.point.MakeWork? || s.proc.point.BuildWork? || s.proc.point.CheckWork?
    ensures Arrives(base, op, kind, t)
  {
    MakesWork(base, op, kind, s.disk);
    if t.disk != s.disk {
      ChangesWork(base, op, kind, s.disk, t.disk[Work(op)]);
    }
  }

  lemma ExportArrives(base: Disk, op: OpId, kind: Kind, s: State, t: State)
    requires Clean(base, op) && AtStage(base, op, kind, s) && s.proc.At? && Execute(s, t)
    requires s.proc.point.StartExport? || s.proc.point.EndExport?
    ensures Arrives(base, op, kind, t)
  {
    if s.proc.point.StartExport? {
      PutsExport(base, op, kind, s.disk, s.proc.mk);
    } else {
      DropsExport(base, op, kind, s.disk);
    }
  }

  lemma FailArrives(base: Disk, op: OpId, kind: Kind, s: State, t: State)
    requires Clean(base, op) && AtStage(base, op, kind, s) && s.proc.At? && Execute(s, t)
    requires s.proc.point.WriteFailed?
    ensures Arrives(base, op, kind, t)
  {
    PutAtRoot(base, op, kind, s.disk, Program(s.proc.point, s.proc.mk).marker, EARLY);
    if t.proc.Idle? {
      assert InStage(base, op, kind, t.disk, Failed);
    }
  }

  lemma MoveRootArrives(base: Disk, op: OpId, kind: Kind, s: State, t: State)
    requires Clean(base, op) && AtStage(base, op, kind, s) && s.proc.At? && Execute(s, t)
    requires s.proc.point.WriteRootRename?
    ensures Arrives(base, op, kind, t)
  {
    PutAtRoot(base, op, kind, s.disk, Program(s.proc.point, s.proc.mk).marker, EARLY);
  }

  /** After the first rename a process counts on nothing but the stage. */
  lemma LateArrives(base: Disk, op: OpId, kind: Kind, t: State, stage: Stage)
    requires Clean(base, op) && InStage(base, op, kind, t.disk, stage) && (stage == Moved || stage == Swapped)
    requires t.proc.At? ==> OwnMarker(op, kind, t.proc.mk) && StageOf(t.proc.point) == stage
    ensures Arrives(base, op, kind, t)
  {
  }

  lemma RenameRootArrives(base: Disk, op: OpId, kind: Kind, s: State, t: State)
    requires Clean(base, op) && s.proc.At? && Execute(s, t)
    requires OwnMarker(op, kind, s.proc.mk) && InStage(base, op, kind, s.disk, Marked)
    requires s.proc.point.RenameRoot? || s.proc.point.RecoverRenameRoot?
    ensures Arrives(base, op, kind, t)
  {
    RenameShape(op, kind, s.proc.point, s.proc.mk);
    RenamesRoot(base, op, kind, s.disk);
    assert t.disk == Renamed(s.disk, Root, Backup(op));
    LateArrives(base, op, kind, t, Moved);
  }

  lemma MarkBackupArrives(base: Disk, op: OpId, kind: Kind, s: State, t: State)
    requires Clean(base, op) && s.proc.At? && Execute(s, t)
    requires OwnMarker(op, kind, s.proc.mk) && InStage(base, op, kind, s.disk, Moved)
    requires s.proc.point.WriteBackup? || s.proc.point.WriteWorkRename? || s.proc.point.RecoverWriteMarker?
    ensures Arrives(base, op, kind, t)
  {
    var marker := Program(s.proc.point, s.proc.mk).marker;
    MarkBackupShape(op, kind, s.proc.point, s.proc.mk);
    PutAtBackup(base, op, kind, s.disk, marker);
    assert t.disk == s.disk || t.disk == PutMarker(s.disk, Backup(op), marker);
    assert InStage(base, op, kind, t.disk, Moved);
    LateArrives(base, op, kind, t, Moved);
  }

  lemma RenameShape(op: OpId, kind: Kind, at: Point, m: Marker)
    requires OwnMarker(op, kind, m) && Program(at, m).Rename?
    ensures var st := Program(at, m);
            && st.next.At? && st.next.mk == m
            && (at.RenameRoot? || at.RecoverRenameRoot? ==>
                  st.from == Root && st.to == Backup(op) && StageOf(st.next.point) == Moved)
            && (at.RenameWork? || at.RecoverRenameWork? ==>
                  st.from == Work(op) && st.to == Root && StageOf(st.next.point) == Swapped)
  {
  }

  lemma MarkBackupShape(op: OpId, kind: Kind, at: Point, m: Marker)
    requires OwnMarker(op, kind, m) && (at.WriteBackup? || at.WriteWorkRename? || at.RecoverWriteMarker?)
    ensures var st := Program(at, m);
            && st.Write? && st.dir == Backup(op) && OwnMarker(op, kind, st.marker) && st.marker.phase in RENAMING
            && st.next.At? && st.next.mk == m && StageOf(st.next.point) == Moved
  {
  }

  lemma MoveWorkArrives(base: Disk, op: OpId, kind: Kind, s: State, t: State)
    requires Clean(base, op) && s.proc.At? && Execute(s, t)
    requires OwnMarker(op, kind, s.proc.mk) && InStage(base, op, kind, s.disk, Moved)
    requires s.proc.point.RenameWork? || s.proc.point.RecoverRenameWork?
    ensures Arrives(base, op, kind, t)
  {
    RenameShape(op, kind, s.proc.point, s.proc.mk);
    RenamesWork(base, op, kind, s.disk);
    assert t.disk == Renamed(s.disk, Work(op), Root);
    LateArrives(base, op, kind, t, Swapped);
  }

  lemma CompleteArrives(base: Disk, op: OpId, kind: Kind, s: State, t: State)
    requires Clean(base, op) && s.proc.At? && Execute(s, t)
    requires OwnMarker(op, kind, s.proc.mk) && InStage(base, op, kind, s.disk, Swapped)
    requires s.proc.point.WriteCompleted?
    ensures Arrives(base, op, kind, t)
  {
    PutCompleted(base, op, kind, s.disk, Program(s.proc.point, s.proc.mk).marker);
    LateArrives(base, op, kind, t, Swapped);
  }

  lemma FinishArrives(base: Disk, op: OpId, kind: Kind, s: State, t: State)
    requires Clean(base, op) && s.proc.At? && Execute(s, t)
    requires OwnMarker(op, kind, s.proc.mk) && InStage(base, op, kind, s.disk, Swapped)
    requires s.proc.point.CleanRoot? || s.proc.point.CleanBackup?
    ensures Arrives(base, op, kind, t)
  {
    var dir := if s.proc.point.CleanRoot? then Root else Backup(op);
    FinishShape(op, kind, s.proc.point, s.proc.mk);
    DropsMarker(base, op, kind, s.disk, dir);
    assert t.disk == s.disk || t.disk == DropMarker(s.disk, dir, op);
    LateArrives(base, op, kind, t, Swapped);
  }

  lemma FinishShape(op: OpId, kind: Kind, at: Point, m: Marker)
    requires OwnMarker(op, kind, m) && (at.CleanRoot? || at.CleanBackup?)
    ensures var st := Program(at, m);
            && st.Remove? && st.op == op && st.dir == (if at.CleanRoot? then Root else Backup(op))
            && (st.next.At? ==> st.next.mk == m && StageOf(st.next.point) == Swapped)
  {
  }

  lemma DiscardArrives(base: Disk, op: OpId, kind: Kind, s: State, t: State)
    requires Clean(base, op) && AtStage(base, op, kind, s) && s.proc.At? && Execute(s, t)
    requires s.proc.point.RemoveWork? || s.proc.point.RemoveMarker?
    ensures Arrives(base, op, kind, t)
  {
    if s.proc.point.RemoveMarker? {
      DropsEarly(base, op, kind, s.disk);
      assert InStage(base, op, kind, t.disk, Untouched);
    } else if Work(op) in t.disk {
      ChangesWork(base, op, kind, s.disk, t.disk[Work(op)]);
    } else {
      ChangesWork(base, op, kind, s.disk, s.disk[Work(op)]);
    }
  }

  lemma ExecuteArrives(base: Disk, op: OpId, kind: Kind, s: State, t: State)
    requires Clean(base, op) && AtStage(base, op, kind, s) && s.proc.At? && Execute(s, t)
    ensures Arrives(base, op, kind, t)
  {
    match s.proc.point
    case WriteCreating | WriteCopying | WriteVerifying => PrepareArrives(base, op, kind, s, t);
    case MakeWork | BuildWork | CheckWork => BuildArrives(base, op, kind, s, t);
    case StartExport | EndExport => ExportArrives(base, op, kind, s, t);
    case WriteFailed => FailArrives(base, op, kind, s, t);
    case WriteRootRename => MoveRootArrives(base, op, kind, s, t);
    case RenameRoot | RecoverRenameRoot => RenameRootArrives(base, op, kind, s, t);
    case WriteBackup | WriteWorkRename | RecoverWriteMarker => MarkBackupArrives(base, op, kind, s, t);
    case RenameWork | RecoverRenameWork => MoveWorkArrives(base, op, kind, s, t);
    case WriteCompleted => CompleteArrives(base, op, kind, s, t);
    case CleanRoot | CleanBackup => FinishArrives(base, op, kind, s, t);
    case RemoveWork | RemoveMarker => DiscardArrives(base, op, kind, s, t);
  }

  lemma StepOnTrack(r: string, base: Disk, op: OpId, kind: Kind, s: State, t: State)
    requires Clean(base, op) && Unclaimed(r, base) && OnTrack(base, op, kind, s) && NextOfOne(r, s, t)
    ensures OnTrack(base, op, kind, t)
  {
    var stage :| InStage(base, op, kind, s.disk, stage);
    if s.proc.At? && Execute(s, t) {
      ExecuteAround(base, op, kind, s, t);
      ExecuteArrives(base, op, kind, s, t);
    } else if dec :| StartRecovery(r, s, t, dec) {
      ActsOnOwnMarker(r, base, op, kind, s.disk, stage, dec);
      if t.proc.At? {
        RecoveryArrives(base, op, kind, s, t, stage, dec);
      }
    }
  }

  ghost predicate NextOfOneAt(r: string, tr: seq<State>, i: nat)
    requires i < |tr| - 1
  {
    NextOfOne(r, tr[i], tr[i + 1])
  }

  /** One conversion from a clean disk, and after it only crashes and recoveries. */
  ghost predicate OneConversion(r: string, tr: seq<State>, op: OpId, kind: Kind)
  {
    && |tr| >= 2 && Clean(tr[0].disk, op) && StartConvert(tr[0], tr[1], op, kind)
    && forall i | 1 <= i < |tr| - 1 :: NextOfOneAt(r, tr, i)
  }

  lemma {:induction false} StaysOnTrack(r: string, tr: seq<State>, op: OpId, kind: Kind, i: nat)
    requires OneConversion(r, tr, op, kind) && Unclaimed(r, tr[0].disk) && 1 <= i < |tr|
    ensures OnTrack(tr[0].disk, op, kind, tr[i])
  {
    if i == 1 {
      assert InStage(tr[0].disk, op, kind, tr[1].disk, Untouched);
    } else {
      StaysOnTrack(r, tr, op, kind, i - 1);
      assert NextOfOneAt(r, tr, i - 1);
      StepOnTrack(r, tr[0].disk, op, kind, tr[i - 1], tr[i]);
    }
  }

  /** The original is at the root, or at this operation's own backup with the
      converted tree still at hand. */
  ghost predicate OriginalAtHand(original: Content, op: OpId, kind: Kind, d: Disk)
  {
    || (Root in d && d[Root].content == original)
    || (&& Backup(op) in d && d[Backup(op)].content == original
        && exists p | p == Root || p == Work(op) :: p in d && Agrees(kind, original, d[p].content))
  }

  /** The original tree never has to be looked for, whatever the root is called. */
  lemma OriginalIsAtRootOrOwnBackup(r: string, tr: seq<State>, op: OpId, kind: Kind, i: nat)
    requires OneConversion(r, tr, op, kind) && Unclaimed(r, tr[0].disk) && 1 <= i < |tr|
    ensures OriginalAtHand(tr[0].disk[Root].content, op, kind, tr[i].disk)
  {
    StaysOnTrack(r, tr, op, kind, i);
    var d := tr[i].disk;
    var stage :| InStage(tr[0].disk, op, kind, d, stage);
    if stage == Swapped {
      assert Root in d;
    } else if stage == Moved {
      assert Work(op) in d;
    }
  }

  /** From every clean disk, whatever lies elsewhere. */
  ghost predicate AlwaysAtHand(r: string)
  {
    forall tr: seq<State>, op: OpId, kind: Kind, i: nat | OneConversion(r, tr, op, kind) && 1 <= i < |tr| ::
      OriginalAtHand(tr[0].disk[Root].content, op, kind, tr[i].disk)
  }

  ghost predicate SeesOthers(r: string)
  {
    Searchable(r) && exists text :: Sees(r, Elsewhere(text))
  }

  /** Nothing has to be asked of what lies elsewhere exactly if the search sees none of it. */
  lemma AlwaysAtHandIffOthersUnseen(r: string)
    ensures AlwaysAtHand(r) <==> !SeesOthers(r)
  {
    if SeesOthers(r) {
      var text :| Sees(r, Elsewhere(text));
      ClaimMovesRoot(r, text);
    } else {
      forall tr: seq<State>, op: OpId, kind: Kind, i: nat | OneConversion(r, tr, op, kind) && 1 <= i < |tr|
        ensures OriginalAtHand(tr[0].disk[Root].content, op, kind, tr[i].disk)
      {
        OriginalIsAtRootOrOwnBackup(r, tr, op, kind, i);
      }
    }
  }

  const OTHER := "encrypt-2"
  const CLAIM := NewMarker(OTHER, Encrypt).(phase := RenamingRootToBackup)

  function Claimed(text: string): Disk
  {
    map[Root := Dir(PLAIN, map[]), Work(OTHER) := Dir(PLAIN, map[]),
        Elsewhere(text) := Dir(PLAIN, map[OTHER := Readable(CLAIM)])]
  }

  lemma ClaimIsChosen(r: string, text: string)
    requires Searchable(r) && Sees(r, Elsewhere(text))
    ensures Clean(Claimed(text), OP) && Chooses(r, Claimed(text), RenameBoth(CLAIM))
  {
    var d := Claimed(text);
    assert ValidOpId(OTHER) && ValidOpId(OP);
    assert Listed(r, d, Elsewhere(text), CLAIM);
    assert forall p, m :: Listed(r, d, p, m) ==> p == Elsewhere(text) && m == CLAIM;
    assert First(r, d, Elsewhere(text), CLAIM);
    assert Listable(r, d) && !SeveralOperations(r, d);
    assert DecideFrom(d, CLAIM) == RenameBoth(CLAIM);
  }

  /** A marker seen elsewhere that claims this root, half way through another
      conversion: the next recovery moves the root to that one's backup. */
  lemma ClaimMovesRoot(r: string, text: string)
    requires Searchable(r) && Sees(r, Elsewhere(text))
    ensures !AlwaysAtHand(r)
  {
    ClaimIsChosen(r, text);
    var tr := ClaimRun(text);
    assert StartConvert(tr[0], tr[1], OP, Encrypt);
    forall i | 1 <= i < |tr| - 1 ensures NextOfOneAt(r, tr, i) {
      if i == 2 {
        ClaimStarts(r, text);
      } else if i == 3 {
        ClaimRenames(text);
      }
    }
    assert OneConversion(r, tr, OP, Encrypt);
    ClaimLeavesNothing(text);
  }

  /** A conversion dies before its first statement, and then a recovery acts on the claim. */
  function ClaimRun(text: string): seq<State>
  {
    var d := Claimed(text);
    [State(d, Idle, {}, map[]),
     State(d, At(WriteCreating, NewMarker(OP, Encrypt)), {OP}, map[]),
     State(d, Idle, {OP}, map[]),
     State(d, At(RecoverRenameRoot, CLAIM), {OP}, map[]),
     State(Renamed(d, Root, Backup(OTHER)), At(RecoverWriteMarker, CLAIM), {OP}, map[])]
  }

  lemma ClaimStarts(r: string, text: string)
    requires Chooses(r, Claimed(text), RenameBoth(CLAIM))
    ensures NextOfOneAt(r, ClaimRun(text), 2)
  {
    assert StartRecovery(r, ClaimRun(text)[2], ClaimRun(text)[3], RenameBoth(CLAIM));
  }

  lemma ClaimRenames(text: string)
    ensures var tr := ClaimRun(text); Execute(tr[3], tr[4])
  {
  }

  lemma ClaimLeavesNothing(text: string)
    ensures !OriginalAtHand(PLAIN, OP, Encrypt, ClaimRun(text)[4].disk)
  {
  }

  // ------------------------------------------------------------ convergence

  predicate RootPhaseIn(op: OpId, d: Disk, phases: set<Phase>)
  {
    Root in d && op in d[Root].markers && d[Root].markers[op].Readable? && d[Root].markers[op].marker.phase in phases
  }

  /** The rename marker has been written: from here the conversion goes forward. */
  predicate Committed(op: OpId, d: Disk)
  {
    Backup(op) in d || RootPhaseIn(op, d, {RenamingRootToBackup})
  }

  lemma StageFacts(base: Disk, op: OpId, kind: Kind, d: Disk, stage: Stage)
    requires Clean(base, op) && InStage(base, op, kind, d, stage)
    ensures Committed(op, d) <==> stage == Marked || stage == Moved || stage == Swapped
    ensures RootPhaseIn(op, d, {NeedsAttention}) <==> stage == Failed
  {
  }

  lemma FinishesRename(base: Disk, op: OpId, kind: Kind, d: Disk, m: Marker)
    requires Clean(base, op) && Around(base, op, d) && InStage(base, op, kind, d, Moved) && OwnMarker(op, kind, m)
    ensures FinishRename(d, m).1 == ActContinueRename
    ensures Done(base, op, kind, FinishRename(d, m).0)
  {
    RenamesWork(base, op, kind, d);
    CleansUp(base, op, kind, Renamed(d, Work(op), Root));
  }

  lemma CleansUp(base: Disk, op: OpId, kind: Kind, d: Disk)
    requires Clean(base, op) && Around(base, op, d) && InStage(base, op, kind, d, Swapped)
    ensures Done(base, op, kind, DropMarker(DropMarker(d, Root, op), Backup(op), op))
  {
    var e := DropMarker(d, Root, op);
    var f := DropMarker(e, Backup(op), op);
    DropsMarker(base, op, kind, d, Root);
    DropsMarker(base, op, kind, e, Backup(op));
    PutKeepsOthers(f[Root].markers, op, Unreadable);
    PutKeepsOthers(f[Backup(op)].markers, op, Unreadable);
    assert f[Root] == f[Root].(markers := f[Root].markers - {op});
    assert f[Backup(op)] == base[Root];
  }

  lemma Discards(base: Disk, op: OpId, kind: Kind, d: Disk, m: Marker)
    requires Clean(base, op) && Around(base, op, d) && InStage(base, op, kind, d, Early) && OwnMarker(op, kind, m)
    ensures RolledBack(base, op, kind, Outcome(d, Discard(m)).0)
  {
    var e := d - {Work(op)};
    assert InStage(base, op, kind, e, Early);
    DropsEarly(base, op, kind, e);
  }

  lemma RenamesBoth(base: Disk, op: OpId, kind: Kind, d: Disk, m: Marker)
    requires Clean(base, op) && Around(base, op, d) && InStage(base, op, kind, d, Marked) && OwnMarker(op, kind, m)
    ensures var (e, act) := Outcome(d, RenameBoth(m)); act == ActContinueRename && Done(base, op, kind, e)
  {
    RenamesRoot(base, op, kind, d);
    var e := Renamed(d, Root, Backup(op));
    var n := m.(phase := RenamingWorkToRoot);
    PutAtBackup(base, op, kind, e, n);
    FinishesRename(base, op, kind, PutMarker(e, Backup(op), n), m);
  }

  /** The answer says what became of the disk: nothing to do exactly if nothing changed;
      run again exactly if a marked conversion was rolled back; renames finished exactly
      if this recovery put the work tree at the root; completed exactly if the converted
      tree was there and only markers went. */
  ghost predicate AnswerFits(base: Disk, op: OpId, kind: Kind, d: Disk, e: Disk, act: RecoverAction)
    requires Clean(base, op)
  {
    && (act == ActNone <==> e == d)
    && (act == ActRerun <==> Root in d && op in d[Root].markers && RolledBack(base, op, kind, e))
    && (act == ActContinueRename <==> WorkInstalled(d, e, op))
    && (act == ActCompleted <==> e != d && OnlyMarkersGone(d, e, op) && Done(base, op, kind, e))
    && act != ActNeedsAttention && act != ActError
  }

  lemma AnswerWhenDiscarded(base: Disk, op: OpId, kind: Kind, d: Disk, m: Marker)
    requires Clean(base, op) && Around(base, op, d) && InStage(base, op, kind, d, Early) && OwnMarker(op, kind, m)
    ensures var (e, act) := Outcome(d, Discard(m)); AnswerFits(base, op, kind, d, e, act)
  {
    Discards(base, op, kind, d, m);
    var e := Outcome(d, Discard(m)).0;
    assert op !in e[Root].markers && Backup(op) !in e;
  }

  lemma AnswerWhenInstalled(base: Disk, op: OpId, kind: Kind, d: Disk, e: Disk)
    requires Clean(base, op) && WorkInstalled(d, e, op) && Done(base, op, kind, e)
    ensures AnswerFits(base, op, kind, d, e, ActContinueRename)
  {
    assert Work(op) in d.Keys && Work(op) !in e.Keys;
  }

  lemma FinishedIsInstalled(d: Disk, m: Marker)
    requires ValidMarker(m) && Root !in d && Work(m.op) in d && Backup(m.op) in d
    ensures WorkInstalled(d, FinishRename(d, m).0, m.op)
  {
    RenamedIsInstalled(d, m.op);
    var e := Renamed(d, Work(m.op), Root);
    DropGone(e, m.op, Root);
    DropGone(DropMarker(e, Root, m.op), m.op, Backup(m.op));
    BothGone(e, DropMarker(e, Root, m.op), FinishRename(d, m).0, m.op);
    InstalledThenCleaned(d, e, FinishRename(d, m).0, m.op);
  }

  lemma BothAreInstalled(d: Disk, m: Marker)
    requires ValidMarker(m) && Root in d && Work(m.op) in d && Backup(m.op) !in d
    ensures WorkInstalled(d, Outcome(d, RenameBoth(m)).0, m.op)
  {
    var n := m.(phase := RenamingWorkToRoot);
    var moved := PutMarker(Renamed(d, Root, Backup(m.op)), Backup(m.op), n);
    FinishedIsInstalled(moved, m);
    InstalledFromRoot(d, n, Outcome(d, RenameBoth(m)).0);
  }

  lemma AnswerWhenSwapped(base: Disk, op: OpId, kind: Kind, d: Disk, e: Disk, act: RecoverAction)
    requires Clean(base, op) && InStage(base, op, kind, d, Swapped) && Done(base, op, kind, e)
    requires e == DropMarker(DropMarker(d, Root, op), Backup(op), op)
    requires act == if op in d[Root].markers || op in d[Backup(op)].markers then ActCompleted else ActNone
    ensures AnswerFits(base, op, kind, d, e, act)
  {
    DropGone(d, op, Root);
    DropGone(DropMarker(d, Root, op), op, Backup(op));
    BothGone(d, DropMarker(d, Root, op), e, op);
    PutKeepsOthers(d[Root].markers, op, Unreadable);
    PutKeepsOthers(d[Backup(op)].markers, op, Unreadable);
    assert op !in e[Root].markers && op !in e[Backup(op)].markers;
    if act == ActNone {
      assert d[Root] == d[Root].(markers := d[Root].markers - {op});
      assert d[Backup(op)] == d[Backup(op)].(markers := d[Backup(op)].markers - {op});
      assert e == d;
    }
  }

  /** From wherever the conversion and any number of interrupted recoveries left
      the disk, one recovery that runs to its end settles it: back to the
      original if the rename marker had not been written, forward to the
      converted tree with its backup if it had. Only a recorded verification
      failure is left for a person to look at, untouched. A further recovery
      finds nothing to do. */
  lemma RecoveryConverges(r: string, base: Disk, op: OpId, kind: Kind, d: Disk, dec: Decision)
    requires Exact(r) && Clean(base, op) && Recoverable(base, op, kind, d) && Chooses(r, d, dec)
    ensures Converges(r, base, op, kind, d, dec)
  {
    var stage :| InStage(base, op, kind, d, stage);
    StageFacts(base, op, kind, d, stage);
    var own := DecisionOf(r, base, op, kind, d, stage);
    ChoiceUnique(r, d, dec, own);
    Settles(base, op, kind, d, stage, dec);
    if stage != Failed {
      SettledChoosesNothing(r, base, op, kind, Outcome(d, dec).0);
    }
  }

  /** Carrying out what was decided leads to one of the two ends, but after a failure. */
  lemma Settles(base: Disk, op: OpId, kind: Kind, d: Disk, stage: Stage, dec: Decision)
    requires Clean(base, op) && Around(base, op, d) && InStage(base, op, kind, d, stage)
    requires Decided(base, op, kind, d, stage, dec)
    ensures var (e, act) := Outcome(d, dec);
            if stage == Failed then dec == Attention && e == d && act == ActNeedsAttention
            else
              && AnswerFits(base, op, kind, d, e, act)
              && (if Committed(op, d) then Done(base, op, kind, e) else RolledBack(base, op, kind, e))
  {
    StageFacts(base, op, kind, d, stage);
    match stage {
      case Untouched =>
      case Early =>
        Discards(base, op, kind, d, dec.mk);
        AnswerWhenDiscarded(base, op, kind, d, dec.mk);
      case Failed =>
      case Marked =>
        RenamesBoth(base, op, kind, d, dec.mk);
        BothAreInstalled(d, dec.mk);
        AnswerWhenInstalled(base, op, kind, d, Outcome(d, dec).0);
      case Moved =>
        FinishesRename(base, op, kind, d, dec.mk);
        FinishedIsInstalled(d, dec.mk);
        AnswerWhenInstalled(base, op, kind, d, Outcome(d, dec).0);
      case Swapped =>
        var e := DropMarker(DropMarker(d, Root, op), Backup(op), op);
        CleansUp(base, op, kind, d);
        SwappedNothing(base, op, kind, d);
        AnswerWhenSwapped(base, op, kind, d, e, if dec == Nothing then ActNone else ActCompleted);
    }
  }

  lemma SwappedNothing(base: Disk, op: OpId, kind: Kind, d: Disk)
    requires Clean(base, op) && Around(base, op, d) && InStage(base, op, kind, d, Swapped)
    ensures op !in d[Root].markers && op !in d[Backup(op)].markers ==> Done(base, op, kind, d)
  {
    PutKeepsOthers(d[Root].markers, op, Unreadable);
    PutKeepsOthers(d[Backup(op)].markers, op, Unreadable);
    if op !in d[Root].markers && op !in d[Backup(op)].markers {
      assert d[Root] == d[Root].(markers := d[Root].markers - {op});
      assert d[Backup(op)] == base[Root];
    }
  }

  lemma SettledChoosesNothing(r: string, base: Disk, op: OpId, kind: Kind, e: Disk)
    requires Exact(r) && Clean(base, op) && (RolledBack(base, op, kind, e) || Done(base, op, kind, e))
    ensures Chooses(r, e, Nothing)
  {
    var stage := if RolledBack(base, op, kind, e) then Untouched else Swapped;
    SettledInStage(base, op, kind, e, stage);
    var dec := DecisionOf(r, base, op, kind, e, stage);
  }

  /** A settled disk is a clean start for the next conversion. */
  lemma SettledIsClean(base: Disk, op: OpId, kind: Kind, e: Disk, next: OpId)
    requires Clean(base, op) && (RolledBack(base, op, kind, e) || Done(base, op, kind, e))
    requires ValidOpId(next) && Work(next) !in e && Backup(next) !in e
    requires next !in e[Root].markers && ExportId(next) !in e[Root].markers
    ensures Clean(e, next)
  {
    var stage := if RolledBack(base, op, kind, e) then Untouched else Swapped;
    SettledInStage(base, op, kind, e, stage);
    OwnDirs(base, op, kind, e, stage);
    forall p, n | p in e && !p.Elsewhere? && n in e[p].markers
      ensures ListableFile(n, e[p].markers[n]) && !IsConvertFile(e[p].markers[n])
    {
      if p != Root && p != Work(op) && p != Backup(op) {
        BaseDirs(base, op, p);
      } else {
        assert OwnDir(op, e[p]) && op !in e[p].markers;
      }
    }
  }

  lemma SettledInStage(base: Disk, op: OpId, kind: Kind, e: Disk, stage: Stage)
    requires Clean(base, op) && stage == (if RolledBack(base, op, kind, e) then Untouched else Swapped)
    requires RolledBack(base, op, kind, e) || Done(base, op, kind, e)
    ensures InStage(base, op, kind, e, stage) && op !in e[Root].markers
    ensures Backup(op) in e ==> op !in e[Backup(op)].markers
  {
    PutKeepsOthers(e[Root].markers, op, Unreadable);
    if stage == Swapped {
      PutKeepsOthers(e[Backup(op)].markers, op, Unreadable);
      assert e[Root].(markers := e[Root].markers - {op}) == e[Root];
    }
  }

  // ------------------------------------------------- for which roots it converges

  /** What recovery promises of one disk. */
  ghost predicate Converges(r: string, base: Disk, op: OpId, kind: Kind, d: Disk, dec: Decision)
    requires Clean(base, op)
  {
    var (e, act) := Outcome(d, dec);
    if RootPhaseIn(op, d, {NeedsAttention}) then
      dec == Attention && e == d && act == ActNeedsAttention
    else
      && AnswerFits(base, op, kind, d, e, act)
      && (if Committed(op, d) then Done(base, op, kind, e) else RolledBack(base, op, kind, e))
      && Chooses(r, e, Nothing)
  }

  ghost predicate AlwaysConverges(r: string)
  {
    forall base, op, kind, d, dec |
      Clean(base, op) && Recoverable(base, op, kind, d) && Chooses(r, d, dec) :: Converges(r, base, op, kind, d, dec)
  }

  /** Recovery keeps its promise for exactly the roots whose path holds none of the
      characters * ? [ and backslash. */
  lemma ConvergesExactlyForLiteralRoots(r: string)
    ensures AlwaysConverges(r) <==> Literal(r)
  {
    if Literal(r) {
      LiteralIsExact(r);
      forall base, op, kind, d, dec | Clean(base, op) && Recoverable(base, op, kind, d) && Chooses(r, d, dec)
        ensures Converges(r, base, op, kind, d, dec)
      {
        RecoveryConverges(r, base, op, kind, d, dec);
      }
    } else {
      OtherRootsAreNotExact(r);
      if !Searchable(r) {
        RefusedRoot(r);
      } else if text :| Sees(r, Elsewhere(text)) {
        ForeignRoot(r, text);
      } else {
        HiddenRoot(r);
      }
    }
  }

  const OP := "encrypt-1"
  const PLAIN := Content(false, map[])
  const LONELY: Disk := map[Root := Dir(PLAIN, map[])]

  lemma LonelyIsClean()
    ensures Clean(LONELY, OP) && InStage(LONELY, OP, Encrypt, LONELY, Untouched)
    ensures Recoverable(LONELY, OP, Encrypt, LONELY)
  {
    assert LONELY[Root].markers - {OP, ExportId(OP)} == map[];
    assert InStage(LONELY, OP, Encrypt, LONELY, Untouched);
  }

  /** A malformed pattern is an error at every recovery. */
  lemma RefusedRoot(r: string)
    requires !Searchable(r)
    ensures !AlwaysConverges(r)
  {
    LonelyIsClean();
    assert Chooses(r, LONELY, ListError);
    assert !Converges(r, LONELY, OP, Encrypt, LONELY, ListError);
  }

  /** A conversion of another root that is seen is taken for one of this root. */
  lemma ForeignRoot(r: string, text: string)
    requires Searchable(r) && Sees(r, Elsewhere(text))
    ensures !AlwaysConverges(r)
  {
    var m := Marker(OP, Convert(Encrypt), CreatingWork, Elsewhere(text), Elsewhere(text), Elsewhere(text));
    var base: Disk := LONELY[Elsewhere(text) := Dir(PLAIN, map[OP := Readable(m)])];
    assert Clean(base, OP);
    assert InStage(base, OP, Encrypt, base, Untouched);
    assert Listed(r, base, Elsewhere(text), m);
    assert First(r, base, Elsewhere(text), m);
    assert Listable(r, base) && !SeveralOperations(r, base);
    assert Chooses(r, base, DecideFrom(base, m));
    assert !Converges(r, base, OP, Encrypt, base, Attention);
  }

  /** When the backup is not seen, a conversion stopped between its two renames
      looks as if there were none. */
  lemma HiddenRoot(r: string)
    requires Searchable(r) && (forall op :: !Sees(r, Backup(op)) && !Sees(r, Work(op)))
    requires forall text :: !Sees(r, Elsewhere(text))
    ensures !AlwaysConverges(r)
  {
    LonelyIsClean();
    var m := NewMarker(OP, Encrypt).(phase := RenamingWorkToRoot);
    var d: Disk := map[Backup(OP) := Dir(PLAIN, map[OP := Readable(m)]), Work(OP) := Dir(Content(true, map[]), map[])];
    StoppedBetween(d, m);
    forall p | p in d ensures !Sees(r, p) {
    }
    assert Listable(r, d);
    assert !(exists p, m :: Listed(r, d, p, m));
    assert Chooses(r, d, Nothing);
    assert !Converges(r, LONELY, OP, Encrypt, d, Nothing);
  }

  lemma StoppedBetween(d: Disk, m: Marker)
    requires m == NewMarker(OP, Encrypt).(phase := RenamingWorkToRoot)
    requires d == map[Backup(OP) := Dir(PLAIN, map[OP := Readable(m)]),
                      Work(OP) := Dir(Content(true, map[]), map[])]
    ensures Clean(LONELY, OP) && InStage(LONELY, OP, Encrypt, d, Moved) && Recoverable(LONELY, OP, Encrypt, d)
  {
    LonelyIsClean();
    ExportIdIsAnother(OP);
    assert map[OP := Readable(m)] - {OP, ExportId(OP)} == map[];
    assert InStage(LONELY, OP, Encrypt, d, Moved);
  }
}
