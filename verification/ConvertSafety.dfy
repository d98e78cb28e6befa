/** What holds in every run of the convert machine, over any number of
    conversions, recoveries, crashes and failed statements. */
module ConvertSafety {
  import opened Trees
  import opened ConvertModel

  // ----------------------------------------------------------- preservation

  /** A backup keeps its contents for good; what is at the root stays there or
      is at some backup. */
  ghost predicate Kept(d: Disk, e: Disk)
  {
    && (forall op | Backup(op) in d :: Backup(op) in e && e[Backup(op)].content == d[Backup(op)].content)
    && (Root in d ==> AtRootOrBackup(e, d[Root].content))
  }

  ghost predicate AtRootOrBackup(d: Disk, c: Content)
  {
    || (Root in d && d[Root].content == c)
    || (exists op :: Backup(op) in d && d[Backup(op)].content == c)
  }

  lemma KeptTransitive(d: Disk, e: Disk, f: Disk)
    requires Kept(d, e) && Kept(e, f)
    ensures Kept(d, f)
  {
  }

  /** A running process works on the paths derived from its own operation. */
  predicate Derived(s: State)
  {
    s.proc.At? ==> ValidMarker(s.proc.mk) && s.proc.mk.kind.Convert?
  }

  lemma ExecuteKeepsMarker(s: State, t: State)
    requires s.proc.At? && Execute(s, t)
    ensures t.proc.At? ==> t.proc.mk == s.proc.mk
  {
  }

  lemma RecoveryStartShape(d: Disk, m: Marker)
    ensures var proc := RecoveryStart(d, DecideFrom(d, m));
            proc.At? ==>
              && proc.mk == m && ValidMarker(m) && !EarlyPoint(proc.point)
              && (if DiscardPoint(proc.point) then EarlyPhase(m.phase) else LatePhase(m.phase))
  {
  }

  lemma RecoveryDerived(r: string, s: State, t: State, dec: Decision)
    requires StartRecovery(r, s, t, dec)
    ensures Derived(t)
  {
    if t.proc.At? {
      var p, m :| First(r, s.disk, p, m) && dec == DecideFrom(s.disk, m);
      assert m.kind.Convert?;
      RecoveryStartShape(s.disk, m);
    }
  }

  lemma StepDerived(r: string, s: State, t: State)
    requires Derived(s) && Next(r, s, t)
    ensures Derived(t)
  {
    if s.proc.At? && Execute(s, t) {
      ExecuteKeepsMarker(s, t);
    } else if dec :| StartRecovery(r, s, t, dec) {
      RecoveryDerived(r, s, t, dec);
    }
  }

  lemma ExecuteKeeps(s: State, t: State)
    requires Derived(s) && s.proc.At? && Execute(s, t)
    ensures Kept(s.disk, t.disk)
  {
    var m := s.proc.mk;
    match Program(s.proc.point, m)
    case Rename(from, to, next) =>
      if from == Root && to == Backup(m.op) && CanRename(s.disk, from, to) && t.disk == Renamed(s.disk, from, to) {
        assert t.disk[Backup(m.op)].content == s.disk[Root].content;
      }
    case _ =>
  }

  lemma StepKeeps(r: string, s: State, t: State)
    requires Derived(s) && Next(r, s, t)
    ensures Kept(s.disk, t.disk)
  {
    if s.proc.At? && Execute(s, t) {
      ExecuteKeeps(s, t);
    }
  }

  /** Whatever markers the disk holds, true or forged, nothing that was at the
      root or at a backup at any moment of a run is lost later in the run. */
  lemma {:induction false} NothingIsLost(r: string, tr: seq<State>, i: nat, j: nat)
    requires Run(r, tr) && tr[0].proc.Idle? && i <= j < |tr|
    ensures Derived(tr[j])
    ensures Kept(tr[i].disk, tr[j].disk)
    decreases j
  {
    if j > 0 {
      NothingIsLost(r, tr, if i < j then i else j - 1, j - 1);
      assert NextAt(r, tr, j - 1);
      StepDerived(r, tr[j - 1], tr[j]);
      if i < j {
        StepKeeps(r, tr[j - 1], tr[j]);
        KeptTransitive(tr[i].disk, tr[j - 1].disk, tr[j].disk);
      }
    }
  }

  // ----------------------------------------- only verified work is installed

  predicate EarlyPhase(ph: Phase)
  {
    ph == CreatingWork || ph == CopyingToWork || ph == VerifyingWork
  }

  predicate LatePhase(ph: Phase)
  {
    ph == RenamingRootToBackup || ph == RenamingWorkToRoot || ph == Completed
  }

  predicate ConvertMarkerAt(d: Disk, p: Path, n: OpId)
  {
    p in d && n in d[p].markers && IsConvertFile(d[p].markers[n])
  }

  predicate MarkerOk(s: State, n: OpId, m: Marker)
  {
    && m.op == n && ValidMarker(m) && n in s.used
    && (EarlyPhase(m.phase) ==> n !in s.verified)
    && (LatePhase(m.phase) ==> n in s.verified)
  }

  ghost predicate MarkersOk(s: State)
  {
    forall p, n | ConvertMarkerAt(s.disk, p, n) :: MarkerOk(s, n, s.disk[p].markers[n].marker)
  }

  /** A passed verification stays true of the work directory while there is one. */
  ghost predicate VerifiedOk(s: State)
  {
    forall op | op in s.verified ::
      && op in s.used
      && Agrees(s.verified[op].kind, s.verified[op].source, s.verified[op].work)
      && (Work(op) in s.disk ==> s.disk[Work(op)].content == s.verified[op].work)
      && AtRootOrBackup(s.disk, s.verified[op].source)
  }

  predicate EarlyPoint(at: Point)
  {
    at.WriteCreating? || at.MakeWork? || at.WriteCopying? || at.StartExport? || at.BuildWork? || at.EndExport? ||
    at.WriteVerifying? || at.CheckWork? || at.WriteFailed? || at.WriteRootRename?
  }

  predicate DiscardPoint(at: Point)
  {
    at.RemoveWork? || at.RemoveMarker?
  }

  ghost predicate ProcOk(s: State)
  {
    s.proc.At? ==>
      var m, at := s.proc.mk, s.proc.point;
      && ValidMarker(m) && m.kind.Convert? && m.op in s.used
      && (EarlyPoint(at) || DiscardPoint(at) <==> m.op !in s.verified)
      && (EarlyPoint(at) ==> forall p | ConvertMarkerAt(s.disk, p, m.op) :: p == Root)
      && (at.WriteRootRename? ==> Passes(s))
  }

  ghost predicate Sound(s: State)
  {
    MarkersOk(s) && VerifiedOk(s) && ProcOk(s)
  }

  lemma StartConvertSound(s: State, t: State, op: OpId, kind: Kind)
    requires Sound(s) && StartConvert(s, t, op, kind)
    ensures Sound(t)
  {
  }

  lemma StartRecoverySound(r: string, s: State, t: State, dec: Decision)
    requires Sound(s) && StartRecovery(r, s, t, dec)
    ensures Sound(t)
  {
    assert MarkersOk(t) && VerifiedOk(t);
    assert ProcOk(t) by {
      if t.proc.At? {
        var m := RecoveryMarker(r, s, dec);
        RecoveryStartShape(s.disk, m);
      }
    }
  }

  lemma RecoveryMarker(r: string, s: State, dec: Decision) returns (m: Marker)
    requires MarkersOk(s) && Chooses(r, s.disk, dec) && RecoveryStart(s.disk, dec).At?
    ensures dec == DecideFrom(s.disk, m) && MarkerOk(s, m.op, m) && m.kind.Convert?
  {
    var p, n :| First(r, s.disk, p, n) && dec == DecideFrom(s.disk, n);
    assert Listed(r, s.disk, p, n);
    assert ConvertMarkerAt(s.disk, p, n.op);
    m := n;
  }

  /** The work directories of verified operations are left alone. */
  ghost predicate WorkUntouched(s: State, t: State)
  {
    forall op | op in s.verified && Work(op) in t.disk ::
      Work(op) in s.disk && t.disk[Work(op)].content == s.disk[Work(op)].content
  }

  lemma VerifiedStays(s: State, t: State)
    requires VerifiedOk(s) && Kept(s.disk, t.disk) && WorkUntouched(s, t)
    requires t.verified == s.verified && t.used == s.used
    ensures VerifiedOk(t)
  {
  }

  /** Statements that write no marker leave the markers they leave in order. */
  lemma MarkersStay(s: State, t: State)
    requires MarkersOk(s) && t.verified == s.verified && t.used == s.used
    requires forall p, n | ConvertMarkerAt(t.disk, p, n) ::
               exists q :: ConvertMarkerAt(s.disk, q, n) && s.disk[q].markers[n] == t.disk[p].markers[n]
    ensures MarkersOk(t)
  {
  }

  lemma WriteShape(at: Point, m: Marker)
    requires ValidMarker(m) && m.kind.Convert? && Program(at, m).Write?
    ensures var Write(dir, marker, next) := Program(at, m);
            && (dir == Root || (dir == Backup(m.op) && !EarlyPoint(at)))
            && marker.op == m.op && marker.kind == m.kind && ValidMarker(marker)
            && !DiscardPoint(at)
            && (next.At? ==> next.mk == m && !DiscardPoint(next.point) && !next.point.WriteRootRename?)
            && (next.At? && EarlyPoint(next.point) ==> EarlyPoint(at))
            && (EarlyPhase(marker.phase) ==> EarlyPoint(at) && at != WriteRootRename)
            && (LatePhase(marker.phase) <==> !EarlyPoint(at) || at == WriteRootRename)
            && (next.At? && at != WriteRootRename ==> (EarlyPoint(at) <==> EarlyPoint(next.point)))
            && (at == WriteRootRename ==> next.At? && !EarlyPoint(next.point))
  {
  }

  lemma MkdirSound(s: State, t: State, dir: Path)
    requires Sound(s) && s.proc.At? && Kept(s.disk, t.disk)
    requires dir == Root || dir == Backup(s.proc.mk.op)
    requires t == s.(disk := EnsureDir(s.disk, dir))
    ensures Sound(t)
  {
    VerifiedStays(s, t);
    assert forall p, n | ConvertMarkerAt(t.disk, p, n) ::
        ConvertMarkerAt(s.disk, p, n) && s.disk[p].markers[n] == t.disk[p].markers[n];
    MarkersStay(s, t);
  }

  lemma WriteSound(s: State, t: State)
    requires Sound(s) && s.proc.At? && Execute(s, t) && Kept(s.disk, t.disk)
    requires Program(s.proc.point, s.proc.mk).Write?
    ensures Sound(t)
  {
    var m := s.proc.mk;
    var Write(dir, marker, next) := Program(s.proc.point, m);
    WriteShape(s.proc.point, m);
    if t == s.(disk := EnsureDir(s.disk, dir)) {
      MkdirSound(s, t, dir);
    } else {
      PutSound(s, t, dir, marker, next);
    }
  }

  lemma PutSound(s: State, t: State, dir: Path, marker: Marker, next: Proc)
    requires Sound(s) && s.proc.At? && Kept(s.disk, t.disk)
    requires Program(s.proc.point, s.proc.mk) == Write(dir, marker, next)
    requires t == s.(disk := PutMarker(s.disk, dir, marker), proc := next, verified := RecordVerified(s))
    ensures Sound(t)
  {
    WriteShape(s.proc.point, s.proc.mk);
    WriteKeepsMarkers(s, t);
    PutVerified(s, t, dir, marker, next);
    assert ProcOk(t);
  }

  lemma PutVerified(s: State, t: State, dir: Path, marker: Marker, next: Proc)
    requires Sound(s) && s.proc.At? && Kept(s.disk, t.disk)
    requires Program(s.proc.point, s.proc.mk) == Write(dir, marker, next)
    requires t == s.(disk := PutMarker(s.disk, dir, marker), proc := next, verified := RecordVerified(s))
    ensures VerifiedOk(t)
  {
    WriteShape(s.proc.point, s.proc.mk);
    if s.proc.point == WriteRootRename {
      assert Passes(s);
    } else {
      assert WorkUntouched(s, t);
      VerifiedStays(s, t);
    }
  }

  lemma WriteKeepsMarkers(s: State, t: State)
    requires Sound(s) && s.proc.At?
    requires Program(s.proc.point, s.proc.mk).Write?
    requires var Write(dir, marker, next) := Program(s.proc.point, s.proc.mk);
             t == s.(disk := PutMarker(s.disk, dir, marker), proc := next, verified := RecordVerified(s))
    ensures MarkersOk(t)
  {
    var m := s.proc.mk;
    var Write(dir, marker, next) := Program(s.proc.point, m);
    WriteShape(s.proc.point, m);
    assert MarkerOk(t, m.op, marker);
    forall p, n | ConvertMarkerAt(t.disk, p, n)
      ensures MarkerOk(t, n, t.disk[p].markers[n].marker)
    {
      if p != dir || n != m.op {
        assert ConvertMarkerAt(s.disk, p, n);
        assert MarkerOk(s, n, s.disk[p].markers[n].marker);
      }
    }
  }

  lemma RenameSound(s: State, t: State)
    requires Sound(s) && s.proc.At? && Execute(s, t) && Kept(s.disk, t.disk)
    requires Program(s.proc.point, s.proc.mk).Rename?
    ensures Sound(t)
  {
    var Rename(from, to, next) := Program(s.proc.point, s.proc.mk);
    RenameKeepsWork(s, t);
    VerifiedStays(s, t);
    RenameMovesMarkers(s.disk, from, to);
    MarkersStay(s, t);
    assert ProcOk(t) by { RenameProcOk(s, t); }
  }

  lemma RenameProcOk(s: State, t: State)
    requires Sound(s) && s.proc.At? && Execute(s, t) && Program(s.proc.point, s.proc.mk).Rename?
    ensures ProcOk(t)
  {
    RenameShape(s.proc.point, s.proc.mk);
    var Rename(from, to, next) := Program(s.proc.point, s.proc.mk);
    assert t.proc == next && t.used == s.used && t.verified == s.verified;
  }

  /** A rename and what follows it come after verification. */
  lemma RenameShape(at: Point, m: Marker)
    requires Program(at, m).Rename?
    ensures !EarlyPoint(at) && !DiscardPoint(at)
    ensures var Rename(from, to, next) := Program(at, m);
            next.At? && next.mk == m && !EarlyPoint(next.point) && !DiscardPoint(next.point)
  {
  }

  lemma RenameKeepsWork(s: State, t: State)
    requires Sound(s) && s.proc.At? && Execute(s, t) && Program(s.proc.point, s.proc.mk).Rename?
    ensures WorkUntouched(s, t)
  {
  }

  lemma RenameMovesMarkers(d: Disk, from: Path, to: Path)
    requires CanRename(d, from, to)
    ensures var e := Renamed(d, from, to);
            forall p, n | ConvertMarkerAt(e, p, n) ::
              exists q :: ConvertMarkerAt(d, q, n) && d[q].markers[n] == e[p].markers[n]
  {
    var e := Renamed(d, from, to);
    forall p, n | ConvertMarkerAt(e, p, n)
      ensures exists q :: ConvertMarkerAt(d, q, n) && d[q].markers[n] == e[p].markers[n]
    {
      assert ConvertMarkerAt(d, if p == to then from else p, n);
    }
  }

  predicate GoesOnEarly(next: Proc, m: Marker)
  {
    next.At? && next.mk == m && EarlyPoint(next.point) && !next.point.WriteRootRename?
  }

  predicate GoesOnDiscarding(next: Proc, m: Marker)
  {
    next.At? && next.mk == m && DiscardPoint(next.point)
  }

  predicate GoesOnLate(next: Proc, m: Marker)
  {
    next.At? ==> next.mk == m && !EarlyPoint(next.point) && !DiscardPoint(next.point)
  }

  predicate Other(st: Statement)
  {
    !st.Write? && !st.Rename? && !st.PutExport?
  }

  lemma OtherShape(at: Point, m: Marker)
    requires ValidMarker(m) && Other(Program(at, m))
    ensures var st := Program(at, m);
            && (st.Mkdir? || st.Build? ==> st.dir == Work(m.op) && EarlyPoint(at) && GoesOnEarly(st.next, m))
            && (st.RemoveAll? ==> st.dir == Work(m.op) && DiscardPoint(at) && GoesOnDiscarding(st.next, m))
            && (st.Remove? ==>
                  if at.EndExport? then st.dir == Root && GoesOnEarly(st.next, m)
                  else !EarlyPoint(at) && (st.dir == Root || st.dir == Backup(m.op))
                       && (st.next.At? ==> !DiscardPoint(at)) && GoesOnLate(st.next, m))
            && (st.Verify? ==> EarlyPoint(at) && !at.WriteRootRename?
                               && st.pass == At(WriteRootRename, m) && st.fail == At(WriteFailed, m))
  {
  }

  /** What the remaining statements do to the disk. */
  ghost predicate Quiet(s: State, t: State)
    requires s.proc.At?
  {
    && t.used == s.used && t.verified == s.verified
    && (forall p | p in t.disk && p != Work(s.proc.mk.op) :: p in s.disk && t.disk[p].content == s.disk[p].content)
    && (forall p, n | ConvertMarkerAt(t.disk, p, n) ::
          ConvertMarkerAt(s.disk, p, n) && s.disk[p].markers[n] == t.disk[p].markers[n])
  }

  lemma OtherQuiet(s: State, t: State)
    requires Derived(s) && s.proc.At? && Execute(s, t)
    requires Other(Program(s.proc.point, s.proc.mk))
    ensures Quiet(s, t)
  {
    OtherShape(s.proc.point, s.proc.mk);
  }

  lemma OtherSound(s: State, t: State)
    requires Sound(s) && s.proc.At? && Execute(s, t) && Kept(s.disk, t.disk)
    requires Other(Program(s.proc.point, s.proc.mk))
    ensures Sound(t)
  {
    OtherShape(s.proc.point, s.proc.mk);
    OtherQuiet(s, t);
    MarkersStay(s, t);
    OtherTouchesOwnWork(s, t);
    VerifiedStays(s, t);
    assert ProcOk(t) by { OtherProcOk(s, t); }
  }

  lemma OtherTouchesOwnWork(s: State, t: State)
    requires Sound(s) && s.proc.At? && Execute(s, t)
    requires Other(Program(s.proc.point, s.proc.mk))
    ensures WorkUntouched(s, t)
  {
    OtherShape(s.proc.point, s.proc.mk);
  }

  lemma OtherProcOk(s: State, t: State)
    requires Sound(s) && s.proc.At? && Execute(s, t) && Quiet(s, t)
    requires Other(Program(s.proc.point, s.proc.mk))
    ensures ProcOk(t)
  {
    OtherShape(s.proc.point, s.proc.mk);
  }

  /** The export's marker is no convert marker. */
  lemma ExportSound(s: State, t: State)
    requires Sound(s) && s.proc.At? && Execute(s, t) && Kept(s.disk, t.disk)
    requires Program(s.proc.point, s.proc.mk).PutExport?
    ensures Sound(t)
  {
    if t == s.(disk := EnsureDir(s.disk, Root)) {
      MkdirSound(s, t, Root);
    } else {
      ExportAddsNoConvert(s.disk, ExportMarker(s.proc.mk));
      MarkersStay(s, t);
      ExportKeepsWork(s, t);
      VerifiedStays(s, t);
    }
  }

  lemma ExportAddsNoConvert(d: Disk, m: Marker)
    requires m.kind.Transfer?
    ensures var e := PutMarker(d, Root, m);
            forall p, n | ConvertMarkerAt(e, p, n) ::
              ConvertMarkerAt(d, p, n) && d[p].markers[n] == e[p].markers[n]
  {
  }

  lemma ExportKeepsWork(s: State, t: State)
    requires s.proc.At? && t.disk == PutMarker(s.disk, Root, ExportMarker(s.proc.mk))
    ensures WorkUntouched(s, t)
  {
  }

  lemma ExecuteSound(s: State, t: State)
    requires Sound(s) && s.proc.At? && Execute(s, t)
    ensures Sound(t)
  {
    ExecuteKeeps(s, t);
    if Program(s.proc.point, s.proc.mk).Write? {
      WriteSound(s, t);
    } else if Program(s.proc.point, s.proc.mk).Rename? {
      RenameSound(s, t);
    } else if Program(s.proc.point, s.proc.mk).PutExport? {
      ExportSound(s, t);
    } else {
      OtherSound(s, t);
    }
  }

  lemma StepSound(r: string, s: State, t: State)
    requires Sound(s) && Next(r, s, t)
    ensures Sound(t)
  {
    if op, kind :| StartConvert(s, t, op, kind) {
      StartConvertSound(s, t, op, kind);
    } else if dec :| StartRecovery(r, s, t, dec) {
      StartRecoverySound(r, s, t, dec);
    } else if s.proc.At? && Execute(s, t) {
      ExecuteSound(s, t);
    }
  }

  /** A disk nobody has converted on, with no process running. */
  ghost predicate Initial(s: State)
  {
    && s.proc.Idle? && s.verified == map[]
    && forall p | p in s.disk :: NoConvertMarkers(s.disk[p])
  }

  lemma {:induction false} RunSound(r: string, tr: seq<State>, i: nat)
    requires Run(r, tr) && Initial(tr[0]) && i < |tr|
    ensures Sound(tr[i])
  {
    if i > 0 {
      RunSound(r, tr, i - 1);
      assert NextAt(r, tr, i - 1);
      StepSound(r, tr[i - 1], tr[i]);
    }
  }

  /** A step that puts a work directory at the root. */
  predicate Installs(s: State, t: State, op: OpId)
  {
    && s.proc.At? && (s.proc.point.RenameWork? || s.proc.point.RecoverRenameWork?) && s.proc.mk.op == op
    && CanRename(s.disk, Work(op), Root) && t.disk == Renamed(s.disk, Work(op), Root)
  }

  lemma AgreedAndPlain(v: Verified)
    requires Agrees(v.kind, v.source, v.work)
    ensures Checkable(v.kind, v.source, v.work) && PlainNames(v.kind, v.source.tree, v.work.tree) ==>
              Complete(v.kind, v.source.tree, v.work.tree)
  {
    if Checkable(v.kind, v.source, v.work) && PlainNames(v.kind, v.source.tree, v.work.tree) {
      AgreedIsComplete(v.kind, v.source, v.work);
    }
  }

  /** Whether convert or a later recovery does it, a tree becomes the root only
      after it was compared with its source and agreed, and that source is kept. */
  lemma OnlyVerifiedWorkIsInstalled(r: string, tr: seq<State>, i: nat, op: OpId)
    requires Run(r, tr) && Initial(tr[0]) && i + 1 < |tr| && Installs(tr[i], tr[i + 1], op)
    ensures op in tr[i].verified
    ensures var v := tr[i].verified[op];
            && tr[i + 1].disk[Root].content == v.work
            && Agrees(v.kind, v.source, v.work)
            && (Checkable(v.kind, v.source, v.work) && PlainNames(v.kind, v.source.tree, v.work.tree) ==>
                  Complete(v.kind, v.source.tree, v.work.tree))
            && exists b :: Backup(b) in tr[i + 1].disk && tr[i + 1].disk[Backup(b)].content == v.source
  {
    RunSound(r, tr, i);
    AgreedAndPlain(tr[i].verified[op]);
    assert AtRootOrBackup(tr[i].disk, tr[i].verified[op].source);
    var b :| Backup(b) in tr[i].disk && tr[i].disk[Backup(b)].content == tr[i].verified[op].source;
    assert Backup(b) in tr[i + 1].disk;
  }
}
