/** The disk around one root, the statements of convert and recovery that touch
    it, and the machine that runs them one at a time and may be killed between
    any two. */
module ConvertModel {
  import opened Glob
  import opened Order
  import opened Trees

  type OpId = string

  /** Paths of one root: the root itself and the two names derived from it and
      an operation id. Any other path is `Elsewhere`. */
  datatype Path = Root | Work(op: OpId) | Backup(op: OpId) | Elsewhere(text: string)

  datatype Phase =
    | CreatingWork
    | CopyingToWork
    | VerifyingWork
    | RenamingRootToBackup
    | RenamingWorkToRoot
    | Completed
    | NeedsAttention
    | OtherPhase

  /** `kind` is None for the import and export markers that share the directory. */
  datatype MarkerKind = Convert(kind: Kind) | Transfer

  datatype Marker = Marker(op: OpId, kind: MarkerKind, phase: Phase, root: Path, work: Path, backup: Path)

  /** One `.json` file of the marker directory. */
  datatype MarkerFile = Unreadable | Readable(marker: Marker)

  /** A directory: what a user keeps in it, and the marker files by operation id. */
  datatype Dir = Dir(content: Content, markers: map<OpId, MarkerFile>)

  type Disk = map<Path, Dir>

  const EMPTY_DIR := Dir(Content(false, map[]), map[])

  // ---------------------------------------------------------------- effects

  function EnsureDir(d: Disk, p: Path): Disk
  {
    if p in d then d else d[p := EMPTY_DIR]
  }

  function PutMarker(d: Disk, p: Path, m: Marker): Disk
  {
    var e := EnsureDir(d, p);
    e[p := e[p].(markers := e[p].markers[m.op := Readable(m)])]
  }

  function DropMarker(d: Disk, p: Path, op: OpId): Disk
  {
    if p in d then d[p := d[p].(markers := d[p].markers - {op})] else d
  }

  /** A directory is never renamed onto one that is there. */
  predicate CanRename(d: Disk, from: Path, to: Path)
  {
    from in d && to !in d
  }

  function Renamed(d: Disk, from: Path, to: Path): Disk
    requires CanRename(d, from, to)
  {
    (d - {from})[to := d[from]]
  }

  // ---------------------------------------------------------------- markers

  predicate ValidChar(c: char)
  {
    'a' <= c <= 'z' || 'A' <= c <= 'Z' || '0' <= c <= '9' || c == '-' || c == '_'
  }

  predicate ValidOpId(op: OpId)
  {
    op != "" && forall i | 0 <= i < |op| :: ValidChar(op[i])
  }

  predicate ValidMarker(m: Marker)
  {
    && ValidOpId(m.op)
    && m.root == Root
    && m.work == Work(m.op)
    && m.backup == Backup(m.op)
  }

  // -------------------------------------------- where recovery looks for markers

  /** The path in full, for a root at `r`. */
  function PathText(r: string, p: Path): string
  {
    match p
    case Root => r
    case Backup(op) => r + BACKUP + op
    case Work(op) => r + WORK + op
    case Elsewhere(text) => text
  }

  /** A work or backup directory beside a root is reserved: no walk of a tree that
      holds it visits it. */
  lemma OwnDirectoriesAreReserved(name: string, op: OpId)
    ensures Reserved(PathText(name, Work(op))) && Reserved(PathText(name, Backup(op)))
  {
    assert StandsAt(PathText(name, Work(op)), ".safe_disk.work.", |name|);
    assert StandsAt(PathText(name, Backup(op)), ".safe_disk.backup.", |name|);
  }

  /** Every path has one name: `Elsewhere` is none of the root's own. */
  predicate Proper(r: string, p: Path)
  {
    match p
    case Root => true
    case Backup(op) => NoSlash(op)
    case Work(op) => NoSlash(op)
    case Elsewhere(text) => Foreign(r, text)
  }

  /** Both search patterns are legal. */
  predicate Searchable(r: string)
  {
    WellFormed(Pattern(r, BACKUP)) && WellFormed(Pattern(r, WORK))
  }

  /** The root, and whatever the two patterns find. */
  predicate Sees(r: string, p: Path)
  {
    Proper(r, p) &&
    (p.Root? || Finds(Pattern(r, BACKUP), PathText(r, p)) || Finds(Pattern(r, WORK), PathText(r, p)))
  }

  function Group(r: string, p: Path): nat
  {
    if p.Root? then 0 else if Finds(Pattern(r, BACKUP), PathText(r, p)) then 1 else 2
  }

  /** The order of the candidates: the root, then what the backup pattern finds,
      then what only the work pattern finds, each group by path. */
  predicate Before(r: string, p: Path, q: Path)
  {
    if p.Root? || q.Root? then p.Root? && !q.Root?
    else Group(r, p) < Group(r, q) || (Group(r, p) == Group(r, q) && Less(PathText(r, p), PathText(r, q)))
  }

  /** The patterns find the root's own directories and no others. */
  ghost predicate Exact(r: string)
  {
    && Searchable(r)
    && (forall op | ValidOpId(op) :: Sees(r, Work(op)) && Sees(r, Backup(op)))
    && (forall text :: !Sees(r, Elsewhere(text)))
  }

  predicate IsConvertFile(f: MarkerFile)
  {
    f.Readable? && f.marker.kind.Convert?
  }

  predicate NoConvertMarkers(dir: Dir)
  {
    forall n | n in dir.markers :: !IsConvertFile(dir.markers[n])
  }

  /** A directory an import or export worked in: whole markers of other operations only. */
  predicate TransferOnly(dir: Dir, op: OpId)
  {
    forall n | n in dir.markers :: n != op && dir.markers[n].Readable? && dir.markers[n].marker.kind.Transfer?
  }

  /** Listing fails on a file it cannot read, and on a convert marker that is
      not named after a valid operation id of its own. */
  predicate ListableFile(n: OpId, f: MarkerFile)
  {
    f.Readable? && (IsConvertFile(f) ==> f.marker.op == n && ValidOpId(n))
  }

  predicate Listable(r: string, d: Disk)
  {
    Searchable(r) && forall p, n | p in d && Sees(r, p) && n in d[p].markers :: ListableFile(n, d[p].markers[n])
  }

  ghost predicate Listed(r: string, d: Disk, p: Path, m: Marker)
  {
    p in d && Sees(r, p) && m.op in d[p].markers && d[p].markers[m.op] == Readable(m) && m.kind.Convert?
  }

  ghost predicate First(r: string, d: Disk, p: Path, m: Marker)
  {
    Listed(r, d, p, m) && forall q, m' | Listed(r, d, q, m') :: q == p || Before(r, p, q)
  }

  ghost predicate SeveralOperations(r: string, d: Disk)
  {
    exists p, m, q, m' :: Listed(r, d, p, m) && Listed(r, d, q, m') && m.op != m'.op
  }

  // --------------------------------------------------------------- decision

  datatype Decision =
    | Nothing
    | ListError
    | Attention
    | Discard(mk: Marker)
    | RenameBoth(mk: Marker)
    | RenameWorkOnly(mk: Marker)
    | CleanUp(mk: Marker)
    | CleanUpCompleted(mk: Marker)

  function DecideRename(m: Marker, root: bool, work: bool, backup: bool): Decision
  {
    if !root && work && backup then RenameWorkOnly(m)
    else if root && !work && backup then CleanUp(m)
    else Attention
  }

  function DecideFrom(d: Disk, m: Marker): Decision
  {
    if !ValidMarker(m) then Attention else
    var root, work, backup := m.root in d, m.work in d, m.backup in d;
    match m.phase
    case CreatingWork | CopyingToWork | VerifyingWork =>
      if !root || backup then Attention else Discard(m)
    case RenamingRootToBackup =>
      if root && work && !backup then RenameBoth(m) else DecideRename(m, root, work, backup)
    case RenamingWorkToRoot =>
      DecideRename(m, root, work, backup)
    case Completed => CleanUpCompleted(m)
    case NeedsAttention => Attention
    case OtherPhase => Attention
  }

  /** What recovery makes of a disk. */
  ghost predicate Chooses(r: string, d: Disk, dec: Decision)
  {
    if !Listable(r, d) then dec == ListError
    else if !(exists p, m :: Listed(r, d, p, m)) then dec == Nothing
    else if SeveralOperations(r, d) then dec == Attention
    else exists p, m :: First(r, d, p, m) && dec == DecideFrom(d, m)
  }

  datatype RecoverAction = ActNone | ActError | ActRerun | ActContinueRename | ActNeedsAttention | ActCompleted

  /** The disk and the answer of a recovery in which every statement succeeds. */
  function Outcome(d: Disk, dec: Decision): (Disk, RecoverAction)
  {
    match dec
    case Nothing => (d, ActNone)
    case ListError => (d, ActError)
    case Attention => (d, ActNeedsAttention)
    case Discard(m) => (DropMarker(d - {m.work}, m.root, m.op), ActRerun)
    case RenameBoth(m) =>
      if !CanRename(d, m.root, m.backup) then (d, ActNeedsAttention) else
      FinishRename(PutMarker(Renamed(d, m.root, m.backup), m.backup, m.(phase := RenamingWorkToRoot)), m)
    case RenameWorkOnly(m) => FinishRename(d, m)
    case CleanUp(m) => (DropMarker(DropMarker(d, m.root, m.op), m.backup, m.op), ActCompleted)
    case CleanUpCompleted(m) => (DropMarker(DropMarker(d, m.root, m.op), m.backup, m.op), ActCompleted)
  }

  function FinishRename(d: Disk, m: Marker): (Disk, RecoverAction)
  {
    if !CanRename(d, m.work, m.root) then (d, ActNeedsAttention) else
    (DropMarker(DropMarker(Renamed(d, m.work, m.root), m.root, m.op), m.backup, m.op), ActContinueRename)
  }

  // ------------------------------------------------------ what an answer tells

  /** All directories but these are as they were. */
  predicate SameBut(d: Disk, e: Disk, paths: set<Path>)
  {
    d - paths == e - paths
  }

  /** The work directory and the root's marker are gone, and nothing else. */
  predicate WorkDiscarded(d: Disk, e: Disk, op: OpId)
  {
    && Root in d && Backup(op) !in d && Work(op) !in e && SameBut(d, e, {Root, Work(op)})
    && Root in e && e[Root] == Dir(d[Root].content, d[Root].markers - {op})
  }

  /** The work tree is at the root, and what was at the root, or had been, is at the backup. */
  predicate WorkInstalled(d: Disk, e: Disk, op: OpId)
  {
    && Work(op) in d && Work(op) !in e && SameBut(d, e, {Root, Work(op), Backup(op)})
    && Root in e && e[Root].content == d[Work(op)].content
    && Backup(op) in e && (Root in d <==> Backup(op) !in d)
    && e[Backup(op)].content == d[if Root in d then Root else Backup(op)].content
  }

  /** At most this operation's markers in the root and the backup are gone. */
  predicate OnlyMarkersGone(d: Disk, e: Disk, op: OpId)
  {
    && e.Keys == d.Keys && SameBut(d, e, {Root, Backup(op)})
    && forall p | p in d :: e[p].content == d[p].content
                            && (e[p].markers == d[p].markers || e[p].markers == d[p].markers - {op})
  }

  /** What recovering a marked conversion says of the disk before and after, whatever
      failed on the way. */
  predicate ToldOf(d: Disk, e: Disk, op: OpId, act: RecoverAction)
  {
    match act
    case ActNone => false
    case ActError => false
    case ActRerun => WorkDiscarded(d, e, op)
    case ActContinueRename => WorkInstalled(d, e, op)
    case ActCompleted => OnlyMarkersGone(d, e, op)
    case ActNeedsAttention => true
  }

  /** The same for a whole recovery. */
  ghost predicate Told(r: string, d: Disk, e: Disk, act: RecoverAction)
  {
    match act
    case ActNone => e == d && Listable(r, d) && forall p, m :: !Listed(r, d, p, m)
    case ActError => e == d && !Listable(r, d)
    case _ => Listable(r, d) && (act.ActNeedsAttention? || exists p, m :: Listed(r, d, p, m) && ToldOf(d, e, m.op, act))
  }

  lemma DropGone(d: Disk, op: OpId, p: Path)
    requires p == Root || p == Backup(op)
    ensures OnlyMarkersGone(d, d, op) && OnlyMarkersGone(d, DropMarker(d, p, op), op)
  {
    var e := DropMarker(d, p, op);
    assert d - {Root, Backup(op)} == e - {Root, Backup(op)};
  }

  lemma BothGone(d: Disk, e: Disk, f: Disk, op: OpId)
    requires OnlyMarkersGone(d, e, op) && OnlyMarkersGone(e, f, op)
    ensures OnlyMarkersGone(d, f, op)
  {
    forall p | p in d
      ensures f[p].markers == d[p].markers || f[p].markers == d[p].markers - {op}
    {
      assert d[p].markers - {op} - {op} == d[p].markers - {op};
      assert f[p].content == e[p].content;
    }
  }

  lemma RenamedIsInstalled(d: Disk, op: OpId)
    requires Root !in d && Work(op) in d && Backup(op) in d
    ensures WorkInstalled(d, Renamed(d, Work(op), Root), op)
  {
    var e := Renamed(d, Work(op), Root);
    assert d - {Root, Work(op), Backup(op)} == e - {Root, Work(op), Backup(op)};
  }

  lemma InstalledThenCleaned(d: Disk, e: Disk, f: Disk, op: OpId)
    requires WorkInstalled(d, e, op) && OnlyMarkersGone(e, f, op)
    ensures WorkInstalled(d, f, op)
  {
    var own := {Root, Work(op), Backup(op)};
    assert e - own == (e - {Root, Backup(op)}) - own && f - own == (f - {Root, Backup(op)}) - own;
  }

  /** The root moved to the backup and marked there, and then the work tree installed. */
  lemma InstalledFromRoot(d: Disk, m: Marker, e: Disk)
    requires CanRename(d, Root, Backup(m.op)) && Work(m.op) in d
    requires WorkInstalled(PutMarker(Renamed(d, Root, Backup(m.op)), Backup(m.op), m), e, m.op)
    ensures WorkInstalled(d, e, m.op)
  {
    var own := {Root, Work(m.op), Backup(m.op)};
    var moved := PutMarker(Renamed(d, Root, Backup(m.op)), Backup(m.op), m);
    assert moved - own == d - own;
  }

  const EARLY_PHASES: set<Phase> := {CreatingWork, CopyingToWork, VerifyingWork}
  const RENAMING_PHASES: set<Phase> := {RenamingRootToBackup, RenamingWorkToRoot}

  /** Which answer a valid marker gets, by its phase and by what is there. */
  lemma AnswerByPhase(d: Disk, m: Marker)
    requires ValidMarker(m)
    ensures var act := Outcome(d, DecideFrom(d, m)).1;
            var root, work, backup := Root in d, Work(m.op) in d, Backup(m.op) in d;
            && (act == ActRerun <==> m.phase in EARLY_PHASES && root && !backup)
            && (act == ActContinueRename <==>
                  (m.phase == RenamingRootToBackup && root && work && !backup)
                  || (m.phase in RENAMING_PHASES && !root && work && backup))
            && (act == ActCompleted <==>
                  m.phase == Completed || (m.phase in RENAMING_PHASES && root && !work && backup))
            && act != ActNone && act != ActError
  {
  }

  // ---------------------------------------------------------------- machine

  /** The next statement of a running convert or recovery. */
  datatype Point =
    | WriteCreating
    | MakeWork
    | WriteCopying
    | StartExport
    | BuildWork
    | EndExport
    | WriteVerifying
    | CheckWork
    | WriteFailed
    | WriteRootRename
    | RenameRoot
    | WriteBackup
    | WriteWorkRename
    | RenameWork
    | WriteCompleted
    | CleanRoot
    | CleanBackup
    | RemoveWork
    | RemoveMarker
    | RecoverRenameRoot
    | RecoverWriteMarker
    | RecoverRenameWork

  datatype Proc = Idle | At(point: Point, mk: Marker)

  datatype Statement =
    | Mkdir(dir: Path, next: Proc)
    | Write(dir: Path, marker: Marker, next: Proc)
    | Rename(from: Path, to: Path, next: Proc)
    | RemoveAll(dir: Path, next: Proc)
    | Remove(dir: Path, op: OpId, mayFail: bool, next: Proc)
    | PutExport(dir: Path, marker: Marker, next: Proc)
    | Build(dir: Path, next: Proc)
    | Verify(pass: Proc, fail: Proc)

  /** Decrypting exports the root, and an export keeps a marker of its own in it. */
  predicate Exports(mk: Marker)
  {
    mk.kind == Convert(Decrypt)
  }

  /** The id of that export, as new as the conversion's own. */
  function ExportId(op: OpId): OpId
  {
    "export-" + op
  }

  function ExportMarker(mk: Marker): Marker
  {
    Marker(ExportId(mk.op), Transfer, OtherPhase, mk.root, mk.work, mk.backup)
  }

  lemma ExportIdIsAnother(op: OpId)
    ensures ExportId(op) != op
  {
    assert |ExportId(op)| == 7 + |op|;
  }

  /** The program text: the statement at each point and where it leads. */
  function Program(at: Point, mk: Marker): Statement
  {
    match at
    case WriteCreating => Write(mk.root, mk.(phase := CreatingWork), At(MakeWork, mk))
    case MakeWork => Mkdir(mk.work, At(WriteCopying, mk))
    case WriteCopying =>
      Write(mk.root, mk.(phase := CopyingToWork), At(if Exports(mk) then StartExport else BuildWork, mk))
    case StartExport => PutExport(mk.root, ExportMarker(mk), At(BuildWork, mk))
    case BuildWork => Build(mk.work, At(if Exports(mk) then EndExport else WriteVerifying, mk))
    case EndExport => Remove(mk.root, ExportId(mk.op), false, At(WriteVerifying, mk))
    case WriteVerifying => Write(mk.root, mk.(phase := VerifyingWork), At(CheckWork, mk))
    case CheckWork => Verify(At(WriteRootRename, mk), At(WriteFailed, mk))
    case WriteFailed => Write(mk.root, mk.(phase := NeedsAttention), Idle)
    case WriteRootRename => Write(mk.root, mk.(phase := RenamingRootToBackup), At(RenameRoot, mk))
    case RenameRoot => Rename(mk.root, mk.backup, At(WriteBackup, mk))
    case WriteBackup => Write(mk.backup, mk.(phase := RenamingRootToBackup), At(WriteWorkRename, mk))
    case WriteWorkRename => Write(mk.backup, mk.(phase := RenamingWorkToRoot), At(RenameWork, mk))
    case RenameWork => Rename(mk.work, mk.root, At(WriteCompleted, mk))
    case WriteCompleted => Write(mk.root, mk.(phase := Completed), At(CleanRoot, mk))
    case CleanRoot => Remove(mk.root, mk.op, true, At(CleanBackup, mk))
    case CleanBackup => Remove(mk.backup, mk.op, true, Idle)
    case RemoveWork => RemoveAll(mk.work, At(RemoveMarker, mk))
    case RemoveMarker => Remove(mk.root, mk.op, false, Idle)
    case RecoverRenameRoot => Rename(mk.root, mk.backup, At(RecoverWriteMarker, mk))
    case RecoverWriteMarker => Write(mk.backup, mk.(phase := RenamingWorkToRoot), At(RecoverRenameWork, mk))
    case RecoverRenameWork => Rename(mk.work, mk.root, At(CleanRoot, mk))
  }

  /** Where a recovery that decided `dec` starts; Idle when it changes nothing. */
  function RecoveryStart(d: Disk, dec: Decision): Proc
  {
    match dec
    case Nothing => Idle
    case ListError => Idle
    case Attention => Idle
    case Discard(m) => if m.work in d then At(RemoveWork, m) else At(RemoveMarker, m)
    case RenameBoth(m) => At(RecoverRenameRoot, m)
    case RenameWorkOnly(m) => At(RecoverRenameWork, m)
    case CleanUp(m) => At(CleanRoot, m)
    case CleanUpCompleted(m) => At(CleanRoot, m)
  }

  /** The two sides a passed verification compared. */
  datatype Verified = Verified(kind: Kind, source: Content, work: Content)

  /** `used` and `verified` are history: ids given out, verifications passed. */
  datatype State = State(disk: Disk, proc: Proc, used: set<OpId>, verified: map<OpId, Verified>)

  function NewMarker(op: OpId, kind: Kind): Marker
  {
    Marker(op, Convert(kind), CreatingWork, Root, Work(op), Backup(op))
  }

  ghost predicate StartConvert(s: State, t: State, op: OpId, kind: Kind)
  {
    && s.proc.Idle? && ValidOpId(op) && op !in s.used
    && t == s.(proc := At(WriteCreating, NewMarker(op, kind)), used := s.used + {op})
  }

  ghost predicate StartRecovery(r: string, s: State, t: State, dec: Decision)
  {
    s.proc.Idle? && Chooses(r, s.disk, dec) && t == s.(proc := RecoveryStart(s.disk, dec))
  }

  /** A crash, or an error return: the process is gone, the disk is as it was. */
  predicate Stop(s: State, t: State)
  {
    t == s.(proc := Idle)
  }

  /** A removal that was interrupted leaves some of the marker files. */
  predicate ShrunkMarkers(before: Dir, after: Dir)
  {
    forall n | n in after.markers :: n in before.markers && after.markers[n] == before.markers[n]
  }

  ghost predicate Execute(s: State, t: State)
    requires s.proc.At?
  {
    match Program(s.proc.point, s.proc.mk)
    case Mkdir(dir, next) =>
      t == s.(disk := EnsureDir(s.disk, dir), proc := next)
    case Write(dir, marker, next) =>
      || t == s.(disk := EnsureDir(s.disk, dir))
      || t == s.(disk := PutMarker(s.disk, dir, marker), proc := next,
                 verified := RecordVerified(s))
    case Rename(from, to, next) =>
      CanRename(s.disk, from, to) && t == s.(disk := Renamed(s.disk, from, to), proc := next)
    case RemoveAll(dir, next) =>
      || (dir in s.disk && exists left :: ShrunkMarkers(s.disk[dir], left) && t == s.(disk := s.disk[dir := left]))
      || t == s.(disk := s.disk - {dir}, proc := next)
    case Remove(dir, op, mayFail, next) =>
      || t == s.(disk := DropMarker(s.disk, dir, op), proc := next)
      || (mayFail && t == s.(proc := next))
    case PutExport(dir, marker, next) =>
      || t == s.(disk := EnsureDir(s.disk, dir))
      || t == s.(disk := PutMarker(s.disk, dir, marker), proc := next)
    case Build(dir, next) =>
      || (dir in s.disk && exists made :: TransferOnly(made, s.proc.mk.op) && t == s.(disk := s.disk[dir := made]))
      || t == s.(proc := next)
    case Verify(pass, fail) =>
      (Passes(s) && t == s.(proc := pass)) || (MayFail(s) && t == s.(proc := fail))
  }

  /** Verification compares the root with the work directory. */
  ghost predicate Passes(s: State)
    requires s.proc.At?
  {
    var m := s.proc.mk;
    && m.kind.Convert? && m.root in s.disk && m.work in s.disk
    && Agrees(m.kind.kind, s.disk[m.root].content, s.disk[m.work].content)
  }

  /** It finds a difference where there is one, and may find anything where a path
      of the root leads elsewhere. */
  ghost predicate MayFail(s: State)
    requires s.proc.At?
  {
    var m := s.proc.mk;
    !Passes(s) || !Checkable(m.kind.kind, s.disk[m.root].content, s.disk[m.work].content)
  }

  /** History: the pair on disk when the first rename marker is written. */
  ghost function RecordVerified(s: State): map<OpId, Verified>
    requires s.proc.At?
  {
    var m := s.proc.mk;
    if s.proc.point == WriteRootRename && m.kind.Convert? && m.root in s.disk && m.work in s.disk
    then s.verified[m.op := Verified(m.kind.kind, s.disk[m.root].content, s.disk[m.work].content)]
    else s.verified
  }

  ghost predicate Next(r: string, s: State, t: State)
  {
    || Stop(s, t)
    || (exists op, kind :: StartConvert(s, t, op, kind))
    || (exists dec :: StartRecovery(r, s, t, dec))
    || (s.proc.At? && Execute(s, t))
  }

  ghost predicate NextAt(r: string, tr: seq<State>, i: nat)
    requires i < |tr| - 1
  {
    Next(r, tr[i], tr[i + 1])
  }

  /** A history of the machine, however many operations, crashes and recoveries it holds. */
  ghost predicate Run(r: string, tr: seq<State>)
  {
    tr != [] && forall i | 0 <= i < |tr| - 1 :: NextAt(r, tr, i)
  }

  lemma BeforeAntisymmetric(r: string, p: Path, q: Path)
    ensures !(Before(r, p, q) && Before(r, q, p))
  {
    if Leq(PathText(r, p), PathText(r, q)) && Leq(PathText(r, q), PathText(r, p)) {
      LeqAntisymmetric(PathText(r, p), PathText(r, q));
    }
  }

  /** Recovery's choice is determined by the root path and the disk. */
  lemma ChoiceUnique(r: string, d: Disk, x: Decision, y: Decision)
    requires Chooses(r, d, x) && Chooses(r, d, y)
    ensures x == y
  {
    if Listable(r, d) && (exists p, m :: Listed(r, d, p, m)) && !SeveralOperations(r, d) {
      var p, m :| First(r, d, p, m) && x == DecideFrom(d, m);
      var q, n :| First(r, d, q, n) && y == DecideFrom(d, n);
      FirstUnique(r, d, p, m, q, n);
    }
  }

  lemma FirstUnique(r: string, d: Disk, p: Path, m: Marker, q: Path, n: Marker)
    requires First(r, d, p, m) && First(r, d, q, n) && !SeveralOperations(r, d)
    ensures p == q && m == n
  {
    assert Listed(r, d, p, m) && Listed(r, d, q, n);
    BeforeAntisymmetric(r, p, q);
  }

  lemma ChooseSeveral(r: string, d: Disk, p: Path, m: Marker, q: Path, n: Marker)
    requires Listable(r, d) && Listed(r, d, p, m) && Listed(r, d, q, n) && m.op != n.op
    ensures Chooses(r, d, Attention)
  {
    assert SeveralOperations(r, d);
  }

  lemma ChooseFirst(r: string, d: Disk, p: Path, m: Marker)
    requires Listable(r, d) && First(r, d, p, m) && !SeveralOperations(r, d)
    ensures Chooses(r, d, DecideFrom(d, m)) && m.kind.Convert?
  {
    assert Listed(r, d, p, m);
  }

  // ------------------------------------------------------ whose turn it is first

  /** No directory with a convert marker comes before this one: the root comes first,
      then what the backup pattern finds, then what only the work pattern finds, each
      in the order of the paths. */
  ghost predicate NoneBefore(r: string, d: Disk, p: Path)
  {
    forall q, n | Listed(r, d, q, n) && q != p ::
      p == Root || (q != Root &&
                    if FoundAsBackup(r, p) then FoundAsBackup(r, q) ==> Less(PathText(r, p), PathText(r, q))
                    else !FoundAsBackup(r, q) && Less(PathText(r, p), PathText(r, q)))
  }

  predicate FoundAsBackup(r: string, p: Path)
  {
    Finds(r + ".safe_disk.backup." + "*", PathText(r, p))
  }

  /** Recovery acts on the marker of the first directory that has one. */
  lemma FirstInOrderDecides(r: string, d: Disk, p: Path, m: Marker)
    requires Listable(r, d) && !SeveralOperations(r, d) && Listed(r, d, p, m) && NoneBefore(r, d, p)
    ensures Chooses(r, d, DecideFrom(d, m))
  {
    forall q, n | Listed(r, d, q, n) ensures q == p || Before(r, p, q) {
    }
    ChooseFirst(r, d, p, m);
  }

  /** A marker file that stops every recovery: one that cannot be read, or a convert
      marker under a name that is not its own valid operation id. */
  predicate StopsListing(n: OpId, f: MarkerFile)
  {
    f.Unreadable? || (f.marker.kind.Convert? && (f.marker.op != n || !ValidOpId(n)))
  }

  ghost predicate SeesStopper(r: string, d: Disk)
  {
    exists p, n :: p in d && Sees(r, p) && n in d[p].markers && StopsListing(n, d[p].markers[n])
  }

  /** Recovery is refused exactly if a pattern is malformed or such a file is seen. */
  lemma RefusedExactly(r: string, d: Disk)
    ensures Chooses(r, d, ListError) <==> !Searchable(r) || SeesStopper(r, d)
  {
    if Chooses(r, d, ListError) && Listable(r, d) {
      if p, m :| First(r, d, p, m) && ListError == DecideFrom(d, m) {
        assert false;
      }
    }
  }

  // ---------------------------------------------- which roots are searched right

  /** An operation id is one component of a path, and no special one. */
  lemma ValidOpHasNoSlash(op: OpId)
    requires ValidOpId(op)
    ensures NoSlash(op) && op != "" && '/' !in op && '\\' !in op && '.' !in op
  {
  }

  lemma OwnIsTagged(r: string, tag: string, op: OpId)
    requires NoSlash(op)
    ensures Tagged(r, tag, r + tag + op)
  {
    assert (r + tag + op)[|r + tag|..] == op;
  }

  /** A root path without pattern characters is searched right. */
  lemma LiteralIsExact(r: string)
    requires Literal(r)
    ensures Exact(r)
  {
    forall op | ValidOpId(op) ensures Sees(r, Work(op)) && Sees(r, Backup(op)) {
      LiteralSeesOwn(r, op);
    }
    forall text ensures !Sees(r, Elsewhere(text)) {
      LiteralFinds(r, BACKUP, text);
      LiteralFinds(r, WORK, text);
    }
    LiteralFinds(r, BACKUP, r);
    LiteralFinds(r, WORK, r);
  }

  lemma LiteralSeesOwn(r: string, op: OpId)
    requires Literal(r) && ValidOpId(op)
    ensures Sees(r, Work(op)) && Sees(r, Backup(op))
  {
    ValidOpHasNoSlash(op);
    OwnIsTagged(r, BACKUP, op);
    OwnIsTagged(r, WORK, op);
    LiteralFinds(r, BACKUP, r + BACKUP + op);
    LiteralFinds(r, WORK, r + WORK + op);
  }

  /** Any other root path is refused, or its own directories are never seen, or
      another root's are. */
  lemma OtherRootsAreNotExact(r: string)
    requires !Literal(r)
    ensures !Searchable(r) || (exists text :: Sees(r, Elsewhere(text)))
            || (forall op :: !Sees(r, Backup(op)) && !Sees(r, Work(op)))
  {
    MetaFindsWrong(r, BACKUP);
    MetaFindsWrong(r, WORK);
    if text :| (Finds(Pattern(r, BACKUP), text) || Finds(Pattern(r, WORK), text)) && Foreign(r, text) {
      assert Sees(r, Elsewhere(text));
    }
  }
}
