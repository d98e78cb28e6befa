/** Comparing a converted tree with its source, and the bounded report of where they differ. */
module Verification {
  import opened Bytes
  import opened Order
  import opened Trees

  const SAMPLE_LIMIT: nat := 16

  // ------------------------------------------------------- bounded samples

  function FirstSorted(s: seq<string>): seq<string>
  {
    var t := Sort(s);
    if |t| <= SAMPLE_LIMIT then t else t[..SAMPLE_LIMIT]
  }

  lemma SortAppend(all: seq<string>, path: string)
    ensures Sort(all + [path]) == Insert(Sort(all), path)
    ensures Sorted(Sort(all)) && |Sort(all + [path])| == |all| + 1
  {
    SortSorts(all);
    SortSorts(all + [path]);
    assert (all + [path])[..|all|] == all;
  }

  lemma SampleGrows(all: seq<string>, path: string)
    requires |FirstSorted(all)| < SAMPLE_LIMIT
    ensures Sort(FirstSorted(all) + [path]) == FirstSorted(all + [path])
  {
    SortAppend(all, path);
    var t := Sort(all);
    SortFixesSorted(t);
    SortAppend(t, path);
  }

  lemma SampleStays(all: seq<string>, path: string)
    requires var s := FirstSorted(all); |s| == SAMPLE_LIMIT && Leq(s[SAMPLE_LIMIT - 1], path)
    ensures FirstSorted(all + [path]) == FirstSorted(all)
  {
    SortAppend(all, path);
    InsertPrefix(Sort(all), path, SAMPLE_LIMIT);
  }

  lemma LastReplaced(s: seq<string>, path: string)
    requires s != []
    ensures s[|s| - 1 := path] == s[..|s| - 1] + [path]
  {
  }

  lemma SampleReplaces(all: seq<string>, path: string)
    requires var s := FirstSorted(all); |s| == SAMPLE_LIMIT && !Leq(s[SAMPLE_LIMIT - 1], path)
    ensures Sort(FirstSorted(all)[SAMPLE_LIMIT - 1 := path]) == FirstSorted(all + [path])
  {
    var s := FirstSorted(all);
    var kept := s[..SAMPLE_LIMIT - 1];
    SortAppend(all, path);
    InsertPrefix(Sort(all), path, SAMPLE_LIMIT);
    assert kept == Sort(all)[..SAMPLE_LIMIT - 1];
    SortFixesSorted(kept);
    SortAppend(kept, path);
    LastReplaced(s, path);
  }

  // ---------------------------------------------------------------- reports

  /** The path as a report shows it. */
  function ManifestPath(p: RelPath): string
  {
    if p == [] then "." else if |p| == 1 then p[0] else p[0] + "/" + ManifestPath(p[1..])
  }

  /** The sample list and the counter of one category of differences. */
  class Differences {
    var samples: seq<string>
    var count: nat
    ghost var all: seq<string>

    ghost predicate Valid()
      reads this
    {
      count == |all| && samples == FirstSorted(all)
    }

    constructor ()
      ensures Valid() && all == []
    {
      samples, count, all := [], 0, [];
    }

    /** Keeps the sixteen smallest of all the paths ever added, in order. */
    method Add(path: string)
      requires Valid()
      modifies this
      ensures Valid() && all == old(all) + [path]
    {
      ghost var before := all;
      count := count + 1;
      all := all + [path];
      if |samples| < SAMPLE_LIMIT {
        SampleGrows(before, path);
        samples := Sort(samples + [path]);
        return;
      }
      if Leq(samples[|samples| - 1], path) {
        SampleStays(before, path);
        return;
      }
      SampleReplaces(before, path);
      samples := Sort(samples[|samples| - 1 := path]);
    }
  }

  datatype Tally = Tally(samples: seq<string>, count: nat)

  datatype Report = Report(missingDirectories: Tally, unexpectedDirectories: Tally, missingFiles: Tally,
                           unexpectedFiles: Tally, digestMismatches: Tally, truncated: bool)

  datatype Verdict = Pass | Mismatch(report: Report) | Failed

  function TallyOf(paths: seq<string>): Tally
  {
    Tally(FirstSorted(paths), |paths|)
  }

  // ----------------------------------------------------------- what differs

  type Hash = seq<byte> -> seq<byte>

  ghost predicate CollisionFree(hash: Hash)
  {
    forall a, b :: hash(a) == hash(b) ==> a == b
  }

  datatype Difference = NoDirectory | NoFile | OtherDigest

  /** The entry `p` of tree `t` is a directory that the other tree is found to lack,
      a file it is found to lack, or a file whose digest there is another. */
  predicate Differs(hash: Hash, t: Tree, u: Content, how: Difference, p: RelPath)
  {
    p in t &&
    var found := Seek(u.encrypted, u.tree, p);
    match how
    case NoDirectory => t[p].Directory? && !(found.Entry? && found.node.Directory?)
    case NoFile => t[p].File? && !(found.Entry? && found.node.File?)
    case OtherDigest => t[p].File? && found.Entry? && found.node.File? && hash(t[p].bytes) != hash(found.node.bytes)
  }

  /** The report paths of the entries along a walk that differ. */
  ghost function Select(hash: Hash, t: Tree, u: Content, how: Difference, walk: seq<RelPath>): seq<string>
  {
    if walk == [] then [] else
    var last := walk[|walk| - 1];
    Select(hash, t, u, how, walk[..|walk| - 1]) + (if Differs(hash, t, u, how, last) then [ManifestPath(last)] else [])
  }

  lemma {:induction false} SelectEmpty(hash: Hash, t: Tree, u: Content, how: Difference, walk: seq<RelPath>)
    ensures Select(hash, t, u, how, walk) == [] <==> forall p | p in walk :: !Differs(hash, t, u, how, p)
  {
    if walk != [] {
      SelectEmpty(hash, t, u, how, walk[..|walk| - 1]);
      assert walk == walk[..|walk| - 1] + [walk[|walk| - 1]];
    }
  }

  /** The samples are the smallest of the paths: any other path is not below them. */
  lemma SamplesAreSmallest(paths: seq<string>, x: string)
    requires x in paths
    ensures Sorted(FirstSorted(paths))
    ensures x in FirstSorted(paths) || forall y | y in FirstSorted(paths) :: Leq(y, x)
  {
    SortSorts(paths);
    assert x in multiset(Sort(paths));
    var i :| 0 <= i < |Sort(paths)| && Sort(paths)[i] == x;
    if i >= SAMPLE_LIMIT {
      forall j | 0 <= j < SAMPLE_LIMIT ensures Leq(Sort(paths)[j], x) {
      }
    }
  }

  /** Each entry a walk visits, once, in some order. */
  method ListEntries(t: Tree, visible: RelPath -> bool) returns (walk: seq<RelPath>)
    ensures forall p :: p in walk <==> p in t && visible(p)
    ensures forall i, j | 0 <= i < j < |walk| :: walk[i] != walk[j]
  {
    walk := [];
    var rest := t.Keys;
    while rest != {}
      invariant rest <= t.Keys
      invariant forall p :: p in walk <==> p in t && p !in rest && visible(p)
      invariant forall i, j | 0 <= i < j < |walk| :: walk[i] != walk[j]
      decreases rest
    {
      var p :| p in rest;
      rest := rest - {p};
      if visible(p) {
        walk := walk + [p];
      }
    }
  }

  /** Where the trees differ, category by category, along the two walks. */
  ghost function ReportOf(hash: Hash, source: Content, work: Content,
                          sourceWalk: seq<RelPath>, workWalk: seq<RelPath>): Report
  {
    var md := TallyOf(Select(hash, source.tree, work, NoDirectory, sourceWalk));
    var mf := TallyOf(Select(hash, source.tree, work, NoFile, sourceWalk));
    var dm := TallyOf(Select(hash, source.tree, work, OtherDigest, sourceWalk));
    var ud := TallyOf(Select(hash, work.tree, source, NoDirectory, workWalk));
    var uf := TallyOf(Select(hash, work.tree, source, NoFile, workWalk));
    FullReport(md, ud, mf, uf, dm)
  }

  function FullReport(md: Tally, ud: Tally, mf: Tally, uf: Tally, dm: Tally): Report
  {
    Report(md, ud, mf, uf, dm, Over(md) || Over(ud) || Over(mf) || Over(uf) || Over(dm))
  }

  predicate Over(t: Tally)
  {
    t.count > |t.samples|
  }

  predicate Empty(r: Report)
  {
    r.missingDirectories.count == 0 && r.unexpectedDirectories.count == 0 && r.missingFiles.count == 0 &&
    r.unexpectedFiles.count == 0 && r.digestMismatches.count == 0
  }

  /** The lookup of an entry finds its kind. */
  predicate KindFound(hash: Hash, t: Tree, u: Content, p: RelPath)
  {
    !Differs(hash, t, u, NoDirectory, p) && !Differs(hash, t, u, NoFile, p)
  }

  /** The lookup finds its kind exactly if nothing is missing, and its bytes exactly if
      the digests do not differ either. */
  lemma EntryAgrees(hash: Hash, t: Tree, u: Content, p: RelPath)
    requires CollisionFree(hash) && p in t
    ensures KindFound(hash, t, u, p) <==> SameKind(Seek(u.encrypted, u.tree, p), t[p])
    ensures var same := KindFound(hash, t, u, p) && !Differs(hash, t, u, OtherDigest, p);
            same <==> Seek(u.encrypted, u.tree, p) == Entry(t[p])
  {
  }

  /** An empty report is agreement, and agreement an empty report. */
  lemma EmptyReportIsAgreement(hash: Hash, kind: Kind, source: Content, work: Content,
                               sourceWalk: seq<RelPath>, workWalk: seq<RelPath>)
    requires CollisionFree(hash) && Checkable(kind, source, work)
    requires forall p :: p in sourceWalk <==> SourceVisible(kind, source.tree, p)
    requires forall p :: p in workWalk <==> WorkVisible(kind, work.tree, p)
    ensures Empty(ReportOf(hash, source, work, sourceWalk, workWalk)) <==> Agrees(kind, source, work)
  {
    var s, w := source.tree, work.tree;
    SelectEmpty(hash, s, work, NoDirectory, sourceWalk);
    SelectEmpty(hash, s, work, NoFile, sourceWalk);
    SelectEmpty(hash, s, work, OtherDigest, sourceWalk);
    SelectEmpty(hash, w, source, NoDirectory, workWalk);
    SelectEmpty(hash, w, source, NoFile, workWalk);
    forall p | p in sourceWalk
      ensures var same := KindFound(hash, s, work, p) && !Differs(hash, s, work, OtherDigest, p);
              same <==> Seek(kind == Encrypt, w, p) == Entry(s[p])
    {
      EntryAgrees(hash, s, work, p);
    }
    forall p | p in workWalk ensures KindFound(hash, w, source, p) <==> SameKind(Seek(kind == Decrypt, s, p), w[p]) {
      EntryAgrees(hash, w, source, p);
    }
  }

  function Differing(hash: Hash, t: Tree, u: Content, how: Difference, walk: seq<RelPath>): set<RelPath>
  {
    set p | p in walk && Differs(hash, t, u, how, p)
  }

  lemma OneMoreDiffers(hash: Hash, t: Tree, u: Content, how: Difference, before: seq<RelPath>, last: RelPath)
    ensures Differing(hash, t, u, how, before + [last]) ==
            if Differs(hash, t, u, how, last) then Differing(hash, t, u, how, before) + {last}
            else Differing(hash, t, u, how, before)
  {
  }

  predicate Distinct(walk: seq<RelPath>)
  {
    forall i, j | 0 <= i < j < |walk| :: walk[i] != walk[j]
  }

  lemma {:induction false} CountsEntries(hash: Hash, t: Tree, u: Content, how: Difference, walk: seq<RelPath>)
    requires Distinct(walk)
    ensures |Select(hash, t, u, how, walk)| == |Differing(hash, t, u, how, walk)|
  {
    if walk != [] {
      var before, last := walk[..|walk| - 1], walk[|walk| - 1];
      CountsEntries(hash, t, u, how, before);
      OneMoreDiffers(hash, t, u, how, before, last);
      assert walk == before + [last] && last !in Differing(hash, t, u, how, before);
    }
  }

  /** The samples are as many as there are paths, up to sixteen. */
  lemma SampleCount(paths: seq<string>)
    ensures |TallyOf(paths).samples| == Min(|paths|, 16)
  {
    SortSorts(paths);
  }

  /** Directories that are looked up and not found as directories. */
  function DirectoriesMissed(t: Tree, u: Content, walk: seq<RelPath>): set<RelPath>
  {
    set p | p in walk && p in t && t[p].Directory? && Seek(u.encrypted, u.tree, p) != Entry(Directory)
  }

  /** Files that are looked up and not found as files. */
  function FilesMissed(t: Tree, u: Content, walk: seq<RelPath>): set<RelPath>
  {
    set p | p in walk && p in t && t[p].File? && !SameKind(Seek(u.encrypted, u.tree, p), t[p])
  }

  /** Files that are found with other bytes. */
  function FilesChanged(t: Tree, u: Content, walk: seq<RelPath>): set<RelPath>
  {
    set p | p in walk && p in t && t[p].File? && SameKind(Seek(u.encrypted, u.tree, p), t[p])
            && Seek(u.encrypted, u.tree, p) != Entry(t[p])
  }

  lemma DifferingSets(hash: Hash, t: Tree, u: Content, walk: seq<RelPath>)
    requires CollisionFree(hash)
    ensures Differing(hash, t, u, NoDirectory, walk) == DirectoriesMissed(t, u, walk)
    ensures Differing(hash, t, u, NoFile, walk) == FilesMissed(t, u, walk)
    ensures Differing(hash, t, u, OtherDigest, walk) == FilesChanged(t, u, walk)
  {
    forall p
      ensures p in Differing(hash, t, u, NoDirectory, walk) <==> p in DirectoriesMissed(t, u, walk)
      ensures p in Differing(hash, t, u, NoFile, walk) <==> p in FilesMissed(t, u, walk)
      ensures p in Differing(hash, t, u, OtherDigest, walk) <==> p in FilesChanged(t, u, walk)
    {
    }
  }

  lemma TalliesCount(hash: Hash, t: Tree, u: Content, walk: seq<RelPath>)
    requires CollisionFree(hash) && Distinct(walk)
    ensures |Select(hash, t, u, NoDirectory, walk)| == |DirectoriesMissed(t, u, walk)|
    ensures |Select(hash, t, u, NoFile, walk)| == |FilesMissed(t, u, walk)|
    ensures |Select(hash, t, u, OtherDigest, walk)| == |FilesChanged(t, u, walk)|
  {
    CountsEntries(hash, t, u, NoDirectory, walk);
    CountsEntries(hash, t, u, NoFile, walk);
    CountsEntries(hash, t, u, OtherDigest, walk);
    DifferingSets(hash, t, u, walk);
  }

  /** What each count of a report is, and when the samples are not all there is. */
  lemma ReportCounts(hash: Hash, source: Content, work: Content, sw: seq<RelPath>, ww: seq<RelPath>)
    requires CollisionFree(hash) && Distinct(sw) && Distinct(ww)
    ensures var r, s, w := ReportOf(hash, source, work, sw, ww), source.tree, work.tree;
            && r.missingDirectories.count == |DirectoriesMissed(s, work, sw)|
            && r.missingFiles.count == |FilesMissed(s, work, sw)|
            && r.digestMismatches.count == |FilesChanged(s, work, sw)|
            && r.unexpectedDirectories.count == |DirectoriesMissed(w, source, ww)|
            && r.unexpectedFiles.count == |FilesMissed(w, source, ww)|
            && (r.truncated <==>
                  r.missingDirectories.count > 16 || r.missingFiles.count > 16 || r.digestMismatches.count > 16
                  || r.unexpectedDirectories.count > 16 || r.unexpectedFiles.count > 16)
  {
    TalliesCount(hash, source.tree, work, sw);
    TalliesCount(hash, work.tree, source, ww);
    SampleCount(Select(hash, source.tree, work, NoDirectory, sw));
    SampleCount(Select(hash, source.tree, work, NoFile, sw));
    SampleCount(Select(hash, source.tree, work, OtherDigest, sw));
    SampleCount(Select(hash, work.tree, source, NoDirectory, ww));
    SampleCount(Select(hash, work.tree, source, NoFile, ww));
  }

  /** A reported path is the entry's path joined with slashes. */
  lemma {:induction false} ManifestIsJoin(p: RelPath)
    requires p != []
    ensures ManifestPath(p) == PathClean.Join(p, '/')
  {
    if |p| > 1 {
      ManifestIsJoin(p[1..]);
    }
  }

  /** A verdict names every difference that the lookups show, or there is none. */
  ghost predicate VerdictOf(hash: Hash, kind: Kind, source: Content, work: Content, v: Verdict)
  {
    match v
    case Pass => Agrees(kind, source, work)
    case Mismatch(report) =>
      Checkable(kind, source, work) ==>
        && !Agrees(kind, source, work) && !Empty(report)
        && exists sw, ww ::
            && WalkOf(sw, iset p | SourceVisible(kind, source.tree, p))
            && WalkOf(ww, iset p | WorkVisible(kind, work.tree, p))
            && report == ReportOf(hash, source, work, sw, ww)
    case Failed => true
  }

  /** A list of entries a walk visits: every visible one, once, in some order. */
  ghost predicate WalkOf(walk: seq<RelPath>, visible: iset<RelPath>)
  {
    && (forall p :: p in walk <==> p in visible)
    && (forall i, j | 0 <= i < j < |walk| :: walk[i] != walk[j])
  }

  function VerdictFrom(r: Report): Verdict
  {
    if Empty(r) then Pass else Mismatch(r)
  }

  lemma ReportIsVerdict(hash: Hash, kind: Kind, source: Content, work: Content,
                        sw: seq<RelPath>, ww: seq<RelPath>, v: Verdict)
    requires CollisionFree(hash) && Checkable(kind, source, work)
    requires forall p :: p in sw <==> p in source.tree && SourceVisible(kind, source.tree, p)
    requires forall p :: p in ww <==> p in work.tree && WorkVisible(kind, work.tree, p)
    requires forall i, j | 0 <= i < j < |sw| :: sw[i] != sw[j]
    requires forall i, j | 0 <= i < j < |ww| :: ww[i] != ww[j]
    requires v == VerdictFrom(ReportOf(hash, source, work, sw, ww))
    ensures VerdictOf(hash, kind, source, work, v)
  {
    EmptyReportIsAgreement(hash, kind, source, work, sw, ww);
    assert WalkOf(sw, iset p | SourceVisible(kind, source.tree, p));
    assert WalkOf(ww, iset p | WorkVisible(kind, work.tree, p));
  }

  /** The path as a list to report, if `p` differs in this way. */
  function Reported(hash: Hash, t: Tree, u: Content, how: Difference, p: RelPath): seq<string>
  {
    if Differs(hash, t, u, how, p) then [ManifestPath(p)] else []
  }

  /** Looks one entry of the source up in the work tree. To compare bytes a file of an
      encrypted source is opened by its own path. */
  method CompareEntry(hash: Hash, source: Content, work: Content, p: RelPath,
                      directories: Differences, files: Differences, digests: Differences)
    returns (ok: bool, ghost faulted: bool)
    requires p in source.tree && directories != files && files != digests && directories != digests
    requires directories.Valid() && files.Valid() && digests.Valid()
    modifies directories, files, digests
    ensures directories.Valid() && files.Valid() && digests.Valid()
    ensures ok ==> directories.all == old(directories.all) + Reported(hash, source.tree, work, NoDirectory, p)
    ensures ok ==> files.all == old(files.all) + Reported(hash, source.tree, work, NoFile, p)
    ensures ok ==> digests.all == old(digests.all) + Reported(hash, source.tree, work, OtherDigest, p)
    ensures ok ==> !Seek(work.encrypted, work.tree, p).Refused?
    ensures !faulted && !ok ==> Seek(work.encrypted, work.tree, p).Refused?
                                || Seek(source.encrypted, source.tree, p).Refused?
  {
    var found := Seek(work.encrypted, work.tree, p);
    var failed: bool := *;
    faulted := failed;
    if failed || found.Refused? {
      return false, faulted;
    }
    var node := source.tree[p];
    if node.Directory? {
      if found.Absent? || found.node.File? {
        directories.Add(ManifestPath(p));
      }
    } else if found.Absent? || found.node.Directory? {
      files.Add(ManifestPath(p));
    } else if Seek(source.encrypted, source.tree, p).Refused? {
      return false, faulted;
    } else if hash(node.bytes) != hash(found.node.bytes) {
      digests.Add(ManifestPath(p));
    }
    ok := true;
  }

  /** Visits the source and looks each entry up in the work tree. Any stat, open or
      read may fail, a refused path always does, and then there is no result. */
  method CompareSource(hash: Hash, source: Content, work: Content, walk: seq<RelPath>,
                       directories: Differences, files: Differences, digests: Differences)
    returns (ok: bool, ghost faulted: bool)
    requires forall p | p in walk :: p in source.tree
    requires directories != files && files != digests && directories != digests
    requires directories.Valid() && files.Valid() && digests.Valid()
    requires directories.all == files.all == digests.all == []
    modifies directories, files, digests
    ensures directories.Valid() && files.Valid() && digests.Valid()
    ensures ok ==> directories.all == Select(hash, source.tree, work, NoDirectory, walk)
    ensures ok ==> files.all == Select(hash, source.tree, work, NoFile, walk)
    ensures ok ==> digests.all == Select(hash, source.tree, work, OtherDigest, walk)
    ensures ok ==> forall p | p in walk :: !Seek(work.encrypted, work.tree, p).Refused?
    ensures !faulted && !ok ==>
              exists p | p in walk :: Seek(work.encrypted, work.tree, p).Refused?
                                      || Seek(source.encrypted, source.tree, p).Refused?
  {
    faulted := false;
    for i := 0 to |walk|
      invariant directories.Valid() && files.Valid() && digests.Valid()
      invariant directories.all == Select(hash, source.tree, work, NoDirectory, walk[..i])
      invariant files.all == Select(hash, source.tree, work, NoFile, walk[..i])
      invariant digests.all == Select(hash, source.tree, work, OtherDigest, walk[..i])
      invariant forall p | p in walk[..i] :: !Seek(work.encrypted, work.tree, p).Refused?
    {
      assert walk[..i + 1][..i] == walk[..i];
      assert walk[..i + 1] == walk[..i] + [walk[i]];
      ok, faulted := CompareEntry(hash, source, work, walk[i], directories, files, digests);
      if !ok {
        return;
      }
    }
    assert walk[..|walk|] == walk;
    ok := true;
  }

  /** Looks one entry of the work tree up in the source. */
  method CompareBack(hash: Hash, source: Content, w: Tree, p: RelPath, directories: Differences, files: Differences)
    returns (ok: bool, ghost faulted: bool)
    requires p in w && directories != files && directories.Valid() && files.Valid()
    modifies directories, files
    ensures directories.Valid() && files.Valid()
    ensures ok ==> directories.all == old(directories.all) + Reported(hash, w, source, NoDirectory, p)
    ensures ok ==> files.all == old(files.all) + Reported(hash, w, source, NoFile, p)
    ensures ok ==> !Seek(source.encrypted, source.tree, p).Refused?
    ensures !faulted && !ok ==> Seek(source.encrypted, source.tree, p).Refused?
  {
    var found := Seek(source.encrypted, source.tree, p);
    var failed: bool := *;
    faulted := failed;
    if failed || found.Refused? {
      return false, faulted;
    }
    if w[p].Directory? {
      if found.Absent? || found.node.File? {
        directories.Add(ManifestPath(p));
      }
    } else if found.Absent? || found.node.Directory? {
      files.Add(ManifestPath(p));
    }
    ok := true;
  }

  /** Visits the work tree and looks each entry up in the source. */
  method CompareWork(hash: Hash, source: Content, w: Tree, walk: seq<RelPath>,
                     directories: Differences, files: Differences) returns (ok: bool, ghost faulted: bool)
    requires forall p | p in walk :: p in w
    requires directories != files && directories.Valid() && files.Valid()
    requires directories.all == files.all == []
    modifies directories, files
    ensures directories.Valid() && files.Valid()
    ensures ok ==> directories.all == Select(hash, w, source, NoDirectory, walk)
    ensures ok ==> files.all == Select(hash, w, source, NoFile, walk)
    ensures ok ==> forall p | p in walk :: !Seek(source.encrypted, source.tree, p).Refused?
    ensures !faulted && !ok ==> exists p | p in walk :: Seek(source.encrypted, source.tree, p).Refused?
  {
    faulted := false;
    for i := 0 to |walk|
      invariant directories.Valid() && files.Valid()
      invariant directories.all == Select(hash, w, source, NoDirectory, walk[..i])
      invariant files.all == Select(hash, w, source, NoFile, walk[..i])
      invariant forall p | p in walk[..i] :: !Seek(source.encrypted, source.tree, p).Refused?
    {
      assert walk[..i + 1][..i] == walk[..i];
      assert walk[..i + 1] == walk[..i] + [walk[i]];
      ok, faulted := CompareBack(hash, source, w, walk[i], directories, files);
      if !ok {
        return;
      }
    }
    assert walk[..|walk|] == walk;
    ok := true;
  }

  /** Looking up some walked entry of either tree in the other is refused, or an
      entry of the root is by its own path. */
  ghost predicate SomeRefused(kind: Kind, source: Tree, work: Tree)
  {
    || (exists p | p in Encrypted(kind, source, work) :: Seek(true, Encrypted(kind, source, work), p).Refused?)
    || (exists p | SourceVisible(kind, source, p) :: Seek(kind == Encrypt, work, p).Refused?)
    || (exists p | WorkVisible(kind, work, p) :: Seek(kind == Decrypt, source, p).Refused?)
  }

  /** A walked name of the plain side is refused as a path of the root. */
  ghost predicate PlainRefused(kind: Kind, source: Tree, work: Tree)
  {
    exists p :: (if kind == Encrypt then SourceVisible(kind, source, p) else WorkVisible(kind, work, p))
                && NamePaths.ViewTarget(PathClean.Join(p, '/')).None?
  }

  /** A walk of this root fails at a directory that it cannot open by its path. */
  predicate Barred(root: Tree)
  {
    exists p | p in root :: root[p].Directory? && Seek(true, root, p).Refused?
  }

  /** Walks the source against the work tree, then the work tree against the source.
      A walk of a root whose paths lead elsewhere may find anything; otherwise there is
      no verdict only for a fault or a refused path. */
  method VerifyTrees(hash: Hash, kind: Kind, source: Content, work: Content) returns (v: Verdict, ghost faulted: bool)
    requires CollisionFree(hash)
    ensures VerdictOf(hash, kind, source, work, v)
    ensures Checkable(kind, source, work) && !faulted ==> (v.Failed? ==> SomeRefused(kind, source.tree, work.tree))
    ensures Checkable(kind, source, work) && Barred(Encrypted(kind, source.tree, work.tree)) ==> v.Failed?
    ensures Checkable(kind, source, work) && PlainRefused(kind, source.tree, work.tree) ==> v.Failed?
    ensures Alike(kind, source, work) && !faulted ==> v.Pass?
    ensures v.Pass? && Checkable(kind, source, work) && PlainNames(kind, source.tree, work.tree) ==>
              Complete(kind, source.tree, work.tree)
  {
    faulted := false;
    if source.encrypted != (kind == Decrypt) || work.encrypted != (kind == Encrypt) {
      v := Failed;
    } else if !Honest(Encrypted(kind, source.tree, work.tree)) {
      v :| true;
    } else if Barred(Encrypted(kind, source.tree, work.tree)) {
      v := Failed;
      BarredIsRefused(kind, source.tree, work.tree);
    } else {
      v, faulted := WalkBoth(hash, kind, source, work);
    }
    if !faulted && Alike(kind, source, work) {
      AlikePasses(hash, kind, source, work, v);
    }
    if v.Pass? && Checkable(kind, source, work) && PlainNames(kind, source.tree, work.tree) {
      AgreedIsComplete(kind, source, work);
    }
  }

  lemma BarredIsRefused(kind: Kind, source: Tree, work: Tree)
    requires Barred(Encrypted(kind, source, work))
    ensures SomeRefused(kind, source, work)
  {
  }

  lemma AlikePasses(hash: Hash, kind: Kind, source: Content, work: Content, v: Verdict)
    requires Alike(kind, source, work) && VerdictOf(hash, kind, source, work, v)
    requires v.Failed? ==> SomeRefused(kind, source.tree, work.tree)
    ensures v.Pass?
  {
    AddressedIsHonest(Encrypted(kind, source.tree, work.tree));
  }

  /** A lookup that is refused along the walk of the source. */
  lemma SourceRefused(kind: Kind, source: Content, work: Content, p: RelPath)
    requires Checkable(kind, source, work) && SourceVisible(kind, source.tree, p)
    requires Seek(work.encrypted, work.tree, p).Refused? || Seek(source.encrypted, source.tree, p).Refused?
    ensures SomeRefused(kind, source.tree, work.tree)
  {
  }

  lemma WorkRefused(kind: Kind, source: Content, work: Content, p: RelPath)
    requires Checkable(kind, source, work) && WorkVisible(kind, work.tree, p)
    requires Seek(source.encrypted, source.tree, p).Refused?
    ensures SomeRefused(kind, source.tree, work.tree)
  {
  }

  method WalkBoth(hash: Hash, kind: Kind, source: Content, work: Content) returns (v: Verdict, ghost faulted: bool)
    requires CollisionFree(hash) && Checkable(kind, source, work)
    ensures VerdictOf(hash, kind, source, work, v)
    ensures !faulted && v.Failed? ==> SomeRefused(kind, source.tree, work.tree)
    ensures PlainRefused(kind, source.tree, work.tree) ==> v.Failed?
  {
    var s, w := source.tree, work.tree;
    var missingDirectories := new Differences();
    var missingFiles := new Differences();
    var digestMismatches := new Differences();
    var unexpectedDirectories := new Differences();
    var unexpectedFiles := new Differences();
    var sw := ListEntries(s, p => SourceVisible(kind, s, p));
    var ok;
    ok, faulted := CompareSource(hash, source, work, sw, missingDirectories, missingFiles, digestMismatches);
    if !ok {
      if !faulted {
        ghost var p :| p in sw && (Seek(work.encrypted, w, p).Refused? || Seek(source.encrypted, s, p).Refused?);
        SourceRefused(kind, source, work, p);
      }
      return Failed, faulted;
    }
    var ww := ListEntries(w, p => WorkVisible(kind, w, p));
    ok, faulted := CompareWork(hash, source, w, ww, unexpectedDirectories, unexpectedFiles);
    if !ok {
      if !faulted {
        ghost var p :| p in ww && Seek(source.encrypted, s, p).Refused?;
        WorkRefused(kind, source, work, p);
      }
      return Failed, faulted;
    }
    v := ReportError(missingDirectories, unexpectedDirectories, missingFiles, unexpectedFiles, digestMismatches);
    ReportIsVerdict(hash, kind, source, work, sw, ww, v);
  }

  method ReportError(missingDirectories: Differences, unexpectedDirectories: Differences, missingFiles: Differences,
                     unexpectedFiles: Differences, digestMismatches: Differences) returns (v: Verdict)
    requires missingDirectories.Valid() && unexpectedDirectories.Valid() && missingFiles.Valid()
    requires unexpectedFiles.Valid() && digestMismatches.Valid()
    ensures v == VerdictFrom(FullReport(TallyOf(missingDirectories.all), TallyOf(unexpectedDirectories.all),
                                        TallyOf(missingFiles.all), TallyOf(unexpectedFiles.all),
                                        TallyOf(digestMismatches.all)))
  {
    var truncated := missingDirectories.count > |missingDirectories.samples| ||
                     unexpectedDirectories.count > |unexpectedDirectories.samples| ||
                     missingFiles.count > |missingFiles.samples| ||
                     unexpectedFiles.count > |unexpectedFiles.samples| ||
                     digestMismatches.count > |digestMismatches.samples|;
    if missingDirectories.count == 0 && unexpectedDirectories.count == 0 && missingFiles.count == 0 &&
       unexpectedFiles.count == 0 && digestMismatches.count == 0 {
      return Pass;
    }
    v := Mismatch(Report(
      Tally(missingDirectories.samples, missingDirectories.count),
      Tally(unexpectedDirectories.samples, unexpectedDirectories.count),
      Tally(missingFiles.samples, missingFiles.count),
      Tally(unexpectedFiles.samples, unexpectedFiles.count),
      Tally(digestMismatches.samples, digestMismatches.count),
      truncated));
  }
}
