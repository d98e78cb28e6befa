/** Directory trees as the transfer code sees them, and when two of them agree. */
module Trees {
  import opened Bytes
  import NamePaths
  import PathClean
  import Wrappers

  /** A path relative to the top of the tree, one element a component. */
  type RelPath = seq<string>

  datatype Node = Directory | File(bytes: seq<byte>)

  /** Every entry below the top directory, by its path. An encrypted tree is
      described by its view: decrypted names, decrypted contents. */
  type Tree = map<RelPath, Node>

  datatype Content = Content(encrypted: bool, tree: Tree)

  datatype Kind = Encrypt | Decrypt

  const MARKER_DIR := ".transfer_v3"
  const CONFIG_FILE := "_cryption.json"
  const WORK_INFIX := ".safe_disk.work."
  const BACKUP_INFIX := ".safe_disk.backup."

  predicate Contains(s: string, sub: string)
  {
    |sub| <= |s| && (s[..|sub|] == sub || (s != [] && Contains(s[1..], sub)))
  }

  predicate SkipName(name: string)
  {
    name == MARKER_DIR || name == CONFIG_FILE || Contains(name, WORK_INFIX) || Contains(name, BACKUP_INFIX)
  }

  /** The directory at `dir` is itself the top of an encrypted root. */
  predicate HasRootConfig(t: Tree, dir: RelPath)
  {
    dir + [CONFIG_FILE] in t && t[dir + [CONFIG_FILE]].File?
  }

  /** The entries a walk of a plain tree visits: no component is a reserved
      name, and no directory on the way is an encrypted root of its own. */
  predicate PlainVisible(t: Tree, p: RelPath)
  {
    && p in t && p != []
    && (forall k | 0 <= k < |p| :: !SkipName(p[k]))
    && (forall k | 0 < k <= |p| :: !HasRootConfig(t, p[..k]))
  }

  /** The entries a walk of an encrypted root visits. */
  predicate RootVisible(t: Tree, p: RelPath)
  {
    && p in t && p != []
    && (forall k | 0 <= k < |p| :: !SkipName(p[k]))
  }

  predicate SourceVisible(kind: Kind, t: Tree, p: RelPath)
  {
    if kind == Encrypt then PlainVisible(t, p) else RootVisible(t, p)
  }

  predicate WorkVisible(kind: Kind, t: Tree, p: RelPath)
  {
    if kind == Encrypt then RootVisible(t, p) else PlainVisible(t, p)
  }

  // ------------------------------------------------- what is left out, in full

  predicate StandsAt(name: string, text: string, i: int)
  {
    0 <= i <= |name| - |text| && name[i..i + |text|] == text
  }

  /** The text stands somewhere in the name. */
  ghost predicate Holds(name: string, text: string)
  {
    exists i :: StandsAt(name, text, i)
  }

  lemma {:induction false} ContainsIsHolds(name: string, text: string)
    ensures Contains(name, text) <==> Holds(name, text)
  {
    if text <= name {
      assert StandsAt(name, text, 0);
    } else if name != [] {
      ContainsIsHolds(name[1..], text);
      if i :| StandsAt(name[1..], text, i) {
        assert StandsAt(name, text, i + 1);
      }
      if i :| StandsAt(name, text, i) {
        assert StandsAt(name[1..], text, i - 1);
      }
    }
  }

  /** The names that a conversion keeps for itself. */
  ghost predicate Reserved(name: string)
  {
    || name == ".transfer_v3" || name == "_cryption.json"
    || Holds(name, ".safe_disk.work.") || Holds(name, ".safe_disk.backup.")
  }

  /** The entry is, or lies in, a directory that holds a configuration file. */
  predicate InRootOfItsOwn(t: Tree, p: RelPath)
  {
    exists k :: 0 < k <= |p| && p[..k] + ["_cryption.json"] in t && t[p[..k] + ["_cryption.json"]].File?
  }

  /** The entries that nobody promises to convert. */
  ghost predicate LeftOut(plain: bool, t: Tree, p: RelPath)
  {
    || p == [] || (exists k :: 0 <= k < |p| && Reserved(p[k]))
    || (plain && InRootOfItsOwn(t, p))
  }

  lemma SkippedIsReserved(name: string)
    ensures SkipName(name) <==> Reserved(name)
  {
    ContainsIsHolds(name, ".safe_disk.work.");
    ContainsIsHolds(name, ".safe_disk.backup.");
  }

  /** The walks visit every entry but those. */
  lemma WalksVisit(kind: Kind, t: Tree, p: RelPath)
    ensures SourceVisible(kind, t, p) <==> p in t && !LeftOut(kind == Encrypt, t, p)
    ensures WorkVisible(kind, t, p) <==> p in t && !LeftOut(kind == Decrypt, t, p)
  {
    forall k | 0 <= k < |p| ensures SkipName(p[k]) <==> Reserved(p[k]) {
      SkippedIsReserved(p[k]);
    }
  }

  /** Every entry of the source that is not left out is in the work tree, with its
      kind and bytes, and the work tree holds no other. */
  ghost predicate Complete(kind: Kind, source: Tree, work: Tree)
  {
    && (forall p | p in source && !LeftOut(kind == Encrypt, source, p) :: p in work && work[p] == source[p])
    && (forall p | p in work && !LeftOut(kind == Decrypt, work, p) ::
          p in source && (source[p].Directory? <==> work[p].Directory?))
  }

  // ---------------------------------------------------------------- agreement

  datatype Sought = Refused | Absent | Entry(node: Node)

  /** Looking up, in one tree, the path of an entry of the other. A plain tree is
      asked for just that path. In an encrypted root the names are joined and parsed
      again, and what the parser makes of them is looked up. */
  function Seek(encrypted: bool, t: Tree, p: RelPath): Sought
  {
    var target := if encrypted then NamePaths.ViewTarget(PathClean.Join(p, '/')) else Wrappers.Some(p);
    if target.None? then Refused
    else if target.value == [] then Entry(Directory)
    else if target.value in t then Entry(t[target.value])
    else Absent
  }

  /** The joined path is refused or leads to these names. */
  predicate HonestPath(p: RelPath)
  {
    var target := NamePaths.ViewTarget(PathClean.Join(p, '/'));
    target.None? || target == Wrappers.Some(p)
  }

  /** No entry's own path leads elsewhere. */
  predicate Honest(t: Tree)
  {
    forall p | p in t :: HonestPath(p)
  }

  /** Every entry's own joined path leads to the entry. */
  predicate Addressed(t: Tree)
  {
    forall p | p in t :: NamePaths.PlainPath(p)
  }

  lemma AddressedIsHonest(t: Tree)
    requires Addressed(t)
    ensures Honest(t) && forall p | p in t :: !Seek(true, t, p).Refused?
  {
    forall p | p in t ensures HonestPath(p) && !Seek(true, t, p).Refused? {
      JoinedPlain(p);
    }
  }

  lemma JoinedPlain(p: RelPath)
    requires NamePaths.PlainPath(p)
    ensures NamePaths.ViewTarget(PathClean.Join(p, '/')) == Wrappers.Some(p)
  {
    forall i | 0 <= i < |p| ensures NamePaths.Genuine(p[i]) {
      assert NamePaths.PlainName(p[i]);
    }
    NamePaths.JoinedLeadsBack(p);
  }

  function Encrypted(kind: Kind, source: Tree, work: Tree): Tree
  {
    if kind == Decrypt then source else work
  }

  predicate SameKind(found: Sought, node: Node)
  {
    found.Entry? && (found.node.Directory? <==> node.Directory?)
  }

  /** What verification finds: every source entry it walks is looked up in the work
      tree and has the same kind and bytes there, and every entry of the work tree is
      looked up in the source and has the same kind. Of an encrypted root with an entry
      whose own path leads elsewhere nothing is said. */
  ghost predicate Agrees(kind: Kind, source: Content, work: Content)
  {
    && source.encrypted == (kind == Decrypt)
    && work.encrypted == (kind == Encrypt)
    && (Honest(Encrypted(kind, source.tree, work.tree)) ==> FoundAlike(kind, source.tree, work.tree))
  }

  /** The flags are those of the conversion, and no path of the root leads elsewhere. */
  predicate Checkable(kind: Kind, source: Content, work: Content)
  {
    && source.encrypted == (kind == Decrypt) && work.encrypted == (kind == Encrypt)
    && Honest(Encrypted(kind, source.tree, work.tree))
  }

  ghost predicate FoundAlike(kind: Kind, source: Tree, work: Tree)
  {
    && (forall p | SourceVisible(kind, source, p) :: Seek(kind == Encrypt, work, p) == Entry(source[p]))
    && (forall p | WorkVisible(kind, work, p) :: SameKind(Seek(kind == Decrypt, source, p), work[p]))
  }

  /** Two trees that verification can compare, is refused nothing of, and finds alike. */
  ghost predicate Alike(kind: Kind, source: Content, work: Content)
  {
    && Checkable(kind, source, work) && Addressed(Encrypted(kind, source.tree, work.tree))
    && FoundAlike(kind, source.tree, work.tree)
  }

  /** What a conversion promises: every walked source entry is in the work tree
      with the same kind and bytes, and the work tree holds nothing else. */
  ghost predicate SameTree(kind: Kind, source: Tree, work: Tree)
  {
    && (forall p | SourceVisible(kind, source, p) :: p in work && work[p] == source[p])
    && (forall p | WorkVisible(kind, work, p) :: p in source && (source[p].Directory? <==> work[p].Directory?))
  }

  lemma SameTreeIsComplete(kind: Kind, source: Tree, work: Tree)
    ensures SameTree(kind, source, work) <==> Complete(kind, source, work)
  {
    forall p ensures SourceVisible(kind, source, p) <==> p in source && !LeftOut(kind == Encrypt, source, p) {
      WalksVisit(kind, source, p);
    }
    forall p ensures WorkVisible(kind, work, p) <==> p in work && !LeftOut(kind == Decrypt, work, p) {
      WalksVisit(kind, work, p);
    }
  }

  /** The plain side has no visible name that the parser would take apart or refuse. */
  ghost predicate PlainNames(kind: Kind, source: Tree, work: Tree)
  {
    if kind == Encrypt then forall p | SourceVisible(kind, source, p) :: NamePaths.PlainPath(p)
    else forall p | WorkVisible(kind, work, p) :: NamePaths.PlainPath(p)
  }

  lemma SeekPlain(encrypted: bool, t: Tree, p: RelPath)
    requires p != [] && (encrypted ==> NamePaths.PlainPath(p))
    ensures Seek(encrypted, t, p) == if p in t then Entry(t[p]) else Absent
  {
    if encrypted {
      JoinedPlain(p);
    }
  }

  /** If the parser leaves the names on the plain side whole, the trees are the same
      exactly if verification finds them alike. If it leaves those of the root whole,
      they are the same exactly if both hold. */
  lemma SameTreeIsFoundAlike(kind: Kind, source: Tree, work: Tree)
    ensures PlainNames(kind, source, work) ==> (SameTree(kind, source, work) <==> FoundAlike(kind, source, work))
    ensures Addressed(Encrypted(kind, source, work)) ==>
              (SameTree(kind, source, work) <==> FoundAlike(kind, source, work) && PlainNames(kind, source, work))
  {
    if PlainNames(kind, source, work) {
      forall p | SourceVisible(kind, source, p)
        ensures Seek(kind == Encrypt, work, p) == if p in work then Entry(work[p]) else Absent
      {
        SeekPlain(kind == Encrypt, work, p);
      }
      forall p | WorkVisible(kind, work, p)
        ensures Seek(kind == Decrypt, source, p) == if p in source then Entry(source[p]) else Absent
      {
        SeekPlain(kind == Decrypt, source, p);
      }
    }
  }

  /** The condition is needed: a plain file "a\b" beside the same file in a directory
      is found in the root by the other's path, and the copy without it passes. */
  lemma BackslashPasses(bytes: seq<byte>)
    ensures var work: Tree := map[["a"] := Directory, ["a", "b"] := File(bytes)];
            var source := work[["a\\b"] := File(bytes)];
            && Addressed(work) && Honest(work) && Agrees(Encrypt, Content(false, source), Content(true, work))
            && !SameTree(Encrypt, source, work)
  {
    var work: Tree := map[["a"] := Directory, ["a", "b"] := File(bytes)];
    var source := work[["a\\b"] := File(bytes)];
    PlainLetters();
    AddressedIsHonest(work);
    ShortNamesShow(source);
    SplitFound(work, bytes);
    assert PlainVisible(source, ["a\\b"]);
    OthersFound(source, work);
  }

  lemma OthersFound(source: Tree, work: Tree)
    requires Addressed(work) && [] !in work
    requires forall p | p in work :: p in source && source[p] == work[p]
    ensures forall p | p in work :: Seek(true, work, p) == Entry(work[p]) && Seek(false, source, p) == Entry(work[p])
  {
    forall p | p in work ensures Seek(true, work, p) == Entry(work[p]) && Seek(false, source, p) == Entry(work[p]) {
      SeekPlain(true, work, p);
    }
  }

  lemma SplitFound(work: Tree, bytes: seq<byte>)
    requires ["a", "b"] in work && work[["a", "b"]] == File(bytes)
    ensures Seek(true, work, ["a\\b"]) == Entry(File(bytes))
  {
    PlainLetters();
    NamePaths.BackslashSplits("a", "b");
    assert "a" + "\\" + "b" == "a\\b";
    assert PathClean.Join(["a\\b"], '/') == "a\\b";
  }

  lemma PlainLetters()
    ensures NamePaths.PlainPath(["a"]) && NamePaths.PlainPath(["a", "b"])
  {
    assert NamePaths.PlainName("a") && NamePaths.PlainName("b");
  }

  lemma ShortNamesShow(source: Tree)
    requires forall p | p in source :: p != [] && forall i | 0 <= i < |p| :: |p[i]| <= 3
    ensures forall p | p in source :: PlainVisible(source, p)
  {
    forall p | p in source ensures PlainVisible(source, p) {
      forall k | 0 <= k < |p| ensures !SkipName(p[k]) {
        ShortHolds(p[k], WORK_INFIX);
        ShortHolds(p[k], BACKUP_INFIX);
      }
      forall k | 0 < k <= |p| ensures !HasRootConfig(source, p[..k]) {
        assert (p[..k] + [CONFIG_FILE])[k] == CONFIG_FILE;
      }
    }
  }

  lemma ShortHolds(s: string, sub: string)
    requires |s| < |sub|
    ensures !Contains(s, sub)
  {
  }

  /** What verification lets pass is complete. */
  lemma AgreedIsComplete(kind: Kind, source: Content, work: Content)
    requires Agrees(kind, source, work) && Checkable(kind, source, work)
    requires PlainNames(kind, source.tree, work.tree)
    ensures SameTree(kind, source.tree, work.tree) && Complete(kind, source.tree, work.tree)
  {
    SameTreeIsFoundAlike(kind, source.tree, work.tree);
    SameTreeIsComplete(kind, source.tree, work.tree);
  }
}
