/** View paths and store paths: every component goes through a name cipher, and
    a checked path cannot leave the root. */
module StorePath {
  import opened PathClean
  import opened PathParser
  import opened PathContains

  datatype Outcome<T> = Done(value: T) | BadPath | CryptoError | PathTraversal

  /** A name cipher; either direction may fail. */
  datatype NameCipher = NameCipher(encrypt: string -> Outcome<string>, decrypt: string -> Outcome<string>)

  /** A root may be set up without one. */
  datatype Naming = Plain | Ciphered(cipher: NameCipher)

  /** A component the parser can neither drop nor mistake for something else. */
  predicate SafeName(part: string)
  {
    Name(part) && ':' !in part
  }

  /** What is asked of a cipher: its output is one safe component, and deciphering
      gives the name back. */
  ghost predicate Lawful(c: NameCipher)
  {
    forall part :: Name(part) && c.encrypt(part).Done? ==>
      SafeName(c.encrypt(part).value) && c.decrypt(c.encrypt(part).value) == Done(part)
  }

  predicate Special(part: string)
  {
    part == "" || part == "." || part == ".."
  }

  function One(f: string -> Outcome<string>, part: string): Outcome<string>
  {
    if Special(part) then Done(part) else if f(part).Done? then f(part) else CryptoError
  }

  function All(f: string -> Outcome<string>, parts: seq<string>): Outcome<seq<string>>
  {
    if parts == [] then Done([])
    else
      var before := All(f, parts[..|parts| - 1]);
      var last := One(f, parts[|parts| - 1]);
      if !before.Done? || !last.Done? then CryptoError else Done(before.value + [last.value])
  }

  /** One direction of the conversion. */
  function Convert(f: string -> Outcome<string>, text: string, system: char): Outcome<string>
  {
    var parsed := Parse(text, system);
    if !parsed.Path? then BadPath
    else
      var parts := All(f, Parts(parsed.info));
      if !parts.Done? then CryptoError else Done(Encode(ReplaceParts(parsed.info, parts.value)))
  }

  method ConvertParts(f: string -> Outcome<string>, parts: seq<string>) returns (result: Outcome<seq<string>>)
    ensures result == All(f, parts)
  {
    var converted := [];
    for n := 0 to |parts|
      invariant All(f, parts[..n]) == Done(converted)
    {
      assert parts[..n + 1][..n] == parts[..n];
      if parts[n] == "" || parts[n] == "." || parts[n] == ".." {
        converted := converted + [parts[n]];
      } else {
        var name := f(parts[n]);
        if !name.Done? {
          AllFails(f, parts, n);
          return CryptoError;
        }
        converted := converted + [name.value];
      }
    }
    assert parts[..|parts|] == parts;
    result := Done(converted);
  }

  lemma {:induction false} AllFails(f: string -> Outcome<string>, parts: seq<string>, n: nat)
    requires n < |parts| && !One(f, parts[n]).Done?
    ensures All(f, parts) == CryptoError
  {
    if n < |parts| - 1 {
      AllFails(f, parts[..|parts| - 1], n);
    }
  }

  lemma {:induction false} AllEach(f: string -> Outcome<string>, parts: seq<string>)
    requires All(f, parts).Done?
    ensures |All(f, parts).value| == |parts|
    ensures forall i | 0 <= i < |parts| :: One(f, parts[i]) == Done(All(f, parts).value[i])
  {
    if parts != [] {
      AllEach(f, parts[..|parts| - 1]);
    }
  }

  lemma {:induction false} AllFromEach(f: string -> Outcome<string>, parts: seq<string>, values: seq<string>)
    requires |values| == |parts| && forall i | 0 <= i < |parts| :: One(f, parts[i]) == Done(values[i])
    ensures All(f, parts) == Done(values)
  {
    if parts != [] {
      AllFromEach(f, parts[..|parts| - 1], values[..|values| - 1]);
      assert values == values[..|values| - 1] + [values[|values| - 1]];
    }
  }

  method ConvertPath(f: string -> Outcome<string>, text: string, system: char) returns (result: Outcome<string>)
    ensures result == Convert(f, text, system)
  {
    var parsed := ParsePath(text, system);
    if !parsed.Path? {
      return BadPath;
    }
    var parts := ConvertParts(f, Parts(parsed.info));
    if !parts.Done? {
      return CryptoError;
    }
    var converted := EncodePath(ReplaceParts(parsed.info, parts.value));
    result := Done(converted);
  }

  /** Without a cipher a path is left as it is, not even cleaned. */
  function Stored(naming: Naming, view: string, system: char): Outcome<string>
  {
    if naming.Plain? then Done(view) else Convert(naming.cipher.encrypt, view, system)
  }

  function Viewed(naming: Naming, store: string, system: char): Outcome<string>
  {
    if naming.Plain? then Done(store) else Convert(naming.cipher.decrypt, store, system)
  }

  method ViewPathToStorePath(view: string, naming: Naming, system: char) returns (store: Outcome<string>)
    ensures store == Stored(naming, view, system)
  {
    if naming.Plain? {
      return Done(view);
    }
    store := ConvertPath(naming.cipher.encrypt, view, system);
  }

  method StorePathToViewPath(store: string, naming: Naming, system: char) returns (view: Outcome<string>)
    ensures view == Viewed(naming, store, system)
  {
    if naming.Plain? {
      return Done(store);
    }
    view := ConvertPath(naming.cipher.decrypt, store, system);
  }

  // ------------------------------------------------------------- round trip

  /** What ciphering does to a well-made path: same shape, safe names. */
  lemma CipheredNames(c: NameCipher, info: Info)
    requires Lawful(c) && WellMade(info) && All(c.encrypt, Parts(info)).Done?
    ensures var stored := ReplaceParts(info, All(c.encrypt, Parts(info)).value);
            && WellMade(stored) && !HoldsDrive(Names(stored))
            && stored.host == info.host && stored.kind == info.kind && stored.separator == info.separator
            && All(c.encrypt, Names(info)) == Done(Names(stored))
            && All(c.decrypt, Names(stored)) == Done(Names(info))
            && (Names(stored) != [] ==> !ColonShaped(Names(stored)[0]))
  {
    var parts := Parts(info);
    var values := All(c.encrypt, parts).value;
    PartsOfWellMade(info);
    AllEach(c.encrypt, parts);
    var stored := ReplaceParts(info, values);
    if parts == Names(info) {
      CipheredEach(c, parts, values);
      ReplacedNames(info, values);
    } else {
      assert parts == [""] && values == [""] && Names(info) == [];
      assert Names(stored) == [];
    }
  }

  lemma ReplacedNames(info: Info, values: seq<string>)
    requires WellMade(info) && Parts(info) == Names(info) && |values| == |Names(info)| && Normal(values)
    ensures ReplaceParts(info, values) == info.(parts := Marked(values, info.kind))
    ensures Names(ReplaceParts(info, values)) == values
    ensures WellMade(ReplaceParts(info, values))
  {
    assert values != [] ==> values[0] != "";
    assert ([""] + values)[1..] == values;
  }

  lemma CipheredEach(c: NameCipher, parts: seq<string>, values: seq<string>)
    requires Lawful(c) && Normal(parts) && |values| == |parts|
    requires forall i | 0 <= i < |parts| :: One(c.encrypt, parts[i]) == Done(values[i])
    ensures Normal(values) && !HoldsDrive(values)
    ensures values != [] ==> !ColonShaped(values[0])
    ensures forall i | 0 <= i < |values| :: values[i] == ".." <==> parts[i] == ".."
    ensures All(c.decrypt, values) == Done(parts)
  {
    forall i | 0 <= i < |parts|
      ensures values[i] == ".." <==> parts[i] == ".."
      ensures values[i] == ".." || SafeName(values[i])
      ensures One(c.decrypt, values[i]) == Done(parts[i])
    {
      if parts[i] != ".." {
        assert Name(parts[i]);
        assert SafeName(c.encrypt(parts[i]).value);
      }
    }
    assert forall i | 0 <= i < |values| :: ':' !in values[i];
    AllFromEach(c.decrypt, values, parts);
  }

  /** A printed well-made path without a colon in its first name parses back, up to
      the separator nobody sees; nothing at all parses to the empty path. */
  lemma WellMadeComesBack(info: Info, system: char)
    requires IsSeparator(system) && WellMade(info) && !HoldsDrive(Names(info))
    requires Names(info) != [] ==> !ColonShaped(Names(info)[0])
    ensures var again := Parse(Encode(info), system);
            again.Path? && WellMade(again.info) && Names(again.info) == Names(info)
            && again.info.host == info.host
            && (Encode(info) != "" ==> again.info.kind == info.kind)
            && (Encode(info) == "" ==> info.parts == [] && info.host == "" && again.info.kind == Unknown)
            && (info.kind == LocalAbsolute || |info.parts| > 1 ==> again.info.separator == info.separator)
  {
    var names := Names(info);
    PrintedNames(info.host, names, info.separator, info.kind);
    if info.kind == LocalAbsolute {
      ReparseAbsolute(info.host, names, info.separator, system);
    } else if info.host != "" {
      assert Encode(info) == info.host;
      assert HasDrive(info.host) && info.host[2..] == "" && info.host[..2] == info.host;
      assert !HasScheme(info.host);
    } else if names != [] {
      RelativeComesBack(names, info.separator, system);
      assert Encode(info) == PathClean.Join(names, info.separator);
    } else {
      assert Encode(info) == "";
    }
  }

  lemma RelativeComesBack(names: seq<string>, separator: char, system: char)
    requires IsSeparator(system) && IsSeparator(separator) && Normal(names) && !HoldsDrive(names)
    requires names != [] && !ColonShaped(names[0])
    ensures PathClean.Join(names, separator) != ""
    ensures var again := Parse(PathClean.Join(names, separator), system);
            again.Path? && again.info.parts == names && again.info.kind == LocalRelative && again.info.host == ""
            && WellMade(again.info) && (|names| > 1 ==> again.info.separator == separator)
  {
    var text := PathClean.Join(names, separator);
    ReparseRelative(names, separator, system);
    ParsedIsWellMade(text, system);
    if |names| > 1 {
      SeparatorOfJoin(names, separator, system);
      LooksOfJoin(names, separator, 1);
    }
  }

  /** The printed ciphered path parses to names that decipher to the view's names. */
  lemma CipheredComesBack(c: NameCipher, info: Info, stored: Info, system: char)
    requires Lawful(c) && IsSeparator(system) && WellMade(info) && All(c.encrypt, Parts(info)).Done?
    requires stored == ReplaceParts(info, All(c.encrypt, Parts(info)).value)
    ensures var again := Parse(Encode(stored), system);
            && again.Path? && WellMade(again.info) && again.info.host == info.host
            && All(c.decrypt, Names(again.info)) == Done(Names(info))
            && (again.info.kind == info.kind || (info.parts == [] && again.info.kind == Unknown))
            && (info.kind == LocalAbsolute || |info.parts| > 1 ==> again.info.separator == info.separator)
  {
    CipheredNames(c, info);
    WellMadeComesBack(stored, system);
    AllEach(c.encrypt, Parts(info));
  }

  /** Ciphering and deciphering a view path gives the cleaned view path. */
  lemma ViewStoreView(c: NameCipher, view: string, system: char)
    requires Lawful(c) && IsSeparator(system)
    requires Stored(Ciphered(c), view, system).Done?
    ensures Viewed(Ciphered(c), Stored(Ciphered(c), view, system).value, system)
         == Done(Encode(Parse(view, system).info))
  {
    var info := Parse(view, system).info;
    ParsedIsWellMade(view, system);
    var stored := ReplaceParts(info, All(c.encrypt, Parts(info)).value);
    CipheredComesBack(c, info, stored, system);
    var again := Parse(Encode(stored), system).info;
    DecipheredPrints(c, info, again, Names(again));
  }

  lemma DecipheredPrints(c: NameCipher, info: Info, again: Info, ciphered: seq<string>)
    requires WellMade(info) && WellMade(again) && Names(again) == ciphered && again.host == info.host
    requires All(c.decrypt, ciphered) == Done(Names(info))
    requires again.kind == info.kind || (info.parts == [] && again.kind == Unknown)
    requires info.kind == LocalAbsolute || |info.parts| > 1 ==> again.separator == info.separator
    ensures All(c.decrypt, Parts(again)).Done?
    ensures Encode(ReplaceParts(again, All(c.decrypt, Parts(again)).value)) == Encode(info)
  {
    PartsOfWellMade(again);
    AllEach(c.decrypt, ciphered);
    if again.kind == LocalAbsolute && ciphered == [] {
      AllFromEach(c.decrypt, [""], [""]);
      assert Names(info) == [];
    } else {
      ReplacedNames(again, Names(info));
      SamePrinted(info, again.separator, again.kind);
    }
  }

  lemma SamePrinted(info: Info, separator: char, kind: Kind)
    requires WellMade(info) && (kind == info.kind || (info.parts == [] && kind == Unknown))
    requires info.kind == LocalAbsolute || |info.parts| > 1 ==> separator == info.separator
    requires info.kind == LocalAbsolute ==> kind == LocalAbsolute
    ensures Encode(Info(info.host, separator, Marked(Names(info), kind), kind)) == Encode(info)
  {
    PrintedNames(info.host, Names(info), info.separator, info.kind);
    PrintedNames(info.host, Names(info), separator, kind);
  }

  /** Different cleaned view paths get different store paths. */
  lemma StorePathsDiffer(c: NameCipher, v: string, w: string, system: char)
    requires Lawful(c) && IsSeparator(system)
    requires Stored(Ciphered(c), v, system).Done? && Stored(Ciphered(c), w, system).Done?
    ensures Stored(Ciphered(c), v, system) == Stored(Ciphered(c), w, system)
        ==> Encode(Parse(v, system).info) == Encode(Parse(w, system).info)
  {
    ViewStoreView(c, v, system);
    ViewStoreView(c, w, system);
  }

  // ------------------------------------------------------------ the checked path

  predicate SafeRelative(info: Info)
  {
    Encode(info) == "" ||
    (info.kind == LocalRelative && info.host == "" && forall i | 0 <= i < |Parts(info)| :: !Special(Parts(info)[i]))
  }

  method IsSafeRelativeStorePath(info: Info) returns (safe: bool)
    ensures safe <==> SafeRelative(info)
  {
    var text := EncodePath(info);
    if text == "" {
      return true;
    }
    if info.kind != LocalRelative || info.host != "" {
      return false;
    }
    var parts := Parts(info);
    for i := 0 to |parts|
      invariant forall k | 0 <= k < i :: !Special(parts[k])
    {
      if parts[i] == "" || parts[i] == "." || parts[i] == ".." {
        return false;
      }
    }
    return true;
  }

  /** A store path that parses to nothing but plain names. */
  predicate SafeStore(store: string, system: char)
  {
    Parse(store, system).Path? && SafeRelative(Parse(store, system).info)
  }

  /** The full path under a root. */
  function Full(root: Info, store: string, system: char): Info
    requires Parse(store, system).Path?
  {
    JoinParts(root, Parts(Parse(store, system).info))
  }

  /** A root "." has no components, so only itself is found to be inside it. */
  predicate Reaches(root: Info, store: string, system: char)
    requires Parse(store, system).Path?
  {
    root.parts != [] || Parts(Parse(store, system).info) == []
  }

  lemma SafeParts(store: string, system: char)
    requires IsSeparator(system) && SafeStore(store, system)
    ensures var info := Parse(store, system).info;
            Parts(info) == Names(info) && AllNames(Names(info))
  {
    var info := Parse(store, system).info;
    ParsedIsWellMade(store, system);
    PartsOfWellMade(info);
    if Encode(info) == "" {
      PrintedNames(info.host, Names(info), info.separator, info.kind);
    }
  }

  /** After the safety test the containment test can only fail for a root without
      components: the two agree. */
  lemma ContainmentAgrees(root: Info, store: string, system: char)
    requires IsSeparator(system) && WellMade(root) && SafeStore(store, system)
    ensures Contains(root, Full(root, store, system)) <==> Reaches(root, store, system)
  {
    SafeParts(store, system);
    JoinedIsInside(root, Parts(Parse(store, system).info));
  }

  predicate AllNames(parts: seq<string>)
  {
    forall i | 0 <= i < |parts| :: Name(parts[i])
  }

  lemma JoinedIsInside(root: Info, parts: seq<string>)
    requires WellMade(root) && AllNames(parts)
    ensures Contains(root, JoinParts(root, parts)) <==> root.parts != [] || parts == []
    ensures root.parts != [] || parts == [] ==> Names(JoinParts(root, parts)) == Names(root) + parts
  {
    var full := JoinParts(root, parts);
    PartsOfWellMade(root);
    if parts == [] {
      assert full == root;
      assert Names(root) + parts == Names(root);
    } else if root.parts == [] {
      assert full.parts == parts;
    } else if root.parts == [""] {
      assert full.parts[0] == "" && full.parts[1..] == parts;
      assert parts[0] != "";
    } else {
      assert full.parts[0] == root.parts[0];
      assert Parts(full) == Parts(root) + parts;
    }
  }

  /** The checked conversion: the store path and the full path, or an error. */
  method ViewPathToStorePathCheck(root: Info, view: string, naming: Naming, allowUnsafe: bool, system: char)
    returns (store: Outcome<string>, full: Outcome<Info>)
    requires IsSeparator(system) && WellMade(root)
    ensures store.Done? <==> full.Done?
    ensures store.Done? ==> store == Stored(naming, view, system)
                            && Parse(store.value, system).Path? && full.value == Full(root, store.value, system)
    ensures !allowUnsafe ==>
              (store.Done? <==> Stored(naming, view, system).Done?
                                && SafeStore(Stored(naming, view, system).value, system)
                                && Reaches(root, Stored(naming, view, system).value, system))
    ensures allowUnsafe ==>
              (store.Done? <==> Stored(naming, view, system).Done?
                                && Parse(Stored(naming, view, system).value, system).Path?)
    ensures store.PathTraversal? <==> !store.Done? && Stored(naming, view, system).Done?
                                      && Parse(Stored(naming, view, system).value, system).Path?
    ensures store.CryptoError? <==> Stored(naming, view, system).CryptoError?
  {
    store := ViewPathToStorePath(view, naming, system);
    if !store.Done? {
      return store, BadPath;
    }
    var parsed := ParsePath(store.value, system);
    if !parsed.Path? {
      return BadPath, BadPath;
    }
    var safe := IsSafeRelativeStorePath(parsed.info);
    if !allowUnsafe && !safe {
      return PathTraversal, PathTraversal;
    }
    var info := JoinParts(root, Parts(parsed.info));
    if !allowUnsafe {
      ContainmentAgrees(root, store.value, system);
      var inside := ContainsPathInfo(root, info);
      if !inside {
        return PathTraversal, PathTraversal;
      }
    }
    full := Done(info);
  }

  method FullPathFromRelativeStorePath(root: Info, store: string, system: char) returns (full: Outcome<Info>)
    requires IsSeparator(system) && WellMade(root)
    ensures full.Done? <==> SafeStore(store, system) && Reaches(root, store, system)
    ensures full.Done? ==> full.value == Full(root, store, system)
  {
    var parsed := ParsePath(store, system);
    if !parsed.Path? {
      return BadPath;
    }
    var safe := IsSafeRelativeStorePath(parsed.info);
    if !safe {
      return PathTraversal;
    }
    var info := JoinParts(root, Parts(parsed.info));
    ContainmentAgrees(root, store, system);
    var inside := ContainsPathInfo(root, info);
    if !inside {
      return PathTraversal;
    }
    full := Done(info);
  }

  /** A checked full path: the root's parts, then names only. From everywhere it
      leads to a place under the root. */
  lemma CheckedStaysUnderRoot(root: Info, store: string, system: char, dir: seq<string>)
    requires IsSeparator(system) && WellMade(root)
    requires SafeStore(store, system) && Reaches(root, store, system)
    ensures var full := Full(root, store, system);
            var names := Names(Parse(store, system).info);
            && full.parts == root.parts + names
            && AllNames(names)
            && Names(full) == Names(root) + names
            && Resolve(dir, Names(full)) == Resolve(dir, Names(root)) + names
  {
    SafeParts(store, system);
    var names := Names(Parse(store, system).info);
    JoinedIsInside(root, names);
    ResolveSplit(dir, Names(root), names);
    EnterNames(Resolve(dir, Names(root)), names);
  }

  lemma {:induction false} EnterNames(dir: seq<string>, names: seq<string>)
    requires AllNames(names)
    ensures Resolve(dir, names) == dir + names
  {
    if names != [] {
      EnterNames(dir, names[..|names| - 1]);
    }
  }

  /** What the system is handed for an absolute root parses to that full path. */
  lemma CheckedComesBack(root: Info, store: string, system: char)
    requires IsSeparator(system) && WellMade(root) && root.kind == LocalAbsolute && !HoldsDrive(Names(root))
    requires SafeStore(store, system)
    ensures Parse(Encode(Full(root, store, system)), system) == Path(Full(root, store, system))
  {
    SafeParts(store, system);
    ParsedIsWellMade(store, system);
    JoinedComesBack(root, Names(Parse(store, system).info), system);
  }

  lemma JoinedComesBack(root: Info, names: seq<string>, system: char)
    requires IsSeparator(system) && WellMade(root) && root.kind == LocalAbsolute
    requires AllNames(names) && !HoldsDrive(Names(root)) && !HoldsDrive(names)
    ensures Parse(Encode(JoinParts(root, names)), system) == Path(JoinParts(root, names))
  {
    var all := Names(root) + names;
    NormalWithNames(Names(root), names);
    NoDriveInEither(Names(root), names);
    assert root.parts + names == Marked(all, LocalAbsolute);
    assert JoinParts(root, names) == Info(root.host, root.separator, Marked(all, LocalAbsolute), LocalAbsolute);
    PrintedNames(root.host, all, root.separator, LocalAbsolute);
    ReparseAbsolute(root.host, all, root.separator, system);
  }

  lemma NormalWithNames(a: seq<string>, names: seq<string>)
    requires Normal(a) && AllNames(names)
    ensures Normal(a + names)
  {
    var all := a + names;
    assert forall i | 0 <= i < |names| :: all[|a| + i] == names[i];
    assert forall i | |a| <= i < |all| :: Name(all[i]) by {
      forall i | |a| <= i < |all| ensures Name(all[i]) {
        assert all[i] == names[i - |a|];
      }
    }
  }

  lemma NoDriveInEither(a: seq<string>, b: seq<string>)
    requires !HoldsDrive(a) && !HoldsDrive(b)
    ensures !HoldsDrive(a + b)
  {
    forall i | 0 <= i < |a + b| ensures !DriveString((a + b)[i]) {
      if i >= |a| {
        assert (a + b)[i] == b[i - |a|];
      }
    }
  }

  /** Which view paths are safe: those that clean to a relative path without "..",
      or to nothing. */
  lemma CheckAccepts(naming: Naming, view: string, system: char)
    requires IsSeparator(system) && Parse(view, system).Path?
    requires naming.Ciphered? ==> Lawful(naming.cipher)
    requires Stored(naming, view, system).Done?
    ensures SafeStore(Stored(naming, view, system).value, system) <==>
            (Parse(view, system).info.kind != LocalAbsolute && Parse(view, system).info.host == ""
             && ".." !in Names(Parse(view, system).info))
  {
    var info := Parse(view, system).info;
    ParsedIsWellMade(view, system);
    if naming.Plain? {
      SafeOfWellMade(info);
    } else {
      var c := naming.cipher;
      CipheredNames(c, info);
      var stored := ReplaceParts(info, All(c.encrypt, Parts(info)).value);
      WellMadeComesBack(stored, system);
      UpsAreKept(c, info, Names(stored));
      SafeOfWellMade(Parse(Encode(stored), system).info);
    }
  }

  lemma UpsAreKept(c: NameCipher, info: Info, ciphered: seq<string>)
    requires Lawful(c) && WellMade(info) && All(c.encrypt, Names(info)) == Done(ciphered)
    ensures ".." in ciphered <==> ".." in Names(info)
  {
    AllEach(c.encrypt, Names(info));
    CipheredEach(c, Names(info), ciphered);
  }

  lemma SafeOfWellMade(info: Info)
    requires WellMade(info)
    ensures SafeRelative(info) <==> info.kind != LocalAbsolute && info.host == "" && ".." !in Names(info)
  {
    PartsOfWellMade(info);
    PrintedNames(info.host, Names(info), info.separator, info.kind);
    assert Names(info) != [] ==> Names(info)[0] != "";
    if info.kind == LocalRelative && info.host == "" {
      assert forall i | 0 <= i < |Names(info)| :: Special(Names(info)[i]) <==> Names(info)[i] == "..";
    }
  }
}
