/** Entries found again by path: a name read from a directory is joined to the
    directory's path, and the text goes back through the parser and the name
    cipher before the system sees it. All of it on a system whose separator is '/'. */
module NamePaths {
  import opened PathClean
  import opened PathContains
  import opened PathParser
  import opened StorePath
  import opened Wrappers

  const SYSTEM := '/'

  /** The only relative text that a longer one turns into a server name. */
  const SERVER_PREFIX := "\\\\?\\\\"

  /** What a directory entry can be called. */
  predicate Genuine(name: string)
  {
    name != "" && name != "." && name != ".." && '/' !in name
  }

  /** A name that the parser leaves whole, wherever but in front. */
  predicate PlainName(name: string)
  {
    Name(name) && !DriveString(name)
  }

  /** Names the parser leaves whole, the first of them not taken for a scheme or a drive. */
  predicate PlainPath(path: seq<string>)
  {
    && (forall i | 0 <= i < |path| :: PlainName(path[i]))
    && (path != [] ==> !ColonShaped(path[0]))
  }

  /** A name joined to the path of its directory. */
  function Child(text: string, name: string): string
  {
    if text == "" then name else text + "/" + name
  }

  /** The names a relative view path stands for, or nothing where it is refused. */
  function ViewTarget(text: string): Option<seq<string>>
  {
    var parsed := Parse(text, SYSTEM);
    if parsed.Path? && parsed.info.kind != LocalAbsolute && parsed.info.host == "" && ".." !in Names(parsed.info)
    then Some(Names(parsed.info)) else None
  }

  /** The stored names that are looked up under the root for a view path. */
  function StoreTarget(naming: Naming, text: string): Option<seq<string>>
  {
    var stored := Stored(naming, text, SYSTEM);
    if stored.Done? && SafeStore(stored.value, SYSTEM)
    then Some(Names(Parse(stored.value, SYSTEM).info)) else None
  }

  function StoredName(naming: Naming, name: string): Outcome<string>
  {
    if naming.Plain? then Done(name) else naming.cipher.encrypt(name)
  }

  function StoredNames(naming: Naming, names: seq<string>): Outcome<seq<string>>
  {
    if naming.Plain? then Done(names) else All(naming.cipher.encrypt, names)
  }

  // --------------------------------------------------------------- view paths

  lemma TargetIsNormal(text: string)
    requires ViewTarget(text).Some?
    ensures Normal(ViewTarget(text).value) && AllNames(ViewTarget(text).value) && !HoldsDrive(ViewTarget(text).value)
    ensures !HasDrive(text) && !HasScheme(text) && !Unc(text)
    ensures ViewTarget(text).value == Cleaned(text)
  {
    ParsedIsWellMade(text, SYSTEM);
    if text != "" {
      NamesOfParsed(text, SYSTEM);
    } else {
      assert Components("", text) == [];
    }
  }

  /** The joined path of an entry leads back to the entry exactly if its names are plain. */
  lemma JoinedLeadsBack(path: seq<string>)
    requires forall i | 0 <= i < |path| :: Genuine(path[i])
    ensures ViewTarget(PathClean.Join(path, '/')) == Some(path) <==> PlainPath(path)
  {
    var text := PathClean.Join(path, '/');
    if PlainPath(path) && path != [] {
      assert Normal(path);
      ReparseRelative(path, '/', SYSTEM);
    }
    if ViewTarget(text) == Some(path) && path != [] {
      TargetIsNormal(text);
      assert forall i | 0 <= i < |path| :: PlainName(path[i]);
      ReparseRelative(path, '/', SYSTEM);
    }
  }

  lemma {:induction false} ComponentsAround(cur: string, s: string, t: string)
    ensures Components(cur, s + "/" + t) == Components(cur, s) + Components("", t)
    decreases s
  {
    if s == "" {
      assert (s + "/" + t)[0] == '/' && (s + "/" + t)[1..] == t;
    } else {
      assert (s + "/" + t)[0] == s[0] && (s + "/" + t)[1..] == s[1..] + "/" + t;
      if IsSeparator(s[0]) {
        ComponentsAround("", s[1..], t);
      } else {
        ComponentsAround(cur + [s[0]], s[1..], t);
      }
    }
  }

  lemma {:induction false} CleanOntoBoth(parts: seq<string>, a: seq<string>, b: seq<string>)
    ensures CleanOnto(parts, a + b) == CleanOnto(CleanOnto(parts, a), b)
    decreases a
  {
    if a == [] {
      assert a + b == b;
    } else {
      assert (a + b)[1..] == a[1..] + b;
      CleanOntoBoth(Push(parts, a[0]), a[1..], b);
    }
  }

  lemma ComponentsOfName(name: string)
    requires Name(name)
    ensures Components("", name) == [name]
  {
    SplitOfJoin([name], '/');
  }

  /** The parser's view of the longer text is that of the shorter one, with one exception. */
  lemma LooksOfChild(text: string, name: string)
    requires text != "" && !HasDrive(text) && !HasScheme(text) && !Unc(text)
    ensures var child := text + "/" + name;
            !HasDrive(child) && !HasScheme(child) && (Unc(child) <==> text == SERVER_PREFIX) && child[0] == text[0]
  {
    var child := text + "/" + name;
    assert forall j | 0 <= j < |text| :: child[j] == text[j];
    assert child[|text|] == '/' && !SchemeChar('/');
    forall i | 1 <= i < |child| ensures !ColonAfterWord(child, i) {
      if i < |text| {
        assert !ColonAfterWord(text, i);
      }
    }
  }

  lemma CleanedOfChild(text: string, name: string)
    requires Name(name)
    ensures Cleaned(text + "/" + name) == Cleaned(text) + [name]
  {
    ComponentsAround("", text, name);
    ComponentsOfName(name);
    CleanOntoBoth([], Components("", text), [name]);
    assert CleanOnto(Push(Cleaned(text), name), [name][1..]) == Push(Cleaned(text), name);
  }

  lemma DriveInLast(names: seq<string>, name: string)
    requires !HoldsDrive(names)
    ensures HoldsDrive(names + [name]) <==> DriveString(name)
  {
    var all := names + [name];
    assert all[|names|] == name;
    assert forall i | 0 <= i < |names| :: all[i] == names[i];
  }

  lemma ViewChildBelow(text: string, name: string)
    requires text != "" && ViewTarget(text).Some? && Name(name)
    ensures ViewTarget(Child(text, name)) ==
            if DriveString(name) || text == SERVER_PREFIX then None else Some(ViewTarget(text).value + [name])
  {
    var child := Child(text, name);
    TargetIsNormal(text);
    LooksOfChild(text, name);
    CleanedOfChild(text, name);
    DriveInLast(Cleaned(text), name);
    if !DriveString(name) && text != SERVER_PREFIX {
      NamesOfParsed(child, SYSTEM);
      assert KindOf(child) == KindOf(text) == LocalRelative;
      assert ".." !in Cleaned(text) + [name];
    }
  }

  /** Names that come back from the longer path: plain ones, at the top not shaped
      like a scheme or a drive. */
  predicate Follows(text: string, name: string)
  {
    PlainName(name) && (text == "" ==> !ColonShaped(name)) && text != SERVER_PREFIX
  }

  /** Below a directory that is found by its path, an entry is found by the longer
      path exactly if its name follows. */
  lemma ViewChild(text: string, name: string)
    requires ViewTarget(text).Some? && Genuine(name)
    ensures ViewTarget(Child(text, name)) == Some(ViewTarget(text).value + [name])
       <==> Follows(text, name)
  {
    if text == "" {
      JoinedLeadsBack([name]);
      assert PathClean.Join([name], '/') == name && [] + [name] == [name];
      assert PlainPath([name]) <==> PlainName(name) && !ColonShaped(name);
    } else if Name(name) {
      ViewChildBelow(text, name);
    } else if ViewTarget(Child(text, name)).Some? {
      TargetIsNormal(Child(text, name));
      var names := ViewTarget(text).value + [name];
      assert !Name(names[|names| - 1]);
    }
  }

  // -------------------------------------------------------------- store paths

  /** With a lawful cipher the stored names are the ciphered names of the view path. */
  lemma StoreTargetOfView(naming: Naming, text: string)
    requires naming.Ciphered? ==> Lawful(naming.cipher)
    ensures StoreTarget(naming, text) ==
            if ViewTarget(text).Some? && StoredNames(naming, ViewTarget(text).value).Done?
            then Some(StoredNames(naming, ViewTarget(text).value).value) else None
  {
    if Parse(text, SYSTEM).Path? {
      ParsedIsWellMade(text, SYSTEM);
      if naming.Plain? {
        SafeOfWellMade(Parse(text, SYSTEM).info);
      } else {
        CipheredTarget(naming.cipher, text);
      }
    }
  }

  lemma CipheredTarget(c: NameCipher, text: string)
    requires Lawful(c) && Parse(text, SYSTEM).Path?
    ensures StoreTarget(Ciphered(c), text) ==
            if ViewTarget(text).Some? && All(c.encrypt, ViewTarget(text).value).Done?
            then Some(All(c.encrypt, ViewTarget(text).value).value) else None
  {
    var info := Parse(text, SYSTEM).info;
    ParsedIsWellMade(text, SYSTEM);
    PartsOfWellMade(info);
    if All(c.encrypt, Parts(info)).Done? {
      CheckAccepts(Ciphered(c), text, SYSTEM);
      var stored := ReplaceParts(info, All(c.encrypt, Parts(info)).value);
      CipheredNames(c, info);
      WellMadeComesBack(stored, SYSTEM);
    }
  }

  lemma AllSnoc(f: string -> Outcome<string>, parts: seq<string>, last: string)
    ensures All(f, parts + [last]) ==
            if All(f, parts).Done? && One(f, last).Done?
            then Done(All(f, parts).value + [One(f, last).value]) else CryptoError
  {
    assert (parts + [last])[..|parts|] == parts;
  }

  /** Names that are stored alike are alike. */
  lemma StoredApart(c: NameCipher, a: seq<string>, b: seq<string>)
    requires Lawful(c) && AllNames(a) && |a| == |b|
    requires forall i | 0 <= i < |b| :: c.encrypt(b[i]).Done? && c.decrypt(c.encrypt(b[i]).value) == Done(b[i])
    requires All(c.encrypt, a).Done? && |All(c.encrypt, a).value| == |a|
    requires forall i | 0 <= i < |b| :: All(c.encrypt, a).value[i] == c.encrypt(b[i]).value
    ensures a == b
  {
    AllEach(c.encrypt, a);
    forall i | 0 <= i < |a| ensures a[i] == b[i] {
      assert Name(a[i]);
      assert c.decrypt(c.encrypt(a[i]).value) == Done(a[i]);
    }
  }

  /** A name that the cipher gives back, as every deciphered name is. */
  predicate Restored(naming: Naming, name: string)
  {
    Genuine(name) && StoredName(naming, name).Done? &&
    (naming.Ciphered? ==> naming.cipher.decrypt(naming.cipher.encrypt(name).value) == Done(name))
  }

  /** The same under the root: below a directory found by its path, the longer
      path leads to the entry that was read exactly if its name follows. */
  lemma StoreChild(naming: Naming, text: string, name: string)
    requires naming.Ciphered? ==> Lawful(naming.cipher)
    requires StoreTarget(naming, text).Some? && Restored(naming, name)
    ensures StoreTarget(naming, Child(text, name))
         == Some(StoreTarget(naming, text).value + [StoredName(naming, name).value])
       <==> Follows(text, name)
  {
    StoreTargetOfView(naming, text);
    StoreTargetOfView(naming, Child(text, name));
    ViewChild(text, name);
    TargetIsNormal(text);
    if naming.Ciphered? {
      CipheredChild(naming.cipher, text, name);
    }
  }

  lemma CipheredChild(c: NameCipher, text: string, name: string)
    requires Lawful(c) && ViewTarget(text).Some? && All(c.encrypt, ViewTarget(text).value).Done?
    requires Restored(Ciphered(c), name)
    ensures var q := ViewTarget(text).value;
            var child := ViewTarget(Child(text, name));
            child.Some? ==>
              (child.value == q + [name] <==>
               All(c.encrypt, child.value) == Done(All(c.encrypt, q).value + [c.encrypt(name).value]))
  {
    var q := ViewTarget(text).value;
    AllSnoc(c.encrypt, q, name);
    TargetIsNormal(text);
    AllEach(c.encrypt, q);
    var child := ViewTarget(Child(text, name));
    if child.Some? && All(c.encrypt, child.value) == Done(All(c.encrypt, q).value + [c.encrypt(name).value]) {
      TargetIsNormal(Child(text, name));
      AllEach(c.encrypt, child.value);
      var whole := q + [name];
      forall i | 0 <= i < |whole|
        ensures c.encrypt(whole[i]).Done? && c.decrypt(c.encrypt(whole[i]).value) == Done(whole[i])
        ensures All(c.encrypt, child.value).value[i] == c.encrypt(whole[i]).value
      {
        if i < |q| {
          assert Name(q[i]);
        }
      }
      StoredApart(c, child.value, whole);
    }
  }

  /** A name of two plain names around a backslash is looked up as a name in a directory. */
  lemma BackslashSplits(x: string, y: string)
    requires PlainPath([x, y])
    ensures ViewTarget(x + "\\" + y) == Some([x, y]) == ViewTarget(Child(x, y))
  {
    ReparseRelative([x, y], '\\', SYSTEM);
    ReparseRelative([x, y], '/', SYSTEM);
    assert [x, y][1..] == [y];
    assert PathClean.Join([x, y], '\\') == x + ['\\'] + y;
    assert PathClean.Join([x, y], '/') == x + ['/'] + y;
  }
}
