/** The path parser: classifying a path, splitting and cleaning it in one pass,
    printing it back, and comparing two parsed paths. */
module PathParser {
  import opened PathClean

  predicate Letter(c: char)
  {
    'A' <= c <= 'Z' || 'a' <= c <= 'z'
  }

  predicate SchemeChar(c: char)
  {
    Letter(c) || '0' <= c <= '9' || c == '+' || c == '-' || c == '.'
  }

  /** A letter, then scheme characters up to a colon at `i`. */
  predicate ColonAfterWord(s: string, i: int)
  {
    1 <= i < |s| && s[i] == ':' && Letter(s[0]) && forall j | 1 <= j < i :: SchemeChar(s[j])
  }

  /** A colon after one letter names a drive, after more a URI scheme. */
  predicate HasScheme(s: string)
  {
    exists i :: 2 <= i < |s| && ColonAfterWord(s, i)
  }

  predicate HasDrive(s: string)
  {
    ColonAfterWord(s, 1)
  }

  predicate DriveString(s: string)
  {
    |s| == 2 && HasDrive(s)
  }

  predicate DoubleBackslash(s: string)
  {
    |s| >= 2 && s[0] == '\\' && s[1] == '\\'
  }

  /** The prefix of extended-length paths. */
  predicate Extended(s: string)
  {
    DoubleBackslash(s) && |s| >= 4 && s[2] == '?' && s[3] == '\\'
  }

  /** What an extended-length path goes on with: a drive, or a backslash and a server. */
  predicate DriveOrServer(s: string)
    requires Extended(s)
  {
    |s| >= 6 && ((Letter(s[4]) && s[5] == ':') || (s[4] == '\\' && s[5] != '\\'))
  }

  /** A server name or an extended-length path. Other texts with the prefix of
      extended-length paths are relative ones. */
  predicate Unc(s: string)
  {
    DoubleBackslash(s) && (Extended(s) ==> DriveOrServer(s))
  }

  method FindUnc(path: string) returns (found: bool)
    ensures found <==> Unc(path)
  {
    if |path| < 2 || path[0] != '\\' || path[1] != '\\' {
      return false;
    }
    if |path| >= 4 && path[2] == '?' && path[3] == '\\' {
      if |path| >= 6 && path[5] == ':' && Letter(path[4]) {
        return true;
      }
      if |path| >= 6 && path[4] == '\\' {
        var serverEnd := 5;
        while serverEnd < |path| && path[serverEnd] != '\\'
          invariant 5 <= serverEnd <= |path|
          invariant serverEnd > 5 ==> path[5] != '\\'
        {
          serverEnd := serverEnd + 1;
        }
        return serverEnd > 5;
      }
      return false;
    }
    return true;
  }

  method FindSchemeEnd(path: string) returns (end: int)
    ensures end == -1 <==> !HasScheme(path)
    ensures end != -1 ==> 2 <= end < |path| && ColonAfterWord(path, end)
  {
    if |path| == 0 {
      return -1;
    }
    if !Letter(path[0]) {
      return -1;
    }
    var i := 1;
    while i < |path|
      invariant 1 <= i <= |path|
      invariant forall j | 1 <= j < i :: SchemeChar(path[j])
    {
      var c := path[i];
      if c == ':' {
        if i == 1 {
          return -1;
        }
        assert ColonAfterWord(path, i);
        return i;
      }
      if !SchemeChar(c) {
        return -1;
      }
      i := i + 1;
    }
    return -1;
  }

  // ---------------------------------------------------------------- parsing

  datatype Kind = Unknown | LocalRelative | LocalAbsolute

  /** A parsed path. An absolute path has an empty first part. */
  datatype Info = Info(host: string, separator: char, parts: seq<string>, kind: Kind)

  datatype Parsed = Path(info: Info) | DriveInside | DriveRelative | OtherForm

  /** The drive of a path, or nothing. */
  function DriveOf(path: string): string
  {
    if HasDrive(path) then path[..2] else ""
  }

  /** What follows the drive. */
  function AfterDrive(path: string): string
  {
    if HasDrive(path) then path[2..] else path
  }

  function KindOf(path: string): Kind
  {
    var rest := AfterDrive(path);
    if rest != "" && (rest[0] == '/' || (rest[0] == '\\' && HasDrive(path)))
    then LocalAbsolute else LocalRelative
  }

  function FirstSeparator(s: string, otherwise: char): char
  {
    if s == "" then otherwise else if IsSeparator(s[0]) then s[0] else FirstSeparator(s[1..], otherwise)
  }

  /** Split first, clean afterwards: what the one pass must compute. */
  function Cleaned(s: string): seq<string>
  {
    CleanOnto([], Components("", s))
  }

  predicate HoldsDrive(parts: seq<string>)
  {
    exists i :: 0 <= i < |parts| && DriveString(parts[i])
  }

  function Marked(names: seq<string>, kind: Kind): seq<string>
  {
    if kind == LocalAbsolute then [""] + names else names
  }

  function InfoOf(path: string, system: char): Info
  {
    Info(DriveOf(path), FirstSeparator(AfterDrive(path), system),
         Marked(Cleaned(AfterDrive(path)), KindOf(path)), KindOf(path))
  }

  lemma MarkHoldsNoDrive(names: seq<string>, kind: Kind)
    ensures HoldsDrive(Marked(names, kind)) <==> HoldsDrive(names)
  {
    if kind == LocalAbsolute {
      var parts := [""] + names;
      forall i | 0 <= i < |names| ensures parts[i + 1] == names[i] {
      }
      assert forall i | 0 < i < |parts| :: parts[i] == names[i - 1];
      if HoldsDrive(names) {
        var i :| 0 <= i < |names| && DriveString(names[i]);
        assert DriveString(parts[i + 1]);
      }
    }
  }

  /** Parsing, for every path that is not a URI, a UNC name or an extended-length path. */
  function Parse(path: string, system: char): Parsed
  {
    if path == "" then Path(Info("", system, [], Unknown))
    else if HasScheme(path) || Unc(path) then OtherForm
    else
      var names := Cleaned(AfterDrive(path));
      if HoldsDrive(names) then DriveInside
      else if HasDrive(path) && KindOf(path) == LocalRelative && names != [] then DriveRelative
      else Path(InfoOf(path, system))
  }

  method ExtractHost(path: string) returns (host: string, pathEnd: nat, kind: Kind)
    requires path != "" && !HasScheme(path) && !Unc(path)
    ensures pathEnd <= |path| && host == DriveOf(path) && path[pathEnd..] == AfterDrive(path)
    ensures kind == KindOf(path) && pathEnd == |host|
  {
    if |path| >= 2 && path[1] == ':' && Letter(path[0]) {
      assert HasDrive(path);
      assert path[2..] == AfterDrive(path);
      host, pathEnd := path[0..2], 2;
      if |path| > 2 && (path[2] == '\\' || path[2] == '/') {
        kind := LocalAbsolute;
      } else {
        kind := LocalRelative;
      }
      return;
    }
    host, pathEnd := "", 0;
    if path[0] == '/' {
      kind := LocalAbsolute;
    } else {
      kind := LocalRelative;
    }
  }

  lemma OneMore(path: string, start: nat, i: nat)
    requires start <= i < |path|
    ensures path[start..i + 1] == path[start..i] + [path[i]]
  {
  }

  method SplitAndClean(path: string, pathEnd: nat, system: char) returns (parts: seq<string>, separator: char)
    requires pathEnd <= |path|
    ensures parts == Cleaned(path[pathEnd..])
    ensures separator == FirstSeparator(path[pathEnd..], system)
  {
    parts, separator := [], system;
    OnePassIsSplitThenClean([], "", path[pathEnd..]);
    var start, firstPart, i := pathEnd, true, pathEnd;
    assert path[start..i] == "";
    while i < |path|
      invariant pathEnd <= start <= i <= |path|
      invariant CleanFrom(parts, path[start..i], path[i..]) == Cleaned(path[pathEnd..])
      invariant firstPart ==> separator == system
                              && FirstSeparator(path[i..], system) == FirstSeparator(path[pathEnd..], system)
      invariant !firstPart ==> separator == FirstSeparator(path[pathEnd..], system)
    {
      assert path[i..][0] == path[i] && path[i..][1..] == path[i + 1..];
      if path[i] == '/' || path[i] == '\\' {
        if firstPart {
          separator, firstPart := path[i], false;
        }
        parts := TakePart(parts, path[start..i]);
        start := i + 1;
        assert path[start..i + 1] == "";
      } else {
        OneMore(path, start, i);
      }
      i := i + 1;
    }
    assert path[i..] == "";
    parts := TakePart(parts, path[start..i]);
  }

  method TakePart(before: seq<string>, part: string) returns (parts: seq<string>)
    ensures parts == Push(before, part)
  {
    parts := before;
    if |part| > 0 {
      if part == "." {
      } else if part == ".." {
        if |parts| > 0 {
          var last := |parts| - 1;
          if parts[last] != "" && parts[last] != ".." {
            parts := parts[..last];
          } else {
            parts := parts + [part];
          }
        } else {
          parts := parts + [part];
        }
      } else {
        parts := parts + [part];
      }
    }
  }

  method ParseOnce(path: string, system: char) returns (info: Info)
    requires path != "" && !HasScheme(path) && !Unc(path)
    ensures info == InfoOf(path, system)
  {
    var host, pathEnd, kind := ExtractHost(path);
    if pathEnd >= |path| {
      assert AfterDrive(path) == "";
      return Info(host, system, [], kind);
    }
    var parts, separator := SplitAndClean(path, pathEnd, system);
    CleanedIsNormal(path[pathEnd..]);
    if |parts| == 0 && |path| > pathEnd && kind != LocalRelative && kind != Unknown {
      parts := parts + [""];
    }
    if kind == LocalAbsolute {
      if |parts| > 0 && parts[0] != "" {
        parts := [""] + parts;
      }
    }
    info := Info(host, separator, parts, kind);
  }

  method ParsePath(path: string, system: char) returns (parsed: Parsed)
    ensures parsed == Parse(path, system)
  {
    if path == "" {
      return Path(Info("", system, [], Unknown));
    }
    var schemeEnd := FindSchemeEnd(path);
    var unc := FindUnc(path);
    if schemeEnd > 0 || unc {
      return OtherForm;
    }
    var info := ParseOnce(path, system);
    MarkHoldsNoDrive(Cleaned(AfterDrive(path)), info.kind);
    var inside := AnyDrive(info.parts);
    if inside {
      return DriveInside;
    }
    if |info.host| == 2 && info.host[1] == ':' && info.kind == LocalRelative && |info.parts| > 0 {
      return DriveRelative;
    }
    return Path(info);
  }

  method AnyDrive(parts: seq<string>) returns (found: bool)
    ensures found <==> HoldsDrive(parts)
  {
    for n := 0 to |parts|
      invariant forall k | 0 <= k < n :: !DriveString(parts[k])
    {
      if |parts[n]| == 2 && parts[n][1] == ':' && Letter(parts[n][0]) {
        assert DriveString(parts[n]);
        return true;
      }
    }
    return false;
  }

  // --------------------------------------------------- what parsing promises

  /** The components without the marker of an absolute path. */
  function Names(info: Info): seq<string>
  {
    if info.parts != [] && info.parts[0] == "" then info.parts[1..] else info.parts
  }

  lemma CleanedIsNormal(s: string)
    ensures Normal(Cleaned(s))
  {
    ComponentsArePieces("", s);
    CleanNormal([], Components("", s));
  }

  lemma NamesOfParsed(path: string, system: char)
    requires path != "" && Parse(path, system).Path?
    ensures Names(Parse(path, system).info) == Cleaned(AfterDrive(path))
  {
    CleanedIsNormal(AfterDrive(path));
    assert ([""] + Cleaned(AfterDrive(path)))[1..] == Cleaned(AfterDrive(path));
  }

  /** Parsed parts are in normal form, hold no drive, and from every directory
      lead where the components of the text lead. */
  lemma ParsedIsNormalAndMeansTheSame(path: string, system: char)
    requires path != "" && Parse(path, system).Path?
    ensures var names := Names(Parse(path, system).info);
            Normal(names) && !HoldsDrive(names) && SameMeaning(Components("", AfterDrive(path)), names)
  {
    NamesOfParsed(path, system);
    CleanedIsNormal(AfterDrive(path));
    var comps := Components("", AfterDrive(path));
    ComponentsArePieces("", AfterDrive(path));
    forall dir ensures Resolve(dir, comps) == Resolve(dir, CleanOnto([], comps)) {
      CleanKeepsMeaning(dir, [], comps);
    }
  }

  lemma SameIffSameMeaning(a: seq<string>, b: seq<string>, ca: seq<string>, cb: seq<string>)
    requires Normal(a) && Normal(b) && SameMeaning(ca, a) && SameMeaning(cb, b)
    ensures a == b <==> SameMeaning(ca, cb)
  {
    if a == b {
      forall dir ensures Resolve(dir, ca) == Resolve(dir, cb) {
        assert Resolve(dir, ca) == Resolve(dir, a);
      }
    }
    if SameMeaning(ca, cb) {
      forall dir ensures Resolve(dir, a) == Resolve(dir, b) {
        assert Resolve(dir, ca) == Resolve(dir, a) && Resolve(dir, cb) == Resolve(dir, b);
        assert Resolve(dir, ca) == Resolve(dir, cb);
      }
      NormalFormIsCanonical(a, b);
    }
  }

  /** A word of two or more letters, digits, `+`, `-` and `.`, the first a letter. */
  ghost predicate SchemeWord(word: string)
  {
    |word| >= 2 && Letter(word[0]) && forall c | c in word :: Letter(c) || '0' <= c <= '9' || c in "+-."
  }

  ghost predicate SchemeText(path: string)
  {
    exists word :: SchemeWord(word) && word + ":" <= path
  }

  /** Begins with two backslashes, but with the prefix of an extended-length path only
      if a drive or a server follows. */
  predicate ServerText(path: string)
  {
    "\\\\" <= path &&
    ("\\\\?\\" <= path ==>
       |path| >= 6 && ((Letter(path[4]) && path[5] == ':') || (path[4] == '\\' && path[5] != '\\')))
  }

  lemma SchemeFromText(path: string)
    ensures HasScheme(path) <==> SchemeText(path)
  {
    if i :| 2 <= i < |path| && ColonAfterWord(path, i) {
      assert path[..i] + ":" == path[..i + 1];
      assert SchemeWord(path[..i]);
    }
    if word :| SchemeWord(word) && word + ":" <= path {
      assert path[|word|] == (word + ":")[|word|];
      forall j | 0 <= j < |word| ensures path[j] == word[j] && SchemeChar(path[j]) {
        assert path[j] == (word + ":")[j] && word[j] in word;
      }
      assert ColonAfterWord(path, |word|);
    }
  }

  lemma ServerFromText(path: string)
    ensures Unc(path) <==> ServerText(path)
  {
    assert DoubleBackslash(path) <==> "\\\\" <= path;
    assert Extended(path) <==> "\\\\?\\" <= path;
  }

  /** Which texts are of another form. */
  lemma OtherFormsFromText(path: string, system: char)
    ensures Parse(path, system) == OtherForm <==> SchemeText(path) || ServerText(path)
  {
    SchemeFromText(path);
    ServerFromText(path);
  }

  /** A drive letter, a colon, and a slash or backslash. */
  predicate DriveAndSeparator(path: string)
  {
    |path| >= 3 && Letter(path[0]) && path[1] == ':' && (path[2] == '/' || path[2] == '\\')
  }

  /** Host and kind from the text: the drive if it begins with one, absolute exactly
      if it begins with a slash or with a drive and a separator. */
  lemma KindFromText(path: string, system: char)
    requires path != "" && Parse(path, system).Path?
    ensures var info := Parse(path, system).info;
            && info.host == (if |path| >= 2 && Letter(path[0]) && path[1] == ':' then path[..2] else "")
            && (info.kind == LocalAbsolute <==> path[0] == '/' || DriveAndSeparator(path))
            && (info.kind == LocalRelative <==> !(path[0] == '/' || DriveAndSeparator(path)))
            && (info.parts != [] && info.parts[0] == "" <==> info.kind == LocalAbsolute)
  {
    CleanedIsNormal(AfterDrive(path));
    assert HasDrive(path) ==> AfterDrive(path) == path[2..];
  }

  /** The separator is the first one after the drive, and the system's where there is none. */
  lemma {:induction false} SeparatorFromText(path: string, system: char, i: nat)
    requires path != "" && Parse(path, system).Path? && i <= |AfterDrive(path)|
    requires forall k | 0 <= k < i :: !IsSeparator(AfterDrive(path)[k])
    ensures i < |AfterDrive(path)| && IsSeparator(AfterDrive(path)[i]) ==>
              Parse(path, system).info.separator == AfterDrive(path)[i]
    ensures i == |AfterDrive(path)| ==> Parse(path, system).info.separator == system
  {
    var rest := AfterDrive(path);
    FirstSeparatorOfPiece(rest[..i], rest[i..], system);
    assert rest == rest[..i] + rest[i..];
  }

  /** Two texts get the same names exactly if they mean the same from everywhere. */
  lemma SameNamesIffSameMeaning(p: string, q: string, system: char)
    requires p != "" && q != "" && Parse(p, system).Path? && Parse(q, system).Path?
    ensures Names(Parse(p, system).info) == Names(Parse(q, system).info)
        <==> SameMeaning(Components("", AfterDrive(p)), Components("", AfterDrive(q)))
  {
    ParsedIsNormalAndMeansTheSame(p, system);
    ParsedIsNormalAndMeansTheSame(q, system);
    SameIffSameMeaning(Names(Parse(p, system).info), Names(Parse(q, system).info),
                       Components("", AfterDrive(p)), Components("", AfterDrive(q)));
  }

  // --------------------------------------------------------------- printing

  function NonEmpty(parts: seq<string>): seq<string>
  {
    if parts == [] then []
    else if parts[|parts| - 1] == "" then NonEmpty(parts[..|parts| - 1])
    else NonEmpty(parts[..|parts| - 1]) + [parts[|parts| - 1]]
  }

  function Printed(parts: seq<string>, separator: char): string
  {
    (if parts != [] && parts[0] == "" then [separator] else "") + PathClean.Join(NonEmpty(parts), separator)
  }

  function Encode(info: Info): string
  {
    info.host + Printed(info.parts, info.separator)
  }

  lemma {:induction false} JoinSnoc(parts: seq<string>, last: string, separator: char)
    ensures PathClean.Join(parts + [last], separator) ==
            if parts == [] then last else PathClean.Join(parts, separator) + [separator] + last
  {
    if parts == [] {
      assert [] + [last] == [last];
    } else {
      assert (parts + [last])[1..] == parts[1..] + [last];
      JoinSnoc(parts[1..], last, separator);
      if |parts| > 1 {
        var mid := PathClean.Join(parts[1..], separator);
        assert parts[0] + [separator] + (mid + [separator] + last)
            == parts[0] + [separator] + mid + [separator] + last;
      }
    }
  }

  method BuildPath(parts: seq<string>, separator: char) returns (path: string)
    ensures path == Printed(parts, separator)
  {
    if |parts| == 0 {
      return "";
    }
    path := "";
    if |parts| > 0 && parts[0] == "" {
      path := path + [separator];
    }
    ghost var lead := path;
    var first := true;
    for n := 0 to |parts|
      invariant first <==> NonEmpty(parts[..n]) == []
      invariant path == lead + PathClean.Join(NonEmpty(parts[..n]), separator)
    {
      assert parts[..n + 1][..n] == parts[..n];
      if parts[n] != "" {
        JoinSnoc(NonEmpty(parts[..n]), parts[n], separator);
        if !first {
          path := path + [separator];
        }
        path := path + parts[n];
        first := false;
      }
    }
    assert parts[..|parts|] == parts;
  }

  method EncodePath(info: Info) returns (path: string)
    ensures path == Encode(info)
  {
    path := "";
    if info.host != "" {
      path := path + info.host;
    }
    var rest := BuildPath(info.parts, info.separator);
    path := path + rest;
  }

  // ------------------------------------------------------------- round trip

  lemma {:induction false} NoneEmpty(parts: seq<string>)
    requires forall i | 0 <= i < |parts| :: parts[i] != ""
    ensures NonEmpty(parts) == parts
    ensures NonEmpty([""] + parts) == parts
  {
    if parts == [] {
      assert [""] + parts == [""];
      assert [""][..0] == [];
    } else {
      NoneEmpty(parts[..|parts| - 1]);
      assert ([""] + parts)[..|parts|] == [""] + parts[..|parts| - 1];
    }
  }

  /** Printing normal names and splitting and cleaning again gives them back. */
  lemma CleanedOfJoin(names: seq<string>, separator: char)
    requires Normal(names) && IsSeparator(separator)
    ensures Cleaned(PathClean.Join(names, separator)) == names
    ensures Cleaned([separator] + PathClean.Join(names, separator)) == names
  {
    SplitOfJoin(names, separator);
    var text := PathClean.Join(names, separator);
    assert ([separator] + text)[1..] == text;
    assert [] + Components("", text) == Components("", text);
    assert [] + names == names;
    CleanFixesNormal([], names);
  }

  lemma {:induction false} FirstSeparatorOfPiece(part: string, rest: string, otherwise: char)
    requires Piece(part)
    ensures FirstSeparator(part + rest, otherwise) == FirstSeparator(rest, otherwise)
  {
    if part == "" {
      assert part + rest == rest;
    } else {
      assert (part + rest)[1..] == part[1..] + rest;
      FirstSeparatorOfPiece(part[1..], rest, otherwise);
    }
  }

  /** Only the first name of a printed relative path can look like a scheme or a drive. */
  lemma LooksOfJoin(names: seq<string>, separator: char, i: int)
    requires Normal(names) && names != [] && IsSeparator(separator)
    ensures ColonAfterWord(PathClean.Join(names, separator), i) <==> ColonAfterWord(names[0], i)
  {
    var text := PathClean.Join(names, separator);
    assert forall k | 0 <= k < |names[0]| :: text[k] == names[0][k];
    assert names[0] != "" && Piece(names[0]);
    assert |names| > 1 ==> text[|names[0]|] == separator && !SchemeChar(separator) && separator != ':';
    assert ColonAfterWord(text, i) ==> i < |names[0]|;
  }

  /** A first name that a parser would take for a scheme or a drive. */
  predicate ColonShaped(name: string)
  {
    HasScheme(name) || HasDrive(name)
  }

  lemma ReparseRelative(names: seq<string>, separator: char, system: char)
    requires Normal(names) && names != [] && IsSeparator(separator)
    requires !HoldsDrive(names)
    ensures var again := Parse(PathClean.Join(names, separator), system);
            && (!ColonShaped(names[0]) ==> again.Path? && again.info.parts == names
                                           && again.info.kind == LocalRelative && again.info.host == "")
            && (ColonShaped(names[0]) ==> again.Path? ==> again.info.host != "")
  {
    var text := PathClean.Join(names, separator);
    assert text != "" && text[0] == names[0][0];
    forall i ensures ColonAfterWord(text, i) <==> ColonAfterWord(names[0], i) {
      LooksOfJoin(names, separator, i);
    }
    assert HasDrive(text) <==> HasDrive(names[0]);
    assert HasScheme(text) <==> HasScheme(names[0]);
    CleanedOfJoin(names, separator);
    assert [] + names == names;
  }

  lemma ReparseRooted(names: seq<string>, system: char)
    requires Normal(names)
    requires !HoldsDrive(names)
    ensures Parse(['/'] + PathClean.Join(names, '/'), system) == Path(Info("", '/', [""] + names, LocalAbsolute))
  {
    var text := ['/'] + PathClean.Join(names, '/');
    CleanedOfJoin(names, '/');
    assert text[0] == '/';
    assert !HasDrive(text) && !HasScheme(text) && !Unc(text);
  }

  lemma ReparseDrive(host: string, rest: string, names: seq<string>, separator: char, system: char)
    requires DriveString(host) && IsSeparator(separator)
    requires rest != "" && rest[0] == separator && Cleaned(rest) == names
    requires !HoldsDrive(names)
    ensures Parse(host + rest, system) == Path(Info(host, separator, [""] + names, LocalAbsolute))
  {
    var text := host + rest;
    assert text[0] == host[0] && text[1] == ':' && !SchemeChar(text[1]);
    assert HasDrive(text) && text[..2] == host && text[2..] == rest;
    assert !HasScheme(text);
  }

  lemma ReparseAbsolute(host: string, names: seq<string>, separator: char, system: char)
    requires Normal(names) && IsSeparator(separator)
    requires host == "" || DriveString(host)
    requires host == "" ==> separator == '/'
    requires !HoldsDrive(names)
    ensures Parse(host + [separator] + PathClean.Join(names, separator), system)
         == Path(Info(host, separator, [""] + names, LocalAbsolute))
  {
    var rest := [separator] + PathClean.Join(names, separator);
    assert host + [separator] + PathClean.Join(names, separator) == host + rest;
    if host == "" {
      ReparseRooted(names, system);
      assert host + rest == rest;
    } else {
      CleanedOfJoin(names, separator);
      ReparseDrive(host, rest, names, separator, system);
    }
  }

  lemma FirstSeparatorIsOne(s: string, system: char)
    requires IsSeparator(system)
    ensures IsSeparator(FirstSeparator(s, system))
  {
  }

  function PrintedInfo(host: string, names: seq<string>, separator: char, kind: Kind): string
  {
    host + (if kind == LocalAbsolute then [separator] else "") + PathClean.Join(names, separator)
  }

  lemma Regrouped(a: string, b: string, c: string)
    ensures a + (b + c) == a + b + c
  {
  }

  lemma MarkedPrinted(names: seq<string>, separator: char)
    requires Normal(names)
    ensures Printed([""] + names, separator) == [separator] + PathClean.Join(names, separator)
    ensures Printed(names, separator) == "" + PathClean.Join(names, separator)
  {
    NoneEmpty(names);
    assert names != [] ==> names[0] != "";
  }

  lemma PrintedNames(host: string, names: seq<string>, separator: char, kind: Kind)
    requires Normal(names)
    ensures Encode(Info(host, separator, Marked(names, kind), kind)) == PrintedInfo(host, names, separator, kind)
  {
    MarkedPrinted(names, separator);
    Regrouped(host, if kind == LocalAbsolute then [separator] else "", PathClean.Join(names, separator));
  }

  lemma PrintedParsed(path: string, system: char)
    requires path != "" && Parse(path, system).Path?
    ensures var info := Parse(path, system).info;
            Encode(info) == PrintedInfo(info.host, Names(info), info.separator, info.kind)
  {
    NamesOfParsed(path, system);
    CleanedIsNormal(AfterDrive(path));
    var info := Parse(path, system).info;
    PrintedNames(info.host, Names(info), info.separator, info.kind);
  }

  /** When printing loses nothing. */
  predicate Printable(info: Info)
  {
    info.kind == LocalRelative && info.host == "" ==> info.parts != [] && !ColonShaped(info.parts[0])
  }

  lemma AbsoluteComesBack(path: string, system: char)
    requires IsSeparator(system) && path != "" && Parse(path, system).Path?
    requires KindOf(path) == LocalAbsolute
    ensures Parse(Encode(Parse(path, system).info), system) == Parse(path, system)
  {
    var info := Parse(path, system).info;
    ParsedIsNormalAndMeansTheSame(path, system);
    NamesOfParsed(path, system);
    PrintedParsed(path, system);
    FirstSeparatorIsOne(AfterDrive(path), system);
    ReparseAbsolute(info.host, Names(info), info.separator, system);
  }

  /** Parsing the printed path gives the same host, parts and kind back, exactly if
      it is absolute, has a drive, or is relative with a first name that does not
      look like a scheme or a drive. */
  lemma ParseOfEncode(path: string, system: char)
    requires IsSeparator(system) && Parse(path, system).Path?
    ensures var info := Parse(path, system).info;
            var again := Parse(Encode(info), system);
            Printable(info) <==> again.Path? && again.info.host == info.host
                                 && again.info.parts == info.parts && again.info.kind == info.kind
  {
    if path != "" {
      var info := Parse(path, system).info;
      ParsedIsNormalAndMeansTheSame(path, system);
      NamesOfParsed(path, system);
      PrintedParsed(path, system);
      FirstSeparatorIsOne(AfterDrive(path), system);
      var names := Names(info);
      if info.kind == LocalAbsolute {
        AbsoluteComesBack(path, system);
      } else if info.host != "" {
        assert info.parts == [] && Encode(info) == info.host;
        assert HasDrive(info.host) && info.host[2..] == "" && info.host[..2] == info.host;
      } else if names != [] {
        assert Encode(info) == PathClean.Join(names, info.separator);
        ReparseRelative(names, info.separator, system);
      } else {
        assert Encode(info) == "";
      }
    } else {
      assert Encode(Parse(path, system).info) == "";
    }
  }

  lemma SeparatorOfJoin(names: seq<string>, separator: char, system: char)
    requires Normal(names) && |names| > 1 && IsSeparator(separator)
    ensures FirstSeparator(PathClean.Join(names, separator), system) == separator
  {
    var tail := [separator] + PathClean.Join(names[1..], separator);
    assert PathClean.Join(names, separator) == names[0] + tail;
    FirstSeparatorOfPiece(names[0], tail, system);
  }

  /** And then printing again prints the same text. */
  lemma EncodeIsStable(path: string, system: char)
    requires IsSeparator(system) && Parse(path, system).Path? && Printable(Parse(path, system).info)
    ensures var again := Parse(Encode(Parse(path, system).info), system);
            again.Path? && Encode(again.info) == Encode(Parse(path, system).info)
  {
    ParseOfEncode(path, system);
    var info := Parse(path, system).info;
    var text := Encode(info);
    var again := Parse(text, system).info;
    if path != "" && text != "" {
      PrintedParsed(path, system);
      PrintedParsed(text, system);
      if info.kind == LocalAbsolute {
        AbsoluteComesBack(path, system);
      } else if |info.parts| > 1 {
        NamesOfParsed(path, system);
        CleanedIsNormal(AfterDrive(path));
        FirstSeparatorIsOne(AfterDrive(path), system);
        SeparatorOfRelative(info, text, system);
      }
    }
  }

  lemma SeparatorOfRelative(info: Info, text: string, system: char)
    requires info.host == "" && info.kind == LocalRelative && Normal(Names(info)) && |info.parts| > 1
    requires Names(info) == info.parts && IsSeparator(info.separator)
    requires text == PrintedInfo("", Names(info), info.separator, LocalRelative)
    requires !HasDrive(text)
    ensures FirstSeparator(AfterDrive(text), system) == info.separator
  {
    assert text == PathClean.Join(Names(info), info.separator);
    SeparatorOfJoin(Names(info), info.separator, system);
  }
}
