/** Finding the directories of one root: the shell patterns the code builds from
    the root path, and what they match. */
module Glob {
  import opened Wrappers

  // ---------------------------------------------------------------- patterns

  datatype Unit = Lit(c: char) | AnyOne | Star | Class(negated: bool, ranges: seq<(char, char)>)

  predicate Meta(c: char)
  {
    c == '*' || c == '?' || c == '[' || c == '\\'
  }

  /** One end of a range in a character class; something has to follow it. */
  function GetEsc(p: string): (r: Option<(char, string)>)
    ensures r.Some? ==> r.value.1 != "" && |r.value.1| < |p|
  {
    if p == "" || p[0] == '-' || p[0] == ']' then None
    else if p[0] == '\\' then (if |p| <= 2 then None else Some((p[1], p[2..])))
    else if |p| == 1 then None else Some((p[0], p[1..]))
  }

  /** The ranges of a character class up to its closing bracket, and what follows. */
  function Ranges(p: string, first: bool): (r: Option<(seq<(char, char)>, string)>)
    ensures r.Some? ==> |r.value.1| < |p|
    decreases |p|
  {
    if p != "" && p[0] == ']' && !first then Some(([], p[1..]))
    else
      var lo := GetEsc(p);
      if lo.None? then None
      else
        var hi := if lo.value.1[0] == '-' then GetEsc(lo.value.1[1..]) else lo;
        if hi.None? then None
        else
          var more := Ranges(hi.value.1, false);
          if more.None? then None else Some(([(lo.value.0, hi.value.0)] + more.value.0, more.value.1))
  }

  function Cons(u: Unit, more: Option<seq<Unit>>): Option<seq<Unit>>
  {
    if more.None? then None else Some([u] + more.value)
  }

  /** The meaning of a pattern, or none if it is malformed. */
  function Parse(p: string): Option<seq<Unit>>
    decreases |p|
  {
    if p == "" then Some([])
    else if p[0] == '*' then Cons(Star, Parse(p[1..]))
    else if p[0] == '?' then Cons(AnyOne, Parse(p[1..]))
    else if p[0] == '\\' then (if |p| == 1 then None else Cons(Lit(p[1]), Parse(p[2..])))
    else if p[0] == '[' then
      var negated := |p| > 1 && p[1] == '^';
      var class_ := Ranges(if negated then p[2..] else p[1..], true);
      if class_.None? then None else Cons(Class(negated, class_.value.0), Parse(class_.value.1))
    else Cons(Lit(p[0]), Parse(p[1..]))
  }

  predicate InRanges(c: char, ranges: seq<(char, char)>)
  {
    exists i :: 0 <= i < |ranges| && ranges[i].0 <= c <= ranges[i].1
  }

  /** One unit that stands for one character. */
  predicate Fits(u: Unit, c: char)
  {
    match u
    case Lit(d) => c == d
    case AnyOne => true
    case Star => true
    case Class(negated, ranges) => InRanges(c, ranges) != negated
  }

  /** A name matches: a star stands for any characters, everything else for one. */
  predicate Match(units: seq<Unit>, name: string)
    decreases |units|
  {
    if units == [] then name == ""
    else if units[0].Star? then exists k | 0 <= k <= |name| :: Match(units[1..], name[k..])
    else name != "" && Fits(units[0], name[0]) && Match(units[1..], name[1..])
  }

  // ------------------------------------------------- what one unit of a pattern means

  /** Not one of the characters that mean something inside brackets. */
  predicate PlainInClass(c: char)
  {
    c != '-' && c != ']' && c != '\\' && c != '^'
  }

  ghost predicate Matches(pattern: string, name: string)
  {
    Parse(pattern).Some? && Match(Parse(pattern).value, name)
  }

  lemma OneUnit(u: Unit, name: string)
    requires !u.Star?
    ensures Match([u], name) <==> |name| == 1 && Fits(u, name[0])
  {
    assert [u][1..] == [];
    if name != "" {
      assert Match([u], name) <==> Fits(u, name[0]) && name[1..] == "";
    }
  }

  lemma OneRange(lo: char, hi: char, rest: string)
    requires PlainInClass(lo) && PlainInClass(hi)
    ensures Ranges([lo, '-', hi, ']'], true) == Some(([(lo, hi)], ""))
  {
    var p := [lo, '-', hi, ']'];
    assert p[1..] == ['-', hi, ']'] && p[1..][1..] == [hi, ']'] && [hi, ']'][1..] == [']'] && [']'][1..] == "";
    assert GetEsc(p) == Some((lo, p[1..]));
    assert GetEsc([hi, ']']) == Some((hi, [']']));
    assert Ranges([']'], false) == Some(([], ""));
    assert [(lo, hi)] + [] == [(lo, hi)];
  }

  /** `?` stands for any one character, a character after a backslash for itself, and
      brackets for one character that is, or with `^` is not, in the range. */
  lemma UnitsMean(lo: char, hi: char, c: char, name: string)
    requires PlainInClass(lo) && PlainInClass(hi)
    ensures Matches("?", name) <==> |name| == 1
    ensures Matches(['\\', c], name) <==> name == [c]
    ensures Matches("[" + [lo, '-', hi] + "]", name) <==> |name| == 1 && lo <= name[0] <= hi
    ensures Matches("[^" + [lo, '-', hi] + "]", name) <==> |name| == 1 && !(lo <= name[0] <= hi)
    ensures Matches("*", name)
  {
    OneRange(lo, hi, "");
    var plain, negated := "[" + [lo, '-', hi] + "]", "[^" + [lo, '-', hi] + "]";
    assert plain[1..] == [lo, '-', hi, ']'] && negated[2..] == [lo, '-', hi, ']'];
    assert Parse("") == Some([]);
    var yes, no := Class(false, [(lo, hi)]), Class(true, [(lo, hi)]);
    assert Parse(plain) == Cons(yes, Parse("")) == Some([yes] + []) && [yes] + [] == [yes];
    assert Parse(negated) == Cons(no, Parse("")) == Some([no] + []) && [no] + [] == [no];
    assert "?"[1..] == "" && Parse("?") == Some([AnyOne] + []) && [AnyOne] + [] == [AnyOne];
    assert ['\\', c][2..] == "" && Parse(['\\', c]) == Some([Lit(c)] + []) && [Lit(c)] + [] == [Lit(c)];
    assert "*"[1..] == "" && Parse("*") == Some([Star] + []) && [Star] + [] == [Star];
    OneUnit(yes, name);
    OneUnit(no, name);
    OneUnit(AnyOne, name);
    OneUnit(Lit(c), name);
    InOneRange(lo, hi, if name == "" then c else name[0]);
    StarMatches(name);
  }

  /** Brackets that are not closed, and a backslash at the end, are malformed. */
  lemma MalformedUnits(s: string)
    requires ']' !in s
    ensures Parse("[" + s).None? && Parse("\\").None?
  {
    var p := "[" + s;
    assert p[1..] == s;
    NoRanges(s, true);
    if s != "" {
      assert p[2..] == s[1..];
      NoRanges(s[1..], true);
    }
  }

  lemma {:induction false} NoRanges(p: string, first: bool)
    requires ']' !in p
    ensures Ranges(p, first).None?
    decreases |p|
  {
    var lo := GetEsc(p);
    if lo.Some? {
      assert forall c | c in lo.value.1 :: c in p;
      if lo.value.1[0] == '-' {
        var hi := GetEsc(lo.value.1[1..]);
        if hi.Some? {
          assert forall c | c in hi.value.1 :: c in p;
          NoRanges(hi.value.1, false);
        }
      } else {
        NoRanges(lo.value.1, false);
      }
    }
  }

  lemma InOneRange(lo: char, hi: char, c: char)
    ensures InRanges(c, [(lo, hi)]) <==> lo <= c <= hi
  {
    assert [(lo, hi)][0] == (lo, hi);
  }

  // ------------------------------------------------------------------- paths

  /** The components of a path, between slashes. */
  function Split(s: string): (r: seq<string>)
    ensures r != []
  {
    if s == "" then [""]
    else
      var more := Split(s[1..]);
      if s[0] == '/' then [""] + more else [[s[0]] + more[0]] + more[1..]
  }

  predicate NoSlash(s: string)
  {
    forall i | 0 <= i < |s| :: s[i] != '/'
  }

  /** A pattern is searched for component by component. */
  predicate WellFormed(pattern: string)
  {
    forall i | 0 <= i < |Split(pattern)| :: Parse(Split(pattern)[i]).Some?
  }

  predicate Finds(pattern: string, path: string)
  {
    && WellFormed(pattern) && |Split(path)| == |Split(pattern)|
    && forall i | 0 <= i < |Split(path)| :: Match(Parse(Split(pattern)[i]).value, Split(path)[i])
  }

  const BACKUP := ".safe_disk.backup."
  const WORK := ".safe_disk.work."

  function Pattern(root: string, tag: string): string
  {
    root + tag + "*"
  }

  /** A sibling of the root under one of its two tags. */
  predicate Tagged(root: string, tag: string, path: string)
  {
    root + tag <= path && NoSlash(path[|root + tag|..])
  }

  predicate Literal(s: string)
  {
    forall i | 0 <= i < |s| :: !Meta(s[i])
  }

  // --------------------------------------------- a root without pattern characters

  function Lits(s: string): (r: seq<Unit>)
    ensures |r| == |s| && forall i | 0 <= i < |s| :: r[i] == Lit(s[i])
  {
    if s == "" then [] else [Lit(s[0])] + Lits(s[1..])
  }

  lemma {:induction false} ParseLiteral(s: string, rest: string)
    requires Literal(s)
    ensures Parse(s + rest).Some? <==> Parse(rest).Some?
    ensures Parse(rest).Some? ==> Parse(s + rest).value == Lits(s) + Parse(rest).value
    decreases |s|
  {
    if s == "" {
      assert s + rest == rest;
      if Parse(rest).Some? {
        assert [] + Parse(rest).value == Parse(rest).value;
      }
    } else {
      assert !Meta(s[0]);
      assert (s + rest)[0] == s[0] && (s + rest)[1..] == s[1..] + rest;
      ParseLiteral(s[1..], rest);
    }
  }

  lemma {:induction false} MatchLits(s: string, rest: seq<Unit>, name: string)
    ensures Match(Lits(s) + rest, name) <==> s <= name && Match(rest, name[|s|..])
    decreases |s|
  {
    if s == "" {
      assert Lits(s) + rest == rest && name[0..] == name;
    } else {
      var units := Lits(s) + rest;
      assert units[0] == Lit(s[0]) && units[1..] == Lits(s[1..]) + rest;
      if name != "" {
        MatchLits(s[1..], rest, name[1..]);
        if s[1..] <= name[1..] {
          assert name[1..][|s[1..]|..] == name[|s|..];
        }
        if s <= name {
          assert name[1..][..|s| - 1] == s[1..];
        }
        if name[0] == s[0] && s[1..] <= name[1..] {
          assert name[..|s|] == s;
        }
      }
    }
  }

  lemma StarMatches(name: string)
    ensures Match([Star], name)
  {
    assert [Star][1..] == [];
    assert Match([Star][1..], name[|name|..]);
  }

  /** Text added to the last component. */
  function Extend(parts: seq<string>, u: string): seq<string>
    requires parts != []
  {
    parts[..|parts| - 1] + [parts[|parts| - 1] + u]
  }

  lemma ExtendSlash(more: seq<string>, u: string)
    requires more != []
    ensures Extend([""] + more, u) == [""] + Extend(more, u)
  {
  }

  lemma ExtendChar(c: char, more: seq<string>, u: string)
    requires more != []
    ensures var grown := Extend(more, u);
            Extend([[c] + more[0]] + more[1..], u) == [[c] + grown[0]] + grown[1..]
  {
    if |more| == 1 {
      assert [c] + (more[0] + u) == ([c] + more[0]) + u;
    }
  }

  lemma {:induction false} SplitAppend(s: string, u: string)
    requires NoSlash(u)
    ensures Split(s + u) == Extend(Split(s), u)
  {
    if s == "" {
      assert s + u == u;
      SplitNoSlash(u);
    } else {
      assert (s + u)[0] == s[0] && (s + u)[1..] == s[1..] + u;
      SplitAppend(s[1..], u);
      ExtendSlash(Split(s[1..]), u);
      ExtendChar(s[0], Split(s[1..]), u);
    }
  }

  lemma {:induction false} SplitNoSlash(u: string)
    requires NoSlash(u)
    ensures Split(u) == [u]
  {
    if u != "" {
      SplitNoSlash(u[1..]);
      assert [u[0]] + u[1..] == u;
      assert [u[1..]][1..] == [];
    }
  }

  lemma {:induction false} SplitInjective(s: string, t: string)
    requires Split(s) == Split(t)
    ensures s == t
  {
    if s == "" || t == "" {
      SplitLength(s);
      SplitLength(t);
    } else {
      var a, b := Split(s[1..]), Split(t[1..]);
      if s[0] != '/' {
        assert Split(s)[0][0] == s[0];
        assert t[0] != '/';
        assert Split(s)[0][1..] == a[0] && Split(t)[0][1..] == b[0];
        assert Split(s)[1..] == a[1..] && Split(t)[1..] == b[1..];
        assert a == [a[0]] + a[1..] && b == [b[0]] + b[1..];
      } else {
        assert Split(s)[0] == "";
        assert t[0] == '/';
        assert Split(s)[1..] == a && Split(t)[1..] == b;
      }
      SplitInjective(s[1..], t[1..]);
    }
  }

  /** Only the empty string splits into one empty component. */
  lemma SplitLength(s: string)
    ensures Split(s) == [""] <==> s == ""
  {
  }

  lemma {:induction false} SplitHasNoSlash(s: string)
    ensures forall i | 0 <= i < |Split(s)| :: NoSlash(Split(s)[i])
  {
    if s != "" {
      SplitHasNoSlash(s[1..]);
      var more := Split(s[1..]);
      forall i | 0 <= i < |Split(s)| ensures NoSlash(Split(s)[i]) {
        if s[0] == '/' {
          assert i > 0 ==> Split(s)[i] == more[i - 1];
        } else {
          assert i > 0 ==> Split(s)[i] == more[i];
        }
      }
    }
  }

  function Last(s: string): string
  {
    Split(s)[|Split(s)| - 1]
  }

  function Parents(s: string): (r: seq<string>)
    ensures Split(s) == r + [Last(s)]
  {
    Split(s)[..|Split(s)| - 1]
  }

  /** The pattern's components: the root's, the last one with the tag and a star. */
  lemma PatternComponents(root: string, tag: string)
    requires NoSlash(tag)
    ensures Split(Pattern(root, tag)) == Parents(root) + [Last(root) + tag + "*"]
  {
    SplitAppend(root, tag + "*");
    assert root + tag + "*" == root + (tag + "*");
    assert Last(root) + tag + "*" == Last(root) + (tag + "*");
  }

  lemma TaggedComponents(root: string, tag: string, path: string)
    requires NoSlash(tag) && Tagged(root, tag, path)
    ensures Split(path) == Parents(root) + [Last(root) + tag + path[|root + tag|..]]
  {
    var rest := path[|root + tag|..];
    assert path == root + (tag + rest);
    SplitAppend(root, tag + rest);
    assert Last(root) + (tag + rest) == Last(root) + tag + rest;
  }

  lemma {:induction false} LiteralParts(s: string)
    requires Literal(s)
    ensures forall i | 0 <= i < |Split(s)| :: Literal(Split(s)[i])
  {
    if s != "" {
      LiteralParts(s[1..]);
      var more := Split(s[1..]);
      forall i | 0 <= i < |Split(s)| ensures Literal(Split(s)[i]) {
        if s[0] == '/' {
          assert i > 0 ==> Split(s)[i] == more[i - 1];
        } else {
          assert i > 0 ==> Split(s)[i] == more[i];
        }
      }
    }
  }

  lemma LiteralName(name: string, path: string)
    requires Literal(name)
    ensures Parse(name).Some? && (Match(Parse(name).value, path) <==> path == name)
  {
    ParseLiteral(name, "");
    assert name + "" == name && Lits(name) + [] == Lits(name);
    MatchLits(name, [], path);
    if name <= path && path[|name|..] == "" {
      assert path == name;
    }
  }

  lemma LiteralStar(name: string, path: string)
    requires Literal(name)
    ensures Parse(name + "*").Some? && (Match(Parse(name + "*").value, path) <==> name <= path)
  {
    ParseLiteral(name, "*");
    assert "*"[1..] == "" && Parse("*") == Some([Star]) by {
      assert [Star] + [] == [Star];
    }
    MatchLits(name, [Star], path);
    if name <= path {
      StarMatches(path[|name|..]);
    }
  }

  predicate PlainTag(tag: string)
  {
    Literal(tag) && NoSlash(tag)
  }

  /** A root path without pattern characters finds exactly its own directories. */
  lemma LiteralFinds(root: string, tag: string, path: string)
    requires Literal(root) && PlainTag(tag)
    ensures WellFormed(Pattern(root, tag))
    ensures Finds(Pattern(root, tag), path) <==> Tagged(root, tag, path)
  {
    var pattern := Pattern(root, tag);
    PatternComponents(root, tag);
    LiteralParts(root);
    assert Literal(Last(root)) && Literal(Last(root) + tag);
    var parts, names := Split(pattern), Split(path);
    forall i | 0 <= i < |parts|
      ensures Parse(parts[i]).Some?
      ensures i < |names| ==> (Match(Parse(parts[i]).value, names[i]) <==>
                if i < |parts| - 1 then names[i] == parts[i] else Last(root) + tag <= names[i])
    {
      if i < |parts| - 1 {
        assert parts[i] == Split(root)[i];
        LiteralName(parts[i], if i < |names| then names[i] else "");
      } else {
        LiteralStar(Last(root) + tag, if i < |names| then names[i] else "");
      }
    }
    if Finds(pattern, path) {
      FoundIsTagged(root, tag, path);
    }
    if Tagged(root, tag, path) {
      TaggedComponents(root, tag, path);
    }
  }

  lemma FoundIsTagged(root: string, tag: string, path: string)
    requires NoSlash(tag) && |Split(path)| == |Split(root)| && Last(root) + tag <= Last(path)
    requires forall i | 0 <= i < |Split(root)| - 1 :: Split(path)[i] == Split(root)[i]
    ensures Tagged(root, tag, path)
  {
    var rest := Last(path)[|Last(root) + tag|..];
    SplitHasNoSlash(path);
    assert NoSlash(Last(path)) && NoSlash(rest);
    SplitAppend(root, tag + rest);
    assert Last(path) == Last(root) + (tag + rest);
    assert Split(path) == Extend(Split(root), tag + rest) by {
      assert Parents(path) == Parents(root);
    }
    SplitInjective(path, root + (tag + rest));
    TagAfterRoot(root, tag, rest);
  }

  lemma TagAfterRoot(root: string, tag: string, rest: string)
    requires NoSlash(rest)
    ensures Tagged(root, tag, root + (tag + rest))
  {
    assert root + (tag + rest) == (root + tag) + rest;
    assert ((root + tag) + rest)[|root + tag|..] == rest;
  }

  // ------------------------------------------- a root with pattern characters

  /** What a pattern without classes and escapes means, character by character. */
  predicate Direct(name: string, units: seq<Unit>)
  {
    && |units| == |name|
    && forall i | 0 <= i < |name| :: name[i] != '[' && name[i] != '\\' &&
         units[i] == UnitOf(name[i])
  }

  function UnitOf(c: char): Unit
  {
    if c == '*' then Star else if c == '?' then AnyOne else Lit(c)
  }

  lemma DirectCons(name: string, more: seq<Unit>)
    requires name != "" && name[0] != '[' && name[0] != '\\' && Direct(name[1..], more)
    ensures Direct(name, [UnitOf(name[0])] + more)
  {
    var units := [UnitOf(name[0])] + more;
    assert forall i | 1 <= i < |name| :: units[i] == more[i - 1] && name[i] == name[1..][i - 1];
  }

  /** Text that can follow a name in a pattern: a plain tag and a star, or nothing. */
  ghost predicate Tail(tail: string)
  {
    tail == "" || exists tag :: tag != "" && PlainTag(tag) && ']' !in tag && tail == tag + "*"
  }

  lemma TailUnits(tail: string)
    requires Tail(tail)
    ensures Parse(tail).Some? && ']' !in tail
    ensures tail != "" ==> !Meta(tail[0]) && Parse(tail[1..]).Some?
                           && Parse(tail).value == [Lit(tail[0])] + Parse(tail[1..]).value
  {
    if tail != "" {
      var tag :| tag != "" && PlainTag(tag) && ']' !in tag && tail == tag + "*";
      assert "*"[1..] == "" && Parse("*") == Some([Star]) by {
        assert [Star] + [] == [Star];
      }
      ParseLiteral(tag, "*");
      ParseLiteral(tag[1..], "*");
      assert tail[1..] == tag[1..] + "*";
    }
  }

  lemma EscInside(s: string, tail: string)
    requires ']' !in tail && GetEsc(s + tail).Some?
    ensures ']' in GetEsc(s + tail).value.1 ==> GetEsc(s).Some?
    ensures GetEsc(s).Some? ==>
              GetEsc(s + tail) == Some((GetEsc(s).value.0, GetEsc(s).value.1 + tail))
  {
    var p := s + tail;
    if |s| >= 1 {
      assert p[0] == s[0] && p[1..] == s[1..] + tail;
    }
    if |s| >= 2 {
      assert p[1] == s[1] && p[2..] == s[2..] + tail;
    }
    if s == "" {
      assert p == tail;
    }
  }

  /** A class that closes before a tail without brackets closes inside the name. */
  lemma {:induction false} RangesInside(s: string, tail: string, first: bool)
    requires ']' !in tail && Ranges(s + tail, first).Some?
    ensures Ranges(s, first).Some? && Ranges(s + tail, first).value.0 == Ranges(s, first).value.0
    ensures Ranges(s + tail, first).value.1 == Ranges(s, first).value.1 + tail
    decreases |s|
  {
    var p := s + tail;
    assert s == "" ==> p == tail;
    RangesHasBracket(p, first);
    if s != "" {
      assert p[0] == s[0] && p[1..] == s[1..] + tail;
      if s[0] != ']' || first {
        RangesStep(s, tail, first);
      }
    }
  }

  lemma {:induction false} RangesHasBracket(p: string, first: bool)
    requires Ranges(p, first).Some?
    ensures ']' in p
    decreases |p|
  {
    if !(p[0] == ']' && !first) {
      var lo := GetEsc(p);
      var hi := if lo.value.1[0] == '-' then GetEsc(lo.value.1[1..]) else lo;
      RangesHasBracket(hi.value.1, false);
      EscSuffix(p);
      if lo.value.1[0] == '-' {
        EscSuffix(lo.value.1[1..]);
      }
    }
  }

  lemma EscSuffix(p: string)
    requires GetEsc(p).Some?
    ensures forall c | c in GetEsc(p).value.1 :: c in p
  {
  }

  lemma RangesStep(s: string, tail: string, first: bool)
    requires s != "" && ']' !in tail && Ranges(s + tail, first).Some? && !(s[0] == ']' && !first)
    ensures Ranges(s, first).Some? && Ranges(s + tail, first).value.0 == Ranges(s, first).value.0
    ensures Ranges(s + tail, first).value.1 == Ranges(s, first).value.1 + tail
    decreases |s|, 0
  {
    var p := s + tail;
    assert p[0] == s[0];
    var lo := GetEsc(p);
    var dash := lo.value.1[0] == '-';
    var hi := if dash then GetEsc(lo.value.1[1..]) else lo;
    RangesHasBracket(hi.value.1, false);
    if dash {
      EscSuffix(lo.value.1[1..]);
    }
    EscInside(s, tail);
    var own := GetEsc(s);
    assert lo.value.1 == own.value.1 + tail && own.value.1 != "";
    assert own.value.1[0] == lo.value.1[0];
    if dash {
      assert lo.value.1[1..] == own.value.1[1..] + tail;
      EscInside(own.value.1[1..], tail);
      RangesInside(GetEsc(own.value.1[1..]).value.1, tail, false);
    } else {
      RangesInside(own.value.1, tail, false);
    }
  }

  /** What a name means in front of a tail: at most one unit a character, and
      fewer as soon as there is a class or an escape. */
  lemma {:induction false} NameUnits(name: string, tail: string) returns (units: seq<Unit>)
    requires Tail(tail) && Parse(name + tail).Some?
    ensures Parse(tail).Some? && Parse(name + tail).value == units + Parse(tail).value
    ensures |units| <= |name| && (|units| == |name| ==> Direct(name, units))
    decreases |name|
  {
    TailUnits(tail);
    var p := name + tail;
    if name == "" {
      assert p == tail;
      units := [];
    } else {
      assert p[0] == name[0] && p[1..] == name[1..] + tail;
      if name[0] == '\\' {
        units := EscapeUnits(name, tail);
      } else if name[0] == '[' {
        units := ClassUnits(name, tail);
      } else {
        var more := NameUnits(name[1..], tail);
        units := [UnitOf(name[0])] + more;
        if |more| == |name| - 1 {
          DirectCons(name, more);
        }
      }
    }
  }

  lemma EscapeUnits(name: string, tail: string) returns (units: seq<Unit>)
    requires Tail(tail) && Parse(name + tail).Some? && name != "" && name[0] == '\\'
    ensures Parse(tail).Some? && Parse(name + tail).value == units + Parse(tail).value && |units| < |name|
    decreases |name|, 0
  {
    TailUnits(tail);
    var p := name + tail;
    if |name| == 1 {
      assert p[1..] == tail && p[2..] == tail[1..];
      units := [];
    } else {
      assert p[1] == name[1] && p[2..] == name[2..] + tail;
      var more := NameUnits(name[2..], tail);
      units := [Lit(name[1])] + more;
    }
  }

  lemma ClassUnits(name: string, tail: string) returns (units: seq<Unit>)
    requires Tail(tail) && Parse(name + tail).Some? && name != "" && name[0] == '['
    ensures Parse(tail).Some? && Parse(name + tail).value == units + Parse(tail).value && |units| < |name|
    decreases |name|, 0
  {
    TailUnits(tail);
    var p := name + tail;
    var negated := |p| > 1 && p[1] == '^';
    var body := if negated then 2 else 1;
    var class_ := Ranges(p[body..], true);
    RangesHasBracket(p[body..], true);
    LongEnough(name, tail, body);
    DropJoined(name, tail, body);
    RangesInside(name[body..], tail, true);
    var inside := Ranges(name[body..], true).value.1;
    var more := NameUnits(inside, tail);
    units := [Class(negated, class_.value.0)] + more;
  }

  lemma DropJoined(name: string, tail: string, k: nat)
    requires k <= |name|
    ensures (name + tail)[k..] == name[k..] + tail
  {
  }

  lemma LongEnough(name: string, tail: string, body: nat)
    requires 1 <= |name| && 1 <= body <= 2 && body <= |name + tail|
    requires ']' in (name + tail)[body..] && ']' !in tail
    ensures body <= |name|
  {
  }

  ghost predicate Satisfiable(u: Unit)
  {
    exists c :: c != '/' && Fits(u, c)
  }

  /** A name that a list of units matches: `y` for everything that takes any character. */
  ghost function Inst(units: seq<Unit>, y: char): (r: string)
    requires forall i | 0 <= i < |units| :: Satisfiable(units[i])
    requires y != '/'
    ensures |r| == |units| && NoSlash(r)
    ensures forall i | 0 <= i < |units| :: units[i].Star? || units[i].AnyOne? ==> r[i] == y
    ensures forall i | 0 <= i < |units| :: units[i].Lit? ==> r[i] == units[i].c
    ensures forall i | 0 <= i < |units| :: Fits(units[i], r[i])
  {
    if units == [] then ""
    else
      assert Satisfiable(units[0]);
      var c: char := if units[0].Star? || units[0].AnyOne? then y else var d :| d != '/' && Fits(units[0], d); d;
      [c] + Inst(units[1..], y)
  }

  lemma {:induction false} InstMatches(units: seq<Unit>, name: string, rest: seq<Unit>, tail: string)
    requires |name| == |units| && Match(rest, tail)
    requires forall i | 0 <= i < |units| :: Fits(units[i], name[i])
    ensures Match(units + rest, name + tail)
  {
    if units == [] {
      assert units + rest == rest && name + tail == tail;
    } else {
      InstMatches(units[1..], name[1..], rest, tail);
      assert (units + rest)[1..] == units[1..] + rest;
      assert (name + tail)[1..] == name[1..] + tail;
    }
  }

  lemma {:induction false} UnsatisfiableFindsNothing(units: seq<Unit>, i: nat, name: string)
    requires i < |units| && !Satisfiable(units[i]) && NoSlash(name)
    ensures !Match(units, name)
  {
    if units[0].Star? {
      assert Fits(Star, 'x');
      forall k | 0 <= k <= |name| ensures !Match(units[1..], name[k..]) {
        UnsatisfiableFindsNothing(units[1..], i - 1, name[k..]);
      }
    } else if i == 0 {
      assert name != "" ==> !Fits(units[0], name[0]);
    } else if name != "" {
      UnsatisfiableFindsNothing(units[1..], i - 1, name[1..]);
    }
  }

  ghost predicate AllSatisfiable(units: seq<Unit>)
  {
    forall i | 0 <= i < |units| :: Satisfiable(units[i])
  }

  /** A component with pattern characters in it matches a name that is not itself. */
  lemma PartInst(part: string) returns (name: string)
    requires Parse(part).Some? && AllSatisfiable(Parse(part).value)
    ensures NoSlash(name) && Match(Parse(part).value, name)
    ensures name == part <==> Literal(part)
  {
    assert part + "" == part;
    var units := NameUnits(part, "");
    assert units + [] == units;
    name := Inst(units, 'x');
    assert Match([], "");
    InstMatches(units, name, [], "");
    assert name + "" == name;
    if Literal(part) {
      LiteralName(part, name);
    } else {
      InstDiffers(part, units, name);
    }
  }

  lemma InstDiffers(part: string, units: seq<Unit>, name: string)
    requires !Literal(part) && |name| == |units| <= |part|
    requires |units| == |part| ==> Direct(part, units)
    requires forall i | 0 <= i < |units| :: units[i].Star? || units[i].AnyOne? ==> name[i] == 'x'
    ensures name != part
  {
    if |name| == |part| {
      var i :| 0 <= i < |part| && Meta(part[i]);
      assert name[i] == 'x';
    }
  }

  lemma LastUnits(part: string, tail: string) returns (units: seq<Unit>)
    requires Tail(tail) && Parse(part + tail).Some? && AllSatisfiable(Parse(part + tail).value)
    ensures Parse(tail).Some? && Parse(part + tail).value == units + Parse(tail).value
    ensures AllSatisfiable(units) && |units| <= |part| && (|units| == |part| ==> Direct(part, units))
    ensures Literal(part) ==> units == Lits(part)
  {
    TailUnits(tail);
    units := NameUnits(part, tail);
    var all := Parse(part + tail).value;
    forall i | 0 <= i < |units| ensures Satisfiable(units[i]) {
      assert all[i] == units[i];
    }
    if Literal(part) {
      ParseLiteral(part, tail);
      SameFront(units, Lits(part), Parse(tail).value);
    }
  }

  predicate OwnTag(tag: string)
  {
    tag == BACKUP || tag == WORK
  }

  lemma StarTail(tag: string, z: char)
    requires OwnTag(tag) && z != '/'
    ensures Tail(tag + "*") && Parse(tag + "*").Some?
    ensures Match(Parse(tag + "*").value, tag + [z]) && NoSlash(tag + [z])
  {
    assert PlainTag(tag) && ']' !in tag;
    LiteralStar(tag, tag + [z]);
  }

  lemma LastInst(part: string, tag: string, z: char) returns (front: string)
    requires OwnTag(tag) && z != '/'
    requires Parse(part + tag + "*").Some? && AllSatisfiable(Parse(part + tag + "*").value)
    ensures NoSlash(front + tag + [z]) && Match(Parse(part + tag + "*").value, front + tag + [z])
    ensures |front| <= |part| && (front == part <==> Literal(part))
  {
    var tail := tag + "*";
    assert part + tag + "*" == part + tail;
    StarTail(tag, z);
    var units := LastUnits(part, tail);
    front := Inst(units, 'x');
    InstMatches(units, front, Parse(tail).value, tag + [z]);
    assert front + (tag + [z]) == front + tag + [z];
    if !Literal(part) {
      InstDiffers(part, units, front);
    }
  }

  lemma SameFront(a: seq<Unit>, b: seq<Unit>, c: seq<Unit>)
    requires a + c == b + c
    ensures a == b
  {
    assert |a| == |b|;
    assert (a + c)[..|a|] == a && (b + c)[..|b|] == b;
  }

  lemma PrefixFacts(part: string, tag: string, name: string)
    requires part + tag <= name && tag != ""
    ensures |part| + |tag| <= |name| && name[..|part|] == part
    ensures name[|part|] == tag[0] && name[|part| + |tag| - 1] == tag[|tag| - 1]
  {
    assert (part + tag)[|part|] == tag[0] && (part + tag)[|part| + |tag| - 1] == tag[|tag| - 1];
    assert name[..|part + tag|] == part + tag;
    assert name[..|part|] == (part + tag)[..|part|];
  }

  /** Such a name is not one of the root's own. */
  lemma NotOwn(part: string, front: string, tag: string, z: char)
    requires front != part && |front| <= |part| && z != '.' && OwnTag(tag)
    ensures !(part + BACKUP <= front + tag + [z])
    ensures !(part + WORK <= front + tag + [z])
  {
    var name := front + tag + [z];
    assert |name| == |front| + |tag| + 1 && name[..|front|] == front && name[|front| + |tag|] == z;
    assert name[|front| + 1] == 's' && name[|front| + 2] == 'a' && name[|front| + 3] == 'f';
    if part + BACKUP <= name {
      PrefixFacts(part, BACKUP, name);
    }
    if part + WORK <= name {
      PrefixFacts(part, WORK, name);
    }
  }

  function Join(parts: seq<string>): string
    requires parts != []
  {
    if |parts| == 1 then parts[0] else parts[0] + "/" + Join(parts[1..])
  }

  lemma {:induction false} SplitJoin(parts: seq<string>)
    requires parts != [] && forall i | 0 <= i < |parts| :: NoSlash(parts[i])
    ensures Split(Join(parts)) == parts
  {
    if |parts| == 1 {
      SplitNoSlash(parts[0]);
    } else {
      SplitJoin(parts[1..]);
      SplitFront(parts[0], Join(parts[1..]));
      assert parts[0] + "/" + Join(parts[1..]) == parts[0] + ("/" + Join(parts[1..]));
    }
  }

  lemma {:induction false} SplitFront(u: string, rest: string)
    requires NoSlash(u)
    ensures Split(u + ("/" + rest)) == [u] + Split(rest)
  {
    var s := u + ("/" + rest);
    if u == "" {
      assert s[0] == '/' && s[1..] == rest;
    } else {
      assert s[0] == u[0] && s[1..] == u[1..] + ("/" + rest);
      SplitFront(u[1..], rest);
      assert [u[0]] + u[1..] == u;
    }
  }

  lemma {:induction false} PartsInst(parts: seq<string>) returns (names: seq<string>)
    requires forall i | 0 <= i < |parts| :: Parse(parts[i]).Some? && AllSatisfiable(Parse(parts[i]).value)
    ensures |names| == |parts|
    ensures forall i | 0 <= i < |parts| ::
              && NoSlash(names[i]) && Match(Parse(parts[i]).value, names[i])
              && (names[i] == parts[i] <==> Literal(parts[i]))
  {
    if parts == [] {
      names := [];
    } else {
      var name := PartInst(parts[0]);
      var more := PartsInst(parts[1..]);
      names := [name] + more;
    }
  }

  /** No directory of the root: not the root, and no name made with its tags. */
  predicate Foreign(root: string, path: string)
  {
    path != root && !Tagged(root, BACKUP, path) && !Tagged(root, WORK, path)
  }

  lemma PartsDiffer(root: string, names: seq<string>, path: string, i: nat)
    requires Split(path) == names && i < |Parents(root)| && i < |names| && names[i] != Parents(root)[i]
    ensures Foreign(root, path)
  {
    if Tagged(root, BACKUP, path) {
      TaggedComponents(root, BACKUP, path);
    }
    if Tagged(root, WORK, path) {
      TaggedComponents(root, WORK, path);
    }
  }

  lemma LastDiffers(root: string, path: string, front: string, tag: string, z: char)
    requires Last(path) == front + tag + [z] && front != Last(root) && |front| <= |Last(root)| && OwnTag(tag)
    requires z != '.' && (Last(root) != "" ==> z != Last(root)[|Last(root)| - 1])
    ensures Foreign(root, path)
  {
    NotOwn(Last(root), front, tag, z);
    assert Last(path)[|Last(path)| - 1] == z;
    if Tagged(root, BACKUP, path) {
      TaggedComponents(root, BACKUP, path);
    }
    if Tagged(root, WORK, path) {
      TaggedComponents(root, WORK, path);
    }
  }

  /** With a pattern character in the root path a pattern is malformed, or finds
      nothing at all, or finds a directory of another root. */
  lemma MetaFindsWrong(root: string, tag: string)
    requires !Literal(root) && OwnTag(tag)
    ensures !WellFormed(Pattern(root, tag))
            || (forall path :: !Finds(Pattern(root, tag), path))
            || exists path :: Finds(Pattern(root, tag), path) && Foreign(root, path)
  {
    var parts := Split(Pattern(root, tag));
    PatternComponents(root, tag);
    if WellFormed(Pattern(root, tag)) {
      if i :| 0 <= i < |parts| && !AllSatisfiable(Parse(parts[i]).value) {
        var j :| 0 <= j < |Parse(parts[i]).value| && !Satisfiable(Parse(parts[i]).value[j]);
        forall path ensures !Finds(Pattern(root, tag), path) {
          SplitHasNoSlash(path);
          if |Split(path)| == |parts| {
            UnsatisfiableFindsNothing(Parse(parts[i]).value, j, Split(path)[i]);
          }
        }
      } else {
        var path := WrongPath(root, tag);
      }
    }
  }

  lemma WrongPath(root: string, tag: string) returns (path: string)
    requires !Literal(root) && OwnTag(tag) && WellFormed(Pattern(root, tag))
    requires forall i | 0 <= i < |Split(Pattern(root, tag))| ::
               AllSatisfiable(Parse(Split(Pattern(root, tag))[i]).value)
    ensures Finds(Pattern(root, tag), path) && Foreign(root, path)
  {
    var parts := Split(Pattern(root, tag));
    PatternComponents(root, tag);
    var n := |parts| - 1;
    assert forall i | 0 <= i < n :: parts[i] == Parents(root)[i];
    var names := PartsInst(Parents(root));
    var last := Last(root);
    var z := if last != "" && last[|last| - 1] == 'x' then 'y' else 'x';
    assert parts[n] == last + tag + "*";
    var front := LastInst(last, tag, z);
    var all := names + [front + tag + [z]];
    path := Join(all);
    SplitJoin(all);
    IsForeign(root, tag, names, front, z, path);
  }

  /** Some component of the root path is not literal, so the name found differs there. */
  lemma IsForeign(root: string, tag: string, names: seq<string>, front: string, z: char, path: string)
    requires !Literal(root) && OwnTag(tag) && Split(path) == names + [front + tag + [z]]
    requires |names| == |Parents(root)|
    requires forall i | 0 <= i < |names| :: names[i] == Parents(root)[i] <==> Literal(Parents(root)[i])
    requires |front| <= |Last(root)| && (front == Last(root) <==> Literal(Last(root)))
    requires z != '.' && (Last(root) != "" ==> z != Last(root)[|Last(root)| - 1])
    ensures Foreign(root, path)
  {
    if i :| 0 <= i < |names| && names[i] != Parents(root)[i] {
      PartsDiffer(root, names + [front + tag + [z]], path, i);
    } else {
      AllLiteral(root);
      LastDiffers(root, path, front, tag, z);
    }
  }

  lemma {:induction false} AllLiteral(s: string)
    ensures (forall i | 0 <= i < |Split(s)| :: Literal(Split(s)[i])) ==> Literal(s)
  {
    if s != "" && forall i | 0 <= i < |Split(s)| :: Literal(Split(s)[i]) {
      var more := Split(s[1..]);
      forall i | 0 <= i < |more| ensures Literal(more[i]) {
        if s[0] == '/' {
          assert Split(s)[i + 1] == more[i];
        } else if i > 0 {
          assert Split(s)[i] == more[i];
        } else {
          assert Split(s)[0][1..] == more[0];
        }
      }
      AllLiteral(s[1..]);
      assert s[0] != '/' ==> Split(s)[0][0] == s[0];
      assert !Meta(s[0]);
      assert s == [s[0]] + s[1..];
    }
  }

  lemma OneChar(c: char, rest: string, first: bool)
    requires c != ']' && c != '-' && c != '\\' && rest != "" && rest[0] != '-'
    ensures var more := Ranges(rest, false);
            Ranges([c] + rest, first)
              == if more.None? then None else Some(([(c, c)] + more.value.0, more.value.1))
  {
    assert ([c] + rest)[1..] == rest;
  }

  /** A name with a character in brackets, like "Photos [1]", does not match itself. */
  lemma BracketMissesItself(front: string, c: char, tail: string, rest: string)
    requires Literal(front) && Parse(tail).Some? && c != ']' && c != '-' && c != '\\' && c != '^' && c != '['
    ensures Parse(front + ("[" + ([c] + ("]" + tail)))).Some?
    ensures !Match(Parse(front + ("[" + ([c] + ("]" + tail)))).value, front + ("[" + rest))
  {
    var inner := [c] + ("]" + tail);
    var p := "[" + inner;
    assert p[1..] == inner && p[1] == c;
    assert ("]" + tail)[1..] == tail;
    OneChar(c, "]" + tail, true);
    assert [(c, c)] + [] == [(c, c)];
    assert Ranges(inner, true) == Some(([(c, c)], tail));
    var units := [Class(false, [(c, c)])] + Parse(tail).value;
    assert Parse(p) == Some(units);
    ParseLiteral(front, p);
    var name := front + ("[" + rest);
    MatchLits(front, units, name);
    assert name[|front|..] == "[" + rest;
    assert !Fits(units[0], '[');
  }

  /** So no backup of such a root is ever found. */
  lemma BracketHidesBackups(dir: string, front: string, c: char, op: string)
    requires Literal(front) && NoSlash(front) && NoSlash(op)
    requires c != ']' && c != '-' && c != '\\' && c != '^' && c != '[' && c != '/'
    ensures var root := dir + ("/" + (front + ("[" + [c] + "]")));
            !Finds(Pattern(root, BACKUP), root + BACKUP + op)
  {
    var name := front + ("[" + [c] + "]");
    var root := dir + ("/" + name);
    var pattern, path := Pattern(root, BACKUP), root + BACKUP + op;
    LastOfRoot(dir, name);
    LastOfPattern(root, BACKUP, op);
    LiteralStar(BACKUP, BACKUP);
    BracketMissesItself(front, c, BACKUP + "*", [c] + ("]" + (BACKUP + op)));
    BracketText(front, c, BACKUP + "*");
    BracketText(front, c, BACKUP + op);
    assert name + BACKUP + "*" == name + (BACKUP + "*") && name + BACKUP + op == name + (BACKUP + op);
    if Finds(pattern, path) {
      FindsLast(pattern, path);
    }
  }

  lemma BracketText(front: string, c: char, rest: string)
    ensures front + ("[" + [c] + "]") + rest == front + ("[" + ([c] + ("]" + rest)))
  {
  }

  lemma FindsLast(pattern: string, path: string)
    requires Finds(pattern, path)
    ensures Parse(Last(pattern)).Some? && Match(Parse(Last(pattern)).value, Last(path))
  {
    var n := |Split(pattern)| - 1;
    assert Split(pattern)[n] == Last(pattern) && Split(path)[n] == Last(path);
  }

  lemma LastOfPattern(root: string, tag: string, op: string)
    requires NoSlash(tag) && NoSlash(op)
    ensures Last(Pattern(root, tag)) == Last(root) + tag + "*" && Last(root + tag + op) == Last(root) + tag + op
  {
    PatternComponents(root, tag);
    TagAfterRoot(root, tag, op);
    var path := root + tag + op;
    assert path == root + (tag + op) && path[|root + tag|..] == op;
    TaggedComponents(root, tag, path);
  }

  lemma {:induction false} LastOfRoot(dir: string, name: string)
    requires NoSlash(name)
    ensures Last(dir + ("/" + name)) == name
  {
    var s := dir + ("/" + name);
    if dir == "" {
      SplitNoSlash(name);
      assert s[0] == '/' && s[1..] == name;
    } else {
      assert s[0] == dir[0] && s[1..] == dir[1..] + ("/" + name);
      LastOfRoot(dir[1..], name);
      SplitTwo(dir[1..], name);
    }
  }

  lemma {:induction false} SplitTwo(dir: string, name: string)
    ensures |Split(dir + ("/" + name))| >= 2
  {
    var s := dir + ("/" + name);
    if dir == "" {
      assert s[0] == '/';
    } else {
      assert s[1..] == dir[1..] + ("/" + name);
      SplitTwo(dir[1..], name);
    }
  }
}
