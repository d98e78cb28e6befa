/** Joining components to a parsed path, and the containment test. */
module PathContains {
  import opened PathClean
  import opened PathParser

  /** The components a caller sees: without the marker of an absolute path, but a
      root keeps its one empty part. */
  function Parts(info: Info): seq<string>
  {
    if |info.parts| > 1 && |info.parts[0]| == 0 then info.parts[1..] else info.parts
  }

  /** Components are appended as they are; nothing is cleaned. */
  function JoinParts(info: Info, parts: seq<string>): Info
  {
    info.(parts := info.parts + parts)
  }

  /** New components; an absolute path keeps its marker. */
  function ReplaceParts(info: Info, parts: seq<string>): Info
  {
    if info.parts != [] && info.parts[0] == "" && (parts == [] || parts[0] != "")
    then info.(parts := [""] + parts) else info.(parts := parts)
  }

  predicate IsRoot(parts: seq<string>)
  {
    parts == [""] || parts == ["", ""]
  }

  predicate Contains(info: Info, other: Info)
  {
    if Parts(info) == [] || Parts(other) == []
    then Parts(info) == [] && Parts(other) == [] && Encode(info) == Encode(other)
    else
      && info.host == other.host
      && if IsRoot(Parts(info))
         then IsRoot(Parts(other)) || exists i :: 0 <= i < |Parts(other)| && Parts(other)[i] != ""
         else Parts(info) <= Parts(other)
  }

  method ContainsPathInfo(info: Info, other: Info) returns (contained: bool)
    ensures contained <==> Contains(info, other)
  {
    var mine, theirs := Parts(info), Parts(other);
    if |mine| == 0 && |theirs| == 0 {
      var a := EncodePath(info);
      var b := EncodePath(other);
      return a == b;
    }
    if |mine| == 0 || |theirs| == 0 {
      return false;
    }
    if info.host != other.host {
      return false;
    }
    if (|mine| == 1 && mine[0] == "") || (|mine| == 2 && mine[0] == "" && mine[1] == "") {
      if (|theirs| == 1 && theirs[0] == "") || (|theirs| == 2 && theirs[0] == "" && theirs[1] == "") {
        return true;
      }
      for i := 0 to |theirs|
        invariant forall k | 0 <= k < i :: theirs[k] == ""
      {
        if theirs[i] != "" {
          return true;
        }
      }
      return false;
    }
    if |theirs| >= |mine| {
      for i := 0 to |mine|
        invariant mine[..i] == theirs[..i]
      {
        if mine[i] != theirs[i] {
          return false;
        }
      }
      return true;
    }
    return false;
  }

  /** An info as the parser makes it. */
  predicate WellMade(info: Info)
  {
    && Normal(Names(info)) && IsSeparator(info.separator)
    && info.parts == Marked(Names(info), info.kind)
    && (info.host == "" || DriveString(info.host))
    && (info.kind == LocalAbsolute && info.host == "" ==> info.separator == '/')
    && (info.kind == LocalRelative && info.host != "" ==> info.parts == [])
    && (info.kind == Unknown ==> info.host == "" && info.parts == [])
  }

  lemma ParsedIsWellMade(path: string, system: char)
    requires IsSeparator(system) && Parse(path, system).Path?
    ensures WellMade(Parse(path, system).info)
    ensures !HoldsDrive(Names(Parse(path, system).info))
  {
    if path != "" {
      NamesOfParsed(path, system);
      ParsedIsNormalAndMeansTheSame(path, system);
      FirstSeparatorIsOne(AfterDrive(path), system);
    }
  }

  lemma PartsOfWellMade(info: Info)
    requires WellMade(info)
    ensures Parts(info) == if info.kind == LocalAbsolute && Names(info) == [] then [""] else Names(info)
  {
    if info.kind == LocalAbsolute && Names(info) != [] {
      assert ([""] + Names(info))[1..] == Names(info);
    }
  }

  /** For absolute paths the test is: same drive, and the names continue the names. */
  lemma AbsoluteContainment(a: Info, b: Info)
    requires WellMade(a) && WellMade(b) && a.kind == LocalAbsolute && b.kind == LocalAbsolute
    ensures Contains(a, b) <==> a.host == b.host && Names(a) <= Names(b)
  {
    PartsOfWellMade(a);
    PartsOfWellMade(b);
    if Names(a) == [] && Names(b) != [] {
      assert Parts(b)[0] != "";
    }
    if Names(a) != [] && Names(b) == [] {
      assert Parts(a)[0] != "";
    }
  }

  /** For relative paths: same drive, and the names continue the names; but a path
      without names contains only a path without names. */
  lemma RelativeContainment(a: Info, b: Info)
    requires WellMade(a) && WellMade(b) && a.kind != LocalAbsolute && b.kind != LocalAbsolute
    ensures Contains(a, b) <==> a.host == b.host && Names(a) <= Names(b) && (Names(a) == [] ==> Names(b) == [])
  {
    PartsOfWellMade(a);
    PartsOfWellMade(b);
    assert Encode(Info(a.host, a.separator, [], a.kind)) == a.host + "" == a.host;
    assert Encode(Info(b.host, b.separator, [], b.kind)) == b.host + "" == b.host;
    assert Names(a) != [] ==> Names(a)[0] != "";
  }

  /** The test does not look at the kind: a relative path is contained in an
      absolute one with the same names. */
  lemma ContainmentIgnoresKind(names: seq<string>, separator: char)
    requires Normal(names) && names != []
    ensures Contains(Info("", separator, Marked(names, LocalAbsolute), LocalAbsolute),
                     Info("", separator, names, LocalRelative))
  {
    assert ([""] + names)[1..] == names;
  }

  /** A path that continues another stays under it, from everywhere deep enough,
      exactly if it climbs no further. */
  lemma StaysUnder(a: seq<string>, b: seq<string>)
    requires Normal(a) && Normal(b) && a <= b
    ensures (forall dir | |dir| >= Ups(b) :: Resolve(dir, a) <= Resolve(dir, b)) <==> Ups(a) == Ups(b)
  {
    UpsOfPrefix(a, b);
    if Ups(a) == Ups(b) {
      forall dir | |dir| >= Ups(b) ensures Resolve(dir, a) <= Resolve(dir, b) {
        SameClimbStays(a, b, dir);
      }
    } else {
      var dir := LongerClimbLeaves(a, b);
      assert !(Resolve(dir, a) <= Resolve(dir, b));
    }
  }

  lemma SameClimbStays(a: seq<string>, b: seq<string>, dir: seq<string>)
    requires Normal(a) && Normal(b) && a <= b && Ups(a) == Ups(b) <= |dir|
    ensures Resolve(dir, a) <= Resolve(dir, b)
  {
    var front := dir[..|dir| - Ups(a)];
    Continued(front, a, b, Ups(a));
    assert Resolve(dir, a) == front + a[Ups(a)..] by {
      ResolveWhole(dir, a);
    }
    assert Resolve(dir, b) == front + b[Ups(a)..] by {
      ResolveWhole(dir, b);
    }
  }

  lemma Continued(front: seq<string>, a: seq<string>, b: seq<string>, k: nat)
    requires a <= b && k <= |a|
    ensures front + a[k..] <= front + b[k..]
  {
    DroppedPrefix(a, b, k);
    PrefixBehind(front, a[k..], b[k..]);
  }

  lemma DroppedPrefix(a: seq<string>, b: seq<string>, k: nat)
    requires a <= b && k <= |a|
    ensures a[k..] <= b[k..]
  {
    assert b == a + b[|a|..];
    assert b[k..] == a[k..] + b[|a|..];
  }

  lemma PrefixBehind(front: seq<string>, p: seq<string>, q: seq<string>)
    requires p <= q
    ensures front + p <= front + q
  {
    assert q == p + q[|p|..];
    assert front + q == (front + p) + q[|p|..];
  }

  lemma LongerClimbLeaves(a: seq<string>, b: seq<string>) returns (dir: seq<string>)
    requires Normal(a) && Normal(b) && a <= b && Ups(a) < Ups(b)
    ensures |dir| == Ups(b) && !(Resolve(dir, a) <= Resolve(dir, b))
  {
    var name := Unused(b);
    dir := seq(Ups(b), _ => name);
    assert name !in a;
    StrangeNamesLeft(a, name, Ups(b));
    StrangeNamesLeft(b, name, Ups(b));
    NotPrefix(Resolve(dir, a), Resolve(dir, b), name);
  }

  lemma NotPrefix(p: seq<string>, q: seq<string>, name: string)
    requires name in p && name !in q
    ensures !(p <= q)
  {
  }

  lemma UpsOfPrefix(a: seq<string>, b: seq<string>)
    requires Normal(a) && Normal(b) && a <= b
    ensures Ups(a) <= Ups(b)
  {
    NormalShape(a);
    NormalShape(b);
    if Ups(a) > 0 {
      assert a[Ups(a) - 1] == "..";
      assert b[Ups(a) - 1] == "..";
    }
  }
}
