/** Path components: splitting, cleaning, joining, and what a path means. */
module PathClean {

  predicate IsSeparator(c: char)
  {
    c == '/' || c == '\\'
  }

  // ------------------------------------------------------ split and clean

  /** The pieces between separators, `cur` being the piece begun so far. Empty
      pieces are not pieces. */
  function Components(cur: string, s: string): seq<string>
    decreases s
  {
    if s == "" then (if cur == "" then [] else [cur])
    else if IsSeparator(s[0]) then (if cur == "" then [] else [cur]) + Components("", s[1..])
    else Components(cur + [s[0]], s[1..])
  }

  /** One more component: "." is dropped, ".." takes the last name back. */
  function Push(parts: seq<string>, part: string): seq<string>
  {
    if part == "" || part == "." then parts
    else if part == ".." then
      (if parts != [] && parts[|parts| - 1] != "" && parts[|parts| - 1] != ".."
       then parts[..|parts| - 1] else parts + [part])
    else parts + [part]
  }

  function CleanOnto(parts: seq<string>, comps: seq<string>): seq<string>
    decreases comps
  {
    if comps == [] then parts else CleanOnto(Push(parts, comps[0]), comps[1..])
  }

  /** The cleaned components of a string, as the parser's one pass finds them. */
  function CleanFrom(parts: seq<string>, cur: string, s: string): seq<string>
    decreases s
  {
    if s == "" then Push(parts, cur)
    else if IsSeparator(s[0]) then CleanFrom(Push(parts, cur), "", s[1..])
    else CleanFrom(parts, cur + [s[0]], s[1..])
  }

  lemma {:induction false} OnePassIsSplitThenClean(parts: seq<string>, cur: string, s: string)
    ensures CleanFrom(parts, cur, s) == CleanOnto(parts, Components(cur, s))
    decreases s
  {
    if s == "" {
    } else if IsSeparator(s[0]) {
      OnePassIsSplitThenClean(Push(parts, cur), "", s[1..]);
      if cur == "" {
        assert [] + Components("", s[1..]) == Components("", s[1..]);
      } else {
        assert ([cur] + Components("", s[1..]))[1..] == Components("", s[1..]);
      }
    } else {
      OnePassIsSplitThenClean(parts, cur + [s[0]], s[1..]);
    }
  }

  // ----------------------------------------------------------- normal form

  predicate Name(part: string)
  {
    part != "" && part != "." && part != ".." && forall i | 0 <= i < |part| :: !IsSeparator(part[i])
  }

  /** A leading run of "..", then names. */
  predicate Normal(parts: seq<string>)
  {
    && (forall i | 0 <= i < |parts| :: parts[i] == ".." || Name(parts[i]))
    && (forall i, j | 0 <= i < j < |parts| && parts[j] == ".." :: parts[i] == "..")
  }

  predicate Piece(part: string)
  {
    forall i | 0 <= i < |part| :: !IsSeparator(part[i])
  }

  lemma PushNormal(parts: seq<string>, part: string)
    requires Normal(parts) && Piece(part)
    ensures Normal(Push(parts, part))
  {
  }

  lemma {:induction false} ComponentsArePieces(cur: string, s: string)
    requires Piece(cur)
    ensures forall i | 0 <= i < |Components(cur, s)| :: Piece(Components(cur, s)[i]) && Components(cur, s)[i] != ""
    decreases s
  {
    if s != "" {
      if IsSeparator(s[0]) {
        ComponentsArePieces("", s[1..]);
      } else {
        ComponentsArePieces(cur + [s[0]], s[1..]);
      }
    }
  }

  lemma {:induction false} CleanNormal(parts: seq<string>, comps: seq<string>)
    requires Normal(parts) && forall i | 0 <= i < |comps| :: Piece(comps[i])
    ensures Normal(CleanOnto(parts, comps))
    decreases comps
  {
    if comps != [] {
      PushNormal(parts, comps[0]);
      CleanNormal(Push(parts, comps[0]), comps[1..]);
    }
  }

  /** Cleaning what is clean changes nothing. */
  lemma {:induction false} CleanFixesNormal(parts: seq<string>, rest: seq<string>)
    requires Normal(parts + rest)
    ensures CleanOnto(parts, rest) == parts + rest
    decreases rest
  {
    if rest != [] {
      var all := parts + rest;
      assert all[|parts|] == rest[0];
      if rest[0] == ".." && parts != [] {
        assert all[|parts| - 1] == "..";
      }
      assert Push(parts, rest[0]) == parts + [rest[0]];
      assert (parts + [rest[0]]) + rest[1..] == all;
      CleanFixesNormal(parts + [rest[0]], rest[1..]);
    } else {
      assert parts + rest == parts;
    }
  }

  // --------------------------------------------------------------- meaning

  /** Entering a component from a directory given by its names. */
  function Enter(dir: seq<string>, part: string): seq<string>
  {
    if part == "" || part == "." then dir
    else if part == ".." then (if dir == [] then [] else dir[..|dir| - 1])
    else dir + [part]
  }

  /** Following components from a directory: what a path means. */
  function Resolve(dir: seq<string>, comps: seq<string>): seq<string>
  {
    if comps == [] then dir else Enter(Resolve(dir, comps[..|comps| - 1]), comps[|comps| - 1])
  }

  /** From every directory the two lead to the same place. */
  ghost predicate SameMeaning(p: seq<string>, q: seq<string>)
  {
    forall dir :: Resolve(dir, p) == Resolve(dir, q)
  }

  lemma ResolvePush(dir: seq<string>, parts: seq<string>, part: string)
    requires Normal(parts) && Piece(part)
    ensures Resolve(dir, Push(parts, part)) == Enter(Resolve(dir, parts), part)
  {
    if Push(parts, part) == parts + [part] {
      assert (parts + [part])[..|parts|] == parts;
    }
  }

  lemma {:induction false} ResolveSplit(dir: seq<string>, a: seq<string>, b: seq<string>)
    ensures Resolve(dir, a + b) == Resolve(Resolve(dir, a), b)
  {
    if b == [] {
      assert a + b == a;
    } else {
      ResolveSplit(dir, a, b[..|b| - 1]);
      assert (a + b)[..|a + b| - 1] == a + b[..|b| - 1];
    }
  }

  /** From every directory the cleaned path leads where the path leads. */
  lemma {:induction false} CleanKeepsMeaning(dir: seq<string>, parts: seq<string>, comps: seq<string>)
    requires Normal(parts) && forall i | 0 <= i < |comps| :: Piece(comps[i])
    ensures Resolve(dir, CleanOnto(parts, comps)) == Resolve(Resolve(dir, parts), comps)
    decreases comps
  {
    if comps != [] {
      PushNormal(parts, comps[0]);
      CleanKeepsMeaning(dir, Push(parts, comps[0]), comps[1..]);
      ResolvePush(dir, parts, comps[0]);
      ResolveSplit(Resolve(dir, parts), [comps[0]], comps[1..]);
      assert [comps[0]] + comps[1..] == comps;
      assert Resolve(Resolve(dir, parts), [comps[0]]) == Enter(Resolve(dir, parts), comps[0]) by {
        assert [comps[0]][..0] == [];
      }
    }
  }

  // ------------------------------------------------------------- canonicity

  function Ups(parts: seq<string>): nat
    ensures Ups(parts) <= |parts|
  {
    if parts != [] && parts[0] == ".." then 1 + Ups(parts[1..]) else 0
  }

  lemma {:induction false} NormalShape(parts: seq<string>)
    requires Normal(parts)
    ensures forall i | 0 <= i < |parts| :: parts[i] == ".." <==> i < Ups(parts)
  {
    if parts != [] {
      assert Normal(parts[1..]);
      NormalShape(parts[1..]);
      forall i | 0 <= i < |parts| ensures parts[i] == ".." <==> i < Ups(parts) {
        if i > 0 {
          assert parts[i] == parts[1..][i - 1];
        }
      }
    }
  }

  /** From a directory that is deep enough, the result is what is left after the
      climb, with the names added. */
  lemma {:induction false} ResolveNormal(dir: seq<string>, parts: seq<string>, k: nat)
    requires Normal(parts) && Ups(parts) <= |dir| && k <= |parts|
    ensures k <= Ups(parts) ==> Resolve(dir, parts[..k]) == dir[..|dir| - k]
    ensures k > Ups(parts) ==>
              Resolve(dir, parts[..k]) == dir[..|dir| - Ups(parts)] + parts[Ups(parts)..k]
  {
    if k > 0 {
      ResolveNormal(dir, parts, k - 1);
      NormalShape(parts);
      assert parts[..k][..k - 1] == parts[..k - 1];
      var part := parts[k - 1];
      assert Resolve(dir, parts[..k]) == Enter(Resolve(dir, parts[..k - 1]), part);
      if k > Ups(parts) {
        assert part != ".." && Name(part);
        assert parts[Ups(parts)..k] == parts[Ups(parts)..k - 1] + [part];
      }
    }
  }

  /** All of it at once. */
  lemma ResolveWhole(dir: seq<string>, parts: seq<string>)
    requires Normal(parts) && Ups(parts) <= |dir|
    ensures Resolve(dir, parts) == dir[..|dir| - Ups(parts)] + parts[Ups(parts)..]
  {
    ResolveNormal(dir, parts, |parts|);
    assert parts[..|parts|] == parts;
    assert parts[Ups(parts)..|parts|] == parts[Ups(parts)..];
    if |parts| == Ups(parts) {
      assert parts[Ups(parts)..] == [];
    }
  }

  lemma Unused(parts: seq<string>) returns (name: string)
    ensures name !in parts
  {
    name := Longer(parts);
    LongerIsLonger(parts);
  }

  function Longer(parts: seq<string>): string
  {
    if parts == [] then "x" else parts[0] + Longer(parts[1..])
  }

  lemma {:induction false} LongerIsLonger(parts: seq<string>)
    ensures |Longer(parts)| >= 1 && forall i | 0 <= i < |parts| :: |parts[i]| < |Longer(parts)|
  {
    if parts != [] {
      LongerIsLonger(parts[1..]);
      forall i | 0 <= i < |parts| ensures |parts[i]| < |Longer(parts)| {
        if i > 0 {
          assert parts[i] == parts[1..][i - 1];
        }
      }
    }
  }

  /** From a directory of strange names, as deep as `n`: a strange name is left
      exactly if the path climbs less than `n`. */
  lemma StrangeNamesLeft(parts: seq<string>, name: string, n: nat)
    requires Normal(parts) && Ups(parts) <= n && name !in parts
    ensures name in Resolve(seq(n, _ => name), parts) <==> Ups(parts) < n
  {
    var dir := seq(n, _ => name);
    ResolveWhole(dir, parts);
    StrangeIn(dir[..n - Ups(parts)], parts, Ups(parts), name);
  }

  lemma StrangeIn(above: seq<string>, parts: seq<string>, k: nat, name: string)
    requires name !in parts && k <= |parts| && forall i | 0 <= i < |above| :: above[i] == name
    ensures name in above + parts[k..] <==> above != []
  {
    var left := above + parts[k..];
    if above != [] {
      assert left[0] == name;
    } else {
      assert left == parts[k..];
    }
  }

  lemma SameMeaningSameUps(p: seq<string>, q: seq<string>)
    requires Normal(p) && Normal(q)
    requires SameMeaning(p, q)
    ensures Ups(p) >= Ups(q)
  {
    var name := Unused(p + q);
    assert name !in p && name !in q;
    var n := Ups(q);
    StrangeNamesLeft(q, name, n);
    if Ups(p) <= n {
      StrangeNamesLeft(p, name, n);
      assert Resolve(seq(n, _ => name), p) == Resolve(seq(n, _ => name), q);
    }
  }

  lemma SameNames(p: seq<string>, q: seq<string>)
    requires Normal(p) && Normal(q) && Ups(p) == Ups(q)
    requires SameMeaning(p, q)
    ensures p[Ups(p)..] == q[Ups(q)..]
  {
    var dir := seq(Ups(p), _ => "d");
    ResolveWhole(dir, p);
    ResolveWhole(dir, q);
    assert dir[..0] + p[Ups(p)..] == p[Ups(p)..];
    assert dir[..0] + q[Ups(q)..] == q[Ups(q)..];
    assert Resolve(dir, p) == Resolve(dir, q);
  }

  /** Two normal forms that mean the same are the same: cleaning is canonical. */
  lemma NormalFormIsCanonical(p: seq<string>, q: seq<string>)
    requires Normal(p) && Normal(q)
    requires SameMeaning(p, q)
    ensures p == q
  {
    SameMeaningSameUps(p, q);
    SameMeaningSameUps(q, p);
    SameNames(p, q);
    NormalShape(p);
    NormalShape(q);
    assert p[..Ups(p)] == q[..Ups(q)];
    assert p == p[..Ups(p)] + p[Ups(p)..];
    assert q == q[..Ups(q)] + q[Ups(q)..];
  }

  // ------------------------------------------------------------------ joining

  function Join(parts: seq<string>, separator: char): string
  {
    if parts == [] then "" else if |parts| == 1 then parts[0]
    else parts[0] + [separator] + Join(parts[1..], separator)
  }

  lemma {:induction false} ComponentsOfPiece(cur: string, part: string, rest: string)
    requires Piece(part)
    ensures Components(cur, part + rest) == Components(cur + part, rest)
    decreases part
  {
    if part == "" {
      assert part + rest == rest && cur + part == cur;
    } else {
      assert (part + rest)[1..] == part[1..] + rest;
      ComponentsOfPiece(cur + [part[0]], part[1..], rest);
      assert cur + [part[0]] + part[1..] == cur + part;
    }
  }

  /** Splitting what was joined gives the parts back. */
  lemma {:induction false} SplitOfJoin(parts: seq<string>, separator: char)
    requires IsSeparator(separator)
    requires forall i | 0 <= i < |parts| :: Piece(parts[i]) && parts[i] != ""
    ensures Components("", Join(parts, separator)) == parts
  {
    if parts == [] {
    } else if |parts| == 1 {
      ComponentsOfPiece("", parts[0], "");
      assert parts[0] + "" == parts[0] && "" + parts[0] == parts[0];
    } else {
      var tail := [separator] + Join(parts[1..], separator);
      assert Join(parts, separator) == parts[0] + tail;
      ComponentsOfPiece("", parts[0], tail);
      assert "" + parts[0] == parts[0];
      assert tail[1..] == Join(parts[1..], separator);
      SplitOfJoin(parts[1..], separator);
      assert [parts[0]] + parts[1..] == parts;
    }
  }
}
