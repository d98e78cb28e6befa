/** Byte-wise order on names, the order of Go's `<` on strings and of `sort.Strings`. */
module Order {

  predicate Leq(a: string, b: string)
  {
    if a == [] then true
    else if b == [] then false
    else if a[0] != b[0] then a[0] < b[0]
    else Leq(a[1..], b[1..])
  }

  predicate Less(a: string, b: string)
  {
    a != b && Leq(a, b)
  }

  /** The first place where the two differ. */
  predicate DifferFirstAt(a: string, b: string, k: int)
  {
    0 <= k < |a| && k < |b| && a[..k] == b[..k] && a[k] != b[k]
  }

  lemma SameBefore(a: string, b: string, k: int)
    requires DifferFirstAt(a, b, k)
    ensures forall i | 0 <= i < k :: a[i] == b[i]
  {
    assert forall i | 0 <= i < k :: a[i] == a[..k][i] && b[i] == b[..k][i];
  }

  /** A prefix comes first; otherwise the smaller character where they first differ decides. */
  lemma {:induction false} LeqMeans(a: string, b: string)
    ensures Leq(a, b) <==> a <= b || exists k :: DifferFirstAt(a, b, k) && a[k] < b[k]
  {
    if a != [] && b != [] {
      if a[0] != b[0] {
        assert DifferFirstAt(a, b, 0);
        forall k | DifferFirstAt(a, b, k) ensures k == 0 {
          SameBefore(a, b, k);
        }
      } else {
        LeqMeans(a[1..], b[1..]);
        assert a <= b <==> a[1..] <= b[1..] by {
          assert a == [a[0]] + a[1..] && b == [b[0]] + b[1..];
        }
        if k :| DifferFirstAt(a[1..], b[1..], k) && a[1..][k] < b[1..][k] {
          assert a[..k + 1] == [a[0]] + a[1..][..k] && b[..k + 1] == [b[0]] + b[1..][..k];
          assert DifferFirstAt(a, b, k + 1);
        }
        if k :| DifferFirstAt(a, b, k) && a[k] < b[k] {
          assert a[1..][..k - 1] == a[..k][1..] && b[1..][..k - 1] == b[..k][1..];
          assert DifferFirstAt(a[1..], b[1..], k - 1);
        }
      }
    }
  }

  lemma {:induction false} LeqTotal(a: string, b: string)
    ensures Leq(a, b) || Leq(b, a)
  {
    if a != [] && b != [] && a[0] == b[0] {
      LeqTotal(a[1..], b[1..]);
    }
  }

  lemma {:induction false} LeqAntisymmetric(a: string, b: string)
    requires Leq(a, b) && Leq(b, a)
    ensures a == b
  {
    if a != [] && b != [] {
      LeqAntisymmetric(a[1..], b[1..]);
      assert a == [a[0]] + a[1..];
      assert b == [b[0]] + b[1..];
    }
  }

  lemma {:induction false} LeqTransitive(a: string, b: string, c: string)
    requires Leq(a, b) && Leq(b, c)
    ensures Leq(a, c)
  {
    if a != [] && b != [] && c != [] && a[0] == b[0] == c[0] {
      LeqTransitive(a[1..], b[1..], c[1..]);
    }
  }

  // ---------------------------------------------------------------- sorting

  predicate Sorted(s: seq<string>)
  {
    forall i, j | 0 <= i < j < |s| :: Leq(s[i], s[j])
  }

  function Insert(s: seq<string>, x: string): seq<string>
  {
    if s == [] || Leq(x, s[0]) then [x] + s else [s[0]] + Insert(s[1..], x)
  }

  function Sort(s: seq<string>): seq<string>
  {
    if s == [] then [] else Insert(Sort(s[..|s| - 1]), s[|s| - 1])
  }

  lemma {:induction false} InsertSorts(s: seq<string>, x: string)
    requires Sorted(s)
    ensures Sorted(Insert(s, x)) && multiset(Insert(s, x)) == multiset(s) + multiset{x}
    ensures |Insert(s, x)| == |s| + 1
  {
    if s == [] {
    } else if Leq(x, s[0]) {
      forall j | 0 <= j < |s| ensures Leq(x, s[j]) {
        if j > 0 {
          LeqTransitive(x, s[0], s[j]);
        }
      }
    } else {
      LeqTotal(x, s[0]);
      InsertSorts(s[1..], x);
      var rest := Insert(s[1..], x);
      assert s == [s[0]] + s[1..];
      forall y | y in rest ensures Leq(s[0], y) {
        assert y in multiset(rest);
        assert y == x || y in s[1..];
      }
    }
  }

  /** `Sort` gives the sorted permutation of its argument. */
  lemma {:induction false} SortSorts(s: seq<string>)
    ensures Sorted(Sort(s)) && multiset(Sort(s)) == multiset(s) && |Sort(s)| == |s|
  {
    if s != [] {
      SortSorts(s[..|s| - 1]);
      InsertSorts(Sort(s[..|s| - 1]), s[|s| - 1]);
      assert s == s[..|s| - 1] + [s[|s| - 1]];
    }
  }

  lemma {:induction false} InsertLast(s: seq<string>, x: string)
    requires Sorted(s) && forall y | y in s :: Leq(y, x)
    ensures Insert(s, x) == s + [x]
  {
    if s == [] {
    } else if Leq(x, s[0]) {
      forall i | 0 <= i < |s| ensures s[i] == x {
        LeqAntisymmetric(s[0], x);
        LeqAntisymmetric(s[i], x);
      }
    } else {
      InsertLast(s[1..], x);
    }
  }

  lemma {:induction false} SortFixesSorted(s: seq<string>)
    requires Sorted(s)
    ensures Sort(s) == s
  {
    if s != [] {
      SortFixesSorted(s[..|s| - 1]);
      InsertLast(s[..|s| - 1], s[|s| - 1]);
    }
  }

  /** Inserting below the k-th element pushes exactly that element out of the first k. */
  lemma {:induction false} InsertPrefix(s: seq<string>, x: string, k: nat)
    requires Sorted(s) && 0 < k <= |s|
    ensures |Insert(s, x)| == |s| + 1
    ensures Insert(s, x)[..k] == if Leq(s[k - 1], x) then s[..k] else Insert(s[..k - 1], x)
  {
    InsertSorts(s, x);
    if Leq(x, s[0]) {
      if Leq(s[k - 1], x) {
        forall i | 0 <= i < k ensures s[i] == x {
          if i > 0 { LeqTransitive(x, s[0], s[i]); }
          if i < k - 1 { LeqTransitive(s[i], s[k - 1], x); }
          LeqAntisymmetric(s[i], x);
        }
      }
    } else if k == 1 {
      LeqTotal(x, s[0]);
    } else {
      InsertPrefix(s[1..], x, k - 1);
      assert Insert(s, x)[..k] == [s[0]] + Insert(s[1..], x)[..k - 1];
      assert s[1..][..k - 2] == s[..k - 1][1..];
    }
  }
}
