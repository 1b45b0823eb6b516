/**
  Python's ordering of `str` values (code point by code point, a proper
  prefix first) and `sorted(set(xs))` on top of it: the order used both for
  the groups of `DataFrame.groupby` and for a parent's attribute value list.
 */
module Order {

  /** Python's `a < b` on strings. */
  predicate Less(a: string, b: string) {
    if a == [] then b != []
    else if b == [] then false
    else if a[0] != b[0] then a[0] < b[0]
    else Less(a[1..], b[1..])
  }

  lemma {:induction false} LessIrreflexive(a: string)
    ensures !Less(a, a)
  {
    if a != [] {
      LessIrreflexive(a[1..]);
    }
  }

  lemma {:induction false} LessAsymmetric(a: string, b: string)
    ensures Less(a, b) ==> !Less(b, a)
  {
    if a != [] && b != [] && a[0] == b[0] {
      LessAsymmetric(a[1..], b[1..]);
    }
  }

  lemma {:induction false} LessTransitive(a: string, b: string, c: string)
    ensures Less(a, b) && Less(b, c) ==> Less(a, c)
  {
    if a != [] && b != [] && c != [] && a[0] == b[0] && b[0] == c[0] {
      LessTransitive(a[1..], b[1..], c[1..]);
    }
  }

  lemma {:induction false} LessTotal(a: string, b: string)
    ensures a == b || Less(a, b) || Less(b, a)
  {
    if a != [] && b != [] && a[0] == b[0] {
      LessTotal(a[1..], b[1..]);
      if a[1..] == b[1..] {
        assert a == [a[0]] + a[1..] && b == [b[0]] + b[1..];
      }
    }
  }

  predicate StrictlySorted(xs: seq<string>) {
    forall i, j :: 0 <= i < j < |xs| ==> Less(xs[i], xs[j])
  }

  /** A strictly sorted sequence has no repeated element. */
  lemma StrictlySortedDistinct(xs: seq<string>)
    requires StrictlySorted(xs)
    ensures forall i, j :: 0 <= i < |xs| && 0 <= j < |xs| && xs[i] == xs[j] ==> i == j
  {
    forall i, j | 0 <= i < |xs| && 0 <= j < |xs| && xs[i] == xs[j]
      ensures i == j
    {
      LessIrreflexive(xs[i]);
    }
  }

  /** Adds `x` to a strictly sorted sequence, unless it is already there. */
  function Insert(x: string, xs: seq<string>): (r: seq<string>)
    requires StrictlySorted(xs)
    ensures StrictlySorted(r)
    ensures forall y :: y in r <==> y == x || y in xs
  {
    if xs == [] then [x]
    else if x == xs[0] then xs
    else if Less(x, xs[0]) then
      assert forall j :: 0 < j < |xs| ==> Less(x, xs[j]) by {
        forall j | 0 < j < |xs| ensures Less(x, xs[j]) {
          LessTransitive(x, xs[0], xs[j]);
        }
      }
      [x] + xs
    else
      var rest := Insert(x, xs[1..]);
      LessTotal(x, xs[0]);
      assert forall y :: y in rest ==> Less(xs[0], y);
      [xs[0]] + rest
  }

  /** Python's `sorted(set(xs))`. */
  function SortedDistinct(xs: seq<string>): (r: seq<string>)
    ensures StrictlySorted(r)
    ensures forall y :: y in r <==> y in xs
    ensures |r| <= |xs|
    ensures xs == [] <==> r == []
  {
    if xs == [] then []
    else
      var rest := SortedDistinct(xs[1..]);
      var r := Insert(xs[0], rest);
      assert |r| <= |rest| + 1 by {
        InsertLength(xs[0], rest);
      }
      r
  }

  lemma {:induction false} InsertLength(x: string, xs: seq<string>)
    requires StrictlySorted(xs)
    ensures |Insert(x, xs)| <= |xs| + 1
  {
    if xs != [] && x != xs[0] && !Less(x, xs[0]) {
      InsertLength(x, xs[1..]);
    }
  }

  /** There is only one strictly sorted sequence with a given set of
      elements, so `SortedDistinct` is exactly Python's `sorted(set(xs))`. */
  lemma {:induction false} StrictlySortedUnique(a: seq<string>, b: seq<string>)
    requires StrictlySorted(a) && StrictlySorted(b)
    requires forall y :: y in a <==> y in b
    ensures a == b
  {
    if a != [] && b != [] {
      if a[0] != b[0] {
        assert a[0] in b;
        assert b[0] in a;
        var i :| 0 <= i < |b| && b[i] == a[0];
        var j :| 0 <= j < |a| && a[j] == b[0];
        assert Less(b[0], a[0]);
        assert Less(a[0], b[0]);
        LessAsymmetric(a[0], b[0]);
      }
      StrictlySortedDistinct(a);
      StrictlySortedDistinct(b);
      forall y ensures y in a[1..] <==> y in b[1..] {
        if y in a[1..] {
          var k :| 1 <= k < |a| && a[k] == y;
          assert y != a[0] && a[k] in a && y in b;
          var m :| 0 <= m < |b| && b[m] == y;
          assert m != 0 && b[1..][m - 1] == y;
        }
        if y in b[1..] {
          var k :| 1 <= k < |b| && b[k] == y;
          assert y != b[0] && b[k] in b && y in a;
          var m :| 0 <= m < |a| && a[m] == y;
          assert m != 0 && a[1..][m - 1] == y;
        }
      }
      StrictlySortedUnique(a[1..], b[1..]);
      assert a == [a[0]] + a[1..] && b == [b[0]] + b[1..];
    } else {
      SameElementsEmpty(a, b);
    }
  }

  lemma SameElementsEmpty(a: seq<string>, b: seq<string>)
    requires forall y :: y in a <==> y in b
    ensures a == [] <==> b == []
  {
    if a != [] {
      assert a[0] in b;
    }
    if b != [] {
      assert b[0] in a;
    }
  }

  /** Sorting and de-duplicating depends on the elements only, not on their
      order or their multiplicity. */
  lemma SortedDistinctOfSameElements(xs: seq<string>, ys: seq<string>)
    requires forall y :: y in xs <==> y in ys
    ensures SortedDistinct(xs) == SortedDistinct(ys)
  {
    StrictlySortedUnique(SortedDistinct(xs), SortedDistinct(ys));
  }
}
