/**
 * Strict total orders and the sorted, duplicate-free sequences built from
 * them: Python's `sorted(set(...))`, and the sorted group keys that pandas'
 * `groupby` produces and `unstack` lays out as table axes.
 */
module Order {

  /** `less` is irreflexive, transitive and total on distinct values. */
  ghost predicate StrictTotalOrder<T(!new)>(less: (T, T) -> bool) {
    && (forall x :: !less(x, x))
    && (forall x, y, z :: less(x, y) && less(y, z) ==> less(x, z))
    && (forall x, y :: x != y ==> less(x, y) || less(y, x))
  }

  /** Every element is `less` than every later one: ascending, no duplicates. */
  predicate Ascending<T>(s: seq<T>, less: (T, T) -> bool) {
    forall i, j :: 0 <= i < j < |s| ==> less(s[i], s[j])
  }

  /** `x` placed into the ascending sequence `s`, unless it is already there. */
  function Insert<T(==,!new)>(x: T, s: seq<T>, less: (T, T) -> bool): (r: seq<T>)
    requires StrictTotalOrder(less)
    requires Ascending(s, less)
    ensures Ascending(r, less)
    ensures forall y :: y in r <==> y == x || y in s
    decreases |s|
  {
    if |s| == 0 then [x]
    else if x == s[0] then s
    else if less(x, s[0]) then [x] + s
    else
      var rest := Insert(x, s[1..], less);
      assert forall y :: y in s <==> y == s[0] || y in s[1..];
      assert forall k :: 0 <= k < |rest| ==> less(s[0], rest[k]) by {
        forall k | 0 <= k < |rest|
          ensures less(s[0], rest[k])
        {
          if rest[k] != x {
            assert rest[k] in rest;
            assert rest[k] in s[1..];
            var j :| 1 <= j < |s| && s[j] == rest[k];
          }
        }
      }
      [s[0]] + rest
  }

  /** The distinct elements of `xs` in ascending order. */
  function SortDistinct<T(==,!new)>(xs: seq<T>, less: (T, T) -> bool): (r: seq<T>)
    requires StrictTotalOrder(less)
    ensures Ascending(r, less)
    ensures forall y :: y in r <==> y in xs
    decreases |xs|
  {
    if |xs| == 0 then []
    else
      var r := Insert(xs[|xs| - 1], SortDistinct(xs[..|xs| - 1], less), less);
      assert forall y :: y in xs <==> y == xs[|xs| - 1] || y in xs[..|xs| - 1];
      r
  }

  /** An ascending sequence is fixed by its elements: two ascending sequences
      holding the same elements are equal. */
  lemma {:induction false} AscendingUnique<T(!new)>(a: seq<T>, b: seq<T>, less: (T, T) -> bool)
    requires StrictTotalOrder(less)
    requires Ascending(a, less) && Ascending(b, less)
    requires forall y :: y in a <==> y in b
    ensures a == b
    decreases |a|
  {
    assert |a| > 0 ==> a[0] in a;
    assert |b| > 0 ==> b[0] in b;
    if |a| > 0 && |b| > 0 {
      // each head is the least element of the shared contents
      HeadIsLeast(a, b[0], less);
      HeadIsLeast(b, a[0], less);
      forall y
        ensures y in a[1..] <==> y in b[1..]
      {
        if y in a[1..] {
          var i :| 1 <= i < |a| && a[i] == y;
          assert less(a[0], y);
          assert y in a;
          var j :| 0 <= j < |b| && b[j] == y;
          assert j != 0;
          assert b[1..][j - 1] == y;
        }
        if y in b[1..] {
          var j :| 1 <= j < |b| && b[j] == y;
          assert less(b[0], y);
          assert y in b;
          var i :| 0 <= i < |a| && a[i] == y;
          assert i != 0;
          assert a[1..][i - 1] == y;
        }
      }
      AscendingUnique(a[1..], b[1..], less);
      assert a == [a[0]] + a[1..] && b == [b[0]] + b[1..];
    }
  }

  lemma HeadIsLeast<T(!new)>(s: seq<T>, y: T, less: (T, T) -> bool)
    requires Ascending(s, less)
    requires y in s
    ensures y == s[0] || less(s[0], y)
  {
    var i :| 0 <= i < |s| && s[i] == y;
  }

  /** Python's `<` on `str`: lexicographic by code point, a proper prefix
      ordered first. */
  predicate StringLess(a: string, b: string) {
    if |a| == 0 then |b| > 0
    else if |b| == 0 then false
    else if a[0] != b[0] then a[0] < b[0]
    else StringLess(a[1..], b[1..])
  }

  lemma {:induction false} StringLessIrreflexive(a: string)
    ensures !StringLess(a, a)
  {
    if |a| > 0 {
      StringLessIrreflexive(a[1..]);
    }
  }

  lemma {:induction false} StringLessTransitive(a: string, b: string, c: string)
    requires StringLess(a, b) && StringLess(b, c)
    ensures StringLess(a, c)
  {
    if |a| > 0 && |b| > 0 && |c| > 0 && a[0] == b[0] && b[0] == c[0] {
      StringLessTransitive(a[1..], b[1..], c[1..]);
    }
  }

  lemma {:induction false} StringLessTotal(a: string, b: string)
    requires a != b
    ensures StringLess(a, b) || StringLess(b, a)
  {
    if |a| > 0 && |b| > 0 && a[0] == b[0] {
      assert a == [a[0]] + a[1..] && b == [b[0]] + b[1..];
      StringLessTotal(a[1..], b[1..]);
    }
  }

  lemma StringLessIsStrictTotalOrder()
    ensures StrictTotalOrder(StringLess)
  {
    forall a
      ensures !StringLess(a, a)
    {
      StringLessIrreflexive(a);
    }
    forall a, b, c | StringLess(a, b) && StringLess(b, c)
      ensures StringLess(a, c)
    {
      StringLessTransitive(a, b, c);
    }
    forall a, b | a != b
      ensures StringLess(a, b) || StringLess(b, a)
    {
      StringLessTotal(a, b);
    }
  }
}
