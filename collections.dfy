/**
 * The array and set operations the importer composes: `includes`, `filter`
 * and `Array.from(new Set(...))`, whose iteration order is insertion order.
 */
module Collections {

  predicate NoDuplicates<T(==)>(s: seq<T>) {
    forall i, j :: 0 <= i < j < |s| ==> s[i] != s[j]
  }

  /** The position of the first occurrence of `x` in `s`. */
  function FirstIndex<T(==)>(s: seq<T>, x: T): (i: nat)
    requires x in s
    ensures i < |s| && s[i] == x
    ensures forall j :: 0 <= j < i ==> s[j] != x
  {
    if s[0] == x then 0 else 1 + FirstIndex(s[1..], x)
  }

  /** Appending after `a` leaves the first occurrence of an element of `a` where it was. */
  lemma FirstIndexInPrefix<T>(a: seq<T>, b: seq<T>, x: T)
    requires x in a
    ensures FirstIndex(a + b, x) == FirstIndex(a, x)
  {
    var i, k := FirstIndex(a + b, x), FirstIndex(a, x);
    assert (a + b)[k] == x;
    assert a[i] == x;
  }

  /** An element that is new in `b` first occurs at its own position, after all of `a`. */
  lemma FirstIndexAfterPrefix<T>(a: seq<T>, x: T)
    requires x !in a
    ensures FirstIndex(a + [x], x) == |a|
  {
    assert (a + [x])[|a|] == x;
  }

  /** `s.filter(x => !exclude.includes(x))`: the elements of `s` not in `exclude`, in order. */
  function Without<T(==, !new)>(s: seq<T>, exclude: seq<T>): (r: seq<T>)
    ensures |r| <= |s|
    ensures forall x :: x in r <==> x in s && x !in exclude
  {
    if s == [] then []
    else Without(s[..|s| - 1], exclude) + (if s[|s| - 1] in exclude then [] else [s[|s| - 1]])
  }

  /**
   * `Array.from(new Set(s))`: every element of `s` once, in the order of its
   * first occurrence in `s`.
   */
  function Distinct<T(==, !new)>(s: seq<T>): (r: seq<T>)
    ensures NoDuplicates(r)
    ensures forall x :: x in r <==> x in s
    ensures forall i, j :: 0 <= i < j < |r| ==> FirstIndex(s, r[i]) < FirstIndex(s, r[j])
  {
    if s == [] then []
    else
      var init, last := s[..|s| - 1], s[|s| - 1];
      assert s == init + [last];
      var d := Distinct(init);
      FirstIndicesKept(init, [last], d);
      if last in d then d
      else
        FirstIndexAfterPrefix(init, last);
        d + [last]
  }

  /** Every element of `d` drawn from `a` keeps its first position in `a + b`. */
  lemma FirstIndicesKept<T>(a: seq<T>, b: seq<T>, d: seq<T>)
    requires forall x :: x in d ==> x in a
    ensures forall k :: 0 <= k < |d| ==> FirstIndex(a + b, d[k]) == FirstIndex(a, d[k])
  {
    forall k | 0 <= k < |d| ensures FirstIndex(a + b, d[k]) == FirstIndex(a, d[k]) {
      FirstIndexInPrefix(a, b, d[k]);
    }
  }

  /**
   * Filtering keeps relative order: an element that first occurs before
   * another in the filtered sequence also first occurs before it in `s`.
   */
  lemma {:induction false} WithoutKeepsOrder<T(!new)>(s: seq<T>, exclude: seq<T>, x: T, y: T)
    requires x in Without(s, exclude) && y in Without(s, exclude)
    requires FirstIndex(Without(s, exclude), x) < FirstIndex(Without(s, exclude), y)
    ensures FirstIndex(s, x) < FirstIndex(s, y)
  {
    var init, last := s[..|s| - 1], s[|s| - 1];
    assert s == init + [last];
    var w := Without(init, exclude);
    if last in exclude {
      assert Without(s, exclude) == w;
      WithoutKeepsOrder(init, exclude, x, y);
      FirstIndexInPrefix(init, [last], x);
      FirstIndexInPrefix(init, [last], y);
    } else {
      assert Without(s, exclude) == w + [last];
      if y in w {
        FirstIndexInPrefix(w, [last], x);
        FirstIndexInPrefix(w, [last], y);
        WithoutKeepsOrder(init, exclude, x, y);
        FirstIndexInPrefix(init, [last], x);
        FirstIndexInPrefix(init, [last], y);
      } else {
        assert y !in init;
        FirstIndexAfterPrefix(init, y);
        FirstIndexInPrefix(init, [last], x);
      }
    }
  }

  /** A sequence without duplicates has as many elements as the set of its elements. */
  lemma {:induction false} DistinctCardinality<T>(s: seq<T>)
    requires NoDuplicates(s)
    ensures |set x | x in s| == |s|
  {
    if s != [] {
      var init, last := s[..|s| - 1], s[|s| - 1];
      assert s == init + [last];
      DistinctCardinality(init);
      assert last !in init by {
        forall k | 0 <= k < |init| ensures init[k] != last {
          assert init[k] == s[k];
        }
      }
      assert (set x | x in s) == (set x | x in init) + {last};
    }
  }
}
