/** `Array.prototype.filter`, `map`-style replacement and `sort` with a
    comparator, over immutable sequences.

    `sort` is modelled as a stable insertion sort driven by the comparator's
    sign, as ECMAScript 2019 and later require sorting to be stable: for a
    comparator that is a total preorder every stable sort gives this output.
 */
module JsArray {

  // ---------------------------------------------------------------------------
  // filter

  function Filter<T(!new)>(s: seq<T>, p: T -> bool): (r: seq<T>)
    ensures |r| <= |s|
    ensures forall x :: x in r <==> x in s && p(x)
  {
    if s == [] then []
    else
      var rest := Filter(s[1..], p);
      assert s == [s[0]] + s[1..];
      if p(s[0]) then [s[0]] + rest else rest
  }

  /** Filtering keeps every kept element as often as it occurs. */
  lemma {:induction false} FilterMultiplicity<T(!new)>(s: seq<T>, p: T -> bool, x: T)
    ensures multiset(Filter(s, p))[x] == if p(x) then multiset(s)[x] else 0
    decreases |s|
  {
    if s != [] {
      FilterMultiplicity(s[1..], p, x);
      assert s == [s[0]] + s[1..];
      assert multiset(s) == multiset{s[0]} + multiset(s[1..]);
    }
  }

  /** Filtering looks at the head, then filters the tail. */
  lemma FilterCons<T(!new)>(s: seq<T>, p: T -> bool)
    requires s != []
    ensures Filter(s, p) == (if p(s[0]) then [s[0]] else []) + Filter(s[1..], p)
  {
  }

  /** Filtering keeps the order of what it keeps: it distributes over
      concatenation. */
  lemma {:induction false} FilterConcat<T(!new)>(a: seq<T>, b: seq<T>, p: T -> bool)
    ensures Filter(a + b, p) == Filter(a, p) + Filter(b, p)
    decreases |a|
  {
    if a == [] {
      assert a + b == b;
    } else {
      var ab := a + b;
      assert ab[0] == a[0] && ab[1..] == a[1..] + b;
      var head: seq<T> := if p(a[0]) then [a[0]] else [];
      FilterCons(ab, p);
      FilterCons(a, p);
      FilterConcat(a[1..], b, p);
      calc {
        Filter(ab, p);
        head + Filter(a[1..] + b, p);
        head + (Filter(a[1..], p) + Filter(b, p));
        { assert head + (Filter(a[1..], p) + Filter(b, p)) == (head + Filter(a[1..], p)) + Filter(b, p); }
        (head + Filter(a[1..], p)) + Filter(b, p);
        Filter(a, p) + Filter(b, p);
      }
    }
  }

  /** A filter that keeps every element returns the list itself. */
  lemma {:induction false} FilterAll<T(!new)>(s: seq<T>, p: T -> bool)
    requires forall x :: x in s ==> p(x)
    ensures Filter(s, p) == s
    decreases |s|
  {
    if s != [] {
      assert forall x :: x in s[1..] ==> x in s;
      FilterAll(s[1..], p);
      assert [s[0]] + s[1..] == s;
    }
  }

  /** Two filters that agree on the elements give the same list. */
  lemma {:induction false} FilterCongruent<T(!new)>(s: seq<T>, p: T -> bool, q: T -> bool)
    requires forall x :: x in s ==> p(x) == q(x)
    ensures Filter(s, p) == Filter(s, q)
    decreases |s|
  {
    if s != [] {
      assert forall x :: x in s[1..] ==> x in s;
      FilterCongruent(s[1..], p, q);
    }
  }

  /** The number of elements `p` keeps. */
  function CountWhere<T(!new)>(s: seq<T>, p: T -> bool): (n: nat)
    ensures n <= |s|
    ensures n == 0 <==> forall i :: 0 <= i < |s| ==> !p(s[i])
  {
    var r := Filter(s, p);
    if r == [] then
      assert forall i :: 0 <= i < |s| ==> s[i] in s;
      0
    else
      assert r[0] in r;
      |r|
  }

  /** Counting one element at a time. */
  lemma CountWhereStep<T(!new)>(s: seq<T>, p: T -> bool)
    requires s != []
    ensures CountWhere(s, p) == (if p(s[0]) then 1 else 0) + CountWhere(s[1..], p)
  {
  }

  // ---------------------------------------------------------------------------
  // sort

  /** `s` is ordered by `cmp`: no later element compares before an earlier one. */
  ghost predicate SortedBy<T(!new)>(s: seq<T>, cmp: (T, T) -> int) {
    forall i, j :: 0 <= i < j < |s| ==> cmp(s[i], s[j]) <= 0
  }

  /** `cmp` is a total preorder on the elements of `s` (as a comparator read
      through its sign). */
  ghost predicate Consistent<T(!new)>(s: seq<T>, cmp: (T, T) -> int) {
    && (forall a, b :: a in s && b in s ==> cmp(a, b) <= 0 || cmp(b, a) <= 0)
    && (forall a, b, c :: a in s && b in s && c in s && cmp(a, b) <= 0 && cmp(b, c) <= 0 ==> cmp(a, c) <= 0)
  }

  /** Place `x` after every leading element that does not compare after it. */
  function Insert<T(!new)>(x: T, s: seq<T>, cmp: (T, T) -> int): (r: seq<T>)
    ensures |r| == |s| + 1
    ensures forall y :: y in r <==> y in s || y == x
    ensures multiset(r) == multiset(s) + multiset{x}
    decreases |s|
  {
    if s == [] then [x]
    else if cmp(s[0], x) <= 0 then
      assert s == [s[0]] + s[1..];
      [s[0]] + Insert(x, s[1..], cmp)
    else [x] + s
  }

  /** `[...s].sort(cmp)`. */
  function SortWith<T(!new)>(s: seq<T>, cmp: (T, T) -> int): (r: seq<T>)
    ensures |r| == |s|
    ensures multiset(r) == multiset(s)
    decreases |s|
  {
    if s == [] then []
    else
      assert s == s[..|s| - 1] + [s[|s| - 1]];
      Insert(s[|s| - 1], SortWith(s[..|s| - 1], cmp), cmp)
  }

  /** A head that compares at or before every element of a sorted tail keeps
      the list sorted. */
  lemma ConsSorted<T(!new)>(h: T, t: seq<T>, cmp: (T, T) -> int)
    requires SortedBy(t, cmp)
    requires forall j :: 0 <= j < |t| ==> cmp(h, t[j]) <= 0
    ensures SortedBy([h] + t, cmp)
  {
    var r := [h] + t;
    forall i, j | 0 <= i < j < |r| ensures cmp(r[i], r[j]) <= 0 {
      if i == 0 {
        assert r[j] == t[j - 1];
      } else {
        assert r[i] == t[i - 1] && r[j] == t[j - 1];
      }
    }
  }

  lemma InsertSortedFront<T(!new)>(x: T, s: seq<T>, cmp: (T, T) -> int, all: seq<T>)
    requires s != [] && cmp(s[0], x) > 0
    requires SortedBy(s, cmp)
    requires x in all && forall y :: y in s ==> y in all
    requires Consistent(all, cmp)
    ensures SortedBy([x] + s, cmp)
  {
    assert s[0] in s;
    assert cmp(x, s[0]) <= 0;
    forall j | 0 <= j < |s| ensures cmp(x, s[j]) <= 0 {
      if j > 0 {
        assert s[j] in s;
        assert cmp(s[0], s[j]) <= 0;
      }
    }
    ConsSorted(x, s, cmp);
  }

  lemma {:induction false} InsertSorted<T(!new)>(x: T, s: seq<T>, cmp: (T, T) -> int, all: seq<T>)
    requires SortedBy(s, cmp)
    requires x in all && forall y :: y in s ==> y in all
    requires Consistent(all, cmp)
    ensures SortedBy(Insert(x, s, cmp), cmp)
    decreases |s|
  {
    if s != [] {
      if cmp(s[0], x) <= 0 {
        var tail := s[1..];
        assert SortedBy(tail, cmp) by {
          forall i, j | 0 <= i < j < |tail| ensures cmp(tail[i], tail[j]) <= 0 {
            assert tail[i] == s[i + 1] && tail[j] == s[j + 1];
          }
        }
        assert forall y :: y in tail ==> y in s;
        InsertSorted(x, tail, cmp, all);
        var t := Insert(x, tail, cmp);
        forall j | 0 <= j < |t| ensures cmp(s[0], t[j]) <= 0 {
          assert t[j] in t;
          if t[j] != x {
            var k :| 0 <= k < |tail| && tail[k] == t[j];
            assert s[k + 1] == t[j];
          }
        }
        ConsSorted(s[0], t, cmp);
      } else {
        InsertSortedFront(x, s, cmp, all);
      }
    }
  }

  lemma {:induction false} SortWithSorted<T(!new)>(s: seq<T>, cmp: (T, T) -> int)
    requires Consistent(s, cmp)
    ensures SortedBy(SortWith(s, cmp), cmp)
    decreases |s|
  {
    if s != [] {
      var init := s[..|s| - 1];
      assert forall y :: y in init ==> y in s;
      assert Consistent(init, cmp);
      SortWithSorted(init, cmp);
      var sorted := SortWith(init, cmp);
      forall y | y in sorted ensures y in s {
        assert y in multiset(sorted);
      }
      InsertSorted(s[|s| - 1], sorted, cmp, s);
    }
  }

  /** Inserting after a list whose every element compares at or before `x`
      appends `x`. */
  lemma {:induction false} InsertAtEnd<T(!new)>(x: T, s: seq<T>, cmp: (T, T) -> int)
    requires forall i :: 0 <= i < |s| ==> cmp(s[i], x) <= 0
    ensures Insert(x, s, cmp) == s + [x]
    decreases |s|
  {
    if s != [] {
      InsertAtEnd(x, s[1..], cmp);
      assert [s[0]] + (s[1..] + [x]) == s + [x];
    }
  }

  /** Sorting an already ordered list returns it unchanged; in particular a
      comparator that always answers 0 keeps the original order. */
  lemma {:induction false} SortWithSortedUnchanged<T(!new)>(s: seq<T>, cmp: (T, T) -> int)
    requires SortedBy(s, cmp)
    ensures SortWith(s, cmp) == s
    decreases |s|
  {
    if s != [] {
      var init := s[..|s| - 1];
      assert SortedBy(init, cmp);
      SortWithSortedUnchanged(init, cmp);
      InsertAtEnd(s[|s| - 1], init, cmp);
    }
  }
}
