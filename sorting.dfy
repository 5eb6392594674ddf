/** `Array.prototype.sort(comparefn)` (ECMA-262 section 23.1.3.30): a
    stable sort that leaves `undefined` elements at the end without passing
    them to the comparator. The sort is written as an insertion sort; for a
    consistent comparator every stable sort gives the same result. */
module Sorting {
  import opened JsValue

  /** Swapping the operands of the comparator flips the sign of its result. */
  ghost predicate SignFlips<T(!new)>(s: seq<T>, cmp: (T, T) -> int) {
    forall a, b :: a in s && b in s ==> cmp(b, a) == -cmp(a, b)
  }

  /** "Comes no later than" is transitive on the elements of `s`. */
  ghost predicate Transitive<T(!new)>(s: seq<T>, cmp: (T, T) -> int) {
    forall a, b, c :: a in s && b in s && c in s && cmp(a, b) <= 0 && cmp(b, c) <= 0 ==> cmp(a, c) <= 0
  }

  /** Only equal elements compare equal. */
  ghost predicate ZeroOnlyOnEqual<T(!new)>(s: seq<T>, cmp: (T, T) -> int) {
    forall a, b :: a in s && b in s && cmp(a, b) == 0 ==> a == b
  }

  /** Each element comes no later than the next one. */
  predicate Sorted<T>(s: seq<T>, cmp: (T, T) -> int) {
    forall i :: 0 <= i < |s| - 1 ==> cmp(s[i], s[i + 1]) <= 0
  }

  /** Each element comes no later than every later one. */
  predicate SortedPairwise<T>(s: seq<T>, cmp: (T, T) -> int) {
    forall i, j :: 0 <= i < j < |s| ==> cmp(s[i], s[j]) <= 0
  }

  /** `x` placed into `s` before the first element it does not come after. */
  function Insert<T>(x: T, s: seq<T>, cmp: (T, T) -> int): (r: seq<T>)
    ensures multiset(r) == multiset(s) + multiset{x}
    ensures |r| == |s| + 1
  {
    if s == [] then [x]
    else if cmp(x, s[0]) <= 0 then [x] + s
    else
      assert s == [s[0]] + s[1..];
      [s[0]] + Insert(x, s[1..], cmp)
  }

  /** The elements of `s` ordered by `cmp`; elements that compare equal
      keep their relative order. */
  function SortBy<T>(s: seq<T>, cmp: (T, T) -> int): (r: seq<T>)
    ensures multiset(r) == multiset(s)
    ensures |r| == |s|
  {
    if s == [] then []
    else
      assert s == [s[0]] + s[1..];
      Insert(s[0], SortBy(s[1..], cmp), cmp)
  }

  lemma MultisetMembers<T>(a: seq<T>, b: seq<T>)
    requires multiset(a) == multiset(b)
    ensures forall x :: x in a <==> x in b
  {
    forall x ensures x in a <==> x in b {
      assert x in a <==> x in multiset(a);
      assert x in b <==> x in multiset(b);
    }
  }

  /** Inserting into a sorted sequence keeps it sorted. */
  lemma {:induction false} InsertSorted<T(!new)>(x: T, s: seq<T>, cmp: (T, T) -> int, all: seq<T>)
    requires Sorted(s, cmp) && SignFlips(all, cmp)
    requires x in all && forall y :: y in s ==> y in all
    ensures Sorted(Insert(x, s, cmp), cmp)
    decreases |s|
  {
    if s != [] && cmp(x, s[0]) > 0 {
      var rest := Insert(x, s[1..], cmp);
      assert Sorted(s[1..], cmp) by {
        forall i | 0 <= i < |s[1..]| - 1 ensures cmp(s[1..][i], s[1..][i + 1]) <= 0 {
          assert s[1..][i] == s[i + 1] && s[1..][i + 1] == s[i + 2];
        }
      }
      InsertSorted(x, s[1..], cmp, all);
      assert s[0] in all;
      assert cmp(s[0], x) < 0;
      MultisetMembers(rest, s[1..] + [x]);
      assert rest[0] in rest;
      assert rest[0] == x || rest[0] == s[1] by {
        if s[1..] == [] {
        } else if cmp(x, s[1]) <= 0 {
        } else {
          assert s[1..][1..] == s[2..];
        }
      }
      var r := [s[0]] + rest;
      forall i | 0 <= i < |r| - 1 ensures cmp(r[i], r[i + 1]) <= 0 {
        if i > 0 {
          assert r[i] == rest[i - 1] && r[i + 1] == rest[i];
        }
      }
    }
  }

  /** With a comparator whose sign flips with its operands, the result is sorted. */
  lemma {:induction false} SortBySorted<T(!new)>(s: seq<T>, cmp: (T, T) -> int)
    requires SignFlips(s, cmp)
    ensures Sorted(SortBy(s, cmp), cmp)
    decreases |s|
  {
    if s != [] {
      assert SignFlips(s[1..], cmp);
      SortBySorted(s[1..], cmp);
      var sorted := SortBy(s[1..], cmp);
      MultisetMembers(sorted, s[1..]);
      InsertSorted(s[0], sorted, cmp, s);
    }
  }

  /** With a transitive comparator, sorted neighbours mean sorted pairs. */
  lemma {:induction false} SortedIsPairwise<T(!new)>(s: seq<T>, cmp: (T, T) -> int)
    requires Sorted(s, cmp) && Transitive(s, cmp)
    ensures SortedPairwise(s, cmp)
  {
    forall i, j | 0 <= i < j < |s| ensures cmp(s[i], s[j]) <= 0 {
      var k := i + 1;
      while k < j
        invariant i < k <= j
        invariant cmp(s[i], s[k]) <= 0
      {
        assert s[i] in s && s[k] in s && s[k + 1] in s;
        k := k + 1;
      }
    }
  }

  lemma SortedPairwiseTail<T>(s: seq<T>, cmp: (T, T) -> int)
    requires s != [] && SortedPairwise(s, cmp)
    ensures SortedPairwise(s[1..], cmp)
  {
    forall i, j | 0 <= i < j < |s[1..]| ensures cmp(s[1..][i], s[1..][j]) <= 0 {
      assert s[1..][i] == s[i + 1] && s[1..][j] == s[j + 1];
    }
  }

  /** The first element of a pairwise-sorted sequence comes no later than any of its elements. */
  lemma SortedFirst<T(!new)>(s: seq<T>, x: T, cmp: (T, T) -> int)
    requires SortedPairwise(s, cmp) && SignFlips(s, cmp) && x in s
    ensures cmp(s[0], x) <= 0
  {
    var j :| 0 <= j < |s| && s[j] == x;
    if j == 0 {
      assert s[0] in s;
    }
  }

  /** Equal multisets with equal first elements have equal multisets of the rest. */
  lemma MultisetTail<T>(a: seq<T>, b: seq<T>)
    requires a != [] && b != [] && a[0] == b[0] && multiset(a) == multiset(b)
    ensures multiset(a[1..]) == multiset(b[1..])
  {
    assert a == [a[0]] + a[1..];
    assert b == [b[0]] + b[1..];
    assert multiset(a) == multiset([a[0]]) + multiset(a[1..]);
    assert multiset(b) == multiset([b[0]]) + multiset(b[1..]);
    assert multiset(a[1..]) == multiset(a) - multiset([a[0]]);
  }

  /** Two pairwise-sorted arrangements of the same elements start with the same element. */
  lemma SortedSameFirst<T(!new)>(a: seq<T>, b: seq<T>, cmp: (T, T) -> int)
    requires a != [] && multiset(a) == multiset(b)
    requires SortedPairwise(a, cmp) && SortedPairwise(b, cmp)
    requires SignFlips(a, cmp) && ZeroOnlyOnEqual(a, cmp)
    ensures b != [] && a[0] == b[0]
  {
    MultisetMembers(a, b);
    assert a[0] in b;
    assert b[0] in a;
    assert SignFlips(b, cmp);
    SortedFirst(a, b[0], cmp);
    SortedFirst(b, a[0], cmp);
  }

  /** Two sorted arrangements of the same elements under a comparator that
      is zero only on equal elements are the same sequence: any stable sort
      gives the result `SortBy` gives. */
  lemma {:induction false} SortedUnique<T(!new)>(a: seq<T>, b: seq<T>, cmp: (T, T) -> int)
    requires multiset(a) == multiset(b)
    requires SortedPairwise(a, cmp) && SortedPairwise(b, cmp)
    requires SignFlips(a, cmp) && ZeroOnlyOnEqual(a, cmp)
    ensures a == b
    decreases |a|
  {
    if a == [] {
      assert |b| == |multiset(b)| == 0;
    } else {
      SortedSameFirst(a, b, cmp);
      MultisetTail(a, b);
      SortedPairwiseTail(a, cmp);
      SortedPairwiseTail(b, cmp);
      assert forall x :: x in a[1..] ==> x in a;
      SortedUnique(a[1..], b[1..], cmp);
      assert a == [a[0]] + a[1..] && b == [b[0]] + b[1..];
    }
  }

  /** Under a total order, `SortBy` gives the one pairwise-ordered
      arrangement of its input. */
  lemma SortByIsTheOrderedPermutation<T(!new)>(s: seq<T>, t: seq<T>, cmp: (T, T) -> int)
    requires SignFlips(s, cmp) && Transitive(s, cmp) && ZeroOnlyOnEqual(s, cmp)
    requires multiset(t) == multiset(s) && SortedPairwise(t, cmp)
    ensures SortBy(s, cmp) == t
  {
    SortBySorted(s, cmp);
    var sorted := SortBy(s, cmp);
    MultisetMembers(sorted, s);
    assert SignFlips(sorted, cmp) && Transitive(sorted, cmp) && ZeroOnlyOnEqual(sorted, cmp);
    SortedIsPairwise(sorted, cmp);
    SortedUnique(sorted, t, cmp);
  }

  /** The elements that are not `undefined`, in order. */
  function Defined(s: seq<Value>): (r: seq<Value>)
    ensures forall x :: x in r <==> x in s && x != Undefined
    ensures |r| <= |s|
  {
    if s == [] then []
    else if s[0] == Undefined then Defined(s[1..])
    else [s[0]] + Defined(s[1..])
  }

  /** As many `undefined` as `s` holds. */
  function Undefineds(s: seq<Value>): (r: seq<Value>)
    ensures forall x :: x in r ==> x == Undefined
  {
    if s == [] then []
    else if s[0] == Undefined then [Undefined] + Undefineds(s[1..])
    else Undefineds(s[1..])
  }

  lemma {:induction false} DefinedSplit(s: seq<Value>)
    ensures multiset(Defined(s)) + multiset(Undefineds(s)) == multiset(s)
    ensures |Defined(s)| + |Undefineds(s)| == |s|
  {
    if s != [] {
      DefinedSplit(s[1..]);
      assert s == [s[0]] + s[1..];
    }
  }

  /** `Array.prototype.sort(comparefn)` on an array of the elements of `s`:
      the elements that are not `undefined`, sorted by `cmp`, followed by
      the `undefined` ones, which never reach the comparator. */
  function ArraySort(s: seq<Value>, cmp: (Value, Value) -> int): (r: seq<Value>)
    ensures multiset(r) == multiset(s)
    ensures |r| == |s|
    ensures r[..|Defined(s)|] == SortBy(Defined(s), cmp)
    ensures forall i :: |Defined(s)| <= i < |r| ==> r[i] == Undefined
  {
    DefinedSplit(s);
    var sorted := SortBy(Defined(s), cmp);
    var rest := Undefineds(s);
    assert (sorted + rest)[..|sorted|] == sorted;
    assert forall i :: |sorted| <= i < |sorted + rest| ==> (sorted + rest)[i] == rest[i - |sorted|];
    assert forall i :: |sorted| <= i < |sorted + rest| ==> (sorted + rest)[i] in rest;
    sorted + rest
  }

  /** Without `undefined` elements the array sort is the plain sort. */
  lemma {:induction false} ArraySortDefined(s: seq<Value>, cmp: (Value, Value) -> int)
    requires Undefined !in s
    ensures ArraySort(s, cmp) == SortBy(s, cmp)
  {
    DefinedAll(s);
    UndefinedsNone(s);
  }

  lemma {:induction false} DefinedAll(s: seq<Value>)
    requires Undefined !in s
    ensures Defined(s) == s
  {
    if s != [] {
      assert s[0] != Undefined;
      DefinedAll(s[1..]);
      assert s == [s[0]] + s[1..];
    }
  }

  lemma {:induction false} UndefinedsNone(s: seq<Value>)
    requires Undefined !in s
    ensures Undefineds(s) == []
  {
    if s != [] {
      assert s[0] != Undefined;
      UndefinedsNone(s[1..]);
    }
  }
}
