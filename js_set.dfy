/** JavaScript `Set` objects as sequences without duplicates, in insertion
    order, and the `Set` methods of ECMAScript 2025 (section 24.2.4) with the
    element order each of them produces. Element equality is Dafny's
    structural equality. */
module JsSet {

  /** No element occurs twice. */
  predicate Distinct<T(==,!new)>(s: seq<T>) {
    forall i, j :: 0 <= i < j < |s| ==> s[i] != s[j]
  }

  /** The position of the first occurrence of `x` in `s`. */
  function FirstIndex<T(==)>(s: seq<T>, x: T): (k: nat)
    requires x in s
    ensures k < |s| && s[k] == x
    ensures forall i :: 0 <= i < k ==> s[i] != x
  {
    if s[0] == x then 0 else 1 + FirstIndex(s[1..], x)
  }

  /** Appending to a sequence does not move the first occurrences already in it. */
  lemma {:induction false} FirstIndexAppend<T(!new)>(s: seq<T>, y: T, x: T)
    requires x in s
    ensures x in s + [y] && FirstIndex(s + [y], x) == FirstIndex(s, x)
  {
    var k := FirstIndex(s, x);
    var sy := s + [y];
    assert sy[k] == x;
    forall i | 0 <= i < k ensures sy[i] != x {
      assert sy[i] == s[i];
    }
    FirstIndexUnique(sy, x, k);
  }

  /** The first occurrence is the one with no earlier occurrence. */
  lemma {:induction false} FirstIndexUnique<T(!new)>(s: seq<T>, x: T, k: nat)
    requires k < |s| && s[k] == x
    requires forall i :: 0 <= i < k ==> s[i] != x
    ensures FirstIndex(s, x) == k
  {
    var f := FirstIndex(s, x);
    assert !(f < k) && !(k < f);
  }

  /** `new Set(iterable)`: the distinct elements in the order they first
      occur: `r[i]` first occurs in `s` before `r[j]` does whenever `i < j`. */
  function Dedup<T(==,!new)>(s: seq<T>): (r: seq<T>)
    ensures Distinct(r)
    ensures forall x :: x in r <==> x in s
    ensures forall i, j :: 0 <= i < j < |r| ==> FirstIndex(s, r[i]) < FirstIndex(s, r[j])
    ensures |r| <= |s|
  {
    if s == [] then []
    else
      var init := s[..|s| - 1];
      var d := Dedup(init);
      var x := s[|s| - 1];
      assert s == init + [x];
      forall y | y in init ensures FirstIndex(s, y) == FirstIndex(init, y) {
        FirstIndexAppend(init, x, y);
      }
      if x in d then d
      else
        assert FirstIndex(s, x) == |s| - 1 by {
          FirstIndexUnique(s, x, |s| - 1);
        }
        d + [x]
  }

  /** A collection without duplicates is taken over as it is. */
  lemma {:induction false} DedupDistinct<T(!new)>(s: seq<T>)
    requires Distinct(s)
    ensures Dedup(s) == s
    decreases |s|
  {
    if s != [] {
      var init := s[..|s| - 1];
      assert Distinct(init);
      DedupDistinct(init);
      assert s[|s| - 1] !in init;
      assert s == init + [s[|s| - 1]];
    }
  }

  /** The elements of `s` that are in `other`, in the order of `s`. */
  function KeepIn<T(==,!new)>(s: seq<T>, other: seq<T>): (r: seq<T>)
    ensures forall x :: x in r <==> x in s && x in other
    ensures Distinct(s) ==> Distinct(r)
    ensures |r| <= |s|
  {
    if s == [] then []
    else
      var rest := KeepIn(s[1..], other);
      assert s == [s[0]] + s[1..];
      assert Distinct(s) ==> Distinct(s[1..]) && s[0] !in s[1..];
      if s[0] in other then [s[0]] + rest else rest
  }

  /** The elements of `s` that are not in `other`, in the order of `s`. */
  function KeepNotIn<T(==,!new)>(s: seq<T>, other: seq<T>): (r: seq<T>)
    ensures forall x :: x in r <==> x in s && x !in other
    ensures Distinct(s) ==> Distinct(r)
    ensures |r| <= |s|
  {
    if s == [] then []
    else
      var rest := KeepNotIn(s[1..], other);
      assert s == [s[0]] + s[1..];
      assert Distinct(s) ==> Distinct(s[1..]) && s[0] !in s[1..];
      if s[0] !in other then [s[0]] + rest else rest
  }

  /** Filtering by a collection that holds every element keeps everything. */
  lemma {:induction false} KeepInAll<T(!new)>(s: seq<T>, other: seq<T>)
    requires forall x :: x in s ==> x in other
    ensures KeepIn(s, other) == s
    decreases |s|
  {
    if s != [] {
      KeepInAll(s[1..], other);
      assert s == [s[0]] + s[1..];
    }
  }

  /** Removing the elements of a disjoint collection removes nothing. */
  lemma {:induction false} KeepNotInDisjoint<T(!new)>(s: seq<T>, other: seq<T>)
    requires forall x :: x in s ==> x !in other
    ensures KeepNotIn(s, other) == s
    decreases |s|
  {
    if s != [] {
      KeepNotInDisjoint(s[1..], other);
      assert s == [s[0]] + s[1..];
    }
  }

  lemma DistinctConcat<T(!new)>(a: seq<T>, b: seq<T>)
    requires Distinct(a) && Distinct(b)
    requires forall x :: x in a ==> x !in b
    ensures Distinct(a + b)
  {
    var ab := a + b;
    forall i, j | 0 <= i < j < |ab| ensures ab[i] != ab[j] {
      if j < |a| {
        assert ab[i] == a[i] && ab[j] == a[j];
      } else if i >= |a| {
        assert ab[i] == b[i - |a|] && ab[j] == b[j - |a|];
      } else {
        assert ab[i] == a[i] && a[i] in a && ab[j] == b[j - |a|] && b[j - |a|] in b;
      }
    }
  }

  /** `a.union(b)`: a copy of `a`, then the elements of `b` not yet present. */
  function Union<T(==,!new)>(a: seq<T>, b: seq<T>): (r: seq<T>)
    requires Distinct(a) && Distinct(b)
    ensures Distinct(r)
    ensures forall x :: x in r <==> x in a || x in b
    ensures |a| <= |r| && r[..|a|] == a
  {
    var added := KeepNotIn(b, a);
    DistinctConcat(a, added);
    assert (a + added)[..|a|] == a;
    a + added
  }

  /** `a.intersection(b)`: the walk goes over the smaller of the two sets,
      so the order is that of `a` when `a` is not larger, otherwise that of `b`. */
  function Intersection<T(==,!new)>(a: seq<T>, b: seq<T>): (r: seq<T>)
    requires Distinct(a) && Distinct(b)
    ensures Distinct(r)
    ensures forall x :: x in r <==> x in a && x in b
  {
    if |a| <= |b| then KeepIn(a, b) else KeepIn(b, a)
  }

  /** `a.difference(b)`: the elements of `a` not in `b`, in the order of `a`. */
  function Difference<T(==,!new)>(a: seq<T>, b: seq<T>): (r: seq<T>)
    requires Distinct(a) && Distinct(b)
    ensures Distinct(r)
    ensures forall x :: x in r <==> x in a && x !in b
  {
    KeepNotIn(a, b)
  }

  /** `a.symmetricDifference(b)`: `a` without the common elements, followed by
      the elements of `b` not in `a`. */
  function SymmetricDifference<T(==,!new)>(a: seq<T>, b: seq<T>): (r: seq<T>)
    requires Distinct(a) && Distinct(b)
    ensures Distinct(r)
    ensures forall x :: x in r <==> (x in a) != (x in b)
  {
    var left, right := KeepNotIn(a, b), KeepNotIn(b, a);
    DistinctConcat(left, right);
    left + right
  }

  /** Removing a collection that holds every element removes everything. */
  lemma {:induction false} KeepNotInAll<T(!new)>(s: seq<T>, other: seq<T>)
    requires forall x :: x in s ==> x in other
    ensures KeepNotIn(s, other) == []
    decreases |s|
  {
    if s != [] {
      KeepNotInAll(s[1..], other);
    }
  }

  /** Union with the empty set, and of a set with itself, changes nothing. */
  lemma UnionIdentity<T(!new)>(a: seq<T>)
    requires Distinct(a)
    ensures Union(a, []) == a && Union(a, a) == a
  {
    KeepNotInAll(a, a);
  }
}
