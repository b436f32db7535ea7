/**
 The contract of JavaScript's `Array.prototype.sort`: the result is ordered by the comparator
 and elements the comparator cannot tell apart keep their relative order. `Sort` is one
 implementation; `SortIsStable` and `StableSortUnique` show that the contract has exactly one
 solution, so the choice of algorithm does not matter.
 */
module Sorting {

  ghost predicate TotalPreorder<T(!new)>(leq: (T, T) -> bool) {
    && (forall x, y :: leq(x, y) || leq(y, x))
    && (forall x, y, z :: leq(x, y) && leq(y, z) ==> leq(x, z))
  }

  ghost predicate Sorted<T(!new)>(leq: (T, T) -> bool, xs: seq<T>) {
    forall i, j :: 0 <= i < j < |xs| ==> leq(xs[i], xs[j])
  }

  /** The elements of `xs` that `leq` cannot tell apart from `x`, in their order in `xs`. */
  function Class<T>(leq: (T, T) -> bool, x: T, xs: seq<T>): seq<T> {
    if xs == [] then []
    else (if leq(x, xs[0]) && leq(xs[0], x) then [xs[0]] else []) + Class(leq, x, xs[1..])
  }

  function Insert<T>(leq: (T, T) -> bool, x: T, xs: seq<T>): seq<T> {
    if xs == [] then [x]
    else if leq(x, xs[0]) then [x] + xs
    else [xs[0]] + Insert(leq, x, xs[1..])
  }

  function Sort<T>(leq: (T, T) -> bool, xs: seq<T>): seq<T> {
    if xs == [] then [] else Insert(leq, xs[0], Sort(leq, xs[1..]))
  }

  lemma {:induction false} InsertMultiset<T>(leq: (T, T) -> bool, x: T, xs: seq<T>)
    ensures multiset(Insert(leq, x, xs)) == multiset(xs) + multiset{x}
  {
    if xs != [] {
      assert xs == [xs[0]] + xs[1..];
      if !leq(x, xs[0]) {
        InsertMultiset(leq, x, xs[1..]);
      }
    }
  }

  lemma {:induction false} SortMultiset<T>(leq: (T, T) -> bool, xs: seq<T>)
    ensures multiset(Sort(leq, xs)) == multiset(xs)
  {
    if xs != [] {
      assert xs == [xs[0]] + xs[1..];
      SortMultiset(leq, xs[1..]);
      InsertMultiset(leq, xs[0], Sort(leq, xs[1..]));
    }
  }

  lemma SortMembers<T>(leq: (T, T) -> bool, xs: seq<T>)
    ensures |Sort(leq, xs)| == |xs|
    ensures forall x :: x in Sort(leq, xs) <==> x in xs
  {
    SortMultiset(leq, xs);
    assert |multiset(Sort(leq, xs))| == |multiset(xs)|;
    forall x ensures x in Sort(leq, xs) <==> x in xs {
      assert x in Sort(leq, xs) <==> x in multiset(Sort(leq, xs));
      assert x in xs <==> x in multiset(xs);
    }
  }

  ghost predicate Distinct<T>(xs: seq<T>) {
    forall i, j :: 0 <= i < j < |xs| ==> xs[i] != xs[j]
  }

  lemma {:induction false} DistinctByMultiset<T>(xs: seq<T>)
    ensures Distinct(xs) <==> forall x :: x in multiset(xs) ==> multiset(xs)[x] == 1
  {
    if xs != [] {
      var rest := xs[1..];
      assert xs == [xs[0]] + rest;
      DistinctByMultiset(rest);
      assert xs[0] in rest <==> xs[0] in multiset(rest);
      if Distinct(xs) {
        assert Distinct(rest);
        assert xs[0] !in rest;
      }
      if forall x :: x in multiset(xs) ==> multiset(xs)[x] == 1 {
        assert multiset(xs)[xs[0]] == 1 + multiset(rest)[xs[0]];
        assert xs[0] !in rest;
        forall x | x in multiset(rest) ensures multiset(rest)[x] == 1 {
          assert x in multiset(xs);
        }
      }
    }
  }

  lemma SortDistinct<T>(leq: (T, T) -> bool, xs: seq<T>)
    requires Distinct(xs)
    ensures Distinct(Sort(leq, xs))
  {
    SortMultiset(leq, xs);
    DistinctByMultiset(xs);
    DistinctByMultiset(Sort(leq, xs));
  }

  lemma {:induction false} InsertSorted<T(!new)>(leq: (T, T) -> bool, x: T, xs: seq<T>)
    requires TotalPreorder(leq) && Sorted(leq, xs)
    ensures Sorted(leq, Insert(leq, x, xs))
    ensures forall y :: y in Insert(leq, x, xs) <==> y == x || y in xs
  {
    if xs != [] && !leq(x, xs[0]) {
      InsertSorted(leq, x, xs[1..]);
      assert forall y :: y in xs[1..] ==> leq(xs[0], y);
    }
  }

  lemma {:induction false} InsertClass<T(!new)>(leq: (T, T) -> bool, x: T, xs: seq<T>, v: T)
    requires TotalPreorder(leq) && Sorted(leq, xs)
    ensures Class(leq, v, Insert(leq, x, xs)) == Class(leq, v, [x] + xs)
  {
    assert ([x] + xs)[1..] == xs;
    if xs == [] {
      assert [x][1..] == xs && [x] + xs == [x];
    } else if !leq(x, xs[0]) {
      InsertClass(leq, x, xs[1..], v);
      assert ([x] + xs[1..])[1..] == xs[1..];
      var ins := [xs[0]] + Insert(leq, x, xs[1..]);
      assert ins[1..] == Insert(leq, x, xs[1..]);
    }
  }

  /** The sort orders its input, and is stable: each class keeps its original order. */
  lemma {:induction false} SortIsStable<T(!new)>(leq: (T, T) -> bool, xs: seq<T>)
    requires TotalPreorder(leq)
    ensures Sorted(leq, Sort(leq, xs))
    ensures forall v :: Class(leq, v, Sort(leq, xs)) == Class(leq, v, xs)
  {
    if xs != [] {
      SortIsStable(leq, xs[1..]);
      InsertSorted(leq, xs[0], Sort(leq, xs[1..]));
      forall v ensures Class(leq, v, Sort(leq, xs)) == Class(leq, v, xs) {
        InsertClass(leq, xs[0], Sort(leq, xs[1..]), v);
        assert ([xs[0]] + Sort(leq, xs[1..]))[1..] == Sort(leq, xs[1..]);
      }
    }
  }

  lemma {:induction false} ClassMembers<T(!new)>(leq: (T, T) -> bool, v: T, xs: seq<T>)
    ensures forall y :: y in Class(leq, v, xs) <==> y in xs && leq(v, y) && leq(y, v)
  {
    if xs != [] {
      ClassMembers(leq, v, xs[1..]);
      assert xs == [xs[0]] + xs[1..];
    }
  }

  lemma SomeClassIsInhabited<T(!new)>(leq: (T, T) -> bool, xs: seq<T>)
    requires TotalPreorder(leq)
    ensures xs == [] || exists v :: Class(leq, v, xs) != []
  {
    if xs != [] {
      assert leq(xs[0], xs[0]);
      assert Class(leq, xs[0], xs) != [];
    }
  }

  /** Two ordered sequences with the same classes are the same sequence. */
  lemma {:induction false} StableSortUnique<T(!new)>(leq: (T, T) -> bool, a: seq<T>, b: seq<T>)
    requires TotalPreorder(leq) && Sorted(leq, a) && Sorted(leq, b)
    requires forall v :: Class(leq, v, a) == Class(leq, v, b)
    ensures a == b
  {
    if a == [] {
      SomeClassIsInhabited(leq, b);
    } else {
      ClassMembers(leq, a[0], a);
      ClassMembers(leq, a[0], b);
      assert a[0] in Class(leq, a[0], b);
      ClassMembers(leq, b[0], b);
      ClassMembers(leq, b[0], a);
      assert b[0] in Class(leq, b[0], a);
      assert leq(a[0], b[0]) && leq(b[0], a[0]);
      assert Class(leq, a[0], a)[0] == a[0] && Class(leq, a[0], b)[0] == b[0];
      forall v ensures Class(leq, v, a[1..]) == Class(leq, v, b[1..]) {
        var head := if leq(v, a[0]) && leq(a[0], v) then [a[0]] else [];
        assert Class(leq, v, a) == head + Class(leq, v, a[1..]);
        assert Class(leq, v, b) == head + Class(leq, v, b[1..]);
        assert Class(leq, v, a[1..]) == Class(leq, v, a)[|head|..];
      }
      StableSortUnique(leq, a[1..], b[1..]);
    }
  }

  lemma {:induction false} ClassConcat<T>(leq: (T, T) -> bool, v: T, a: seq<T>, b: seq<T>)
    ensures Class(leq, v, a + b) == Class(leq, v, a) + Class(leq, v, b)
  {
    if a == [] {
      assert a + b == b;
    } else {
      assert (a + b)[1..] == a[1..] + b;
      ClassConcat(leq, v, a[1..], b);
    }
  }
}
