/** Cardinality facts about finite sets that the counting arguments rest on. */
module FiniteSets {

  lemma SubsetCard<T>(a: set<T>, b: set<T>)
    requires a <= b
    ensures |a| <= |b|
  {
    assert b == a + (b - a);
  }

  /** A set all of whose elements are equal has at most one element. */
  lemma AtMostOne<T>(a: set<T>)
    requires forall x, y :: x in a && y in a ==> x == y
    ensures |a| <= 1
  {
    if x :| x in a {
      assert a == {x};
    }
  }

  ghost predicate InjectiveOn<A(!new), B>(f: A -> B, a: set<A>) {
    forall x, y :: x in a && y in a && f(x) == f(y) ==> x == y
  }

  /** An injective function into a set needs room there. */
  lemma {:induction false} ImageInto<A(!new), B>(f: A -> B, a: set<A>, b: set<B>)
    requires InjectiveOn(f, a)
    requires forall x :: x in a ==> f(x) in b
    ensures |a| <= |b|
    decreases |a|
  {
    if x :| x in a {
      ImageInto(f, a - {x}, b - {f(x)});
    }
  }

  /** A sequence without repetitions has as many positions as elements. */
  lemma {:induction false} DistinctCard<T>(s: seq<T>, a: set<T>)
    requires forall i, j :: 0 <= i < j < |s| ==> s[i] != s[j]
    requires forall i :: 0 <= i < |s| ==> s[i] in a
    requires forall x :: x in a ==> x in s
    ensures |s| == |a|
    decreases |s|
  {
    if s == [] {
      assert a == {};
    } else {
      var n := |s| - 1;
      var x := s[n];
      forall y | y in a - {x} ensures y in s[..n] {
        var i :| 0 <= i < |s| && s[i] == y;
      }
      DistinctCard(s[..n], a - {x});
    }
  }

  function Interval(n: nat): (s: set<nat>)
    ensures |s| == n
    ensures forall i :: i in s <==> 0 <= i < n
  {
    if n == 0 then {} else Interval(n - 1) + {n - 1}
  }
}
