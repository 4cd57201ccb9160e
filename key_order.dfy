/** Iteration over a `std::set<size_t>` or the keys of a `std::map<size_t, …>`: in
    ascending order, each element once. */
module KeyOrder {

  /** The smallest element of a non-empty set of numbers (`begin()`). */
  ghost function Least(s: set<nat>): (m: nat)
    requires s != {}
    ensures m in s
    ensures forall y :: y in s ==> m <= y
    decreases |s|
  {
    var x :| x in s;
    if s == {x} then
      assert forall y :: y in s ==> y == x;
      x
    else
      var r := Least(s - {x});
      assert forall y :: y in s ==> y == x || y in s - {x};
      if x < r then x else r
  }

  /** The iteration order of the set: strictly ascending, each element once. */
  ghost function Ascending(s: set<nat>): (xs: seq<nat>)
    ensures |xs| == |s|
    decreases |s|
  {
    if s == {} then [] else [Least(s)] + Ascending(s - {Least(s)})
  }

  predicate Increasing(xs: seq<nat>) {
    forall i, j :: 0 <= i < j < |xs| ==> xs[i] < xs[j]
  }

  /** `Ascending` lists exactly the set. */
  lemma {:induction false} AscendingMembers(s: set<nat>)
    ensures forall x :: x in Ascending(s) <==> x in s
    decreases |s|
  {
    if s != {} {
      AscendingMembers(s - {Least(s)});
    }
  }

  /** `Ascending` lists the set in strictly increasing order. */
  lemma {:induction false} AscendingIsSorted(s: set<nat>)
    ensures Increasing(Ascending(s))
    decreases |s|
  {
    if s != {} {
      var m := Least(s);
      var rest := s - {m};
      AscendingIsSorted(rest);
      AscendingMembers(rest);
      var ys := Ascending(rest);
      var xs := [m] + ys;
      assert Ascending(s) == xs;
      forall i, j | 0 <= i < j < |xs| ensures xs[i] < xs[j] {
        assert xs[j] == ys[j - 1] && ys[j - 1] in ys;
        if i > 0 {
          assert xs[i] == ys[i - 1];
        }
      }
    }
  }

  /** Only one element of a set is below all the others. */
  lemma LeastIsUnique(s: set<nat>, m: nat)
    requires m in s && forall y :: y in s ==> m <= y
    ensures m == Least(s)
  {
  }

  /** Iteration starts at the least element and goes on with the others. */
  lemma AscendingCons(s: set<nat>)
    requires s != {}
    ensures Ascending(s) == [Least(s)] + Ascending(s - {Least(s)})
  {
  }

  /** `begin()` on a non-empty set: its least element. */
  method First(s: set<nat>) returns (m: nat)
    requires s != {}
    ensures m == Least(s)
  {
    assert Least(s) in s;
    m :| m in s && forall y :: y in s ==> m <= y;
    LeastIsUnique(s, m);
  }

  /** The largest element of a set of numbers, or zero for the empty set (the
      running maximum a loop over the set ends with when it starts from zero). */
  ghost function Top(s: set<nat>): (t: nat)
    ensures s == {} ==> t == 0
    ensures s != {} ==> t in s
    ensures forall y :: y in s ==> y <= t
    decreases |s|
  {
    if s == {} then 0
    else
      var x :| x in s;
      var r := Top(s - {x});
      assert forall y :: y in s ==> y == x || y in s - {x};
      if x > r then x else r
  }

  /** Adding a number above all the others makes it the largest. */
  lemma TopGrows(s: set<nat>, k: nat)
    requires forall y :: y in s ==> y < k
    ensures Top(s + {k}) == k
  {
    assert Top(s + {k}) in s + {k};
  }
}
