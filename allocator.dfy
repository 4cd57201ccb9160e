/** `node_number_allocator` (src/taxonomy.h): hands out the numbers that name the
    files of the content store. Numbers run from 1; zero is never a node. The
    allocator keeps the largest number handed out and the set of numbers below it
    that are free again. */
module Allocator {
  import opened Text
  import opened KeyOrder

  /** `max_allocation`: the all-ones `size_t` shifted right by three, for a 64-bit
      `size_t`. */
  const MaxAllocation: nat := 0x1FFF_FFFF_FFFF_FFFF

  /** The allocator's fields as a value. */
  datatype State = State(maxNode: nat, free: set<nat>)

  /** The numbers in use: one to `maxNode`, except the free ones. */
  function InUse(st: State): (u: set<nat>)
    ensures forall x :: x in u <==> 1 <= x <= st.maxNode && x !in st.free
  {
    set x: nat | 1 <= x <= st.maxNode && x !in st.free
  }

  /** Every free number lies below `maxNode` (so `maxNode`, when not zero, is in use). */
  predicate Consistent(st: State) {
    forall x :: x in st.free ==> 1 <= x < st.maxNode
  }

  /** Every free number lies in one to `maxNode`: what holds part way through a
      deallocation, before the top of the range is trimmed. */
  predicate Within(st: State) {
    forall x :: x in st.free ==> 1 <= x <= st.maxNode
  }

  // ---------------------------------------------------------------------------
  // parse: rebuild the allocator from the node numbers of a nodes map
  // ---------------------------------------------------------------------------

  /** The numbers from one to `top` that are not keys. */
  function Gaps(keys: set<nat>, top: nat): (g: set<nat>)
    ensures forall x :: x in g <==> 1 <= x <= top && x !in keys
  {
    set x: nat | 1 <= x <= top && x !in keys
  }

  lemma GapsGrow(keys: set<nat>, n: nat)
    requires 1 <= n && n !in keys
    ensures Gaps(keys, n) == Gaps(keys, n - 1) + {n}
  {
  }

  lemma GapsAtKey(keys: set<nat>, n: nat)
    requires 1 <= n && n in keys
    ensures Gaps(keys, n) == Gaps(keys, n - 1)
  {
  }

  predicate Below(s: set<nat>, n: nat) {
    forall k :: k in s ==> k < n
  }

  predicate AtLeast(s: set<nat>, n: nat) {
    forall k :: k in s ==> n <= k
  }

  /** One key of `parse`'s loop: the least key not yet visited is above every
      visited key, the numbers between are not keys, and the key itself is no gap. */
  lemma ParseStep(keys: set<nat>, done: set<nat>, k: nat, next: nat)
    requires 0 !in keys && done <= keys && keys - done != {} && k == Least(keys - done)
    requires Below(done, next) && AtLeast(keys - done, next)
    ensures next <= k && Top(done + {k}) == k
    ensures Below(done + {k}, k + 1) && AtLeast(keys - (done + {k}), k + 1)
    ensures keys - (done + {k}) == (keys - done) - {k} && done + {k} <= keys
    ensures forall n :: next <= n < k ==> n !in keys
    ensures Gaps(keys, k) == Gaps(keys, k - 1)
  {
    assert k in keys - done;
    assert next <= k;
    TopGrows(done, k);
    forall n | next <= n < k ensures n !in keys {
      assert n in keys - done ==> k <= n;
    }
    assert Below(done + {k}, k + 1);
    forall j | j in keys - (done + {k}) ensures k + 1 <= j {
      assert j in keys - done && j != k;
    }
    assert keys - (done + {k}) == (keys - done) - {k};
    assert Gaps(keys, k) == Gaps(keys, k - 1);
  }

  /** A fresh allocator rebuilt from the keys of a nodes map hands out exactly the
      keys as in use, and is consistent. */
  lemma {:induction false} ParsedInUse(keys: set<nat>)
    requires 0 !in keys
    ensures InUse(State(Top(keys), Gaps(keys, Top(keys)))) == keys
    ensures Consistent(State(Top(keys), Gaps(keys, Top(keys))))
  {
    var st := State(Top(keys), Gaps(keys, Top(keys)));
    forall x ensures x in InUse(st) <==> x in keys {
      if x in keys { assert x <= Top(keys); }
    }
    forall x | x in st.free ensures x < st.maxNode {
      assert x != Top(keys) by { if keys != {} { assert Top(keys) in keys; } }
    }
  }

  // ---------------------------------------------------------------------------
  // alloc
  // ---------------------------------------------------------------------------

  /** What `alloc` returns and leaves behind. `node` is the caller's variable, left
      alone when the allocation fails. */
  datatype Allocation = Allocation(ok: bool, node: nat, after: State)

  /** `alloc`: the least free number, or one past the largest when none is free;
      fails only when nothing is free and the range is exhausted. */
  ghost function Allocated(st: State, current: nat): (a: Allocation)
    ensures !a.ok <==> st.free == {} && st.maxNode == MaxAllocation
  {
    if st.free == {} then
      if st.maxNode == MaxAllocation then Allocation(false, current, st)
      else Allocation(true, st.maxNode + 1, State(st.maxNode + 1, st.free))
    else
      var n := Least(st.free);
      Allocation(true, n, State(st.maxNode, st.free - {n}))
  }

  /** An allocation hands out the least number not in use, adds exactly it to the
      numbers in use, and keeps the allocator consistent. */
  lemma AllocTakesLeastUnused(st: State, current: nat)
    requires Consistent(st)
    requires Allocated(st, current).ok
    ensures var a := Allocated(st, current);
            1 <= a.node && a.node !in InUse(st)
            && (forall j :: 1 <= j < a.node ==> j in InUse(st))
            && InUse(a.after) == InUse(st) + {a.node}
            && Consistent(a.after)
  {
    var a := Allocated(st, current);
    if st.free != {} {
      var n := Least(st.free);
      assert InUse(a.after) == InUse(st) + {n} by {
        forall x ensures x in InUse(a.after) <==> x in InUse(st) + {n} {
          if x == n { assert 1 <= n < st.maxNode; }
        }
      }
    } else {
      assert InUse(a.after) == InUse(st) + {a.node};
    }
  }

  // ---------------------------------------------------------------------------
  // dealloc
  // ---------------------------------------------------------------------------

  /** The loop at the end of `dealloc`: while the largest number is free, drop it
      from the free set and lower the largest number. */
  function Trim(st: State): (r: State)
    decreases st.maxNode
  {
    if st.maxNode != 0 && st.maxNode in st.free then Trim(State(st.maxNode - 1, st.free - {st.maxNode}))
    else st
  }

  /** Trimming keeps the numbers in use and leaves the allocator consistent. */
  lemma {:induction false} TrimKeepsInUse(st: State)
    requires Within(st)
    ensures InUse(Trim(st)) == InUse(st) && Consistent(Trim(st))
    decreases st.maxNode
  {
    if st.maxNode != 0 && st.maxNode in st.free {
      var next := State(st.maxNode - 1, st.free - {st.maxNode});
      TrimKeepsInUse(next);
      assert InUse(next) == InUse(st);
    }
  }

  /** `dealloc` as written: a number below the largest is freed, and the largest
      number is lowered as well. */
  function DeallocatedAsWritten(st: State, n: nat): (bool, State) {
    if n == 0 || n > st.maxNode then (false, st)
    else if n == st.maxNode && st.maxNode == 1 then (true, State(0, st.free))
    else
      var freed := if n < st.maxNode then st.free + {n} else st.free;
      (true, Trim(State(st.maxNode - 1, freed)))
  }

  /** With the largest number in use, freeing a smaller one as written also drops
      the largest from the numbers in use, and the next allocations hand it out a
      second time. */
  lemma DeallocAsWrittenLosesLargest()
    ensures DeallocatedAsWritten(State(5, {}), 3) == (true, State(4, {3}))
    ensures InUse(State(5, {}) ) - {3} == {1, 2, 4, 5}
    ensures InUse(State(4, {3})) == {1, 2, 4}
    ensures Allocated(State(4, {3}), 0) == Allocation(true, 3, State(4, {}))
    ensures Allocated(State(4, {}), 0) == Allocation(true, 5, State(5, {}))
  {
    assert {} + {3} == {3};
    assert 4 !in {3};
    assert Trim(State(4, {3})) == State(4, {3});
    assert InUse(State(5, {})) - {3} == {1, 2, 4, 5} by {
      forall x ensures x in InUse(State(5, {})) - {3} <==> x in {1, 2, 4, 5} {
        if 1 <= x <= 5 && x != 3 { assert x == 1 || x == 2 || x == 4 || x == 5; }
      }
    }
    assert InUse(State(4, {3})) == {1, 2, 4} by {
      forall x ensures x in InUse(State(4, {3})) <==> x in {1, 2, 4} {
        if 1 <= x <= 4 && x != 3 { assert x == 1 || x == 2 || x == 4; }
      }
    }
    LeastIsUnique({3}, 3);
  }

  /** `dealloc` as evidently intended: only freeing the largest number lowers it. */
  function Deallocated(st: State, n: nat): (bool, State) {
    if n == 0 || n > st.maxNode then (false, st)
    else if n < st.maxNode then (true, State(st.maxNode, st.free + {n}))
    else (true, Trim(State(st.maxNode - 1, st.free)))
  }

  /** Deallocation succeeds exactly for numbers from one to the largest, removes
      exactly that number from the numbers in use, and keeps the allocator
      consistent. */
  lemma DeallocFrees(st: State, n: nat)
    requires Consistent(st)
    ensures Deallocated(st, n).0 <==> 1 <= n <= st.maxNode
    ensures !Deallocated(st, n).0 ==> Deallocated(st, n).1 == st
    ensures Deallocated(st, n).0 ==> InUse(Deallocated(st, n).1) == InUse(st) - {n} && Consistent(Deallocated(st, n).1)
  {
    if 1 <= n < st.maxNode {
      var after := State(st.maxNode, st.free + {n});
      assert InUse(after) == InUse(st) - {n};
    } else if n == st.maxNode && n != 0 {
      var lowered := State(st.maxNode - 1, st.free);
      TrimKeepsInUse(lowered);
      assert InUse(lowered) == InUse(st) - {n};
    }
  }

  /** Freeing the number just handed out restores the numbers in use. */
  lemma DeallocUndoesAlloc(st: State, current: nat)
    requires Consistent(st) && Allocated(st, current).ok
    ensures var a := Allocated(st, current);
            Deallocated(a.after, a.node).0 && InUse(Deallocated(a.after, a.node).1) == InUse(st)
  {
    var a := Allocated(st, current);
    AllocTakesLeastUnused(st, current);
    DeallocFrees(a.after, a.node);
  }

  // ---------------------------------------------------------------------------
  // print: the free numbers as maximal intervals, then the open top interval
  // ---------------------------------------------------------------------------

  /** The maximal runs of consecutive numbers in an increasing list, when the
      first run has been read from `start` up to `next - 1`. */
  function RunsFrom(start: nat, next: nat, rest: seq<nat>): (rs: seq<(nat, nat)>)
    requires 0 < next
    ensures |rs| > 0 && rs[0].0 == start
    decreases |rest|
  {
    var last: nat := next - 1;
    if rest == [] then [(start, last)]
    else if rest[0] == next then RunsFrom(start, next + 1, rest[1..])
    else [(start, last)] + RunsFrom(rest[0], rest[0] + 1, rest[1..])
  }

  /** The maximal runs of a non-empty increasing list. */
  function Runs(xs: seq<nat>): seq<(nat, nat)>
    requires xs != []
  {
    RunsFrom(xs[0], xs[0] + 1, xs[1..])
  }

  /** `x` lies in one of the runs. */
  predicate InRuns(rs: seq<(nat, nat)>, x: nat)
    decreases |rs|
  {
    rs != [] && ((rs[0].0 <= x <= rs[0].1) || InRuns(rs[1..], x))
  }

  /** Runs are non-empty, ascending and separated by at least one missing number. */
  predicate Separated(rs: seq<(nat, nat)>) {
    (forall i :: 0 <= i < |rs| ==> rs[i].0 <= rs[i].1)
    && (forall i :: 0 <= i < |rs| - 1 ==> rs[i].1 + 1 < rs[i + 1].0)
  }

  /** Every element of the list is at least `next`. */
  predicate Above(rest: seq<nat>, next: nat) {
    forall i :: 0 <= i < |rest| ==> next <= rest[i]
  }

  lemma TailFacts(next: nat, rest: seq<nat>)
    requires rest != [] && Increasing(rest) && Above(rest, next)
    ensures Increasing(rest[1..]) && Above(rest[1..], rest[0] + 1) && next <= rest[0]
    ensures forall x :: x in rest <==> x == rest[0] || x in rest[1..]
  {
    assert rest == [rest[0]] + rest[1..];
    forall i | 0 <= i < |rest[1..]| ensures rest[0] + 1 <= rest[1..][i] {
      assert rest[1..][i] == rest[i + 1];
    }
  }

  lemma InRunsCons(r: (nat, nat), more: seq<(nat, nat)>, x: nat)
    ensures InRuns([r] + more, x) <==> (r.0 <= x <= r.1) || InRuns(more, x)
  {
    assert ([r] + more)[1..] == more;
  }

  lemma {:induction false} RunsFromCover(start: nat, next: nat, rest: seq<nat>, x: nat)
    requires start < next && Increasing(rest) && Above(rest, next)
    ensures InRuns(RunsFrom(start, next, rest), x) <==> start <= x < next || x in rest
    decreases |rest|
  {
    var rs := RunsFrom(start, next, rest);
    if rest == [] {
      assert rs == [(start, next - 1)] + [];
      InRunsCons((start, next - 1), [], x);
    } else {
      TailFacts(next, rest);
      var tail := rest[1..];
      if rest[0] == next {
        RunsFromCover(start, next + 1, tail, x);
      } else {
        var more := RunsFrom(rest[0], rest[0] + 1, tail);
        RunsFromCover(rest[0], rest[0] + 1, tail, x);
        assert rs == [(start, next - 1)] + more;
        InRunsCons((start, next - 1), more, x);
      }
    }
  }

  lemma {:induction false} RunsFromSeparated(start: nat, next: nat, rest: seq<nat>)
    requires start < next && Increasing(rest) && Above(rest, next)
    ensures Separated(RunsFrom(start, next, rest))
    decreases |rest|
  {
    var rs := RunsFrom(start, next, rest);
    if rest != [] {
      TailFacts(next, rest);
      if rest[0] == next {
        RunsFromSeparated(start, next + 1, rest[1..]);
      } else {
        var more := RunsFrom(rest[0], rest[0] + 1, rest[1..]);
        RunsFromSeparated(rest[0], rest[0] + 1, rest[1..]);
        assert rs == [(start, next - 1)] + more;
        forall i | 0 <= i < |rs| ensures rs[i].0 <= rs[i].1 {
          if i > 0 { assert rs[i] == more[i - 1]; }
        }
        forall i | 0 <= i < |rs| - 1 ensures rs[i].1 + 1 < rs[i + 1].0 {
          if i > 0 { assert rs[i] == more[i - 1] && rs[i + 1] == more[i]; }
        }
      }
    }
  }

  /** The runs of a non-empty increasing list are its maximal intervals: they cover
      exactly its elements, ascend and are separated by gaps. */
  lemma RunsAreMaximal(xs: seq<nat>)
    requires xs != [] && Increasing(xs)
    ensures Separated(Runs(xs)) && Runs(xs)[0].0 == xs[0]
    ensures forall x :: InRuns(Runs(xs), x) <==> x in xs
  {
    TailFacts(0, xs);
    RunsFromSeparated(xs[0], xs[0] + 1, xs[1..]);
    forall x ensures InRuns(Runs(xs), x) <==> x in xs {
      RunsFromCover(xs[0], xs[0] + 1, xs[1..], x);
    }
  }

  /** One closed interval as `print` writes it, after the one before. */
  function Interval(r: (nat, nat)): string {
    " [" + NatToString(r.0) + " " + NatToString(r.1) + "]"
  }

  /** The intervals after the first. */
  function MoreIntervals(rs: seq<(nat, nat)>): string
    decreases |rs|
  {
    if rs == [] then "" else Interval(rs[0]) + MoreIntervals(rs[1..])
  }

  /** What remains to be written once the first interval has been opened: its end,
      then the other intervals. */
  function Closing(rs: seq<(nat, nat)>): string
    requires rs != []
  {
    " " + NatToString(rs[0].1) + "]" + MoreIntervals(rs[1..])
  }

  /** All of `print`'s output for a non-empty free set. */
  function IntervalsText(xs: seq<nat>, maxNode: nat): string
    requires xs != []
  {
    "[" + NatToString(xs[0]) + Closing(Runs(xs)) + " [" + NatToString(maxNode + 1) + " +INF]"
  }

  lemma ClosingCons(r: (nat, nat), more: seq<(nat, nat)>)
    requires more != []
    ensures Closing([r] + more) == " " + NatToString(r.1) + "]" + " [" + NatToString(more[0].0) + Closing(more)
  {
    assert ([r] + more)[1..] == more;
    var n := NatToString(more[0].0);
    var e := NatToString(more[0].1);
    var tail := MoreIntervals(more[1..]);
    assert MoreIntervals(more) == " [" + n + " " + e + "]" + tail;
    calc {
      Closing([r] + more);
      " " + NatToString(r.1) + "]" + (" [" + n + " " + e + "]" + tail);
      " " + NatToString(r.1) + "]" + " [" + n + (" " + e + "]" + tail);
    }
  }

  /** Where the list leaves the current run, the run is closed and the next opened. */
  lemma ClosingStep(start: nat, next: nat, x: nat, rest: seq<nat>)
    requires 0 < next && x != next
    ensures Closing(RunsFrom(start, next, [x] + rest))
            == " " + NatToString(next - 1) + "]" + " [" + NatToString(x) + Closing(RunsFrom(x, x + 1, rest))
  {
    assert ([x] + rest)[1..] == rest;
    ClosingCons((start, next - 1), RunsFrom(x, x + 1, rest));
  }

  /** The text `print` writes when one interval closes and the next opens. */
  function Break(last: nat, x: nat): string {
    " " + NatToString(last) + "]" + " [" + NatToString(x)
  }

  /** What the loop in `print` still writes while an interval is open, `next` being
      the number that would extend it and `rest` the free numbers not yet visited:
      each number visited in ascending order extends the open interval or closes it
      and opens another; at the end the open interval is closed. */
  ghost function ClosingFrom(next: nat, rest: set<nat>): string
    requires 0 < next
    decreases |rest|
  {
    if rest == {} then " " + NatToString(next - 1) + "]"
    else
      var x := Least(rest);
      if x == next then ClosingFrom(next + 1, rest - {x})
      else Break(next - 1, x) + ClosingFrom(x + 1, rest - {x})
  }

  /** The loop's remaining output is the closing of the open interval and the
      intervals of the runs of the remaining numbers. */
  lemma {:induction false} ClosingFromRuns(start: nat, next: nat, rest: set<nat>)
    requires 0 < next
    ensures ClosingFrom(next, rest) == Closing(RunsFrom(start, next, Ascending(rest)))
    decreases |rest|
  {
    if rest == {} {
      assert Ascending(rest) == [];
      assert RunsFrom(start, next, []) == [(start, next - 1)];
      assert MoreIntervals([]) == "";
    } else {
      var x := Least(rest);
      AscendingCons(rest);
      var more := Ascending(rest - {x});
      if x == next {
        RunGrows(start, next, more);
        ClosingFromRuns(start, next + 1, rest - {x});
      } else {
        ClosingStep(start, next, x, more);
        ClosingFromRuns(x, x + 1, rest - {x});
        Associative(Break(next - 1, x), "", Closing(RunsFrom(x, x + 1, more)));
      }
    }
  }

  /** Everything `print` writes for a non-empty free set, up to the end of the
      last closed interval. */
  ghost function Opened(s: set<nat>): string
    requires s != {}
  {
    "[" + NatToString(Least(s)) + ClosingFrom(Least(s) + 1, s - {Least(s)})
  }

  /** With the open-ended interval after it, `Opened` is all of `print`'s output. */
  lemma OpenedIsIntervals(s: set<nat>, maxNode: nat)
    requires s != {}
    ensures Ascending(s) != []
    ensures Opened(s) + " [" + NatToString(maxNode + 1) + " +INF]" == IntervalsText(Ascending(s), maxNode)
  {
    AscendingCons(s);
    assert Ascending(s)[1..] == Ascending(s - {Least(s)});
    ClosingFromRuns(Least(s), Least(s) + 1, s - {Least(s)});
  }

  /** Where the list continues the current run, the run grows. */
  lemma RunGrows(start: nat, next: nat, rest: seq<nat>)
    requires 0 < next
    ensures RunsFrom(start, next, [next] + rest) == RunsFrom(start, next + 1, rest)
  {
    assert ([next] + rest)[1..] == rest;
  }

  // The example lemmas below are the steps of `PrintExample`, which puts them together
  // into one worked instance of `rebuild` followed by `print`.

  /** The free numbers {9, 10} in iteration order. */
  lemma AscendingPairExample()
    ensures Ascending({9, 10}) == [9, 10]
  {
    LeastIsUnique({9, 10}, 9);
    AscendingCons({9, 10});
    assert {9, 10} - {9} == {10};
    LeastIsUnique({10}, 10);
    AscendingCons({10});
    assert {10} - {10} == {};
  }

  /** The free numbers {1, 6, 9, 10} in iteration order. */
  lemma AscendingExample()
    ensures Ascending({1, 6, 9, 10}) == [1, 6, 9, 10]
  {
    var s: set<nat> := {1, 6, 9, 10};
    LeastIsUnique(s, 1);
    AscendingCons(s);
    assert s - {1} == {6, 9, 10};
    LeastIsUnique({6, 9, 10}, 6);
    AscendingCons({6, 9, 10});
    assert {6, 9, 10} - {6} == {9, 10};
    AscendingPairExample();
  }

  /** The decimal texts the example below needs. */
  lemma SmallNumbers()
    ensures NatToString(1) == "1" && NatToString(6) == "6" && NatToString(9) == "9"
    ensures NatToString(10) == "10" && NatToString(12) == "12"
  {
    assert NatToString(1) == [DigitChar(1)];
    assert NatToString(10) == NatToString(1) + [DigitChar(0)];
    assert NatToString(12) == NatToString(1) + [DigitChar(2)];
  }

  /** The maximal runs of 1, 6, 9 and 10. */
  lemma RunsExample()
    ensures Runs([1, 6, 9, 10]) == [(1, 1), (6, 6), (9, 10)]
  {
    var xs: seq<nat> := [1, 6, 9, 10];
    assert xs[1..] == [6, 9, 10];
    var a: seq<nat> := [6, 9, 10];
    assert a[1..] == [9, 10];
    var b: seq<nat> := [9, 10];
    assert b[1..] == [10];
    var c: seq<nat> := [10];
    assert c[1..] == [];
    assert RunsFrom(9, 10, c) == RunsFrom(9, 11, []) == [(9, 10)];
    assert RunsFrom(6, 7, b) == [(6, 6)] + [(9, 10)];
    assert RunsFrom(1, 2, a) == [(1, 1)] + [(6, 6), (9, 10)];
  }

  /** The intervals after the first one, for the runs of 1, 6, 9 and 10. */
  lemma MoreIntervalsExample()
    ensures MoreIntervals([(6, 6), (9, 10)]) == " [6 6] [9 10]"
  {
    SmallNumbers();
    var more: seq<(nat, nat)> := [(6, 6), (9, 10)];
    assert more[1..] == [(9, 10)];
    var last: seq<(nat, nat)> := [(9, 10)];
    assert last[1..] == [];
    assert MoreIntervals(last) == " [9 10]";
  }

  /** What follows the opening of the first interval, for the runs of 1, 6, 9 and 10. */
  lemma ClosingExample()
    ensures Closing([(1, 1), (6, 6), (9, 10)]) == " 1] [6 6] [9 10]"
  {
    var rs: seq<(nat, nat)> := [(1, 1), (6, 6), (9, 10)];
    assert rs[1..] == [(6, 6), (9, 10)];
    MoreIntervalsExample();
    SmallNumbers();
  }

  /** The text of the intervals of 1, 6, 9 and 10 under 11. */
  lemma IntervalsExample()
    ensures IntervalsText([1, 6, 9, 10], 11) == "[1 1] [6 6] [9 10] [12 +INF]"
  {
    RunsExample();
    ClosingExample();
    SmallNumbers();
  }

  /** The largest key and the gaps of the keys {2, 3, 4, 5, 7, 8, 11}. */
  lemma RebuildExample()
    ensures Top({2, 3, 4, 5, 7, 8, 11}) == 11
    ensures Gaps({2, 3, 4, 5, 7, 8, 11}, 11) == {1, 6, 9, 10}
  {
    assert Top({2, 3, 4, 5, 7, 8, 11}) in {2, 3, 4, 5, 7, 8, 11};
  }

  /** An allocator rebuilt from the keys {2, 3, 4, 5, 7, 8, 11} has the free numbers
      {1, 6, 9, 10} under 11, which `print` writes as "[1 1] [6 6] [9 10] [12 +INF]". */
  lemma PrintExample()
    ensures Top({2, 3, 4, 5, 7, 8, 11}) == 11
    ensures Gaps({2, 3, 4, 5, 7, 8, 11}, 11) == {1, 6, 9, 10}
    ensures IntervalsText(Ascending({1, 6, 9, 10}), 11) == "[1 1] [6 6] [9 10] [12 +INF]"
  {
    RebuildExample();
    AscendingExample();
    IntervalsExample();
  }

  // ---------------------------------------------------------------------------
  // The allocator object
  // ---------------------------------------------------------------------------

  /** `node_number_allocator`. */
  class NodeNumberAllocator {
    var maxNode: nat
    var freeNodes: set<nat>

    /** The implicit default constructor: the free set starts empty, while `max_node`
        is left uninitialised until `Parse` sets it. */
    constructor()
      ensures freeNodes == {}
    {
      freeNodes := {};
    }

    function Value(): State
      reads this
    {
      State(maxNode, freeNodes)
    }

    /** `parse`: the largest key becomes the largest number, and every number below
        it that is not a key is added to the free numbers already present. */
    method Parse(keys: set<nat>)
      requires 0 !in keys
      modifies this
      ensures maxNode == Top(keys)
      ensures freeNodes == old(freeNodes) + Gaps(keys, maxNode)
    {
      maxNode := 0;
      var next: nat := 1;
      var rest := keys;
      ghost var done: set<nat> := {};
      while rest != {}
        invariant rest == keys - done && done <= keys
        invariant Below(done, next) && AtLeast(rest, next)
        invariant 1 <= next && maxNode == Top(done) && maxNode == next - 1
        invariant freeNodes == old(freeNodes) + Gaps(keys, next - 1)
        decreases |rest|
      {
        var k := First(rest);
        ParseStep(keys, done, k, next);
        maxNode := k;
        while next != k
          invariant 1 <= next <= k && maxNode == k
          invariant freeNodes == old(freeNodes) + Gaps(keys, next - 1)
          decreases k - next
        {
          GapsGrow(keys, next);
          freeNodes := freeNodes + {next};
          next := next + 1;
        }
        next := next + 1;
        done := done + {k};
        rest := rest - {k};
      }
    }

    /** `alloc`. */
    method Alloc(current: nat) returns (ok: bool, node: nat)
      modifies this
      ensures Allocation(ok, node, Value()) == Allocated(old(Value()), current)
    {
      if freeNodes == {} {
        if maxNode == MaxAllocation {
          return false, current;
        }
        maxNode := maxNode + 1;
        node := maxNode;
      } else {
        node := First(freeNodes);
        freeNodes := freeNodes - {node};
      }
      ok := true;
    }

    /** `dealloc`, as evidently intended (see `DeallocatedAsWritten`). */
    method Dealloc(n: nat) returns (ok: bool)
      modifies this
      ensures (ok, Value()) == Deallocated(old(Value()), n)
    {
      if n == 0 || n > maxNode {
        return false;
      }
      if n < maxNode {
        freeNodes := freeNodes + {n};
        return true;
      }
      maxNode := maxNode - 1;
      while maxNode != 0 && maxNode in freeNodes
        invariant Trim(Value()) == Trim(State(old(maxNode) - 1, old(freeNodes)))
        decreases maxNode
      {
        freeNodes := freeNodes - {maxNode};
        maxNode := maxNode - 1;
      }
      ok := true;
    }

    /** `print`, for a non-empty free set (for an empty one the source writes an
        uninitialised variable). */
    method Print() returns (out: string)
      requires freeNodes != {}
      ensures out == IntervalsText(Ascending(freeNodes), maxNode)
    {
      var rest := freeNodes;
      var first := First(rest);
      rest := rest - {first};
      out := "[" + NatToString(first);
      var next := first + 1;
      while rest != {}
        invariant 0 < next && out + ClosingFrom(next, rest) == Opened(freeNodes)
        decreases |rest|
      {
        var x := First(rest);
        if x == next {
          next := next + 1;
        } else {
          Associative(out, Break(next - 1, x), ClosingFrom(x + 1, rest - {x}));
          out := out + Break(next - 1, x);
          next := x + 1;
        }
        rest := rest - {x};
      }
      out := out + (" " + NatToString(next - 1) + "]");
      OpenedIsIntervals(freeNodes, maxNode);
      out := out + " [" + NatToString(maxNode + 1) + " +INF]";
    }
  }
}
