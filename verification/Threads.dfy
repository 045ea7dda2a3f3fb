/**
 Spreading nodes over the simulation threads of a daemon.  An even assignment gives every thread the same
 number of nodes and the remainder to the lightest one, so the loads never drift apart.
 */
module Threads {
  import opened Vectors

  ghost predicate IsLightest(loads: seq<nat>, th: nat) {
    && th < |loads|
    && (forall t :: 0 <= t < |loads| ==> loads[th] <= loads[t])
    && (forall t :: 0 <= t < th ==> loads[th] < loads[t])
  }

  /** The first thread of least load among the first n. */
  function LightestOf(loads: seq<nat>, n: nat): (th: nat)
    requires 0 < n <= |loads|
    ensures IsLightest(loads[..n], th)
  {
    if n == 1 then 0 else
    var th := LightestOf(loads, n - 1);
    assert forall t :: 0 <= t < n - 1 ==> loads[..n - 1][t] == loads[..n][t];
    if loads[n - 1] < loads[th] then n - 1 else th
  }

  function Lightest(loads: seq<nat>): (th: nat)
    requires |loads| > 0
    ensures IsLightest(loads, th)
  {
    assert loads[..|loads|] == loads;
    LightestOf(loads, |loads|)
  }

  function Repeat(t: nat, n: nat): (r: seq<nat>)
    ensures |r| == n
  {
    seq(n, _ => t)
  }

  /** The thread that gets its nodes in round i. */
  function Turn(T: nat, th: nat, i: nat): (t: nat)
    requires th < T
    ensures t < T
    ensures i < T ==> t == if i + th < T then i + th else i + th - T
  {
    WrapOnce(T, i + th);
    (i + th) % T
  }

  lemma WrapOnce(T: nat, x: nat)
    requires T > 0
    ensures x < T ==> x % T == x
    ensures T <= x < 2 * T ==> x % T == x - T
  {
    if T <= x < 2 * T {
      assert x == T * 1 + (x - T);
    }
  }

  /** per nodes on each of i threads, starting at thread th and wrapping around. */
  function Rounds(T: nat, th: nat, per: nat, i: nat): (r: seq<nat>)
    requires th < T
    ensures |r| == i * per
  {
    if i == 0 then [] else Rounds(T, th, per, i - 1) + Repeat(Turn(T, th, i - 1), per)
  }

  lemma QuotientAndRest(nb: nat, T: nat)
    requires T > 0
    ensures nb % T + T * (nb / T) == nb
  {
  }

  /** The thread of every node of an even assignment, in the order of instantiation. */
  function EvenPlacement(loads: seq<nat>, nb: nat): (p: seq<nat>)
    requires |loads| > 0
    ensures |p| == nb
  {
    var T, th := |loads|, Lightest(loads);
    QuotientAndRest(nb, T);
    Repeat(th, nb % T) + Rounds(T, th, nb / T, T)
  }

  /** An even assignment uses existing threads only. */
  lemma {:induction false} RoundsInRange(T: nat, th: nat, per: nat, i: nat)
    requires th < T
    ensures forall j :: 0 <= j < |Rounds(T, th, per, i)| ==> Rounds(T, th, per, i)[j] < T
  {
    if i > 0 { RoundsInRange(T, th, per, i - 1); }
  }

  /** The load of every thread after placing the nodes p. */
  function Placed(loads: seq<nat>, p: seq<nat>): (r: seq<nat>)
    ensures |r| == |loads|
  {
    seq(|loads|, t requires 0 <= t < |loads| => loads[t] + multiset(p)[t])
  }

  lemma PlacedTwice(loads: seq<nat>, p: seq<nat>, q: seq<nat>)
    ensures Placed(Placed(loads, p), q) == Placed(loads, p + q)
  {
  }

  lemma PlacedNext(loads: seq<nat>, p: seq<nat>, t: nat)
    requires t < |loads|
    ensures Placed(loads, p + [t]) == Placed(loads, p)[t := Placed(loads, p)[t] + 1]
  {
  }

  lemma {:induction false} RepeatCount(t: nat, n: nat, s: nat)
    ensures multiset(Repeat(t, n))[s] == if s == t then n else 0
  {
    if n > 0 {
      RepeatCount(t, n - 1, s);
      assert Repeat(t, n) == Repeat(t, n - 1) + [t];
    }
  }

  /** The round in which thread t gets its nodes. */
  function RoundOf(T: nat, th: nat, t: nat): nat
    requires th < T && t < T
  {
    if t >= th then t - th else t + T - th
  }

  lemma {:induction false} RoundsCount(T: nat, th: nat, per: nat, i: nat, t: nat)
    requires th < T && t < T && i <= T
    ensures multiset(Rounds(T, th, per, i))[t] == if RoundOf(T, th, t) < i then per else 0
  {
    if i > 0 {
      RoundsCount(T, th, per, i - 1, t);
      RepeatCount(Turn(T, th, i - 1), per, t);
      assert Turn(T, th, i - 1) == t <==> RoundOf(T, th, t) == i - 1;
    }
  }

  /** An even assignment gives every thread nb / T nodes, and the lightest one the nb % T left over. */
  lemma EvenLoads(loads: seq<nat>, nb: nat, t: nat)
    requires t < |loads|
    ensures Placed(loads, EvenPlacement(loads, nb))[t]
         == loads[t] + nb / |loads| + (if t == Lightest(loads) then nb % |loads| else 0)
  {
    var T, th := |loads|, Lightest(loads);
    RepeatCount(th, nb % T, t);
    RoundsCount(T, th, nb / T, T, t);
  }

  /** No two loads differ by more than the number of threads less one. */
  ghost predicate Balanced(loads: seq<nat>) {
    forall s, t :: 0 <= s < |loads| && 0 <= t < |loads| ==> loads[s] - loads[t] <= |loads| - 1
  }

  lemma EvenKeepsBalance(loads: seq<nat>, nb: nat)
    requires |loads| > 0 && Balanced(loads)
    ensures Balanced(Placed(loads, EvenPlacement(loads, nb)))
  {
    var after := Placed(loads, EvenPlacement(loads, nb));
    forall s, t | 0 <= s < |loads| && 0 <= t < |loads|
      ensures after[s] - after[t] <= |loads| - 1
    {
      EvenLoads(loads, nb, s);
      EvenLoads(loads, nb, t);
    }
  }

  /** The loads after a sequence of even assignments over T initially empty threads. */
  function Assignments(T: nat, nbs: seq<nat>): (loads: seq<nat>)
    requires T > 0
    ensures |loads| == T
  {
    if |nbs| == 0 then Repeat(0, T) else
    var before := Assignments(T, nbs[..|nbs| - 1]);
    Placed(before, EvenPlacement(before, nbs[|nbs| - 1]))
  }

  function Sum(s: seq<nat>): nat {
    if |s| == 0 then 0 else Sum(s[..|s| - 1]) + s[|s| - 1]
  }

  lemma {:induction false} SumSplit(a: seq<nat>, b: seq<nat>, c: nat, th: nat, x: nat)
    requires |a| == |b| && th < |a|
    requires forall t :: 0 <= t < |a| ==> b[t] == a[t] + c + (if t == th then x else 0)
    ensures Sum(b) == Sum(a) + |a| * c + x
  {
    var n := |a| - 1;
    if th < n {
      SumSplit(a[..n], b[..n], c, th, x);
    } else {
      SumShift(a[..n], b[..n], c);
    }
    assert |a| * c == n * c + c;
  }

  lemma {:induction false} SumShift(a: seq<nat>, b: seq<nat>, c: nat)
    requires |a| == |b| && forall t :: 0 <= t < |a| ==> b[t] == a[t] + c
    ensures Sum(b) == Sum(a) + |a| * c
  {
    if |a| > 0 {
      var n := |a| - 1;
      SumShift(a[..n], b[..n], c);
      assert |a| * c == n * c + c;
    }
  }

  lemma {:induction false} SumZero(n: nat)
    ensures Sum(Repeat(0, n)) == 0
  {
    if n > 0 {
      SumZero(n - 1);
      assert Repeat(0, n)[..n - 1] == Repeat(0, n - 1);
    }
  }

  /** An even assignment adds exactly nb nodes in all. */
  lemma EvenTotal(loads: seq<nat>, nb: nat)
    requires |loads| > 0
    ensures Sum(Placed(loads, EvenPlacement(loads, nb))) == Sum(loads) + nb
  {
    var T, after := |loads|, Placed(loads, EvenPlacement(loads, nb));
    var per, rest := nb / T, nb % T;
    forall t | 0 <= t < T
      ensures after[t] == loads[t] + per + (if t == Lightest(loads) then rest else 0)
    {
      EvenLoads(loads, nb, t);
    }
    SumSplit(loads, after, per, Lightest(loads), rest);
    QuotientAndRest(nb, T);
  }

  /**
   Any sequence of even assignments instantiates exactly the requested totals and keeps the loads within
   T - 1 of each other.
   */
  lemma {:induction false} LoadBalance(T: nat, nbs: seq<nat>)
    requires T > 0
    ensures Balanced(Assignments(T, nbs))
    ensures Sum(Assignments(T, nbs)) == Sum(nbs)
  {
    if |nbs| == 0 {
      SumZero(T);
    } else {
      var before := Assignments(T, nbs[..|nbs| - 1]);
      LoadBalance(T, nbs[..|nbs| - 1]);
      EvenKeepsBalance(before, nbs[|nbs| - 1]);
      EvenTotal(before, nbs[|nbs| - 1]);
    }
  }

  /** The bound is tight: T - 1 nodes over T empty threads all go to one thread. */
  lemma BoundIsReached(T: nat) returns (s: nat, t: nat)
    requires T > 0
    ensures s < T && t < T
    ensures var loads := Placed(Repeat(0, T), EvenPlacement(Repeat(0, T), T - 1)); loads[s] == loads[t] + (T - 1)
  {
    var empty := Repeat(0, T);
    s := Lightest(empty);
    t := if T == 1 then s else if s == 0 then 1 else 0;
    AllToLightest(empty, s);
    AllToLightest(empty, t);
  }

  lemma AllToLightest(loads: seq<nat>, t: nat)
    requires t < |loads|
    ensures Placed(loads, EvenPlacement(loads, |loads| - 1))[t]
         == loads[t] + (if t == Lightest(loads) then |loads| - 1 else 0)
  {
    EvenLoads(loads, |loads| - 1, t);
    WrapOnce(|loads|, |loads| - 1);
    NoShare(|loads|);
  }

  lemma NoShare(T: nat)
    requires T > 0
    ensures (T - 1) / T == 0
  {
  }

  /** Round by round: node j of the even shares runs on the thread of round j / per, counted from thread th on. */
  lemma {:induction false} RoundsOrder(T: nat, th: nat, per: nat, i: nat, j: nat)
    requires th < T && per > 0 && j < i * per
    ensures Rounds(T, th, per, i)[j] == (j / per + th) % T
  {
    var before := Rounds(T, th, per, i - 1);
    assert i * per == (i - 1) * per + per;
    if j < |before| {
      RoundsOrder(T, th, per, i - 1, j);
    } else {
      assert j == (i - 1) * per + (j - |before|);
      QuotientIs(j, i - 1, per, j - |before|);
    }
  }

  /**
   The order of an even assignment: first the nodes left over, all on the lightest thread, then the share of that
   thread, of the next one, and so on around.
   */
  lemma PlacementOrder(loads: seq<nat>, nb: nat, j: nat)
    requires |loads| > 0 && j < nb
    ensures var T, th, rest, per := |loads|, Lightest(loads), nb % |loads|, nb / |loads|;
      && (j < rest ==> EvenPlacement(loads, nb)[j] == th)
      && (j >= rest ==> per > 0 && EvenPlacement(loads, nb)[j] == ((j - rest) / per + th) % T)
  {
    var T, th, rest, per := |loads|, Lightest(loads), nb % |loads|, nb / |loads|;
    QuotientAndRest(nb, T);
    if j >= rest {
      assert j - rest < T * per;
      assert per > 0;
      RoundsOrder(T, th, per, T, j - rest);
    }
  }

  /** The threads of a daemon, each with the number of nodes in its list. */
  class ThreadPool {
    var loads: array<nat>

    constructor (T: nat)
      ensures loads.Length == T && fresh(loads) && loads[..] == Repeat(0, T)
    {
      loads := new nat[T](_ => 0);
    }

    /** agml_threads_create: n more empty threads. */
    method Create(n: nat)
      modifies this
      ensures fresh(loads) && loads[..] == old(loads[..]) + Repeat(0, n)
    {
      var was := loads;
      loads := new nat[was.Length + n](i requires 0 <= i < was.Length + n reads was =>
        if i < was.Length then was[i] else 0);
      assert loads[..] == was[..] + Repeat(0, n);
    }

    /** One node on each listed thread, in that order. */
    method InstantiateEach(p: seq<nat>)
      requires forall i :: 0 <= i < |p| ==> p[i] < loads.Length
      modifies loads
      ensures loads[..] == Placed(old(loads[..]), p)
    {
      ghost var before := loads[..];
      assert Placed(before, p[..0]) == before;
      for i := 0 to |p|
        invariant loads[..] == Placed(before, p[..i])
      {
        assert p[..i + 1] == p[..i] + [p[i]];
        loads[p[i]] := loads[p[i]] + 1;
        PlacedNext(before, p[..i], p[i]);
      }
      assert p[..|p|] == p;
    }

    method GetLightest() returns (th: nat)
      ensures loads.Length > 0 ==> th == Lightest(loads[..])
      ensures loads.Length == 0 ==> th == 0
    {
      th := 0;
      var load: int := -1;
      for i := 0 to loads.Length
        invariant i == 0 ==> th == 0 && load == -1
        invariant i > 0 ==> th == LightestOf(loads[..], i) && load == loads[th]
      {
        if loads[i] < load || load == -1 {
          th, load := i, loads[i];
        }
      }
    }

    /** instantiate_nodes on one given thread; p lists the threads of the new nodes, in order. */
    method InstantiateOn(nb: nat, thread: nat) returns (p: seq<nat>)
      requires thread < loads.Length
      modifies loads
      ensures p == Repeat(thread, nb) && loads[..] == Placed(old(loads[..]), p)
    {
      ghost var before := loads[..];
      p := [];
      assert Placed(before, []) == before;
      for i := 0 to nb
        invariant p == Repeat(thread, i) && loads[..] == Placed(before, p)
      {
        PlacedNext(before, p, thread);
        loads[thread] := loads[thread] + 1;
        p := p + [thread];
      }
    }

    /** per nodes on every thread, starting with thread th */
    method InstantiateRounds(th: nat, per: nat) returns (p: seq<nat>)
      requires th < loads.Length
      modifies loads
      ensures p == Rounds(loads.Length, th, per, loads.Length) && loads[..] == Placed(old(loads[..]), p)
    {
      ghost var before := loads[..];
      var T := loads.Length;
      p := [];
      assert Placed(before, []) == before;
      for i := 0 to T
        invariant p == Rounds(T, th, per, i) && loads[..] == Placed(before, p)
      {
        var more := InstantiateOn(per, Turn(T, th, i));
        PlacedTwice(before, p, more);
        p := p + more;
      }
    }

    /** instantiate_nodes evenly over all the threads: the rest on the lightest one, then a share for every one */
    method InstantiateEvenly(nb: nat) returns (p: seq<nat>)
      requires loads.Length > 0
      modifies loads
      ensures p == EvenPlacement(old(loads[..]), nb) && loads[..] == Placed(old(loads[..]), p)
    {
      ghost var before := loads[..];
      var T := loads.Length;
      var th := GetLightest();
      var per, remaining := Shares(nb, T);
      p := [];
      assert Placed(before, []) == before && Repeat(th, 0) == [];
      if remaining > 0 { p := InstantiateOn(remaining, th); }
      var rounds: seq<nat> := [];
      NoRounds(T, th, T);
      assert Placed(loads[..], []) == loads[..];
      if per > 0 { rounds := InstantiateRounds(th, per); }
      PlacedTwice(before, p, rounds);
      p := p + rounds;
    }
  }

  /** How many nodes every thread gets, and how many are left over. */
  method Shares(nb: nat, T: nat) returns (per: nat, remaining: nat)
    requires T > 0
    ensures per == nb / T && remaining == nb % T
  {
    per := nb / T;
    remaining := nb - per * T;
  }

  lemma {:induction false} NoRounds(T: nat, th: nat, i: nat)
    requires th < T
    ensures Rounds(T, th, 0, i) == []
  {
    if i > 0 { NoRounds(T, th, i - 1); }
  }
}
