/** Index lists, sums and counts shared by the server and the agent. */
module Sequences {

  /** The positions of `s` that hold `v`, in ascending order. */
  function IndicesOf<T(==)>(s: seq<T>, v: T): (r: seq<nat>) {
    if s == [] then []
    else
      var init := IndicesOf(s[..|s| - 1], v);
      if s[|s| - 1] == v then init + [|s| - 1] else init
  }

  lemma {:induction false} IndicesOfCharacter<T>(s: seq<T>, v: T)
    ensures forall i :: i in IndicesOf(s, v) <==> 0 <= i < |s| && s[i] == v
    ensures Ascending(IndicesOf(s, v))
  {
    if s != [] {
      IndicesOfCharacter(s[..|s| - 1], v);
      var init := IndicesOf(s[..|s| - 1], v);
      assert forall k :: 0 <= k < |init| ==> init[k] in init;
    }
  }

  ghost predicate Ascending(s: seq<nat>) {
    forall k, l :: 0 <= k < l < |s| ==> s[k] < s[l]
  }

  ghost predicate Distinct<T>(s: seq<T>) {
    forall i, j :: 0 <= i < j < |s| ==> s[i] != s[j]
  }

  function Concat<T>(parts: seq<seq<T>>): (r: seq<T>) {
    if parts == [] then [] else Concat(parts[..|parts| - 1]) + parts[|parts| - 1]
  }

  lemma {:induction false} ConcatSplit<T>(a: seq<seq<T>>, b: seq<seq<T>>)
    ensures Concat(a + b) == Concat(a) + Concat(b)
  {
    if b == [] {
      assert a + b == a;
    } else {
      var init, last := b[..|b| - 1], b[|b| - 1];
      assert (a + b)[..|a + b| - 1] == a + init;
      ConcatSplit(a, init);
      assert Concat(a + b) == (Concat(a) + Concat(init)) + last;
    }
  }

  lemma {:induction false} ConcatContains<T>(parts: seq<seq<T>>, x: T)
    ensures x in Concat(parts) <==> exists i :: 0 <= i < |parts| && x in parts[i]
  {
    if parts != [] {
      var init := parts[..|parts| - 1];
      ConcatContains(init, x);
      assert forall i :: 0 <= i < |init| ==> init[i] == parts[i];
    }
  }

  ghost predicate Overlap<T(!new)>(a: seq<T>, b: seq<T>) {
    exists x :: x in a && x in b
  }

  ghost predicate PairwiseDisjoint<T(!new)>(parts: seq<seq<T>>) {
    forall i, j :: 0 <= i < j < |parts| ==> !Overlap(parts[i], parts[j])
  }

  lemma {:induction false} DistinctAppend<T(!new)>(a: seq<T>, b: seq<T>)
    ensures Distinct(a + b) <==> Distinct(a) && Distinct(b) && !Overlap(a, b)
  {
    var c := a + b;
    assert a == c[..|a|] && b == c[|a|..];
    if Distinct(a) && Distinct(b) && !Overlap(a, b) {
      forall i, j | 0 <= i < j < |c|
        ensures c[i] != c[j]
      {
        if i < |a| <= j {
          assert a[i] in a && b[j - |a|] in b;
        }
      }
    }
    if Distinct(c) {
      forall i, j | 0 <= i < j < |b|
        ensures b[i] != b[j]
      {
        assert c[|a| + i] != c[|a| + j];
      }
    }
  }

  /** A concatenation repeats nothing exactly when no part does and no two parts overlap. */
  lemma {:induction false} DistinctConcat<T(!new)>(parts: seq<seq<T>>)
    ensures Distinct(Concat(parts))
            <==> (forall i :: 0 <= i < |parts| ==> Distinct(parts[i])) && PairwiseDisjoint(parts)
  {
    if parts != [] {
      var init := parts[..|parts| - 1];
      var last := parts[|parts| - 1];
      DistinctConcat(init);
      DistinctAppend(Concat(init), last);
      assert forall i :: 0 <= i < |init| ==> init[i] == parts[i];
      forall x
        ensures x in Concat(init) <==> exists i :: 0 <= i < |init| && x in init[i]
      {
        ConcatContains(init, x);
      }
      if Distinct(Concat(parts)) {
        forall i | 0 <= i < |parts|
          ensures Distinct(parts[i])
        {
          assert i < |init| ==> parts[i] == init[i];
        }
      }
    }
  }
}

/** Counters of the form x := (x + 1) % n, as the servers, both allocators and the ring buffer use them. */
module RoundRobin {

  /** t modulo n: where such a counter stands after t steps. */
  function Cycle(t: nat, n: nat): (r: nat)
    requires n > 0
    ensures r < n && r <= t
  {
    if t < n then t else Cycle(t - n, n)
  }

  /** t divided by n: how often the counter has come round after t steps. */
  function Laps(t: nat, n: nat): nat
    requires n > 0
  {
    if t < n then 0 else Laps(t - n, n) + 1
  }

  lemma {:induction false} CycleStep(t: nat, n: nat)
    requires n > 0
    ensures Cycle(t + 1, n) == if Cycle(t, n) + 1 == n then 0 else Cycle(t, n) + 1
    ensures Laps(t + 1, n) == Laps(t, n) + if Cycle(t, n) + 1 == n then 1 else 0
  {
    if t >= n {
      CycleStep(t - n, n);
    }
  }

  lemma {:induction false} LapsTimes(t: nat, n: nat)
    requires n > 0
    ensures Laps(t, n) * n + Cycle(t, n) == t
  {
    if t >= n {
      LapsTimes(t - n, n);
      assert Laps(t, n) * n == Laps(t - n, n) * n + n;
    }
  }

  /** The two functions are the quotient and the remainder. */
  lemma {:induction false} CycleIsModulo(t: nat, n: nat)
    requires n > 0
    ensures Cycle(t, n) == t % n && Laps(t, n) == t / n
  {
    LapsTimes(t, n);
    DivModUnique(t, n, Laps(t, n), Cycle(t, n));
  }

  /** The quotient and the remainder are the only such pair. */
  lemma {:induction false} DivModUnique(x: int, n: int, q: int, r: int)
    requires n > 0 && 0 <= r < n && x == q * n + r
    ensures x / n == q && x % n == r
  {
    MultipleIsNotSmall(x / n - q, n);
  }

  lemma {:induction false} CycleUnique(t: nat, n: nat, q: nat, r: nat)
    requires r < n && t == q * n + r
    ensures Laps(t, n) == q && Cycle(t, n) == r
  {
    CycleIsModulo(t, n);
    DivModUnique(t, n, q, r);
  }

  lemma {:induction false} MultipleIsNotSmall(d: int, n: int)
    requires n > 0
    ensures d == 0 || d * n >= n || d * n <= -n
  {
  }

  lemma {:induction false} NextModulo(x: nat, n: nat)
    requires x < n
    ensures (x + 1) % n == if x + 1 == n then 0 else x + 1
  {
    if x + 1 == n {
      DivModUnique(x + 1, n, 1, 0);
    } else {
      DivModUnique(x + 1, n, 0, x + 1);
    }
  }

  /** Advances the counter, as every one of the loops does. */
  method Advance(x: nat, n: nat, ghost t: nat) returns (next: nat)
    requires n > 0 && x == Cycle(t, n)
    ensures next == Cycle(t + 1, n)
  {
    CycleStep(t, n);
    NextModulo(x, n);
    next := (x + 1) % n;
  }

  /** Two steps less than n apart never leave the counter at the same place. */
  lemma {:induction false} WindowIsInjective(s: nat, t: nat, n: nat)
    requires n > 0 && s < t < s + n
    ensures Cycle(s, n) != Cycle(t, n)
  {
    if s >= n {
      WindowIsInjective(s - n, t - n, n);
    } else if t >= n {
      assert Cycle(t, n) == t - n;
    }
  }

  /** How many of the ticks 0, 1, ..., ticks-1 fall on residue `a` modulo `n`. */
  function Hits(ticks: nat, n: nat, a: nat): nat
    requires n > 0
  {
    if ticks == 0 then 0
    else Hits(ticks - 1, n, a) + if Cycle(ticks - 1, n) == a then 1 else 0
  }

  lemma {:induction false} HitsStep(ticks: nat, n: nat, a: nat)
    requires n > 0
    ensures Hits(ticks + 1, n, a) == Hits(ticks, n, a) + if Cycle(ticks, n) == a then 1 else 0
  {
  }

  lemma {:induction false} HitsByLaps(ticks: nat, n: nat, a: nat)
    requires a < n
    ensures Hits(ticks, n, a) == Laps(ticks, n) + if a < Cycle(ticks, n) then 1 else 0
  {
    if ticks > 0 {
      HitsByLaps(ticks - 1, n, a);
      CycleStep(ticks - 1, n);
    }
  }

  lemma {:induction false} HitsExactly(ticks: nat, n: nat, a: nat)
    requires a < n
    ensures Hits(ticks, n, a) == ticks / n + if a < ticks % n then 1 else 0
  {
    HitsByLaps(ticks, n, a);
    CycleIsModulo(ticks, n);
  }

  /** Round robin is balanced: any two residues are hit equally often, up to one. */
  lemma {:induction false} Balanced(ticks: nat, n: nat, a: nat, b: nat)
    requires a < n && b < n
    ensures -1 <= Hits(ticks, n, a) - Hits(ticks, n, b) <= 1
  {
    HitsByLaps(ticks, n, a);
    HitsByLaps(ticks, n, b);
  }
}
