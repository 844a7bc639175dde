/**
 The parent array shared by both affinity servers: recursive find with path compression, and join.
 The array has a fixed capacity and is reinitialised, up to the size needed, at every request.
 */
module UnionFind {

  /** `rank` strictly falls along every parent link, so the links form a forest. */
  ghost predicate Ranked(fa: seq<nat>, rank: seq<nat>) {
    && |rank| == |fa|
    && forall x :: 0 <= x < |fa| ==> fa[x] < |fa| && (fa[x] != x ==> rank[fa[x]] < rank[x])
  }

  /** The root reached from x by following parents. */
  ghost function Root(fa: seq<nat>, rank: seq<nat>, x: nat): (r: nat)
    requires Ranked(fa, rank) && x < |fa|
    ensures r < |fa| && fa[r] == r && rank[r] <= rank[x]
    decreases rank[x]
  {
    if fa[x] == x then x else Root(fa, rank, fa[x])
  }

  ghost function Roots(fa: seq<nat>, rank: seq<nat>): (rs: seq<nat>)
    requires Ranked(fa, rank)
    ensures |rs| == |fa| && forall x :: 0 <= x < |fa| ==> rs[x] == Root(fa, rank, x)
  {
    seq(|fa|, x requires 0 <= x < |fa| => Root(fa, rank, x))
  }

  /** y lies on the way from x to its root. */
  ghost predicate OnPath(fa: seq<nat>, rank: seq<nat>, x: nat, y: nat)
    requires Ranked(fa, rank) && x < |fa|
    decreases rank[x]
  {
    x == y || (fa[x] != x && OnPath(fa, rank, fa[x], y))
  }

  /** The element `steps` parent links above x. */
  ghost function Follow(fa: seq<nat>, x: nat, steps: nat): nat
    requires x < |fa| && forall y :: 0 <= y < |fa| ==> fa[y] < |fa|
    decreases steps
  {
    if steps == 0 then x else Follow(fa, fa[x], steps - 1)
  }

  /** The root does not depend on the rank chosen to witness the forest. */
  lemma {:induction false} RootIgnoresRank(fa: seq<nat>, rank: seq<nat>, rank': seq<nat>, x: nat)
    requires Ranked(fa, rank) && Ranked(fa, rank') && x < |fa|
    ensures Root(fa, rank, x) == Root(fa, rank', x)
    decreases rank[x]
  {
    if fa[x] != x {
      RootIgnoresRank(fa, rank, rank', fa[x]);
    }
  }

  /** A ranked parent array has no cycle other than a root's link to itself. */
  lemma {:induction false} NoCycle(fa: seq<nat>, rank: seq<nat>, x: nat, steps: nat)
    requires Ranked(fa, rank) && x < |fa| && steps > 0
    requires Follow(fa, x, steps) == x
    ensures fa[x] == x
  {
    FollowDescends(fa, rank, fa[x], steps - 1);
  }

  lemma {:induction false} FollowDescends(fa: seq<nat>, rank: seq<nat>, x: nat, steps: nat)
    requires Ranked(fa, rank) && x < |fa|
    ensures Follow(fa, x, steps) < |fa| && rank[Follow(fa, x, steps)] <= rank[x]
    decreases steps
  {
    if steps > 0 {
      FollowDescends(fa, rank, fa[x], steps - 1);
    }
  }

  /** Following parents reaches exactly the root, and find needs no more calls than the rank of x. */
  lemma {:induction false} FollowReachesRoot(fa: seq<nat>, rank: seq<nat>, x: nat) returns (steps: nat)
    requires Ranked(fa, rank) && x < |fa|
    ensures steps <= rank[x] && Follow(fa, x, steps) == Root(fa, rank, x)
    decreases rank[x]
  {
    if fa[x] == x {
      steps := 0;
    } else {
      steps := FollowReachesRoot(fa, rank, fa[x]);
      steps := steps + 1;
    }
  }

  lemma {:induction false} PathDescends(fa: seq<nat>, rank: seq<nat>, x: nat, y: nat)
    requires Ranked(fa, rank) && x < |fa| && OnPath(fa, rank, x, y)
    ensures y < |fa| && rank[y] <= rank[x] && Root(fa, rank, y) == Root(fa, rank, x)
    decreases rank[x]
  {
    if x != y {
      PathDescends(fa, rank, fa[x], y);
    }
  }

  /** Pointing x straight at its root changes no element's root. */
  lemma {:induction false} CompressionKeepsRoot(fa: seq<nat>, rank: seq<nat>, x: nat, y: nat)
    requires Ranked(fa, rank) && x < |fa| && y < |fa|
    ensures Ranked(fa[x := Root(fa, rank, x)], rank)
    ensures Root(fa[x := Root(fa, rank, x)], rank, y) == Root(fa, rank, y)
    decreases rank[y]
  {
    var fa' := fa[x := Root(fa, rank, x)];
    if fa[y] != y {
      CompressionKeepsRoot(fa, rank, x, fa[y]);
    }
    if y == x {
      assert Root(fa', rank, fa'[y]) == fa'[y];
    }
  }

  /** The rank after hanging root rx below root ry: everything under rx moves above ry. */
  ghost function LiftedRank(fa: seq<nat>, rank: seq<nat>, rx: nat, ry: nat): (rank': seq<nat>)
    requires Ranked(fa, rank) && rx < |fa| && ry < |fa|
  {
    seq(|fa|, y requires 0 <= y < |fa| =>
      if Root(fa, rank, y) == rx then rank[y] + rank[ry] + 1 else rank[y])
  }

  lemma {:induction false} LinkMergesClasses(fa: seq<nat>, rank: seq<nat>, rx: nat, ry: nat, y: nat)
    requires Ranked(fa, rank) && rx < |fa| && ry < |fa| && y < |fa|
    requires fa[rx] == rx && fa[ry] == ry && rx != ry
    ensures Ranked(fa[rx := ry], LiftedRank(fa, rank, rx, ry))
    ensures Root(fa[rx := ry], LiftedRank(fa, rank, rx, ry), y)
            == if Root(fa, rank, y) == rx then ry else Root(fa, rank, y)
    decreases rank[y]
  {
    var fa' := fa[rx := ry];
    var rank' := LiftedRank(fa, rank, rx, ry);
    if y == rx {
      assert Root(fa', rank', ry) == ry;
    } else if fa[y] != y {
      LinkMergesClasses(fa, rank, rx, ry, fa[y]);
    }
  }

  class DisjointSets {
    const fa: array<nat>
    // how many elements the current request initialised, and a witness that they form a forest
    ghost var size: nat
    ghost var rank: seq<nat>

    ghost predicate Valid()
      reads this, fa
    {
      size <= fa.Length && Ranked(fa[..size], rank)
    }

    /** The representative of every initialised element. */
    ghost function Reps(): (rs: seq<nat>)
      requires Valid()
      reads this, fa
      ensures |rs| == size
    {
      Roots(fa[..size], rank)
    }

    constructor (capacity: nat)
      ensures Valid() && fresh(fa) && fa.Length == capacity && size == 0
    {
      fa := new nat[capacity];
      size, rank := 0, [];
    }

    /** Makes 0, ..., n singletons; the loop writes index n too, so the capacity must exceed n. */
    method Init(n: nat)
      requires n < fa.Length
      modifies this, fa
      ensures Valid() && size == n + 1
      ensures forall x :: 0 <= x <= n ==> Reps()[x] == x
      ensures fa[n + 1..] == old(fa[n + 1..])
    {
      for i := 0 to n + 1
        invariant forall x :: 0 <= x < i ==> fa[x] == x
        invariant forall x :: i <= x < fa.Length ==> fa[x] == old(fa[x])
      {
        fa[i] := i;
      }
      size, rank := n + 1, seq(n + 1, x => 0);
    }

    /** Returns the representative and points everything on the way at it; no representative changes. */
    method Find(x: nat) returns (r: nat)
      requires Valid() && x < size
      modifies fa
      ensures Valid() && Reps() == old(Reps())
      ensures r == Reps()[x]
      ensures forall y :: 0 <= y < size ==>
        fa[y] == if old(OnPath(fa[..size], rank, x, y)) then r else old(fa[y])
      ensures fa[size..] == old(fa[size..])
      decreases rank[x]
    {
      if x != fa[x] {
        var p := Find(fa[x]);
        ghost var mid := fa[..size];
        ghost var was := old(fa[..size]);
        assert !OnPath(was, rank, was[x], x) by {
          if OnPath(was, rank, was[x], x) {
            PathDescends(was, rank, was[x], x);
          }
        }
        assert p == Root(mid, rank, x) by {
          assert p == Roots(was, rank)[was[x]];
          assert Roots(mid, rank)[x] == Roots(was, rank)[x];
        }
        forall y | 0 <= y < size
          ensures Ranked(mid[x := p], rank) && Root(mid[x := p], rank, y) == Roots(was, rank)[y]
        {
          CompressionKeepsRoot(mid, rank, x, y);
          assert Roots(mid, rank)[y] == Roots(was, rank)[y];
        }
        fa[x] := p;
        assert fa[..size] == mid[x := p];
        assert Reps() == Roots(was, rank);
      }
      r := fa[x];
    }

    /** Merges the classes of x and y under y's representative and touches no other class. */
    method Join(x: nat, y: nat)
      requires Valid() && x < size && y < size
      modifies fa, `rank
      ensures Valid()
      ensures forall z :: 0 <= z < size ==>
        Reps()[z] == if old(Reps()[z] == Reps()[x]) then old(Reps()[y]) else old(Reps()[z])
      ensures fa[size..] == old(fa[size..])
    {
      var rx: nat := Find(x);
      var ry: nat := Find(y);
      if rx != ry {
        ghost var mid := fa[..size];
        forall z | 0 <= z < size
          ensures Ranked(mid[rx := ry], LiftedRank(mid, rank, rx, ry))
          ensures Root(mid[rx := ry], LiftedRank(mid, rank, rx, ry), z)
                  == if Root(mid, rank, z) == rx then ry else Root(mid, rank, z)
        {
          LinkMergesClasses(mid, rank, rx, ry, z);
        }
        fa[rx] := ry;
        rank := LiftedRank(mid, rank, rx, ry);
        assert fa[..size] == mid[rx := ry];
      }
    }
  }
}
