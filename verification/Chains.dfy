/** Reachability through chains of undirected edges. */
module Chains {

  type Edges = set<(nat, nat)>

  ghost predicate Adjacent(e: Edges, a: nat, b: nat) {
    (a, b) in e || (b, a) in e
  }

  /** `p` is a walk from a to b whose neighbours are adjacent. */
  ghost predicate IsChain(e: Edges, p: seq<nat>, a: nat, b: nat) {
    && |p| > 0 && p[0] == a && p[|p| - 1] == b
    && forall k :: 0 <= k < |p| - 1 ==> Adjacent(e, p[k], p[k + 1])
  }

  ghost predicate Connected(e: Edges, a: nat, b: nat) {
    exists p :: IsChain(e, p, a, b)
  }

  lemma {:induction false} Reflexive(e: Edges, a: nat)
    ensures Connected(e, a, a)
  {
    assert IsChain(e, [a], a, a);
  }

  lemma {:induction false} OneEdge(e: Edges, a: nat, b: nat)
    requires Adjacent(e, a, b)
    ensures Connected(e, a, b)
  {
    assert IsChain(e, [a, b], a, b);
  }

  lemma {:induction false} Transitive(e: Edges, a: nat, b: nat, c: nat)
    requires Connected(e, a, b) && Connected(e, b, c)
    ensures Connected(e, a, c)
  {
    var p :| IsChain(e, p, a, b);
    var q :| IsChain(e, q, b, c);
    var r := p + q[1..];
    forall k | 0 <= k < |r| - 1
      ensures Adjacent(e, r[k], r[k + 1])
    {
      if k >= |p| - 1 {
        assert r[k] == q[k - (|p| - 1)];
        assert r[k + 1] == q[k - (|p| - 1) + 1];
      }
    }
    assert IsChain(e, r, a, c);
  }

  lemma {:induction false} Symmetric(e: Edges, a: nat, b: nat)
    requires Connected(e, a, b)
    ensures Connected(e, b, a)
  {
    var p :| IsChain(e, p, a, b);
    var r := seq(|p|, k requires 0 <= k < |p| => p[|p| - 1 - k]);
    forall k | 0 <= k < |r| - 1
      ensures Adjacent(e, r[k], r[k + 1])
    {
      assert Adjacent(e, p[|p| - 2 - k], p[|p| - 2 - k + 1]);
    }
    assert IsChain(e, r, b, a);
  }

  lemma {:induction false} Monotone(e: Edges, f: Edges, a: nat, b: nat)
    requires e <= f && Connected(e, a, b)
    ensures Connected(f, a, b)
  {
    var p :| IsChain(e, p, a, b);
    assert IsChain(f, p, a, b);
  }

  /** A tagging that every edge respects is constant along chains. */
  lemma {:induction false} LabelConstant(e: Edges, tag: seq<nat>, p: seq<nat>, a: nat, b: nat)
    requires IsChain(e, p, a, b)
    requires a < |tag|
    requires forall x, y :: (x, y) in e ==> x < |tag| && y < |tag| && tag[x] == tag[y]
    ensures b < |tag| && tag[a] == tag[b]
    decreases |p|
  {
    if |p| > 1 {
      assert Adjacent(e, p[0], p[1]);
      assert IsChain(e, p[1..], p[1], b) by {
        forall k | 0 <= k < |p[1..]| - 1
          ensures Adjacent(e, p[1..][k], p[1..][k + 1])
        {
          assert Adjacent(e, p[k + 1], p[k + 2]);
        }
      }
      LabelConstant(e, tag, p[1..], p[1], b);
    }
  }

  /** The tagging names exactly the connected components of the graph on 0..|tag|. */
  ghost predicate NamesComponents(tag: seq<nat>, e: Edges) {
    forall a, b :: 0 <= a < |tag| && 0 <= b < |tag| ==> (tag[a] == tag[b] <==> Connected(e, a, b))
  }

  lemma {:induction false} DiscreteNamesComponents(tag: seq<nat>)
    requires forall a, b :: 0 <= a < b < |tag| ==> tag[a] != tag[b]
    ensures NamesComponents(tag, {})
  {
    forall a, b | 0 <= a < |tag| && 0 <= b < |tag|
      ensures tag[a] == tag[b] <==> Connected({}, a, b)
    {
      if a == b {
        Reflexive({}, a);
      } else if Connected({}, a, b) {
        var p :| IsChain({}, p, a, b);
        LabelConstant({}, tag, p, a, b);
      }
    }
  }

  /** Giving all of i's class the tag of j is the same as adding the edge (i, j). */
  lemma {:induction false} MergeAddsEdge(tag: seq<nat>, tag': seq<nat>, e: Edges, i: nat, j: nat)
    requires NamesComponents(tag, e)
    requires forall x, y :: (x, y) in e ==> x < |tag| && y < |tag|
    requires i < |tag| && j < |tag| && |tag'| == |tag|
    requires forall y :: 0 <= y < |tag| ==> tag'[y] == if tag[y] == tag[i] then tag[j] else tag[y]
    ensures NamesComponents(tag', e + {(i, j)})
  {
    var f := e + {(i, j)};
    forall x, y | (x, y) in f
      ensures x < |tag'| && y < |tag'| && tag'[x] == tag'[y]
    {
      if (x, y) in e {
        OneEdge(e, x, y);
      }
    }
    forall a, b | 0 <= a < |tag'| && 0 <= b < |tag'|
      ensures tag'[a] == tag'[b] <==> Connected(f, a, b)
    {
      if Connected(f, a, b) {
        var p :| IsChain(f, p, a, b);
        LabelConstant(f, tag', p, a, b);
      }
      if tag'[a] == tag'[b] {
        ConnectedAfterMerge(tag, e, i, j, a, b);
      }
    }
  }

  lemma {:induction false} ConnectedAfterMerge(tag: seq<nat>, e: Edges, i: nat, j: nat, a: nat, b: nat)
    requires NamesComponents(tag, e)
    requires i < |tag| && j < |tag| && a < |tag| && b < |tag|
    requires (if tag[a] == tag[i] then tag[j] else tag[a]) == (if tag[b] == tag[i] then tag[j] else tag[b])
    ensures Connected(e + {(i, j)}, a, b)
  {
    var f := e + {(i, j)};
    OneEdge(f, i, j);
    Symmetric(f, i, j);
    if tag[a] == tag[b] {
      Monotone(e, f, a, b);
    } else if tag[a] == tag[i] {
      Monotone(e, f, a, i);
      Monotone(e, f, j, b);
      Transitive(f, a, i, j);
      Transitive(f, a, j, b);
    } else {
      Monotone(e, f, a, j);
      Monotone(e, f, i, b);
      Transitive(f, a, j, i);
      Transitive(f, a, i, b);
    }
  }

  // ---- Joining all pairs i < j of a symmetric relation, in the order of a double loop ----

  ghost predicate SymmetricBelow(e: Edges, n: nat) {
    forall a, b :: (a, b) in e ==> a < n && b < n && (b, a) in e
  }

  /** The pairs of `e` the loop i < j has met before it looks at (i, j). */
  ghost function Before(e: Edges, i: nat, j: nat): Edges {
    set p <- e | p.0 < p.1 && (p.0 < i || (p.0 == i && p.1 < j))
  }

  lemma {:induction false} BeforeStep(e: Edges, i: nat, j: nat)
    requires i < j
    ensures Before(e, i, j + 1) == if (i, j) in e then Before(e, i, j) + {(i, j)} else Before(e, i, j)
  {
  }

  lemma {:induction false} BeforeRow(e: Edges, i: nat, n: nat)
    requires SymmetricBelow(e, n)
    ensures Before(e, i, i + 1) == Before(e, i, 0)
    ensures Before(e, i, n) == Before(e, i + 1, 0)
  {
    assert forall p :: p in e ==> (p.0, p.1) in e;
  }

  /** Looking at each unordered pair once connects what the whole relation connects. */
  lemma {:induction false} BeforeAllConnects(e: Edges, n: nat, a: nat, b: nat)
    requires SymmetricBelow(e, n)
    ensures Connected(Before(e, n, 0), a, b) <==> Connected(e, a, b)
  {
    var half := Before(e, n, 0);
    if Connected(half, a, b) {
      Monotone(half, e, a, b);
    }
    if Connected(e, a, b) {
      var p :| IsChain(e, p, a, b);
      HalfFollows(e, n, p, a, b);
    }
  }

  lemma {:induction false} HalfFollows(e: Edges, n: nat, p: seq<nat>, a: nat, b: nat)
    requires SymmetricBelow(e, n) && IsChain(e, p, a, b)
    ensures Connected(Before(e, n, 0), a, b)
    decreases |p|
  {
    if |p| == 1 {
      Reflexive(Before(e, n, 0), a);
    } else {
      var init := p[..|p| - 1];
      var c := init[|init| - 1];
      assert Adjacent(e, p[|p| - 2], p[|p| - 2 + 1]);
      assert IsChain(e, init, a, c);
      HalfFollows(e, n, init, a, c);
      if c == b {
        Reflexive(Before(e, n, 0), b);
      } else {
        assert (c, b) in e && (b, c) in e;
        OneEdge(Before(e, n, 0), c, b);
      }
      Transitive(Before(e, n, 0), a, c, b);
    }
  }
}
