/** The benchmark client's ring of the latest measurements with a running sum, in exact arithmetic. */
module SlidingWindow {
  import opened RoundRobin

  function Sum(s: seq<real>): real {
    if s == [] then 0.0 else Sum(s[..|s| - 1]) + s[|s| - 1]
  }

  /** The last n values of a history, or all of it when it is shorter. */
  function Last(s: seq<real>, n: nat): (r: seq<real>)
    ensures |r| == if |s| < n then |s| else n
  {
    if |s| < n then s else s[|s| - n..]
  }

  lemma {:induction false} SumDropFirst(s: seq<real>)
    requires s != []
    ensures Sum(s) == s[0] + Sum(s[1..])
  {
    if |s| > 1 {
      SumDropFirst(s[..|s| - 1]);
      assert s[..|s| - 1][1..] == s[1..][..|s| - 2];
    }
  }

  lemma {:induction false} SumAppend(s: seq<real>, x: real)
    ensures Sum(s + [x]) == Sum(s) + x
  {
    assert (s + [x])[..|s|] == s;
  }

  /** No values sum to zero, and each further value adds itself. */
  lemma {:induction false} SumAddsUp(s: seq<real>, x: real)
    ensures Sum([]) == 0.0 && Sum([x]) == x && Sum(s + [x]) == Sum(s) + x
  {
    SumAppend([], x);
    SumAppend(s, x);
    assert [] + [x] == [x];
  }

  /** Sliding the window by one value adds it and takes away the one that falls out. */
  lemma {:induction false} SlideSum(history: seq<real>, n: nat, x: real)
    requires n > 0
    ensures Sum(Last(history + [x], n)) == Sum(Last(history, n)) - FallsOut(history, n) + x
  {
    if |history| < n {
      SumAppend(history, x);
      assert Last(history + [x], n) == history + [x];
    } else {
      LastOfLonger(history, n, x);
      var before := history[|history| - n..];
      SumDropFirst(before);
      SumAppend(before[1..], x);
    }
  }

  lemma {:induction false} LastOfLonger(history: seq<real>, n: nat, x: real)
    requires 0 < n <= |history|
    ensures Last(history + [x], n) == history[|history| - n..][1..] + [x]
  {
  }

  /** The value the next one replaces. */
  function FallsOut(history: seq<real>, n: nat): real
    requires n > 0
  {
    if |history| < n then 0.0 else history[|history| - n]
  }

  /** The i-th value ever enqueued is where the ring keeps it. */
  ghost predicate InPlace(ring: seq<real>, history: seq<real>, i: nat)
    requires |ring| > 0 && i < |history|
  {
    ring[Cycle(i, |ring|)] == history[i]
  }

  /** The ring holds the latest values at their positions, and zero where nothing was written yet. */
  ghost predicate Holds(ring: seq<real>, history: seq<real>)
    requires |ring| > 0
  {
    && (forall i :: 0 <= i < |history| && |history| <= i + |ring| ==> InPlace(ring, history, i))
    && (forall p :: |history| <= p < |ring| ==> ring[p] == 0.0)
  }

  /** Overwriting the next position replaces the value that falls out of the window and no other. */
  lemma {:induction false} HoldsStep(ring: seq<real>, history: seq<real>, x: real)
    requires |ring| > 0 && Holds(ring, history)
    ensures ring[Cycle(|history|, |ring|)] == FallsOut(history, |ring|)
    ensures Holds(ring[Cycle(|history|, |ring|) := x], history + [x])
  {
    var n, size := |history|, |ring|;
    if n >= size {
      assert InPlace(ring, history, n - size);
    }
    var ring', longer := ring[Cycle(n, size) := x], history + [x];
    forall i | 0 <= i < n + 1 && n + 1 <= i + size
      ensures InPlace(ring', longer, i)
    {
      if i < n {
        assert InPlace(ring, history, i);
        WindowIsInjective(i, n, size);
      }
    }
  }

  /** The fields of a queue of this size after a history of values. */
  ghost predicate Consistent(size: nat, curSize: nat, head: nat, sumVal: real, ring: seq<real>, history: seq<real>) {
    && |ring| == size
    && curSize == |Last(history, size)|
    && sumVal == Sum(Last(history, size))
    && (size > 0 ==> head == Cycle(|history|, size) && Holds(ring, history))
  }

  lemma {:induction false} ConsistentStep(
    size: nat, curSize: nat, head: nat, sumVal: real, ring: seq<real>, history: seq<real>, x: real,
    curSize': nat, head': nat, sumVal': real, ring': seq<real>, history': seq<real>)
    requires size > 0 && Consistent(size, curSize, head, sumVal, ring, history)
    requires head < size && ring' == ring[head := x] && history' == history + [x]
    requires curSize' == (if curSize + 1 <= size then curSize + 1 else curSize) && head' == Cycle(|history| + 1, size)
    requires sumVal' == sumVal - ring[head] + x
    ensures Consistent(size, curSize', head', sumVal', ring', history')
  {
    assert Holds(ring', history') by {
      HoldsStep(ring, history, x);
    }
    assert sumVal' == Sum(Last(history', size)) by {
      HoldsStep(ring, history, x);
      SlideSum(history, size, x);
    }
  }

  class Queue {
    const elements: array<real>
    var curSize: nat
    const maxSize: nat
    var head: nat
    var sumVal: real
    // every value enqueued so far
    ghost var history: seq<real>

    ghost predicate Valid()
      reads this, elements
    {
      elements.Length == maxSize && Consistent(maxSize, curSize, head, sumVal, elements[..], history)
    }

    constructor (maxSize: nat)
      ensures Valid() && this.maxSize == maxSize && history == [] && fresh(elements)
      ensures curSize == 0 && head == 0 && sumVal == 0.0 && forall p :: 0 <= p < maxSize ==> elements[p] == 0.0
    {
      this.maxSize := maxSize;
      elements := new real[maxSize](_ => 0.0);
      curSize, head, sumVal, history := 0, 0, 0.0, [];
    }

    /** Replaces the oldest value of a full ring; the sum stays that of the last values. */
    method EnQueue(element: real)
      requires Valid() && maxSize > 0
      modifies this, elements
      ensures Valid() && history == old(history) + [element]
    {
      ghost var ring, cur, at, sum := elements[..], curSize, head, sumVal;
      sumVal := sumVal - elements[head];
      sumVal := sumVal + element;
      elements[head] := element;
      head := Advance(head, maxSize, |history|);
      if curSize + 1 <= maxSize {
        curSize := curSize + 1;
      }
      history := history + [element];
      assert elements[..] == ring[at := element];
      ConsistentStep(maxSize, cur, at, sum, ring, old(history), element, curSize, head, sumVal, elements[..], history);
    }
  }

  /** What the fields say: the sum and the number of the latest values, at most maxSize of them. */
  lemma {:induction false} FieldsDescribeWindow(size: nat, curSize: nat, head: nat, sumVal: real, ring: seq<real>,
                                                history: seq<real>)
    requires size > 0 && Consistent(size, curSize, head, sumVal, ring, history)
    ensures curSize == if |history| < size then |history| else size
    ensures sumVal == Sum(history[|history| - curSize..])
    ensures forall i :: |history| - curSize <= i < |history| ==> ring[Cycle(i, size)] == history[i]
    ensures Cycle(|history|, size) == head && (curSize < size ==> forall p :: curSize <= p < size ==> ring[p] == 0.0)
  {
    assert |history| < size ==> history[|history| - curSize..] == history;
    forall i | |history| - curSize <= i < |history|
      ensures ring[Cycle(i, size)] == history[i]
    {
      assert InPlace(ring, history, i);
    }
  }
}
