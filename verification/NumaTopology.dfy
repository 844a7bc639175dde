/** From the CPU-to-node table of the machine to the cpuset texts the agent splits again. */
module NumaTopology {
  import opened Sequences
  import opened Text

  /** One node of the NumaInfoResponse message. */
  datatype NumaNode = NumaNode(numaNumber: int, memset: string, cpuset: string)

  /** struct numa_node: only the first cpuQuantity slots of the allocated block are meaningful. */
  datatype CNumaNode = CNumaNode(cpuQuantity: nat, cpuset: array<nat>, memset: nat)

  // ints allocated for each node's cpuset
  const CPUSET_CAPACITY := 64

  function Decimals(cpus: seq<nat>): (r: seq<string>)
    ensures |r| == |cpus| && forall i :: 0 <= i < |cpus| ==> r[i] == Itoa(cpus[i])
  {
    seq(|cpus|, i requires 0 <= i < |cpus| => Itoa(cpus[i]))
  }

  /** The node message for node i of a machine whose cpu c sits on node nodeOf[c]. */
  function NodeMessage(nodeOf: seq<int>, i: nat): NumaNode {
    NumaNode(i, Itoa(i), Join(Decimals(IndicesOf(nodeOf, i)), ','))
  }

  function NodeMessages(nodeOf: seq<int>, maxNode: nat): seq<NumaNode> {
    seq(maxNode + 1, i requires 0 <= i <= maxNode => NodeMessage(nodeOf, i))
  }

  /** Splits the machine's CPUs over its nodes; a node may have at most as many as were allocated. */
  method GetNumaInfo(nodeOf: seq<int>, maxNode: nat) returns (nodes: seq<CNumaNode>)
    requires forall i :: 0 <= i <= maxNode ==> |IndicesOf(nodeOf, i)| <= CPUSET_CAPACITY
    ensures |nodes| == maxNode + 1
    ensures forall i :: 0 <= i <= maxNode ==>
      && nodes[i].memset == i
      && fresh(nodes[i].cpuset)
      && nodes[i].cpuQuantity <= nodes[i].cpuset.Length == CPUSET_CAPACITY
      && nodes[i].cpuset[..nodes[i].cpuQuantity] == IndicesOf(nodeOf, i)
  {
    nodes := [];
    for node := 0 to maxNode + 1
      invariant |nodes| == node
      invariant forall i :: 0 <= i < node ==>
        && nodes[i].memset == i
        && fresh(nodes[i].cpuset)
        && nodes[i].cpuQuantity <= nodes[i].cpuset.Length == CPUSET_CAPACITY
        && nodes[i].cpuset[..nodes[i].cpuQuantity] == IndicesOf(nodeOf, i)
    {
      var n := CpusOfNode(nodeOf, node);
      nodes := nodes + [n];
    }
  }

  method CpusOfNode(nodeOf: seq<int>, node: nat) returns (n: CNumaNode)
    requires |IndicesOf(nodeOf, node)| <= CPUSET_CAPACITY
    ensures n.memset == node && fresh(n.cpuset)
    ensures n.cpuQuantity <= n.cpuset.Length == CPUSET_CAPACITY
    ensures n.cpuset[..n.cpuQuantity] == IndicesOf(nodeOf, node)
  {
    var cpuset := new nat[CPUSET_CAPACITY];
    var quantity := 0;
    for cpu := 0 to |nodeOf|
      invariant quantity <= CPUSET_CAPACITY
      invariant cpuset[..quantity] == IndicesOf(nodeOf[..cpu], node)
    {
      assert nodeOf[..cpu + 1][..cpu] == nodeOf[..cpu];
      IndicesOfPrefix(nodeOf, node, cpu + 1);
      if nodeOf[cpu] == node {
        cpuset[quantity] := cpu;
        quantity := quantity + 1;
      }
    }
    assert nodeOf[..|nodeOf|] == nodeOf;
    n := CNumaNode(quantity, cpuset, node);
  }

  lemma {:induction false} IndicesOfPrefix<T>(s: seq<T>, v: T, n: nat)
    requires n <= |s|
    ensures |IndicesOf(s[..n], v)| <= |IndicesOf(s, v)|
  {
    if n == |s| {
      assert s[..n] == s;
    } else {
      assert s[..|s| - 1][..n] == s[..n];
      IndicesOfPrefix(s[..|s| - 1], v, n);
    }
  }

  /** The numbers in order, separated by commas and without superfluous characters; no number is no text. */
  ghost predicate Lists(text: string, numbers: seq<nat>) {
    if numbers == [] then text == ""
    else
      && |Split(text, ',')| == |numbers|
      && forall k :: 0 <= k < |numbers| ==>
           Canonical(Split(text, ',')[k]) && IntegerOf(Split(text, ',')[k]) == Some(numbers[k])
  }

  /** What the response says of node i: its number, the number as a text, and exactly its CPUs. */
  ghost predicate Describes(m: NumaNode, nodeOf: seq<int>, i: nat) {
    && m.numaNumber == i
    && Canonical(m.memset) && IntegerOf(m.memset) == Some(i)
    && Lists(m.cpuset, IndicesOf(nodeOf, i))
  }

  lemma {:induction false} DecimalsSplit(cpus: seq<nat>)
    ensures Split(Join(Decimals(cpus), ','), ',') == if cpus == [] then [""] else Decimals(cpus)
  {
    var names := Decimals(cpus);
    forall p | p in names
      ensures ',' !in p
    {
      var k :| 0 <= k < |names| && p == names[k];
      ItoaCharacters(cpus[k]);
    }
    SplitJoin(names, ',');
  }

  lemma {:induction false} DecimalsAreListed(cpus: seq<nat>)
    ensures Lists(Join(Decimals(cpus), ','), cpus)
  {
    DecimalsSplit(cpus);
    forall k | 0 <= k < |cpus|
      ensures Canonical(Decimals(cpus)[k]) && IntegerOf(Decimals(cpus)[k]) == Some(cpus[k])
    {
      ItoaIsCanonical(cpus[k]);
    }
  }

  lemma {:induction false} MessageDescribesNode(nodeOf: seq<int>, i: nat)
    ensures Describes(NodeMessage(nodeOf, i), nodeOf, i)
  {
    ItoaIsCanonical(i);
    DecimalsAreListed(IndicesOf(nodeOf, i));
  }

  /** The instance of CPUs 9 and 10. */
  lemma {:induction false} TextOfTwoCpus()
    ensures Join(Decimals([9, 10]), ',') == "9,10"
  {
    assert Digits(9) == "9" && Digits(1) == "1" && Digits(10) == "10";
    var names := Decimals([9, 10]);
    assert names == ["9", "10"] && names[1..] == ["10"];
  }

  method ConvertCpuSet(cpus: seq<nat>) returns (r: string)
    ensures r == Join(Decimals(cpus), ',')
    ensures Lists(r, cpus)
  {
    var strArray := new string[|cpus|];
    for i := 0 to |cpus|
      invariant forall k :: 0 <= k < i ==> strArray[k] == Itoa(cpus[k])
    {
      strArray[i] := Itoa(cpus[i]);
    }
    assert strArray[..] == Decimals(cpus);
    r := Join(strArray[..], ',');
    assert Lists(r, cpus) by {
      DecimalsAreListed(cpus);
    }
  }

  method CopyOf(cpuset: array<nat>, quantity: nat) returns (cpus: seq<nat>)
    requires quantity <= cpuset.Length
    ensures cpus == cpuset[..quantity]
  {
    cpus := [];
    for c := 0 to quantity
      invariant cpus == cpuset[..c]
    {
      cpus := cpus + [cpuset[c]];
    }
  }

  /** The server's copy of the C structures into the response. */
  method NumaNodeResponse(nodes: seq<CNumaNode>, ghost nodeOf: seq<int>) returns (r: seq<NumaNode>)
    requires |nodes| > 0
    requires forall i :: 0 <= i < |nodes| ==>
      && nodes[i].memset == i && nodes[i].cpuQuantity <= nodes[i].cpuset.Length
      && nodes[i].cpuset[..nodes[i].cpuQuantity] == IndicesOf(nodeOf, i)
    ensures r == NodeMessages(nodeOf, |nodes| - 1)
  {
    r := [];
    for i := 0 to |nodes|
      invariant |r| == i
      invariant forall k :: 0 <= k < i ==> r[k] == NodeMessage(nodeOf, k)
    {
      var cpus := CopyOf(nodes[i].cpuset, nodes[i].cpuQuantity);
      var text := ConvertCpuSet(cpus);
      r := r + [NumaNode(i, Itoa(nodes[i].memset), text)];
    }
  }

  // ---- What the agent reads back ----

  function CpuNames(node: NumaNode): seq<string> {
    Split(node.cpuset, ',')
  }

  function NameLists(nodes: seq<NumaNode>): (r: seq<seq<string>>)
    ensures |r| == |nodes| && forall i :: 0 <= i < |nodes| ==> r[i] == CpuNames(nodes[i])
  {
    seq(|nodes|, i requires 0 <= i < |nodes| => CpuNames(nodes[i]))
  }

  /** The agent's flat CPU list: all nodes' names in node order. */
  function AllCpus(nodes: seq<NumaNode>): seq<string> {
    Concat(NameLists(nodes))
  }

  /** Names as they come from splitting a cpuset, none of them empty. */
  ghost predicate RealNames(cpus: seq<string>) {
    |cpus| > 0 && AllReal(cpus)
  }

  predicate RealName(x: string) {
    x != "" && ',' !in x
  }

  ghost predicate AllReal(cpus: seq<string>) {
    cpus == [] || (AllReal(cpus[..|cpus| - 1]) && RealName(cpus[|cpus| - 1]))
  }

  lemma {:induction false} RealNamesCharacter(cpus: seq<string>)
    ensures AllReal(cpus) <==> forall x :: x in cpus ==> RealName(x)
  {
    if cpus != [] {
      var init, last := cpus[..|cpus| - 1], cpus[|cpus| - 1];
      RealNamesCharacter(init);
      assert cpus == init + [last];
      assert last in cpus;
      forall x | x in init
        ensures x in cpus
      {
      }
    }
  }

  lemma {:induction false} AllRealSubset(names: seq<string>, cpus: seq<string>)
    requires AllReal(cpus) && forall x :: x in names ==> x in cpus
    ensures AllReal(names)
  {
    RealNamesCharacter(cpus);
    RealNamesCharacter(names);
  }

  lemma {:induction false} RealAvoidsComma(names: seq<string>)
    requires AllReal(names)
    ensures AllAvoid(names, ',') && names != [""]
  {
    RealNamesCharacter(names);
    if names != [] {
      assert names[0] in names;
    }
  }

  /** Every CPU is listed under its own node and no other, each list ascending. */
  lemma {:induction false} NodesSplitTheCpus(nodeOf: seq<int>, i: nat, j: nat)
    ensures forall c :: c in IndicesOf(nodeOf, i) <==> 0 <= c < |nodeOf| && nodeOf[c] == i
    ensures Ascending(IndicesOf(nodeOf, i))
    ensures i != j ==> forall c :: c in IndicesOf(nodeOf, i) ==> c !in IndicesOf(nodeOf, j)
  {
    IndicesOfCharacter(nodeOf, i);
    IndicesOfCharacter(nodeOf, j);
  }

  /** The agent gets back the decimal names of the node's CPUs; only an empty node reads as one empty name. */
  lemma {:induction false} CpuNamesOfMessage(nodeOf: seq<int>, i: nat)
    ensures CpuNames(NodeMessage(nodeOf, i))
            == if IndicesOf(nodeOf, i) == [] then [""] else Decimals(IndicesOf(nodeOf, i))
  {
    DecimalsSplit(IndicesOf(nodeOf, i));
  }

  lemma {:induction false} CpuNamesDistinct(nodeOf: seq<int>, i: nat)
    ensures Distinct(CpuNames(NodeMessage(nodeOf, i)))
  {
    CpuNamesOfMessage(nodeOf, i);
    var cpus := IndicesOf(nodeOf, i);
    NodesSplitTheCpus(nodeOf, i, i);
    forall k, l | 0 <= k < l < |cpus|
      ensures Decimals(cpus)[k] != Decimals(cpus)[l]
    {
      if Itoa(cpus[k]) == Itoa(cpus[l]) {
        ItoaInjective(cpus[k], cpus[l]);
      }
    }
  }

  ghost predicate Empty(nodeOf: seq<int>, i: nat) {
    IndicesOf(nodeOf, i) == []
  }

  lemma {:induction false} CpuNamesContain(nodeOf: seq<int>, i: nat, x: string)
    ensures x in CpuNames(NodeMessage(nodeOf, i))
            <==> if Empty(nodeOf, i) then x == "" else exists c :: 0 <= c < |nodeOf| && nodeOf[c] == i && x == Itoa(c)
  {
    var cpus := IndicesOf(nodeOf, i);
    CpuNamesOfMessage(nodeOf, i);
    NodesSplitTheCpus(nodeOf, i, i);
    assert forall k :: 0 <= k < |cpus| ==> cpus[k] in cpus;
    if c :| 0 <= c < |nodeOf| && nodeOf[c] == i && x == Itoa(c) {
      assert c in cpus;
      var k :| 0 <= k < |cpus| && cpus[k] == c;
      assert Decimals(cpus)[k] == x;
    }
  }

  /** A node's names as the agent reads them are real and distinct exactly when the node has a CPU. */
  lemma {:induction false} NodesWithCpusHaveRealNames(nodeOf: seq<int>, i: nat)
    ensures RealNames(CpuNames(NodeMessage(nodeOf, i))) <==> !Empty(nodeOf, i)
    ensures Distinct(CpuNames(NodeMessage(nodeOf, i)))
  {
    var names := CpuNames(NodeMessage(nodeOf, i));
    CpuNamesDistinct(nodeOf, i);
    CpuNamesOfMessage(nodeOf, i);
    RealNamesCharacter(names);
    if Empty(nodeOf, i) {
      assert "" in names;
    } else {
      forall x | x in names
        ensures RealName(x)
      {
        CpuNamesContain(nodeOf, i, x);
        var c :| 0 <= c < |nodeOf| && nodeOf[c] == i && x == Itoa(c);
        ItoaCharacters(c);
      }
    }
  }

  /** Two nodes' name lists share a name exactly when both nodes are empty. */
  lemma {:induction false} CpuNamesOverlap(nodeOf: seq<int>, i: nat, j: nat)
    requires i != j
    ensures Overlap(CpuNames(NodeMessage(nodeOf, i)), CpuNames(NodeMessage(nodeOf, j)))
            <==> Empty(nodeOf, i) && Empty(nodeOf, j)
  {
    CpuNamesContain(nodeOf, i, "");
    CpuNamesContain(nodeOf, j, "");
    if x :| x in CpuNames(NodeMessage(nodeOf, i)) && x in CpuNames(NodeMessage(nodeOf, j)) {
      CpuNamesContain(nodeOf, i, x);
      CpuNamesContain(nodeOf, j, x);
      forall c | 0 <= c < |nodeOf|
        ensures Itoa(c) != ""
      {
        ItoaCharacters(c);
      }
      if x != "" {
        var c :| 0 <= c < |nodeOf| && nodeOf[c] == i && x == Itoa(c);
        var d :| 0 <= d < |nodeOf| && nodeOf[d] == j && x == Itoa(d);
        ItoaInjective(c, d);
      }
    }
  }

  /** The flat list repeats no name exactly when at most one node has no CPU. */
  lemma {:induction false} AllCpusDistinctExactly(nodeOf: seq<int>, maxNode: nat)
    ensures Distinct(AllCpus(NodeMessages(nodeOf, maxNode)))
            <==> forall i, j :: 0 <= i < j <= maxNode ==> !(Empty(nodeOf, i) && Empty(nodeOf, j))
  {
    var parts := NameLists(NodeMessages(nodeOf, maxNode));
    DistinctConcat(parts);
    forall i | 0 <= i < |parts|
      ensures Distinct(parts[i])
    {
      CpuNamesDistinct(nodeOf, i);
    }
    NameListsOverlap(nodeOf, maxNode);
  }

  /** Two nodes without CPUs: the flat list is the empty name twice. */
  lemma {:induction false} TwoEmptyNodesRepeatAName()
    ensures AllCpus(NodeMessages([], 1)) == ["", ""] && !Distinct(AllCpus(NodeMessages([], 1)))
  {
    var lists := NameLists(NodeMessages([], 1));
    CpuNamesOfMessage([], 0);
    CpuNamesOfMessage([], 1);
    assert lists[..1] == [[""]] && lists[..1][..0] == [];
    assert Concat(lists[..1]) == [""];
    assert AllCpus(NodeMessages([], 1))[0] == AllCpus(NodeMessages([], 1))[1];
  }

  lemma {:induction false} NameListsOverlap(nodeOf: seq<int>, maxNode: nat)
    ensures PairwiseDisjoint(NameLists(NodeMessages(nodeOf, maxNode)))
            <==> forall i, j :: 0 <= i < j <= maxNode ==> !(Empty(nodeOf, i) && Empty(nodeOf, j))
  {
    var parts := NameLists(NodeMessages(nodeOf, maxNode));
    var empty := seq(maxNode + 1, i requires 0 <= i <= maxNode => Empty(nodeOf, i));
    forall i, j | 0 <= i < j < |parts|
      ensures Overlap(parts[i], parts[j]) <==> empty[i] && empty[j]
    {
      CpuNamesOverlap(nodeOf, i, j);
    }
    DisjointUnlessTwoEmpty(parts, empty);
    assert forall i :: 0 <= i <= maxNode ==> empty[i] == Empty(nodeOf, i);
  }

  lemma {:induction false} DisjointUnlessTwoEmpty(parts: seq<seq<string>>, empty: seq<bool>)
    requires |empty| == |parts|
    requires forall i, j :: 0 <= i < j < |parts| ==> (Overlap(parts[i], parts[j]) <==> empty[i] && empty[j])
    ensures PairwiseDisjoint(parts) <==> forall i, j :: 0 <= i < j < |parts| ==> !(empty[i] && empty[j])
  {
  }

  /** Splitting leaves no comma in any name, whatever the nodes' texts are. */
  lemma {:induction false} AllCpusAvoidComma(nodes: seq<NumaNode>)
    ensures AllAvoid(AllCpus(nodes), ',')
  {
    forall x | x in AllCpus(nodes)
      ensures ',' !in x
    {
      ConcatContains(NameLists(nodes), x);
      var i :| 0 <= i < |nodes| && x in CpuNames(nodes[i]);
      SplitAvoids(nodes[i].cpuset, ',');
    }
  }
}
