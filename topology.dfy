/** The fixed graph of Titan's Circuit: 3 rings of 6 nodes, ring edges with
    per-ring weight tables, and 6 radial cross-links of weight 1. */
module Topology {
  import opened Constants

  /** A board node; `titan` is the only part that changes during a match. */
  datatype Node = Node(id: nat, circuitIndex: nat, nodeIndex: nat, titan: Option<Player>)

  /** An undirected weighted edge; `controlledBy` is derived from the endpoints' titans. */
  datatype Edge = Edge(id: nat, node1: nat, node2: nat, weight: nat, controlledBy: Option<Player>)

  /** Ring weight tables, indexed by the position of the edge's first node. */
  const OUTER_WEIGHTS: seq<nat> := [2, 1, 1, 3, 2, 1]
  const MIDDLE_WEIGHTS: seq<nat> := [4, 5, 6, 4, 5, 6]
  const INNER_WEIGHTS: seq<nat> := [9, 8, 8, 9, 8, 8]

  /** Positions cross-linked from the outer to the middle ring, and from the middle to the inner ring. */
  const OUTER_TO_MIDDLE: seq<nat> := [0, 2, 4]
  const MIDDLE_TO_INNER: seq<nat> := [1, 3, 5]

  /** 18 ring edges followed by 6 cross edges. */
  const CROSS_EDGE_COUNT: nat := |OUTER_TO_MIDDLE| + |MIDDLE_TO_INNER|
  const EDGE_COUNT: nat := NODE_COUNT + CROSS_EDGE_COUNT

  /** The id of the node at position `i` of circuit `c`. */
  function NodeAt(c: nat, i: nat): nat
  {
    c * NODES_PER_CIRCUIT + i
  }

  function CircuitOf(n: nat): nat
  {
    n / NODES_PER_CIRCUIT
  }

  function PositionOf(n: nat): nat
  {
    n % NODES_PER_CIRCUIT
  }

  /** The board as first built: node id = 6 * circuit + position, every node empty. */
  function InitialNodes(): (ns: seq<Node>)
    ensures |ns| == NODE_COUNT
  {
    seq(NODE_COUNT, k requires 0 <= k < NODE_COUNT => Node(k, CircuitOf(k), PositionOf(k), None))
  }

  /** The weight table of each ring, outermost first. */
  function RingWeight(c: nat, i: nat): nat
    requires c < CIRCUIT_COUNT && i < NODES_PER_CIRCUIT
  {
    [OUTER_WEIGHTS, MIDDLE_WEIGHTS, INNER_WEIGHTS][c][i]
  }

  /** Ring edge number `i` of circuit `c` joins positions i and i+1 (mod 6) of that circuit. */
  function RingEdge(c: nat, i: nat): Edge
    requires c < CIRCUIT_COUNT && i < NODES_PER_CIRCUIT
  {
    Edge(NodeAt(c, i), NodeAt(c, i), NodeAt(c, (i + 1) % NODES_PER_CIRCUIT), RingWeight(c, i), None)
  }

  /** Cross edge number `j`: the first three go outer to middle, the last three middle to inner. */
  function CrossEdge(j: nat): Edge
    requires j < CROSS_EDGE_COUNT
  {
    if j < |OUTER_TO_MIDDLE| then
      Edge(NODE_COUNT + j, NodeAt(0, OUTER_TO_MIDDLE[j]), NodeAt(1, OUTER_TO_MIDDLE[j]), 1, None)
    else
      var p := MIDDLE_TO_INNER[j - |OUTER_TO_MIDDLE|];
      Edge(NODE_COUNT + j, NodeAt(1, p), NodeAt(2, p), 1, None)
  }

  /** Edge number `k` as first built: the ring edges first, then the cross edges. */
  function BoardEdge(k: nat): Edge
    requires k < EDGE_COUNT
  {
    if k < NODE_COUNT then RingEdge(CircuitOf(k), PositionOf(k)) else CrossEdge(k - NODE_COUNT)
  }

  /** The edges as first built, ids in creation order, none controlled. */
  function InitialEdges(): (es: seq<Edge>)
    ensures |es| == EDGE_COUNT
  {
    seq(EDGE_COUNT, k requires 0 <= k < EDGE_COUNT => BoardEdge(k))
  }

  /** Whether edge `e` joins `a` and `b`, in either order. */
  predicate Joins(e: Edge, a: nat, b: nat)
  {
    (e.node1 == a && e.node2 == b) || (e.node1 == b && e.node2 == a)
  }

  /** Some edge joins `a` and `b`. */
  predicate Adjacent(edges: seq<Edge>, a: nat, b: nat)
  {
    exists k :: 0 <= k < |edges| && Joins(edges[k], a, b)
  }

  /** Every edge endpoint names an existing node. */
  predicate EndpointsIn(edges: seq<Edge>, n: nat)
  {
    forall k :: 0 <= k < |edges| ==> edges[k].node1 < n && edges[k].node2 < n
  }

  /** Two edges that differ at most in who controls them. */
  predicate SameLink(e: Edge, f: Edge)
  {
    e.id == f.id && e.node1 == f.node1 && e.node2 == f.node2 && e.weight == f.weight
  }

  /** The part of an edge fixed at construction: id, endpoints and weight. */
  function LinkOf(e: Edge): (nat, nat, nat, nat)
  {
    (e.id, e.node1, e.node2, e.weight)
  }

  /** The fixed parts of a list of edges. */
  function Links(es: seq<Edge>): (ls: seq<(nat, nat, nat, nat)>)
    ensures |ls| == |es|
  {
    seq(|es|, k requires 0 <= k < |es| => LinkOf(es[k]))
  }

  /** Equal links mean the two lists agree edge by edge on everything but control. */
  lemma SameLinks(es: seq<Edge>, fs: seq<Edge>)
    requires Links(es) == Links(fs)
    ensures |es| == |fs| && forall k :: 0 <= k < |es| ==> SameLink(es[k], fs[k])
  {
    forall k | 0 <= k < |es| ensures SameLink(es[k], fs[k]) {
      assert Links(es)[k] == Links(fs)[k];
    }
  }

  /** `edges` is the built graph, whatever the control of each edge. */
  predicate IsBoardGraph(edges: seq<Edge>)
  {
    Links(edges) == Links(InitialEdges())
  }

  /** The part of a node fixed at construction: id, circuit and position. */
  function PlaceOf(x: Node): (nat, nat, nat)
  {
    (x.id, x.circuitIndex, x.nodeIndex)
  }

  /** The fixed parts of a list of nodes. */
  function Places(ns: seq<Node>): (ps: seq<(nat, nat, nat)>)
    ensures |ps| == |ns|
  {
    seq(|ns|, k requires 0 <= k < |ns| => PlaceOf(ns[k]))
  }

  /** `nodes` has the built layout, whatever the titans. */
  predicate IsBoardLayout(nodes: seq<Node>)
  {
    Places(nodes) == Places(InitialNodes())
  }

  /** On a board layout node `k` has id `k` and sits at position `k % 6` of circuit `k / 6`. */
  lemma LayoutFacts(ns: seq<Node>)
    requires IsBoardLayout(ns)
    ensures |ns| == NODE_COUNT
    ensures forall k :: 0 <= k < NODE_COUNT ==>
      ns[k].id == k && ns[k].circuitIndex == CircuitOf(k) && ns[k].nodeIndex == PositionOf(k)
  {
    forall k | 0 <= k < NODE_COUNT
      ensures ns[k].id == k && ns[k].circuitIndex == CircuitOf(k) && ns[k].nodeIndex == PositionOf(k)
    {
      assert Places(ns)[k] == Places(InitialNodes())[k];
    }
  }

  /** LayoutFacts for a single node. */
  lemma LayoutFactsAt(ns: seq<Node>, k: nat)
    requires IsBoardLayout(ns) && k < NODE_COUNT
    ensures |ns| == NODE_COUNT
    ensures ns[k].id == k && ns[k].circuitIndex == CircuitOf(k) && ns[k].nodeIndex == PositionOf(k)
  {
    assert Places(ns)[k] == Places(InitialNodes())[k];
  }

  /** Changing only titans keeps the layout. */
  lemma TitansKeepLayout(ns: seq<Node>, ms: seq<Node>)
    requires |ns| == |ms| && forall k :: 0 <= k < |ns| ==> PlaceOf(ms[k]) == PlaceOf(ns[k])
    ensures Places(ms) == Places(ns)
  {
  }

  // ----- ring and cross neighbours, stated independently of the edge list -----

  /** The next node clockwise on the same ring. */
  function RingNext(n: nat): nat
  {
    NodeAt(CircuitOf(n), (PositionOf(n) + 1) % NODES_PER_CIRCUIT)
  }

  /** The previous node on the same ring. */
  function RingPrev(n: nat): nat
  {
    NodeAt(CircuitOf(n), (PositionOf(n) + NODES_PER_CIRCUIT - 1) % NODES_PER_CIRCUIT)
  }

  /** The node on a neighbouring ring linked to `n`, if any. */
  function CrossPartner(n: nat): Option<nat>
  {
    var c, p := CircuitOf(n), PositionOf(n);
    if c == 0 && p % 2 == 0 then Some(NodeAt(1, p))
    else if c == 1 && p % 2 == 0 then Some(NodeAt(0, p))
    else if c == 1 then Some(NodeAt(2, p))
    else if c == 2 && p % 2 == 1 then Some(NodeAt(1, p))
    else None
  }

  /** A node id splits into its circuit and position. */
  lemma Decompose(n: nat)
    requires n < NODE_COUNT
    ensures n == NodeAt(CircuitOf(n), PositionOf(n))
    ensures CircuitOf(n) < CIRCUIT_COUNT && PositionOf(n) < NODES_PER_CIRCUIT
  {
  }

  /** Circuit and position are recovered from a node id. */
  lemma Compose(c: nat, i: nat)
    requires i < NODES_PER_CIRCUIT
    ensures CircuitOf(NodeAt(c, i)) == c && PositionOf(NodeAt(c, i)) == i
  {
  }

  lemma RingEdgeShape(k: nat)
    requires k < NODE_COUNT
    ensures var e := InitialEdges()[k];
      e.node1 == k && e.node2 == RingNext(k) && RingPrev(e.node2) == k && e.node2 < NODE_COUNT
  {
    var c, i := CircuitOf(k), PositionOf(k);
    Decompose(k);
    var i' := (i + 1) % NODES_PER_CIRCUIT;
    Compose(c, i');
    assert (i' + NODES_PER_CIRCUIT - 1) % NODES_PER_CIRCUIT == i;
  }

  lemma CrossEdgeShape(j: nat)
    requires j < CROSS_EDGE_COUNT
    ensures var e := InitialEdges()[NODE_COUNT + j];
      e.node1 < NODE_COUNT && e.node2 < NODE_COUNT &&
      CrossPartner(e.node1) == Some(e.node2) && CrossPartner(e.node2) == Some(e.node1)
  {
    var e := InitialEdges()[NODE_COUNT + j];
    assert e == CrossEdge(j);
    var p := if j < 3 then OUTER_TO_MIDDLE[j] else MIDDLE_TO_INNER[j - 3];
    var c := if j < 3 then 0 else 1;
    Compose(c, p);
    Compose(c + 1, p);
  }

  /** Every edge of the built board lies within a ring or links a node to its cross partner. */
  lemma InitialEdgeShape(k: nat)
    requires k < EDGE_COUNT
    ensures var e := InitialEdges()[k];
      e.node1 < NODE_COUNT && e.node2 < NODE_COUNT &&
      (if k < NODE_COUNT then e.node1 == k && e.node2 == RingNext(k) && RingPrev(e.node2) == k
       else CrossPartner(e.node1) == Some(e.node2) && CrossPartner(e.node2) == Some(e.node1))
  {
    if k < NODE_COUNT {
      RingEdgeShape(k);
    } else {
      CrossEdgeShape(k - NODE_COUNT);
    }
  }

  /** The edge of the built graph that joins `n` to its cross partner. */
  lemma CrossLinked(n: nat)
    requires n < NODE_COUNT && CrossPartner(n).Some?
    ensures Adjacent(InitialEdges(), n, CrossPartner(n).value)
  {
    var c, p := CircuitOf(n), PositionOf(n);
    Decompose(n);
    var j: nat := if (c == 0 || c == 1) && p % 2 == 0 then p / 2 else 3 + p / 2;
    assert j < CROSS_EDGE_COUNT;
    var e := InitialEdges()[NODE_COUNT + j];
    assert e == CrossEdge(j);
    Compose(0, p);
    Compose(1, p);
    Compose(2, p);
    assert Joins(e, n, CrossPartner(n).value);
  }

  /** Whatever edge of the built graph joins `n` and `m`, `m` is a ring neighbour or the cross partner of `n`. */
  lemma JoinedNeighbour(n: nat, m: nat, k: nat)
    requires k < EDGE_COUNT && Joins(InitialEdges()[k], n, m)
    ensures m == RingNext(n) || m == RingPrev(n) || CrossPartner(n) == Some(m)
  {
    InitialEdgeShape(k);
  }

  lemma RingNextLinked(n: nat)
    requires n < NODE_COUNT
    ensures Adjacent(InitialEdges(), n, RingNext(n))
  {
    RingEdgeShape(n);
    assert Joins(InitialEdges()[n], n, RingNext(n));
  }

  /** Stepping back along a ring and then forward returns to the start. */
  lemma RingNextOfPrev(n: nat)
    requires n < NODE_COUNT
    ensures RingPrev(n) < NODE_COUNT && RingNext(RingPrev(n)) == n
  {
    var c, i := CircuitOf(n), PositionOf(n);
    Decompose(n);
    var i' := (i + NODES_PER_CIRCUIT - 1) % NODES_PER_CIRCUIT;
    Compose(c, i');
    assert (i' + 1) % NODES_PER_CIRCUIT == i;
  }

  lemma RingPrevLinked(n: nat)
    requires n < NODE_COUNT
    ensures Adjacent(InitialEdges(), n, RingPrev(n))
  {
    var m := RingPrev(n);
    RingNextOfPrev(n);
    RingEdgeShape(m);
    assert Joins(InitialEdges()[m], n, m);
  }

  /** In the built graph, `m` is adjacent to `n` exactly when it is one of
      n's two ring neighbours or its cross partner. */
  lemma InitialAdjacency(n: nat, m: nat)
    requires n < NODE_COUNT
    ensures Adjacent(InitialEdges(), n, m) <==>
      m == RingNext(n) || m == RingPrev(n) || CrossPartner(n) == Some(m)
  {
    var es := InitialEdges();
    if Adjacent(es, n, m) {
      var k :| 0 <= k < |es| && Joins(es[k], n, m);
      JoinedNeighbour(n, m, k);
    }
    if m == RingNext(n) {
      RingNextLinked(n);
    } else if m == RingPrev(n) {
      RingPrevLinked(n);
    } else if CrossPartner(n) == Some(m) {
      CrossLinked(n);
    }
  }

  /** The built graph joins only existing nodes, gives every edge a positive weight,
      and starts with no edge controlled. */
  lemma InitialGraphFacts()
    ensures EndpointsIn(InitialEdges(), NODE_COUNT)
    ensures forall k :: 0 <= k < EDGE_COUNT ==>
      InitialEdges()[k].weight > 0 && InitialEdges()[k].controlledBy == None
  {
    forall k | 0 <= k < EDGE_COUNT
      ensures InitialEdges()[k].node1 < NODE_COUNT && InitialEdges()[k].node2 < NODE_COUNT
      ensures InitialEdges()[k].weight > 0 && InitialEdges()[k].controlledBy == None
    {
      InitialEdgeShape(k);
      if k < NODE_COUNT {
        Decompose(k);
      }
    }
  }

  /** Adjacency on any graph with the board's links is adjacency on the built board. */
  lemma BoardAdjacency(edges: seq<Edge>, n: nat, m: nat)
    requires IsBoardGraph(edges) && n < NODE_COUNT
    ensures Adjacent(edges, n, m) <==>
      m == RingNext(n) || m == RingPrev(n) || CrossPartner(n) == Some(m)
  {
    InitialAdjacency(n, m);
    var es := InitialEdges();
    SameLinks(edges, es);
    if Adjacent(edges, n, m) {
      var k :| 0 <= k < |edges| && Joins(edges[k], n, m);
      assert Joins(es[k], n, m);
    }
    if Adjacent(es, n, m) {
      var k :| 0 <= k < |es| && Joins(es[k], n, m);
      assert Joins(edges[k], n, m);
    }
  }

  /** Each node has two distinct ring neighbours on its own ring, and its
      cross partner, if it has one, is on an adjacent ring. */
  lemma NeighbourhoodShape(n: nat)
    requires n < NODE_COUNT
    ensures RingNext(n) < NODE_COUNT && RingPrev(n) < NODE_COUNT
    ensures RingNext(n) != RingPrev(n) && RingNext(n) != n && RingPrev(n) != n
    ensures CircuitOf(RingNext(n)) == CircuitOf(n) == CircuitOf(RingPrev(n))
    ensures CrossPartner(n).Some? ==>
      CrossPartner(n).value < NODE_COUNT && CircuitOf(CrossPartner(n).value) != CircuitOf(n)
  {
  }

  /** Adjacency does not depend on the order the endpoints are given in. */
  lemma AdjacentSymmetric(edges: seq<Edge>, a: nat, b: nat)
    ensures Adjacent(edges, a, b) <==> Adjacent(edges, b, a)
  {
  }

  // ----- the filter and find the source uses while building edges -----

  /** The nodes of circuit `c`, in order (`nodes.filter(n => n.circuitIndex === c)`). */
  function CircuitNodes(nodes: seq<Node>, c: nat): (r: seq<Node>)
    ensures |r| <= |nodes|
  {
    if nodes == [] then []
    else (if nodes[0].circuitIndex == c then [nodes[0]] else []) + CircuitNodes(nodes[1..], c)
  }

  /** The filter keeps exactly the nodes of circuit `c`. */
  lemma {:induction false} CircuitNodesMembers(nodes: seq<Node>, c: nat, x: Node)
    ensures x in CircuitNodes(nodes, c) <==> (x in nodes && x.circuitIndex == c)
  {
    if nodes != [] {
      CircuitNodesMembers(nodes[1..], c, x);
      assert nodes == [nodes[0]] + nodes[1..];
    }
  }

  lemma {:induction false} CircuitNodesAppend(s: seq<Node>, t: seq<Node>, c: nat)
    ensures CircuitNodes(s + t, c) == CircuitNodes(s, c) + CircuitNodes(t, c)
  {
    if s == [] {
      assert s + t == t;
    } else {
      var head := if s[0].circuitIndex == c then [s[0]] else [];
      assert (s + t)[0] == s[0];
      assert (s + t)[1..] == s[1..] + t;
      CircuitNodesAppend(s[1..], t, c);
      calc {
        CircuitNodes(s + t, c);
        head + CircuitNodes(s[1..] + t, c);
        head + (CircuitNodes(s[1..], c) + CircuitNodes(t, c));
        (head + CircuitNodes(s[1..], c)) + CircuitNodes(t, c);
        CircuitNodes(s, c) + CircuitNodes(t, c);
      }
    }
  }

  lemma {:induction false} CircuitNodesUniform(s: seq<Node>, c: nat, d: nat)
    requires forall k :: 0 <= k < |s| ==> s[k].circuitIndex == d
    ensures CircuitNodes(s, c) == if c == d then s else []
  {
    if s != [] {
      CircuitNodesUniform(s[1..], c, d);
    }
  }

  /** The nodes as first built form a board layout. */
  lemma InitialLayout()
    ensures IsBoardLayout(InitialNodes())
  {
  }

  /** The six nodes of circuit `c` on a board layout, which all lie on circuit `c`. */
  lemma LayoutBlock(ns: seq<Node>, c: nat)
    requires IsBoardLayout(ns) && c < CIRCUIT_COUNT
    ensures var b := ns[NodeAt(c, 0)..NodeAt(c, NODES_PER_CIRCUIT)];
      |b| == NODES_PER_CIRCUIT && forall k :: 0 <= k < |b| ==> b[k].circuitIndex == c
  {
    LayoutFacts(ns);
    var b := ns[NodeAt(c, 0)..NodeAt(c, NODES_PER_CIRCUIT)];
    forall k | 0 <= k < |b| ensures b[k].circuitIndex == c {
      Compose(c, k);
      assert b[k] == ns[NodeAt(c, k)];
    }
  }

  /** Filtering three blocks that each lie on one circuit keeps only the block of circuit `c`. */
  lemma CircuitNodesOfBlocks(c: nat, b0: seq<Node>, b1: seq<Node>, b2: seq<Node>)
    requires c < CIRCUIT_COUNT
    requires forall k :: 0 <= k < |b0| ==> b0[k].circuitIndex == 0
    requires forall k :: 0 <= k < |b1| ==> b1[k].circuitIndex == 1
    requires forall k :: 0 <= k < |b2| ==> b2[k].circuitIndex == 2
    ensures CircuitNodes(b0 + b1 + b2, c) == if c == 0 then b0 else if c == 1 then b1 else b2
  {
    CircuitNodesUniform(b0, c, 0);
    CircuitNodesUniform(b1, c, 1);
    CircuitNodesUniform(b2, c, 2);
    CircuitNodesAppend(b0 + b1, b2, c);
    CircuitNodesAppend(b0, b1, c);
    var r := CircuitNodes(b0 + b1 + b2, c);
    assert r == CircuitNodes(b0, c) + CircuitNodes(b1, c) + CircuitNodes(b2, c);
    if c == 0 {
      assert r == b0 + [] + [];
    } else if c == 1 {
      assert r == [] + b1 + [];
    } else {
      assert r == [] + [] + b2;
    }
  }

  /** A board layout is the outer, middle and inner blocks of six nodes, in that order. */
  lemma LayoutSplit(ns: seq<Node>)
    requires IsBoardLayout(ns)
    ensures ns == ns[0..6] + ns[6..12] + ns[12..18]
    ensures forall k :: 0 <= k < 6 ==> ns[k].circuitIndex == 0
    ensures forall k :: 6 <= k < 12 ==> ns[k].circuitIndex == 1
    ensures forall k :: 12 <= k < 18 ==> ns[k].circuitIndex == 2
  {
    LayoutFacts(ns);
    assert ns[..12] == ns[0..6] + ns[6..12];
    assert ns == ns[..12] + ns[12..18];
    LayoutBlock(ns, 0);
    LayoutBlock(ns, 1);
    LayoutBlock(ns, 2);
  }

  lemma CircuitNodesOfSplit(c: nat, ns: seq<Node>)
    requires c < CIRCUIT_COUNT && |ns| == NODE_COUNT
    requires ns == ns[0..6] + ns[6..12] + ns[12..18]
    requires forall k :: 0 <= k < 6 ==> ns[k].circuitIndex == 0
    requires forall k :: 6 <= k < 12 ==> ns[k].circuitIndex == 1
    requires forall k :: 12 <= k < 18 ==> ns[k].circuitIndex == 2
    ensures CircuitNodes(ns, c) == ns[NodeAt(c, 0)..NodeAt(c, NODES_PER_CIRCUIT)]
  {
    CircuitNodesOfBlocks(c, ns[0..6], ns[6..12], ns[12..18]);
  }

  /** On a board layout, filtering by circuit yields exactly that circuit's six nodes in order. */
  lemma CircuitNodesOfLayout(ns: seq<Node>, c: nat)
    requires IsBoardLayout(ns) && c < CIRCUIT_COUNT
    ensures CircuitNodes(ns, c) == ns[NodeAt(c, 0)..NodeAt(c, NODES_PER_CIRCUIT)]
  {
    LayoutSplit(ns);
    CircuitNodesOfSplit(c, ns);
  }

  predicate IsAt(x: Node, c: nat, i: nat)
  {
    x.circuitIndex == c && x.nodeIndex == i
  }

  /** The first node at position `i` of circuit `c` (`nodes.find(...)`). */
  function FindNode(nodes: seq<Node>, c: nat, i: nat): (r: Option<Node>)
    ensures r.Some? ==> r.value in nodes && IsAt(r.value, c, i)
  {
    if nodes == [] then None
    else if IsAt(nodes[0], c, i) then Some(nodes[0])
    else FindNode(nodes[1..], c, i)
  }

  lemma {:induction false} FindFirstMatch(nodes: seq<Node>, c: nat, i: nat, j: nat)
    requires j < |nodes| && IsAt(nodes[j], c, i)
    requires forall k :: 0 <= k < j ==> !IsAt(nodes[k], c, i)
    ensures FindNode(nodes, c, i) == Some(nodes[j])
  {
    if j > 0 {
      assert !IsAt(nodes[0], c, i);
      FindFirstMatch(nodes[1..], c, i, j - 1);
    }
  }

  /** On a board layout, `find` returns the node whose id is 6 * c + i. */
  lemma FindOnLayout(ns: seq<Node>, c: nat, i: nat)
    requires IsBoardLayout(ns) && c < CIRCUIT_COUNT && i < NODES_PER_CIRCUIT
    ensures FindNode(ns, c, i) == Some(ns[NodeAt(c, i)])
  {
    LayoutFacts(ns);
    Compose(c, i);
    var j := NodeAt(c, i);
    forall k | 0 <= k < j ensures !IsAt(ns[k], c, i) {
      assert k == NodeAt(CircuitOf(k), PositionOf(k));
    }
    FindFirstMatch(ns, c, i, j);
  }
}
