/** The board object: node occupancy, edge control and circuit unlocking,
    updated in place as the game is played. */
module Boards {
  import opened Constants
  import opened Topology
  import opened Rules

  class Board {
    var nodes: seq<Node>
    var edges: seq<Edge>
    var unlockedCircuits: seq<nat>

    /** The board's shape: the built layout and graph, unlocked circuits 0..k,
        and every titan on an unlocked circuit. Edge control may be stale. */
    ghost predicate Shaped()
      reads this
    {
      IsBoardLayout(nodes) && IsBoardGraph(edges) && EndpointsIn(edges, |nodes|) &&
      UnlockedPrefix(unlockedCircuits) && OccupiedUnlocked(nodes, |unlockedCircuits|)
    }

    /** The board invariant: its shape, and edge control agreeing with the titans. */
    ghost predicate Valid()
      reads this
    {
      Shaped() && ControlConsistent(nodes, edges)
    }

    /** A new, initialised board: 18 empty nodes, 24 uncontrolled edges, only the outer circuit unlocked. */
    constructor ()
      ensures Valid()
      ensures nodes == InitialNodes() && edges == InitialEdges() && unlockedCircuits == [0]
    {
      nodes, edges, unlockedCircuits := [], [], [0];
      new;
      CreateNodes();
      InitialLayout();
      CreateEdges();
      InitialGraphFacts();
    }

    /** Appends the nodes of every circuit, ids in creation order. */
    method CreateNodes()
      requires nodes == []
      modifies this
      ensures nodes == InitialNodes()
      ensures edges == old(edges) && unlockedCircuits == old(unlockedCircuits)
    {
      for circuitIndex := 0 to CIRCUIT_COUNT
        invariant nodes == InitialNodes()[..NodeAt(circuitIndex, 0)]
        invariant edges == old(edges) && unlockedCircuits == old(unlockedCircuits)
      {
        for nodeIndex := 0 to NODES_PER_CIRCUIT
          invariant nodes == InitialNodes()[..NodeAt(circuitIndex, nodeIndex)]
          invariant edges == old(edges) && unlockedCircuits == old(unlockedCircuits)
        {
          Compose(circuitIndex, nodeIndex);
          nodes := nodes + [Node(|nodes|, circuitIndex, nodeIndex, None)];
        }
      }
    }

    /** Appends the ring edges of each circuit, then the outer-to-middle and
        middle-to-inner cross edges. */
    method CreateEdges()
      requires IsBoardLayout(nodes) && edges == []
      modifies this
      ensures edges == InitialEdges()
      ensures nodes == old(nodes) && unlockedCircuits == old(unlockedCircuits)
    {
      for circuitIndex := 0 to CIRCUIT_COUNT
        invariant edges == InitialEdges()[..NodeAt(circuitIndex, 0)]
        invariant nodes == old(nodes) && unlockedCircuits == old(unlockedCircuits)
      {
        var circuitNodes := CircuitNodes(nodes, circuitIndex);
        CircuitNodesOfLayout(nodes, circuitIndex);
        LayoutBlock(nodes, circuitIndex);
        for i := 0 to |circuitNodes|
          invariant edges == InitialEdges()[..NodeAt(circuitIndex, i)]
          invariant nodes == old(nodes) && unlockedCircuits == old(unlockedCircuits)
        {
          var node1 := circuitNodes[i];
          var node2 := circuitNodes[(i + 1) % |circuitNodes|];
          var weight;
          if circuitIndex == 0 {
            weight := OUTER_WEIGHTS[i];
          } else if circuitIndex == 1 {
            weight := MIDDLE_WEIGHTS[i];
          } else {
            weight := INNER_WEIGHTS[i];
          }
          RingStep(nodes, edges, circuitIndex, i, circuitNodes, weight);
          edges := edges + [Edge(|edges|, node1.id, node2.id, weight, None)];
        }
      }
      for i := 0 to |OUTER_TO_MIDDLE|
        invariant edges == InitialEdges()[..NODE_COUNT + i]
        invariant nodes == old(nodes) && unlockedCircuits == old(unlockedCircuits)
      {
        var nodeIndex := OUTER_TO_MIDDLE[i];
        var outerNode := FindNode(nodes, 0, nodeIndex);
        var middleNode := FindNode(nodes, 1, nodeIndex);
        CrossStep(nodes, edges, i, 0, nodeIndex);
        edges := edges + [Edge(|edges|, outerNode.value.id, middleNode.value.id, 1, None)];
      }
      for i := 0 to |MIDDLE_TO_INNER|
        invariant edges == InitialEdges()[..NODE_COUNT + |OUTER_TO_MIDDLE| + i]
        invariant nodes == old(nodes) && unlockedCircuits == old(unlockedCircuits)
      {
        var nodeIndex := MIDDLE_TO_INNER[i];
        var middleNode := FindNode(nodes, 1, nodeIndex);
        var innerNode := FindNode(nodes, 2, nodeIndex);
        CrossStep(nodes, edges, |OUTER_TO_MIDDLE| + i, 1, nodeIndex);
        edges := edges + [Edge(|edges|, middleNode.value.id, innerNode.value.id, 1, None)];
      }
    }

    /** A node is available when it is empty and on an unlocked circuit. */
    function IsNodeAvailable(id: nat): (r: bool)
      reads this
      requires Valid() && id < NODE_COUNT
      ensures r == Available(nodes, unlockedCircuits, id)
    {
      LayoutFacts(nodes);
      UnlockedMembership(unlockedCircuits, CircuitOf(id));
      nodes[id].titan == None && nodes[id].circuitIndex in unlockedCircuits
    }

    /** Whether some edge joins the two nodes; on this board: ring neighbours or cross partners. */
    function AreNodesAdjacent(id1: nat, id2: nat): (r: bool)
      reads this
      requires Valid() && id1 < NODE_COUNT
      ensures r <==> id2 == RingNext(id1) || id2 == RingPrev(id1) || CrossPartner(id1) == Some(id2)
    {
      BoardAdjacency(edges, id1, id2);
      Adjacent(edges, id1, id2)
    }

    /** Places a titan of `player` on an available node and recomputes edge control;
        on an unavailable node nothing changes. */
    method PlaceTitan(id: nat, player: Player) returns (placed: bool)
      requires Valid() && id < NODE_COUNT
      modifies this
      ensures Valid()
      ensures placed == Available(old(nodes), old(unlockedCircuits), id)
      ensures nodes == if placed then old(nodes)[id := old(nodes)[id].(titan := Some(player))] else old(nodes)
      ensures edges == if placed then Recomputed(nodes, old(edges)) else old(edges)
      ensures unlockedCircuits == old(unlockedCircuits)
    {
      if IsNodeAvailable(id) {
        nodes := nodes[id := nodes[id].(titan := Some(player))];
        UpdateEdgeControl();
        return true;
      }
      return false;
    }

    /** Moves a titan of `player` to an available adjacent node and recomputes
        edge control; if any condition fails nothing changes. */
    method MoveTitan(fromId: nat, toId: nat, player: Player) returns (moved: bool)
      requires Valid() && fromId < NODE_COUNT && toId < NODE_COUNT
      modifies this
      ensures Valid()
      ensures moved == MoveAllowed(old(nodes), old(unlockedCircuits), fromId, toId, player)
      ensures nodes == if moved then old(nodes)[fromId := old(nodes)[fromId].(titan := None)]
                                               [toId := old(nodes)[toId].(titan := Some(player))]
                       else old(nodes)
      ensures edges == if moved then Recomputed(nodes, old(edges)) else old(edges)
      ensures unlockedCircuits == old(unlockedCircuits)
    {
      if nodes[fromId].titan == Some(player) && IsNodeAvailable(toId) && AreNodesAdjacent(fromId, toId) {
        nodes := nodes[fromId := nodes[fromId].(titan := None)];
        nodes := nodes[toId := nodes[toId].(titan := Some(player))];
        UpdateEdgeControl();
        return true;
      }
      return false;
    }

    /** Sets every edge's controller from the titans on its endpoints. */
    method UpdateEdgeControl()
      requires Shaped()
      modifies this
      ensures Valid()
      ensures edges == Recomputed(nodes, old(edges))
      ensures nodes == old(nodes) && unlockedCircuits == old(unlockedCircuits)
    {
      ghost var target := Recomputed(nodes, edges);
      RecomputedConsistent(nodes, edges);
      for k := 0 to |edges|
        invariant |edges| == |old(edges)|
        invariant forall j :: 0 <= j < k ==> edges[j] == target[j]
        invariant forall j :: k <= j < |edges| ==> edges[j] == old(edges)[j]
        invariant nodes == old(nodes) && unlockedCircuits == old(unlockedCircuits)
      {
        var edge := edges[k];
        var node1 := nodes[edge.node1];
        var node2 := nodes[edge.node2];
        if node1.titan == node2.titan {
          edges := edges[k := edge.(controlledBy := node1.titan)];
        } else {
          edges := edges[k := edge.(controlledBy := None)];
        }
      }
      assert edges == target;
    }

    /** The score of `player`: the weight of the edges whose endpoints both hold its titans. */
    function GetPlayerScore(player: Player): (score: nat)
      reads this
      requires Valid()
      ensures score == ClaimedWeight(nodes, edges, player)
    {
      RecomputeIdempotent(nodes, edges);
      ScoreIsClaimedWeight(nodes, edges, player);
      Score(edges, player)
    }

    /** Whether every node of circuit `c` holds a titan. */
    function CheckCircuitFilled(c: nat): (filled: bool)
      reads this
      requires Valid() && c < CIRCUIT_COUNT
      ensures filled <==> forall i :: 0 <= i < NODES_PER_CIRCUIT ==> nodes[NodeAt(c, i)].titan.Some?
    {
      CircuitFilledOnLayout(nodes, c);
      CircuitFilled(nodes, c)
    }

    /** Unlocks the next circuit if one is still locked. */
    method UnlockNextCircuit() returns (unlocked: bool)
      requires Valid()
      modifies this
      ensures Valid()
      ensures unlocked == (|old(unlockedCircuits)| < CIRCUIT_COUNT)
      ensures unlockedCircuits ==
        if unlocked then old(unlockedCircuits) + [|old(unlockedCircuits)|] else old(unlockedCircuits)
      ensures nodes == old(nodes) && edges == old(edges)
    {
      if |unlockedCircuits| < CIRCUIT_COUNT {
        unlockedCircuits := unlockedCircuits + [unlockedCircuits[|unlockedCircuits| - 1] + 1];
        return true;
      }
      return false;
    }

    /** Whether the titan on `id` is surrounded: on this board, both ring
        neighbours and the cross partner, if any, hold the opposite colour. */
    function IsTitanSurrounded(id: nat): (r: bool)
      reads this
      requires Valid() && id < NODE_COUNT
      ensures r <==> EnclosedOnBoard(nodes, id)
    {
      SurroundedOnBoard(nodes, edges, id);
      Surrounded(nodes, edges, id)
    }

    /** In a capture mode, removes every titan of `player` that is surrounded
        and recomputes edge control if any was removed; otherwise does nothing. */
    method RemoveSurroundedTitans(player: Player, captureActive: bool) returns (removed: bool)
      requires Valid()
      modifies this
      ensures Valid()
      ensures !captureActive ==> !removed && nodes == old(nodes) && edges == old(edges)
      ensures captureActive ==> nodes == Captured(old(nodes), old(edges), player)
      ensures edges == Recomputed(nodes, old(edges))
      ensures removed <==> (captureActive &&
        exists k :: 0 <= k < NODE_COUNT && old(nodes)[k].titan == Some(player) && EnclosedOnBoard(old(nodes), k))
      ensures unlockedCircuits == old(unlockedCircuits)
    {
      RecomputeIdempotent(nodes, edges);
      if !captureActive {
        return false;
      }
      ghost var before := nodes;
      CaptureOnlyClears(before, edges, player, |unlockedCircuits|);
      SomeEnclosedOnBoard(before, edges, player);
      removed := ClearSurrounded(player);
      if removed {
        UpdateEdgeControl();
      }
    }

    /** The sweep over the nodes: each titan of `player` that is surrounded, as
        the board stands when the sweep reaches it, is removed. Removing one
        never changes whether a later one is surrounded, so the sweep removes
        exactly the titans that were surrounded before it began. */
    method ClearSurrounded(player: Player) returns (removed: bool)
      requires EndpointsIn(edges, |nodes|)
      modifies this
      ensures nodes == Captured(old(nodes), old(edges), player)
      ensures removed <==>
        exists k :: 0 <= k < |old(nodes)| && old(nodes)[k].titan == Some(player) && Surrounded(old(nodes), old(edges), k)
      ensures !removed ==> nodes == old(nodes)
      ensures edges == old(edges) && unlockedCircuits == old(unlockedCircuits)
    {
      ghost var before, es := nodes, edges;
      ghost var target := Captured(before, es, player);
      CaptureOnlyClears(before, es, player, 0);
      removed := false;
      for k := 0 to |nodes|
        invariant |nodes| == |before|
        invariant forall j :: 0 <= j < k ==> nodes[j] == target[j]
        invariant forall j :: k <= j < |nodes| ==> nodes[j] == before[j]
        invariant removed <==>
          exists j :: 0 <= j < k && before[j].titan == Some(player) && Surrounded(before, es, j)
        invariant !removed ==> nodes == before
        invariant edges == es && unlockedCircuits == old(unlockedCircuits)
      {
        if nodes[k].titan == Some(player) {
          SurroundedUnderClearing(before, nodes, edges, player, k);
        }
        if nodes[k].titan == Some(player) && Surrounded(nodes, edges, k) {
          nodes := nodes[k := nodes[k].(titan := None)];
          removed := true;
        }
      }
      assert nodes == target;
    }
  }

  /** Node `id` can take a titan: it is empty and its circuit is among the
      first `|unlocked|`, the unlocked ones. */
  predicate Available(nodes: seq<Node>, unlocked: seq<nat>, id: nat)
    requires id < |nodes|
  {
    nodes[id].titan == None && CircuitOf(id) < |unlocked|
  }

  /** A titan of `player` may step from `from` to `to`: it stands on `from`,
      `to` is available, and the two are ring neighbours or cross partners. */
  predicate MoveAllowed(nodes: seq<Node>, unlocked: seq<nat>, from: nat, to: nat, player: Player)
    requires from < |nodes| && to < |nodes|
  {
    nodes[from].titan == Some(player) && Available(nodes, unlocked, to) &&
    (to == RingNext(from) || to == RingPrev(from) || CrossPartner(from) == Some(to))
  }

  /** The board's own reading of "surrounded": the node holds a titan and both
      ring neighbours and the cross partner, if any, hold the opposite colour. */
  ghost predicate EnclosedOnBoard(nodes: seq<Node>, id: nat)
    requires IsBoardLayout(nodes) && id < NODE_COUNT
  {
    LayoutFacts(nodes);
    NeighbourhoodShape(id);
    CrossPartnerInRange(id);
    nodes[id].titan.Some? &&
    var enemy := Some(Opponent(nodes[id].titan.value));
    nodes[RingNext(id)].titan == enemy && nodes[RingPrev(id)].titan == enemy &&
    (CrossPartner(id).Some? ==> nodes[CrossPartner(id).value].titan == enemy)
  }

  lemma CrossPartnerInRange(n: nat)
    requires n < NODE_COUNT
    ensures CrossPartner(n).Some? ==> CrossPartner(n).value < NODE_COUNT
  {
    if CrossPartner(n).Some? {
      CrossLinked(n);
      InitialGraphFacts();
    }
  }

  /** On the board, the generic surround test (every edge neighbour holds the
      opponent) is exactly `EnclosedOnBoard`. */
  lemma SurroundedOnBoard(nodes: seq<Node>, edges: seq<Edge>, id: nat)
    requires IsBoardLayout(nodes) && IsBoardGraph(edges) && EndpointsIn(edges, |nodes|) && id < NODE_COUNT
    ensures Surrounded(nodes, edges, id) <==> EnclosedOnBoard(nodes, id)
  {
    SurroundedMeaning(nodes, edges, id);
    NeighbourhoodShape(id);
    CrossPartnerInRange(id);
    BoardAdjacency(edges, id, RingNext(id));
    BoardAdjacency(edges, id, RingPrev(id));
    if CrossPartner(id).Some? {
      BoardAdjacency(edges, id, CrossPartner(id).value);
    }
    forall m: nat | Adjacent(edges, id, m)
      ensures m == RingNext(id) || m == RingPrev(id) || CrossPartner(id) == Some(m)
    {
      BoardAdjacency(edges, id, m);
    }
  }

  /** Some titan of `p` is surrounded exactly when one is enclosed on the board. */
  lemma SomeEnclosedOnBoard(nodes: seq<Node>, edges: seq<Edge>, p: Player)
    requires IsBoardLayout(nodes) && IsBoardGraph(edges) && EndpointsIn(edges, |nodes|)
    ensures (exists k :: 0 <= k < NODE_COUNT && nodes[k].titan == Some(p) && Surrounded(nodes, edges, k)) <==>
            (exists k :: 0 <= k < NODE_COUNT && nodes[k].titan == Some(p) && EnclosedOnBoard(nodes, k))
  {
    LayoutFacts(nodes);
    forall k | 0 <= k < NODE_COUNT
      ensures Surrounded(nodes, edges, k) <==> EnclosedOnBoard(nodes, k)
    {
      SurroundedOnBoard(nodes, edges, k);
    }
  }

  /** The ring edge built at position `i` of circuit `c` from that circuit's nodes. */
  lemma RingEdgeOfLayout(nodes: seq<Node>, c: nat, i: nat, circuitNodes: seq<Node>)
    requires IsBoardLayout(nodes) && c < CIRCUIT_COUNT && i < NODES_PER_CIRCUIT
    requires circuitNodes == nodes[NodeAt(c, 0)..NodeAt(c, NODES_PER_CIRCUIT)]
    ensures |circuitNodes| == NODES_PER_CIRCUIT
    ensures InitialEdges()[NodeAt(c, i)] ==
      Edge(NodeAt(c, i), circuitNodes[i].id, circuitNodes[(i + 1) % NODES_PER_CIRCUIT].id, RingWeight(c, i), None)
  {
    LayoutFacts(nodes);
    Compose(c, i);
    var j := (i + 1) % NODES_PER_CIRCUIT;
    Compose(c, j);
    assert circuitNodes[i] == nodes[NodeAt(c, i)];
    assert circuitNodes[j] == nodes[NodeAt(c, j)];
  }

  /** The `j`-th cross edge joins the nodes at position `p` of circuits `c` and `c + 1`. */
  lemma CrossEdgeOfLayout(nodes: seq<Node>, j: nat, c: nat, p: nat)
    requires IsBoardLayout(nodes) && j < CROSS_EDGE_COUNT
    requires j < |OUTER_TO_MIDDLE| ==> c == 0 && p == OUTER_TO_MIDDLE[j]
    requires |OUTER_TO_MIDDLE| <= j ==> c == 1 && p == MIDDLE_TO_INNER[j - |OUTER_TO_MIDDLE|]
    ensures c + 1 < CIRCUIT_COUNT && p < NODES_PER_CIRCUIT
    ensures InitialEdges()[NODE_COUNT + j] ==
      Edge(NODE_COUNT + j, nodes[NodeAt(c, p)].id, nodes[NodeAt(c + 1, p)].id, 1, None)
  {
    LayoutFacts(nodes);
    assert InitialEdges()[NODE_COUNT + j] == CrossEdge(j);
  }

  /** Extending a prefix by the next element. */
  lemma PrefixStep(s: seq<Edge>, k: nat, x: Edge)
    requires k < |s| && s[k] == x
    ensures s[..k] + [x] == s[..k + 1]
  {
  }

  /** One step of the ring loop: the edge built from the circuit's `i`-th and
      next node, with the table weight, is the next edge of the built graph. */
  lemma RingStep(nodes: seq<Node>, edges: seq<Edge>, c: nat, i: nat, circuitNodes: seq<Node>, weight: nat)
    requires IsBoardLayout(nodes) && c < CIRCUIT_COUNT && i < NODES_PER_CIRCUIT
    requires edges == InitialEdges()[..NodeAt(c, i)]
    requires circuitNodes == nodes[NodeAt(c, 0)..NodeAt(c, NODES_PER_CIRCUIT)]
    requires weight == if c == 0 then OUTER_WEIGHTS[i] else if c == 1 then MIDDLE_WEIGHTS[i] else INNER_WEIGHTS[i]
    ensures |circuitNodes| == NODES_PER_CIRCUIT
    ensures edges + [Edge(|edges|, circuitNodes[i].id, circuitNodes[(i + 1) % |circuitNodes|].id, weight, None)] ==
      InitialEdges()[..NodeAt(c, i) + 1]
  {
    RingEdgeOfLayout(nodes, c, i, circuitNodes);
    PrefixStep(InitialEdges(), NodeAt(c, i), InitialEdges()[NodeAt(c, i)]);
  }

  /** One step of a cross-edge loop: the edge joining the nodes found at
      position `p` of circuits `c` and `c + 1` is the next edge of the built graph. */
  lemma CrossStep(nodes: seq<Node>, edges: seq<Edge>, j: nat, c: nat, p: nat)
    requires IsBoardLayout(nodes) && j < CROSS_EDGE_COUNT
    requires j < |OUTER_TO_MIDDLE| ==> c == 0 && p == OUTER_TO_MIDDLE[j]
    requires |OUTER_TO_MIDDLE| <= j ==> c == 1 && p == MIDDLE_TO_INNER[j - |OUTER_TO_MIDDLE|]
    requires edges == InitialEdges()[..NODE_COUNT + j]
    ensures c + 1 < CIRCUIT_COUNT && p < NODES_PER_CIRCUIT
    ensures FindNode(nodes, c, p).Some? && FindNode(nodes, c + 1, p).Some?
    ensures edges + [Edge(|edges|, FindNode(nodes, c, p).value.id, FindNode(nodes, c + 1, p).value.id, 1, None)] ==
      InitialEdges()[..NODE_COUNT + j + 1]
  {
    CrossEdgeOfLayout(nodes, j, c, p);
    FindOnLayout(nodes, c, p);
    FindOnLayout(nodes, c + 1, p);
    PrefixStep(InitialEdges(), NODE_COUNT + j, InitialEdges()[NODE_COUNT + j]);
  }
}
