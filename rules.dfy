/** The rules of Titan's Circuit stated on board values: edge control,
    scores, circuit fill and unlocking, and the surround-capture rule. */
module Rules {
  import opened Constants
  import opened Topology

  // ----- edge control -----

  /** The player controlling `e`: the titan both endpoints share, or nobody if they differ. */
  function ControlOf(nodes: seq<Node>, e: Edge): Option<Player>
    requires e.node1 < |nodes| && e.node2 < |nodes|
  {
    if nodes[e.node1].titan == nodes[e.node2].titan then nodes[e.node1].titan else None
  }

  /** An edge is controlled by `p` exactly when both its endpoints hold a titan of `p`,
      and by nobody exactly when they do not hold titans of one colour. */
  lemma ControlMeaning(nodes: seq<Node>, e: Edge, p: Player)
    requires e.node1 < |nodes| && e.node2 < |nodes|
    ensures ControlOf(nodes, e) == Some(p) <==>
      nodes[e.node1].titan == Some(p) && nodes[e.node2].titan == Some(p)
    ensures ControlOf(nodes, e) == None <==>
      nodes[e.node1].titan != nodes[e.node2].titan || nodes[e.node1].titan == None
  {
  }

  /** Every edge's `controlledBy` agrees with the titans on its endpoints. */
  predicate ControlConsistent(nodes: seq<Node>, edges: seq<Edge>)
    requires EndpointsIn(edges, |nodes|)
  {
    forall k :: 0 <= k < |edges| ==> edges[k].controlledBy == ControlOf(nodes, edges[k])
  }

  /** The edges with every controller recomputed from the titans (`updateEdgeControl`). */
  function Recomputed(nodes: seq<Node>, edges: seq<Edge>): (r: seq<Edge>)
    requires EndpointsIn(edges, |nodes|)
    ensures |r| == |edges|
  {
    seq(|edges|, k requires 0 <= k < |edges| => edges[k].(controlledBy := ControlOf(nodes, edges[k])))
  }

  /** Recomputing keeps every edge's endpoints and weight and makes control consistent. */
  lemma RecomputedConsistent(nodes: seq<Node>, edges: seq<Edge>)
    requires EndpointsIn(edges, |nodes|)
    ensures EndpointsIn(Recomputed(nodes, edges), |nodes|)
    ensures forall k :: 0 <= k < |edges| ==> SameLink(Recomputed(nodes, edges)[k], edges[k])
    ensures Links(Recomputed(nodes, edges)) == Links(edges)
    ensures ControlConsistent(nodes, Recomputed(nodes, edges))
  {
    assert forall k :: 0 <= k < |edges| ==> Links(Recomputed(nodes, edges))[k] == Links(edges)[k];
  }

  /** Recomputing edges whose control is already consistent changes nothing;
      in particular recomputing twice is the same as recomputing once. */
  lemma RecomputeIdempotent(nodes: seq<Node>, edges: seq<Edge>)
    requires EndpointsIn(edges, |nodes|)
    ensures ControlConsistent(nodes, edges) ==> Recomputed(nodes, edges) == edges
    ensures Recomputed(nodes, Recomputed(nodes, edges)) == Recomputed(nodes, edges)
  {
    var r := Recomputed(nodes, edges);
    if ControlConsistent(nodes, edges) {
      assert forall k :: 0 <= k < |edges| ==> r[k] == edges[k];
    }
    RecomputedConsistent(nodes, edges);
    assert forall k :: 0 <= k < |r| ==> Recomputed(nodes, r)[k] == r[k];
  }

  /** Control derived from earlier titans is overwritten entirely by a later recomputation. */
  lemma RecomputeOverwrites(later: seq<Node>, earlier: seq<Node>, edges: seq<Edge>)
    requires |later| == |earlier| && EndpointsIn(edges, |later|)
    ensures Recomputed(later, Recomputed(earlier, edges)) == Recomputed(later, edges)
  {
    RecomputedConsistent(earlier, edges);
    var r := Recomputed(earlier, edges);
    assert forall k :: 0 <= k < |edges| ==> Recomputed(later, r)[k] == Recomputed(later, edges)[k];
  }

  // ----- scores -----

  /** The sum of the weights of the edges `p` controls (`getPlayerScore`). */
  function Score(edges: seq<Edge>, p: Player): nat
  {
    if edges == [] then 0
    else (if edges[0].controlledBy == Some(p) then edges[0].weight else 0) + Score(edges[1..], p)
  }

  /** The sum of all edge weights. */
  function TotalWeight(edges: seq<Edge>): nat
  {
    if edges == [] then 0 else edges[0].weight + TotalWeight(edges[1..])
  }

  /** The two scores together never exceed the total weight, and with positive
      weights they reach it exactly when every edge is controlled. */
  lemma {:induction false} ScoresWithinTotal(edges: seq<Edge>)
    ensures Score(edges, Red) + Score(edges, Blue) <= TotalWeight(edges)
    ensures (forall k :: 0 <= k < |edges| ==> edges[k].weight > 0) ==>
      (Score(edges, Red) + Score(edges, Blue) == TotalWeight(edges) <==>
       forall k :: 0 <= k < |edges| ==> edges[k].controlledBy.Some?)
  {
    if edges != [] {
      var tail := edges[1..];
      ScoresWithinTotal(tail);
      assert forall k :: 1 <= k < |edges| ==> edges[k] == tail[k - 1];
      if forall k :: 0 <= k < |edges| ==> edges[k].weight > 0 {
        assert forall k :: 0 <= k < |tail| ==> tail[k].weight > 0;
        if forall k :: 0 <= k < |edges| ==> edges[k].controlledBy.Some? {
          assert edges[0].controlledBy.Some?;
          assert edges[0].controlledBy.value == Red || edges[0].controlledBy.value == Blue;
          assert Score(edges, Red) + Score(edges, Blue) == edges[0].weight + Score(tail, Red) + Score(tail, Blue);
          assert forall k :: 0 <= k < |tail| ==> tail[k].controlledBy.Some?;
        } else if edges[0].controlledBy.Some? {
          var k :| 0 <= k < |edges| && edges[k].controlledBy.None?;
          assert tail[k - 1].controlledBy.None?;
        }
      }
    }
  }

  /** The weight of the edges whose two endpoints both hold a titan of `p`,
      read straight from the nodes. */
  function ClaimedWeight(nodes: seq<Node>, edges: seq<Edge>, p: Player): nat
    requires EndpointsIn(edges, |nodes|)
  {
    if edges == [] then 0
    else
      (if nodes[edges[0].node1].titan == Some(p) && nodes[edges[0].node2].titan == Some(p)
       then edges[0].weight else 0) + ClaimedWeight(nodes, edges[1..], p)
  }

  /** After recomputation a player's score is the weight of the edges whose
      endpoints both hold that player's titans. */
  lemma {:induction false} ScoreIsClaimedWeight(nodes: seq<Node>, edges: seq<Edge>, p: Player)
    requires EndpointsIn(edges, |nodes|)
    ensures Score(Recomputed(nodes, edges), p) == ClaimedWeight(nodes, edges, p)
  {
    if edges != [] {
      var r := Recomputed(nodes, edges);
      assert r[1..] == Recomputed(nodes, edges[1..]);
      ScoreIsClaimedWeight(nodes, edges[1..], p);
      ControlMeaning(nodes, edges[0], p);
    }
  }

  // ----- circuits -----

  /** Every node of circuit `c` holds a titan (`checkCircuitFilled`). */
  predicate CircuitFilled(nodes: seq<Node>, c: nat)
  {
    forall k :: 0 <= k < |nodes| && nodes[k].circuitIndex == c ==> nodes[k].titan.Some?
  }

  /** On the board layout, circuit `c` is filled exactly when its six positions are occupied. */
  lemma CircuitFilledOnLayout(nodes: seq<Node>, c: nat)
    requires IsBoardLayout(nodes) && c < CIRCUIT_COUNT
    ensures CircuitFilled(nodes, c) <==>
      forall i :: 0 <= i < NODES_PER_CIRCUIT ==> nodes[NodeAt(c, i)].titan.Some?
  {
    LayoutFacts(nodes);
    if forall i :: 0 <= i < NODES_PER_CIRCUIT ==> nodes[NodeAt(c, i)].titan.Some? {
      forall k | 0 <= k < |nodes| && nodes[k].circuitIndex == c ensures nodes[k].titan.Some? {
        Decompose(k);
      }
    }
    forall i | 0 <= i < NODES_PER_CIRCUIT ensures nodes[NodeAt(c, i)].circuitIndex == c {
      Compose(c, i);
    }
  }

  /** The unlocked circuits are 0, 1, ..., k for some k below the circuit count. */
  predicate UnlockedPrefix(u: seq<nat>)
  {
    1 <= |u| <= CIRCUIT_COUNT && forall i :: 0 <= i < |u| ==> u[i] == i
  }

  /** For unlocked circuits 0..k, `includes(c)` is exactly `c` below the count. */
  lemma UnlockedMembership(u: seq<nat>, c: nat)
    requires UnlockedPrefix(u)
    ensures c in u <==> c < |u|
  {
    if c < |u| {
      assert u[c] == c;
    }
  }

  /** Every titan stands on one of the first `count` circuits. */
  predicate OccupiedUnlocked(nodes: seq<Node>, count: nat)
  {
    forall k :: 0 <= k < |nodes| && nodes[k].titan.Some? ==> nodes[k].circuitIndex < count
  }

  /** The unlocked circuits after a fill check: one more circuit when the last
      unlocked circuit is full and one remains locked. */
  function AfterFill(u: seq<nat>, nodes: seq<Node>): (r: seq<nat>)
    requires UnlockedPrefix(u)
    ensures UnlockedPrefix(r)
    ensures |r| == |u| || |r| == |u| + 1
    ensures r[..|u|] == u
  {
    if CircuitFilled(nodes, u[|u| - 1]) && |u| < CIRCUIT_COUNT then u + [|u|] else u
  }

  /** A circuit that is still locked holds no titan, so it is not filled. */
  lemma LockedNotFilled(nodes: seq<Node>, count: nat, c: nat)
    requires IsBoardLayout(nodes) && OccupiedUnlocked(nodes, count)
    requires count <= c < CIRCUIT_COUNT
    ensures !CircuitFilled(nodes, c)
  {
    LayoutFacts(nodes);
    Compose(c, 0);
    assert nodes[NodeAt(c, 0)].circuitIndex == c;
  }

  /** After a fill check, a filled circuit is always followed by an unlocked one. */
  lemma AfterFillUnlocksFilled(u: seq<nat>, nodes: seq<Node>, c: nat)
    requires UnlockedPrefix(u) && IsBoardLayout(nodes) && OccupiedUnlocked(nodes, |u|)
    requires c + 1 < CIRCUIT_COUNT && CircuitFilled(nodes, c)
    ensures c + 1 < |AfterFill(u, nodes)|
  {
    if c >= |u| {
      LockedNotFilled(nodes, |u|, c);
    }
  }

  // ----- surround and capture -----

  /** The endpoint of `e` other than `id`. */
  function Other(e: Edge, id: nat): nat
  {
    if e.node1 == id then e.node2 else e.node1
  }

  /** The nodes joined to `id` by some edge, in edge order (the filter-and-map of `isTitanSurrounded`). */
  function Neighbours(edges: seq<Edge>, id: nat): (r: seq<nat>)
    ensures forall m :: m in r <==> Adjacent(edges, id, m)
  {
    if edges == [] then []
    else
      var rest := Neighbours(edges[1..], id);
      assert forall m :: Adjacent(edges, id, m) <==>
        Joins(edges[0], id, m) || Adjacent(edges[1..], id, m) by {
        forall m | Adjacent(edges, id, m) && !Joins(edges[0], id, m)
          ensures Adjacent(edges[1..], id, m)
        {
          var k :| 0 <= k < |edges| && Joins(edges[k], id, m);
          assert Joins(edges[1..][k - 1], id, m);
        }
        forall m | Adjacent(edges[1..], id, m) ensures Adjacent(edges, id, m) {
          var k :| 0 <= k < |edges[1..]| && Joins(edges[1..][k], id, m);
          assert Joins(edges[k + 1], id, m);
        }
      }
      if edges[0].node1 == id || edges[0].node2 == id then [Other(edges[0], id)] + rest else rest
  }

  /** A neighbour is an endpoint of some edge, so it is a node of the board. */
  lemma NeighbourInRange(edges: seq<Edge>, n: nat, id: nat, m: nat)
    requires EndpointsIn(edges, n) && m in Neighbours(edges, id)
    ensures m < n
  {
    var k :| 0 <= k < |edges| && Joins(edges[k], id, m);
  }

  /** Neighbours depend only on the edges' endpoints, not on who controls them. */
  lemma {:induction false} NeighboursIgnoreControl(es: seq<Edge>, fs: seq<Edge>, id: nat)
    requires |es| == |fs| && forall k :: 0 <= k < |es| ==> SameLink(es[k], fs[k])
    ensures Neighbours(es, id) == Neighbours(fs, id)
  {
    if es != [] {
      NeighboursIgnoreControl(es[1..], fs[1..], id);
    }
  }

  /** The titan on `id` has at least one neighbour and every neighbour holds
      a titan of the other colour (`isTitanSurrounded`). */
  predicate Surrounded(nodes: seq<Node>, edges: seq<Edge>, id: nat)
    requires id < |nodes| && EndpointsIn(edges, |nodes|)
  {
    match nodes[id].titan
    case None => false
    case Some(p) =>
      var adjacent := Neighbours(edges, id);
      |adjacent| > 0 &&
      forall m :: m in adjacent ==>
        (NeighbourInRange(edges, |nodes|, id, m); nodes[m].titan == Some(Opponent(p)))
  }

  /** A titan is surrounded exactly when it has some neighbour and all its
      neighbours hold the opposite colour; an empty node never is. */
  lemma SurroundedMeaning(nodes: seq<Node>, edges: seq<Edge>, id: nat)
    requires id < |nodes| && EndpointsIn(edges, |nodes|)
    ensures nodes[id].titan == None ==> !Surrounded(nodes, edges, id)
    ensures nodes[id].titan.Some? ==>
      (Surrounded(nodes, edges, id) <==>
        (exists m: nat :: Adjacent(edges, id, m)) &&
        forall m: nat :: Adjacent(edges, id, m) ==> m < |nodes| && nodes[m].titan == Some(Opponent(nodes[id].titan.value)))
  {
    var adjacent := Neighbours(edges, id);
    forall m: nat | Adjacent(edges, id, m) ensures m < |nodes| {
      NeighbourInRange(edges, |nodes|, id, m);
    }
    if |adjacent| > 0 {
      assert Adjacent(edges, id, adjacent[0]);
    }
  }

  /** Clearing titans of `p` never changes whether another titan of `p` is surrounded:
      it only depends on which neighbours hold the opposite colour. */
  lemma SurroundedUnderClearing(ns: seq<Node>, ms: seq<Node>, edges: seq<Edge>, p: Player, k: nat)
    requires |ns| == |ms| && k < |ns| && EndpointsIn(edges, |ns|)
    requires forall j :: 0 <= j < |ns| ==>
      ms[j].titan == ns[j].titan || (ns[j].titan == Some(p) && ms[j].titan == None)
    requires ns[k].titan == Some(p) && ms[k].titan == Some(p)
    ensures Surrounded(ms, edges, k) == Surrounded(ns, edges, k)
  {
    var adjacent := Neighbours(edges, k);
    forall m | m in adjacent ensures m < |ns| && (ms[m].titan == Some(Opponent(p)) <==> ns[m].titan == Some(Opponent(p))) {
      NeighbourInRange(edges, |ns|, k, m);
    }
  }

  /** Every titan of `p` that is surrounded is removed; nothing else changes. */
  function Captured(nodes: seq<Node>, edges: seq<Edge>, p: Player): (r: seq<Node>)
    requires EndpointsIn(edges, |nodes|)
    ensures |r| == |nodes|
  {
    seq(|nodes|, k requires 0 <= k < |nodes| =>
      if nodes[k].titan == Some(p) && Surrounded(nodes, edges, k) then nodes[k].(titan := None) else nodes[k])
  }

  /** Capture only empties nodes of `p`, keeps the layout and keeps titans on unlocked circuits;
      it never touches the other player's titans. */
  lemma CaptureOnlyClears(nodes: seq<Node>, edges: seq<Edge>, p: Player, count: nat)
    requires EndpointsIn(edges, |nodes|)
    ensures var r := Captured(nodes, edges, p);
      forall k :: 0 <= k < |nodes| ==>
        r[k].titan == nodes[k].titan || (nodes[k].titan == Some(p) && r[k].titan == None)
    ensures IsBoardLayout(nodes) ==> IsBoardLayout(Captured(nodes, edges, p))
    ensures OccupiedUnlocked(nodes, count) ==> OccupiedUnlocked(Captured(nodes, edges, p), count)
  {
    TitansKeepLayout(nodes, Captured(nodes, edges, p));
  }

  /** Capture depends on the edges only through which nodes they join, not on who controls them. */
  lemma CapturedIgnoresControl(nodes: seq<Node>, es: seq<Edge>, fs: seq<Edge>, p: Player)
    requires EndpointsIn(es, |nodes|) && EndpointsIn(fs, |nodes|)
    requires |es| == |fs| && forall k :: 0 <= k < |es| ==> SameLink(es[k], fs[k])
    ensures Captured(nodes, es, p) == Captured(nodes, fs, p)
  {
    forall id | 0 <= id < |nodes| ensures Surrounded(nodes, es, id) == Surrounded(nodes, fs, id) {
      NeighboursIgnoreControl(es, fs, id);
    }
  }

  // ----- titan counts -----

  /** The number of titans of `p` on the board. */
  function TitanCount(nodes: seq<Node>, p: Player): nat
  {
    if nodes == [] then 0 else (if nodes[0].titan == Some(p) then 1 else 0) + TitanCount(nodes[1..], p)
  }

  /** Replacing one node changes the count of `p` by what leaves and what arrives. */
  lemma {:induction false} TitanCountUpdate(nodes: seq<Node>, i: nat, x: Node, p: Player)
    requires i < |nodes|
    ensures TitanCount(nodes[i := x], p) + (if nodes[i].titan == Some(p) then 1 else 0) ==
      TitanCount(nodes, p) + (if x.titan == Some(p) then 1 else 0)
  {
    if i > 0 {
      assert nodes[i := x][1..] == nodes[1..][i - 1 := x];
      TitanCountUpdate(nodes[1..], i - 1, x, p);
    } else {
      assert nodes[i := x][1..] == nodes[1..];
    }
  }

  /** Emptying nodes never adds titans: the count of every player can only fall. */
  lemma {:induction false} TitanCountUnderClearing(ns: seq<Node>, ms: seq<Node>, p: Player)
    requires |ns| == |ms|
    requires forall j :: 0 <= j < |ns| ==> ms[j].titan == ns[j].titan || ms[j].titan == None
    ensures TitanCount(ms, p) <= TitanCount(ns, p)
  {
    if ns != [] {
      TitanCountUnderClearing(ns[1..], ms[1..], p);
    }
  }

  /** A board with no titans counts none for either player. */
  lemma {:induction false} TitanCountEmpty(nodes: seq<Node>, p: Player)
    requires forall k :: 0 <= k < |nodes| ==> nodes[k].titan == None
    ensures TitanCount(nodes, p) == 0
  {
    if nodes != [] {
      TitanCountEmpty(nodes[1..], p);
    }
  }
}
