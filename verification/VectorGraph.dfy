/**
  The collector's vector graph: a list of clock readings, one per observed event and
  one per parsed header, and the edges between them.
 */
module VectorGraph {
  import opened ByteStrings
  import opened IOEvents
  import opened Options
  import opened VectorClock

  datatype Node = Node(id: Bytes, nodeId: Bytes, sequence: uint64, timestamp: uint64)
  datatype Edge = Edge(source: Bytes, target: Bytes)

  /** What can happen to the graph. */
  datatype Op = Observe(node: Bytes, timestamp: uint64) | Merge(remote: Bytes, s: uint64, local: Bytes)

  // ---------- paths ----------

  predicate IsStep(edges: seq<Edge>, path: seq<Bytes>, k: int) {
    0 <= k < |path| - 1 && Edge(path[k], path[k + 1]) in edges
  }

  ghost predicate IsPath(edges: seq<Edge>, path: seq<Bytes>) {
    path != [] && forall k :: 0 <= k < |path| - 1 ==> IsStep(edges, path, k)
  }

  /** There is a path, if only an empty one. */
  ghost predicate Leads(edges: seq<Edge>, from: Bytes, to: Bytes) {
    exists path :: IsPath(edges, path) && path[0] == from && path[|path| - 1] == to
  }

  ghost predicate IsCycle(edges: seq<Edge>, path: seq<Bytes>) {
    |path| >= 2 && IsPath(edges, path) && path[0] == path[|path| - 1]
  }

  ghost predicate Acyclic(edges: seq<Edge>) {
    forall path :: !IsCycle(edges, path)
  }

  lemma LeadsNowhere(edges: seq<Edge>, a: Bytes)
    ensures Leads(edges, a, a)
  {
    assert IsPath(edges, [a]);
  }

  lemma LeadsOn(edges: seq<Edge>, a: Bytes, b: Bytes, c: Bytes)
    requires Edge(a, b) in edges && Leads(edges, b, c)
    ensures Leads(edges, a, c)
  {
    var path :| IsPath(edges, path) && path[0] == b && path[|path| - 1] == c;
    var longer := [a] + path;
    forall k | 0 <= k < |longer| - 1
      ensures IsStep(edges, longer, k)
    {
      assert k > 0 ==> IsStep(edges, path, k - 1);
    }
    assert IsPath(edges, longer) && longer[|longer| - 1] == c;
  }

  lemma PathAfterEdge(edges: seq<Edge>, path: seq<Bytes>)
    requires IsPath(edges, path) && |path| >= 2
    ensures Edge(path[0], path[1]) in edges && IsPath(edges, path[1..])
    ensures path[1..][|path| - 2] == path[|path| - 1]
  {
    assert IsStep(edges, path, 0);
    forall k | 0 <= k < |path[1..]| - 1
      ensures IsStep(edges, path[1..], k)
    {
      assert IsStep(edges, path, k + 1);
    }
  }

  /** A path over one more edge takes the old edges only, or those before and after the new one. */
  lemma {:induction false} PathOverNewEdge(edges: seq<Edge>, e: Edge, path: seq<Bytes>)
    requires IsPath(edges + [e], path)
    ensures
      var (from, to) := (path[0], path[|path| - 1]);
      Leads(edges, from, to) || (Leads(edges, from, e.source) && Leads(edges, e.target, to))
  {
    if |path| == 1 {
      LeadsNowhere(edges, path[0]);
    } else {
      var (from, to) := (path[0], path[|path| - 1]);
      PathAfterEdge(edges + [e], path);
      PathOverNewEdge(edges, e, path[1..]);
      if Edge(from, path[1]) !in edges {
        LeadsNowhere(edges, from);
      } else if Leads(edges, path[1], to) {
        LeadsOn(edges, from, path[1], to);
      } else {
        LeadsOn(edges, from, path[1], e.source);
      }
    }
  }

  lemma {:induction false} LeadsJoin(edges: seq<Edge>, p: seq<Bytes>, c: Bytes)
    requires IsPath(edges, p) && Leads(edges, p[|p| - 1], c)
    ensures Leads(edges, p[0], c)
  {
    if |p| <= 1 {
    } else {
      PathAfterEdge(edges, p);
      LeadsJoin(edges, p[1..], c);
      LeadsOn(edges, p[0], p[1], c);
    }
  }

  /** An edge closes a cycle exactly if its target already leads to its source. */
  lemma AcyclicWithEdge(edges: seq<Edge>, e: Edge)
    ensures Acyclic(edges + [e]) <==> Acyclic(edges) && !Leads(edges, e.target, e.source)
  {
    if Leads(edges, e.target, e.source) {
      var path :| IsPath(edges, path) && path[0] == e.target && path[|path| - 1] == e.source;
      var cycle := path + [e.target];
      assert IsCycle(edges + [e], cycle) by {
        forall k | 0 <= k < |cycle| - 1
          ensures IsStep(edges + [e], cycle, k)
        {
          assert k < |path| - 1 ==> IsStep(edges, path, k);
        }
      }
    }
    if !Acyclic(edges) {
      var cycle :| IsCycle(edges, cycle);
      assert forall k :: IsStep(edges, cycle, k) ==> IsStep(edges + [e], cycle, k);
      assert IsCycle(edges + [e], cycle);
    }
    if !Acyclic(edges + [e]) {
      var cycle :| IsCycle(edges + [e], cycle);
      NewCycle(edges, e, cycle);
    }
  }

  lemma NewCycle(edges: seq<Edge>, e: Edge, cycle: seq<Bytes>)
    requires IsCycle(edges + [e], cycle)
    ensures Leads(edges, e.target, e.source) || !Acyclic(edges)
  {
    var x, next := cycle[0], cycle[1];
    PathAfterEdge(edges + [e], cycle);
    PathOverNewEdge(edges, e, cycle[1..]);
    if Edge(x, next) in edges {
      if Leads(edges, next, x) {
        var path :| IsPath(edges, path) && path[0] == next && path[|path| - 1] == x;
        var c := [x] + path;
        assert forall k :: 0 < k < |c| - 1 ==> (IsStep(edges, c, k) <==> IsStep(edges, path, k - 1));
        assert IsStep(edges, c, 0);
        assert IsCycle(edges, c);
      } else {
        LeadsOn(edges, x, next, e.source);
        var path :| IsPath(edges, path) && path[0] == e.target && path[|path| - 1] == x;
        LeadsJoin(edges, path, e.source);
      }
    }
  }

  lemma NoEdgesAcyclic()
    ensures Acyclic([])
  {
    forall path
      ensures !IsCycle([], path)
    {
      if IsCycle([], path) {
        PathAfterEdge([], path);
      }
    }
  }

  /** Where no edge starts, no path goes on. */
  lemma NoWayOn(edges: seq<Edge>, a: Bytes, b: Bytes)
    requires forall e :: e in edges ==> e.source != a
    ensures Leads(edges, a, b) <==> a == b
  {
    LeadsNowhere(edges, a);
    if Leads(edges, a, b) {
      var path :| IsPath(edges, path) && path[0] == a && path[|path| - 1] == b;
      if |path| > 1 {
        PathAfterEdge(edges, path);
      }
    }
  }

  // ---------- the graph as a function of its history ----------

  /** How many of the first `n` operations observe `node`. */
  function Observed(ops: seq<Op>, n: nat, node: Bytes): nat
    requires n <= |ops|
  {
    if n == 0 then 0
    else Observed(ops, n - 1, node) + if ops[n - 1].Observe? && ops[n - 1].node == node then 1 else 0
  }

  /** Every operation adds one node to the list. */
  function NodeOf(ops: seq<Op>, i: nat): Node
    requires i < |ops|
  {
    match ops[i]
    case Observe(node, timestamp) =>
      var s := Observed(ops, i + 1, node) % WRAP;
      Node(ClockId(node, s), node, s, timestamp)
    case Merge(remote, s, _) => Node(ClockId(remote, s), remote, s, 0)
  }

  /** The edge an operation adds: to an observed event from whatever precedes it in the list. */
  function EdgeOf(ops: seq<Op>, i: nat): Option<Edge>
    requires i < |ops|
  {
    match ops[i]
    case Observe(_, _) => if i == 0 then None else Some(Edge(NodeOf(ops, i - 1).id, NodeOf(ops, i).id))
    case Merge(remote, s, local) =>
      Some(Edge(ClockId(remote, s), ClockId(local, Observed(ops, i, local) % WRAP)))
  }

  function NodesOf(ops: seq<Op>, n: nat): seq<Node>
    requires n <= |ops|
  {
    if n == 0 then [] else NodesOf(ops, n - 1) + [NodeOf(ops, n - 1)]
  }

  function EdgesOf(ops: seq<Op>, n: nat): seq<Edge>
    requires n <= |ops|
  {
    if n == 0 then []
    else EdgesOf(ops, n - 1) + if EdgeOf(ops, n - 1).Some? then [EdgeOf(ops, n - 1).value] else []
  }

  // ---------- the engine ----------

  lemma {:induction false} ObservedBefore(ops: seq<Op>, op: Op, n: nat, node: Bytes)
    requires n <= |ops|
    ensures Observed(ops + [op], n, node) == Observed(ops, n, node)
  {
    if n == 0 {
    } else {
      ObservedBefore(ops, op, n - 1, node);
    }
  }

  lemma SameNode(ops: seq<Op>, op: Op, i: nat)
    requires i < |ops|
    ensures NodeOf(ops + [op], i) == NodeOf(ops, i)
    ensures EdgeOf(ops + [op], i) == EdgeOf(ops, i)
  {
    match ops[i] {
      case Observe(node, _) =>
        ObservedBefore(ops, op, i + 1, node);
        if i > 0 && ops[i - 1].Observe? {
          ObservedBefore(ops, op, i, ops[i - 1].node);
        }
      case Merge(_, _, local) => ObservedBefore(ops, op, i, local);
    }
  }

  lemma {:induction false} SameGraph(ops: seq<Op>, op: Op, n: nat)
    requires n <= |ops|
    ensures NodesOf(ops + [op], n) == NodesOf(ops, n)
    ensures EdgesOf(ops + [op], n) == EdgesOf(ops, n)
  {
    if n == 0 {
    } else {
      SameGraph(ops, op, n - 1);
      SameNode(ops, op, n - 1);
    }
  }

  lemma WrapNext(n: nat)
    ensures (n % WRAP + 1) % WRAP == (n + 1) % WRAP
  {}

  /** Observing an event ticks its node's counter. */
  lemma CountsNext(ops: seq<Op>, op: Op, seqs: map<Bytes, uint64>)
    requires op.Observe?
    requires forall m :: At0(seqs, m) == Observed(ops, |ops|, m) % WRAP
    ensures forall m :: At0(Ticked(seqs, op.node), m) == Observed(ops + [op], |ops| + 1, m) % WRAP
  {
    forall m
      ensures At0(Ticked(seqs, op.node), m) == Observed(ops + [op], |ops| + 1, m) % WRAP
    {
      ObservedBefore(ops, op, |ops|, m);
      WrapNext(Observed(ops, |ops|, m));
    }
  }

  /** The node before a newly observed one is the last of the list. */
  lemma LastNodeAndEdge(ops: seq<Op>, op: Op)
    requires op.Observe?
    ensures |NodesOf(ops, |ops|)| == |ops|
    ensures
      var nodes := NodesOf(ops, |ops|);
      EdgeOf(ops + [op], |ops|)
        == if ops == [] then None else Some(Edge(nodes[|ops| - 1].id, NodeOf(ops + [op], |ops|).id))
  {
    NodesAt(ops, |ops|);
    if ops != [] {
      SameNode(ops, op, |ops| - 1);
    }
  }

  /** The engine's fields are what its history says. */
  ghost predicate Tracks(ops: seq<Op>, seqs: map<Bytes, uint64>, nodes: seq<Node>, edges: seq<Edge>) {
    && (forall node :: At0(seqs, node) == Observed(ops, |ops|, node) % WRAP)
    && nodes == NodesOf(ops, |ops|)
    && edges == EdgesOf(ops, |ops|)
  }

  lemma TracksObserve(
      ops: seq<Op>, seqs: map<Bytes, uint64>, nodes: seq<Node>, edges: seq<Edge>, node: Bytes, timestamp: uint64)
    requires Tracks(ops, seqs, nodes, edges)
    ensures
      var s := At0(Ticked(seqs, node), node);
      var id := ClockId(node, s);
      && |nodes| == |ops|
      && Tracks(ops + [Observe(node, timestamp)], Ticked(seqs, node), nodes + [Node(id, node, s, timestamp)],
                edges + if nodes == [] then [] else [Edge(nodes[|nodes| - 1].id, id)])
  {
    var op := Observe(node, timestamp);
    var s := At0(Ticked(seqs, node), node);
    CountsNext(ops, op, seqs);
    LastNodeAndEdge(ops, op);
    SameGraph(ops, op, |ops|);
    assert NodeOf(ops + [op], |ops|) == Node(ClockId(node, s), node, s, timestamp);
  }

  lemma TracksMerge(
      ops: seq<Op>, seqs: map<Bytes, uint64>, nodes: seq<Node>, edges: seq<Edge>, op: Op)
    requires Tracks(ops, seqs, nodes, edges) && op.Merge?
    ensures
      var remoteId := ClockId(op.remote, op.s);
      Tracks(ops + [op], seqs, nodes + [Node(remoteId, op.remote, op.s, 0)],
             edges + [Edge(remoteId, ClockId(op.local, At0(seqs, op.local)))])
  {
    SameGraph(ops, op, |ops|);
    forall m
      ensures Observed(ops + [op], |ops|, m) == Observed(ops, |ops|, m)
    {
      ObservedBefore(ops, op, |ops|, m);
    }
    assert NodeOf(ops + [op], |ops|) == Node(ClockId(op.remote, op.s), op.remote, op.s, 0);
  }

  class Engine {
    var seqs: map<Bytes, uint64>
    var nodes: seq<Node>
    var edges: seq<Edge>
    ghost var history: seq<Op>

    constructor ()
      ensures Valid() && history == []
    {
      seqs := map[];
      nodes := [];
      edges := [];
      history := [];
    }

    ghost predicate Valid()
      reads this
    {
      Tracks(history, seqs, nodes, edges)
    }

    method Observe(node: Bytes, timestamp: uint64)
      requires Valid()
      modifies this
      ensures Valid() && history == old(history) + [Op.Observe(node, timestamp)]
    {
      TracksObserve(history, seqs, nodes, edges, node, timestamp);
      seqs := seqs[node := (At0(seqs, node) + 1) % WRAP];
      var s := At0(seqs, node);
      var id := ClockId(node, s);
      nodes := nodes + [Node(id, node, s, timestamp)];
      if |nodes| > 1 {
        var prev := nodes[|nodes| - 2];
        edges := edges + [Edge(prev.id, id)];
      }
      history := history + [Op.Observe(node, timestamp)];
    }

    method MergeRemote(remote: Bytes, s: uint64, local: Bytes)
      requires Valid()
      modifies this
      ensures Valid() && history == old(history) + [Merge(remote, s, local)]
    {
      TracksMerge(history, seqs, nodes, edges, Merge(remote, s, local));
      var remoteId := ClockId(remote, s);
      var localId := ClockId(local, At0(seqs, local));
      nodes := nodes + [Node(remoteId, remote, s, 0)];
      edges := edges + [Edge(remoteId, localId)];
      history := history + [Merge(remote, s, local)];
    }
  }

  lemma {:induction false} NodesAt(ops: seq<Op>, n: nat)
    requires n <= |ops|
    ensures |NodesOf(ops, n)| == n
    ensures forall i :: 0 <= i < n ==> NodesOf(ops, n)[i] == NodeOf(ops, i)
  {
    if n == 0 {
    } else {
      NodesAt(ops, n - 1);
      var nodes := NodesOf(ops, n - 1);
      assert NodesOf(ops, n) == nodes + [NodeOf(ops, n - 1)];
    }
  }

  // ---------- what holds of every run ----------

  lemma {:induction false} ObservedGrows(ops: seq<Op>, m: nat, n: nat, node: Bytes)
    requires m <= n <= |ops|
    ensures Observed(ops, m, node) <= Observed(ops, n, node) <= n
    decreases n
  {
    if n == 0 {
    } else {
      ObservedGrows(ops, if m < n then m else n - 1, n - 1, node);
    }
  }

  /** The numbers of a node's observed events are 1, 2, 3, ... in order, as long as the counter does not wrap. */
  lemma SequenceIsCount(ops: seq<Op>, i: nat)
    requires i < |ops| < WRAP && ops[i].Observe?
    ensures NodeOf(ops, i).sequence == Observed(ops, i, ops[i].node) + 1 == Observed(ops, i + 1, ops[i].node)
  {
    ObservedGrows(ops, i, i + 1, ops[i].node);
  }

  /** Every number up to the node's count was given to one of its observed events. */
  lemma {:induction false} SequencesHaveNoGaps(ops: seq<Op>, n: nat, node: Bytes, k: nat) returns (i: nat)
    requires n <= |ops| < WRAP && 1 <= k <= Observed(ops, n, node)
    ensures i < n && ops[i].Observe? && ops[i].node == node && NodeOf(ops, i).sequence == k
  {
    if k == Observed(ops, n, node) && k != Observed(ops, n - 1, node) {
      i := n - 1;
      SequenceIsCount(ops, i);
    } else {
      i := SequencesHaveNoGaps(ops, n - 1, node, k);
    }
  }

  /** No two observed events have the same name. */
  lemma ObservedIdsDistinct(ops: seq<Op>, i: nat, j: nat)
    requires i < j < |ops| < WRAP && ops[i].Observe? && ops[j].Observe?
    ensures NodeOf(ops, i).id != NodeOf(ops, j).id
  {
    SequenceIsCount(ops, i);
    SequenceIsCount(ops, j);
    if NodeOf(ops, i).id == NodeOf(ops, j).id {
      ClockIdInjective(ops[i].node, NodeOf(ops, i).sequence, ops[j].node, NodeOf(ops, j).sequence);
      ObservedGrows(ops, i + 1, j, ops[i].node);
    }
  }

  /** The edge of each operation is in the graph, and every edge is one of these. */
  lemma {:induction false} EdgesAt(ops: seq<Op>, n: nat, e: Edge)
    requires n <= |ops|
    ensures e in EdgesOf(ops, n) <==> exists i :: 0 <= i < n && EdgeOf(ops, i) == Some(e)
  {
    if n == 0 {
    } else {
      EdgesAt(ops, n - 1, e);
    }
  }

  /** `id` names a node of the graph. */
  ghost predicate Recorded(ops: seq<Op>, id: Bytes) {
    exists i :: 0 <= i < |ops| && NodeOf(ops, i).id == id
  }

  /** The local end of a merge is an event already observed, or number 0. */
  lemma MergeTarget(ops: seq<Op>, i: nat)
    requires i < |ops| < WRAP && ops[i].Merge?
    ensures
      var k := Observed(ops, i, ops[i].local);
      && k < WRAP
      && (k > 0 ==> exists j :: 0 <= j < i && ops[j].Observe? && NodeOf(ops, j).id == ClockId(ops[i].local, k))
  {
    ObservedGrows(ops, i, i, ops[i].local);
    var k := Observed(ops, i, ops[i].local);
    if k > 0 {
      var j := SequencesHaveNoGaps(ops, i, ops[i].local, k);
    }
  }

  /** The edge of a merge leads to the last event of the local node observed before it. */
  lemma MergeLeadsToLatest(ops: seq<Op>, j: nat, i: nat)
    requires j < i < |ops| < WRAP && ops[i].Merge? && ops[j].Observe? && ops[j].node == ops[i].local
    requires forall k :: j < k < i && ops[k].Observe? ==> ops[k].node != ops[i].local
    ensures EdgeOf(ops, i) == Some(Edge(ClockId(ops[i].remote, ops[i].s), NodeOf(ops, j).id))
  {
    SameCount(ops, j + 1, i, ops[i].local);
    SequenceIsCount(ops, j);
  }

  lemma {:induction false} SameCount(ops: seq<Op>, m: nat, n: nat, node: Bytes)
    requires m <= n <= |ops| && forall k :: m <= k < n && ops[k].Observe? ==> ops[k].node != node
    ensures Observed(ops, m, node) == Observed(ops, n, node)
    decreases n
  {
    if m < n {
      SameCount(ops, m, n - 1, node);
    }
  }

  /** Which nodes an edge connects; `b` is missing if it ends at number 0. */
  lemma EdgeIsAnchored(ops: seq<Op>, i: nat) returns (a: nat, b: Option<nat>)
    requires i < |ops| < WRAP && EdgeOf(ops, i).Some?
    ensures a < |ops| && NodeOf(ops, a).id == EdgeOf(ops, i).value.source
    ensures b.Some? ==> b.value < |ops| && NodeOf(ops, b.value).id == EdgeOf(ops, i).value.target
    ensures b.None? ==>
      ops[i].Merge? && Observed(ops, i, ops[i].local) == 0 && EdgeOf(ops, i).value.target == ClockId(ops[i].local, 0)
  {
    if ops[i].Observe? {
      a, b := i - 1, Some(i);
    } else {
      a := i;
      MergeTarget(ops, i);
      var k := Observed(ops, i, ops[i].local);
      if k > 0 {
        var j :| 0 <= j < i && ops[j].Observe? && NodeOf(ops, j).id == ClockId(ops[i].local, k);
        b := Some(j);
      } else {
        b := None;
      }
    }
  }

  /**
    Every edge starts at a recorded node, and ends at a recorded node or at number 0
    of a node that had not been observed yet.
   */
  lemma EdgesAreAnchored(ops: seq<Op>, e: Edge)
    requires |ops| < WRAP && e in EdgesOf(ops, |ops|)
    ensures Recorded(ops, e.source)
    ensures Recorded(ops, e.target)
      || exists i :: 0 <= i < |ops| && ops[i].Merge? && Observed(ops, i, ops[i].local) == 0
                     && e.target == ClockId(ops[i].local, 0)
  {
    EdgesAt(ops, |ops|, e);
    var i :| 0 <= i < |ops| && EdgeOf(ops, i) == Some(e);
    var a, b := EdgeIsAnchored(ops, i);
  }

  /**
    Just after an event is observed, exactly one edge leads to it: from the node that
    precedes it in the list, if there is one.
   */
  lemma OnlyPredecessorLeadsIn(ops: seq<Op>, i: nat, source: Bytes)
    requires i < |ops| < WRAP && ops[i].Observe?
    ensures Edge(source, NodeOf(ops, i).id) in EdgesOf(ops, i + 1)
      <==> i > 0 && source == NodeOf(ops, i - 1).id
  {
    var id := NodeOf(ops, i).id;
    EdgesAt(ops, i + 1, Edge(source, id));
    forall j | 0 <= j < i && EdgeOf(ops, j).Some?
      ensures EdgeOf(ops, j).value.target != id
    {
      match ops[j] {
        case Observe(_, _) => ObservedIdsDistinct(ops, j, i);
        case Merge(_, _, local) => NotYetNamed(ops, j, i, local);
      }
    }
    if i > 0 && source == NodeOf(ops, i - 1).id {
      assert EdgeOf(ops, i) == Some(Edge(source, id));
    }
  }

  /** A merge cannot name an event that is observed only later. */
  lemma NotYetNamed(ops: seq<Op>, j: nat, i: nat, local: Bytes)
    requires j < i < |ops| < WRAP && ops[i].Observe?
    ensures ClockId(local, Observed(ops, j, local) % WRAP) != NodeOf(ops, i).id
  {
    ObservedGrows(ops, j, i, local);
    ObservedGrows(ops, i, i + 1, local);
    SequenceIsCount(ops, i);
    if ClockId(local, Observed(ops, j, local) % WRAP) == NodeOf(ops, i).id {
      ClockIdInjective(local, Observed(ops, j, local) % WRAP, ops[i].node, NodeOf(ops, i).sequence);
    }
  }

  /**
    The receive edge: when the header of a message is merged and the message itself
    observed in direct succession, the edge from the header's clock reading to the
    message's event is the last of the graph.
   */
  lemma ReceiveEdge(ops: seq<Op>, remote: Bytes, s: uint64, node: Bytes, timestamp: uint64)
    ensures
      var all := ops + [Merge(remote, s, node), Observe(node, timestamp)];
      var edges := EdgesOf(all, |all|);
      edges != [] && edges[|edges| - 1] == Edge(ClockId(remote, s), NodeOf(all, |all| - 1).id)
  {
    var all := ops + [Merge(remote, s, node), Observe(node, timestamp)];
    assert EdgeOf(all, |ops| + 1) == Some(Edge(ClockId(remote, s), NodeOf(all, |ops| + 1).id));
  }

  /** The same, read off the engine's fields. */
  lemma ReceiveEdgeTracked(
      ops: seq<Op>, remote: Bytes, s: uint64, node: Bytes, timestamp: uint64,
      seqs: map<Bytes, uint64>, nodes: seq<Node>, edges: seq<Edge>)
    requires Tracks(ops + [Merge(remote, s, node), Observe(node, timestamp)], seqs, nodes, edges)
    ensures nodes != [] && nodes[|nodes| - 1].nodeId == node && nodes[|nodes| - 1].timestamp == timestamp
    ensures edges != [] && edges[|edges| - 1] == Edge(ClockId(remote, s), nodes[|nodes| - 1].id)
  {
    ReceiveEdge(ops, remote, s, node, timestamp);
    var all := ops + [Merge(remote, s, node), Observe(node, timestamp)];
    NodesAt(all, |all|);
    assert all[|all| - 1] == Observe(node, timestamp);
  }

  /** Without merges the graph is one simple path through the events in order. */
  lemma {:induction false} WithoutMergesAPath(ops: seq<Op>, n: nat)
    requires n <= |ops| < WRAP && forall i :: 0 <= i < |ops| ==> ops[i].Observe?
    ensures |EdgesOf(ops, n)| == if n == 0 then 0 else n - 1
    ensures forall i :: 0 <= i < n - 1 ==> EdgesOf(ops, n)[i] == Edge(NodeOf(ops, i).id, NodeOf(ops, i + 1).id)
    ensures forall i, j :: 0 <= i < j < n ==> NodeOf(ops, i).id != NodeOf(ops, j).id
  {
    if n == 0 {
    } else {
      WithoutMergesAPath(ops, n - 1);
      forall i, j | 0 <= i < j < n
        ensures NodeOf(ops, i).id != NodeOf(ops, j).id
      {
        ObservedIdsDistinct(ops, i, j);
      }
    }
  }

  // ---------- cycles ----------

  /** The edge of operation `i` closes a cycle: its target already leads to its source. */
  ghost predicate ClosesCycle(ops: seq<Op>, i: nat)
    requires i < |ops|
  {
    EdgeOf(ops, i).Some? && Leads(EdgesOf(ops, i), EdgeOf(ops, i).value.target, EdgeOf(ops, i).value.source)
  }

  /** An operation leaves the graph without cycles exactly if there were none and it closed none. */
  lemma AcyclicStep(ops: seq<Op>, i: nat)
    requires i < |ops|
    ensures Acyclic(EdgesOf(ops, i + 1)) <==> Acyclic(EdgesOf(ops, i)) && !ClosesCycle(ops, i)
  {
    if EdgeOf(ops, i).Some? {
      AcyclicWithEdge(EdgesOf(ops, i), EdgeOf(ops, i).value);
    } else {
      assert EdgesOf(ops, i + 1) == EdgesOf(ops, i);
    }
  }

  /**
    Whether an operation will close a cycle shows in the graph before it: a merge does
    if the local node's current event leads to the header's reading, an observation if
    the name the event will have leads to the last node of the list.
   */
  lemma ClosesCycleShows(ops: seq<Op>, seqs: map<Bytes, uint64>, nodes: seq<Node>, edges: seq<Edge>, op: Op)
    requires Tracks(ops, seqs, nodes, edges)
    ensures ClosesCycle(ops + [op], |ops|) <==>
      match op
      case Merge(remote, s, local) => Leads(edges, ClockId(local, At0(seqs, local)), ClockId(remote, s))
      case Observe(node, _) =>
        nodes != [] && Leads(edges, ClockId(node, At0(Ticked(seqs, node), node)), nodes[|nodes| - 1].id)
  {
    SameGraph(ops, op, |ops|);
    match op {
      case Merge(_, _, local) => ObservedBefore(ops, op, |ops|, local);
      case Observe(node, timestamp) =>
        CountsNext(ops, op, seqs);
        LastNodeAndEdge(ops, op);
    }
  }

  lemma {:induction false} NothingClosed(ops: seq<Op>, n: nat)
    requires n <= |ops| && forall i :: 0 <= i < n ==> !ClosesCycle(ops, i)
    ensures Acyclic(EdgesOf(ops, n))
  {
    if n == 0 {
      NoEdgesAcyclic();
    } else {
      NothingClosed(ops, n - 1);
      AcyclicStep(ops, n - 1);
    }
  }

  lemma AcyclicBefore(ops: seq<Op>, n: nat)
    requires 0 < n <= |ops| && Acyclic(EdgesOf(ops, n))
    ensures Acyclic(EdgesOf(ops, n - 1))
  {
    AcyclicStep(ops, n - 1);
  }

  lemma {:induction false} AcyclicEarlier(ops: seq<Op>, m: nat, n: nat)
    requires m <= n <= |ops| && Acyclic(EdgesOf(ops, n))
    ensures Acyclic(EdgesOf(ops, m))
    decreases n
  {
    if m < n {
      AcyclicBefore(ops, n);
      AcyclicEarlier(ops, m, n - 1);
    }
  }

  lemma NothingWasClosed(ops: seq<Op>, i: nat)
    requires i < |ops| && Acyclic(EdgesOf(ops, |ops|))
    ensures !ClosesCycle(ops, i)
  {
    AcyclicEarlier(ops, i + 1, |ops|);
    AcyclicStep(ops, i);
  }

  /** Over a whole history: there is no cycle exactly if no operation closed one. */
  lemma HistoryAcyclicIff(ops: seq<Op>)
    ensures Acyclic(EdgesOf(ops, |ops|)) <==> forall i :: 0 <= i < |ops| ==> !ClosesCycle(ops, i)
  {
    if Acyclic(EdgesOf(ops, |ops|)) {
      forall i | 0 <= i < |ops|
        ensures !ClosesCycle(ops, i)
      {
        NothingWasClosed(ops, i);
      }
    } else if forall i :: 0 <= i < |ops| ==> !ClosesCycle(ops, i) {
      NothingClosed(ops, |ops|);
    }
  }

  /** Observing an event whose name no header has announced closes no cycle: only headers can. */
  lemma ObservingClosesNothing(ops: seq<Op>, i: nat)
    requires i < |ops| < WRAP && ops[i].Observe?
    requires forall j :: 0 <= j < i && ops[j].Merge? ==> NodeOf(ops, j).id != NodeOf(ops, i).id
    ensures !ClosesCycle(ops, i)
  {
    if i > 0 {
      var id := NodeOf(ops, i).id;
      forall j | 0 <= j < i
        ensures NodeOf(ops, j).id != id
      {
        if ops[j].Observe? {
          ObservedIdsDistinct(ops, j, i);
        }
      }
      forall e | e in EdgesOf(ops, i)
        ensures e.source != id
      {
        EdgesAt(ops, i, e);
        var j :| 0 <= j < i && EdgeOf(ops, j) == Some(e);
        assert e.source == NodeOf(ops, if ops[j].Observe? then j - 1 else j).id;
      }
      NoWayOn(EdgesOf(ops, i), id, NodeOf(ops, i - 1).id);
    }
  }

  /** One message: `b` acts, its header is merged at `a`, and `a` acts. */
  function Message(a: Bytes, b: Bytes, t: uint64, u: uint64): seq<Op> {
    [Observe(b, t), Merge(b, 1, a), Observe(a, u)]
  }

  lemma MessageEdges(a: Bytes, b: Bytes, t: uint64, u: uint64, op: Op)
    requires a != b
    ensures
      var ops := Message(a, b, t, u) + [op];
      && EdgesOf(ops, 2) == [Edge(ClockId(b, 1), ClockId(a, 0))]
      && EdgesOf(ops, 3) == EdgesOf(ops, 2) + [Edge(ClockId(b, 1), ClockId(a, 1))]
      && Observed(ops, 3, a) == Observed(ops, 3, b) == 1
  {
    var ops := Message(a, b, t, u) + [op];
    assert ops[0] == Observe(b, t) && ops[1] == Merge(b, 1, a) && ops[2] == Observe(a, u);
    assert Observed(ops, 0, a) == Observed(ops, 0, b) == 0;
    assert Observed(ops, 1, a) == Observed(ops, 2, a) == 0 && Observed(ops, 1, b) == Observed(ops, 2, b) == 1;
    assert NodeOf(ops, 0).id == NodeOf(ops, 1).id == ClockId(b, 1);
    assert NodeOf(ops, 2).id == ClockId(a, 1);
    assert EdgesOf(ops, 0) == EdgesOf(ops, 1) == [];
    assert EdgeOf(ops, 1) == Some(Edge(ClockId(b, 1), ClockId(a, 0)));
    assert EdgeOf(ops, 2) == Some(Edge(ClockId(b, 1), ClockId(a, 1)));
  }

  /**
    A message closes no cycle, though its sender is observed here too.  Merging the
    header of the reply does: it points at the event `b` was at when it sent.
   */
  lemma ReplyClosesCycle(a: Bytes, b: Bytes, t: uint64, u: uint64)
    requires a != b
    ensures
      var ops := Message(a, b, t, u) + [Merge(a, 1, b)];
      && Acyclic(EdgesOf(ops, 3)) && !Acyclic(EdgesOf(ops, 4))
      && Edge(ClockId(b, 1), ClockId(a, 1)) in EdgesOf(ops, 4)
      && Edge(ClockId(a, 1), ClockId(b, 1)) in EdgesOf(ops, 4)
  {
    var ops := Message(a, b, t, u) + [Merge(a, 1, b)];
    MessageEdges(a, b, t, u, Merge(a, 1, b));
    var (a0, a1, b1) := (ClockId(a, 0), ClockId(a, 1), ClockId(b, 1));
    if a0 == b1 {
      ClockIdInjective(a, 0, b, 1);
    }
    if a1 == b1 {
      ClockIdInjective(a, 1, b, 1);
    }
    NoEdgesAcyclic();
    AcyclicWithEdge([], Edge(b1, a0));
    NoWayOn([], a0, b1);
    assert [] + [Edge(b1, a0)] == [Edge(b1, a0)];
    NoWayOn(EdgesOf(ops, 2), a1, b1);
    AcyclicWithEdge(EdgesOf(ops, 2), Edge(b1, a1));
    assert EdgeOf(ops, 3) == Some(Edge(a1, b1));
    LeadsNowhere(EdgesOf(ops, 3), a1);
    LeadsOn(EdgesOf(ops, 3), b1, a1, a1);
    AcyclicWithEdge(EdgesOf(ops, 3), Edge(a1, b1));
  }

  /** Two unrelated nodes will do: here each of two events precedes the other. */
  lemma MergeCanCloseACycle(a: Bytes, b: Bytes, t: uint64, u: uint64)
    requires a != b
    ensures
      var ops := [Observe(a, t), Observe(b, u), Merge(b, 1, a)];
      && Edge(ClockId(a, 1), ClockId(b, 1)) in EdgesOf(ops, 3)
      && Edge(ClockId(b, 1), ClockId(a, 1)) in EdgesOf(ops, 3)
  {
    var ops := [Observe(a, t), Observe(b, u), Merge(b, 1, a)];
    assert Observed(ops, 1, a) == Observed(ops, 2, a) == 1;
    assert Observed(ops, 1, b) == 0 && Observed(ops, 2, b) == 1;
    assert EdgeOf(ops, 1) == Some(Edge(ClockId(a, 1), ClockId(b, 1)));
    assert EdgeOf(ops, 2) == Some(Edge(ClockId(b, 1), ClockId(a, 1)));
    assert EdgesOf(ops, 3) == EdgesOf(ops, 2) + [EdgeOf(ops, 2).value];
    assert EdgesOf(ops, 2) == EdgesOf(ops, 1) + [EdgeOf(ops, 1).value];
  }

  /** No node both sends headers here and is observed here, or stands at the local end of a merge. */
  ghost predicate NoEcho(ops: seq<Op>) {
    forall i, j :: 0 <= i < |ops| && 0 <= j < |ops| && ops[i].Merge? ==>
      ops[i].remote != if ops[j].Observe? then ops[j].node else ops[j].local
  }

  ghost predicate IsObserved(ops: seq<Op>, id: Bytes, i: int) {
    0 <= i < |ops| && ops[i].Observe? && NodeOf(ops, i).id == id
  }

  /** Observed events by position, above numbers 0, above readings from elsewhere. */
  ghost function Height(ops: seq<Op>, id: Bytes): int {
    if exists i :: IsObserved(ops, id, i) then
      var i :| IsObserved(ops, id, i); i + 2
    else if Recorded(ops, id) then 0
    else 1
  }

  lemma HeightOfObserved(ops: seq<Op>, i: nat)
    requires i < |ops| < WRAP && ops[i].Observe?
    ensures Height(ops, NodeOf(ops, i).id) == i + 2
  {
    var id := NodeOf(ops, i).id;
    assert IsObserved(ops, id, i);
    forall j | IsObserved(ops, id, j)
      ensures j == i
    {
      if j < i {
        ObservedIdsDistinct(ops, j, i);
      } else if i < j {
        ObservedIdsDistinct(ops, i, j);
      }
    }
  }

  lemma HeightOfMerged(ops: seq<Op>, i: nat)
    requires i < |ops| < WRAP && ops[i].Merge? && NoEcho(ops)
    ensures Height(ops, NodeOf(ops, i).id) == 0
  {
    var id := NodeOf(ops, i).id;
    assert Recorded(ops, id);
    forall j | IsObserved(ops, id, j)
      ensures false
    {
      ClockIdInjective(ops[i].remote, ops[i].s, ops[j].node, NodeOf(ops, j).sequence);
    }
  }

  lemma HeightOfLocal(ops: seq<Op>, i: nat, k: uint64)
    requires i < |ops| < WRAP && ops[i].Merge? && NoEcho(ops)
    ensures Height(ops, ClockId(ops[i].local, k)) >= 1
  {
    var id := ClockId(ops[i].local, k);
    if !(exists j :: IsObserved(ops, id, j)) && Recorded(ops, id) {
      var j :| 0 <= j < |ops| && NodeOf(ops, j).id == id;
      assert !IsObserved(ops, id, j);
      ClockIdInjective(ops[i].local, k, ops[j].remote, ops[j].s);
    }
  }

  /** Without echoes every edge leads upwards. */
  lemma EdgesLeadUp(ops: seq<Op>, e: Edge)
    requires |ops| < WRAP && NoEcho(ops) && e in EdgesOf(ops, |ops|)
    ensures Height(ops, e.source) < Height(ops, e.target)
  {
    EdgesAt(ops, |ops|, e);
    var i :| 0 <= i < |ops| && EdgeOf(ops, i) == Some(e);
    if ops[i].Observe? {
      HeightOfObserved(ops, i);
      if ops[i - 1].Observe? {
        HeightOfObserved(ops, i - 1);
      } else {
        HeightOfMerged(ops, i - 1);
      }
    } else {
      HeightOfMerged(ops, i);
      HeightOfLocal(ops, i, Observed(ops, i, ops[i].local) % WRAP);
    }
  }

  lemma {:induction false} PathsLeadUp(ops: seq<Op>, path: seq<Bytes>)
    requires |ops| < WRAP && NoEcho(ops) && IsPath(EdgesOf(ops, |ops|), path)
    ensures Height(ops, path[0]) + |path| - 1 <= Height(ops, path[|path| - 1])
  {
    if |path| <= 1 {
    } else {
      PathAfterEdge(EdgesOf(ops, |ops|), path);
      EdgesLeadUp(ops, Edge(path[0], path[1]));
      PathsLeadUp(ops, path[1..]);
    }
  }

  /** So without echoes there is no cycle. */
  lemma WithoutEchoesAcyclic(ops: seq<Op>)
    requires |ops| < WRAP && NoEcho(ops)
    ensures Acyclic(EdgesOf(ops, |ops|))
  {
    forall path
      ensures !IsCycle(EdgesOf(ops, |ops|), path)
    {
      if IsCycle(EdgesOf(ops, |ops|), path) {
        PathsLeadUp(ops, path);
      }
    }
  }
}
