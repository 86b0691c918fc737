/** Depth-first ordering of ONNX graph nodes: 3rdparty/onnx-tensorrt/toposort.hpp. */
module Toposort {
  import opened Sequences

  /** The parts of a graph node that ordering and importing look at. */
  datatype Node = Node(op: string, inputs: seq<string>, outputs: seq<string>)

  datatype NodeState = Unvisited | Active | Visited

  // ---------- The graph, independently of any algorithm ----------

  /** Node i reads a name that node j produces. */
  ghost predicate DependsOn(nodes: seq<Node>, i: nat, j: nat) {
    && i < |nodes| && j < |nodes|
    && exists name :: name in nodes[i].inputs && name in nodes[j].outputs
  }

  /** `name` is output number a of node i. */
  ghost predicate Outputs(nodes: seq<Node>, i: nat, a: nat, name: string) {
    i < |nodes| && a < |nodes[i].outputs| && nodes[i].outputs[a] == name
  }

  /** Some output name occurs at two places of the graph. */
  ghost predicate DuplicateOutput(nodes: seq<Node>) {
    exists name, i: nat, a: nat, j: nat, b: nat ::
      Outputs(nodes, i, a, name) && Outputs(nodes, j, b, name) && (i != j || a != b)
  }

  ghost predicate IsPath(nodes: seq<Node>, p: seq<nat>) {
    forall k :: 0 <= k < |p| - 1 ==> DependsOn(nodes, p[k], p[k + 1])
  }

  ghost predicate IsCycle(nodes: seq<Node>, p: seq<nat>) {
    |p| >= 2 && p[0] == p[|p| - 1] && IsPath(nodes, p)
  }

  ghost predicate HasCycle(nodes: seq<Node>) {
    exists p :: IsCycle(nodes, p)
  }

  /** Every element's producers come strictly before it. */
  ghost predicate ProducersFirst(nodes: seq<Node>, order: seq<nat>) {
    forall a, j: nat :: 0 <= a < |order| && DependsOn(nodes, order[a], j) ==> j in order[..a]
  }

  /** Every node index once, producers before consumers. */
  ghost predicate IsTopologicalOrder(nodes: seq<Node>, order: seq<nat>) {
    && Distinct(order)
    && (forall i: nat :: i in order <==> i < |nodes|)
    && ProducersFirst(nodes, order)
  }

  /** The node list itself is in topological order, as section "Graphs" of the ONNX IR specification asks. */
  ghost predicate ListedInOrder(nodes: seq<Node>) {
    forall i: nat, j: nat :: DependsOn(nodes, i, j) ==> j < i
  }

  // ---------- Consequences of a topological order ----------

  lemma {:induction false} PositionsDecreaseAlongPath(nodes: seq<Node>, order: seq<nat>, p: seq<nat>, k: nat)
    requires IsTopologicalOrder(nodes, order) && IsPath(nodes, p)
    requires 1 <= k < |p|
    ensures exists a, b :: 0 <= b < a < |order| && order[a] == p[0] && order[b] == p[k]
  {
    assert DependsOn(nodes, p[k - 1], p[k]);
    if k == 1 {
      assert DependsOn(nodes, p[0], p[1]) && p[0] in order;
      var a :| 0 <= a < |order| && order[a] == p[0];
      assert p[1] in order[..a];
    } else {
      PositionsDecreaseAlongPath(nodes, order, p, k - 1);
      var a, b :| 0 <= b < a < |order| && order[a] == p[0] && order[b] == p[k - 1];
      assert p[k] in order[..b];
    }
  }

  /** A graph that has a topological order has no cycle. */
  lemma TopologicalOrderExcludesCycles(nodes: seq<Node>, order: seq<nat>)
    requires IsTopologicalOrder(nodes, order)
    ensures !HasCycle(nodes)
  {
    forall p | IsCycle(nodes, p) ensures false {
      PositionsDecreaseAlongPath(nodes, order, p, |p| - 1);
    }
  }

  // ---------- The algorithm ----------

  /** `m` sends each output name to the one node that produces it. */
  ghost predicate ProducerMap(nodes: seq<Node>, m: map<string, nat>) {
    && (forall name :: name in m ==> m[name] < |nodes| && name in nodes[m[name]].outputs)
    && (forall j, name :: 0 <= j < |nodes| && name in nodes[j].outputs ==> name in m && m[name] == j)
  }

  ghost function Pending(states: seq<NodeState>): set<nat> {
    set i: nat | i < |states| && states[i] == Unvisited
  }

  /** What the traversal keeps about its two vectors. */
  ghost predicate Inv(nodes: seq<Node>, states: seq<NodeState>, order: seq<nat>) {
    && |states| == |nodes|
    && Distinct(order)
    && (forall i: nat :: i in order <==> i < |states| && states[i] == Visited)
    && ProducersFirst(nodes, order)
  }

  /** The nodes being worked on are exactly the active call chain. */
  ghost predicate ActiveIs(states: seq<NodeState>, chain: seq<nat>) {
    forall i: nat :: i in chain <==> i < |states| && states[i] == Active
  }

  /** All producers of node idx have been visited. */
  ghost predicate Ready(nodes: seq<Node>, states: seq<NodeState>, idx: nat) {
    forall j: nat :: DependsOn(nodes, idx, j) ==> j < |states| && states[j] == Visited
  }

  lemma BeginNode(nodes: seq<Node>, states: seq<NodeState>, order: seq<nat>, chain: seq<nat>, idx: nat)
    requires Inv(nodes, states, order) && ActiveIs(states, chain)
    requires idx < |nodes| && states[idx] == Unvisited
    ensures Inv(nodes, states[idx := Active], order) && ActiveIs(states[idx := Active], chain + [idx])
    ensures Pending(states[idx := Active]) == Pending(states) - {idx} && idx in Pending(states)
  {
  }

  lemma FinishNode(nodes: seq<Node>, states: seq<NodeState>, order: seq<nat>, chain: seq<nat>, idx: nat)
    requires Inv(nodes, states, order) && ActiveIs(states, chain + [idx]) && idx !in chain
    requires idx < |nodes| && Ready(nodes, states, idx)
    ensures Inv(nodes, states[idx := Visited], order + [idx]) && ActiveIs(states[idx := Visited], chain)
    ensures Pending(states[idx := Visited]) == Pending(states)
  {
    assert idx in chain + [idx] && forall i: nat :: i in chain + [idx] <==> i in chain || i == idx;
    var order' := order + [idx];
    forall a, j: nat | 0 <= a < |order'| && DependsOn(nodes, order'[a], j) ensures j in order'[..a] {
      assert order'[..a] == order[..a];
    }
  }

  /** Reaching a node that is already on the active chain closes a genuine cycle. */
  lemma ActiveNodeClosesCycle(nodes: seq<Node>, chain: seq<nat>, k: nat, idx: nat)
    requires IsPath(nodes, chain + [idx]) && k < |chain| && chain[k] == idx
    ensures IsCycle(nodes, chain[k..] + [idx])
  {
    var cycle := chain[k..] + [idx];
    forall m | 0 <= m < |cycle| - 1 ensures DependsOn(nodes, cycle[m], cycle[m + 1]) {
      assert cycle[m] == (chain + [idx])[k + m] && cycle[m + 1] == (chain + [idx])[k + m + 1];
    }
  }

  lemma ExtendPath(nodes: seq<Node>, path: seq<nat>, next: nat)
    requires |path| > 0 && IsPath(nodes, path) && DependsOn(nodes, path[|path| - 1], next)
    ensures IsPath(nodes, path + [next])
  {
  }

  /** Following the producer map through every input reaches every node depended on. */
  lemma InputsCoverProducers(nodes: seq<Node>, m: map<string, nat>, states: seq<NodeState>, idx: nat)
    requires ProducerMap(nodes, m) && |states| == |nodes| && idx < |nodes|
    requires forall k :: 0 <= k < |nodes[idx].inputs| && nodes[idx].inputs[k] in m ==>
                           states[m[nodes[idx].inputs[k]]] == Visited
    ensures Ready(nodes, states, idx)
  {
    forall j: nat | DependsOn(nodes, idx, j) ensures states[j] == Visited {
      var name :| name in nodes[idx].inputs && name in nodes[j].outputs;
      assert m[name] == j;
    }
  }

  /** The three-colour traversal with the two vectors it updates. */
  class PostOrder {
    const nodes: seq<Node>
    const producer: map<string, nat>
    var states: seq<NodeState>
    var order: seq<nat>

    constructor (nodes: seq<Node>, producer: map<string, nat>)
      ensures this.nodes == nodes && this.producer == producer
      ensures Inv(nodes, states, order) && ActiveIs(states, []) && order == []
    {
      this.nodes, this.producer := nodes, producer;
      states, order := seq(|nodes|, _ => Unvisited), [];
    }

    /** `chain` is the ghost stack of callers; a refusal exhibits a cycle through it. */
    method Visit(idx: nat, ghost chain: seq<nat>) returns (ok: bool, ghost cycle: seq<nat>)
      requires ProducerMap(nodes, producer) && Inv(nodes, states, order) && idx < |nodes|
      requires ActiveIs(states, chain) && IsPath(nodes, chain + [idx])
      modifies this
      ensures ok ==> Inv(nodes, states, order) && ActiveIs(states, chain) && states[idx] == Visited
      ensures ok ==> old(order) <= order && Pending(states) <= old(Pending(states))
      ensures !ok ==> IsCycle(nodes, cycle)
      ensures old(states)[idx] == Visited ==> ok && states == old(states) && order == old(order)
      ensures old(states)[idx] == Unvisited && Ready(nodes, old(states), idx) ==> ok && order == old(order) + [idx]
      decreases Pending(states)
    {
      cycle := [];
      if states[idx] == Active {
        ghost var k :| 0 <= k < |chain| && chain[k] == idx;
        ActiveNodeClosesCycle(nodes, chain, k, idx);
        return false, chain[k..] + [idx];
      }
      if states[idx] == Visited {
        return true, cycle;
      }
      BeginNode(nodes, states, order, chain, idx);
      states := states[idx := Active];
      var inputs := nodes[idx].inputs;
      for k := 0 to |inputs|
        invariant Inv(nodes, states, order) && ActiveIs(states, chain + [idx])
        invariant old(order) <= order && Pending(states) <= old(Pending(states)) - {idx}
        invariant forall m :: 0 <= m < k && inputs[m] in producer ==> states[producer[inputs[m]]] == Visited
        invariant Ready(nodes, old(states), idx) ==> order == old(order) && states == old(states)[idx := Active]
      {
        if inputs[k] in producer {
          var next := producer[inputs[k]];
          assert DependsOn(nodes, idx, next);
          ExtendPath(nodes, chain + [idx], next);
          ghost var before := order;
          ok, cycle := Visit(next, chain + [idx]);
          if !ok {
            return;
          }
          assert forall i :: i in before ==> i in order;
        }
      }
      InputsCoverProducers(nodes, producer, states, idx);
      FinishNode(nodes, states, order, chain, idx);
      states := states[idx := Visited];
      order := order + [idx];
      ok := true;
    }
  }

  /** Output a of node j comes before output k of node i. */
  ghost predicate Earlier(j: nat, a: nat, i: nat, k: nat) {
    j < i || (j == i && a < k)
  }

  /** `name` is an output before output k of node i. */
  ghost predicate Met(nodes: seq<Node>, j: nat, a: nat, name: string, i: nat, k: nat) {
    Outputs(nodes, j, a, name) && Earlier(j, a, i, k)
  }

  /** `m` holds, each once, the output names met before output k of node i. */
  ghost predicate Registered(nodes: seq<Node>, m: map<string, nat>, i: nat, k: nat) {
    && (forall j: nat, a: nat, name :: Met(nodes, j, a, name, i, k) ==> name in m && m[name] == j)
    && (forall name :: name in m ==> exists a: nat :: Met(nodes, m[name], a, name, i, k))
    && (forall j: nat, a: nat, j': nat, b: nat, name ::
          Met(nodes, j, a, name, i, k) && Met(nodes, j', b, name, i, k) ==> j == j' && a == b)
  }

  lemma RegisterName(nodes: seq<Node>, m: map<string, nat>, i: nat, k: nat)
    requires Registered(nodes, m, i, k) && i < |nodes| && k < |nodes[i].outputs|
    ensures nodes[i].outputs[k] in m ==> DuplicateOutput(nodes)
    ensures nodes[i].outputs[k] !in m ==> Registered(nodes, m[nodes[i].outputs[k] := i], i, k + 1)
  {
    var name := nodes[i].outputs[k];
    assert Outputs(nodes, i, k, name);
    if name in m {
      var a: nat :| Met(nodes, m[name], a, name, i, k);
    } else {
      var m', k' := m[name := i], k + 1;
      forall j: nat, a: nat, n | Met(nodes, j, a, n, i, k')
        ensures n in m' && m'[n] == j && (n != name || (j == i && a == k))
                && ((j == i && a == k) || Met(nodes, j, a, n, i, k))
      {
        assert (j == i && a == k) || Met(nodes, j, a, n, i, k);
      }
      forall n | n in m' ensures exists a: nat :: Met(nodes, m'[n], a, n, i, k') {
        if n == name {
          assert Met(nodes, i, k, n, i, k');
        } else {
          var a: nat :| Met(nodes, m[n], a, n, i, k);
          assert Met(nodes, m[n], a, n, i, k');
        }
      }
    }
  }

  lemma NextNode(nodes: seq<Node>, m: map<string, nat>, i: nat)
    requires i < |nodes| && Registered(nodes, m, i, |nodes[i].outputs|)
    ensures Registered(nodes, m, i + 1, 0)
  {
    var i' := i + 1;
    forall j: nat, a: nat, name
      ensures Met(nodes, j, a, name, i', 0) <==> Met(nodes, j, a, name, i, |nodes[i].outputs|)
    {
    }
    forall name | name in m ensures exists a: nat :: Met(nodes, m[name], a, name, i', 0) {
      var a: nat :| Met(nodes, m[name], a, name, i, |nodes[i].outputs|);
      assert Met(nodes, m[name], a, name, i', 0);
    }
  }

  lemma RegisteredAll(nodes: seq<Node>, m: map<string, nat>)
    requires Registered(nodes, m, |nodes|, 0)
    ensures ProducerMap(nodes, m) && !DuplicateOutput(nodes)
  {
    forall j: nat, name | j < |nodes| && name in nodes[j].outputs ensures name in m && m[name] == j {
      var a: nat :| a < |nodes[j].outputs| && nodes[j].outputs[a] == name;
      assert Met(nodes, j, a, name, |nodes|, 0);
    }
    forall name, i: nat, a: nat, j: nat, b: nat | Outputs(nodes, i, a, name) && Outputs(nodes, j, b, name)
      ensures i == j && a == b
    {
      assert Met(nodes, i, a, name, |nodes|, 0) && Met(nodes, j, b, name, |nodes|, 0);
    }
  }

  /** Builds the producer map; refuses exactly when an output name is repeated. */
  method BuildProducerMap(nodes: seq<Node>) returns (ok: bool, m: map<string, nat>)
    ensures ok <==> !DuplicateOutput(nodes)
    ensures ok ==> ProducerMap(nodes, m)
  {
    m := map[];
    for i := 0 to |nodes|
      invariant Registered(nodes, m, i, 0)
    {
      for k := 0 to |nodes[i].outputs|
        invariant Registered(nodes, m, i, k)
      {
        RegisterName(nodes, m, i, k);
        if nodes[i].outputs[k] in m {
          return false, m;
        }
        m := m[nodes[i].outputs[k] := i];
      }
      NextNode(nodes, m, i);
    }
    RegisteredAll(nodes, m);
    ok := true;
  }

  /** Succeeds exactly on graphs with unique output names and no cycle, and then orders them. */
  method Sort(nodes: seq<Node>) returns (ok: bool, order: seq<nat>)
    ensures ok <==> !DuplicateOutput(nodes) && !HasCycle(nodes)
    ensures ok ==> IsTopologicalOrder(nodes, order)
    ensures ListedInOrder(nodes) && !DuplicateOutput(nodes) ==> ok && order == Iota(|nodes|)
  {
    order := [];
    var m;
    ok, m := BuildProducerMap(nodes);
    if !ok {
      return;
    }
    var walk := new PostOrder(nodes, m);
    for i := 0 to |nodes|
      invariant walk.nodes == nodes && walk.producer == m
      invariant Inv(nodes, walk.states, walk.order) && ActiveIs(walk.states, [])
      invariant forall j: nat :: j < i ==> j in walk.order
      invariant ListedInOrder(nodes) ==> walk.order == Iota(i)
    {
      ghost var cycle;
      ok, cycle := walk.Visit(i, []);
      if !ok {
        return false, walk.order;
      }
    }
    ok, order := true, walk.order;
    TopologicalOrderExcludesCycles(nodes, order);
  }
}
