/** The node loop that turns an ordered graph into named values: 3rdparty/onnx-tensorrt/ModelImporter.cpp. */
module ModelImport {
  import opened Wrappers
  import opened Sequences
  import opened Toposort

  datatype ErrorCode = InvalidGraph | UnsupportedNode | InternalError | OutOfRange | ImporterFailed(code: int)

  datatype Result<+T> = Ok(value: T) | Err(code: ErrorCode)

  /** An op importer: a pure function of the node and its input values. A None output is an ignored one. */
  type Importer<!V> = (Node, seq<V>) -> Result<seq<Option<V>>>

  // ---------- What a graph means ----------

  /** One node, without regard to the rest of the graph. */
  function ImportNode<V>(registry: map<string, Importer<V>>, node: Node, inputs: seq<V>): Result<seq<Option<V>>> {
    if node.op !in registry then Err(UnsupportedNode)
    else match registry[node.op](node, inputs)
      case Err(code) => Err(code)
      case Ok(outputs) => if |outputs| > |node.outputs| then Err(InternalError) else Ok(outputs)
  }

  predicate Resolves<V>(env: map<string, V>, node: Node) {
    forall k :: 0 <= k < |node.inputs| ==> node.inputs[k] in env
  }

  function Lookup<V>(env: map<string, V>, names: seq<string>): (values: seq<V>)
    requires forall k :: 0 <= k < |names| ==> names[k] in env
    ensures |values| == |names| && forall k :: 0 <= k < |names| ==> values[k] == env[names[k]]
  {
    seq(|names|, k requires 0 <= k < |names| => env[names[k]])
  }

  /** The node can be evaluated in `env`: inputs present, importer content, first output present. */
  ghost predicate Runs<V>(registry: map<string, Importer<V>>, env: map<string, V>, node: Node) {
    && Resolves(env, node)
    && var r := ImportNode(registry, node, Lookup(env, node.inputs));
       r.Ok? && (|node.outputs| > 0 ==> |r.value| > 0)
  }

  ghost function Values<V>(registry: map<string, Importer<V>>, env: map<string, V>, node: Node): (r: seq<Option<V>>)
    requires Runs(registry, env, node)
    ensures |r| <= |node.outputs|
  {
    ImportNode(registry, node, Lookup(env, node.inputs)).value
  }

  /** In `env`, output k of the node is a value (not ignored) and is called `name`. */
  ghost predicate Defines<V>(registry: map<string, Importer<V>>, env: map<string, V>, node: Node, k: nat,
                             name: string) {
    && Runs(registry, env, node)
    && k < |Values(registry, env, node)| && node.outputs[k] == name && Values(registry, env, node)[k].Some?
  }

  /** Node i of the graph satisfies its equations in `env`. */
  ghost predicate Satisfied<V>(registry: map<string, Importer<V>>, init: map<string, V>, env: map<string, V>,
                               node: Node) {
    && Runs(registry, env, node)
    && forall k: nat, name :: Defines(registry, env, node, k, name) ==>
         name !in init && name in env && env[name] == Values(registry, env, node)[k].value
  }

  /** `name` is the value of some output of a node in `done`. */
  ghost predicate DefinedBy<V>(registry: map<string, Importer<V>>, nodes: seq<Node>, done: set<nat>,
                               env: map<string, V>, name: string) {
    exists i: nat, k: nat :: i in done && i < |nodes| && Defines(registry, env, nodes[i], k, name)
  }

  /** `env` gives every name its meaning: graph inputs keep their values, every node in `done`
      satisfies its equations, and no other name has a value. */
  ghost predicate SolvesFor<V>(registry: map<string, Importer<V>>, nodes: seq<Node>, done: set<nat>,
                               init: map<string, V>, env: map<string, V>) {
    && Extends(init, env)
    && (forall i: nat :: i in done && i < |nodes| ==> Satisfied(registry, init, env, nodes[i]))
    && (forall name :: name in env ==> name in init || DefinedBy(registry, nodes, done, env, name))
  }

  ghost predicate Extends<V>(small: map<string, V>, large: map<string, V>) {
    forall name :: name in small ==> name in large && large[name] == small[name]
  }

  ghost function Elems(s: seq<nat>): set<nat> {
    set i | i in s
  }

  ghost function AllNodes(nodes: seq<Node>): (all: set<nat>)
    ensures forall i: nat :: i in all <==> i < |nodes|
  {
    Elems(Iota(|nodes|))
  }

  /** The recursive meaning of the whole graph. */
  ghost predicate Solves<V>(registry: map<string, Importer<V>>, nodes: seq<Node>, init: map<string, V>,
                            env: map<string, V>) {
    SolvesFor(registry, nodes, AllNodes(nodes), init, env)
  }

  // ---------- The same meaning in plain terms ----------

  /** The values under the names the node lists as inputs, in that order. */
  ghost predicate AreInputs<V>(env: map<string, V>, node: Node, inputs: seq<V>) {
    && |inputs| == |node.inputs|
    && forall k :: 0 <= k < |inputs| ==> node.inputs[k] in env && inputs[k] == env[node.inputs[k]]
  }

  /** The registered importer, called on these inputs, returns these values, no more than the node has outputs and
      at least the first if it has any. */
  ghost predicate Yields<V>(registry: map<string, Importer<V>>, node: Node, inputs: seq<V>, values: seq<Option<V>>) {
    && node.op in registry && registry[node.op](node, inputs) == Ok(values)
    && |values| <= |node.outputs| && (node.outputs != [] ==> values != [])
  }

  /** Value k is bound in `env` to output name k, which is no graph input, unless it is an ignored one. */
  ghost predicate Binds<V>(init: map<string, V>, env: map<string, V>, node: Node, values: seq<Option<V>>)
    requires |values| <= |node.outputs|
  {
    forall k :: 0 <= k < |values| && values[k].Some? ==>
      node.outputs[k] !in init && node.outputs[k] in env && env[node.outputs[k]] == values[k].value
  }

  /** Every node has been imported from the values of its inputs and its values are bound to its outputs. */
  ghost predicate Imported<V(!new)>(registry: map<string, Importer<V>>, init: map<string, V>, env: map<string, V>,
                                    node: Node) {
    exists inputs: seq<V>, values: seq<Option<V>> ::
      AreInputs(env, node, inputs) && Yields(registry, node, inputs, values) && Binds(init, env, node, values)
  }

  /** `name` is bound to a value that some node has for it. */
  ghost predicate Produced<V(!new)>(registry: map<string, Importer<V>>, nodes: seq<Node>, env: map<string, V>,
                                    name: string) {
    exists i: nat, inputs: seq<V>, values: seq<Option<V>>, k: nat ::
      && i < |nodes| && AreInputs(env, nodes[i], inputs) && Yields(registry, nodes[i], inputs, values)
      && k < |values| && values[k].Some? && nodes[i].outputs[k] == name
  }

  /** What importing a graph means: graph inputs keep their values, every node is imported, nothing else is bound. */
  ghost predicate Meaning<V(!new)>(registry: map<string, Importer<V>>, nodes: seq<Node>, init: map<string, V>,
                                   env: map<string, V>) {
    && (forall name :: name in init ==> name in env && env[name] == init[name])
    && (forall i :: 0 <= i < |nodes| ==> Imported(registry, init, env, nodes[i]))
    && (forall name :: name in env ==> name in init || Produced(registry, nodes, env, name))
  }

  lemma InputsAreLookup<V>(env: map<string, V>, node: Node, inputs: seq<V>)
    ensures AreInputs(env, node, inputs) <==> Resolves(env, node) && inputs == Lookup(env, node.inputs)
  {
  }

  /** A node runs exactly when its importer yields values for its inputs, and those are its values. */
  lemma RunsYields<V>(registry: map<string, Importer<V>>, env: map<string, V>, node: Node, inputs: seq<V>,
                      values: seq<Option<V>>)
    requires AreInputs(env, node, inputs)
    ensures Yields(registry, node, inputs, values) <==>
              Runs(registry, env, node) && Values(registry, env, node) == values
  {
    InputsAreLookup(env, node, inputs);
  }

  lemma ImportedIsSatisfied<V(!new)>(registry: map<string, Importer<V>>, init: map<string, V>, env: map<string, V>,
                                     node: Node)
    ensures Imported(registry, init, env, node) <==> Satisfied(registry, init, env, node)
  {
    if Satisfied(registry, init, env, node) {
      var inputs, values := Lookup(env, node.inputs), Values(registry, env, node);
      RunsYields(registry, env, node, inputs, values);
      forall k: nat | k < |values| && values[k].Some?
        ensures node.outputs[k] !in init && node.outputs[k] in env && env[node.outputs[k]] == values[k].value
      {
        assert Defines(registry, env, node, k, node.outputs[k]);
      }
      assert AreInputs(env, node, inputs) && Binds(init, env, node, values);
    }
    if Imported(registry, init, env, node) {
      var inputs: seq<V>, values: seq<Option<V>> :|
        AreInputs(env, node, inputs) && Yields(registry, node, inputs, values) && Binds(init, env, node, values);
      RunsYields(registry, env, node, inputs, values);
    }
  }

  lemma ProducedIsDefined<V(!new)>(registry: map<string, Importer<V>>, nodes: seq<Node>, env: map<string, V>,
                                   name: string)
    ensures Produced(registry, nodes, env, name) <==> DefinedBy(registry, nodes, AllNodes(nodes), env, name)
  {
    if Produced(registry, nodes, env, name) {
      var i: nat, inputs: seq<V>, values: seq<Option<V>>, k: nat :|
        && i < |nodes| && AreInputs(env, nodes[i], inputs) && Yields(registry, nodes[i], inputs, values)
        && k < |values| && values[k].Some? && nodes[i].outputs[k] == name;
      RunsYields(registry, env, nodes[i], inputs, values);
      assert i in AllNodes(nodes) && Defines(registry, env, nodes[i], k, name);
    }
    if DefinedBy(registry, nodes, AllNodes(nodes), env, name) {
      var i: nat, k: nat :| i in AllNodes(nodes) && i < |nodes| && Defines(registry, env, nodes[i], k, name);
      var inputs, values := Lookup(env, nodes[i].inputs), Values(registry, env, nodes[i]);
      RunsYields(registry, env, nodes[i], inputs, values);
      assert AreInputs(env, nodes[i], inputs) && Yields(registry, nodes[i], inputs, values);
      assert k < |values| && values[k].Some? && nodes[i].outputs[k] == name;
    }
  }

  /** Both ways of saying what a graph means agree. */
  lemma MeaningIsSolution<V(!new)>(registry: map<string, Importer<V>>, nodes: seq<Node>, init: map<string, V>,
                                   env: map<string, V>)
    ensures Meaning(registry, nodes, init, env) <==> Solves(registry, nodes, init, env)
  {
    forall i: nat | i < |nodes|
      ensures Imported(registry, init, env, nodes[i]) <==> Satisfied(registry, init, env, nodes[i])
    {
      ImportedIsSatisfied(registry, init, env, nodes[i]);
    }
    forall name
      ensures Produced(registry, nodes, env, name) <==> DefinedBy(registry, nodes, AllNodes(nodes), env, name)
    {
      ProducedIsDefined(registry, nodes, env, name);
    }
  }

  lemma MeaningsAreSolutions<V(!new)>(registry: map<string, Importer<V>>, nodes: seq<Node>, init: map<string, V>)
    ensures forall env :: Meaning(registry, nodes, init, env) <==> Solves(registry, nodes, init, env)
  {
    forall env ensures Meaning(registry, nodes, init, env) <==> Solves(registry, nodes, init, env) {
      MeaningIsSolution(registry, nodes, init, env);
    }
  }

  // ---------- The meaning is unique and does not depend on the order ----------

  lemma SameInputsSameValues<V>(registry: map<string, Importer<V>>, e1: map<string, V>, e2: map<string, V>, node: Node)
    requires forall k :: 0 <= k < |node.inputs| ==>
               node.inputs[k] in e1 && node.inputs[k] in e2 && e1[node.inputs[k]] == e2[node.inputs[k]]
    ensures Runs(registry, e1, node) <==> Runs(registry, e2, node)
    ensures Runs(registry, e1, node) ==> Values(registry, e1, node) == Values(registry, e2, node)
    ensures forall k: nat, name :: Defines(registry, e1, node, k, name) <==> Defines(registry, e2, node, k, name)
  {
    assert Lookup(e1, node.inputs) == Lookup(e2, node.inputs);
  }

  /** The two environments give the outputs of the first q nodes of the order the same values. */
  ghost predicate AgreeUpTo<V>(nodes: seq<Node>, order: seq<nat>, q: nat, e1: map<string, V>, e2: map<string, V>)
    requires q <= |order|
  {
    forall a, name :: 0 <= a < q && order[a] < |nodes| && name in nodes[order[a]].outputs ==>
      ((name in e1 <==> name in e2) && (name in e1 ==> e1[name] == e2[name]))
  }

  /** Inputs of the next node agree, because their producers come earlier. */
  lemma NextInputsAgree<V>(registry: map<string, Importer<V>>, nodes: seq<Node>, order: seq<nat>, q: nat,
                           done: set<nat>, init: map<string, V>, e1: map<string, V>, e2: map<string, V>)
    requires IsTopologicalOrder(nodes, order) && q < |order| && order[q] < |nodes|
    requires Extends(init, e1) && SolvesFor(registry, nodes, done, init, e2)
    requires AgreeUpTo(nodes, order, q, e1, e2) && Resolves(e2, nodes[order[q]])
    ensures forall k :: 0 <= k < |nodes[order[q]].inputs| ==>
              var name := nodes[order[q]].inputs[k];
              name in e1 && name in e2 && e1[name] == e2[name]
  {
    var i := order[q];
    assert i in order;
    forall k | 0 <= k < |nodes[i].inputs| ensures
      var name := nodes[i].inputs[k];
      name in e1 && name in e2 && e1[name] == e2[name]
    {
      var name := nodes[i].inputs[k];
      if name !in init {
        var j: nat, a: nat :| j in done && j < |nodes| && Defines(registry, e2, nodes[j], a, name);
        assert name in nodes[i].inputs && name in nodes[j].outputs;
        assert DependsOn(nodes, i, j);
        var b :| 0 <= b < q && order[b] == j;
      }
    }
  }

  /** Output names of a node can only be given values by that node. */
  lemma OnlyProducerDefines<V>(registry: map<string, Importer<V>>, nodes: seq<Node>, done: set<nat>,
                               init: map<string, V>, env: map<string, V>, i: nat, name: string)
    requires !DuplicateOutput(nodes) && SolvesFor(registry, nodes, done, init, env)
    requires i < |nodes| && name in nodes[i].outputs && name in env && name !in init
    ensures i in done && exists k: nat :: Defines(registry, env, nodes[i], k, name)
  {
    var j: nat, k: nat :| j in done && j < |nodes| && Defines(registry, env, nodes[j], k, name);
    var a: nat :| a < |nodes[i].outputs| && nodes[i].outputs[a] == name;
    assert Outputs(nodes, i, a, name) && Outputs(nodes, j, k, name);
  }

  lemma {:induction false} PrefixesAgree<V>(
    registry: map<string, Importer<V>>, nodes: seq<Node>, order: seq<nat>, q: nat,
    d1: set<nat>, d2: set<nat>, init: map<string, V>, e1: map<string, V>, e2: map<string, V>)
    requires IsTopologicalOrder(nodes, order) && !DuplicateOutput(nodes) && q <= |order|
    requires forall a :: 0 <= a < q ==> order[a] in d1 && order[a] in d2
    requires SolvesFor(registry, nodes, d1, init, e1) && SolvesFor(registry, nodes, d2, init, e2)
    ensures AgreeUpTo(nodes, order, q, e1, e2)
    decreases q
  {
    if q > 0 {
      PrefixesAgree(registry, nodes, order, q - 1, d1, d2, init, e1, e2);
      var i := order[q - 1];
      assert i in order;
      assert Satisfied(registry, init, e1, nodes[i]) && Satisfied(registry, init, e2, nodes[i]);
      NextInputsAgree(registry, nodes, order, q - 1, d2, init, e1, e2);
      SameInputsSameValues(registry, e1, e2, nodes[i]);
      forall name | name in nodes[i].outputs
        ensures (name in e1 <==> name in e2) && (name in e1 ==> e1[name] == e2[name])
      {
        if name !in init && name in e1 {
          OnlyProducerDefines(registry, nodes, d1, init, e1, i, name);
        }
        if name !in init && name in e2 {
          OnlyProducerDefines(registry, nodes, d2, init, e2, i, name);
        }
      }
    }
  }

  /** A graph with an order has at most one meaning, whatever order computed it. */
  lemma MeaningIsUnique<V>(registry: map<string, Importer<V>>, nodes: seq<Node>, order: seq<nat>,
                           init: map<string, V>, e1: map<string, V>, e2: map<string, V>)
    requires IsTopologicalOrder(nodes, order) && !DuplicateOutput(nodes)
    requires Solves(registry, nodes, init, e1) && Solves(registry, nodes, init, e2)
    ensures e1 == e2
  {
    OrderAgrees(registry, nodes, order, init, e1, e2);
    NamesShared(registry, nodes, order, init, e1, e2);
    OrderAgrees(registry, nodes, order, init, e2, e1);
    NamesShared(registry, nodes, order, init, e2, e1);
    BothWays(e1, e2);
  }

  lemma BothWays<V>(e1: map<string, V>, e2: map<string, V>)
    requires Extends(e1, e2) && Extends(e2, e1)
    ensures e1 == e2
  {
    assert e1.Keys == e2.Keys;
  }

  lemma OrderAgrees<V>(registry: map<string, Importer<V>>, nodes: seq<Node>, order: seq<nat>,
                       init: map<string, V>, e1: map<string, V>, e2: map<string, V>)
    requires IsTopologicalOrder(nodes, order) && !DuplicateOutput(nodes)
    requires Solves(registry, nodes, init, e1) && Solves(registry, nodes, init, e2)
    ensures AgreeUpTo(nodes, order, |order|, e1, e2)
  {
    var all := AllNodes(nodes);
    assert forall a :: 0 <= a < |order| ==> order[a] in order;
    PrefixesAgree(registry, nodes, order, |order|, all, all, init, e1, e2);
  }

  lemma NamesShared<V>(registry: map<string, Importer<V>>, nodes: seq<Node>, order: seq<nat>,
                       init: map<string, V>, e1: map<string, V>, e2: map<string, V>)
    requires IsTopologicalOrder(nodes, order) && Solves(registry, nodes, init, e1) && Extends(init, e2)
    requires AgreeUpTo(nodes, order, |order|, e1, e2)
    ensures Extends(e1, e2)
  {
    forall name | name in e1 ensures name in e2 && e2[name] == e1[name] {
      SharedName(registry, nodes, order, init, e1, e2, name);
    }
  }

  lemma SharedName<V>(registry: map<string, Importer<V>>, nodes: seq<Node>, order: seq<nat>,
                      init: map<string, V>, e1: map<string, V>, e2: map<string, V>, name: string)
    requires IsTopologicalOrder(nodes, order) && Solves(registry, nodes, init, e1) && Extends(init, e2)
    requires AgreeUpTo(nodes, order, |order|, e1, e2) && name in e1
    ensures name in e2 && e1[name] == e2[name]
  {
    if name !in init {
      var i: nat, k: nat :| i in AllNodes(nodes) && i < |nodes| && Defines(registry, e1, nodes[i], k, name);
      assert i in order && name in nodes[i].outputs;
      var a :| 0 <= a < |order| && order[a] == i;
    }
  }

  // ---------- Running one more node ----------

  /** `env'` is `env` with the values of one more node added under fresh names. */
  ghost predicate Adds<V>(registry: map<string, Importer<V>>, env: map<string, V>, node: Node, count: nat,
                          env': map<string, V>)
    requires Runs(registry, env, node) && count <= |Values(registry, env, node)|
  {
    var values := Values(registry, env, node);
    && Extends(env, env')
    && (forall k :: 0 <= k < count && values[k].Some? ==>
          node.outputs[k] !in env && node.outputs[k] in env' && env'[node.outputs[k]] == values[k].value)
    && (forall name :: name in env' ==>
          name in env || exists k :: 0 <= k < count && values[k].Some? && node.outputs[k] == name)
  }

  lemma ExtensionKeepsValues<V>(registry: map<string, Importer<V>>, env: map<string, V>, env': map<string, V>,
                                node: Node)
    requires Runs(registry, env, node) && Extends(env, env')
    ensures Runs(registry, env', node) && Values(registry, env', node) == Values(registry, env, node)
    ensures forall k: nat, name :: Defines(registry, env, node, k, name) <==> Defines(registry, env', node, k, name)
  {
    SameInputsSameValues(registry, env, env', node);
  }

  /** Adding the values of a node that runs solves the graph for one more node. */
  lemma RunNode<V>(registry: map<string, Importer<V>>, nodes: seq<Node>, done: set<nat>, i: nat,
                   init: map<string, V>, env: map<string, V>, env': map<string, V>)
    requires SolvesFor(registry, nodes, done, init, env) && i < |nodes|
    requires Runs(registry, env, nodes[i])
    requires Adds(registry, env, nodes[i], |Values(registry, env, nodes[i])|, env')
    ensures SolvesFor(registry, nodes, done + {i}, init, env')
  {
    forall j: nat | j in done + {i} && j < |nodes| ensures Satisfied(registry, init, env', nodes[j]) {
      ExtensionKeepsValues(registry, env, env', nodes[j]);
    }
    forall name | name in env' && name !in init ensures DefinedBy(registry, nodes, done + {i}, env', name) {
      if name in env {
        var j: nat, k: nat :| j in done && j < |nodes| && Defines(registry, env, nodes[j], k, name);
        ExtensionKeepsValues(registry, env, env', nodes[j]);
        assert Defines(registry, env', nodes[j], k, name);
      } else {
        var values := Values(registry, env, nodes[i]);
        var k: nat :| k < |values| && values[k].Some? && nodes[i].outputs[k] == name;
        assert Defines(registry, env, nodes[i], k, name);
        ExtensionKeepsValues(registry, env, env', nodes[i]);
        assert Defines(registry, env', nodes[i], k, name);
      }
    }
  }

  /** If the graph has a meaning at all, the next node of the order runs and clashes with no graph input. */
  lemma MeaningForcesNode<V>(registry: map<string, Importer<V>>, nodes: seq<Node>, order: seq<nat>, q: nat,
                             init: map<string, V>, env: map<string, V>, meaning: map<string, V>)
    requires IsTopologicalOrder(nodes, order) && !DuplicateOutput(nodes) && q < |order| && order[q] < |nodes|
    requires SolvesFor(registry, nodes, Elems(order[..q]), init, env) && Solves(registry, nodes, init, meaning)
    ensures Runs(registry, env, nodes[order[q]])
    ensures forall k: nat, name :: Defines(registry, env, nodes[order[q]], k, name) ==> name !in init
  {
    var i := order[q];
    assert forall a :: 0 <= a < q ==> order[a] in order[..q] && order[a] in order;
    PrefixesAgree(registry, nodes, order, q, Elems(order[..q]), AllNodes(nodes), init, env, meaning);
    assert i in AllNodes(nodes) && Satisfied(registry, init, meaning, nodes[i]);
    NextInputsAgree(registry, nodes, order, q, AllNodes(nodes), init, env, meaning);
    SameInputsSameValues(registry, env, meaning, nodes[i]);
  }

  /** A name already bound that is also an output of a node not yet run is a graph input. */
  lemma ClashIsWithInput<V>(registry: map<string, Importer<V>>, nodes: seq<Node>, done: set<nat>, i: nat,
                            init: map<string, V>, env: map<string, V>, name: string)
    requires !DuplicateOutput(nodes) && SolvesFor(registry, nodes, done, init, env)
    requires i < |nodes| && i !in done && name in nodes[i].outputs && name in env
    ensures name in init
  {
    if name !in init {
      OnlyProducerDefines(registry, nodes, done, init, env, i, name);
    }
  }

  // ---------- A sufficient condition a caller can check ----------

  /** Inputs resolve inside the graph, graph inputs are not redefined, importers return every output. */
  ghost predicate Complete<V(!new)>(registry: map<string, Importer<V>>, nodes: seq<Node>, init: map<string, V>) {
    && (forall j: nat, a: nat, name :: Outputs(nodes, j, a, name) ==> name !in init)
    && (forall i, name :: 0 <= i < |nodes| && name in nodes[i].inputs ==>
          (name in init || exists j: nat, a: nat :: Outputs(nodes, j, a, name)))
    && (forall i, inputs: seq<V> :: 0 <= i < |nodes| && |inputs| == |nodes[i].inputs| ==>
          var r := ImportNode(registry, nodes[i], inputs);
          r.Ok? && |r.value| == |nodes[i].outputs| && forall k :: 0 <= k < |r.value| ==> r.value[k].Some?)
  }

  /** In a complete graph the next node of the order always runs. */
  lemma CompleteNodeRuns<V(!new)>(registry: map<string, Importer<V>>, nodes: seq<Node>, order: seq<nat>, q: nat,
                            init: map<string, V>, env: map<string, V>)
    requires IsTopologicalOrder(nodes, order) && q < |order| && order[q] < |nodes|
    requires SolvesFor(registry, nodes, Elems(order[..q]), init, env) && Complete(registry, nodes, init)
    ensures Runs(registry, env, nodes[order[q]])
    ensures forall name :: name in nodes[order[q]].outputs ==> name !in init
  {
    var i := order[q];
    forall name | name in nodes[i].inputs ensures name in env {
      if name !in init {
        var j: nat, a: nat :| Outputs(nodes, j, a, name);
        assert DependsOn(nodes, i, j) && j in order[..q];
        assert Satisfied(registry, init, env, nodes[j]);
        assert Defines(registry, env, nodes[j], a, name);
      }
    }
    forall name | name in nodes[i].outputs ensures name !in init {
      var a: nat :| a < |nodes[i].outputs| && nodes[i].outputs[a] == name;
      assert Outputs(nodes, i, a, name);
    }
  }

  // ---------- The import loop ----------

  /** Why node i, run in `env`, makes the import fail with `code`. */
  ghost predicate FailsWith<V>(registry: map<string, Importer<V>>, init: map<string, V>, env: map<string, V>,
                               node: Node, code: ErrorCode) {
    if !Resolves(env, node) then code == InvalidGraph
    else RefusedWith(registry, init, node, Lookup(env, node.inputs), code)
  }

  /** The node cannot be imported from these inputs: no importer, an importer that fails or returns too many values,
      a value for a graph input, or no value for the first output. */
  ghost predicate RefusedWith<V>(registry: map<string, Importer<V>>, init: map<string, V>, node: Node, inputs: seq<V>,
                                 code: ErrorCode) {
    if node.op !in registry then code == UnsupportedNode
    else match registry[node.op](node, inputs)
      case Err(c) => code == c
      case Ok(values) =>
        if |values| > |node.outputs| then code == InternalError
        else if exists k :: 0 <= k < |values| && values[k].Some? && node.outputs[k] in init then code == InvalidGraph
        else code == OutOfRange && node.outputs != [] && values == []
  }

  /** Node `i` is where the run in this order stops: everything before it has its meaning. */
  ghost predicate StopsAt<V(!new)>(registry: map<string, Importer<V>>, nodes: seq<Node>, order: seq<nat>,
                                   init: map<string, V>, i: int, code: ErrorCode) {
    exists q: nat, env: map<string, V> ::
      && q < |order| && order[q] == i && i < |nodes|
      && SolvesFor(registry, nodes, Elems(order[..q]), init, env)
      && FailsWith(registry, init, env, nodes[i], code)
  }

  /** A node that fails in the meaning of its predecessors leaves the graph without a meaning. */
  lemma FailureIsFinal<V(!new)>(registry: map<string, Importer<V>>, nodes: seq<Node>, order: seq<nat>, q: nat,
                                init: map<string, V>, env: map<string, V>, code: ErrorCode)
    requires IsTopologicalOrder(nodes, order) && !DuplicateOutput(nodes) && q < |order| && order[q] < |nodes|
    requires SolvesFor(registry, nodes, Elems(order[..q]), init, env)
    requires FailsWith(registry, init, env, nodes[order[q]], code)
    ensures StopsAt(registry, nodes, order, init, order[q], code)
    ensures !Complete(registry, nodes, init)
    ensures forall meaning :: !Solves(registry, nodes, init, meaning)
  {
    var node := nodes[order[q]];
    assert Runs(registry, env, node) ==>
        exists k: nat, name :: Defines(registry, env, node, k, name) && name in init by {
      if Runs(registry, env, node) {
        var values := Values(registry, env, node);
        var k: nat :| k < |values| && values[k].Some? && node.outputs[k] in init;
        assert Defines(registry, env, node, k, node.outputs[k]);
      }
    }
    forall meaning | Solves(registry, nodes, init, meaning) ensures false {
      MeaningForcesNode(registry, nodes, order, q, init, env, meaning);
    }
    if Complete(registry, nodes, init) {
      CompleteNodeRuns(registry, nodes, order, q, init, env);
    }
  }

  /** Once every node of the order has run, the bindings are the one meaning of the graph. */
  lemma OrderDone<V(!new)>(registry: map<string, Importer<V>>, nodes: seq<Node>, order: seq<nat>, init: map<string, V>,
                           tensors: map<string, V>)
    requires IsTopologicalOrder(nodes, order) && !DuplicateOutput(nodes)
    requires SolvesFor(registry, nodes, Elems(order), init, tensors)
    ensures Solves(registry, nodes, init, tensors)
    ensures forall env :: Solves(registry, nodes, init, env) <==> env == tensors
  {
    assert Elems(order) == AllNodes(nodes);
    forall env | Solves(registry, nodes, init, env) ensures env == tensors {
      MeaningIsUnique(registry, nodes, order, init, env, tensors);
    }
  }

  lemma OneMoreDone(order: seq<nat>, q: nat)
    requires q < |order|
    ensures Elems(order[..q]) + {order[q]} == Elems(order[..q + 1])
  {
  }

  lemma OutputsOfNodeDistinct(nodes: seq<Node>, i: nat)
    requires !DuplicateOutput(nodes) && i < |nodes|
    ensures Distinct(nodes[i].outputs)
  {
    forall a: nat, b: nat | a < b < |nodes[i].outputs| ensures nodes[i].outputs[a] != nodes[i].outputs[b] {
      assert Outputs(nodes, i, a, nodes[i].outputs[a]) && Outputs(nodes, i, b, nodes[i].outputs[b]);
    }
  }

  class ModelImporter<V(!new)> {
    const registry: map<string, Importer<V>>
    var currentNode: int

    constructor (registry: map<string, Importer<V>>)
      ensures this.registry == registry && currentNode == -1
    {
      this.registry, currentNode := registry, -1;
    }

    /** Looks the inputs of one node up, as far as they are bound. */
    method GatherInputs(tensors: map<string, V>, node: Node) returns (found: bool, inputs: seq<V>)
      ensures found <==> forall name :: name in node.inputs ==> name in tensors
      ensures found ==> AreInputs(tensors, node, inputs)
    {
      inputs := [];
      for k := 0 to |node.inputs|
        invariant |inputs| == k
        invariant forall m :: 0 <= m < k ==> node.inputs[m] in tensors && inputs[m] == tensors[node.inputs[m]]
      {
        if node.inputs[k] !in tensors {
          return false, inputs;
        }
        inputs := inputs + [tensors[node.inputs[k]]];
      }
      found := true;
    }

    /** Binds the node's values; refuses exactly when one of their names is bound already. */
    method BindOutputs(tensors: map<string, V>, node: Node, values: seq<Option<V>>)
      returns (ok: bool, bound: map<string, V>)
      requires Runs(registry, tensors, node) && values == Values(registry, tensors, node)
      requires Distinct(node.outputs)
      ensures ok ==> Adds(registry, tensors, node, |values|, bound)
      ensures !ok <==> exists k :: 0 <= k < |values| && values[k].Some? && node.outputs[k] in tensors
    {
      bound := tensors;
      for k := 0 to |values|
        invariant Adds(registry, tensors, node, k, bound)
      {
        if values[k].Some? {
          if node.outputs[k] in bound {
            return false, bound;
          }
          bound := bound[node.outputs[k] := values[k].value];
        }
      }
      ok := true;
    }

    /** One iteration of the import loop: node number q of the order. */
    method ImportOne(nodes: seq<Node>, order: seq<nat>, q: nat, init: map<string, V>, tensors: map<string, V>)
      returns (r: Result<map<string, V>>)
      requires IsTopologicalOrder(nodes, order) && !DuplicateOutput(nodes) && q < |order| && order[q] < |nodes|
      requires SolvesFor(registry, nodes, Elems(order[..q]), init, tensors)
      ensures r.Ok? ==> SolvesFor(registry, nodes, Elems(order[..q]) + {order[q]}, init, r.value)
      ensures r.Err? ==> FailsWith(registry, init, tensors, nodes[order[q]], r.code)
    {
      var node := nodes[order[q]];
      var found, inputs := GatherInputs(tensors, node);
      if !found {
        return Err(InvalidGraph);
      }
      InputsAreLookup(tensors, node, inputs);
      match ImportNode(registry, node, inputs) {
        case Err(code) =>
          return Err(code);
        case Ok(values) =>
          // With no values there is nothing to bind, so the later outputs.at(0) is what throws.
          if |node.outputs| > 0 && |values| == 0 {
            return Err(OutOfRange);
          }
          OutputsOfNodeDistinct(nodes, order[q]);
          var ok, bound := BindOutputs(tensors, node, values);
          if !ok {
            ghost var k :| 0 <= k < |values| && values[k].Some? && node.outputs[k] in tensors;
            ClashIsWithInput(registry, nodes, Elems(order[..q]), order[q], init, tensors, node.outputs[k]);
            return Err(InvalidGraph);
          }
          RunNode(registry, nodes, Elems(order[..q]), order[q], init, tensors, bound);
          r := Ok(bound);
      }
    }

    /** Succeeds exactly on sortable graphs that have a meaning, and then returns that meaning. `order` is the order
        in which the nodes were taken. */
    method ImportNodes(nodes: seq<Node>, init: map<string, V>)
      returns (r: Result<map<string, V>>, ghost order: seq<nat>)
      modifies `currentNode
      ensures r.Ok? <==>
              !DuplicateOutput(nodes) && !HasCycle(nodes) && exists env :: Meaning(registry, nodes, init, env)
      ensures r.Ok? ==> currentNode == -1 && forall env :: Meaning(registry, nodes, init, env) <==> env == r.value
      ensures DuplicateOutput(nodes) || HasCycle(nodes) ==> r == Err(InvalidGraph) && currentNode == old(currentNode)
      ensures !DuplicateOutput(nodes) && !HasCycle(nodes) ==> IsTopologicalOrder(nodes, order)
      ensures r.Err? && !DuplicateOutput(nodes) && !HasCycle(nodes) ==>
                StopsAt(registry, nodes, order, init, currentNode, r.code)
      ensures !DuplicateOutput(nodes) && !HasCycle(nodes) && Complete(registry, nodes, init) ==> r.Ok?
    {
      var sorted, list := Sort(nodes);
      order := list;
      if !sorted {
        return Err(InvalidGraph), order;
      }
      MeaningsAreSolutions(registry, nodes, init);
      var tensors := init;
      for q := 0 to |list|
        invariant SolvesFor(registry, nodes, Elems(list[..q]), init, tensors)
      {
        assert list[q] in list;
        currentNode := list[q];
        r := ImportOne(nodes, list, q, init, tensors);
        if r.Err? {
          FailureIsFinal(registry, nodes, list, q, init, tensors, r.code);
          return;
        }
        OneMoreDone(list, q);
        tensors := r.value;
      }
      currentNode := -1;
      assert list[..|list|] == list;
      OrderDone(registry, nodes, list, init, tensors);
      r := Ok(tensors);
    }
  }
}
