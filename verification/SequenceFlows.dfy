/** Sequence flows as a graph, and the nodes from which a join can be reached. */
module SequenceFlows {
  type Node = nat

  datatype Flow = Flow(id: nat, source: Node, target: Node)

  type Graph = seq<Flow>

  /** A walk along sequence flows, taking at least one. */
  ghost predicate IsWalk(graph: Graph, walk: seq<Flow>, from: Node, to: Node) {
    && walk != [] && walk[0] in graph && walk[0].source == from
    && if |walk| == 1 then walk[0].target == to else IsWalk(graph, walk[1..], walk[0].target, to)
  }

  /** A walk to the gateway that does not visit it before. */
  ghost predicate IsRoute(graph: Graph, gateway: Node, route: seq<Flow>, from: Node) {
    IsWalk(graph, route, from, gateway) && forall f <- route :: f.source != gateway
  }

  ghost predicate Precedes(graph: Graph, gateway: Node, n: Node) {
    exists route :: IsRoute(graph, gateway, route, n)
  }

  ghost predicate Acyclic(graph: Graph) {
    forall n, walk :: !IsWalk(graph, walk, n, n)
  }

  /** A flow into the gateway, or to a node that precedes it, leaves a node that precedes it. */
  lemma PrecedesAlong(graph: Graph, gateway: Node, f: Flow)
    requires f in graph && f.source != gateway && (f.target == gateway || Precedes(graph, gateway, f.target))
    ensures Precedes(graph, gateway, f.source)
  {
    if f.target == gateway {
      assert IsRoute(graph, gateway, [f], f.source);
    } else {
      var route :| IsRoute(graph, gateway, route, f.target);
      assert ([f] + route)[1..] == route;
      assert IsRoute(graph, gateway, [f] + route, f.source);
    }
  }

  /** In an acyclic graph no flow out of the gateway leads back to it. */
  lemma NoReturn(graph: Graph, gateway: Node, f: Flow)
    requires Acyclic(graph) && f in graph && f.source == gateway
    ensures f.target != gateway && !Precedes(graph, gateway, f.target)
  {
    if f.target == gateway {
      assert IsWalk(graph, [f], gateway, gateway);
    }
    forall route | IsRoute(graph, gateway, route, f.target) ensures false {
      assert ([f] + route)[1..] == route;
      assert IsWalk(graph, [f] + route, gateway, gateway);
    }
  }

  lemma GatewayDoesNotPrecedeItself(graph: Graph, gateway: Node)
    ensures !Precedes(graph, gateway, gateway)
  {
    forall route: seq<Flow> ensures !IsRoute(graph, gateway, route, gateway) {
      if route != [] {
        assert route[0] in route;
      }
    }
  }

  // ---------- the worklist ----------

  /** Every node with a flow to the given one, other than the gateway, is among the nodes. */
  ghost predicate Expanded(graph: Graph, gateway: Node, nodes: set<Node>, n: Node) {
    forall f <- graph | f.target == n && f.source != gateway :: f.source in nodes
  }

  /** Nodes closed under flows backwards from the gateway are all that precede it. */
  lemma {:induction false} ClosedIsComplete(graph: Graph, gateway: Node, nodes: set<Node>, route: seq<Flow>, from: Node)
    requires forall n | n == gateway || n in nodes :: Expanded(graph, gateway, nodes, n)
    requires IsRoute(graph, gateway, route, from)
    ensures from in nodes
  {
    assert route[0] in route;
    if |route| > 1 {
      assert forall f <- route[1..] :: f in route;
      ClosedIsComplete(graph, gateway, nodes, route[1..], route[0].target);
    }
    assert Expanded(graph, gateway, nodes, route[0].target);
  }

  ghost predicate Leads(graph: Graph, from: Node, to: Node) {
    exists f <- graph :: f.source == from && f.target == to
  }

  function Sources(graph: Graph): set<Node> {
    set f <- graph :: f.source
  }

  /** Adds the nodes with a flow to the current one; those added are still to be expanded. */
  method Expand(graph: Graph, gateway: Node, current: Node, known: set<Node>, stack: seq<Node>)
    returns (nodes: set<Node>, pending: seq<Node>)
    ensures known <= nodes && Expanded(graph, gateway, nodes, current)
    ensures forall n <- nodes :: n in known || (n in pending && n != gateway && Leads(graph, n, current))
    ensures forall n :: n in pending <==> n in stack || (n in nodes && n !in known)
    ensures nodes == known ==> pending == stack
  {
    nodes, pending := known, stack;
    for k := 0 to |graph|
      invariant known <= nodes
      invariant forall f <- graph[..k] | f.target == current && f.source != gateway :: f.source in nodes
      invariant forall n <- nodes :: n in known || (n in pending && n != gateway && Leads(graph, n, current))
      invariant forall n :: n in pending <==> n in stack || (n in nodes && n !in known)
      invariant nodes == known ==> pending == stack
    {
      var f := graph[k];
      assert f in graph;
      if f.target == current && f.source != gateway && f.source !in nodes {
        nodes := nodes + {f.source};
        pending := pending + [f.source];
      }
      assert graph[..k + 1] == graph[..k] + [f];
    }
    assert graph[..|graph|] == graph;
  }

  /** The worklist terminates with exactly the nodes from which the gateway is reached without visiting it before. */
  method FindPredecessors(graph: Graph, gateway: Node) returns (nodes: set<Node>)
    ensures forall n :: n in nodes <==> Precedes(graph, gateway, n)
  {
    nodes := {};
    var pending := [gateway];
    while pending != []
      invariant nodes <= Sources(graph)
      invariant forall n <- nodes :: Precedes(graph, gateway, n)
      invariant forall n <- pending :: n == gateway || n in nodes
      invariant forall n | n == gateway || n in nodes :: n in pending || Expanded(graph, gateway, nodes, n)
      decreases |Sources(graph) - nodes|, |pending|
    {
      var current, rest := pending[|pending| - 1], pending[..|pending| - 1];
      ghost var before := nodes;
      nodes, pending := Expand(graph, gateway, current, nodes, rest);
      forall n <- nodes ensures Precedes(graph, gateway, n) && n in Sources(graph) {
        if n !in before {
          var f :| f in graph && f.source == n && f.target == current;
          PrecedesAlong(graph, gateway, f);
          assert f.source in Sources(graph);
        }
      }
      forall n | n == gateway || n in nodes ensures n in pending || Expanded(graph, gateway, nodes, n) {
        if n in before || n == gateway {
          assert n == current || n in rest || Expanded(graph, gateway, before, n);
        }
      }
      Shrinks(Sources(graph), before, nodes);
    }
    forall n | Precedes(graph, gateway, n) ensures n in nodes {
      var route :| IsRoute(graph, gateway, route, n);
      ClosedIsComplete(graph, gateway, nodes, route, n);
    }
  }

  lemma Shrinks(all: set<Node>, a: set<Node>, b: set<Node>)
    requires a <= b <= all
    ensures |all - b| <= |all - a| && (a != b ==> |all - b| < |all - a|)
  {
    assert all - a == (all - b) + (b - a);
    if a != b {
      var x :| x in b && x !in a;
      assert x in b - a;
    }
  }
}
