/** How far tokens may still advance in an acyclic graph, as a number that every advance decreases. */
module Progress {
  import opened Basics
  import opened Sequences
  import opened SequenceFlows

  // ---------- sums ----------

  ghost function Total<T>(s: seq<T>, weight: T -> nat): nat {
    if s == [] then 0 else weight(s[0]) + Total(s[1..], weight)
  }

  lemma {:induction false} TotalOfConcatenation<T>(a: seq<T>, b: seq<T>, weight: T -> nat)
    ensures Total(a + b, weight) == Total(a, weight) + Total(b, weight)
  {
    if a == [] {
      assert a + b == b;
    } else {
      TotalOfConcatenation(a[1..], b, weight);
      assert (a + b)[1..] == a[1..] + b;
    }
  }

  lemma NoTotal<T>(weight: T -> nat)
    ensures Total([], weight) == 0
  {
  }

  lemma TotalOfAppended<T>(s: seq<T>, x: T, weight: T -> nat)
    ensures Total(s + [x], weight) == Total(s, weight) + weight(x)
  {
    TotalOfConcatenation(s, [x], weight);
    assert Total([x][1..], weight) == 0;
  }

  lemma TotalOfReplaced<T>(s: seq<T>, k: nat, x: T, weight: T -> nat)
    requires k < |s|
    ensures Total(s[k := x], weight) + weight(s[k]) == Total(s, weight) + weight(x)
  {
    hide Total;
    TotalOfRemoved(s, k, weight);
    TotalOfRemoved(s[k := x], k, weight);
    assert s[k := x][..k] + s[k := x][k + 1..] == s[..k] + s[k + 1..];
  }

  lemma TotalOfRemoved<T>(s: seq<T>, k: nat, weight: T -> nat)
    requires k < |s|
    ensures Total(s[..k] + s[k + 1..], weight) + weight(s[k]) == Total(s, weight)
  {
    hide Total;
    assert s == (s[..k] + [s[k]]) + s[k + 1..];
    TotalOfConcatenation(s[..k] + [s[k]], s[k + 1..], weight);
    TotalOfAppended(s[..k], s[k], weight);
    TotalOfConcatenation(s[..k], s[k + 1..], weight);
  }

  /** Some of the elements weigh no more than all. */
  lemma {:induction false} TotalOfSome<T(!new)>(some: seq<T>, all: seq<T>, weight: T -> nat)
    requires Distinct(some) && forall x <- some :: x in all
    ensures Total(some, weight) <= Total(all, weight)
  {
    if some != [] {
      assert some[0] in all;
      var k :| 0 <= k < |all| && all[k] == some[0];
      var others := all[..k] + all[k + 1..];
      forall x <- some[1..] ensures x in others {
        assert x in some && x != some[0] && x in all;
        var i :| 0 <= i < |all| && all[i] == x;
        assert x == if i < k then others[i] else others[i - 1];
      }
      TotalOfSome(some[1..], others, weight);
      TotalOfRemoved(all, k, weight);
    }
  }

  // ---------- the flows a token may still take ----------

  ghost predicate IsAhead(graph: Graph, n: Node, f: Flow) {
    f.source == n || exists walk :: IsWalk(graph, walk, n, f.source)
  }

  ghost function FlowsAhead(graph: Graph, n: Node): set<Flow> {
    set f <- graph | IsAhead(graph, n, f)
  }

  lemma StaysAhead(graph: Graph, f: Flow, g: Flow)
    requires f in graph && IsAhead(graph, f.target, g)
    ensures exists walk :: IsWalk(graph, walk, f.source, g.source)
  {
    if f.target == g.source {
      assert IsWalk(graph, [f], f.source, g.source);
    } else {
      var walk :| IsWalk(graph, walk, f.target, g.source);
      assert ([f] + walk)[1..] == walk;
      assert IsWalk(graph, [f] + walk, f.source, g.source);
    }
  }

  /** In an acyclic graph fewer flows are ahead after each one. */
  lemma FewerAhead(graph: Graph, f: Flow)
    requires Acyclic(graph) && f in graph
    ensures |FlowsAhead(graph, f.target)| < |FlowsAhead(graph, f.source)|
  {
    var before, after := FlowsAhead(graph, f.source), FlowsAhead(graph, f.target);
    forall g <- after ensures g in before {
      StaysAhead(graph, f, g);
    }
    if f in after {
      StaysAhead(graph, f, f);
      assert false;
    }
    assert after <= before - {f};
    Fewer(after, before - {f});
  }

  lemma Fewer<T>(a: set<T>, b: set<T>)
    requires a <= b
    ensures |a| <= |b|
  {
    assert b == a + (b - a);
  }

  /** More than the effort of taking every flow out of the node and advancing at its target. */
  ghost function Effort(graph: Graph, n: Node): (e: nat)
    ensures e >= 2
    decreases |FlowsAhead(graph, n)|, 1
  {
    2 + Total(graph, FlowEffort(graph, n))
  }

  ghost function FlowEffort(graph: Graph, n: Node): Flow -> nat
    decreases |FlowsAhead(graph, n)|, 0
  {
    (f: Flow) =>
      if f.source == n && |FlowsAhead(graph, f.target)| < |FlowsAhead(graph, n)| then 3 + Effort(graph, f.target) else 0
  }

  lemma EffortOfFlow(graph: Graph, f: Flow)
    requires Acyclic(graph) && f in graph
    ensures FlowEffort(graph, f.source)(f) == 3 + Effort(graph, f.target)
  {
    FewerAhead(graph, f);
  }

  /** Departing along some of the flows out of a node takes less effort than being there. */
  lemma EffortOfSome(graph: Graph, n: Node, flows: seq<Flow>)
    requires Distinct(flows) && forall f <- flows :: f in graph
    ensures Total(flows, FlowEffort(graph, n)) + 2 <= Effort(graph, n)
  {
    TotalOfSome(flows, graph, FlowEffort(graph, n));
  }
}
