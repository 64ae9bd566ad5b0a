/**
 What a cached evaluation may depend on, the lists in which the cache finds it again when that changes, and the order of
 the candidates it yields.
 */
module Caching {
  import opened Basics
  import opened Sequences

  datatype Attribute = Attribute(id: nat, isGlobal: bool)

  /** Where an attribute is stored: once for all instances, or once for each. */
  datatype Cell = GlobalCell(attribute: Attribute) | InstanceCell(attribute: Attribute, instance: nat)

  type Data = Cell -> Value

  /** A decision together with the request it answers and what its evaluation is declared to depend on. */
  datatype Decision =
    Decision(request: nat, instance: nat, inSequential: bool, timeDependent: bool, dependencies: set<Attribute>)

  /** The reward of a decision at a time, or none if the decision is infeasible. */
  type Evaluator = (Decision, int, Data) -> Option<int>

  /** An announced write: the attributes it names, and the instance whose values they are unless they are global. */
  datatype DataUpdate = DataUpdate(instance: nat, attributes: seq<Attribute>)

  function CellOf(a: Attribute, instance: nat): Cell {
    if a.isGlobal then GlobalCell(a) else InstanceCell(a, instance)
  }

  // ---------- what evaluations depend on ----------

  ghost predicate Agree(d: Decision, s: Data, t: Data) {
    forall a <- d.dependencies :: s(CellOf(a, d.instance)) == t(CellOf(a, d.instance))
  }

  /** The evaluator depends on the time only if the decision says so, and on no data but its dependencies. */
  ghost predicate Declared(evaluate: Evaluator) {
    forall d: Decision, t: int, u: int, s: Data, r: Data |
      (d.timeDependent ==> t == u) && Agree(d, s, r) :: evaluate(d, t, s) == evaluate(d, u, r)
  }

  /** Every changed cell belongs to an attribute the update names. */
  ghost predicate Announced(update: DataUpdate, before: Data, after: Data) {
    forall c: Cell | before(c) != after(c) :: exists a <- update.attributes :: c == CellOf(a, update.instance)
  }

  predicate Intersect(attributes: seq<Attribute>, dependencies: set<Attribute>) {
    exists a <- attributes :: a in dependencies
  }

  function Globals(attributes: seq<Attribute>): (globals: seq<Attribute>)
    ensures forall a :: a in globals <==> a in attributes && a.isGlobal
  {
    if attributes == [] then []
    else if attributes[0].isGlobal then [attributes[0]] + Globals(attributes[1..])
    else Globals(attributes[1..])
  }

  /** The update may change the evaluation of the decision. */
  predicate Affects(update: DataUpdate, d: Decision) {
    Intersect(if d.instance == update.instance then update.attributes else Globals(update.attributes), d.dependencies)
  }

  lemma UnaffectedAgree(update: DataUpdate, before: Data, after: Data, d: Decision)
    requires Announced(update, before, after) && !Affects(update, d)
    ensures Agree(d, before, after)
  {
    forall a <- d.dependencies ensures before(CellOf(a, d.instance)) == after(CellOf(a, d.instance)) {
      var written := if d.instance == update.instance then update.attributes else Globals(update.attributes);
      assert a !in written;
    }
  }

  // ---------- lists ----------

  /** The decisions of a list that are live and to be evaluated anew once the attributes are written. */
  function Obsolete(list: seq<Decision>, live: set<Decision>, attributes: seq<Attribute>): seq<Decision>
  {
    if list == [] then []
    else
      Obsolete(ButLast(list), live, attributes)
      + (if Last(list) in live && Intersect(attributes, Last(list).dependencies) then [Last(list)] else [])
  }

  /** The other live decisions of a list. */
  function Retained(list: seq<Decision>, live: set<Decision>, attributes: seq<Attribute>): seq<Decision>
  {
    if list == [] then []
    else
      Retained(ButLast(list), live, attributes)
      + (if Last(list) in live && !Intersect(attributes, Last(list).dependencies) then [Last(list)] else [])
  }

  function Live(list: seq<Decision>, live: set<Decision>): seq<Decision>
  {
    if list == [] then []
    else Live(ButLast(list), live) + (if Last(list) in live then [Last(list)] else [])
  }

  lemma {:induction false} ObsoleteExactly(list: seq<Decision>, live: set<Decision>, attributes: seq<Attribute>)
    requires Distinct(list)
    ensures Distinct(Obsolete(list, live, attributes)) && Distinct(Retained(list, live, attributes))
    ensures forall d :: d in Obsolete(list, live, attributes)
                   <==> d in list && d in live && Intersect(attributes, d.dependencies)
    ensures forall d :: d in Retained(list, live, attributes)
                   <==> d in list && d in live && !Intersect(attributes, d.dependencies)
  {
    if list != [] {
      ObsoleteExactly(ButLast(list), live, attributes);
      assert list == ButLast(list) + [Last(list)];
    }
  }

  lemma {:induction false} LiveExactly(list: seq<Decision>, live: set<Decision>)
    requires Distinct(list)
    ensures Distinct(Live(list, live))
    ensures forall d :: d in Live(list, live) <==> d in list && d in live
  {
    if list != [] {
      LiveExactly(ButLast(list), live);
      assert list == ButLast(list) + [Last(list)];
    }
  }

  /** Evaluated decisions by instance: the list of an instance is found by its position. */
  datatype InstanceEvaluations = InstanceEvaluations(lists: seq<seq<Decision>>, positions: map<nat, nat>) {
    ghost predicate Valid() {
      && (forall i <- positions :: positions[i] < |lists|)
      && (forall i <- positions, j <- positions :: positions[i] == positions[j] ==> i == j)
      && (forall p | 0 <= p < |lists| :: Distinct(lists[p]))
      && forall p, d | 0 <= p < |lists| && d in lists[p] :: d.instance in positions && positions[d.instance] == p
    }

    ghost predicate Has(d: Decision) {
      exists p :: 0 <= p < |lists| && d in lists[p]
    }

    /** The decision is appended to the list of its instance, which is created if need be. */
    function Add(d: Decision): (r: InstanceEvaluations)
      requires forall i <- positions :: positions[i] < |lists|
    {
      if d.instance in positions then
        var p := positions[d.instance];
        InstanceEvaluations(lists[p := lists[p] + [d]], positions)
      else
        InstanceEvaluations(lists + [[d]], positions[d.instance := |lists|])
    }

    lemma AddHas(d: Decision)
      requires Valid() && !Has(d)
      ensures Add(d).Valid() && forall e :: Add(d).Has(e) <==> Has(e) || e == d
    {
      var r := Add(d);
      var p := if d.instance in positions then positions[d.instance] else |lists|;
      assert d in r.lists[p];
      forall e | Has(e) ensures r.Has(e) {
        var q :| 0 <= q < |lists| && e in lists[q];
        assert e in r.lists[q];
      }
      forall e | r.Has(e) ensures Has(e) || e == d {
        var q :| 0 <= q < |r.lists| && e in r.lists[q];
        if e != d && q < |lists| {
          assert e in lists[q];
        }
      }
    }
  }

  // ---------- candidates ----------

  /** An evaluation; the stamp tells it apart from every other evaluation ever made. */
  datatype Evaluation = Evaluation(value: int, stamp: nat)

  /** A listed decision: the reward it is listed under, and the evaluation it was listed for, if there was one. */
  datatype Candidate = Candidate(reward: Option<int>, decision: Decision, evaluation: Option<Evaluation>)

  predicate Exceeds(a: Option<int>, b: Option<int>) {
    a.Some? && (b.None? || a.value > b.value)
  }

  /** Best first, infeasible last, and equal rewards in the order of evaluation. */
  ghost predicate InOrder(a: Candidate, b: Candidate) {
    Exceeds(a.reward, b.reward)
    || (a.reward == b.reward && (a.evaluation.Some? && b.evaluation.Some? ==> a.evaluation.value.stamp < b.evaluation.value.stamp))
  }

  ghost predicate Ordered(candidates: seq<Candidate>) {
    forall i, j | 0 <= i < j < |candidates| :: InOrder(candidates[i], candidates[j])
  }

  ghost predicate Stamped(candidates: seq<Candidate>, stamps: nat) {
    forall c <- candidates :: c.evaluation.Some? ==> c.evaluation.value.stamp < stamps
  }

  /** Inserts a candidate behind those of at least its reward. */
  method Emplace(candidates: seq<Candidate>, c: Candidate, ghost stamps: nat) returns (r: seq<Candidate>)
    requires Ordered(candidates) && Stamped(candidates, stamps)
    requires c.evaluation.Some? ==> c.evaluation.value.stamp == stamps
    ensures Ordered(r) && forall e :: e in r <==> e in candidates || e == c
  {
    var p: nat := |candidates|;
    while p > 0 && Exceeds(c.reward, candidates[p - 1].reward)
      invariant p <= |candidates|
      invariant forall i | p <= i < |candidates| :: Exceeds(c.reward, candidates[i].reward)
    {
      p := p - 1;
    }
    r := candidates[..p] + [c] + candidates[p..];
    InsertedInOrder(candidates, c, p, stamps);
    assert candidates == candidates[..p] + candidates[p..];
  }

  lemma InsertedInOrder(candidates: seq<Candidate>, c: Candidate, p: nat, stamps: nat)
    requires Ordered(candidates) && Stamped(candidates, stamps) && p <= |candidates|
    requires c.evaluation.Some? ==> c.evaluation.value.stamp == stamps
    requires p > 0 ==> !Exceeds(c.reward, candidates[p - 1].reward)
    requires forall i | p <= i < |candidates| :: Exceeds(c.reward, candidates[i].reward)
    ensures Ordered(candidates[..p] + [c] + candidates[p..])
  {
    forall i | 0 <= i < p ensures InOrder(candidates[i], c) {
      assert candidates[i] in candidates;
      assert i == p - 1 || InOrder(candidates[i], candidates[p - 1]);
    }
    var r := candidates[..p] + [c] + candidates[p..];
    forall i, j | 0 <= i < j < |r| ensures InOrder(r[i], r[j]) {
      var k, l := if i < p then i else i - 1, if j < p then j else j - 1;
      if i != p && j != p {
        assert InOrder(candidates[k], candidates[l]);
      }
    }
  }
}
