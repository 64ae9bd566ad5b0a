/** The search for the best value of a choice by bisection, which stands in for evaluating every value. */
module Bisections {
  import opened Basics

  /** An evaluated value: its position among the values, and its reward if it is feasible. */
  datatype Candidate = Candidate(index: nat, reward: Option<int>) {
    predicate Feasible() {
      reward.Some?
    }
  }

  /** The feasible values are the first ones, with strictly increasing rewards. */
  ghost predicate IncreasingPrefix(rewards: seq<Option<int>>) {
    forall i, j | 0 <= i < j < |rewards| ::
      rewards[j].Some? ==> rewards[i].Some? && rewards[i].value < rewards[j].value
  }

  /** The feasible values are the last ones, with strictly decreasing rewards. */
  ghost predicate DecreasingSuffix(rewards: seq<Option<int>>) {
    forall i, j | 0 <= i < j < |rewards| ::
      rewards[i].Some? ==> rewards[j].Some? && rewards[i].value > rewards[j].value
  }

  /** The best feasible value of all, the first one if there are several. */
  ghost predicate Optimal(rewards: seq<Option<int>>, best: Option<Candidate>) {
    match best
    case None => forall i | 0 <= i < |rewards| :: rewards[i].None?
    case Some(c) =>
      && c.index < |rewards| && c.Feasible() && rewards[c.index] == c.reward
      && (forall i | 0 <= i < |rewards| && rewards[i].Some? :: rewards[i].value <= c.reward.value)
      && (forall i | 0 <= i < c.index && rewards[i].Some? :: rewards[i].value < c.reward.value)
  }

  lemma OptimumIsUnique(rewards: seq<Option<int>>, a: Option<Candidate>, b: Option<Candidate>)
    requires Optimal(rewards, a) && Optimal(rewards, b)
    ensures a == b
  {
  }

  /** Every candidate holds the reward of its value. */
  ghost predicate Sampled(rewards: seq<Option<int>>, candidates: seq<Candidate>) {
    forall c <- candidates :: c.index < |rewards| && rewards[c.index] == c.reward
  }

  /** The best of the candidates evaluated so far. */
  ghost predicate BestOf(candidates: seq<Candidate>, best: Option<Candidate>) {
    match best
    case None => forall c <- candidates :: !c.Feasible()
    case Some(b) => b in candidates && b.Feasible() && forall c <- candidates | c.Feasible() :: c.reward.value <= b.reward.value
  }

  /** The best candidate is still the same, or has been improved upon. */
  ghost predicate Better(before: Option<Candidate>, after: Option<Candidate>) {
    after == before || (before.Some? && before.value.Feasible() && after.Some? && after.value.Feasible()
                        && after.value.reward.value > before.value.reward.value)
  }

  /** Candidates are only added. */
  ghost predicate Grown(before: seq<Candidate>, after: seq<Candidate>) {
    before <= after && forall c <- before :: c in after
  }

  lemma OptimumStays(rewards: seq<Option<int>>, before: Option<Candidate>, after: Option<Candidate>)
    requires Optimal(rewards, before) && Better(before, after)
    requires after.Some? ==> after.value.index < |rewards| && rewards[after.value.index] == after.value.reward
    ensures after == before
  {
  }

  // ---------- which values are evaluated ----------

  ghost function RewardAt(rewards: seq<Option<int>>, k: nat): Option<int> {
    if k < |rewards| then rewards[k] else None
  }

  ghost function Evaluated(rewards: seq<Option<int>>, trace: seq<nat>): seq<Candidate> {
    if trace == [] then [] else Evaluated(rewards, ButLast(trace)) + [Candidate(Last(trace), RewardAt(rewards, Last(trace)))]
  }

  /** The best once the values have been evaluated in turn: the first of the greatest, or what was the best before. */
  ghost function BestAfter(rewards: seq<Option<int>>, best: Candidate, trace: seq<nat>): (b: Candidate)
    requires best.Feasible()
    ensures b.Feasible()
  {
    if trace == [] then best else Improved(rewards, BestAfter(rewards, best, ButLast(trace)), Last(trace))
  }

  ghost function Improved(rewards: seq<Option<int>>, best: Candidate, k: nat): (b: Candidate)
    requires best.Feasible()
    ensures b.Feasible()
  {
    var reward := RewardAt(rewards, k);
    if reward.Some? && reward.value > best.reward.value then Candidate(k, reward) else best
  }

  /** The values evaluated between a feasible value and an infeasible one behind it. */
  ghost function Rightwards(rewards: seq<Option<int>>, feasible: nat, infeasible: nat, best: int): (trace: seq<nat>)
    ensures forall k <- trace :: feasible < k < infeasible
    decreases infeasible - feasible
  {
    if infeasible <= feasible + 1 then []
    else
      var mid := feasible + (infeasible - feasible + 1) / 2;
      [mid] + match RewardAt(rewards, mid)
              case None => Rightwards(rewards, feasible, mid, best)
              case Some(v) => if v <= best then [] else Rightwards(rewards, mid, infeasible, v)
  }

  /** The values evaluated between an infeasible value and a feasible one behind it. */
  ghost function Leftwards(rewards: seq<Option<int>>, infeasible: nat, feasible: nat, best: int): (trace: seq<nat>)
    ensures forall k <- trace :: infeasible < k < feasible
    decreases feasible - infeasible
  {
    if feasible <= infeasible + 1 then []
    else
      var mid := infeasible + (feasible - infeasible) / 2;
      [mid] + match RewardAt(rewards, mid)
              case None => Leftwards(rewards, mid, feasible, best)
              case Some(v) => if v <= best then [] else Leftwards(rewards, infeasible, mid, v)
  }

  /** The values evaluated between two feasible ones. */
  ghost function Inwards(rewards: seq<Option<int>>, left: Candidate, right: Candidate, best: Candidate): (trace: seq<nat>)
    requires left.Feasible() && right.Feasible() && best.Feasible()
    ensures forall k <- trace :: left.index < k < right.index
    decreases right.index - left.index
  {
    if right.index <= left.index + 1 then []
    else
      var mid := left.index + (right.index - left.index) / 2;
      [mid] + match RewardAt(rewards, mid)
              case None =>
                var first := Rightwards(rewards, left.index, mid, best.reward.value);
                first + Leftwards(rewards, mid, right.index, BestAfter(rewards, best, first).reward.value)
              case Some(v) =>
                var candidate := Candidate(mid, Some(v));
                if v <= left.reward.value && v <= right.reward.value then []
                else if left.reward.value >= right.reward.value then
                  Inwards(rewards, left, candidate, Improved(rewards, best, mid))
                else Inwards(rewards, candidate, right, Improved(rewards, best, mid))
  }

  lemma OneMoreEvaluated(rewards: seq<Option<int>>, best: Candidate, trace: seq<nat>, k: nat)
    requires best.Feasible()
    ensures Evaluated(rewards, trace + [k]) == Evaluated(rewards, trace) + [Candidate(k, RewardAt(rewards, k))]
    ensures BestAfter(rewards, best, trace + [k]) == Improved(rewards, BestAfter(rewards, best, trace), k)
  {
    assert ButLast(trace + [k]) == trace;
  }

  lemma {:induction false} MoreEvaluated(rewards: seq<Option<int>>, best: Candidate, trace: seq<nat>, more: seq<nat>)
    requires best.Feasible()
    ensures Evaluated(rewards, trace + more) == Evaluated(rewards, trace) + Evaluated(rewards, more)
    ensures BestAfter(rewards, best, trace + more) == BestAfter(rewards, BestAfter(rewards, best, trace), more)
    decreases |more|
  {
    if more == [] {
      assert trace + more == trace;
    } else {
      MoreEvaluated(rewards, best, trace, ButLast(more));
      assert ButLast(trace + more) == trace + ButLast(more);
    }
  }

  lemma FirstEvaluated(rewards: seq<Option<int>>, best: Candidate, k: nat, more: seq<nat>)
    requires best.Feasible()
    ensures Evaluated(rewards, [k] + more) == [Candidate(k, RewardAt(rewards, k))] + Evaluated(rewards, more)
    ensures BestAfter(rewards, best, [k] + more) == BestAfter(rewards, Improved(rewards, best, k), more)
  {
    MoreEvaluated(rewards, best, [k], more);
    OneMoreEvaluated(rewards, best, [], k);
    assert [] + [k] == [k];
  }

  /** The best stays or improves to a value evaluated, and is no worse than any of these. */
  lemma {:induction false} BestOfTrace(rewards: seq<Option<int>>, best: Candidate, trace: seq<nat>)
    requires best.Feasible()
    ensures var b := BestAfter(rewards, best, trace);
            && b.reward.value >= best.reward.value
            && (b == best || (b.index in trace && b.reward == RewardAt(rewards, b.index) && b.reward.value > best.reward.value))
            && forall k <- trace | RewardAt(rewards, k).Some? :: RewardAt(rewards, k).value <= b.reward.value
  {
    if trace != [] {
      BestOfTrace(rewards, best, ButLast(trace));
      assert trace == ButLast(trace) + [Last(trace)];
    }
  }

  // ---------- where the search ends ----------

  /** The value has been evaluated and is no better than the best. */
  ghost predicate NoBetter(rewards: seq<Option<int>>, trace: seq<nat>, mid: nat, best: int) {
    mid in trace && RewardAt(rewards, mid).Some? && RewardAt(rewards, mid).value <= best
  }

  ghost predicate IsReached(rewards: seq<Option<int>>, trace: seq<nat>, from: nat, k: nat, feasible: bool) {
    k == from || (k in trace && RewardAt(rewards, k).Some? == feasible)
  }

  /**
   The search from a feasible value towards an infeasible one has come to a feasible value and an infeasible one behind
   it that are neighbours, or whose middle is no better than the best.
   */
  ghost predicate EndsRightwards(rewards: seq<Option<int>>, trace: seq<nat>, feasible: nat, infeasible: nat, best: int) {
    exists f: nat, i: nat ::
      && feasible <= f && i <= infeasible
      && IsReached(rewards, trace, feasible, f, true) && IsReached(rewards, trace, infeasible, i, false)
      && (i <= f + 1 || NoBetter(rewards, trace, f + (i - f + 1) / 2, best))
  }

  ghost predicate EndsLeftwards(rewards: seq<Option<int>>, trace: seq<nat>, infeasible: nat, feasible: nat, best: int) {
    exists i: nat, f: nat ::
      && infeasible <= i && f <= feasible
      && IsReached(rewards, trace, infeasible, i, false) && IsReached(rewards, trace, feasible, f, true)
      && (f <= i + 1 || NoBetter(rewards, trace, i + (f - i) / 2, best))
  }

  /** A search that has narrowed the gap ends where the search of the narrower gap does. */
  lemma EndsFurtherRight(rewards: seq<Option<int>>, trace: seq<nat>, later: seq<nat>, feasible: nat, infeasible: nat,
                         f: nat, i: nat, best: int)
    requires EndsRightwards(rewards, later, f, i, best) && forall k <- later :: k in trace
    requires feasible <= f && i <= infeasible
    requires IsReached(rewards, trace, feasible, f, true) && IsReached(rewards, trace, infeasible, i, false)
    ensures EndsRightwards(rewards, trace, feasible, infeasible, best)
  {
    var g: nat, j: nat :|
      && f <= g && j <= i
      && IsReached(rewards, later, f, g, true) && IsReached(rewards, later, i, j, false)
      && (j <= g + 1 || NoBetter(rewards, later, g + (j - g + 1) / 2, best));
    assert IsReached(rewards, trace, feasible, g, true) && IsReached(rewards, trace, infeasible, j, false);
  }

  lemma EndsFurtherLeft(rewards: seq<Option<int>>, trace: seq<nat>, later: seq<nat>, infeasible: nat, feasible: nat,
                        i: nat, f: nat, best: int)
    requires EndsLeftwards(rewards, later, i, f, best) && forall k <- later :: k in trace
    requires infeasible <= i && f <= feasible
    requires IsReached(rewards, trace, infeasible, i, false) && IsReached(rewards, trace, feasible, f, true)
    ensures EndsLeftwards(rewards, trace, infeasible, feasible, best)
  {
    var j: nat, g: nat :|
      && i <= j && g <= f
      && IsReached(rewards, later, i, j, false) && IsReached(rewards, later, f, g, true)
      && (g <= j + 1 || NoBetter(rewards, later, j + (g - j) / 2, best));
    assert IsReached(rewards, trace, infeasible, j, false) && IsReached(rewards, trace, feasible, g, true);
  }

  lemma EndsRightHere(rewards: seq<Option<int>>, trace: seq<nat>, feasible: nat, infeasible: nat, best: int)
    requires infeasible <= feasible + 1 || NoBetter(rewards, trace, feasible + (infeasible - feasible + 1) / 2, best)
    ensures EndsRightwards(rewards, trace, feasible, infeasible, best)
  {
    assert IsReached(rewards, trace, feasible, feasible, true) && IsReached(rewards, trace, infeasible, infeasible, false);
  }

  lemma EndsLeftHere(rewards: seq<Option<int>>, trace: seq<nat>, infeasible: nat, feasible: nat, best: int)
    requires feasible <= infeasible + 1 || NoBetter(rewards, trace, infeasible + (feasible - infeasible) / 2, best)
    ensures EndsLeftwards(rewards, trace, infeasible, feasible, best)
  {
    assert IsReached(rewards, trace, infeasible, infeasible, false) && IsReached(rewards, trace, feasible, feasible, true);
  }

  lemma {:induction false} RightwardsEnds(rewards: seq<Option<int>>, feasible: nat, infeasible: nat, best: Candidate)
    requires best.Feasible()
    ensures var trace := Rightwards(rewards, feasible, infeasible, best.reward.value);
            EndsRightwards(rewards, trace, feasible, infeasible, BestAfter(rewards, best, trace).reward.value)
    decreases infeasible - feasible
  {
    hide BestAfter, EndsRightwards, Evaluated, Rightwards;
    var trace := Rightwards(rewards, feasible, infeasible, best.reward.value);
    var b := BestAfter(rewards, best, trace).reward.value;
    BestOfTrace(rewards, best, trace);
    RightwardsEmpty(rewards, feasible, infeasible, best.reward.value);
    if infeasible <= feasible + 1 {
      EndsRightHere(rewards, trace, feasible, infeasible, b);
    } else {
      RightwardsOnce(rewards, feasible, infeasible, best.reward.value);
      var mid := feasible + (infeasible - feasible + 1) / 2;
      var reward, later := RewardAt(rewards, mid), trace[1..];
      assert trace == [mid] + later;
      FirstEvaluated(rewards, best, mid, later);
      if reward.None? {
        RightwardsEnds(rewards, feasible, mid, best);
        EndsFurtherRight(rewards, trace, later, feasible, infeasible, feasible, mid, b);
      } else if reward.value <= best.reward.value {
        EndsRightHere(rewards, trace, feasible, infeasible, b);
      } else {
        RightwardsEnds(rewards, mid, infeasible, Candidate(mid, reward));
        EndsFurtherRight(rewards, trace, later, feasible, infeasible, mid, infeasible, b);
      }
    }
  }

  lemma {:induction false} LeftwardsEnds(rewards: seq<Option<int>>, infeasible: nat, feasible: nat, best: Candidate)
    requires best.Feasible()
    ensures var trace := Leftwards(rewards, infeasible, feasible, best.reward.value);
            EndsLeftwards(rewards, trace, infeasible, feasible, BestAfter(rewards, best, trace).reward.value)
    decreases feasible - infeasible
  {
    hide BestAfter, EndsLeftwards, Evaluated, Leftwards;
    var trace := Leftwards(rewards, infeasible, feasible, best.reward.value);
    var b := BestAfter(rewards, best, trace).reward.value;
    BestOfTrace(rewards, best, trace);
    LeftwardsEmpty(rewards, infeasible, feasible, best.reward.value);
    if feasible <= infeasible + 1 {
      EndsLeftHere(rewards, trace, infeasible, feasible, b);
    } else {
      LeftwardsOnce(rewards, infeasible, feasible, best.reward.value);
      var mid := infeasible + (feasible - infeasible) / 2;
      var reward, later := RewardAt(rewards, mid), trace[1..];
      assert trace == [mid] + later;
      FirstEvaluated(rewards, best, mid, later);
      if reward.None? {
        LeftwardsEnds(rewards, mid, feasible, best);
        EndsFurtherLeft(rewards, trace, later, infeasible, feasible, mid, feasible, b);
      } else if reward.value <= best.reward.value {
        EndsLeftHere(rewards, trace, infeasible, feasible, b);
      } else {
        LeftwardsEnds(rewards, infeasible, mid, Candidate(mid, reward));
        EndsFurtherLeft(rewards, trace, later, infeasible, feasible, infeasible, mid, b);
      }
    }
  }

  /** The interval has been narrowed by evaluated feasible values, each time on the side of the better end. */
  ghost predicate Narrowed(rewards: seq<Option<int>>, trace: seq<nat>, left: Candidate, right: Candidate, l: Candidate, r: Candidate)
    requires left.Feasible() && right.Feasible()
    decreases right.index - left.index
  {
    || (l == left && r == right)
    || (right.index > left.index + 1
        && var mid := left.index + (right.index - left.index) / 2;
           var candidate := Candidate(mid, RewardAt(rewards, mid));
           && mid in trace && candidate.Feasible()
           && (candidate.reward.value > left.reward.value || candidate.reward.value > right.reward.value)
           && if left.reward.value >= right.reward.value then Narrowed(rewards, trace, left, candidate, l, r)
              else Narrowed(rewards, trace, candidate, right, l, r))
  }

  /**
   The ends are neighbours, or their middle has been evaluated: it is no better than both, or infeasible, and then both
   sides have been searched.
   */
  ghost predicate Exhausted(rewards: seq<Option<int>>, trace: seq<nat>, l: Candidate, r: Candidate, best: int)
    requires l.Feasible() && r.Feasible()
  {
    r.index <= l.index + 1
    || (var mid := l.index + (r.index - l.index) / 2;
        && mid in trace
        && match RewardAt(rewards, mid)
           case Some(v) => v <= l.reward.value && v <= r.reward.value
           case None => EndsRightwards(rewards, trace, l.index, mid, best) && EndsLeftwards(rewards, trace, mid, r.index, best))
  }

  ghost predicate EndsInwards(rewards: seq<Option<int>>, trace: seq<nat>, left: Candidate, right: Candidate, best: int)
    requires left.Feasible() && right.Feasible()
  {
    exists l: Candidate, r: Candidate | l.Feasible() && r.Feasible() ::
      Narrowed(rewards, trace, left, right, l, r) && Exhausted(rewards, trace, l, r, best)
  }

  /** Searching on does not undo where a search has ended: values are only added, and the best only improves. */
  lemma EndsRightStays(rewards: seq<Option<int>>, trace: seq<nat>, more: seq<nat>, feasible: nat, infeasible: nat, a: int, b: int)
    requires EndsRightwards(rewards, trace, feasible, infeasible, a) && a <= b && forall k <- trace :: k in more
    ensures EndsRightwards(rewards, more, feasible, infeasible, b)
  {
    var f: nat, i: nat :|
      && feasible <= f && i <= infeasible
      && IsReached(rewards, trace, feasible, f, true) && IsReached(rewards, trace, infeasible, i, false)
      && (i <= f + 1 || NoBetter(rewards, trace, f + (i - f + 1) / 2, a));
    assert IsReached(rewards, more, feasible, f, true) && IsReached(rewards, more, infeasible, i, false);
  }

  lemma EndsLeftStays(rewards: seq<Option<int>>, trace: seq<nat>, more: seq<nat>, infeasible: nat, feasible: nat, b: int)
    requires EndsLeftwards(rewards, trace, infeasible, feasible, b) && forall k <- trace :: k in more
    ensures EndsLeftwards(rewards, more, infeasible, feasible, b)
  {
    assert IsReached(rewards, more, infeasible, infeasible, false) && IsReached(rewards, more, feasible, feasible, true);
    EndsFurtherLeft(rewards, more, trace, infeasible, feasible, infeasible, feasible, b);
  }

  /** With an infeasible middle, both sides are searched. */
  lemma InfeasibleMiddle(rewards: seq<Option<int>>, left: nat, mid: nat, right: nat, best: Candidate, trace: seq<nat>)
    requires best.Feasible()
    requires var first := Rightwards(rewards, left, mid, best.reward.value);
             trace == first + Leftwards(rewards, mid, right, BestAfter(rewards, best, first).reward.value)
    ensures var b := BestAfter(rewards, best, trace).reward.value;
            EndsRightwards(rewards, trace, left, mid, b) && EndsLeftwards(rewards, trace, mid, right, b)
  {
    hide BestAfter, EndsRightwards, EndsLeftwards, Evaluated, Rightwards, Leftwards;
    var first := Rightwards(rewards, left, mid, best.reward.value);
    var between := BestAfter(rewards, best, first);
    var second := Leftwards(rewards, mid, right, between.reward.value);
    MoreEvaluated(rewards, best, first, second);
    RightwardsEnds(rewards, left, mid, best);
    LeftwardsEnds(rewards, mid, right, between);
    BestOfTrace(rewards, between, second);
    EndsRightStays(rewards, first, trace, left, mid, between.reward.value, BestAfter(rewards, best, trace).reward.value);
    EndsLeftStays(rewards, second, trace, mid, right, BestAfter(rewards, best, trace).reward.value);
  }

  lemma ExhaustedHere(rewards: seq<Option<int>>, trace: seq<nat>, left: Candidate, right: Candidate, best: int)
    requires left.Feasible() && right.Feasible() && Exhausted(rewards, trace, left, right, best)
    ensures EndsInwards(rewards, trace, left, right, best)
  {
    assert Narrowed(rewards, trace, left, right, left, right);
  }

  lemma ExhaustedStays(rewards: seq<Option<int>>, trace: seq<nat>, more: seq<nat>, l: Candidate, r: Candidate, best: int)
    requires l.Feasible() && r.Feasible() && Exhausted(rewards, trace, l, r, best) && forall k <- trace :: k in more
    ensures Exhausted(rewards, more, l, r, best)
  {
    var mid: nat := if r.index > l.index then l.index + (r.index - l.index) / 2 else 0;
    if r.index > l.index + 1 && RewardAt(rewards, mid).None? {
      hide EndsRightwards, EndsLeftwards;
      EndsRightStays(rewards, trace, more, l.index, mid, best, best);
      EndsLeftStays(rewards, trace, more, mid, r.index, best);
    }
  }

  lemma {:induction false} NarrowedStays(rewards: seq<Option<int>>, trace: seq<nat>, more: seq<nat>, left: Candidate, right: Candidate,
                                         l: Candidate, r: Candidate)
    requires left.Feasible() && right.Feasible() && Narrowed(rewards, trace, left, right, l, r) && forall k <- trace :: k in more
    ensures Narrowed(rewards, more, left, right, l, r)
    decreases right.index - left.index
  {
    if !(l == left && r == right) {
      var mid := left.index + (right.index - left.index) / 2;
      var candidate := Candidate(mid, RewardAt(rewards, mid));
      if left.reward.value >= right.reward.value {
        NarrowedStays(rewards, trace, more, left, candidate, l, r);
      } else {
        NarrowedStays(rewards, trace, more, candidate, right, l, r);
      }
    }
  }

  /** A search that has narrowed the interval ends where the search of the narrower one does. */
  lemma EndsFurtherIn(rewards: seq<Option<int>>, trace: seq<nat>, later: seq<nat>, left: Candidate, right: Candidate, mid: nat, best: int)
    requires left.Feasible() && right.Feasible() && right.index > left.index + 1
    requires mid == left.index + (right.index - left.index) / 2 && mid in trace && RewardAt(rewards, mid).Some?
    requires RewardAt(rewards, mid).value > left.reward.value || RewardAt(rewards, mid).value > right.reward.value
    requires forall k <- later :: k in trace
    requires var candidate := Candidate(mid, RewardAt(rewards, mid));
             if left.reward.value >= right.reward.value then EndsInwards(rewards, later, left, candidate, best)
             else EndsInwards(rewards, later, candidate, right, best)
    ensures EndsInwards(rewards, trace, left, right, best)
  {
    hide Exhausted;
    var candidate := Candidate(mid, RewardAt(rewards, mid));
    var a, b := if left.reward.value >= right.reward.value then left else candidate,
                if left.reward.value >= right.reward.value then candidate else right;
    var l: Candidate, r: Candidate :|
      l.Feasible() && r.Feasible() && Narrowed(rewards, later, a, b, l, r) && Exhausted(rewards, later, l, r, best);
    NarrowedStays(rewards, later, trace, a, b, l, r);
    ExhaustedStays(rewards, later, trace, l, r, best);
    assert Narrowed(rewards, trace, left, right, l, r);
  }

  /** The search between two feasible values ends in an exhausted interval on the side of the better ends. */
  lemma {:induction false} InwardsEnds(rewards: seq<Option<int>>, left: Candidate, right: Candidate, best: Candidate)
    requires left.Feasible() && right.Feasible() && best.Feasible()
    ensures var trace := Inwards(rewards, left, right, best);
            EndsInwards(rewards, trace, left, right, BestAfter(rewards, best, trace).reward.value)
    ensures right.index > left.index + 1 ==> left.index + (right.index - left.index) / 2 in Inwards(rewards, left, right, best)
    decreases right.index - left.index
  {
    hide BestAfter, EndsInwards, EndsRightwards, EndsLeftwards, Evaluated, Rightwards, Leftwards, Narrowed;
    var trace := Inwards(rewards, left, right, best);
    var b := BestAfter(rewards, best, trace).reward.value;
    if right.index <= left.index + 1 {
      ExhaustedHere(rewards, trace, left, right, b);
    } else {
      var mid := left.index + (right.index - left.index) / 2;
      var reward, later := RewardAt(rewards, mid), trace[1..];
      var candidate := Candidate(mid, reward);
      assert trace == [mid] + later;
      FirstEvaluated(rewards, best, mid, later);
      if reward.None? {
        InfeasibleMiddle(rewards, left.index, mid, right.index, best, later);
        EndsRightStays(rewards, later, trace, left.index, mid, b, b);
        EndsLeftStays(rewards, later, trace, mid, right.index, b);
        ExhaustedHere(rewards, trace, left, right, b);
      } else if reward.value <= left.reward.value && reward.value <= right.reward.value {
        ExhaustedHere(rewards, trace, left, right, b);
      } else {
        if left.reward.value >= right.reward.value {
          InwardsEnds(rewards, left, candidate, Improved(rewards, best, mid));
        } else {
          InwardsEnds(rewards, candidate, right, Improved(rewards, best, mid));
        }
        EndsFurtherIn(rewards, trace, later, left, right, mid, b);
      }
    }
  }

  /** One more candidate leaves the best as it is, or is better. */
  lemma BestOfMore(candidates: seq<Candidate>, best: Candidate, c: Candidate)
    requires BestOf(candidates, Some(best))
    ensures BestOf(candidates + [c], Some(if c.Feasible() && c.reward.value > best.reward.value then c else best))
  {
  }

  lemma BestIsFeasible(candidates: seq<Candidate>, best: Candidate)
    requires BestOf(candidates, Some(best))
    ensures best.Feasible()
  {
  }

  lemma ImprovedIs(rewards: seq<Option<int>>, best: Candidate, k: nat)
    requires best.Feasible() && k < |rewards|
    ensures Improved(rewards, best, k)
         == if rewards[k].Some? && rewards[k].value > best.reward.value then Candidate(k, rewards[k]) else best
  {
  }

  lemma TraceGrows(rewards: seq<Option<int>>, candidates: seq<Candidate>, best: Candidate, trace: seq<nat>)
    requires best.Feasible()
    ensures Grown(candidates, candidates + Evaluated(rewards, trace))
    ensures Better(Some(best), Some(BestAfter(rewards, best, trace)))
  {
    hide BestAfter, Evaluated;
    BestOfTrace(rewards, best, trace);
  }

  /** A feasible value beside an infeasible one, or whose gap has a feasible value no better, is the last feasible one. */
  lemma LastIsOptimal(rewards: seq<Option<int>>, last: Candidate, infeasible: nat)
    requires IncreasingPrefix(rewards) && last.index < |rewards| && last.Feasible() && rewards[last.index] == last.reward
    requires infeasible < |rewards| && rewards[infeasible].None?
    requires infeasible <= last.index + 1
             || exists k :: last.index < k < |rewards| && rewards[k].Some? && rewards[k].value <= last.reward.value
    ensures Optimal(rewards, Some(last))
  {
    assert infeasible > last.index;
    LastFeasibleIsOptimal(rewards, last);
  }

  lemma FirstIsOptimal(rewards: seq<Option<int>>, first: Candidate, infeasible: nat)
    requires DecreasingSuffix(rewards) && first.index < |rewards| && first.Feasible() && rewards[first.index] == first.reward
    requires infeasible < |rewards| && rewards[infeasible].None?
    requires first.index <= infeasible + 1
             || exists k :: 0 <= k < first.index && rewards[k].Some? && rewards[k].value <= first.reward.value
    ensures Optimal(rewards, Some(first))
  {
    assert infeasible < first.index;
    FirstFeasibleIsOptimal(rewards, first);
  }

  lemma NothingEvaluated(rewards: seq<Option<int>>, best: Candidate)
    requires best.Feasible()
    ensures Evaluated(rewards, []) == [] && BestAfter(rewards, best, []) == best
  {
  }

  lemma RightwardsEmpty(rewards: seq<Option<int>>, feasible: nat, infeasible: nat, best: int)
    ensures infeasible <= feasible + 1 ==> Rightwards(rewards, feasible, infeasible, best) == []
  {
  }

  lemma LeftwardsEmpty(rewards: seq<Option<int>>, infeasible: nat, feasible: nat, best: int)
    ensures feasible <= infeasible + 1 ==> Leftwards(rewards, infeasible, feasible, best) == []
  {
  }

  lemma RightwardsOnce(rewards: seq<Option<int>>, feasible: nat, infeasible: nat, best: int)
    requires infeasible > feasible + 1
    ensures
      var mid := feasible + (infeasible - feasible + 1) / 2;
      Rightwards(rewards, feasible, infeasible, best)
      == [mid] + match RewardAt(rewards, mid)
                 case None => Rightwards(rewards, feasible, mid, best)
                 case Some(v) => if v <= best then [] else Rightwards(rewards, mid, infeasible, v)
  {
  }

  lemma RightwardsStep(rewards: seq<Option<int>>, done: seq<nat>, feasible: nat, infeasible: nat, best: int)
    requires infeasible > feasible + 1
    ensures
      var mid := feasible + (infeasible - feasible + 1) / 2;
      done + Rightwards(rewards, feasible, infeasible, best)
      == match RewardAt(rewards, mid)
         case None => (done + [mid]) + Rightwards(rewards, feasible, mid, best)
         case Some(v) => if v <= best then done + [mid] else (done + [mid]) + Rightwards(rewards, mid, infeasible, v)
  {
    hide Rightwards;
    RightwardsOnce(rewards, feasible, infeasible, best);
    var mid := feasible + (infeasible - feasible + 1) / 2;
    var rest := match RewardAt(rewards, mid)
                case None => Rightwards(rewards, feasible, mid, best)
                case Some(v) => if v <= best then [] else Rightwards(rewards, mid, infeasible, v);
    assert done + ([mid] + rest) == (done + [mid]) + rest;
  }

  lemma LeftwardsOnce(rewards: seq<Option<int>>, infeasible: nat, feasible: nat, best: int)
    requires feasible > infeasible + 1
    ensures
      var mid := infeasible + (feasible - infeasible) / 2;
      Leftwards(rewards, infeasible, feasible, best)
      == [mid] + match RewardAt(rewards, mid)
                 case None => Leftwards(rewards, mid, feasible, best)
                 case Some(v) => if v <= best then [] else Leftwards(rewards, infeasible, mid, v)
  {
  }

  lemma LeftwardsStep(rewards: seq<Option<int>>, done: seq<nat>, infeasible: nat, feasible: nat, best: int)
    requires feasible > infeasible + 1
    ensures
      var mid := infeasible + (feasible - infeasible) / 2;
      done + Leftwards(rewards, infeasible, feasible, best)
      == match RewardAt(rewards, mid)
         case None => (done + [mid]) + Leftwards(rewards, mid, feasible, best)
         case Some(v) => if v <= best then done + [mid] else (done + [mid]) + Leftwards(rewards, infeasible, mid, v)
  {
    hide Leftwards;
    LeftwardsOnce(rewards, infeasible, feasible, best);
    var mid := infeasible + (feasible - infeasible) / 2;
    var rest := match RewardAt(rewards, mid)
                case None => Leftwards(rewards, mid, feasible, best)
                case Some(v) => if v <= best then [] else Leftwards(rewards, infeasible, mid, v);
    assert done + ([mid] + rest) == (done + [mid]) + rest;
  }

  lemma InwardsStep(rewards: seq<Option<int>>, left: Candidate, right: Candidate, best: Candidate)
    requires left.Feasible() && right.Feasible() && best.Feasible()
    ensures
      var trace := Inwards(rewards, left, right, best);
      if right.index <= left.index + 1 then trace == []
      else
        var mid := left.index + (right.index - left.index) / 2;
        && trace != [] && trace == [mid] + trace[1..]
        && match RewardAt(rewards, mid)
           case None =>
             var first := Rightwards(rewards, left.index, mid, best.reward.value);
             trace[1..] == first + Leftwards(rewards, mid, right.index, BestAfter(rewards, best, first).reward.value)
           case Some(v) =>
             var candidate := Candidate(mid, Some(v));
             trace[1..] == if v <= left.reward.value && v <= right.reward.value then []
                           else if left.reward.value >= right.reward.value then
                             Inwards(rewards, left, candidate, Improved(rewards, best, mid))
                           else Inwards(rewards, candidate, right, Improved(rewards, best, mid))
  {
    hide BestAfter, Rightwards, Leftwards;
  }

  // ---------- the first feasible value found inside ----------

  ghost function Middle(interval: (nat, nat)): nat {
    if interval.0 <= interval.1 then interval.0 + (interval.1 - interval.0) / 2 else interval.0
  }

  /** Every interval is replaced by its halves. */
  ghost function Split(intervals: seq<(nat, nat)>): seq<(nat, nat)> {
    if intervals == [] then []
    else
      var x := Last(intervals);
      Split(ButLast(intervals)) + (if x.0 <= x.1 then Halves(x, Middle(x)) else [])
  }

  /** The intervals once all have been halved the given number of times. */
  ghost function Level(first: nat, last: nat, depth: nat): seq<(nat, nat)> {
    if depth == 0 then [(first, last)] else Split(Level(first, last, depth - 1))
  }

  /** No middle of a wider interval, or of one further left that has been halved as often, is feasible. */
  ghost predicate NoneEarlier(rewards: seq<Option<int>>, first: nat, last: nat, depth: nat, k: nat) {
    forall e: nat, j: nat | (e < depth || (e == depth && j < k)) && j < |Level(first, last, e)| ::
      RewardAt(rewards, Middle(Level(first, last, e)[j])).None?
  }

  /** The value is the first feasible middle, level by level, and the indices are the ends of its interval. */
  ghost predicate FirstFound(rewards: seq<Option<int>>, first: nat, last: nat,
                             leftIndex: Option<nat>, found: Candidate, rightIndex: Option<nat>) {
    exists depth: nat, k: nat :: FoundAt(rewards, first, last, leftIndex, found, rightIndex, depth, k)
  }

  ghost predicate FoundAt(rewards: seq<Option<int>>, first: nat, last: nat,
                          leftIndex: Option<nat>, found: Candidate, rightIndex: Option<nat>, depth: nat, k: nat) {
    && k < |Level(first, last, depth)|
    && var (l, r) := Level(first, last, depth)[k];
       && l <= r && found == Candidate(l + (r - l) / 2, RewardAt(rewards, l + (r - l) / 2)) && found.Feasible()
       && leftIndex == (if found.index > first then Some(l) else None)
       && rightIndex == (if found.index < last then Some(r) else None)
       && NoneEarlier(rewards, first, last, depth, k)
  }

  /** The queue holds what is left of a level, and the halves of the intervals before. */
  ghost predicate Queued(intervals: seq<(nat, nat)>, first: nat, last: nat, depth: nat, k: nat) {
    k <= |Level(first, last, depth)| && intervals == Level(first, last, depth)[k..] + Split(Level(first, last, depth)[..k])
  }

  lemma QueueBegins(first: nat, last: nat, rewards: seq<Option<int>>)
    ensures Queued([(first, last)], first, last, 0, 0) && NoneEarlier(rewards, first, last, 0, 0)
  {
  }

  lemma QueueOfNextLevel(intervals: seq<(nat, nat)>, first: nat, last: nat, depth: nat, k: nat, rewards: seq<Option<int>>)
    requires Queued(intervals, first, last, depth, k) && k == |Level(first, last, depth)|
    requires NoneEarlier(rewards, first, last, depth, k)
    ensures Queued(intervals, first, last, depth + 1, 0) && NoneEarlier(rewards, first, last, depth + 1, 0)
  {
    var level := Level(first, last, depth);
    assert level[..k] == level && level[k..] == [];
    assert Level(first, last, depth + 1)[..0] == [];
  }

  lemma QueueAdvances(intervals: seq<(nat, nat)>, first: nat, last: nat, depth: nat, k: nat, rewards: seq<Option<int>>)
    requires Queued(intervals, first, last, depth, k) && k < |Level(first, last, depth)|
    requires NoneEarlier(rewards, first, last, depth, k) && RewardAt(rewards, Middle(Level(first, last, depth)[k])).None?
    requires Level(first, last, depth)[k].0 <= Level(first, last, depth)[k].1
    ensures intervals != [] && intervals[0] == Level(first, last, depth)[k]
    ensures Queued(intervals[1..] + Halves(intervals[0], Middle(intervals[0])), first, last, depth, k + 1)
    ensures NoneEarlier(rewards, first, last, depth, k + 1)
  {
    hide Halves, Level;
    var level := Level(first, last, depth);
    assert ButLast(level[..k + 1]) == level[..k] && Last(level[..k + 1]) == level[k];
    assert level[k..][1..] == level[k + 1..];
    var halves := Halves(level[k], Middle(level[k]));
    assert Split(level[..k + 1]) == Split(level[..k]) + halves;
    assert intervals[1..] == level[k + 1..] + Split(level[..k]);
    assert intervals[1..] + halves == level[k + 1..] + (Split(level[..k]) + halves);
  }

  lemma QueueHead(intervals: seq<(nat, nat)>, first: nat, last: nat, depth: nat, k: nat)
    requires Queued(intervals, first, last, depth, k) && intervals != []
    ensures k <= |Level(first, last, depth)|
    ensures k < |Level(first, last, depth)| ==> intervals[0] == Level(first, last, depth)[k]
    ensures k == |Level(first, last, depth)| ==>
              |Level(first, last, depth + 1)| > 0 && intervals[0] == Level(first, last, depth + 1)[0]
  {
    hide Halves, Split;
    var level := Level(first, last, depth);
    if k == |level| {
      assert level[..k] == level && level[k..] == [];
      assert Level(first, last, depth + 1) == Split(level);
    }
  }

  lemma IsFirstFound(rewards: seq<Option<int>>, first: nat, last: nat, depth: nat, k: nat, leftIndex: Option<nat>, found: Candidate,
                     rightIndex: Option<nat>)
    requires k < |Level(first, last, depth)| && NoneEarlier(rewards, first, last, depth, k)
    requires
      var (l, r) := Level(first, last, depth)[k];
      && l <= r && found == Candidate(l + (r - l) / 2, RewardAt(rewards, l + (r - l) / 2)) && found.Feasible()
      && leftIndex == (if found.index > first then Some(l) else None)
      && rightIndex == (if found.index < last then Some(r) else None)
    ensures FirstFound(rewards, first, last, leftIndex, found, rightIndex)
  {
    hide NoneEarlier, Level;
    assert FoundAt(rewards, first, last, leftIndex, found, rightIndex, depth, k);
  }

  /** The intervals queued hold every feasible value, and none of those before was found at a middle. */
  ghost predicate Searching(rewards: seq<Option<int>>, intervals: seq<(nat, nat)>, first: nat, last: nat) {
    && last < |rewards| && Within(intervals, first, last) && Covers(intervals, first, last, rewards)
    && exists depth: nat, k: nat :: Queued(intervals, first, last, depth, k) && NoneEarlier(rewards, first, last, depth, k)
  }

  lemma SearchBegins(rewards: seq<Option<int>>, first: nat, last: nat)
    requires first <= last < |rewards|
    ensures Searching(rewards, [(first, last)], first, last)
  {
    AllCovered(first, last, rewards);
    QueueBegins(first, last, rewards);
  }

  lemma SearchEnds(rewards: seq<Option<int>>, first: nat, last: nat)
    requires Searching(rewards, [], first, last)
    ensures forall i | first <= i <= last :: rewards[i].None?
  {
    hide Queued, NoneEarlier;
  }

  /** Where the first interval queued is. */
  lemma HeadOf(rewards: seq<Option<int>>, intervals: seq<(nat, nat)>, first: nat, last: nat) returns (depth: nat, k: nat)
    requires Searching(rewards, intervals, first, last) && intervals != []
    ensures Queued(intervals, first, last, depth, k) && NoneEarlier(rewards, first, last, depth, k)
    ensures k < |Level(first, last, depth)| && intervals[0] == Level(first, last, depth)[k]
  {
    hide Queued, NoneEarlier, Level, Within, Covers;
    depth, k :| Queued(intervals, first, last, depth, k) && NoneEarlier(rewards, first, last, depth, k);
    QueueHead(intervals, first, last, depth, k);
    if k == |Level(first, last, depth)| {
      QueueOfNextLevel(intervals, first, last, depth, k, rewards);
      depth, k := depth + 1, 0;
    }
  }

  /** The middle of the first interval is what is found, or the interval is replaced by its halves. */
  lemma SearchAdvances(rewards: seq<Option<int>>, intervals: seq<(nat, nat)>, first: nat, last: nat)
    requires Searching(rewards, intervals, first, last) && intervals != []
    ensures
      var (l, r) := intervals[0];
      && first <= l <= r <= last < |rewards|
      && var mid := l + (r - l) / 2;
         var candidate := Candidate(mid, rewards[mid]);
         var after := intervals[1..] + Halves(intervals[0], mid);
         if candidate.Feasible() then
           FirstFound(rewards, first, last, if mid > first then Some(l) else None, candidate, if mid < last then Some(r) else None)
         else Searching(rewards, after, first, last) && Remaining(after) < Remaining(intervals)
  {
    hide Queued, NoneEarlier, Level, Covers, FirstFound, Halves, Remaining;
    var depth, k := HeadOf(rewards, intervals, first, last);
    var (l, r) := intervals[0];
    var mid := l + (r - l) / 2;
    var candidate := Candidate(mid, rewards[mid]);
    if candidate.Feasible() {
      IsFirstFound(rewards, first, last, depth, k, if mid > first then Some(l) else None, candidate,
                   if mid < last then Some(r) else None);
    } else {
      HalvesRemain(intervals, first, last, mid, rewards);
      QueueAdvances(intervals, first, last, depth, k, rewards);
    }
  }

  lemma HalvesAre(x: (nat, nat), mid: nat)
    requires x.0 <= mid <= x.1
    ensures Halves(x, mid) == (if mid > x.0 then [(x.0, (mid - 1) as nat)] else []) + (if mid < x.1 then [(mid + 1, x.1)] else [])
  {
  }

  /** The best after the search to the left of the value found, and then to the right of what is the best by then. */
  ghost function BestInside(rewards: seq<Option<int>>, leftIndex: Option<nat>, found: Candidate, rightIndex: Option<nat>): Candidate
    requires found.Feasible()
  {
    var b := if leftIndex.None? then found
             else BestAfter(rewards, found, Leftwards(rewards, leftIndex.value, found.index, found.reward.value));
    if rightIndex.None? then b
    else BestAfter(rewards, b, Rightwards(rewards, b.index, rightIndex.value, b.reward.value))
  }

  ghost predicate SearchedInside(rewards: seq<Option<int>>, decision: Option<Candidate>) {
    match decision
    case None => forall i | 0 <= i < |rewards| :: rewards[i].None?
    case Some(b) =>
      && |rewards| > 2
      && exists l, found: Candidate, r | found.Feasible() ::
           FirstFound(rewards, 1, |rewards| - 2, l, found, r) && b == BestInside(rewards, l, found, r)
  }

  // ---------- the whole search ----------

  /** The first of the better ends that are feasible. */
  ghost function BetterEnd(left: Candidate, right: Candidate): Option<Candidate> {
    if right.Feasible() && (!left.Feasible() || right.reward.value > left.reward.value) then Some(right)
    else if left.Feasible() then Some(left) else None
  }

  lemma BestIsSampled(rewards: seq<Option<int>>, candidates: seq<Candidate>, best: Candidate)
    requires Sampled(rewards, candidates) && BestOf(candidates, Some(best))
    ensures best.Feasible() && best.index < |rewards| && rewards[best.index] == best.reward
  {
  }

  /** The search from both ends, from the feasible end towards the other one, or inside. */
  ghost predicate Bisected(rewards: seq<Option<int>>, candidates: seq<Candidate>, decision: Option<Candidate>) {
    rewards != [] ==>
      var n := |rewards|;
      var left, right := Candidate(0, rewards[0]), Candidate(n - 1, rewards[n - 1]);
      if n == 1 then decision == if left.Feasible() then Some(left) else None
      else if left.Feasible() && right.Feasible() then
        var best := if right.reward.value > left.reward.value then right else left;
        var trace := Inwards(rewards, left, right, best);
        && candidates == [left, right] + Evaluated(rewards, trace) && decision == Some(BestAfter(rewards, best, trace))
        && EndsInwards(rewards, trace, left, right, decision.value.reward.value)
      else if left.Feasible() then
        var trace := Rightwards(rewards, 0, n - 1, left.reward.value);
        && candidates == [left, right] + Evaluated(rewards, trace) && decision == Some(BestAfter(rewards, left, trace))
        && EndsRightwards(rewards, trace, 0, n - 1, decision.value.reward.value)
      else if right.Feasible() then
        var trace := Leftwards(rewards, 0, n - 1, right.reward.value);
        && candidates == [left, right] + Evaluated(rewards, trace) && decision == Some(BestAfter(rewards, right, trace))
        && EndsLeftwards(rewards, trace, 0, n - 1, decision.value.reward.value)
      else SearchedInside(rewards, decision)
  }

  /** Of three values, with both ends feasible, bisection finds a best one. */
  lemma ThreeValuesAreSearched(rewards: seq<Option<int>>, candidates: seq<Candidate>, decision: Option<Candidate>)
    requires |rewards| == 3 && rewards[0].Some? && rewards[2].Some? && Bisected(rewards, candidates, decision)
    ensures decision.Some? && decision.value.Feasible()
    ensures forall i | 0 <= i < 3 && rewards[i].Some? :: rewards[i].value <= decision.value.reward.value
  {
    hide EndsInwards, EndsRightwards, EndsLeftwards, Inwards, BestAfter, Evaluated;
    var left, right := Candidate(0, rewards[0]), Candidate(2, rewards[2]);
    var best := if right.reward.value > left.reward.value then right else left;
    InwardsEnds(rewards, left, right, best);
    BestOfTrace(rewards, best, Inwards(rewards, left, right, best));
    assert RewardAt(rewards, 1) == rewards[1];
  }

  /** Rewards 1, 2, 3, 4, 10, 0: the ends are 1 and 0, so that only the left half is searched, and the 10 is missed. */
  lemma PeakIsMissed(candidates: seq<Candidate>, decision: Option<Candidate>)
    requires Bisected([Some(1), Some(2), Some(3), Some(4), Some(10), Some(0)], candidates, decision)
    ensures decision == Some(Candidate(2, Some(3)))
  {
    hide EndsInwards, EndsRightwards, EndsLeftwards, Inwards, BestAfter, Evaluated, Rightwards, Leftwards;
    var rewards := [Some(1), Some(2), Some(3), Some(4), Some(10), Some(0)];
    var left, right := Candidate(0, Some(1)), Candidate(5, Some(0));
    var third, second := Candidate(2, Some(3)), Candidate(1, Some(2));
    InwardsStep(rewards, left, right, left);
    InwardsStep(rewards, left, third, third);
    InwardsStep(rewards, second, third, third);
    NothingEvaluated(rewards, third);
    FirstEvaluated(rewards, left, 2, Inwards(rewards, left, third, third));
    FirstEvaluated(rewards, third, 1, []);
  }

  class FirstBisectionalChoice {
    /** The rewards of the values of the search, which are evaluated one by one. */
    const rewards: seq<Option<int>>

    var best: Option<Candidate>
    var candidates: seq<Candidate>

    ghost predicate Valid()
      reads this
    {
      Sampled(rewards, candidates) && BestOf(candidates, best)
    }

    constructor (rewards: seq<Option<int>>)
      ensures this.rewards == rewards && candidates == [] && best == None && Valid()
    {
      this.rewards, best, candidates := rewards, None, [];
    }

    /** Evaluates a value and adds it to the candidates. */
    method Evaluate(index: nat) returns (c: Candidate)
      requires index < |rewards| && Sampled(rewards, candidates)
      modifies this`candidates
      ensures candidates == old(candidates) + [c] && Sampled(rewards, candidates) && Grown(old(candidates), candidates)
      ensures c == Candidate(index, rewards[index])
    {
      c := Candidate(index, rewards[index]);
      candidates := candidates + [c];
    }

    method BestEnumeratedChoice() returns (decision: Option<Candidate>)
      requires candidates == [] && best == None
      modifies this
      ensures Valid() && best == decision && Optimal(rewards, decision)
      ensures forall i | 0 <= i < |rewards| :: Candidate(i, rewards[i]) in candidates
    {
      decision := None;
      for i := 0 to |rewards|
        invariant Sampled(rewards, candidates) && BestOf(candidates, decision)
        invariant Optimal(rewards[..i], decision)
        invariant forall j | 0 <= j < i :: Candidate(j, rewards[j]) in candidates
      {
        var c := Evaluate(i);
        if c.Feasible() && (decision.None? || c.reward.value > decision.value.reward.value) {
          decision := Some(c);
        }
      }
      assert rewards[..|rewards|] == rewards;
      best := decision;
    }

    /** Narrows the gap between a feasible value and an infeasible one behind it while values get better. */
    method FindBetweenFeasibleAndInfeasible(feasible: Candidate, infeasibleIndex: nat)
      requires Valid() && best.Some? && feasible in candidates && feasible.Feasible() && infeasibleIndex < |rewards|
      modifies this
      ensures Valid() && best.Some? && Better(old(best), best) && Grown(old(candidates), candidates)
      ensures
        var trace := Rightwards(rewards, feasible.index, infeasibleIndex, old(best).value.reward.value);
        && candidates == old(candidates) + Evaluated(rewards, trace) && best == Some(BestAfter(rewards, old(best).value, trace))
        && EndsRightwards(rewards, trace, feasible.index, infeasibleIndex, best.value.reward.value)
      ensures IncreasingPrefix(rewards) && old(best) == Some(feasible) && rewards[infeasibleIndex].None? ==> Optimal(rewards, best)
    {
      hide EndsRightwards, Evaluated, BestAfter, Improved, Rightwards, IncreasingPrefix, Optimal, BestOf, Better, Grown;
      assert rewards[feasible.index] == feasible.reward;
      BestIsFeasible(candidates, best.value);
      var last: Candidate, infeasible: nat := feasible, infeasibleIndex;
      ghost var start, done: seq<nat> := best.value, [];
      ghost var trace := Rightwards(rewards, feasible.index, infeasibleIndex, start.reward.value);
      NothingEvaluated(rewards, start);
      assert [] + trace == trace;
      while infeasible > last.index + 1
        invariant Valid() && best == Some(BestAfter(rewards, start, done))
        invariant candidates == old(candidates) + Evaluated(rewards, done)
        invariant trace == done + Rightwards(rewards, last.index, infeasible, best.value.reward.value)
        invariant last.Feasible() && last.index < |rewards| && rewards[last.index] == last.reward && infeasible < |rewards|
        invariant old(best) == Some(feasible) ==> best == Some(last)
        invariant rewards[infeasibleIndex].None? ==> rewards[infeasible].None?
        decreases infeasible - last.index
      {
        var mid := last.index + (infeasible - last.index + 1) / 2;
        OneMoreEvaluated(rewards, start, done, mid);
        RightwardsStep(rewards, done, last.index, infeasible, best.value.reward.value);
        BestOfMore(candidates, best.value, Candidate(mid, rewards[mid]));
        ImprovedIs(rewards, best.value, mid);
        done := done + [mid];
        var candidate := Evaluate(mid);
        if !candidate.Feasible() {
          infeasible := mid;
        } else if candidate.reward.value <= best.value.reward.value {
          // nothing further on is searched
          break;
        } else {
          best := Some(candidate);
          last := candidate;
        }
      }
      RightwardsEmpty(rewards, last.index, infeasible, best.value.reward.value);
      assert trace == done;
      RightwardsEnds(rewards, feasible.index, infeasibleIndex, start);
      TraceGrows(rewards, old(candidates), start, trace);
      assert candidates == old(candidates) + Evaluated(rewards, trace);
      if IncreasingPrefix(rewards) && old(best) == Some(feasible) && rewards[infeasibleIndex].None? {
        LastIsOptimal(rewards, last, infeasible);
      }
    }

    /** Narrows the gap between an infeasible value and a feasible one behind it while values get better. */
    method FindBetweenInfeasibleAndFeasible(infeasibleIndex: nat, feasible: Candidate)
      requires Valid() && best.Some? && feasible in candidates && feasible.Feasible() && infeasibleIndex < |rewards|
      modifies this
      ensures Valid() && best.Some? && Better(old(best), best) && Grown(old(candidates), candidates)
      ensures
        var trace := Leftwards(rewards, infeasibleIndex, feasible.index, old(best).value.reward.value);
        && candidates == old(candidates) + Evaluated(rewards, trace) && best == Some(BestAfter(rewards, old(best).value, trace))
        && EndsLeftwards(rewards, trace, infeasibleIndex, feasible.index, best.value.reward.value)
      ensures DecreasingSuffix(rewards) && old(best) == Some(feasible) && rewards[infeasibleIndex].None? ==> Optimal(rewards, best)
    {
      hide EndsLeftwards, Evaluated, BestAfter, Improved, Leftwards, DecreasingSuffix, Optimal, BestOf, Better, Grown;
      assert rewards[feasible.index] == feasible.reward;
      BestIsFeasible(candidates, best.value);
      var first: Candidate, infeasible: nat := feasible, infeasibleIndex;
      ghost var start, done: seq<nat> := best.value, [];
      ghost var trace := Leftwards(rewards, infeasibleIndex, feasible.index, start.reward.value);
      NothingEvaluated(rewards, start);
      assert [] + trace == trace;
      while first.index > infeasible + 1
        invariant Valid() && best == Some(BestAfter(rewards, start, done))
        invariant candidates == old(candidates) + Evaluated(rewards, done)
        invariant trace == done + Leftwards(rewards, infeasible, first.index, best.value.reward.value)
        invariant first.Feasible() && first.index < |rewards| && rewards[first.index] == first.reward && infeasible < |rewards|
        invariant old(best) == Some(feasible) ==> best == Some(first)
        invariant rewards[infeasibleIndex].None? ==> rewards[infeasible].None?
        decreases first.index - infeasible
      {
        var mid := infeasible + (first.index - infeasible) / 2;
        OneMoreEvaluated(rewards, start, done, mid);
        LeftwardsStep(rewards, done, infeasible, first.index, best.value.reward.value);
        BestOfMore(candidates, best.value, Candidate(mid, rewards[mid]));
        ImprovedIs(rewards, best.value, mid);
        done := done + [mid];
        var candidate := Evaluate(mid);
        if !candidate.Feasible() {
          infeasible := mid;
        } else if candidate.reward.value <= best.value.reward.value {
          // nothing further on is searched
          break;
        } else {
          best := Some(candidate);
          first := candidate;
        }
      }
      LeftwardsEmpty(rewards, infeasible, first.index, best.value.reward.value);
      assert trace == done;
      LeftwardsEnds(rewards, infeasibleIndex, feasible.index, start);
      TraceGrows(rewards, old(candidates), start, trace);
      assert candidates == old(candidates) + Evaluated(rewards, trace);
      if DecreasingSuffix(rewards) && old(best) == Some(feasible) && rewards[infeasibleIndex].None? {
        FirstIsOptimal(rewards, first, infeasible);
      }
    }

    /** Searches between two feasible values, narrowing the gap towards the better of the two. */
    method FindBetweenFeasibleAndFeasible(left: Candidate, right: Candidate)
      requires Valid() && best.Some? && left in candidates && left.Feasible() && right in candidates && right.Feasible()
      modifies this
      ensures Valid() && best.Some? && Better(old(best), best) && Grown(old(candidates), candidates)
      ensures
        var trace := Inwards(rewards, left, right, old(best).value);
        && candidates == old(candidates) + Evaluated(rewards, trace) && best == Some(BestAfter(rewards, old(best).value, trace))
        && EndsInwards(rewards, trace, left, right, best.value.reward.value)
      decreases right.index - left.index
    {
      hide EndsInwards, EndsRightwards, EndsLeftwards, Evaluated, BestAfter, Improved, Inwards, Rightwards, Leftwards;
      hide BestOf, Better, Grown;
      BestIsFeasible(candidates, best.value);
      ghost var start := best.value;
      ghost var trace := Inwards(rewards, left, right, start);
      InwardsEnds(rewards, left, right, start);
      InwardsStep(rewards, left, right, start);
      TraceGrows(rewards, candidates, start, trace);
      if right.index <= left.index + 1 {
        NothingEvaluated(rewards, start);
        assert candidates == candidates + Evaluated(rewards, trace);
        return;
      }
      var mid := left.index + (right.index - left.index) / 2;
      FirstEvaluated(rewards, start, mid, trace[1..]);
      BestOfMore(candidates, start, Candidate(mid, rewards[mid]));
      ImprovedIs(rewards, start, mid);
      var candidate := Evaluate(mid);
      if !candidate.Feasible() {
        FindOnBothSides(left, mid, right);
        assert candidates == old(candidates) + Evaluated(rewards, trace);
      } else {
        if candidate.reward.value > best.value.reward.value {
          best := Some(candidate);
        }
        if candidate.reward.value <= left.reward.value && candidate.reward.value <= right.reward.value {
          // neither side is searched further
          NothingEvaluated(rewards, best.value);
          return;
        }
        if left.reward.value >= right.reward.value {
          FindBetweenFeasibleAndFeasible(left, candidate);
        } else {
          FindBetweenFeasibleAndFeasible(candidate, right);
        }
        assert candidates == old(candidates) + Evaluated(rewards, trace);
      }
    }

    method FindOnBothSides(left: Candidate, mid: nat, right: Candidate)
      requires Valid() && best.Some? && left in candidates && left.Feasible() && right in candidates && right.Feasible()
      requires mid < |rewards|
      modifies this
      ensures Valid() && best.Some? && Better(old(best), best) && Grown(old(candidates), candidates)
      ensures
        var first := Rightwards(rewards, left.index, mid, old(best).value.reward.value);
        var between := BestAfter(rewards, old(best).value, first);
        var trace := first + Leftwards(rewards, mid, right.index, between.reward.value);
        candidates == old(candidates) + Evaluated(rewards, trace) && best == Some(BestAfter(rewards, old(best).value, trace))
    {
      hide EndsRightwards, EndsLeftwards, Evaluated, BestAfter, Rightwards, Leftwards, BestOf;
      BestIsFeasible(candidates, best.value);
      ghost var start := best.value;
      ghost var first := Rightwards(rewards, left.index, mid, start.reward.value);
      FindBetweenFeasibleAndInfeasible(left, mid);
      MoreEvaluated(rewards, start, first, Leftwards(rewards, mid, right.index, best.value.reward.value));
      FindBetweenInfeasibleAndFeasible(mid, right);
    }

    /** Searches all values from first to last, interval by interval, until one is feasible. */
    method FindFeasible(first: nat, last: nat) returns (leftIndex: Option<nat>, found: Option<Candidate>, rightIndex: Option<nat>)
      requires Sampled(rewards, candidates) && last < |rewards|
      modifies this`candidates
      ensures Sampled(rewards, candidates) && Grown(old(candidates), candidates)
      ensures found.None? ==> forall i | first <= i <= last :: rewards[i].None?
      ensures found.Some? ==>
                && found.value.Feasible() && found.value in candidates
                && FirstFound(rewards, first, last, leftIndex, found.value, rightIndex)
      ensures forall c <- candidates :: c in old(candidates) || !c.Feasible() || found == Some(c)
      ensures leftIndex.Some? ==> leftIndex.value < |rewards|
      ensures rightIndex.Some? ==> rightIndex.value < |rewards|
    {
      hide Searching, FirstFound, Remaining, Halves;
      if first > last {
        return None, None, None;
      }
      var intervals: seq<(nat, nat)> := [(first, last)];
      SearchBegins(rewards, first, last);
      while intervals != []
        invariant Sampled(rewards, candidates) && Grown(old(candidates), candidates)
        invariant forall c <- candidates :: c in old(candidates) || !c.Feasible()
        invariant Searching(rewards, intervals, first, last)
        decreases Remaining(intervals)
      {
        SearchAdvances(rewards, intervals, first, last);
        var (l, r) := intervals[0];
        ghost var before := intervals;
        intervals := intervals[1..];
        var mid: nat := l + (r - l) / 2;
        var candidate := Evaluate(mid);
        if candidate.Feasible() {
          return if mid > first then Some(l) else None, Some(candidate), if mid < last then Some(r) else None;
        }
        // the interval is replaced by what lies on either side of its middle
        if mid > l {
          intervals := intervals + [(l, mid - 1)];
        }
        if mid < r {
          intervals := intervals + [(mid + 1, r)];
        }
        HalvesAre(before[0], mid);
        assert intervals == before[1..] + Halves(before[0], mid);
      }
      SearchEnds(rewards, first, last);
      return None, None, None;
    }

    /**
     The best value found by bisection. A decision is found exactly if some value is feasible, it is the best of all
     values evaluated, and it is the optimum if feasible values come first with increasing rewards or last with
     decreasing ones.
     */
    method DiscreteBisection() returns (decision: Option<Candidate>)
      requires candidates == [] && best == None
      modifies this
      ensures Valid() && decision == best
      ensures decision.None? <==> forall i | 0 <= i < |rewards| :: rewards[i].None?
      ensures Bisected(rewards, candidates, decision)
      ensures IncreasingPrefix(rewards) || DecreasingSuffix(rewards) ==> Optimal(rewards, decision)
    {
      hide IncreasingPrefix, DecreasingSuffix, Optimal, SearchedInside;
      hide Inwards, Rightwards, Leftwards, BestAfter, Evaluated, EndsInwards, EndsRightwards, EndsLeftwards;
      if rewards == [] {
        NoneFeasible(rewards);
        return None;
      }
      var left := Evaluate(0);
      var right: Option<Candidate> := None;
      if |rewards| > 1 {
        var last := Evaluate(|rewards| - 1);
        right := Some(last);
      }
      if left.Feasible() {
        best := Some(left);
      }
      if right.Some? && right.value.Feasible() && (best.None? || right.value.reward.value > best.value.reward.value) {
        best := right;
      }
      if right.Some? {
        FindFromEnds(left, right.value);
      } else if left.Feasible() {
        LeftOnly(rewards, left);
      } else {
        NoneFeasible(rewards);
      }
      return best;
    }

    /** Searches between the ends, from the feasible end, or inside. */
    method FindFromEnds(left: Candidate, right: Candidate)
      requires |rewards| > 1 && left == Candidate(0, rewards[0]) && right == Candidate(|rewards| - 1, rewards[|rewards| - 1])
      requires Valid() && candidates == [left, right] && best == BetterEnd(left, right)
      modifies this
      ensures Valid() && Bisected(rewards, candidates, best)
      ensures best.None? <==> forall i | 0 <= i < |rewards| :: rewards[i].None?
      ensures IncreasingPrefix(rewards) || DecreasingSuffix(rewards) ==> Optimal(rewards, best)
    {
      hide IncreasingPrefix, DecreasingSuffix, Optimal, SearchedInside, Better, Grown, BestOf;
      hide Inwards, Rightwards, Leftwards, BestAfter, Evaluated, EndsInwards, EndsRightwards, EndsLeftwards;
      ghost var optimum := best;
      if left.Feasible() && right.Feasible() {
        FindBetweenFeasibleAndFeasible(left, right);
        if IncreasingPrefix(rewards) || DecreasingSuffix(rewards) {
          BestIsSampled(rewards, candidates, best.value);
          BoundariesAreOptimal(rewards, left, right);
          OptimumStays(rewards, optimum, best);
        }
      } else if left.Feasible() {
        FindBetweenFeasibleAndInfeasible(left, |rewards| - 1);
        BestIsSampled(rewards, candidates, best.value);
        LeftOnly(rewards, best.value);
      } else if right.Feasible() {
        FindBetweenInfeasibleAndFeasible(0, right);
        RightOnly(rewards);
      } else {
        SearchInside();
        NoneFeasible(rewards);
      }
    }

    /** Neither the first nor the last value is feasible. */
    method SearchInside()
      requires Valid() && best == None && |rewards| > 0 && rewards[0].None? && rewards[|rewards| - 1].None?
      modifies this
      ensures Valid()
      ensures best.None? <==> forall i | 0 <= i < |rewards| :: rewards[i].None?
      ensures SearchedInside(rewards, best)
    {
      hide FirstFound, BestAfter, Evaluated, Leftwards, Rightwards, EndsLeftwards, EndsRightwards;
      if |rewards| <= 2 {
        return;
      }
      var leftIndex, candidate, rightIndex := FindFeasible(1, |rewards| - 2);
      if candidate.None? {
        return;
      }
      best := candidate;
      assert best.value in candidates;
      assert BestInside(rewards, leftIndex, candidate.value, rightIndex) == BestInside(rewards, leftIndex, best.value, rightIndex);
      if leftIndex.Some? {
        FindBetweenInfeasibleAndFeasible(leftIndex.value, best.value);
      }
      if rightIndex.Some? {
        FindBetweenFeasibleAndInfeasible(best.value, rightIndex.value);
      }
    }
  }

  lemma LastFeasibleIsOptimal(rewards: seq<Option<int>>, c: Candidate)
    requires IncreasingPrefix(rewards) && c.index < |rewards| && c.Feasible() && rewards[c.index] == c.reward
    requires c.index + 1 < |rewards| ==> rewards[c.index + 1].None?
    ensures Optimal(rewards, Some(c))
  {
  }

  lemma FirstFeasibleIsOptimal(rewards: seq<Option<int>>, c: Candidate)
    requires DecreasingSuffix(rewards) && c.index < |rewards| && c.Feasible() && rewards[c.index] == c.reward
    requires c.index > 0 ==> rewards[c.index - 1].None?
    ensures Optimal(rewards, Some(c))
  {
  }

  lemma LeftOnly(rewards: seq<Option<int>>, best: Candidate)
    requires rewards != [] && rewards[0].Some? && (|rewards| > 1 ==> rewards[|rewards| - 1].None?)
    requires best.index < |rewards| && best.Feasible() && rewards[best.index] == best.reward
    ensures |rewards| > 1 && DecreasingSuffix(rewards) ==> IncreasingPrefix(rewards)
    ensures |rewards| == 1 ==> Optimal(rewards, Some(best))
  {
  }

  lemma RightOnly(rewards: seq<Option<int>>)
    requires |rewards| > 1 && rewards[0].None? && rewards[|rewards| - 1].Some?
    ensures IncreasingPrefix(rewards) ==> DecreasingSuffix(rewards)
  {
  }

  lemma NoneFeasible(rewards: seq<Option<int>>)
    requires rewards != [] ==> rewards[0].None? && rewards[|rewards| - 1].None?
    ensures IncreasingPrefix(rewards) || DecreasingSuffix(rewards) ==> forall i | 0 <= i < |rewards| :: rewards[i].None?
    ensures (forall i | 0 <= i < |rewards| :: rewards[i].None?) ==> Optimal(rewards, None)
  {
  }

  /** If both boundaries are feasible and rewards are monotone, the better boundary is the optimum. */
  lemma BoundariesAreOptimal(rewards: seq<Option<int>>, left: Candidate, right: Candidate)
    requires |rewards| > 1 && left == Candidate(0, rewards[0]) && right == Candidate(|rewards| - 1, rewards[|rewards| - 1])
    requires left.Feasible() && right.Feasible() && (IncreasingPrefix(rewards) || DecreasingSuffix(rewards))
    ensures Optimal(rewards, Some(if right.reward.value > left.reward.value then right else left))
  {
    if IncreasingPrefix(rewards) {
      LastFeasibleIsOptimal(rewards, right);
    } else {
      FirstFeasibleIsOptimal(rewards, left);
    }
  }

  // ---------- the intervals still to be searched ----------

  ghost predicate Within(intervals: seq<(nat, nat)>, first: nat, last: nat) {
    forall k | 0 <= k < |intervals| :: first <= intervals[k].0 <= intervals[k].1 <= last
  }

  ghost predicate InSome(intervals: seq<(nat, nat)>, i: int) {
    exists k :: 0 <= k < |intervals| && intervals[k].0 <= i <= intervals[k].1
  }

  /** Every value not in an interval has been found infeasible. */
  ghost predicate Covers(intervals: seq<(nat, nat)>, first: nat, last: nat, rewards: seq<Option<int>>)
    requires last < |rewards|
  {
    forall i | first <= i <= last :: rewards[i].None? || InSome(intervals, i)
  }

  lemma AllCovered(first: nat, last: nat, rewards: seq<Option<int>>)
    requires last < |rewards|
    ensures Covers([(first, last)], first, last, rewards)
  {
    forall i | first <= i <= last ensures InSome([(first, last)], i) {
      var interval: (nat, nat) := [(first, last)][0];
      assert interval.0 <= i <= interval.1;
    }
  }

  ghost function Length(interval: (nat, nat)): nat {
    if interval.0 <= interval.1 then interval.1 - interval.0 + 1 else 0
  }

  ghost function Remaining(intervals: seq<(nat, nat)>): nat {
    if intervals == [] then 0 else Length(intervals[0]) + Remaining(intervals[1..])
  }

  lemma {:induction false} RemainingOfConcatenated(a: seq<(nat, nat)>, b: seq<(nat, nat)>)
    ensures Remaining(a + b) == Remaining(a) + Remaining(b)
  {
    if a == [] {
      assert a + b == b;
    } else {
      RemainingOfConcatenated(a[1..], b);
      assert (a + b)[1..] == a[1..] + b;
    }
  }

  /** The halves of an interval, without the value in its middle. */
  ghost function Halves(interval: (nat, nat), mid: nat): seq<(nat, nat)>
    requires interval.0 <= mid <= interval.1
  {
    var left: seq<(nat, nat)> := if mid > interval.0 then [(interval.0, mid - 1)] else [];
    var right: seq<(nat, nat)> := if mid < interval.1 then [(mid + 1, interval.1)] else [];
    left + right
  }

  lemma HalvesCover(interval: (nat, nat), mid: nat, i: int)
    requires interval.0 <= mid <= interval.1 && interval.0 <= i <= interval.1 && i != mid
    ensures InSome(Halves(interval, mid), i)
  {
    var halves := Halves(interval, mid);
    if i < mid {
      assert halves[0] == (interval.0, mid - 1);
    } else {
      var k := if mid > interval.0 then 1 else 0;
      assert halves[k] == (mid + 1, interval.1);
    }
  }

  lemma HalvesShrink(interval: (nat, nat), mid: nat)
    requires interval.0 <= mid <= interval.1
    ensures Remaining(Halves(interval, mid)) < Length(interval)
  {
    var left: seq<(nat, nat)> := if mid > interval.0 then [(interval.0, mid - 1)] else [];
    var right: seq<(nat, nat)> := if mid < interval.1 then [(mid + 1, interval.1)] else [];
    RemainingOfConcatenated(left, right);
  }

  lemma HalvesRemain(before: seq<(nat, nat)>, first: nat, last: nat, mid: nat, rewards: seq<Option<int>>)
    requires before != [] && last < |rewards| && Within(before, first, last) && Covers(before, first, last, rewards)
    requires before[0].0 <= mid <= before[0].1 && rewards[mid].None?
    ensures
      var after := before[1..] + Halves(before[0], mid);
      Within(after, first, last) && Covers(after, first, last, rewards) && Remaining(after) < Remaining(before)
  {
    var rest, halves := before[1..], Halves(before[0], mid);
    var after := rest + halves;
    RemainingOfConcatenated(rest, halves);
    HalvesShrink(before[0], mid);
    forall i | first <= i <= last ensures rewards[i].None? || InSome(after, i) {
      if rewards[i].Some? {
        StillCovered(before, i, mid);
      }
    }
  }

  lemma StillCovered(before: seq<(nat, nat)>, i: int, mid: nat)
    requires before != [] && before[0].0 <= mid <= before[0].1 && InSome(before, i) && i != mid
    ensures InSome(before[1..] + Halves(before[0], mid), i)
  {
    var rest, halves := before[1..], Halves(before[0], mid);
    var after := rest + halves;
    var k :| 0 <= k < |before| && before[k].0 <= i <= before[k].1;
    if k > 0 {
      assert after[k - 1] == before[k];
    } else {
      HalvesCover(before[0], mid, i);
      var h :| 0 <= h < |halves| && halves[h].0 <= i <= halves[h].1;
      assert after[|rest| + h] == halves[h];
    }
  }
}
