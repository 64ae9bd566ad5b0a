/**
 The collections of entry decisions built on the cache, with the world they observe. Every method takes steps of a run
 of the collection, from whatever state it is called in; what it yields is right where the cache agrees with evaluating
 anew before.
 */
module EntryCaching {
  import opened Basics
  import opened Sequences
  import opened Caching
  import opened CacheStates
  import opened CacheRuns

  class EntryCandidates {
    const source: Source
    const evaluate: Evaluator

    // what is observed: the decisions whose token and request exist, the time, and the data
    var live: set<Decision>
    ghost var known: set<Decision>
    var now: int
    var data: Data

    // the cache
    var timestamp: Option<int>
    var unevaluated: seq<Decision>
    var timeDependentEvaluations: seq<Decision>
    var dataDependentEvaluations: InstanceEvaluations
    var timeAndDataDependentEvaluations: InstanceEvaluations
    var candidates: seq<Candidate>
    var evaluations: map<Decision, Evaluation>
    var stamps: nat

    ghost function State(): Cache
      reads this
    {
      Cache(source, evaluate, World(live, known, now, data), timestamp,
            Indexes(unevaluated, timeDependentEvaluations, dataDependentEvaluations, timeAndDataDependentEvaluations),
            Listing(candidates, evaluations, stamps))
    }

    constructor (source: Source, evaluate: Evaluator, now: int, data: Data)
      requires Declared(evaluate)
      ensures State().Valid() && State().source == source && State().evaluate == evaluate
      ensures State().world == World({}, {}, now, data)
    {
      this.source, this.evaluate, this.now, this.data := source, evaluate, now, data;
      live, known, timestamp, unevaluated, timeDependentEvaluations := {}, {}, None, [], [];
      dataDependentEvaluations, timeAndDataDependentEvaluations := NO_EVALUATIONS, NO_EVALUATIONS;
      candidates, evaluations, stamps := [], map[], 0;
    }

    /** An entry is requested; a decision handled here awaits its evaluation. */
    method Notice(d: Decision)
      requires d !in known
      modifies this`live, this`known, this`unevaluated
      ensures Leads(old(State()), Request(d), State())
      ensures Keeps(old(State()), State())
      ensures live == old(live) + {d} && known == old(known) + {d}
      ensures if source == FirstFeasibleEntry(true) || d.inSequential == source.SequentialEntries?
              then unevaluated == old(unevaluated) + [d] else unevaluated == old(unevaluated)
    {
      hide Keeps;
      live, known := live + {d}, known + {d};
      if Handles(source, d) {
        AddDecision(d);
      }
      LeadsKeeps(old(State()), Request(d), State());
    }

    method AddDecision(d: Decision)
      modifies this`unevaluated
      ensures unevaluated == old(unevaluated) + [d]
    {
      unevaluated := unevaluated + [d];
    }

    /** A request is withdrawn, or its token ceases to exist. */
    method Expire(d: Decision)
      modifies this`live
      ensures Leads(old(State()), Expiry(d), State())
      ensures Keeps(old(State()), State())
    {
      hide Keeps;
      live := live - {d};
      LeadsKeeps(old(State()), Expiry(d), State());
    }

    /** Time passes; the collection learns of it when it is next iterated. */
    method Tick(time: int)
      requires now <= time
      modifies this`now
      ensures Leads(old(State()), Passing(time), State())
      ensures Keeps(old(State()), State())
    {
      hide Keeps;
      now := time;
      LeadsKeeps(old(State()), Passing(time), State());
    }

    /** The evaluation of a decision is dropped, and with it its candidate; the decision is pending again. */
    method Requeue(d: Decision)
      modifies this`unevaluated, this`evaluations
      ensures unevaluated == old(unevaluated) + [d] && evaluations == Reset(old(evaluations), [d])
    {
      evaluations := evaluations - {d};
      unevaluated := unevaluated + [d];
    }

    /** Requeues the decisions of a list that depend on the attributes. */
    method RemoveObsolete(attributes: seq<Attribute>, list: seq<Decision>) returns (kept: seq<Decision>)
      modifies this`unevaluated, this`evaluations
      ensures kept == Retained(list, live, attributes)
      ensures unevaluated == old(unevaluated) + Obsolete(list, live, attributes)
      ensures evaluations == Reset(old(evaluations), Obsolete(list, live, attributes))
    {
      hide Obsolete, Retained, Reset;
      ObsoleteOfNone(list, live, attributes);
      ResetNone(evaluations);
      kept := [];
      for k := 0 to |list|
        invariant kept == Retained(list[..k], live, attributes)
        invariant unevaluated == old(unevaluated) + Obsolete(list[..k], live, attributes)
        invariant evaluations == Reset(old(evaluations), Obsolete(list[..k], live, attributes))
      {
        ObsoleteStep(list, live, attributes, k);
        ghost var obsolete := Obsolete(list[..k], live, attributes);
        AppendTwice(old(unevaluated), obsolete, [list[k]]);
        ResetTwice(old(evaluations), obsolete, [list[k]]);
        if list[k] in live {
          if Intersect(attributes, list[k].dependencies) {
            Requeue(list[k]);
          } else {
            kept := kept + [list[k]];
          }
        }
      }
      assert list[..|list|] == list;
    }

    /** A global attribute concerns the evaluations of every instance, any other one those of the instance writing it. */
    method RemoveDependentEvaluations(update: DataUpdate, ie: InstanceEvaluations) returns (r: InstanceEvaluations)
      requires ie.Valid()
      modifies this`unevaluated, this`evaluations
      ensures Removed(ie, r, update, live)
      ensures unevaluated == old(unevaluated) + MovedFrom(ie, update, live, |ie.lists|)
      ensures evaluations == Reset(old(evaluations), MovedFrom(ie, update, live, |ie.lists|))
    {
      hide Obsolete, Retained, Reset;
      ResetNone(evaluations);
      var globalAttributes := Globals(update.attributes);
      if globalAttributes != [] {
        r := RemoveFromAll(update, ie);
      } else {
        r := ie;
        MovedFromOwn(ie, update, live, |ie.lists|);
        if update.instance in ie.positions {
          var p := ie.positions[update.instance];
          var kept := RemoveObsolete(update.attributes, ie.lists[p]);
          r := r.(lists := r.lists[p := kept]);
        }
      }
    }

    method RemoveFromAll(update: DataUpdate, ie: InstanceEvaluations) returns (r: InstanceEvaluations)
      requires ie.Valid()
      modifies this`unevaluated, this`evaluations
      ensures Removed(ie, r, update, live)
      ensures unevaluated == old(unevaluated) + MovedFrom(ie, update, live, |ie.lists|)
      ensures evaluations == Reset(old(evaluations), MovedFrom(ie, update, live, |ie.lists|))
    {
      hide Obsolete, Retained, Reset, WrittenFor;
      ResetNone(evaluations);
      r := ie;
      for p := 0 to |ie.lists|
        invariant r.positions == ie.positions && |r.lists| == |ie.lists|
        invariant forall q | 0 <= q < p :: r.lists[q] == Retained(ie.lists[q], live, WrittenFor(ie, update, q))
        invariant forall q | p <= q < |ie.lists| :: r.lists[q] == ie.lists[q]
        invariant unevaluated == old(unevaluated) + MovedFrom(ie, update, live, p)
        invariant evaluations == Reset(old(evaluations), MovedFrom(ie, update, live, p))
      {
        ghost var obsolete := Obsolete(ie.lists[p], live, WrittenFor(ie, update, p));
        var kept := RemoveObsolete(WrittenFor(ie, update, p), ie.lists[p]);
        AppendTwice(old(unevaluated), MovedFrom(ie, update, live, p), obsolete);
        ResetTwice(old(evaluations), MovedFrom(ie, update, live, p), obsolete);
        r := r.(lists := r.lists[p := kept]);
      }
    }

    /** Data was written and the update is announced: what it affects is pending again. */
    method DataUpdated(update: DataUpdate)
      requires dataDependentEvaluations.Valid() && timeAndDataDependentEvaluations.Valid()
      modifies this`unevaluated, this`evaluations, this`dataDependentEvaluations, this`timeAndDataDependentEvaluations
      ensures Updated(old(State()), update, data, State())
    {
      hide Removed, MovedFrom, Reset;
      ghost var ix, evaluated := State().indexes, evaluations;
      dataDependentEvaluations := RemoveDependentEvaluations(update, dataDependentEvaluations);
      ghost var first := MovedFrom(ix.dataDependent, update, live, |ix.dataDependent.lists|);
      timeAndDataDependentEvaluations := RemoveDependentEvaluations(update, timeAndDataDependentEvaluations);
      ghost var second := MovedFrom(ix.timeAndDataDependent, update, live, |ix.timeAndDataDependent.lists|);
      AppendTwice(ix.unevaluated, first, second);
      ResetTwice(evaluated, first, second);
    }

    /** Attributes are written by a token and the write is announced. */
    method Write(update: DataUpdate, written: Data)
      requires State().Consistent() && Announced(update, data, written)
      modifies this`data, this`unevaluated, this`evaluations
      modifies this`dataDependentEvaluations, this`timeAndDataDependentEvaluations
      ensures Leads(old(State()), Update(update, written), State())
      ensures Keeps(old(State()), State())
    {
      hide Removed, MovedFrom, Reset, Announced, Keeps;
      data := written;
      DataUpdated(update);
      LeadsKeeps(old(State()), Update(update, written), State());
    }

    /** Requeues the live decisions of a list. */
    method RequeueAll(list: seq<Decision>)
      modifies this`unevaluated, this`evaluations
      ensures unevaluated == old(unevaluated) + Live(list, live)
      ensures evaluations == Reset(old(evaluations), Live(list, live))
    {
      hide Reset;
      ResetNone(evaluations);
      for k := 0 to |list|
        invariant unevaluated == old(unevaluated) + Live(list[..k], live)
        invariant evaluations == Reset(old(evaluations), Live(list[..k], live))
      {
        LiveStep(list, live, k);
        AppendTwice(old(unevaluated), Live(list[..k], live), [list[k]]);
        ResetTwice(old(evaluations), Live(list[..k], live), [list[k]]);
        if list[k] in live {
          Requeue(list[k]);
        }
      }
      assert list[..|list|] == list;
    }

    method RequeueInstances(ie: InstanceEvaluations)
      modifies this`unevaluated, this`evaluations
      ensures unevaluated == old(unevaluated) + LiveIn(ie, live, |ie.lists|)
      ensures evaluations == Reset(old(evaluations), LiveIn(ie, live, |ie.lists|))
    {
      hide Reset, Live;
      ResetNone(evaluations);
      for p := 0 to |ie.lists|
        invariant unevaluated == old(unevaluated) + LiveIn(ie, live, p)
        invariant evaluations == Reset(old(evaluations), LiveIn(ie, live, p))
      {
        AppendTwice(old(unevaluated), LiveIn(ie, live, p), Live(ie.lists[p], live));
        ResetTwice(old(evaluations), LiveIn(ie, live, p), Live(ie.lists[p], live));
        RequeueAll(ie.lists[p]);
      }
    }

    /** The clock has ticked: every evaluation depending on time is pending again. */
    method ClockTick()
      modifies this`unevaluated, this`evaluations, this`timeDependentEvaluations, this`timeAndDataDependentEvaluations
      ensures unevaluated == old(unevaluated) + TickMoves(old(State()).indexes, live)
      ensures evaluations == Reset(old(evaluations), TickMoves(old(State()).indexes, live))
      ensures timeDependentEvaluations == [] && timeAndDataDependentEvaluations == NO_EVALUATIONS
    {
      hide Reset, Live, LiveIn;
      ghost var ix := State().indexes;
      ghost var first := Live(ix.timeDependent, live);
      ghost var second := LiveIn(ix.timeAndDataDependent, live, |ix.timeAndDataDependent.lists|);
      RequeueAll(timeDependentEvaluations);
      timeDependentEvaluations := [];
      RequeueInstances(timeAndDataDependentEvaluations);
      timeAndDataDependentEvaluations := NO_EVALUATIONS;
      AppendTwice(ix.unevaluated, first, second);
      ResetTwice(old(evaluations), first, second);
    }

    method AdvanceTime(currentTime: int)
      requires currentTime == now
      modifies this`timestamp
      modifies this`unevaluated, this`evaluations, this`timeDependentEvaluations, this`timeAndDataDependentEvaluations
      ensures Leads(old(State()), Advance, State()) && State().Asked()
      ensures Keeps(old(State()), State())
    {
      hide Reset, TickMoves, Keeps;
      if timestamp.None? || timestamp.value < currentTime {
        timestamp := Some(currentTime);
        ClockTick();
      }
      LeadsKeeps(old(State()), Advance, State());
    }

    /** Lists a decision that has just been evaluated, and indexes it for what its evaluation depends on. */
    method AddEvaluation(d: Decision, reward: Option<int>)
      requires State().indexes.Valid() && Ordered(candidates) && Stamped(candidates, stamps) && d !in evaluations
      modifies this`candidates, this`evaluations, this`stamps
      modifies this`timeDependentEvaluations, this`dataDependentEvaluations, this`timeAndDataDependentEvaluations
      ensures IsListed(old(State()).listing, d, reward, State().listing)
      ensures State().indexes == Index(old(State()).indexes, d)
    {
      var evaluation: Option<Evaluation> := None;
      if reward.Some? {
        evaluation := Some(Evaluation(reward.value, stamps));
        evaluations := evaluations[d := Evaluation(reward.value, stamps)];
      }
      candidates := Emplace(candidates, Candidate(reward, d, evaluation), stamps);
      stamps := stamps + 1;
      if d.timeDependent && d.dependencies == {} {
        timeDependentEvaluations := timeDependentEvaluations + [d];
      } else if !d.timeDependent && d.dependencies != {} {
        dataDependentEvaluations := dataDependentEvaluations.Add(d);
      } else if d.timeDependent && d.dependencies != {} {
        timeAndDataDependentEvaluations := timeAndDataDependentEvaluations.Add(d);
      }
    }

    /** Evaluates the first pending decision unless its request is gone. */
    method EvaluateNext() returns (d: Decision, reward: Option<int>)
      requires State().Consistent() && State().Asked() && unevaluated != []
      modifies this`unevaluated, this`candidates, this`evaluations, this`stamps
      modifies this`timeDependentEvaluations, this`dataDependentEvaluations, this`timeAndDataDependentEvaluations
      ensures Leads(old(State()), Evaluate, State()) && State().Consistent()
      ensures [d] + unevaluated == old(unevaluated) && d !in unevaluated && (d in live ==> State().Own(d))
      ensures reward == if d in live then evaluate(d, now, data) else None
    {
      hide Leads, Index, IsListed;
      ghost var before := State();
      var rest := unevaluated[1..];
      d := unevaluated[0];
      assert unevaluated == [d] + rest;
      PopKeeps(before.indexes, d, rest);
      assert d in before.indexes.unevaluated;
      unevaluated := rest;
      reward := None;
      if d in live {
        reward := evaluate(d, now, data);
        AddEvaluation(d, reward);
      }
      IsEvaluated(before, State());
      StepKeeps(before, Evaluate, State());
    }

    /** Evaluates pending decisions in turn, up to the first feasible one if so asked. */
    method EvaluateDecisions(stopAtFeasible: bool) returns (dispatched: Option<Decision>)
      requires State().Consistent() && State().Asked()
      modifies this`unevaluated, this`candidates, this`evaluations, this`stamps
      modifies this`timeDependentEvaluations, this`dataDependentEvaluations, this`timeAndDataDependentEvaluations
      ensures Reaches(old(State()), State()) && State().Consistent()
      ensures Drained(old(State()), old(unevaluated), stopAtFeasible, dispatched, unevaluated)
      ensures dispatched.None? ==> unevaluated == []
      ensures dispatched.Some? ==>
        && dispatched.value !in unevaluated
        && State().Own(dispatched.value) && RewardNow(State(), dispatched.value).Some?
    {
      hide Leads, Reaches, FeasibleNow, Drained, Cache.Consistent;
      ReachesItself(State());
      ghost var queue, k := unevaluated, 0;
      while unevaluated != []
        invariant State().Consistent() && Reaches(old(State()), State())
        invariant k <= |queue| && unevaluated == queue[k..]
        invariant stopAtFeasible ==> forall j | 0 <= j < k :: !FeasibleNow(old(State()), queue[j])
        decreases |unevaluated|
      {
        ghost var before := State();
        assert unevaluated[0] == queue[k];
        var d, reward := EvaluateNext();
        assert unevaluated == queue[k + 1..];
        ReachesNext(old(State()), before, Evaluate, State());
        assert (reward.Some?) == FeasibleNow(old(State()), d) by { IsFeasible(old(State()), d); }
        DrainedSoFar(old(State()), queue, k, stopAtFeasible);
        if stopAtFeasible && reward.Some? {
          return Some(d);
        }
        k := k + 1;
      }
      DrainedToEnd(old(State()), queue, stopAtFeasible);
      return None;
    }

    /** The first candidate that is not expired; those before it are removed. */
    method Front() returns (front: Option<Candidate>)
      requires State().Consistent()
      modifies this`candidates
      ensures Reaches(old(State()), State()) && State().Consistent()
      ensures front.None? ==> candidates == []
      ensures front.Some? ==> candidates != [] && front.value == candidates[0] && !Expired(candidates[0], live, State().listing)
    {
      hide Reaches, Expired;
      ReachesItself(State());
      while candidates != [] && Expired(candidates[0], live, Listing(candidates, evaluations, stamps))
        invariant State().Consistent() && Reaches(old(State()), State())
        decreases |candidates|
      {
        ghost var before := State();
        candidates := candidates[1..];
        assert Leads(before, Drop, State());
        ReachesNext(old(State()), before, Drop, State());
        StepKeeps(before, Drop, State());
      }
      front := if candidates == [] then None else Some(candidates[0]);
    }

    /** The collection is asked for its candidates: time advances, and pending decisions are evaluated. */
    method Prepare() returns (dispatched: Option<Decision>)
      requires State().Consistent()
      modifies this`timestamp, this`unevaluated, this`candidates, this`evaluations, this`stamps
      modifies this`timeDependentEvaluations, this`dataDependentEvaluations, this`timeAndDataDependentEvaluations
      ensures Reaches(old(State()), State()) && State().Consistent() && State().Asked()
      ensures Drained(old(State()), Advanced(old(State())).indexes.unevaluated, source.FirstFeasibleEntry?, dispatched, unevaluated)
      ensures dispatched.None? ==> unevaluated == []
      ensures dispatched.Some? ==>
        && source.FirstFeasibleEntry? && dispatched.value !in unevaluated
        && State().Own(dispatched.value) && RewardNow(State(), dispatched.value).Some?
    {
      hide Reaches, Cache.Consistent, Drained, Advanced;
      ReachesItself(State());
      ghost var before := State();
      AdvanceTime(now);
      ghost var middle := State();
      ReachesNext(before, before, Advance, middle);
      StepKeeps(before, Advance, middle);
      dispatched := EvaluateDecisions(source.FirstFeasibleEntry?);
      assert middle == Advanced(before);
      SameDrained(middle, before, middle.indexes.unevaluated, source.FirstFeasibleEntry?, dispatched, unevaluated);
      ReachesFurther(before, middle, State());
    }

    /**
     What a dispatcher takes from the collection: the best candidate after evaluating what is pending, or, from a
     collection that stops at the first feasible decision, the best candidate so far. None is taken exactly if no
     live decision handled here is feasible now, and what is taken carries the reward it would get now.
     */
    method Dispatch() returns (taken: Option<Candidate>)
      requires State().Consistent()
      modifies this`timestamp, this`unevaluated, this`candidates, this`evaluations, this`stamps
      modifies this`timeDependentEvaluations, this`dataDependentEvaluations, this`timeAndDataDependentEvaluations
      ensures State().Consistent() && State().Asked() && Reaches(old(State()), State())
      ensures exists dispatched ::
                Drained(old(State()), Advanced(old(State())).indexes.unevaluated, source.FirstFeasibleEntry?, dispatched, unevaluated)
      ensures old(State()).Valid() ==> State().Valid()
      ensures old(State()).Valid() ==> (taken.None? <==> forall d | State().Own(d) :: RewardNow(State(), d).None?)
      ensures old(State()).Valid() && taken.Some? ==>
        && State().Own(taken.value.decision) && taken.value.reward.Some?
        && taken.value.reward == RewardNow(State(), taken.value.decision)
      ensures old(State()).Valid() && taken.Some? ==>
        forall d | State().Own(d) && d !in unevaluated && RewardNow(State(), d).Some? ::
          RewardNow(State(), d).value <= taken.value.reward.value
      ensures source.SequentialEntries? ==> unevaluated == []
    {
      hide Cache.Valid, Cache.Consistent, Expired, Reaches, Advanced, FeasibleNow;
      ghost var before := State();
      var dispatched := Prepare();
      ghost var middle := State();
      taken := Front();
      ReachesFurther(before, middle, State());
      ReachedKeeps(before, State());
      if before.Valid() {
        if taken.Some? {
          FrontIsBest(State());
        } else {
          NothingIsYielded(State());
        }
      }
    }

    /**
     Iterates the collection, removing what is expired. The candidates yielded are those that are live, each carrying
     the reward it would get now, best first; from a collection evaluating all decisions, these are all feasible ones.
     */
    method Iterate() returns (yielded: seq<Candidate>)
      requires State().Consistent()
      modifies this`timestamp, this`unevaluated, this`candidates, this`evaluations, this`stamps
      modifies this`timeDependentEvaluations, this`dataDependentEvaluations, this`timeAndDataDependentEvaluations
      ensures State().Consistent() && State().Asked() && Reaches(old(State()), State())
      ensures exists dispatched ::
                Drained(old(State()), Advanced(old(State())).indexes.unevaluated, source.FirstFeasibleEntry?, dispatched, unevaluated)
      ensures yielded == Yielded(State())
      ensures old(State()).Valid() ==> State().Valid() && Ordered(yielded)
      ensures old(State()).Valid() ==> forall x <- yielded ::
                State().Own(x.decision) && x.reward.Some? && x.reward == RewardNow(State(), x.decision)
      ensures old(State()).Valid() ==>
                forall d | State().Own(d) && d !in unevaluated && RewardNow(State(), d).Some? ::
                  exists x <- yielded :: x.decision == d
      ensures source.SequentialEntries? ==> unevaluated == []
    {
      hide Cache.Valid, Cache.Consistent, Reaches, Advanced, FeasibleNow;
      ghost var before := State();
      var _ := Prepare();
      ghost var middle := State();
      yielded := [];
      for k := 0 to |candidates|
        invariant yielded == Unexpired(candidates[..k], live, State().listing)
      {
        assert ButLast(candidates[..k + 1]) == candidates[..k];
        if !Expired(candidates[k], live, Listing(candidates, evaluations, stamps)) {
          yielded := yielded + [candidates[k]];
        }
      }
      assert candidates[..|candidates|] == candidates;
      PruneKeeps(middle);
      candidates := yielded;
      assert Leads(middle, Prune, State());
      ReachesNext(before, middle, Prune, State());
      ReachedKeeps(before, State());
      if before.Valid() {
        YieldedAreFresh(State());
        forall d | State().Own(d) && d !in unevaluated && RewardNow(State(), d).Some?
          ensures exists x <- yielded :: x.decision == d
        {
          FeasibleAreYielded(State(), d);
        }
      }
    }

    method Rebuild(pending: seq<Decision>)
      requires unevaluated == []
      modifies this`unevaluated
      ensures unevaluated == Handled(source, pending)
    {
      for k := 0 to |pending|
        invariant unevaluated == Handled(source, pending[..k])
      {
        HandledStep(source, pending, k);
        if Handles(source, pending[k]) {
          AddDecision(pending[k]);
        }
      }
      assert pending[..|pending|] == pending;
    }

    /** Another state is installed: the cache is cleared and rebuilt, and the time of the last tick is kept. */
    method Install(pending: seq<Decision>, time: int, installed: Data)
      requires Declared(evaluate) && Distinct(pending)
      modifies this
      ensures live == (set d <- pending) && data == installed
      ensures Installed(State(), source, evaluate, time, old(timestamp)) && State().Consistent()
      ensures (timestamp.Some? ==> Steady(source, evaluate, time, timestamp.value)) ==> State().Valid()
    {
      hide Cache.Valid, Cache.Consistent, Distinct, Declared, Installed, Steady, Handled;
      candidates, evaluations, unevaluated, timeDependentEvaluations := [], map[], [], [];
      dataDependentEvaluations, timeAndDataDependentEvaluations := NO_EVALUATIONS, NO_EVALUATIONS;
      live, now, data := (set d <- pending), time, installed;
      known := live;
      Rebuild(pending);
      RebuiltIsInstalled(State(), pending);
      InstalledIsValid(State(), source, evaluate, time, old(timestamp));
    }
  }
}
