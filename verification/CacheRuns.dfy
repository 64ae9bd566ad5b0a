/**
 The runs of a cached collection: whatever requests, expirations, writes and clock ticks it observes, and however often
 it is iterated. The time of the last tick is kept when another state is installed, and decides which runs stay right.
 */
module CacheRuns {
  import opened Basics
  import opened Sequences
  import opened Caching
  import opened CacheStates

  /** What the collection observes, and the steps in which it is iterated. */
  datatype Event =
    | Request(d: Decision) | Expiry(d: Decision) | Passing(time: int) | Update(update: DataUpdate, written: Data)
    | Advance | Evaluate | Drop | Prune

  /** The first pending decision is evaluated at the present time, or skipped if its request is gone. */
  ghost predicate EvaluatesTo(c: Cache, r: Cache)
    requires c.indexes.Valid() && c.indexes.unevaluated != []
  {
    var d, rest := c.indexes.unevaluated[0], c.indexes.unevaluated[1..];
    if d in c.world.live then
      && IsListed(c.listing, d, RewardNow(c, d), r.listing)
      && r == c.(indexes := Index(c.indexes.(unevaluated := rest), d), listing := r.listing)
    else r == c.(indexes := c.indexes.(unevaluated := rest))
  }

  /** The event leads from one state of the collection to another. */
  ghost predicate Leads(c: Cache, e: Event, r: Cache) {
    match e
    case Request(d) => d !in c.world.known && r == Noticed(c, d)
    case Expiry(d) => r == c.(world := c.world.(live := c.world.live - {d}))
    case Passing(time) => c.world.now <= time && r == c.(world := c.world.(now := time))
    case Update(update, written) => Announced(update, c.world.data, written) && Updated(c, update, written, r)
    case Advance => r == Advanced(c)
    case Evaluate => c.Asked() && c.indexes.Valid() && c.indexes.unevaluated != [] && EvaluatesTo(c, r)
    case Drop =>
      && c.listing.candidates != [] && Expired(c.listing.candidates[0], c.world.live, c.listing)
      && r == c.(listing := c.listing.(candidates := c.listing.candidates[1..]))
    case Prune => r == c.(listing := c.listing.(candidates := Yielded(c)))
  }

  lemma IsEvaluated(c: Cache, r: Cache)
    requires c.Asked() && c.indexes.Valid() && c.indexes.unevaluated != [] && EvaluatesTo(c, r)
    ensures Leads(c, Evaluate, r)
  {
  }

  ghost predicate Step(c: Cache, r: Cache) {
    exists e :: Leads(c, e, r)
  }

  ghost predicate IsRun(states: seq<Cache>) {
    states != [] && forall i | 0 <= i < |states| - 1 :: Follows(states, i)
  }

  ghost predicate Follows(states: seq<Cache>, i: nat)
    requires i < |states| - 1
  {
    Step(states[i], states[i + 1])
  }

  /** Some run leads from one state to the other. */
  ghost predicate Reaches(c: Cache, r: Cache) {
    exists states :: IsRun(states) && states[0] == c && Last(states) == r
  }

  // ---------- what every run keeps ----------

  /** Every event keeps the indexes and the listing in order, and a cache that agrees with evaluating anew in agreement. */
  lemma StepKeeps(c: Cache, e: Event, r: Cache)
    requires c.Consistent() && Leads(c, e, r)
    ensures r.Consistent() && (c.Valid() ==> r.Valid())
    ensures r.source == c.source && r.evaluate == c.evaluate
  {
    hide Cache.Consistent, Cache.Valid, Announced, Updated, IsListed, Expired;
    match e
    case Request(d) => NoticeKeeps(c, d);
    case Expiry(d) => ExpireKeeps(c, d);
    case Passing(time) => PassKeeps(c, time);
    case Update(update, written) => UpdateKeeps(c, update, written, r); SameEvaluator(c, update, written, r);
    case Advance => TickRestores(c);
    case Evaluate =>
      var d, rest := c.indexes.unevaluated[0], c.indexes.unevaluated[1..];
      assert c.indexes.unevaluated == [d] + rest;
      if d in c.world.live {
        EvaluationKeeps(c, d, rest, r.listing);
      } else {
        SkipKeeps(c, d, rest);
      }
    case Drop => DropKeeps(c);
    case Prune => PruneKeeps(c);
  }

  /** What is in order stays so, and what agrees with evaluating anew keeps agreeing with it. */
  ghost predicate Keeps(c: Cache, r: Cache) {
    (c.Consistent() ==> r.Consistent()) && (c.Valid() ==> r.Valid())
  }

  lemma LeadsKeeps(c: Cache, e: Event, r: Cache)
    requires Leads(c, e, r)
    ensures Keeps(c, r)
  {
    if c.Consistent() {
      StepKeeps(c, e, r);
    }
  }

  lemma SameEvaluator(c: Cache, update: DataUpdate, written: Data, r: Cache)
    requires Updated(c, update, written, r)
    ensures r.source == c.source && r.evaluate == c.evaluate
  {
  }

  lemma {:induction false} RunKeeps(states: seq<Cache>)
    requires IsRun(states) && states[0].Consistent()
    ensures Last(states).Consistent() && (states[0].Valid() ==> Last(states).Valid())
    ensures Last(states).source == states[0].source && Last(states).evaluate == states[0].evaluate
  {
    hide Cache.Consistent, Cache.Valid, Leads;
    if |states| > 1 {
      var before, n := ButLast(states), |states| - 2;
      forall i | 0 <= i < |before| - 1 ensures Follows(before, i) {
        assert Follows(states, i);
      }
      RunKeeps(before);
      assert Follows(states, n);
      var e :| Leads(states[n], e, states[n + 1]);
      StepKeeps(states[n], e, states[n + 1]);
    }
  }

  lemma ReachesItself(c: Cache)
    ensures Reaches(c, c)
  {
    assert IsRun([c]) && Last([c]) == c;
  }

  lemma ReachesNext(c: Cache, middle: Cache, e: Event, r: Cache)
    requires Reaches(c, middle) && Leads(middle, e, r)
    ensures Reaches(c, r)
  {
    hide Leads;
    var states :| IsRun(states) && states[0] == c && Last(states) == middle;
    var longer := states + [r];
    forall i | 0 <= i < |longer| - 1 ensures Follows(longer, i) {
      if i < |states| - 1 {
        assert Follows(states, i);
      }
    }
    assert IsRun(longer) && longer[0] == c && Last(longer) == r;
  }

  lemma {:induction false} RunReaches(c: Cache, states: seq<Cache>, n: nat)
    requires IsRun(states) && n < |states| && Reaches(c, states[0])
    ensures Reaches(c, states[n])
  {
    hide Leads, Reaches;
    if n > 0 {
      RunReaches(c, states, n - 1);
      assert Follows(states, n - 1);
      var e :| Leads(states[n - 1], e, states[n]);
      ReachesNext(c, states[n - 1], e, states[n]);
    }
  }

  lemma ReachesFurther(c: Cache, middle: Cache, r: Cache)
    requires Reaches(c, middle) && Reaches(middle, r)
    ensures Reaches(c, r)
  {
    hide Follows;
    var states :| IsRun(states) && states[0] == middle && Last(states) == r;
    RunReaches(c, states, |states| - 1);
  }

  lemma ReachedKeeps(c: Cache, r: Cache)
    requires c.Consistent() && Reaches(c, r)
    ensures r.Consistent() && (c.Valid() ==> r.Valid())
    ensures r.source == c.source && r.evaluate == c.evaluate
  {
    hide Cache.Consistent, Cache.Valid, Follows;
    var states :| IsRun(states) && states[0] == c && Last(states) == r;
    RunKeeps(states);
  }

  // ---------- what draining the pending decisions leads to ----------

  ghost predicate FeasibleNow(c: Cache, d: Decision) {
    d in c.world.live && RewardNow(c, d).Some?
  }

  lemma IsFeasible(c: Cache, d: Decision)
    ensures FeasibleNow(c, d) == (d in c.world.live && c.evaluate(d, c.world.now, c.world.data).Some?)
  {
  }

  /** The first decision of the queue that is feasible now is at position k. */
  ghost predicate FirstFeasible(c: Cache, queue: seq<Decision>, k: nat) {
    k < |queue| && FeasibleNow(c, queue[k]) && forall j | 0 <= j < k :: !FeasibleNow(c, queue[j])
  }

  /**
   The queue was drained up to the first feasible decision, which is dispatched and behind which the rest is still
   pending, or, if none is feasible or all are to be evaluated, to its end.
   */
  ghost predicate Drained(c: Cache, queue: seq<Decision>, stopAtFeasible: bool, dispatched: Option<Decision>, rest: seq<Decision>) {
    match dispatched
    case None => rest == [] && (stopAtFeasible ==> forall d <- queue :: !FeasibleNow(c, d))
    case Some(d) => stopAtFeasible && exists k: nat :: FirstFeasible(c, queue, k) && queue[k] == d && rest == queue[k + 1..]
  }

  lemma SameDrained(c: Cache, r: Cache, queue: seq<Decision>, stop: bool, dispatched: Option<Decision>, rest: seq<Decision>)
    requires Drained(c, queue, stop, dispatched, rest) && r.world == c.world && r.evaluate == c.evaluate
    ensures Drained(r, queue, stop, dispatched, rest)
  {
    if dispatched.Some? {
      var k: nat :| FirstFeasible(c, queue, k) && queue[k] == dispatched.value && rest == queue[k + 1..];
      assert FirstFeasible(r, queue, k);
    }
  }

  lemma DrainedSoFar(c: Cache, queue: seq<Decision>, k: nat, stop: bool)
    requires k < |queue| && (stop ==> forall j | 0 <= j < k :: !FeasibleNow(c, queue[j]))
    ensures stop && FeasibleNow(c, queue[k]) ==> Drained(c, queue, stop, Some(queue[k]), queue[k + 1..])
    ensures stop && !FeasibleNow(c, queue[k]) ==> forall j | 0 <= j < k + 1 :: !FeasibleNow(c, queue[j])
  {
    if stop && FeasibleNow(c, queue[k]) {
      assert FirstFeasible(c, queue, k);
    }
  }

  lemma DrainedToEnd(c: Cache, queue: seq<Decision>, stop: bool)
    requires stop ==> forall j | 0 <= j < |queue| :: !FeasibleNow(c, queue[j])
    ensures Drained(c, queue, stop, None, [])
  {
  }

  lemma DispatchedAt(c: Cache, queue: seq<Decision>, stop: bool, d: Decision, rest: seq<Decision>) returns (k: nat)
    requires Drained(c, queue, stop, Some(d), rest)
    ensures FirstFeasible(c, queue, k) && queue[k] == d && rest == queue[k + 1..]
  {
    k :| FirstFeasible(c, queue, k) && queue[k] == d && rest == queue[k + 1..];
  }

  lemma FirstFeasibleIsOne(c: Cache, queue: seq<Decision>, k: nat, l: nat)
    requires FirstFeasible(c, queue, k) && FirstFeasible(c, queue, l)
    ensures k == l
  {
  }

  lemma SomeIsFeasible(c: Cache, queue: seq<Decision>, k: nat)
    requires FirstFeasible(c, queue, k)
    ensures exists d <- queue :: FeasibleNow(c, d)
  {
    assert queue[k] in queue;
  }

  /** The queue determines what is dispatched and what stays pending. */
  lemma DrainedOnce(c: Cache, queue: seq<Decision>, stop: bool, d: Option<Decision>, rest: seq<Decision>,
                    e: Option<Decision>, others: seq<Decision>)
    requires Drained(c, queue, stop, d, rest) && Drained(c, queue, stop, e, others)
    ensures d == e && rest == others
  {
    hide FeasibleNow, FirstFeasible;
    if d.Some? {
      var k := DispatchedAt(c, queue, stop, d.value, rest);
      SomeIsFeasible(c, queue, k);
      if e.Some? {
        var l := DispatchedAt(c, queue, stop, e.value, others);
        FirstFeasibleIsOne(c, queue, k, l);
      }
    } else if e.Some? {
      var l := DispatchedAt(c, queue, stop, e.value, others);
      SomeIsFeasible(c, queue, l);
    }
  }

  // ---------- which runs stay right ----------

  /** What is yielded is right: every reward is the present one, and no decision that is evaluated and feasible is missed. */
  ghost predicate Faithful(c: Cache) {
    && (forall x <- Yielded(c) :: x.reward == RewardNow(c, x.decision))
    && (forall d | c.Own(d) && d !in c.indexes.unevaluated && RewardNow(c, d).Some? ::
          exists x <- Yielded(c) :: x.decision == d)
  }

  /** A state has been installed at a time, the collection having seen its last tick at another. */
  ghost predicate Installed(c: Cache, source: Source, evaluate: Evaluator, time: int, kept: Option<int>) {
    && c.source == source && c.evaluate == evaluate && c.world.now == time && c.timestamp == kept
    && exists pending :: Rebuilt(c, pending)
  }

  /** Whenever the collection is iterated after a state was installed, what it yields is right. */
  ghost predicate StaysRight(source: Source, evaluate: Evaluator, time: int, kept: Option<int>) {
    forall c: Cache, r: Cache | Installed(c, source, evaluate, time, kept) && Reaches(c, r) && r.Asked() :: Faithful(r)
  }

  lemma ValidIsFaithful(c: Cache)
    requires c.Valid() && c.Asked()
    ensures Faithful(c)
  {
    YieldedAreFresh(c);
    forall d | c.Own(d) && d !in c.indexes.unevaluated && RewardNow(c, d).Some?
      ensures exists x <- Yielded(c) :: x.decision == d
    {
      FeasibleAreYielded(c, d);
    }
  }

  lemma RebuiltIsInstalled(c: Cache, pending: seq<Decision>)
    requires Rebuilt(c, pending)
    ensures Installed(c, c.source, c.evaluate, c.world.now, c.timestamp)
  {
    hide Rebuilt;
  }

  lemma InstalledIsValid(c: Cache, source: Source, evaluate: Evaluator, time: int, kept: Option<int>)
    requires Installed(c, source, evaluate, time, kept)
    ensures c.Consistent()
    ensures (kept.Some? ==> Steady(source, evaluate, time, kept.value)) ==> c.Valid()
  {
    var pending :| Rebuilt(c, pending);
    RebuiltIsConsistent(c, pending);
  }

  // ---------- a run that goes wrong ----------

  /** A state with one pending decision, just installed. */
  function Alone(source: Source, evaluate: Evaluator, d: Decision, data: Data, time: int, kept: int): Cache {
    Cache(source, evaluate, World({d}, {d}, time, data), Some(kept),
          Indexes([d], [], NO_EVALUATIONS, NO_EVALUATIONS), Listing([], map[], 0))
  }

  /** The listing of the decision once it has been evaluated with the given reward. */
  function AloneListed(d: Decision, reward: Option<int>): Listing {
    match reward
    case Some(v) => Listing([Candidate(reward, d, Some(Evaluation(v, 0)))], map[d := Evaluation(v, 0)], 1)
    case None => Listing([Candidate(None, d, None)], map[], 1)
  }

  /** The decision is evaluated at one time, and the collection is iterated again at another. */
  function EvaluatedAlone(source: Source, evaluate: Evaluator, d: Decision, data: Data, t: int, u: int, kept: int): Cache {
    var c := Alone(source, evaluate, d, data, u, kept);
    c.(indexes := Index(c.indexes.(unevaluated := []), d), listing := AloneListed(d, evaluate(d, t, data)))
  }

  lemma AloneIsInstalled(source: Source, evaluate: Evaluator, d: Decision, data: Data, time: int, kept: int)
    requires Declared(evaluate) && Handles(source, d)
    ensures Installed(Alone(source, evaluate, d, data, time, kept), source, evaluate, time, Some(kept))
    ensures Alone(source, evaluate, d, data, time, kept).indexes.unevaluated == [d]
  {
    hide Installed, Declared, Handled, Handles;
    HandledAlone(source, d);
    assert (set e <- [d]) == {d};
    RebuiltIsInstalled(Alone(source, evaluate, d, data, time, kept), [d]);
  }

  lemma HandledAlone(source: Source, d: Decision)
    requires Handles(source, d)
    ensures Handled(source, [d]) == [d]
  {
    assert ButLast([d]) == [] && Last([d]) == d;
  }

  lemma AloneIsEvaluated(source: Source, evaluate: Evaluator, d: Decision, data: Data, t: int, kept: int)
    requires t <= kept
    ensures Leads(Alone(source, evaluate, d, data, t, kept), Evaluate, EvaluatedAlone(source, evaluate, d, data, t, t, kept))
  {
    var c := Alone(source, evaluate, d, data, t, kept);
    assert forall e :: !NO_EVALUATIONS.Has(e);
    assert c.indexes.Valid();
    assert c.indexes.unevaluated[1..] == [];
    assert IsListed(c.listing, d, evaluate(d, t, data), AloneListed(d, evaluate(d, t, data)));
  }

  /** The decision is pending until the first time, evaluated then, and still evaluated as then at the second. */
  lemma AloneReaches(source: Source, evaluate: Evaluator, d: Decision, data: Data, time: int, t: int, u: int, kept: int)
    requires time <= t <= u <= kept
    ensures Reaches(Alone(source, evaluate, d, data, time, kept), EvaluatedAlone(source, evaluate, d, data, t, u, kept))
  {
    var c := Alone(source, evaluate, d, data, time, kept);
    var waited := Alone(source, evaluate, d, data, t, kept);
    var evaluated := EvaluatedAlone(source, evaluate, d, data, t, t, kept);
    ReachesItself(c);
    assert Leads(c, Passing(t), waited);
    ReachesNext(c, c, Passing(t), waited);
    AloneIsEvaluated(source, evaluate, d, data, t, kept);
    ReachesNext(c, waited, Evaluate, evaluated);
    assert Leads(evaluated, Passing(u), EvaluatedAlone(source, evaluate, d, data, t, u, kept));
    ReachesNext(c, evaluated, Passing(u), EvaluatedAlone(source, evaluate, d, data, t, u, kept));
  }

  /** What is yielded in the end is the reward at the first time. */
  lemma AloneYields(source: Source, evaluate: Evaluator, d: Decision, data: Data, t: int, u: int, kept: int)
    requires Handles(source, d)
    ensures var r, reward := EvaluatedAlone(source, evaluate, d, data, t, u, kept), evaluate(d, t, data);
            && r.Own(d) && d !in r.indexes.unevaluated && r.world.now == u && RewardNow(r, d) == evaluate(d, u, data)
            && (u <= kept ==> r.Asked())
            && Yielded(r) == if reward.Some? then [Candidate(reward, d, Some(Evaluation(reward.value, 0)))] else []
  {
    var r := EvaluatedAlone(source, evaluate, d, data, t, u, kept);
    var list := r.listing.candidates;
    assert ButLast(list) == [] && Last(list) == list[0];
    assert Unexpired([], r.world.live, r.listing) == [];
  }

  /** A reward that changes while the kept time has not passed makes some run go wrong. */
  lemma ChangeGoesUnnoticed(source: Source, evaluate: Evaluator, d: Decision, data: Data, time: int, t: int, u: int, kept: int)
    requires Declared(evaluate) && Handles(source, d)
    requires time <= t <= u <= kept && evaluate(d, t, data) != evaluate(d, u, data)
    ensures !StaysRight(source, evaluate, time, Some(kept))
  {
    var c, r := Alone(source, evaluate, d, data, time, kept), EvaluatedAlone(source, evaluate, d, data, t, u, kept);
    AloneIsInstalled(source, evaluate, d, data, time, kept);
    AloneReaches(source, evaluate, d, data, time, t, u, kept);
    AloneYields(source, evaluate, d, data, t, u, kept);
    var reward := evaluate(d, t, data);
    if reward.Some? {
      assert Candidate(reward, d, Some(Evaluation(reward.value, 0))) in Yielded(r);
    }
    assert !Faithful(r);
  }

  /**
   After a state is installed at a time, every run stays right exactly if no handled decision can change its reward
   between that time and the time of the last tick, which is kept; in particular if the kept time is not later.
   */
  lemma StaysRightExactly(source: Source, evaluate: Evaluator, time: int, kept: Option<int>)
    requires Declared(evaluate)
    ensures StaysRight(source, evaluate, time, kept) <==> (kept.Some? ==> Steady(source, evaluate, time, kept.value))
    ensures kept.None? || kept.value <= time ==> StaysRight(source, evaluate, time, kept)
  {
    hide Cache.Valid, Cache.Consistent, Faithful, Reaches, Installed;
    if kept.Some? ==> Steady(source, evaluate, time, kept.value) {
      forall c: Cache, r: Cache | Installed(c, source, evaluate, time, kept) && Reaches(c, r) && r.Asked() ensures Faithful(r) {
        InstalledIsValid(c, source, evaluate, time, kept);
        ReachedKeeps(c, r);
        ValidIsFaithful(r);
      }
    } else {
      var d: Decision, t: int, u: int, data: Data :|
        Handles(source, d) && d.timeDependent && time <= t <= kept.value && time <= u <= kept.value
        && evaluate(d, t, data) != evaluate(d, u, data);
      ChangeGoesUnnoticed(source, evaluate, d, data, time, Min(t, u), Max(t, u), kept.value);
    }
  }

  /**
   A decision rewarded with the time: the last tick was at 10, a state is installed at 0 and the decision evaluated;
   when the collection is iterated at 5, the decision is yielded with the reward 0.
   */
  lemma KeptTimeYieldsStaleReward(data: Data)
    ensures
      var evaluate: Evaluator := (d: Decision, t: int, s: Data) => if d.timeDependent then Some(t) else Some(0);
      var d := Decision(0, 0, true, true, {});
      exists c, r ::
        && Installed(c, SequentialEntries, evaluate, 0, Some(10)) && c.indexes.unevaluated == [d]
        && Reaches(c, r) && r.Asked() && r.world.now == 5
        && Yielded(r) == [Candidate(Some(0), d, Some(Evaluation(0, 0)))] && RewardNow(r, d) == Some(5)
  {
    var evaluate: Evaluator := (d: Decision, t: int, s: Data) => if d.timeDependent then Some(t) else Some(0);
    var d := Decision(0, 0, true, true, {});
    assert Declared(evaluate);
    hide Declared, Alone, EvaluatedAlone, Installed, Reaches, Cache.Asked, Cache.Own, Yielded, RewardNow;
    var c, r := Alone(SequentialEntries, evaluate, d, data, 0, 10), EvaluatedAlone(SequentialEntries, evaluate, d, data, 0, 5, 10);
    AloneIsInstalled(SequentialEntries, evaluate, d, data, 0, 10);
    AloneReaches(SequentialEntries, evaluate, d, data, 0, 0, 5, 10);
    AloneYields(SequentialEntries, evaluate, d, data, 0, 5, 10);
  }
}
