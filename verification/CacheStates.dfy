/** The state of a collection of cached entry decisions, and what keeps it in agreement with evaluating anew. */
module CacheStates {
  import opened Basics
  import opened Sequences
  import opened Caching

  /** Which entry requests a collection handles: those within sequential ad-hoc subprocesses, or the others. */
  datatype Source = SequentialEntries | FirstFeasibleEntry(sequential: bool)

  predicate Handles(source: Source, d: Decision) {
    match source
    case SequentialEntries => d.inSequential
    case FirstFeasibleEntry(sequential) => sequential || !d.inSequential
  }

  /** From one time to another, the rewards of the handled decisions do not depend on the time. */
  ghost predicate Steady(source: Source, evaluate: Evaluator, from: int, to: int) {
    forall d: Decision, t: int, u: int, data: Data |
      Handles(source, d) && d.timeDependent && from <= t <= to && from <= u <= to :: evaluate(d, t, data) == evaluate(d, u, data)
  }

  /** The rewards candidates are listed under are those of their evaluations. */
  ghost predicate Rewarded(candidates: seq<Candidate>) {
    forall c <- candidates :: c.reward == if c.evaluation.Some? then Some(c.evaluation.value.value) else None
  }

  /** The decisions observed: those live now, and all there ever were. */
  datatype World = World(live: set<Decision>, known: set<Decision>, now: int, data: Data)

  /** The weak indexes of decisions: those awaiting evaluation, and those to be evaluated anew upon a change. */
  datatype Indexes = Indexes(
      unevaluated: seq<Decision>,
      timeDependent: seq<Decision>,
      dataDependent: InstanceEvaluations,
      timeAndDataDependent: InstanceEvaluations) {

    ghost predicate Indexed(d: Decision) {
      d in timeDependent || dataDependent.Has(d) || timeAndDataDependent.Has(d)
    }

    /** Every index holds each of its decisions once and only decisions of its kind, and none awaiting evaluation. */
    ghost predicate Valid() {
      && Distinct(unevaluated) && Distinct(timeDependent) && dataDependent.Valid() && timeAndDataDependent.Valid()
      && (forall d :: d in timeDependent ==> d.timeDependent && d.dependencies == {})
      && (forall d :: dataDependent.Has(d) ==> !d.timeDependent && d.dependencies != {})
      && (forall d :: timeAndDataDependent.Has(d) ==> d.timeDependent && d.dependencies != {})
      && (forall d :: d in unevaluated ==> !Indexed(d))
    }

    /** The decision is pending, or indexed for what its evaluation depends on. */
    ghost predicate Accounts(d: Decision) {
      d in unevaluated || Indexed(d) || (!d.timeDependent && d.dependencies == {})
    }
  }

  /** The evaluations kept, and the decisions listed under their rewards. */
  datatype Listing = Listing(candidates: seq<Candidate>, evaluations: map<Decision, Evaluation>, stamps: nat) {
    function Current(d: Decision): Option<Evaluation> {
      if d in evaluations then Some(evaluations[d]) else None
    }

    function Reward(d: Decision): Option<int> {
      if d in evaluations then Some(evaluations[d].value) else None
    }

    ghost predicate Valid(live: set<Decision>) {
      && Ordered(candidates) && Stamped(candidates, stamps) && Rewarded(candidates)
      && forall d | d in evaluations && d in live :: Candidate(Reward(d), d, Current(d)) in candidates
    }
  }

  datatype Cache = Cache(source: Source, evaluate: Evaluator, world: World,
                         timestamp: Option<int>, indexes: Indexes, listing: Listing) {

    predicate Own(d: Decision) {
      d in world.live && Handles(source, d)
    }

    /** The evaluation kept for an evaluated decision is the one it would get at the last tick, or now if that is earlier. */
    ghost predicate Fresh(d: Decision) {
      Own(d) && d !in indexes.unevaluated ==>
        timestamp.Some? && listing.Reward(d) == evaluate(d, Min(timestamp.value, world.now), world.data)
    }

    /** No handled decision can change its reward before the time of the last tick, if that is still to come. */
    ghost predicate Calm() {
      timestamp.Some? ==> Steady(source, evaluate, world.now, timestamp.value)
    }

    /** The time of the last tick is not before the present time, as it is while the collection is iterated. */
    predicate Asked() {
      timestamp.Some? && world.now <= timestamp.value
    }

    ghost predicate Consistent() {
      && Declared(evaluate) && world.live <= world.known
      && indexes.Valid() && listing.Valid(world.live)
      && (forall d | Own(d) :: indexes.Accounts(d))
      && (forall d | d in indexes.unevaluated || indexes.Indexed(d) || d in listing.evaluations :: d in world.known && Handles(source, d))
      && (forall d <- indexes.unevaluated :: d !in listing.evaluations)
    }

    /** The cache agrees with evaluating anew, and will do so whatever happens. */
    ghost predicate Valid() {
      Consistent() && Calm() && forall d :: Fresh(d)
    }
  }

  function Noticed(c: Cache, d: Decision): Cache {
    c.(world := c.world.(live := c.world.live + {d}, known := c.world.known + {d}),
       indexes := if Handles(c.source, d) then c.indexes.(unevaluated := c.indexes.unevaluated + [d]) else c.indexes)
  }

  lemma NoticeKeeps(c: Cache, d: Decision)
    requires c.Consistent() && d !in c.world.known
    ensures Noticed(c, d).Consistent() && (c.Valid() ==> Noticed(c, d).Valid())
  {
    var r := Noticed(c, d);
    forall e ensures r.indexes.Indexed(e) == c.indexes.Indexed(e) {
    }
    assert forall e | r.Own(e) && e != d :: c.Own(e);
    if c.Valid() {
      forall e ensures r.Fresh(e) {
        assert c.Fresh(e);
      }
    }
  }

  lemma ExpireKeeps(c: Cache, d: Decision)
    requires c.Consistent()
    ensures
      var r := c.(world := c.world.(live := c.world.live - {d}));
      r.Consistent() && (c.Valid() ==> r.Valid())
  {
    var r := c.(world := c.world.(live := c.world.live - {d}));
    assert forall e | r.Own(e) :: c.Own(e);
    if c.Valid() {
      forall e ensures r.Fresh(e) {
        assert c.Fresh(e);
      }
    }
  }

  /** Rewards that do not depend on the time for now remain what they are while the time passes. */
  lemma PassKeeps(c: Cache, time: int)
    requires c.Consistent() && c.world.now <= time
    ensures
      var r := c.(world := c.world.(now := time));
      r.Consistent() && (c.Valid() ==> r.Valid())
  {
    var r := c.(world := c.world.(now := time));
    assert forall e | r.Own(e) :: c.Own(e);
    if c.Valid() {
      forall e ensures r.Fresh(e) {
        assert c.Fresh(e);
        if r.Own(e) && e !in r.indexes.unevaluated && !e.timeDependent {
          assert Agree(e, c.world.data, c.world.data);
        }
      }
    }
  }

  // ---------- moving decisions back to those awaiting evaluation ----------

  ghost predicate Requeues(a: Indexes, b: Indexes, moved: seq<Decision>, live: set<Decision>) {
    && b.unevaluated == a.unevaluated + moved && Distinct(moved)
    && Distinct(b.timeDependent) && b.dataDependent.Valid() && b.timeAndDataDependent.Valid()
    && (forall d :: d in b.timeDependent ==> d in a.timeDependent)
    && (forall d :: b.dataDependent.Has(d) ==> a.dataDependent.Has(d))
    && (forall d :: b.timeAndDataDependent.Has(d) ==> a.timeAndDataDependent.Has(d))
    && (forall d <- moved :: d in live && a.Indexed(d) && !b.Indexed(d))
    && (forall d :: a.Indexed(d) && d in live ==> b.Indexed(d) || d in moved)
  }

  lemma RequeuesTwice(a: Indexes, b: Indexes, c: Indexes, first: seq<Decision>, second: seq<Decision>, live: set<Decision>)
    requires a.Valid() && Requeues(a, b, first, live) && Requeues(b, c, second, live)
    ensures Requeues(a, c, first + second, live)
  {
    assert a.unevaluated + first + second == a.unevaluated + (first + second);
    DistinctConcatenation(first, second);
  }

  lemma RequeuedIndexes(a: Indexes, b: Indexes, moved: seq<Decision>, live: set<Decision>)
    requires a.Valid() && Requeues(a, b, moved, live)
    ensures b.Valid()
    ensures forall d | d in live && a.Accounts(d) :: b.Accounts(d)
    ensures forall d | d in b.unevaluated || b.Indexed(d) :: d in a.unevaluated || a.Indexed(d)
  {
    DistinctConcatenation(a.unevaluated, moved);
  }

  function Reset(evaluations: map<Decision, Evaluation>, moved: seq<Decision>): map<Decision, Evaluation> {
    evaluations - set d <- moved
  }

  /** The cache once decisions are moved back, with another time of the last tick and other data. */
  ghost predicate Requeued(before: Cache, after: Cache, moved: seq<Decision>) {
    && Requeues(before.indexes, after.indexes, moved, before.world.live)
    && after.source == before.source && after.evaluate == before.evaluate
    && after.world == before.world.(data := after.world.data)
    && after.listing == before.listing.(evaluations := Reset(before.listing.evaluations, moved))
  }

  lemma RequeueKeeps(before: Cache, after: Cache, moved: seq<Decision>)
    requires before.Consistent() && Requeued(before, after, moved)
    ensures after.Consistent()
  {
    RequeuedIndexes(before.indexes, after.indexes, moved, before.world.live);
    forall d | after.Own(d) ensures after.indexes.Accounts(d) {
      assert before.Own(d);
    }
  }

  /** Moving every decision whose evaluation may have changed makes the cache agree with the new time and data. */
  lemma RequeueRestores(before: Cache, after: Cache, moved: seq<Decision>)
    requires before.Consistent() && Requeued(before, after, moved) && after.Calm()
    requires forall d | d !in moved ::
               before.Own(d) && d !in before.indexes.unevaluated ==>
                 && after.timestamp.Some?
                 && before.listing.Reward(d)
                    == before.evaluate(d, Min(after.timestamp.value, after.world.now), after.world.data)
    ensures after.Valid()
  {
    RequeueKeeps(before, after, moved);
    forall d ensures after.Fresh(d) {
      assert after.Own(d) ==> before.Own(d);
    }
  }

  // ---------- the decisions a data update makes obsolete ----------

  function WrittenFor(ie: InstanceEvaluations, update: DataUpdate, p: nat): seq<Attribute> {
    if update.instance in ie.positions && ie.positions[update.instance] == p then update.attributes
    else Globals(update.attributes)
  }

  function MovedFrom(ie: InstanceEvaluations, update: DataUpdate, live: set<Decision>, n: nat): seq<Decision>
    requires n <= |ie.lists|
  {
    if n == 0 then []
    else MovedFrom(ie, update, live, n - 1) + Obsolete(ie.lists[n - 1], live, WrittenFor(ie, update, n - 1))
  }

  ghost predicate HasBelow(ie: InstanceEvaluations, n: nat, d: Decision)
    requires n <= |ie.lists|
  {
    exists p :: 0 <= p < n && d in ie.lists[p]
  }

  lemma AffectedInList(ie: InstanceEvaluations, update: DataUpdate, p: nat, d: Decision)
    requires ie.Valid() && p < |ie.lists| && d in ie.lists[p]
    ensures Affects(update, d) <==> Intersect(WrittenFor(ie, update, p), d.dependencies)
    ensures !HasBelow(ie, p, d)
  {
    assert ie.positions[d.instance] == p;
  }

  /** Exactly the live decisions the update affects are moved, each once. */
  lemma {:induction false} MovedExactly(ie: InstanceEvaluations, update: DataUpdate, live: set<Decision>, n: nat)
    requires ie.Valid() && n <= |ie.lists|
    ensures Distinct(MovedFrom(ie, update, live, n))
    ensures forall d :: d in MovedFrom(ie, update, live, n) <==> d in live && Affects(update, d) && HasBelow(ie, n, d)
  {
    hide Affects, Intersect, MovedFrom, WrittenFor, Obsolete;
    MovedFromStep(ie, update, live, n);
    if n > 0 {
      var list, written := ie.lists[n - 1], WrittenFor(ie, update, n - 1);
      MovedExactly(ie, update, live, n - 1);
      ObsoleteExactly(list, live, written);
      forall d | d in list
        ensures Affects(update, d) <==> Intersect(written, d.dependencies)
        ensures !HasBelow(ie, n - 1, d)
      {
        AffectedInList(ie, update, n - 1, d);
      }
      DistinctConcatenation(MovedFrom(ie, update, live, n - 1), Obsolete(list, live, written));
      forall d ensures HasBelow(ie, n, d) <==> HasBelow(ie, n - 1, d) || d in list {
      }
    }
  }

  /** The lists once the obsolete decisions are removed. */
  ghost predicate Removed(ie: InstanceEvaluations, r: InstanceEvaluations, update: DataUpdate, live: set<Decision>) {
    && r.positions == ie.positions && |r.lists| == |ie.lists|
    && forall p | 0 <= p < |ie.lists| ::
         || r.lists[p] == Retained(ie.lists[p], live, WrittenFor(ie, update, p))
         || (r.lists[p] == ie.lists[p] && WrittenFor(ie, update, p) == [])
  }

  lemma RemovedExactly(ie: InstanceEvaluations, r: InstanceEvaluations, update: DataUpdate, live: set<Decision>)
    requires ie.Valid() && Removed(ie, r, update, live)
    ensures r.Valid()
    ensures forall d :: r.Has(d) ==> ie.Has(d) && !(d in live && Affects(update, d))
    ensures forall d :: ie.Has(d) && d in live && !Affects(update, d) ==> r.Has(d)
  {
    forall p | 0 <= p < |ie.lists|
      ensures Distinct(r.lists[p])
      ensures forall d :: d in r.lists[p] ==> d in ie.lists[p] && !(d in live && Affects(update, d))
      ensures forall d :: d in ie.lists[p] && d in live && !Affects(update, d) ==> d in r.lists[p]
    {
      ObsoleteExactly(ie.lists[p], live, WrittenFor(ie, update, p));
      forall d | d in ie.lists[p] ensures Affects(update, d) <==> Intersect(WrittenFor(ie, update, p), d.dependencies) {
        assert ie.positions[d.instance] == p;
      }
    }
    forall d | r.Has(d) ensures ie.Has(d) && !(d in live && Affects(update, d)) {
      var p :| 0 <= p < |r.lists| && d in r.lists[p];
      assert d in ie.lists[p];
    }
    forall d | ie.Has(d) && d in live && !Affects(update, d) ensures r.Has(d) {
      var p :| 0 <= p < |ie.lists| && d in ie.lists[p];
      assert d in r.lists[p];
    }
  }

  lemma ObsoleteWithoutWrites(list: seq<Decision>, live: set<Decision>)
    ensures Obsolete(list, live, []) == []
  {
  }

  /** An update that names no global attribute moves only decisions of its own instance. */
  lemma {:induction false} MovedFromOwn(ie: InstanceEvaluations, update: DataUpdate, live: set<Decision>, n: nat)
    requires n <= |ie.lists| && Globals(update.attributes) == []
    requires forall i <- ie.positions :: ie.positions[i] < |ie.lists|
    ensures MovedFrom(ie, update, live, n)
         == if update.instance in ie.positions && ie.positions[update.instance] < n
            then Obsolete(ie.lists[ie.positions[update.instance]], live, update.attributes) else []
  {
    hide Obsolete, Globals, MovedFrom, WrittenFor;
    MovedFromStep(ie, update, live, n);
    if n > 0 {
      MovedFromOwn(ie, update, live, n - 1);
      WrittenForOwn(ie, update, n - 1);
      ObsoleteWithoutWrites(ie.lists[n - 1], live);
    }
  }

  lemma MovedFromStep(ie: InstanceEvaluations, update: DataUpdate, live: set<Decision>, n: nat)
    requires n <= |ie.lists|
    ensures n == 0 ==> MovedFrom(ie, update, live, n) == []
    ensures n > 0 ==>
              var moved := Obsolete(ie.lists[n - 1], live, WrittenFor(ie, update, n - 1));
              && MovedFrom(ie, update, live, n) == MovedFrom(ie, update, live, n - 1) + moved
              && (MovedFrom(ie, update, live, n - 1) == [] ==> MovedFrom(ie, update, live, n) == moved)
              && (moved == [] ==> MovedFrom(ie, update, live, n) == MovedFrom(ie, update, live, n - 1))
  {
    hide Obsolete, WrittenFor;
  }

  lemma WrittenForOwn(ie: InstanceEvaluations, update: DataUpdate, p: nat)
    requires Globals(update.attributes) == []
    ensures WrittenFor(ie, update, p)
         == if update.instance in ie.positions && ie.positions[update.instance] == p then update.attributes else []
  {
    hide Globals;
  }

  lemma DataRequeues(ix: Indexes, r: InstanceEvaluations, update: DataUpdate, live: set<Decision>)
    requires ix.Valid() && Removed(ix.dataDependent, r, update, live)
    ensures
      var moved := MovedFrom(ix.dataDependent, update, live, |ix.dataDependent.lists|);
      && Requeues(ix, ix.(unevaluated := ix.unevaluated + moved, dataDependent := r), moved, live)
      && forall d | ix.dataDependent.Has(d) && d in live && Affects(update, d) :: d in moved
  {
    var ie := ix.dataDependent;
    MovedExactly(ie, update, live, |ie.lists|);
    RemovedExactly(ie, r, update, live);
    assert forall d :: ie.Has(d) <==> HasBelow(ie, |ie.lists|, d);
  }

  lemma TimeAndDataRequeues(ix: Indexes, r: InstanceEvaluations, update: DataUpdate, live: set<Decision>)
    requires ix.Valid() && Removed(ix.timeAndDataDependent, r, update, live)
    ensures
      var moved := MovedFrom(ix.timeAndDataDependent, update, live, |ix.timeAndDataDependent.lists|);
      && Requeues(ix, ix.(unevaluated := ix.unevaluated + moved, timeAndDataDependent := r), moved, live)
      && forall d | ix.timeAndDataDependent.Has(d) && d in live && Affects(update, d) :: d in moved
  {
    var ie := ix.timeAndDataDependent;
    MovedExactly(ie, update, live, |ie.lists|);
    RemovedExactly(ie, r, update, live);
    assert forall d :: ie.Has(d) <==> HasBelow(ie, |ie.lists|, d);
  }

  /** Data is written and the update announced: every decision it affects is moved back. */
  ghost predicate Updated(c: Cache, update: DataUpdate, written: Data, r: Cache) {
    var ix := c.indexes;
    var moved := UpdateMoves(ix, update, c.world.live);
    && Removed(ix.dataDependent, r.indexes.dataDependent, update, c.world.live)
    && Removed(ix.timeAndDataDependent, r.indexes.timeAndDataDependent, update, c.world.live)
    && r == c.(world := c.world.(data := written),
               indexes := Indexes(ix.unevaluated + moved, ix.timeDependent,
                                  r.indexes.dataDependent, r.indexes.timeAndDataDependent),
               listing := c.listing.(evaluations := Reset(c.listing.evaluations, moved)))
  }

  function UpdateMoves(ix: Indexes, update: DataUpdate, live: set<Decision>): seq<Decision> {
    MovedFrom(ix.dataDependent, update, live, |ix.dataDependent.lists|)
    + MovedFrom(ix.timeAndDataDependent, update, live, |ix.timeAndDataDependent.lists|)
  }

  lemma UpdateRequeues(c: Cache, update: DataUpdate, written: Data, r: Cache)
    requires c.Consistent() && Updated(c, update, written, r)
    ensures
      var moved := UpdateMoves(c.indexes, update, c.world.live);
      && Requeued(c, r, moved)
      && forall d | c.indexes.dataDependent.Has(d) || c.indexes.timeAndDataDependent.Has(d) ::
           d in c.world.live && Affects(update, d) ==> d in moved
  {
    hide Requeues, Removed, MovedFrom, Reset, Affects;
    var ix, live := c.indexes, c.world.live;
    var first := MovedFrom(ix.dataDependent, update, live, |ix.dataDependent.lists|);
    var second := MovedFrom(ix.timeAndDataDependent, update, live, |ix.timeAndDataDependent.lists|);
    var middle := ix.(unevaluated := ix.unevaluated + first, dataDependent := r.indexes.dataDependent);
    DataRequeues(ix, r.indexes.dataDependent, update, live);
    RequeuedIndexes(ix, middle, first, live);
    TimeAndDataRequeues(middle, r.indexes.timeAndDataDependent, update, live);
    AppendTwice(ix.unevaluated, first, second);
    RequeuesTwice(ix, middle, r.indexes, first, second, live);
  }

  /** A written value is read again: only decisions the update does not affect remain evaluated. */
  lemma UpdateKeeps(c: Cache, update: DataUpdate, written: Data, r: Cache)
    requires c.Consistent() && Announced(update, c.world.data, written) && Updated(c, update, written, r)
    ensures r.Consistent() && (c.Valid() ==> r.Valid())
  {
    hide Requeues, Removed, MovedFrom, Affects, Announced, Reset;
    var moved := UpdateMoves(c.indexes, update, c.world.live);
    UpdateRequeues(c, update, written, r);
    RequeueKeeps(c, r, moved);
    if c.Valid() {
      forall d | d !in moved && c.Own(d) && d !in c.indexes.unevaluated
        ensures c.timestamp.Some? && c.listing.Reward(d) == c.evaluate(d, Min(c.timestamp.value, c.world.now), written)
      {
        assert c.Fresh(d) && c.indexes.Accounts(d);
        if Affects(update, d) {
          UnaffectedWithoutDependencies(update, d);
        } else {
          UnaffectedAgree(update, c.world.data, written, d);
        }
      }
      RequeueRestores(c, r, moved);
    }
  }

  lemma UnaffectedWithoutDependencies(update: DataUpdate, d: Decision)
    ensures Affects(update, d) ==> d.dependencies != {}
  {
  }

  // ---------- the decisions a clock tick makes obsolete ----------

  function LiveIn(ie: InstanceEvaluations, live: set<Decision>, n: nat): seq<Decision>
    requires n <= |ie.lists|
  {
    if n == 0 then [] else LiveIn(ie, live, n - 1) + Live(ie.lists[n - 1], live)
  }

  lemma {:induction false} LiveInExactly(ie: InstanceEvaluations, live: set<Decision>, n: nat)
    requires ie.Valid() && n <= |ie.lists|
    ensures Distinct(LiveIn(ie, live, n))
    ensures forall d :: d in LiveIn(ie, live, n) <==> d in live && HasBelow(ie, n, d)
  {
    if n > 0 {
      var list := ie.lists[n - 1];
      LiveInExactly(ie, live, n - 1);
      LiveExactly(list, live);
      forall d | d in list ensures !HasBelow(ie, n - 1, d) {
        assert ie.positions[d.instance] == n - 1;
      }
      DistinctConcatenation(LiveIn(ie, live, n - 1), Live(list, live));
      forall d ensures HasBelow(ie, n, d) <==> HasBelow(ie, n - 1, d) || d in list {
      }
    }
  }

  const NO_EVALUATIONS := InstanceEvaluations([], map[])

  lemma TickRequeues(ix: Indexes, live: set<Decision>)
    requires ix.Valid()
    ensures
      var ie := ix.timeAndDataDependent;
      var moved := Live(ix.timeDependent, live) + LiveIn(ie, live, |ie.lists|);
      && Requeues(ix, Indexes(ix.unevaluated + moved, [], ix.dataDependent, NO_EVALUATIONS), moved, live)
      && forall d | ix.Indexed(d) && d in live && d.timeDependent :: d in moved
  {
    var ie := ix.timeAndDataDependent;
    LiveExactly(ix.timeDependent, live);
    LiveInExactly(ie, live, |ie.lists|);
    assert forall d :: ie.Has(d) <==> HasBelow(ie, |ie.lists|, d);
    DistinctConcatenation(Live(ix.timeDependent, live), LiveIn(ie, live, |ie.lists|));
    assert forall d :: !NO_EVALUATIONS.Has(d);
  }

  lemma ObsoleteStep(list: seq<Decision>, live: set<Decision>, attributes: seq<Attribute>, k: nat)
    requires k < |list|
    ensures
      var d, before, after := list[k], Obsolete(list[..k], live, attributes), Obsolete(list[..k + 1], live, attributes);
      after == if d in live && Intersect(attributes, d.dependencies) then before + [d] else before
    ensures
      var d, before, after := list[k], Retained(list[..k], live, attributes), Retained(list[..k + 1], live, attributes);
      after == if d in live && !Intersect(attributes, d.dependencies) then before + [d] else before
  {
    assert ButLast(list[..k + 1]) == list[..k];
  }

  lemma ObsoleteOfNone(list: seq<Decision>, live: set<Decision>, attributes: seq<Attribute>)
    ensures Obsolete(list[..0], live, attributes) == [] && Retained(list[..0], live, attributes) == []
  {
  }

  lemma ResetNone(evaluations: map<Decision, Evaluation>)
    ensures Reset(evaluations, []) == evaluations
  {
  }

  lemma AppendTwice(a: seq<Decision>, b: seq<Decision>, c: seq<Decision>)
    ensures a + b + c == a + (b + c) && a + [] == a
  {
  }

  lemma ResetTwice(evaluations: map<Decision, Evaluation>, first: seq<Decision>, second: seq<Decision>)
    ensures Reset(Reset(evaluations, first), second) == Reset(evaluations, first + second)
  {
  }

  // ---------- evaluating a decision ----------

  /** The decision is indexed for what its evaluation depends on; an invariant one needs no index. */
  function Index(ix: Indexes, d: Decision): Indexes
    requires forall i <- ix.dataDependent.positions :: ix.dataDependent.positions[i] < |ix.dataDependent.lists|
    requires forall i <- ix.timeAndDataDependent.positions ::
               ix.timeAndDataDependent.positions[i] < |ix.timeAndDataDependent.lists|
  {
    if d.timeDependent && d.dependencies == {} then ix.(timeDependent := ix.timeDependent + [d])
    else if !d.timeDependent && d.dependencies != {} then ix.(dataDependent := ix.dataDependent.Add(d))
    else if d.timeDependent && d.dependencies != {} then ix.(timeAndDataDependent := ix.timeAndDataDependent.Add(d))
    else ix
  }

  lemma IndexKeeps(ix: Indexes, d: Decision)
    requires ix.Valid() && !ix.Indexed(d) && d !in ix.unevaluated
    ensures Index(ix, d).Valid() && Index(ix, d).Accounts(d) && Index(ix, d).unevaluated == ix.unevaluated
    ensures forall e | e != d :: Index(ix, d).Indexed(e) <==> ix.Indexed(e)
  {
    hide InstanceEvaluations.Valid, InstanceEvaluations.Add, InstanceEvaluations.Has, Distinct;
    PositionsWithin(ix);
    if d.dependencies != {} {
      if d.timeDependent {
        ix.timeAndDataDependent.AddHas(d);
      } else {
        ix.dataDependent.AddHas(d);
      }
    } else if d.timeDependent {
      DistinctConcatenation(ix.timeDependent, [d]);
      OneIsDistinct(d);
    }
  }

  lemma OneIsDistinct<T>(x: T)
    ensures Distinct([x])
  {
  }

  /** The lists of an instance are where the positions say. */
  lemma PositionsWithin(ix: Indexes)
    requires ix.Valid()
    ensures forall i <- ix.dataDependent.positions :: ix.dataDependent.positions[i] < |ix.dataDependent.lists|
    ensures forall i <- ix.timeAndDataDependent.positions ::
              ix.timeAndDataDependent.positions[i] < |ix.timeAndDataDependent.lists|
  {
  }

  ghost predicate IsListed(before: Listing, d: Decision, reward: Option<int>, after: Listing) {
    && after.stamps == before.stamps + 1
    && after.evaluations
       == (if reward.Some? then before.evaluations[d := Evaluation(reward.value, before.stamps)] else before.evaluations)
    && Ordered(after.candidates)
    && forall c :: c in after.candidates <==> c in before.candidates || c == Candidate(reward, d, after.Current(d))
  }

  lemma ListingKeeps(before: Listing, d: Decision, reward: Option<int>, after: Listing, live: set<Decision>)
    requires before.Valid(live) && d !in before.evaluations && IsListed(before, d, reward, after)
    ensures after.Valid(live) && after.Reward(d) == reward
    ensures forall e | e != d :: after.Reward(e) == before.Reward(e)
  {
  }

  /** A pending decision that is evaluated now, listed and indexed leaves the cache in agreement. */
  lemma EvaluationKeeps(c: Cache, d: Decision, rest: seq<Decision>, listing: Listing)
    requires c.Consistent() && c.Asked() && c.indexes.unevaluated == [d] + rest && d in c.world.live
    requires IsListed(c.listing, d, c.evaluate(d, c.world.now, c.world.data), listing)
    ensures
      var r := c.(indexes := Index(c.indexes.(unevaluated := rest), d), listing := listing);
      r.indexes.unevaluated == rest && r.Consistent() && (c.Valid() ==> r.Valid())
  {
    var popped := c.indexes.(unevaluated := rest);
    PopKeeps(c.indexes, d, rest);
    IndexKeeps(popped, d);
    ListingKeeps(c.listing, d, c.evaluate(d, c.world.now, c.world.data), listing, c.world.live);
    var after := c.(indexes := Index(popped, d), listing := listing);
    assert d in c.indexes.unevaluated;
    forall e | after.Own(e) ensures after.indexes.Accounts(e) {
      assert c.Own(e);
    }
    if c.Valid() {
      forall e ensures after.Fresh(e) {
        assert c.Fresh(e);
      }
    }
  }

  lemma PopKeeps(ix: Indexes, d: Decision, rest: seq<Decision>)
    requires ix.Valid() && ix.unevaluated == [d] + rest
    ensures ix.(unevaluated := rest).Valid() && d !in rest && !ix.(unevaluated := rest).Indexed(d)
    ensures forall e :: ix.(unevaluated := rest).Indexed(e) <==> ix.Indexed(e)
    ensures forall e :: e in ix.unevaluated <==> e == d || e in rest
  {
    var popped := ix.(unevaluated := rest);
    assert ix.unevaluated[0] == d;
    assert forall i | 0 <= i < |rest| :: rest[i] == ix.unevaluated[i + 1];
    assert forall e :: popped.Indexed(e) <==> ix.Indexed(e);
    assert forall e <- rest :: e in ix.unevaluated;
  }

  lemma SkipKeeps(c: Cache, d: Decision, rest: seq<Decision>)
    requires c.Consistent() && c.indexes.unevaluated == [d] + rest && d !in c.world.live
    ensures
      var r := c.(indexes := c.indexes.(unevaluated := rest));
      r.Consistent() && (c.Valid() ==> r.Valid())
  {
    PopKeeps(c.indexes, d, rest);
    var after := c.(indexes := c.indexes.(unevaluated := rest));
    forall e | after.Own(e) ensures after.indexes.Accounts(e) {
      assert c.Own(e);
    }
    if c.Valid() {
      forall e ensures after.Fresh(e) {
        assert c.Fresh(e);
      }
    }
  }

  // ---------- what the collection yields ----------

  /** The candidate is dropped when iterated: its request is gone, or the evaluation it was listed for. */
  predicate Expired(c: Candidate, live: set<Decision>, listing: Listing) {
    c.decision !in live || c.evaluation.None? || listing.Current(c.decision) != c.evaluation
  }

  function Unexpired(candidates: seq<Candidate>, live: set<Decision>, listing: Listing): seq<Candidate>
  {
    if candidates == [] then []
    else
      Unexpired(ButLast(candidates), live, listing)
      + (if Expired(Last(candidates), live, listing) then [] else [Last(candidates)])
  }

  lemma {:induction false} UnexpiredExactly(candidates: seq<Candidate>, live: set<Decision>, listing: Listing)
    ensures forall c :: c in Unexpired(candidates, live, listing) <==> c in candidates && !Expired(c, live, listing)
  {
    if candidates != [] {
      UnexpiredExactly(ButLast(candidates), live, listing);
      assert candidates == ButLast(candidates) + [Last(candidates)];
    }
  }

  lemma {:induction false} UnexpiredOrdered(candidates: seq<Candidate>, live: set<Decision>, listing: Listing)
    requires Ordered(candidates)
    ensures Ordered(Unexpired(candidates, live, listing))
  {
    if candidates != [] {
      UnexpiredOrdered(ButLast(candidates), live, listing);
      UnexpiredExactly(ButLast(candidates), live, listing);
      var before := Unexpired(ButLast(candidates), live, listing);
      forall i | 0 <= i < |before| ensures InOrder(before[i], Last(candidates)) {
        assert before[i] in before;
        var j :| 0 <= j < |candidates| - 1 && candidates[j] == before[i];
      }
    }
  }

  /** The reward the decision would get if it were evaluated now. */
  function RewardNow(c: Cache, d: Decision): Option<int> {
    c.evaluate(d, c.world.now, c.world.data)
  }

  function Yielded(c: Cache): seq<Candidate> {
    Unexpired(c.listing.candidates, c.world.live, c.listing)
  }

  /** Every candidate yielded is live and carries the reward its decision would get now; none is yielded twice. */
  lemma YieldedAreFresh(c: Cache)
    requires c.Valid() && c.Asked()
    ensures forall x <- Yielded(c) :: c.Own(x.decision) && x.reward.Some? && x.reward == RewardNow(c, x.decision)
    ensures forall i, j | 0 <= i < j < |Yielded(c)| :: Yielded(c)[i].decision != Yielded(c)[j].decision
    ensures Ordered(Yielded(c))
  {
    UnexpiredOrdered(c.listing.candidates, c.world.live, c.listing);
    UnexpiredExactly(c.listing.candidates, c.world.live, c.listing);
    forall x <- Yielded(c) ensures c.Own(x.decision) && x.reward.Some? && x.reward == RewardNow(c, x.decision) {
      assert c.Fresh(x.decision);
    }
    forall i, j | 0 <= i < j < |Yielded(c)| ensures Yielded(c)[i].decision != Yielded(c)[j].decision {
      assert Yielded(c)[i] in Yielded(c) && Yielded(c)[j] in Yielded(c);
      assert InOrder(Yielded(c)[i], Yielded(c)[j]);
    }
  }

  /** Every decision that is live, feasible now and no longer pending is yielded. */
  lemma FeasibleAreYielded(c: Cache, d: Decision)
    requires c.Valid() && c.Asked()
    requires c.Own(d) && d !in c.indexes.unevaluated && RewardNow(c, d).Some?
    ensures exists x <- Yielded(c) :: x.decision == d
  {
    UnexpiredExactly(c.listing.candidates, c.world.live, c.listing);
    assert c.Fresh(d);
    assert Candidate(c.listing.Reward(d), d, c.listing.Current(d)) in Yielded(c);
  }

  /** Dropping an expired candidate loses nothing. */
  lemma DropKeeps(c: Cache)
    requires c.Consistent() && c.listing.candidates != [] && Expired(c.listing.candidates[0], c.world.live, c.listing)
    ensures
      var r := c.(listing := c.listing.(candidates := c.listing.candidates[1..]));
      r.Consistent() && (c.Valid() ==> r.Valid())
  {
    var after := c.(listing := c.listing.(candidates := c.listing.candidates[1..]));
    var candidates := c.listing.candidates;
    assert candidates == [candidates[0]] + candidates[1..];
    forall d | d in after.listing.evaluations && d in c.world.live
      ensures Candidate(after.listing.Reward(d), d, after.listing.Current(d)) in candidates[1..]
    {
      assert Candidate(c.listing.Reward(d), d, c.listing.Current(d)) != candidates[0];
    }
    assert forall d | after.Own(d) :: c.Own(d);
    if c.Valid() {
      forall d ensures after.Fresh(d) {
        assert c.Fresh(d);
      }
    }
  }

  lemma NothingIsYielded(c: Cache)
    requires c.Valid() && c.Asked() && c.listing.candidates == []
    ensures forall d | c.Own(d) && d !in c.indexes.unevaluated :: RewardNow(c, d).None?
  {
    forall d | c.Own(d) && d !in c.indexes.unevaluated ensures RewardNow(c, d).None? {
      if RewardNow(c, d).Some? {
        FeasibleAreYielded(c, d);
      }
    }
  }

  /** The first candidate that is not expired is the best of those yielded. */
  lemma FrontIsBest(c: Cache)
    requires c.Valid() && c.Asked()
    requires c.listing.candidates != [] && !Expired(c.listing.candidates[0], c.world.live, c.listing)
    ensures
      var front := c.listing.candidates[0];
      && c.Own(front.decision) && front.reward.Some? && front.reward == RewardNow(c, front.decision)
      && forall d | c.Own(d) && d !in c.indexes.unevaluated && RewardNow(c, d).Some? ::
           RewardNow(c, d).value <= front.reward.value
  {
    var front := c.listing.candidates[0];
    YieldedAreFresh(c);
    UnexpiredExactly(c.listing.candidates, c.world.live, c.listing);
    assert front in Yielded(c);
    forall d | c.Own(d) && d !in c.indexes.unevaluated && RewardNow(c, d).Some?
      ensures RewardNow(c, d).value <= front.reward.value
    {
      FeasibleAreYielded(c, d);
      var x :| x in Yielded(c) && x.decision == d;
      assert x == front || InOrder(front, x);
    }
  }

  /** When the collection is iterated at a later time than that of the last tick, all that depends on time is moved back. */
  function Advanced(c: Cache): Cache {
    if c.Asked() then c
    else
      c.(timestamp := Some(c.world.now),
         indexes := Indexes(c.indexes.unevaluated + TickMoves(c.indexes, c.world.live), [],
                            c.indexes.dataDependent, NO_EVALUATIONS),
         listing := c.listing.(evaluations := Reset(c.listing.evaluations, TickMoves(c.indexes, c.world.live))))
  }

  function TickMoves(ix: Indexes, live: set<Decision>): seq<Decision> {
    Live(ix.timeDependent, live) + LiveIn(ix.timeAndDataDependent, live, |ix.timeAndDataDependent.lists|)
  }

  /** A clock tick brings the cache into agreement with evaluating anew at its time. */
  lemma TickRestores(c: Cache)
    requires c.Consistent()
    ensures Advanced(c).Consistent() && Advanced(c).Asked() && (c.Valid() ==> Advanced(c).Valid())
  {
    if !c.Asked() {
      var moved := TickMoves(c.indexes, c.world.live);
      TickRequeues(c.indexes, c.world.live);
      RequeueKeeps(c, Advanced(c), moved);
      if c.Valid() {
        forall d | d !in moved && c.Own(d) && d !in c.indexes.unevaluated
          ensures c.listing.Reward(d) == c.evaluate(d, c.world.now, c.world.data)
        {
          assert c.Fresh(d) && c.indexes.Accounts(d);
          assert Agree(d, c.world.data, c.world.data);
        }
        RequeueRestores(c, Advanced(c), moved);
      }
    }
  }

  lemma LiveStep(list: seq<Decision>, live: set<Decision>, k: nat)
    requires k < |list|
    ensures var before := Live(list[..k], live);
            Live(list[..k + 1], live) == if list[k] in live then before + [list[k]] else before
  {
    assert ButLast(list[..k + 1]) == list[..k];
  }

  lemma {:induction false} AllUnexpired(candidates: seq<Candidate>, live: set<Decision>, listing: Listing)
    requires forall c <- candidates :: !Expired(c, live, listing)
    ensures Unexpired(candidates, live, listing) == candidates
  {
    hide Expired, Unexpired;
    if candidates == [] {
      NoneUnexpired(live, listing);
    } else {
      UnexpiredStep(candidates, live, listing);
      AllUnexpired(ButLast(candidates), live, listing);
      assert candidates == ButLast(candidates) + [Last(candidates)];
    }
  }

  lemma NoneUnexpired(live: set<Decision>, listing: Listing)
    ensures Unexpired([], live, listing) == []
  {
  }

  lemma UnexpiredStep(candidates: seq<Candidate>, live: set<Decision>, listing: Listing)
    requires candidates != []
    ensures Unexpired(candidates, live, listing)
         == Unexpired(ButLast(candidates), live, listing)
            + (if Expired(Last(candidates), live, listing) then [] else [Last(candidates)])
  {
    hide Expired;
  }

  lemma PruneKeeps(c: Cache)
    requires c.Consistent()
    ensures
      var r := c.(listing := c.listing.(candidates := Yielded(c)));
      r.Consistent() && (c.Valid() ==> r.Valid()) && Yielded(r) == Yielded(c)
  {
    var after := c.(listing := c.listing.(candidates := Yielded(c)));
    UnexpiredOrdered(c.listing.candidates, c.world.live, c.listing);
    UnexpiredExactly(c.listing.candidates, c.world.live, c.listing);
    AllUnexpired(Yielded(c), c.world.live, after.listing);
    forall d | d in after.listing.evaluations && d in c.world.live
      ensures Candidate(after.listing.Reward(d), d, after.listing.Current(d)) in Yielded(c)
    {
    }
    assert forall d | after.Own(d) :: c.Own(d);
    if c.Valid() {
      forall d ensures after.Fresh(d) {
        assert c.Fresh(d);
      }
    }
  }

  /** The handled decisions of a list. */
  function Handled(source: Source, list: seq<Decision>): seq<Decision>
  {
    if list == [] then []
    else Handled(source, ButLast(list)) + (if Handles(source, Last(list)) then [Last(list)] else [])
  }

  lemma {:induction false} HandledExactly(source: Source, list: seq<Decision>)
    requires Distinct(list)
    ensures Distinct(Handled(source, list))
    ensures forall d :: d in Handled(source, list) <==> d in list && Handles(source, d)
  {
    if list != [] {
      HandledExactly(source, ButLast(list));
      assert list == ButLast(list) + [Last(list)];
    }
  }

  lemma HandledStep(source: Source, list: seq<Decision>, k: nat)
    requires k < |list|
    ensures Handled(source, list[..k + 1])
         == if Handles(source, list[k]) then Handled(source, list[..k]) + [list[k]] else Handled(source, list[..k])
  {
    assert ButLast(list[..k + 1]) == list[..k];
  }

  /** The cache has just been cleared and rebuilt from the pending requests of a state. */
  ghost predicate Rebuilt(c: Cache, pending: seq<Decision>) {
    && Declared(c.evaluate) && Distinct(pending)
    && c.world.live == c.world.known == (set d <- pending)
    && c.indexes == Indexes(Handled(c.source, pending), [], NO_EVALUATIONS, NO_EVALUATIONS)
    && c.listing == Listing([], map[], c.listing.stamps)
  }

  /** Whatever time of a last tick has been kept, nothing of a rebuilt cache is stale yet. */
  lemma RebuiltIsConsistent(c: Cache, pending: seq<Decision>)
    requires Rebuilt(c, pending)
    ensures c.Consistent() && forall d :: c.Fresh(d)
  {
    HandledExactly(c.source, pending);
    assert forall d :: !NO_EVALUATIONS.Has(d);
  }
}
