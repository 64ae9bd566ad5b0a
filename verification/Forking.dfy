/**
 Sampling the data of a run, and of a fork that must agree with the run before the time it is spawned. The random
 expressions are an arbitrary oracle: any number may be drawn for any row and attempt, or none.
 */
module Forking {
  import opened Basics

  type Node = nat
  type Attribute = nat
  type ObjectId = nat

  datatype Instance = Instance(process: Node, timestamp: Attribute, values: map<Attribute, int>,
                               objects: map<Attribute, ObjectId>, instantiationTime: int)

  /** A row of the instance data giving a value or an object, with its disclosure. */
  datatype Initialization = Initialization(instanceId: nat, node: Node, attribute: Attribute, givesObject: bool)

  /** Instances are identified by their positions; parents holds the scope of every node within one. */
  datatype Provider = Provider(instances: seq<Instance>, initializations: seq<Initialization>, parents: map<Node, Node>) {
    ghost predicate Valid() {
      && (forall row <- initializations :: row.instanceId < |instances|)
      && forall instance <- instances :: instance.process !in parents
    }

    predicate GivesTimestamp(row: Initialization)
      requires row.instanceId < |instances|
    {
      !row.givesObject && row.attribute == instances[row.instanceId].timestamp
    }
  }

  /** The results of the random expressions, by row and attempt; none if an expression yields no value. */
  datatype Oracle = Oracle(value: (nat, nat) -> Option<int>, object_: nat -> Option<ObjectId>,
                           disclosure: (nat, nat) -> Option<int>)

  const MAX_RESAMPLING_TRIES := 4

  datatype Failure = NoValue

  /** The contents of a scenario as a value. */
  datatype Realisation = Realisation(
      values: map<(nat, Attribute), int>,
      objects: map<(nat, Attribute), ObjectId>,
      instantiationTimes: map<nat, int>,
      disclosureTimes: map<(nat, Node), int>,
      initializationDisclosureTimes: seq<int>)

  /** The least integral time not before x. */
  function Ceil(x: int): (c: int)
    ensures c >= x && c % SCALE == 0 && c < x + SCALE
  {
    -((-x) / SCALE) * SCALE
  }

  /** The lower bound of what a scenario samples: none for a run, the spawn time for a fork. */
  function AtLeast(x: int, spawnTime: Option<int>): int {
    if spawnTime.Some? then Max(x, spawnTime.value) else x
  }

  predicate Early(x: int, spawnTime: Option<int>) {
    spawnTime.Some? && x < spawnTime.value
  }

  /** The first of the admitted draws that is not early, or the last of them. */
  ghost function Resampled(draw: nat -> Option<int>, spawnTime: Option<int>, i: nat): Option<int>
    decreases MAX_RESAMPLING_TRIES - i
  {
    if draw(i).None? then None
    else if Early(draw(i).value, spawnTime) && i + 1 < MAX_RESAMPLING_TRIES then Resampled(draw, spawnTime, i + 1)
    else draw(i)
  }

  /** Each of the first n draws has a value, and one before the spawn time. */
  ghost predicate AllEarly(draw: nat -> Option<int>, spawnTime: Option<int>, n: nat) {
    forall j: nat | j < n :: draw(j).Some? && spawnTime.Some? && draw(j).value < spawnTime.value
  }

  /** The value is the first draw that is not before the spawn time, or the spawn time if all admitted draws are. */
  ghost predicate FirstOnTime(draw: nat -> Option<int>, spawnTime: Option<int>, value: int) {
    || (AllEarly(draw, spawnTime, MAX_RESAMPLING_TRIES) && Some(value) == spawnTime)
    || exists i: nat :: i < MAX_RESAMPLING_TRIES && draw(i) == Some(value) && AllEarly(draw, spawnTime, i)
                        && (spawnTime.Some? ==> value >= spawnTime.value)
  }

  /** The first of the admitted draws that is not early, the last of them, or what precedes a draw without a value. */
  lemma {:induction false} ResampledOnTime(draw: nat -> Option<int>, spawnTime: Option<int>, i: nat)
    requires i < MAX_RESAMPLING_TRIES && AllEarly(draw, spawnTime, i) && Resampled(draw, spawnTime, i).Some?
    ensures FirstOnTime(draw, spawnTime, AtLeast(Resampled(draw, spawnTime, i).value, spawnTime))
    decreases MAX_RESAMPLING_TRIES - i
  {
    if Early(draw(i).value, spawnTime) && i + 1 < MAX_RESAMPLING_TRIES {
      ResampledOnTime(draw, spawnTime, i + 1);
    }
  }

  datatype Content = Number(value: int) | Composite(id: ObjectId)

  /** What a row gives: its content and the time at which it is disclosed. */
  datatype Sample = Sample(content: Content, disclosure: int)

  /** A fork keeps the initializations the run has disclosed before the spawn time. */
  predicate Keeps(original: Option<Realisation>, k: nat, spawnTime: Option<int>) {
    original.Some? && k < |original.value.initializationDisclosureTimes|
    && Early(original.value.initializationDisclosureTimes[k], spawnTime)
  }

  ghost predicate HoldsRow(r: Realisation, row: Initialization) {
    (row.instanceId, row.attribute) in (if row.givesObject then r.objects.Keys else r.values.Keys)
  }

  function Kept(r: Realisation, row: Initialization, k: nat): Sample
    requires HoldsRow(r, row) && k < |r.initializationDisclosureTimes|
  {
    var key := (row.instanceId, row.attribute);
    Sample(if row.givesObject then Composite(r.objects[key]) else Number(r.values[key]), r.initializationDisclosureTimes[k])
  }

  function ValueDraws(oracle: Oracle, k: nat): (draw: nat -> Option<int>)
    ensures forall i: nat :: draw(i) == oracle.value(k, i)
  {
    (i: nat) => oracle.value(k, i)
  }

  /** Disclosure times are integral. */
  function DisclosureDraws(oracle: Oracle, k: nat): (draw: nat -> Option<int>)
    ensures forall i: nat :: draw(i).Some? == oracle.disclosure(k, i).Some?
    ensures forall i: nat :: draw(i).Some? ==>
              draw(i).value % SCALE == 0 && oracle.disclosure(k, i).value <= draw(i).value < oracle.disclosure(k, i).value + SCALE
  {
    (i: nat) => CeilOf(oracle.disclosure(k, i))
  }

  /** The sample drawn for row k. */
  ghost function Drawn(p: Provider, k: nat, spawnTime: Option<int>, oracle: Oracle): (sample: Option<Sample>)
    requires p.Valid() && k < |p.initializations|
    ensures sample.Some? ==> sample.value.content.Composite? == p.initializations[k].givesObject
  {
    var row := p.initializations[k];
    var content :=
      if row.givesObject then
        if oracle.object_(k).None? then None else Some(Composite(oracle.object_(k).value))
      else if p.GivesTimestamp(row) then
        var value := Resampled(ValueDraws(oracle, k), spawnTime, 0);
        if value.None? then None else Some(Number(AtLeast(value.value, spawnTime)))
      else if oracle.value(k, 0).None? then None else Some(Number(oracle.value(k, 0).value));
    if content.None? then None
    else
      var disclosure := Resampled(DisclosureDraws(oracle, k), spawnTime, 0);
      if disclosure.None? then None else Some(Sample(content.value, AtLeast(disclosure.value, spawnTime)))
  }

  function CeilOf(x: Option<int>): Option<int> {
    if x.None? then None else Some(Ceil(x.value))
  }

  /** The later of the disclosure of a row and that recorded for the parent of its node. */
  ghost function InScope(p: Provider, r: Realisation, row: Initialization, disclosure: int): int {
    if row.node in p.parents && (row.instanceId, p.parents[row.node]) in r.disclosureTimes
    then Max(disclosure, r.disclosureTimes[(row.instanceId, p.parents[row.node])]) else disclosure
  }

  /** Records what a row gives. */
  ghost function Recorded(p: Provider, r: Realisation, row: Initialization, sample: Sample): Realisation
    requires row.instanceId < |p.instances| && sample.content.Composite? == row.givesObject
  {
    var key, at := (row.instanceId, row.attribute), (row.instanceId, row.node);
    var disclosure := InScope(p, r, row, sample.disclosure);
    Realisation(
      if row.givesObject then r.values else r.values[key := sample.content.value],
      if row.givesObject then r.objects[key := sample.content.id] else r.objects,
      if p.GivesTimestamp(row) then r.instantiationTimes[row.instanceId := Ceil(sample.content.value)] else r.instantiationTimes,
      r.disclosureTimes[at := if at in r.disclosureTimes then Max(r.disclosureTimes[at], disclosure) else disclosure],
      r.initializationDisclosureTimes + [sample.disclosure])
  }

  function InitialValues(p: Provider): map<(nat, Attribute), int> {
    map i, a | 0 <= i < |p.instances| && a in p.instances[i].values :: (i, a) := p.instances[i].values[a]
  }

  function InitialObjects(p: Provider): map<(nat, Attribute), ObjectId> {
    map i, a | 0 <= i < |p.instances| && a in p.instances[i].objects :: (i, a) := p.instances[i].objects[a]
  }

  function InitialTimes(p: Provider): map<nat, int> {
    map i | 0 <= i < |p.instances| :: i := p.instances[i].instantiationTime
  }

  /** The data of an instance is disclosed from the start, unless a row discloses it later. */
  function InitialDisclosures(p: Provider): map<(nat, Node), int> {
    map i | 0 <= i < |p.instances| :: (i, p.instances[i].process) := 0
  }

  /** The realisation before any row is sampled. */
  ghost function Initial(p: Provider): Realisation {
    Realisation(InitialValues(p), InitialObjects(p), InitialTimes(p), InitialDisclosures(p), [])
  }

  /** The realisation once the first n rows are sampled, each given its own sample. */
  ghost function Sampled(p: Provider, original: Option<Realisation>, spawnTime: Option<int>, oracle: Oracle, n: nat): Result<Realisation, Failure>
    requires p.Valid() && n <= |p.initializations|
    requires original.Some? ==> Complete(p, original.value)
  {
    if n == 0 then Ok(Initial(p))
    else match Sampled(p, original, spawnTime, oracle, n - 1)
      case Err(e) => Err(e)
      case Ok(r) =>
        var row := p.initializations[n - 1];
        if Keeps(original, n - 1, spawnTime) then Ok(Recorded(p, r, row, Kept(original.value, row, n - 1)))
        else match Drawn(p, n - 1, spawnTime, oracle)
          case None => Err(NoValue)
          case Some(sample) => Ok(Recorded(p, r, row, sample))
  }

  /** The realisation holds something for every row. */
  ghost predicate Complete(p: Provider, r: Realisation) {
    |r.initializationDisclosureTimes| == |p.initializations| && forall row <- p.initializations :: HoldsRow(r, row)
  }

  /** What is drawn for a row is that of its first draws, but for a timestamp or disclosure before the spawn time. */
  lemma DrawnIsFirst(p: Provider, k: nat, spawnTime: Option<int>, oracle: Oracle)
    requires p.Valid() && k < |p.initializations| && Drawn(p, k, spawnTime, oracle).Some?
    ensures
      var row, sample := p.initializations[k], Drawn(p, k, spawnTime, oracle).value;
      && (row.givesObject ==> oracle.object_(k) == Some(sample.content.id))
      && (!row.givesObject && !p.GivesTimestamp(row) ==> oracle.value(k, 0) == Some(sample.content.value))
      && (p.GivesTimestamp(row) ==> FirstOnTime(ValueDraws(oracle, k), spawnTime, sample.content.value))
      && FirstOnTime(DisclosureDraws(oracle, k), spawnTime, sample.disclosure)
  {
    hide FirstOnTime;
    if p.GivesTimestamp(p.initializations[k]) {
      ResampledOnTime(ValueDraws(oracle, k), spawnTime, 0);
    }
    ResampledOnTime(DisclosureDraws(oracle, k), spawnTime, 0);
  }

  lemma RecordedHolds(p: Provider, r: Realisation, row: Initialization, sample: Sample)
    requires row.instanceId < |p.instances| && sample.content.Composite? == row.givesObject
    ensures
      var after := Recorded(p, r, row, sample);
      && HoldsRow(after, row)
      && (forall other :: HoldsRow(r, other) ==> HoldsRow(after, other))
      && after.initializationDisclosureTimes == r.initializationDisclosureTimes + [sample.disclosure]
      && (forall i :: i in r.instantiationTimes ==> i in after.instantiationTimes)
      && (forall at :: at in after.disclosureTimes <==> at in r.disclosureTimes || at == (row.instanceId, row.node))
  {
  }

  /** The sample row k is given. */
  ghost function SampleOf(p: Provider, original: Option<Realisation>, spawnTime: Option<int>, oracle: Oracle, k: nat): Option<Sample>
    requires p.Valid() && k < |p.initializations|
    requires original.Some? ==> Complete(p, original.value)
  {
    assert p.initializations[k] in p.initializations;
    if Keeps(original, k, spawnTime) then Some(Kept(original.value, p.initializations[k], k))
    else Drawn(p, k, spawnTime, oracle)
  }

  lemma SampledStep(p: Provider, original: Option<Realisation>, spawnTime: Option<int>, oracle: Oracle, n: nat)
    requires p.Valid() && 0 < n <= |p.initializations|
    requires original.Some? ==> Complete(p, original.value)
    requires Sampled(p, original, spawnTime, oracle, n).Ok?
    ensures Sampled(p, original, spawnTime, oracle, n - 1).Ok?
    ensures
      var row, sample := p.initializations[n - 1], SampleOf(p, original, spawnTime, oracle, n - 1);
      && row.instanceId < |p.instances| && sample.Some? && sample.value.content.Composite? == row.givesObject
      && Sampled(p, original, spawnTime, oracle, n).value
         == Recorded(p, Sampled(p, original, spawnTime, oracle, n - 1).value, row, sample.value)
  {
    assert p.initializations[n - 1] in p.initializations;
  }

  lemma {:induction false} SampledIsComplete(p: Provider, original: Option<Realisation>, spawnTime: Option<int>, oracle: Oracle, n: nat)
    requires p.Valid() && n <= |p.initializations|
    requires original.Some? ==> Complete(p, original.value)
    requires Sampled(p, original, spawnTime, oracle, n).Ok?
    ensures
      var r := Sampled(p, original, spawnTime, oracle, n).value;
      && |r.initializationDisclosureTimes| == n
      && (forall k | 0 <= k < n :: HoldsRow(r, p.initializations[k]))
      && (forall i | 0 <= i < |p.instances| :: i in r.instantiationTimes && (i, p.instances[i].process) in r.disclosureTimes)
  {
    hide Drawn, Kept, Recorded, HoldsRow;
    if n > 0 {
      SampledIsComplete(p, original, spawnTime, oracle, n - 1);
      SampledStep(p, original, spawnTime, oracle, n);
      RecordedHolds(p, Sampled(p, original, spawnTime, oracle, n - 1).value, p.initializations[n - 1],
                    SampleOf(p, original, spawnTime, oracle, n - 1).value);
    }
  }

  // ---------- the scenario and its sampling ----------

  class Scenario {
    var values: map<(nat, Attribute), int>
    var objects: map<(nat, Attribute), ObjectId>
    var instantiationTimes: map<nat, int>
    var disclosureTimes: map<(nat, Node), int>
    var initializationDisclosureTimes: seq<int>
    var time: int

    ghost function Contents(): Realisation
      reads this
    {
      Realisation(values, objects, instantiationTimes, disclosureTimes, initializationDisclosureTimes)
    }

    constructor ()
      ensures initializationDisclosureTimes == []
    {
      values, objects, instantiationTimes, disclosureTimes, initializationDisclosureTimes := map[], map[], map[], map[], [];
      time := 0;
    }
  }

  /** Samples again, while early, what a fork may not draw before the spawn time. */
  method SampleAgain(draw: nat -> Option<int>, spawnTime: Option<int>) returns (value: Option<int>)
    ensures value == Resampled(draw, spawnTime, 0)
    ensures exists i: nat :: i < MAX_RESAMPLING_TRIES && value == draw(i) && AllEarly(draw, spawnTime, i)
                             && (i + 1 == MAX_RESAMPLING_TRIES || !AllEarly(draw, spawnTime, i + 1))
  {
    value := draw(0);
    var tries: nat := 1;
    while value.Some? && Early(value.value, spawnTime) && tries < MAX_RESAMPLING_TRIES
      invariant 1 <= tries <= MAX_RESAMPLING_TRIES
      invariant value == draw(tries - 1) && AllEarly(draw, spawnTime, tries - 1)
      invariant Resampled(draw, spawnTime, 0) == Resampled(draw, spawnTime, tries - 1)
    {
      value := draw(tries);
      tries := tries + 1;
    }
    ghost var i: nat := tries - 1;
    assert AllEarly(draw, spawnTime, i + 1) ==> draw(i).Some? && Early(draw(i).value, spawnTime);
  }

  /** Draws the sample of a row. */
  method Draw(p: Provider, k: nat, spawnTime: Option<int>, oracle: Oracle) returns (sample: Option<Sample>)
    requires p.Valid() && k < |p.initializations|
    ensures sample == Drawn(p, k, spawnTime, oracle)
  {
    var row := p.initializations[k];
    var content: Content;
    if row.givesObject {
      var drawn := oracle.object_(k);
      if drawn.None? {
        return None;
      }
      content := Composite(drawn.value);
    } else if p.GivesTimestamp(row) {
      var value := SampleAgain(ValueDraws(oracle, k), spawnTime);
      if value.None? {
        return None;
      }
      content := Number(AtLeast(value.value, spawnTime));
    } else {
      var value := oracle.value(k, 0);
      if value.None? {
        return None;
      }
      content := Number(value.value);
    }
    var disclosure := SampleAgain(DisclosureDraws(oracle, k), spawnTime);
    if disclosure.None? {
      return None;
    }
    return Some(Sample(content, AtLeast(disclosure.value, spawnTime)));
  }

  method Record(p: Provider, scenario: Scenario, row: Initialization, sample: Sample)
    requires row.instanceId < |p.instances| && sample.content.Composite? == row.givesObject
    modifies scenario
    ensures scenario.Contents() == Recorded(p, old(scenario.Contents()), row, sample) && scenario.time == old(scenario.time)
  {
    if row.givesObject {
      scenario.objects := scenario.objects[(row.instanceId, row.attribute) := sample.content.id];
    } else {
      scenario.values := scenario.values[(row.instanceId, row.attribute) := sample.content.value];
    }
    scenario.initializationDisclosureTimes := scenario.initializationDisclosureTimes + [sample.disclosure];
    if p.GivesTimestamp(row) {
      // the timestamp of a row, rounded up, replaces the time recorded so far
      scenario.instantiationTimes := scenario.instantiationTimes[row.instanceId := Ceil(sample.content.value)];
    }
    // Recorded takes the maximum of the row, the parent and what other rows of the node gave
    var disclosure := sample.disclosure;
    if row.node in p.parents && (row.instanceId, p.parents[row.node]) in scenario.disclosureTimes {
      disclosure := Max(disclosure, scenario.disclosureTimes[(row.instanceId, p.parents[row.node])]);
    }
    var at := (row.instanceId, row.node);
    if at in scenario.disclosureTimes {
      disclosure := Max(scenario.disclosureTimes[at], disclosure);
    }
    scenario.disclosureTimes := scenario.disclosureTimes[at := disclosure];
  }

  method Prepare(p: Provider, scenario: Scenario)
    requires p.Valid() && scenario.initializationDisclosureTimes == []
    modifies scenario
    ensures scenario.Contents() == Initial(p) && scenario.time == old(scenario.time)
  {
    scenario.values, scenario.objects := InitialValues(p), InitialObjects(p);
    scenario.instantiationTimes, scenario.disclosureTimes := InitialTimes(p), InitialDisclosures(p);
  }

  /** Samples row after row into the scenario, until one yields no value. */
  method SampleInto(p: Provider, scenario: Scenario, original: Option<Realisation>, spawnTime: Option<int>, oracle: Oracle)
    returns (failure: Option<Failure>)
    requires p.Valid() && scenario.initializationDisclosureTimes == []
    requires original.Some? ==> Complete(p, original.value)
    modifies scenario
    ensures failure.None? ==> Sampled(p, original, spawnTime, oracle, |p.initializations|) == Ok(scenario.Contents())
    ensures failure.Some? ==> Sampled(p, original, spawnTime, oracle, |p.initializations|).Err?
  {
    hide Drawn, Recorded, Initial;
    Prepare(p, scenario);
    for k := 0 to |p.initializations|
      invariant Sampled(p, original, spawnTime, oracle, k) == Ok(scenario.Contents())
    {
      var row := p.initializations[k];
      assert row in p.initializations;
      var sample;
      if Keeps(original, k, spawnTime) {
        // Keeps holds, so that nothing is drawn for this row
        sample := Kept(original.value, row, k);
      } else {
        var drawn := Draw(p, k, spawnTime, oracle);
        if drawn.None? {
          StaysFailed(p, original, spawnTime, oracle, k + 1, |p.initializations|);
          return Some(NoValue);
        }
        sample := drawn.value;
      }
      Record(p, scenario, row, sample);
    }
    return None;
  }

  lemma {:induction false} StaysFailed(p: Provider, original: Option<Realisation>, spawnTime: Option<int>, oracle: Oracle, k: nat, n: nat)
    requires p.Valid() && k <= n <= |p.initializations|
    requires original.Some? ==> Complete(p, original.value)
    requires Sampled(p, original, spawnTime, oracle, k).Err?
    ensures Sampled(p, original, spawnTime, oracle, n).Err?
  {
    if k < n {
      StaysFailed(p, original, spawnTime, oracle, k, n - 1);
    }
  }

  // ---------- runs and their forks ----------

  /** A scenario is created for a run, or forked from a scenario at a time of its run. */
  datatype Origin = Run(oracle: Oracle) | Fork(of: Origin, time: int, oracle: Oracle)

  /** The first instant at which a fork may differ from its run. */
  function SpawnTime(time: int): int {
    time + SCALE
  }

  ghost function RealisationOf(p: Provider, origin: Origin): (r: Result<Realisation, Failure>)
    requires p.Valid()
    ensures r.Ok? ==> Complete(p, r.value)
  {
    var n := |p.initializations|;
    match origin
    case Run(oracle) =>
      var r := Sampled(p, None, None, oracle, n);
      assert r.Ok? ==> Complete(p, r.value) by { if r.Ok? { SampledIsComplete(p, None, None, oracle, n); } }
      r
    case Fork(of, time, oracle) =>
      match RealisationOf(p, of)
      case Err(e) => Err(e)
      case Ok(original) =>
        var r := Sampled(p, Some(original), Some(SpawnTime(time)), oracle, n);
        assert r.Ok? ==> Complete(p, r.value) by {
          if r.Ok? { SampledIsComplete(p, Some(original), Some(SpawnTime(time)), oracle, n); }
        }
        r
  }

  method CreateScenario(p: Provider, oracle: Oracle) returns (scenario: Option<Scenario>)
    requires p.Valid()
    ensures scenario.Some? ==> fresh(scenario.value) && RealisationOf(p, Run(oracle)) == Ok(scenario.value.Contents())
    ensures scenario.Some? ==> forall k | 0 <= k < |p.initializations| :: DrawnAnew(p, scenario.value.Contents(), None, oracle, k)
    ensures scenario.None? ==> RealisationOf(p, Run(oracle)).Err?
    ensures scenario.None? <==> exists k: nat :: k < |p.initializations| && !Yields(p, oracle, k)
  {
    RunFailsExactly(p, oracle, |p.initializations|);
    hide Sampled, DrawnAnew;
    var created := new Scenario();
    var failure := SampleInto(p, created, None, None, oracle);
    if failure.None? {
      assert RealisationOf(p, Run(oracle)) == Ok(created.Contents()) && Complete(p, created.Contents());
      forall k | 0 <= k < |p.initializations| ensures DrawnAnew(p, created.Contents(), None, oracle, k) {
        OthersAreDrawn(p, None, None, oracle, k);
      }
    }
    return if failure.None? then Some(created) else None;
  }

  method ForkScenario(p: Provider, original: Scenario, ghost origin: Origin, oracle: Oracle) returns (fork: Option<Scenario>)
    requires p.Valid() && RealisationOf(p, origin) == Ok(original.Contents())
    ensures
      var forked := RealisationOf(p, Fork(origin, original.time, oracle));
      && (fork.Some? ==> fresh(fork.value) && forked == Ok(fork.value.Contents())
                         && AgreeBefore(p, original.Contents(), fork.value.Contents(), SpawnTime(original.time)))
      && (fork.None? ==> forked.Err?)
    ensures fork.Some? ==>
      forall k | 0 <= k < |p.initializations| && original.initializationDisclosureTimes[k] >= original.time + SCALE ::
        DrawnAnew(p, fork.value.Contents(), Some(original.time + SCALE), oracle, k)
  {
    hide Sampled, DrawnAnew;
    var created := new Scenario();
    var realisation := Realisation(original.values, original.objects, original.instantiationTimes,
                                   original.disclosureTimes, original.initializationDisclosureTimes);
    // ForkAgrees is stated for this spawn time
    var failure := SampleInto(p, created, Some(realisation), Some(SpawnTime(original.time)), oracle);
    if failure.None? {
      ForkAgrees(p, origin, original.time, oracle);
      forall k | 0 <= k < |p.initializations| && original.initializationDisclosureTimes[k] >= original.time + SCALE
        ensures DrawnAnew(p, created.Contents(), Some(original.time + SCALE), oracle, k)
      {
        OthersAreDrawn(p, Some(realisation), Some(SpawnTime(original.time)), oracle, k);
      }
    }
    return if failure.None? then Some(created) else None;
  }

  // ---------- what is disclosed early is the same ----------

  ghost predicate Holds(r: Realisation, row: Initialization, content: Content) {
    && HoldsRow(r, row)
    && content == if row.givesObject then Composite(r.objects[(row.instanceId, row.attribute)])
                  else Number(r.values[(row.instanceId, row.attribute)])
  }

  ghost predicate OneRowPerAttribute(p: Provider) {
    forall j, k | 0 <= j < k < |p.initializations| ::
      var a, b := p.initializations[j], p.initializations[k];
      a.instanceId != b.instanceId || a.attribute != b.attribute
  }

  /** Neither scenario can be told from the other by what is disclosed before the given time. */
  ghost predicate AgreeBefore(p: Provider, r: Realisation, f: Realisation, s: int)
    requires Complete(p, r) && Complete(p, f)
  {
    && (forall k | 0 <= k < |p.initializations| && r.initializationDisclosureTimes[k] < s ::
          && f.initializationDisclosureTimes[k] == r.initializationDisclosureTimes[k]
          && (OneRowPerAttribute(p) ==> forall content :: Holds(r, p.initializations[k], content)
                                                    <==> Holds(f, p.initializations[k], content)))
    && (forall k | 0 <= k < |p.initializations| && r.initializationDisclosureTimes[k] >= s ::
          f.initializationDisclosureTimes[k] >= s)
    && SameBefore(r.disclosureTimes, f.disclosureTimes, s)
  }

  /** The times are the same, truncated at s. */
  ghost predicate SameBefore(a: map<(nat, Node), int>, b: map<(nat, Node), int>, s: int) {
    && a.Keys == b.Keys
    && forall at <- a.Keys :: Min(a[at], s) == Min(b[at], s)
  }

  /** What a fork samples anew is not disclosed, and gives no timestamp, before the spawn time. */
  lemma DrawnIsNotEarly(p: Provider, k: nat, s: int, oracle: Oracle)
    requires p.Valid() && k < |p.initializations| && Drawn(p, k, Some(s), oracle).Some?
    ensures
      var sample := Drawn(p, k, Some(s), oracle).value;
      sample.disclosure >= s && (p.GivesTimestamp(p.initializations[k]) ==> sample.content.value >= s)
  {
  }

  lemma {:induction false} PrefixOfDisclosures(p: Provider, original: Option<Realisation>, spawnTime: Option<int>, oracle: Oracle, k: nat, n: nat)
    requires p.Valid() && k < n <= |p.initializations|
    requires original.Some? ==> Complete(p, original.value)
    requires Sampled(p, original, spawnTime, oracle, n).Ok?
    ensures
      var r := Sampled(p, original, spawnTime, oracle, n).value;
      && SampleOf(p, original, spawnTime, oracle, k).Some?
      && |r.initializationDisclosureTimes| == n
      && r.initializationDisclosureTimes[k] == SampleOf(p, original, spawnTime, oracle, k).value.disclosure
    decreases n
  {
    hide SampleOf, Drawn, Recorded, HoldsRow;
    SampledStep(p, original, spawnTime, oracle, n);
    SampledIsComplete(p, original, spawnTime, oracle, n - 1);
    RecordedHolds(p, Sampled(p, original, spawnTime, oracle, n - 1).value, p.initializations[n - 1],
                  SampleOf(p, original, spawnTime, oracle, n - 1).value);
    if k < n - 1 {
      PrefixOfDisclosures(p, original, spawnTime, oracle, k, n - 1);
    }
  }

  /** The sample a fork gives a row is disclosed as in the run, if that is before the spawn time, or not before it. */
  lemma ForkedSample(p: Provider, r: Realisation, s: int, oracle: Oracle, k: nat)
    requires p.Valid() && Complete(p, r) && k < |p.initializations|
    requires SampleOf(p, Some(r), Some(s), oracle, k).Some?
    ensures
      var sample, disclosed := SampleOf(p, Some(r), Some(s), oracle, k).value, r.initializationDisclosureTimes[k];
      && (disclosed < s ==> sample.disclosure == disclosed && Holds(r, p.initializations[k], sample.content))
      && (disclosed >= s ==> sample.disclosure >= s
                             && (p.GivesTimestamp(p.initializations[k]) ==> sample.content.Number? && sample.content.value >= s))
  {
    assert p.initializations[k] in p.initializations;
    if r.initializationDisclosureTimes[k] >= s {
      DrawnIsNotEarly(p, k, s, oracle);
    }
  }

  lemma RecordedSameBefore(p: Provider, r: Realisation, f: Realisation, row: Initialization, a: Sample, b: Sample, s: int)
    requires row.instanceId < |p.instances|
    requires a.content.Composite? == row.givesObject && b.content.Composite? == row.givesObject
    requires SameBefore(r.disclosureTimes, f.disclosureTimes, s) && Min(a.disclosure, s) == Min(b.disclosure, s)
    ensures SameBefore(Recorded(p, r, row, a).disclosureTimes, Recorded(p, f, row, b).disclosureTimes, s)
  {
  }

  /** The nodes disclosed by the first n rows agree, truncated at the spawn time. */
  lemma {:induction false} DisclosuresAgree(p: Provider, original: Option<Realisation>, spawnTime: Option<int>, oracle: Oracle,
                                            r: Realisation, s: int, other: Oracle, n: nat)
    requires p.Valid() && n <= |p.initializations| && (original.Some? ==> Complete(p, original.value))
    requires Complete(p, r) && Sampled(p, original, spawnTime, oracle, |p.initializations|) == Ok(r)
    requires Sampled(p, original, spawnTime, oracle, n).Ok? && Sampled(p, Some(r), Some(s), other, n).Ok?
    ensures SameBefore(Sampled(p, original, spawnTime, oracle, n).value.disclosureTimes,
                       Sampled(p, Some(r), Some(s), other, n).value.disclosureTimes, s)
  {
    hide SampleOf, Recorded, Drawn, SameBefore;
    if n == 0 {
      assert SameBefore(InitialDisclosures(p), InitialDisclosures(p), s) by { SameAsItself(InitialDisclosures(p), s); }
    } else {
      SampledStep(p, original, spawnTime, oracle, n);
      SampledStep(p, Some(r), Some(s), other, n);
      DisclosuresAgree(p, original, spawnTime, oracle, r, s, other, n - 1);
      PrefixOfDisclosures(p, original, spawnTime, oracle, n - 1, |p.initializations|);
      ForkedSample(p, r, s, other, n - 1);
      RecordedSameBefore(p, Sampled(p, original, spawnTime, oracle, n - 1).value,
                         Sampled(p, Some(r), Some(s), other, n - 1).value, p.initializations[n - 1],
                         SampleOf(p, original, spawnTime, oracle, n - 1).value,
                         SampleOf(p, Some(r), Some(s), other, n - 1).value, s);
    }
  }

  lemma SameAsItself(a: map<(nat, Node), int>, s: int)
    ensures SameBefore(a, a, s)
  {
  }

  lemma RecordedOther(p: Provider, r: Realisation, row: Initialization, sample: Sample, other: Initialization, content: Content)
    requires row.instanceId < |p.instances| && sample.content.Composite? == row.givesObject
    requires row.instanceId != other.instanceId || row.attribute != other.attribute
    ensures Holds(Recorded(p, r, row, sample), other, content) <==> Holds(r, other, content)
  {
  }

  /** With one row for each attribute, what a row gives is never overwritten. */
  lemma {:induction false} SampleRemains(p: Provider, original: Option<Realisation>, spawnTime: Option<int>, oracle: Oracle, k: nat, n: nat)
    requires p.Valid() && OneRowPerAttribute(p) && k < n <= |p.initializations|
    requires original.Some? ==> Complete(p, original.value)
    requires Sampled(p, original, spawnTime, oracle, n).Ok?
    ensures SampleOf(p, original, spawnTime, oracle, k).Some?
    ensures Holds(Sampled(p, original, spawnTime, oracle, n).value, p.initializations[k],
                  SampleOf(p, original, spawnTime, oracle, k).value.content)
    decreases n
  {
    hide SampleOf, Drawn, OneRowPerAttribute;
    SampledStep(p, original, spawnTime, oracle, n);
    if k < n - 1 {
      SampleRemains(p, original, spawnTime, oracle, k, n - 1);
      OtherRow(p, k, n - 1);
      RecordedOther(p, Sampled(p, original, spawnTime, oracle, n - 1).value, p.initializations[n - 1],
                    SampleOf(p, original, spawnTime, oracle, n - 1).value, p.initializations[k],
                    SampleOf(p, original, spawnTime, oracle, k).value.content);
    }
  }

  lemma OtherRow(p: Provider, j: nat, k: nat)
    requires OneRowPerAttribute(p) && j < k < |p.initializations|
    ensures p.initializations[j].instanceId != p.initializations[k].instanceId
         || p.initializations[j].attribute != p.initializations[k].attribute
  {
  }

  ghost function OriginalOf(p: Provider, origin: Origin): Option<Realisation>
    requires p.Valid() && RealisationOf(p, origin).Ok?
  {
    if origin.Run? then None else Some(RealisationOf(p, origin.of).value)
  }

  ghost function SpawnTimeOf(origin: Origin): Option<int> {
    if origin.Run? then None else Some(SpawnTime(origin.time))
  }

  lemma OriginIsSampled(p: Provider, origin: Origin)
    requires p.Valid() && RealisationOf(p, origin).Ok?
    ensures
      var original := OriginalOf(p, origin);
      && (original.Some? ==> Complete(p, original.value))
      && Sampled(p, original, SpawnTimeOf(origin), origin.oracle, |p.initializations|) == RealisationOf(p, origin)
  {
  }

  /**
   A fork keeps the value and the disclosure time of every initialization disclosed before the spawn time, and
   discloses no other one earlier; hence all nodes agree on their disclosure times truncated at the spawn time.
   */
  lemma ForkAgrees(p: Provider, origin: Origin, time: int, oracle: Oracle)
    requires p.Valid() && RealisationOf(p, origin).Ok? && RealisationOf(p, Fork(origin, time, oracle)).Ok?
    ensures AgreeBefore(p, RealisationOf(p, origin).value, RealisationOf(p, Fork(origin, time, oracle)).value, SpawnTime(time))
  {
    hide SampleOf, Drawn, Recorded, OneRowPerAttribute, SameBefore, Holds;
    var r, f := RealisationOf(p, origin).value, RealisationOf(p, Fork(origin, time, oracle)).value;
    var original, spawnTime, s, n := OriginalOf(p, origin), SpawnTimeOf(origin), SpawnTime(time), |p.initializations|;
    OriginIsSampled(p, origin);
    OriginIsSampled(p, Fork(origin, time, oracle));
    DisclosuresAgree(p, original, spawnTime, origin.oracle, r, s, oracle, n);
    forall k | 0 <= k < n
      ensures r.initializationDisclosureTimes[k] < s ==> f.initializationDisclosureTimes[k] == r.initializationDisclosureTimes[k]
      ensures r.initializationDisclosureTimes[k] >= s ==> f.initializationDisclosureTimes[k] >= s
      ensures r.initializationDisclosureTimes[k] < s && OneRowPerAttribute(p) ==>
                forall content :: Holds(r, p.initializations[k], content) <==> Holds(f, p.initializations[k], content)
    {
      PrefixOfDisclosures(p, Some(r), Some(s), oracle, k, n);
      ForkedSample(p, r, s, oracle, k);
      if r.initializationDisclosureTimes[k] < s && OneRowPerAttribute(p) {
        SampleRemains(p, Some(r), Some(s), oracle, k, n);
        SameContent(r, f, p.initializations[k], SampleOf(p, Some(r), Some(s), oracle, k).value.content);
      }
    }
  }

  /** Row k is sampled from the oracle: its content and disclosure are drawn, none of them before the spawn time. */
  ghost predicate DrawnAnew(p: Provider, r: Realisation, spawnTime: Option<int>, oracle: Oracle, k: nat)
    requires p.Valid() && Complete(p, r) && k < |p.initializations|
  {
    var row := p.initializations[k];
    var key := (row.instanceId, row.attribute);
    && FirstOnTime(DisclosureDraws(oracle, k), spawnTime, r.initializationDisclosureTimes[k])
    && (OneRowPerAttribute(p) ==>
          if row.givesObject then key in r.objects && oracle.object_(k) == Some(r.objects[key])
          else key in r.values && if row.attribute == p.instances[row.instanceId].timestamp
                                  then FirstOnTime(ValueDraws(oracle, k), spawnTime, r.values[key])
                                  else oracle.value(k, 0) == Some(r.values[key]))
  }

  /** A row is drawn anew unless the run sampled from discloses it before the spawn time. */
  lemma OthersAreDrawn(p: Provider, original: Option<Realisation>, spawnTime: Option<int>, oracle: Oracle, k: nat)
    requires p.Valid() && k < |p.initializations| && (original.Some? ==> Complete(p, original.value))
    requires original.Some? && spawnTime.Some? ==> original.value.initializationDisclosureTimes[k] >= spawnTime.value
    requires Sampled(p, original, spawnTime, oracle, |p.initializations|).Ok?
    requires Complete(p, Sampled(p, original, spawnTime, oracle, |p.initializations|).value)
    ensures DrawnAnew(p, Sampled(p, original, spawnTime, oracle, |p.initializations|).value, spawnTime, oracle, k)
  {
    hide Sampled, Drawn, OneRowPerAttribute, FirstOnTime;
    assert p.initializations[k] in p.initializations;
    var n := |p.initializations|;
    PrefixOfDisclosures(p, original, spawnTime, oracle, k, n);
    DrawnIsFirst(p, k, spawnTime, oracle);
    if OneRowPerAttribute(p) {
      SampleRemains(p, original, spawnTime, oracle, k, n);
    }
  }

  /** The first draws for the row have values. */
  ghost predicate Yields(p: Provider, oracle: Oracle, k: nat)
    requires k < |p.initializations|
  {
    && (if p.initializations[k].givesObject then oracle.object_(k).Some? else oracle.value(k, 0).Some?)
    && oracle.disclosure(k, 0).Some?
  }

  /** A run cannot be sampled exactly if the expressions of some row yield no value. */
  lemma {:induction false} RunFailsExactly(p: Provider, oracle: Oracle, n: nat)
    requires p.Valid() && n <= |p.initializations|
    ensures Sampled(p, None, None, oracle, n).Err? <==> exists k: nat :: k < n && !Yields(p, oracle, k)
  {
    hide Recorded, Initial;
    if n > 0 {
      RunFailsExactly(p, oracle, n - 1);
      assert (exists k: nat :: k < n && !Yields(p, oracle, k))
        <==> (exists k: nat :: k < n - 1 && !Yields(p, oracle, k)) || !Yields(p, oracle, n - 1);
    }
  }

  /** No row gives the attribute of the instance. */
  ghost predicate NotGiven(p: Provider, i: nat, a: Attribute, n: nat)
    requires n <= |p.initializations|
  {
    forall k | 0 <= k < n :: p.initializations[k].instanceId != i || p.initializations[k].attribute != a
  }

  /** What no row gives is as the instance has it. */
  lemma {:induction false} NotGivenIsKept(p: Provider, original: Option<Realisation>, spawnTime: Option<int>, oracle: Oracle,
                                          i: nat, a: Attribute, n: nat)
    requires p.Valid() && n <= |p.initializations| && i < |p.instances| && NotGiven(p, i, a, n)
    requires original.Some? ==> Complete(p, original.value)
    requires Sampled(p, original, spawnTime, oracle, n).Ok?
    ensures
      var r, instance := Sampled(p, original, spawnTime, oracle, n).value, p.instances[i];
      && ((i, a) in r.values <==> a in instance.values) && (a in instance.values ==> r.values[(i, a)] == instance.values[a])
      && ((i, a) in r.objects <==> a in instance.objects) && (a in instance.objects ==> r.objects[(i, a)] == instance.objects[a])
  {
    hide Drawn, SampleOf;
    if n > 0 {
      SampledStep(p, original, spawnTime, oracle, n);
      NotGivenIsKept(p, original, spawnTime, oracle, i, a, n - 1);
    }
  }

  lemma SameContent(r: Realisation, f: Realisation, row: Initialization, content: Content)
    requires Holds(r, row, content) && Holds(f, row, content)
    ensures forall c :: Holds(r, row, c) <==> Holds(f, row, c)
  {
  }

  // ---------- the ready times of processes ----------

  function KnownTime(p: Provider, r: Realisation, i: nat): int
    requires i < |p.instances| && (i, p.instances[i].process) in r.disclosureTimes
  {
    r.disclosureTimes[(i, p.instances[i].process)]
  }

  /** The later of the instantiation time and the known time of an instance. */
  function ProcessReadyTime(p: Provider, r: Realisation, i: nat): int
    requires i < |p.instances| && (i, p.instances[i].process) in r.disclosureTimes && i in r.instantiationTimes
  {
    Max(r.instantiationTimes[i], KnownTime(p, r, i))
  }

  /** Every timestamp is given by a row for the process itself, not by one for a node within it. */
  ghost predicate TimestampsAtProcesses(p: Provider)
    requires p.Valid()
  {
    forall k | 0 <= k < |p.initializations| :: AtProcess(p, k)
  }

  ghost predicate AtProcess(p: Provider, k: nat)
    requires p.Valid() && k < |p.initializations|
  {
    assert p.initializations[k] in p.initializations;
    p.GivesTimestamp(p.initializations[k]) ==> p.initializations[k].node == p.instances[p.initializations[k].instanceId].process
  }

  /** The node of a row is disclosed no earlier than the row. */
  lemma {:induction false} RowsAreCovered(p: Provider, original: Option<Realisation>, spawnTime: Option<int>, oracle: Oracle, k: nat, n: nat)
    requires p.Valid() && k < n <= |p.initializations|
    requires original.Some? ==> Complete(p, original.value)
    requires Sampled(p, original, spawnTime, oracle, n).Ok?
    ensures SampleOf(p, original, spawnTime, oracle, k).Some?
    ensures
      var row, r := p.initializations[k], Sampled(p, original, spawnTime, oracle, n).value;
      && (row.instanceId, row.node) in r.disclosureTimes
      && r.disclosureTimes[(row.instanceId, row.node)] >= SampleOf(p, original, spawnTime, oracle, k).value.disclosure
    decreases n
  {
    hide SampleOf, Drawn;
    SampledStep(p, original, spawnTime, oracle, n);
    if k < n - 1 {
      RowsAreCovered(p, original, spawnTime, oracle, k, n - 1);
    }
  }

  /** Row j is a row of the scope containing the node of row k. */
  ghost predicate OfScope(p: Provider, j: nat, k: nat)
    requires j < |p.initializations| && k < |p.initializations|
  {
    var row := p.initializations[k];
    && row.node in p.parents && p.initializations[j].node == p.parents[row.node]
    && p.initializations[j].instanceId == row.instanceId
  }

  /** The node of a row is disclosed no earlier than the rows before it of the scope containing the node. */
  lemma {:induction false} ScopesAreCovered(p: Provider, original: Option<Realisation>, spawnTime: Option<int>, oracle: Oracle,
                                            j: nat, k: nat, n: nat)
    requires p.Valid() && j < k < n <= |p.initializations| && OfScope(p, j, k)
    requires original.Some? ==> Complete(p, original.value)
    requires Sampled(p, original, spawnTime, oracle, n).Ok?
    ensures SampleOf(p, original, spawnTime, oracle, j).Some?
    ensures
      var row, r := p.initializations[k], Sampled(p, original, spawnTime, oracle, n).value;
      && (row.instanceId, row.node) in r.disclosureTimes
      && r.disclosureTimes[(row.instanceId, row.node)] >= SampleOf(p, original, spawnTime, oracle, j).value.disclosure
    decreases n
  {
    hide SampleOf, Drawn;
    SampledStep(p, original, spawnTime, oracle, n);
    if k < n - 1 {
      ScopesAreCovered(p, original, spawnTime, oracle, j, k, n - 1);
    } else {
      RowsAreCovered(p, original, spawnTime, oracle, j, n - 1);
    }
  }

  /** The scope d levels around a node. */
  ghost function Around(p: Provider, node: Node, d: nat): Option<Node>
    decreases d
  {
    if d == 0 then Some(node)
    else if node in p.parents then Around(p, p.parents[node], d - 1)
    else None
  }

  /** Row k is of the instance, and of the node or a scope around it, and disclosed at the given time. */
  ghost predicate DisclosedBy(p: Provider, original: Option<Realisation>, spawnTime: Option<int>, oracle: Oracle,
                              at: (nat, Node), time: int, k: nat, d: nat)
    requires p.Valid() && k < |p.initializations|
    requires original.Some? ==> Complete(p, original.value)
  {
    && p.initializations[k].instanceId == at.0 && Around(p, at.1, d) == Some(p.initializations[k].node)
    && SampleOf(p, original, spawnTime, oracle, k).Some? && SampleOf(p, original, spawnTime, oracle, k).value.disclosure == time
  }

  ghost predicate DisclosedBySome(p: Provider, original: Option<Realisation>, spawnTime: Option<int>, oracle: Oracle,
                                  at: (nat, Node), time: int, n: nat)
    requires p.Valid() && n <= |p.initializations|
    requires original.Some? ==> Complete(p, original.value)
  {
    exists k: nat, d: nat :: k < n && DisclosedBy(p, original, spawnTime, oracle, at, time, k, d)
  }

  /** A node is disclosed from the start or with one of the rows of the node and of the scopes around it, and not later. */
  lemma {:induction false} DisclosureIsGiven(p: Provider, original: Option<Realisation>, spawnTime: Option<int>, oracle: Oracle,
                                             at: (nat, Node), n: nat)
    requires p.Valid() && n <= |p.initializations|
    requires original.Some? ==> Complete(p, original.value)
    requires Sampled(p, original, spawnTime, oracle, n).Ok? && at in Sampled(p, original, spawnTime, oracle, n).value.disclosureTimes
    ensures
      var time := Sampled(p, original, spawnTime, oracle, n).value.disclosureTimes[at];
      time == 0 || DisclosedBySome(p, original, spawnTime, oracle, at, time, n)
    decreases n
  {
    hide Drawn, SampleOf, Recorded, Around, DisclosedBySome;
    if n > 0 {
      SampledStep(p, original, spawnTime, oracle, n);
      var before, row := Sampled(p, original, spawnTime, oracle, n - 1).value, p.initializations[n - 1];
      var sample := SampleOf(p, original, spawnTime, oracle, n - 1).value;
      var time := Recorded(p, before, row, sample).disclosureTimes[at];
      RecordedDisclosure(p, before, row, sample, at);
      if at in before.disclosureTimes && time == before.disclosureTimes[at] {
        DisclosureIsGiven(p, original, spawnTime, oracle, at, n - 1);
        if time != 0 {
          StillDisclosed(p, original, spawnTime, oracle, at, time, n);
        }
      } else if time == sample.disclosure {
        LastDiscloses(p, original, spawnTime, oracle, n);
      } else {
        var scope := (row.instanceId, p.parents[row.node]);
        DisclosureIsGiven(p, original, spawnTime, oracle, scope, n - 1);
        if time != 0 {
          DisclosedWithin(p, original, spawnTime, oracle, at, time, n - 1);
          StillDisclosed(p, original, spawnTime, oracle, at, time, n);
        }
      }
    }
  }

  lemma RecordedDisclosure(p: Provider, r: Realisation, row: Initialization, sample: Sample, at: (nat, Node))
    requires row.instanceId < |p.instances| && sample.content.Composite? == row.givesObject
    requires at in Recorded(p, r, row, sample).disclosureTimes
    ensures
      var time := Recorded(p, r, row, sample).disclosureTimes[at];
      || (at in r.disclosureTimes && time == r.disclosureTimes[at])
      || (at == (row.instanceId, row.node)
          && (time == sample.disclosure
              || (row.node in p.parents && (row.instanceId, p.parents[row.node]) in r.disclosureTimes
                  && time == r.disclosureTimes[(row.instanceId, p.parents[row.node])])))
  {
  }

  lemma StillDisclosed(p: Provider, original: Option<Realisation>, spawnTime: Option<int>, oracle: Oracle,
                       at: (nat, Node), time: int, n: nat)
    requires p.Valid() && 0 < n <= |p.initializations|
    requires original.Some? ==> Complete(p, original.value)
    requires DisclosedBySome(p, original, spawnTime, oracle, at, time, n - 1)
    ensures DisclosedBySome(p, original, spawnTime, oracle, at, time, n)
  {
    hide DisclosedBy;
  }

  lemma LastDiscloses(p: Provider, original: Option<Realisation>, spawnTime: Option<int>, oracle: Oracle, n: nat)
    requires p.Valid() && 0 < n <= |p.initializations|
    requires original.Some? ==> Complete(p, original.value)
    requires SampleOf(p, original, spawnTime, oracle, n - 1).Some?
    ensures
      var row, time := p.initializations[n - 1], SampleOf(p, original, spawnTime, oracle, n - 1).value.disclosure;
      DisclosedBySome(p, original, spawnTime, oracle, (row.instanceId, row.node), time, n)
  {
    hide SampleOf;
    var row, time := p.initializations[n - 1], SampleOf(p, original, spawnTime, oracle, n - 1).value.disclosure;
    assert DisclosedBy(p, original, spawnTime, oracle, (row.instanceId, row.node), time, n - 1, 0);
  }

  lemma DisclosedWithin(p: Provider, original: Option<Realisation>, spawnTime: Option<int>, oracle: Oracle,
                        at: (nat, Node), time: int, n: nat)
    requires p.Valid() && n <= |p.initializations| && at.1 in p.parents
    requires original.Some? ==> Complete(p, original.value)
    requires DisclosedBySome(p, original, spawnTime, oracle, (at.0, p.parents[at.1]), time, n)
    ensures DisclosedBySome(p, original, spawnTime, oracle, at, time, n)
  {
    hide SampleOf;
    var k: nat, d: nat :| k < n && DisclosedBy(p, original, spawnTime, oracle, (at.0, p.parents[at.1]), time, k, d);
    assert DisclosedBy(p, original, spawnTime, oracle, at, time, k, d + 1);
  }

  /** The instantiation time recorded is that of the instance, or the timestamp of one of its rows rounded up. */
  ghost predicate Instantiated(p: Provider, r: Realisation, i: nat, n: nat)
    requires p.Valid() && i < |p.instances| && n <= |p.initializations|
  {
    && i in r.instantiationTimes
    && ((exists k | 0 <= k < n :: GivesTimestampOf(p, k, i)) ==>
          (i, p.instances[i].timestamp) in r.values && r.instantiationTimes[i] == Ceil(r.values[(i, p.instances[i].timestamp)]))
    && ((forall k | 0 <= k < n :: !GivesTimestampOf(p, k, i)) ==> r.instantiationTimes[i] == p.instances[i].instantiationTime)
  }

  ghost predicate GivesTimestampOf(p: Provider, k: nat, i: nat)
    requires p.Valid() && k < |p.initializations|
  {
    assert p.initializations[k] in p.initializations;
    p.initializations[k].instanceId == i && p.GivesTimestamp(p.initializations[k])
  }

  lemma {:induction false} InstantiationFollows(p: Provider, original: Option<Realisation>, spawnTime: Option<int>, oracle: Oracle, i: nat, n: nat)
    requires p.Valid() && i < |p.instances| && n <= |p.initializations|
    requires original.Some? ==> Complete(p, original.value)
    requires Sampled(p, original, spawnTime, oracle, n).Ok?
    ensures Instantiated(p, Sampled(p, original, spawnTime, oracle, n).value, i, n)
  {
    hide SampleOf, Drawn;
    if n > 0 {
      SampledStep(p, original, spawnTime, oracle, n);
      InstantiationFollows(p, original, spawnTime, oracle, i, n - 1);
      if GivesTimestampOf(p, n - 1, i) {
      } else {
        assert (exists k | 0 <= k < n :: GivesTimestampOf(p, k, i)) <==> (exists k | 0 <= k < n - 1 :: GivesTimestampOf(p, k, i));
      }
    }
  }

  /** The ready time of an instance agrees, truncated at s. */
  ghost predicate ReadyTimeAgreesAt(p: Provider, r: Realisation, f: Realisation, s: int, i: nat)
    requires i < |p.instances|
  {
    && (i, p.instances[i].process) in r.disclosureTimes && i in r.instantiationTimes
    && (i, p.instances[i].process) in f.disclosureTimes && i in f.instantiationTimes
    && Min(ProcessReadyTime(p, r, i), s) == Min(ProcessReadyTime(p, f, i), s)
  }

  ghost predicate ReadyTimesAgree(p: Provider, r: Realisation, f: Realisation, s: int) {
    forall i | 0 <= i < |p.instances| :: ReadyTimeAgreesAt(p, r, f, s, i)
  }

  /** If timestamps are given at processes, no process becomes ready in the fork where it does not in the run. */
  lemma ForkReadyTimesAgree(p: Provider, origin: Origin, time: int, oracle: Oracle)
    requires p.Valid() && OneRowPerAttribute(p) && TimestampsAtProcesses(p)
    requires RealisationOf(p, origin).Ok? && RealisationOf(p, Fork(origin, time, oracle)).Ok?
    ensures ReadyTimesAgree(p, RealisationOf(p, origin).value, RealisationOf(p, Fork(origin, time, oracle)).value, SpawnTime(time))
  {
    hide RealisationOf, ReadyTimeAgreesAt;
    var r, f := RealisationOf(p, origin).value, RealisationOf(p, Fork(origin, time, oracle)).value;
    forall i | 0 <= i < |p.instances| ensures ReadyTimeAgreesAt(p, r, f, SpawnTime(time), i) {
      ReadyTimeAgrees(p, origin, time, oracle, i);
    }
  }

  lemma ReadyTimeAgrees(p: Provider, origin: Origin, time: int, oracle: Oracle, i: nat)
    requires p.Valid() && OneRowPerAttribute(p) && TimestampsAtProcesses(p) && i < |p.instances|
    requires RealisationOf(p, origin).Ok? && RealisationOf(p, Fork(origin, time, oracle)).Ok?
    ensures ReadyTimeAgreesAt(p, RealisationOf(p, origin).value, RealisationOf(p, Fork(origin, time, oracle)).value,
                              SpawnTime(time), i)
  {
    hide SampleOf, Drawn, Recorded, OneRowPerAttribute;
    var r, f := RealisationOf(p, origin).value, RealisationOf(p, Fork(origin, time, oracle)).value;
    var original, spawnTime, s, n := OriginalOf(p, origin), SpawnTimeOf(origin), SpawnTime(time), |p.initializations|;
    OriginIsSampled(p, origin);
    OriginIsSampled(p, Fork(origin, time, oracle));
    SampledIsComplete(p, original, spawnTime, origin.oracle, n);
    SampledIsComplete(p, Some(r), Some(s), oracle, n);
    InstantiationFollows(p, original, spawnTime, origin.oracle, i, n);
    InstantiationFollows(p, Some(r), Some(s), oracle, i, n);
    ForkAgrees(p, origin, time, oracle);
    if k :| 0 <= k < n && GivesTimestampOf(p, k, i) {
      assert AtProcess(p, k);
      if r.initializationDisclosureTimes[k] < s {
        var content := Number(r.values[(i, p.instances[i].timestamp)]);
        assert Holds(r, p.initializations[k], content);
        assert Holds(f, p.initializations[k], content);
      } else {
        PrefixOfDisclosures(p, original, spawnTime, origin.oracle, k, n);
        PrefixOfDisclosures(p, Some(r), Some(s), oracle, k, n);
        RowsAreCovered(p, original, spawnTime, origin.oracle, k, n);
        RowsAreCovered(p, Some(r), Some(s), oracle, k, n);
      }
    }
  }

  // ---------- and only if they are ----------

  /** All values are zero, and row k is disclosed at time one, every other row at time zero. */
  function LateOracle(k: nat): Oracle {
    Oracle((_, _) => Some(0), _ => Some(0), (row, _) => Some(if row == k then SCALE else 0))
  }

  lemma LateDisclosure(p: Provider, k: nat, j: nat)
    requires p.Valid() && j < |p.initializations|
    ensures Drawn(p, j, None, LateOracle(k)).Some?
    ensures
      var sample := Drawn(p, j, None, LateOracle(k)).value;
      && sample.disclosure == (if j == k then SCALE else 0)
      && (!p.initializations[j].givesObject ==> sample.content == Number(0))
  {
    var oracle := LateOracle(k);
    assert ValueDraws(oracle, j)(0) == Some(0);
    assert oracle.disclosure(j, 0) == Some(if j == k then SCALE else 0);
    assert DisclosureDraws(oracle, j)(0) == Some(if j == k then SCALE else 0);
    assert oracle.object_(j) == Some(0);
  }

  lemma AlwaysDrawn(p: Provider, k: nat, j: nat, spawnTime: Option<int>)
    requires p.Valid() && j < |p.initializations|
    ensures Drawn(p, j, spawnTime, LateOracle(k)).Some?
  {
    assert forall i: nat :: LateOracle(k).disclosure(j, i).Some?;
    NeverNone(ValueDraws(LateOracle(k), j), spawnTime, 0);
    NeverNone(DisclosureDraws(LateOracle(k), j), spawnTime, 0);
  }

  lemma {:induction false} NeverNone(draw: nat -> Option<int>, spawnTime: Option<int>, i: nat)
    requires forall j: nat :: draw(j).Some?
    ensures Resampled(draw, spawnTime, i).Some?
    decreases MAX_RESAMPLING_TRIES - i
  {
    if i + 1 < MAX_RESAMPLING_TRIES {
      NeverNone(draw, spawnTime, i + 1);
    }
  }

  lemma {:induction false} NeverFails(p: Provider, original: Option<Realisation>, spawnTime: Option<int>, k: nat, n: nat)
    requires p.Valid() && n <= |p.initializations| && (original.Some? ==> Complete(p, original.value))
    ensures Sampled(p, original, spawnTime, LateOracle(k), n).Ok?
  {
    hide Drawn, Recorded, Kept;
    if n > 0 {
      NeverFails(p, original, spawnTime, k, n - 1);
      AlwaysDrawn(p, k, n - 1, spawnTime);
    }
  }

  /** Unless row k is a row of the process, the instance is known at time zero. */
  lemma {:induction false} KnownFromStart(p: Provider, k: nat, i: nat, n: nat)
    requires p.Valid() && n <= |p.initializations| && k < |p.initializations| && i < |p.instances|
    requires p.initializations[k].instanceId == i && p.initializations[k].node != p.instances[i].process
    requires Sampled(p, None, None, LateOracle(k), n).Ok?
    ensures
      var r := Sampled(p, None, None, LateOracle(k), n).value;
      (i, p.instances[i].process) in r.disclosureTimes && KnownTime(p, r, i) == 0
  {
    hide Drawn;
    if n > 0 {
      SampledStep(p, None, None, LateOracle(k), n);
      KnownFromStart(p, k, i, n - 1);
      LateDisclosure(p, k, n - 1);
      assert p.instances[i] in p.instances;
    }
  }

  /** A timestamp given at a node within the process lets a run and a fork disagree on when the process is ready. */
  lemma TimestampElsewhereDisagrees(p: Provider, k: nat)
    requires p.Valid() && OneRowPerAttribute(p) && k < |p.initializations| && !AtProcess(p, k)
    ensures
      var run, fork := RealisationOf(p, Run(LateOracle(k))), RealisationOf(p, Fork(Run(LateOracle(k)), 0, LateOracle(k)));
      run.Ok? && fork.Ok? && !ReadyTimesAgree(p, run.value, fork.value, SpawnTime(0))
  {
    hide SampleOf, Drawn, Recorded, OneRowPerAttribute;
    var oracle, n, row := LateOracle(k), |p.initializations|, p.initializations[k];
    assert row in p.initializations;
    var i := row.instanceId;
    NeverFails(p, None, None, k, n);
    var r := RealisationOf(p, Run(oracle)).value;
    NeverFails(p, Some(r), Some(SCALE), k, n);
    var f := RealisationOf(p, Fork(Run(oracle), 0, oracle)).value;
    KnownFromStart(p, k, i, n);
    InstantiationFollows(p, None, None, oracle, i, n);
    InstantiationFollows(p, Some(r), Some(SCALE), oracle, i, n);
    assert GivesTimestampOf(p, k, i);
    SampleRemains(p, None, None, oracle, k, n);
    SampleRemains(p, Some(r), Some(SCALE), oracle, k, n);
    PrefixOfDisclosures(p, None, None, oracle, k, n);
    assert SampleOf(p, None, None, oracle, k) == Drawn(p, k, None, oracle) by { RunDraws(p, oracle, k); }
    LateDisclosure(p, k, k);
    ForkedSample(p, r, SCALE, oracle, k);
    assert !ReadyTimeAgreesAt(p, r, f, SCALE, i);
  }

  lemma RunDraws(p: Provider, oracle: Oracle, k: nat)
    requires p.Valid() && k < |p.initializations|
    ensures SampleOf(p, None, None, oracle, k) == Drawn(p, k, None, oracle)
  {
  }

  /** The ready times agree in every run and fork exactly if every timestamp is given at its process. */
  lemma ReadyTimesAgreeExactly(p: Provider)
    requires p.Valid() && OneRowPerAttribute(p)
    ensures TimestampsAtProcesses(p) <==>
      forall oracle: Oracle, time: int, other: Oracle |
        RealisationOf(p, Run(oracle)).Ok? && RealisationOf(p, Fork(Run(oracle), time, other)).Ok? ::
        ReadyTimesAgree(p, RealisationOf(p, Run(oracle)).value, RealisationOf(p, Fork(Run(oracle), time, other)).value,
                        SpawnTime(time))
  {
    hide RealisationOf, ReadyTimesAgree, AtProcess;
    if TimestampsAtProcesses(p) {
      forall oracle: Oracle, time: int, other: Oracle |
        RealisationOf(p, Run(oracle)).Ok? && RealisationOf(p, Fork(Run(oracle), time, other)).Ok?
        ensures ReadyTimesAgree(p, RealisationOf(p, Run(oracle)).value,
                                RealisationOf(p, Fork(Run(oracle), time, other)).value, SpawnTime(time))
      {
        ForkReadyTimesAgree(p, Run(oracle), time, other);
      }
    } else {
      var k :| 0 <= k < |p.initializations| && !AtProcess(p, k);
      TimestampElsewhereDisagrees(p, k);
    }
  }
}
