/**
 The registration of constants by concurrent threads, and reading them without a lock, as interleaved steps. Each step
 is one access to shared memory; what a thread does while it holds the lock exclusively is taken apart as well.
 */
module Interning {
  import opened Basics

  type Thread = nat

  /** A constant; equality is equality of layouts and values. */
  type Constant = nat

  const BLOCK_SIZE := 4096
  const MAX_BLOCKS := 16384
  const CAPACITY := BLOCK_SIZE * MAX_BLOCKS

  type Block = seq<Option<Constant>>

  /** What a thread is about to do. */
  datatype Phase =
    | Idle
    // registering a constant
    | Arrived(c: Constant)                       // acquires the lock shared
    | Searching(c: Constant)                     // holds the lock shared
    | Missed(c: Constant)                        // has released it and acquires it exclusively
    | Rechecking(c: Constant)                    // holds the lock exclusively
    | Adding(c: Constant)
    | Placing(c: Constant, i: nat)               // has determined the index
    | Writing(c: Constant, i: nat)               // the block is there
    | Listing(c: Constant, i: nat)               // the entry is written
    | Publishing(c: Constant, i: nat)            // the index is extended
    | Leaving(c: Constant, i: nat)               // the counter is raised
    | Registered(c: Constant, i: nat)
    | Rejected(c: Constant)
    // reading an entry
    | Checking(i: nat)
    | Fetching(i: nat)                           // the index is below the counter
    | Fetched(i: nat, c: Constant)
    | OutOfRange(i: nat)

  datatype State = State(
      blocks: map<nat, Block>,
      index: seq<(nat, nat)>,           // the hash and the index of every registered constant
      published: nat,
      readers: set<Thread>,
      writer: Option<Thread>,
      phases: map<Thread, Phase>) {

    function PhaseOf(t: Thread): Phase {
      if t in phases then phases[t] else Idle
    }

    /** The entry with the index, if its block is there and it is written. */
    function EntryOf(i: nat): Option<Constant> {
      if i / BLOCK_SIZE in blocks && |blocks[i / BLOCK_SIZE]| == BLOCK_SIZE then blocks[i / BLOCK_SIZE][i % BLOCK_SIZE] else None
    }
  }

  /** The registered index of a constant among the listed ones of its hash, compared in full. */
  function Find(s: State, listed: seq<(nat, nat)>, hash: nat, c: Constant): Option<nat> {
    if listed == [] then None
    else if listed[0].0 == hash && s.EntryOf(listed[0].1) == Some(c) then Some(listed[0].1)
    else Find(s, listed[1..], hash, c)
  }

  function At(s: State, t: Thread, phase: Phase): State {
    s.(phases := s.phases[t := phase])
  }

  /** What thread t does next; a thread waiting for the lock does nothing until it gets it. */
  function Next(s: State, hash: Constant -> nat, t: Thread): State {
    match s.PhaseOf(t)
    case Arrived(c) => if s.writer.Some? then s else At(s.(readers := s.readers + {t}), t, Searching(c))
    case Searching(c) =>
      var released := s.(readers := s.readers - {t});
      (match Find(s, s.index, hash(c), c)
       case Some(i) => At(released, t, Registered(c, i))
       case None => At(released, t, Missed(c)))
    case Missed(c) => if s.writer.Some? || s.readers != {} then s else At(s.(writer := Some(t)), t, Rechecking(c))
    case Rechecking(c) =>
      (match Find(s, s.index, hash(c), c)
       case Some(i) => At(s.(writer := None), t, Registered(c, i))
       case None => At(s, t, Adding(c)))
    case Adding(c) =>
      if s.published / BLOCK_SIZE >= MAX_BLOCKS then At(s.(writer := None), t, Rejected(c))
      else At(s, t, Placing(c, s.published))
    case Placing(c, i) =>
      var blocks := if i / BLOCK_SIZE in s.blocks then s.blocks else s.blocks[i / BLOCK_SIZE := seq(BLOCK_SIZE, _ => None)];
      At(s.(blocks := blocks), t, Writing(c, i))
    case Writing(c, i) =>
      if i / BLOCK_SIZE in s.blocks && |s.blocks[i / BLOCK_SIZE]| == BLOCK_SIZE then
        var block := s.blocks[i / BLOCK_SIZE][i % BLOCK_SIZE := Some(c)];
        At(s.(blocks := s.blocks[i / BLOCK_SIZE := block]), t, Listing(c, i))
      else s
    case Listing(c, i) => At(s.(index := s.index + [(hash(c), i)]), t, Publishing(c, i))
    case Publishing(c, i) => At(s.(published := i + 1), t, Leaving(c, i))
    case Leaving(c, i) => At(s.(writer := None), t, Registered(c, i))
    case Checking(i) => At(s, t, if i < s.published then Fetching(i) else OutOfRange(i))
    case Fetching(i) =>
      (match s.EntryOf(i)
       case Some(c) => At(s, t, Fetched(i, c))
       case None => s)
    case _ => s
  }

  /** A thread that has nothing to do starts to register a constant or to read an entry. */
  datatype Event = Step(t: Thread) | Register(t: Thread, c: Constant) | Read(t: Thread, i: nat)

  predicate Resting(phase: Phase) {
    phase.Idle? || phase.Registered? || phase.Rejected? || phase.Fetched? || phase.OutOfRange?
  }

  function After(s: State, hash: Constant -> nat, e: Event): State {
    match e
    case Step(t) => Next(s, hash, t)
    case Register(t, c) => if Resting(s.PhaseOf(t)) then At(s, t, Arrived(c)) else s
    case Read(t, i) => if Resting(s.PhaseOf(t)) then At(s, t, Checking(i)) else s
  }

  const INITIAL := State(map[], [], 0, {}, None, map[])

  // ---------- the invariant ----------

  predicate HoldsLock(phase: Phase) {
    phase.Rechecking? || phase.Adding? || phase.Placing? || phase.Writing? || phase.Listing? || phase.Publishing? || phase.Leaving?
  }

  /** The lock is held shared by the threads searching, or exclusively by the one registering. */
  ghost predicate Locked(s: State) {
    && (forall t: nat :: t in s.readers <==> s.PhaseOf(t).Searching?)
    && (forall t: nat :: s.writer == Some(t) <==> HoldsLock(s.PhaseOf(t)))
    && (s.writer.Some? ==> s.readers == {})
  }

  /** Every index below the counter holds a constant, and no two the same one. */
  ghost predicate Entries(s: State) {
    && s.published <= CAPACITY
    && (forall i: nat | i < s.published :: s.EntryOf(i).Some?)
    && (forall i: nat, j: nat | i < j < s.published :: s.EntryOf(i) != s.EntryOf(j))
    && (forall b <- s.blocks :: |s.blocks[b]| == BLOCK_SIZE)
  }

  /** The index lists the first n constants under their hashes, and nothing else. */
  ghost predicate Lists(s: State, hash: Constant -> nat, n: nat) {
    && (forall k | 0 <= k < |s.index| :: s.index[k].1 < n)
    && (forall i: nat | i < n && s.EntryOf(i).Some? :: (hash(s.EntryOf(i).value), i) in s.index)
  }

  /** No entry below the counter holds the constant. */
  ghost predicate Unknown(s: State, c: Constant) {
    forall i: nat | i < s.published :: s.EntryOf(i) != Some(c)
  }

  /** What a registering or reading thread knows. */
  ghost predicate Knows(s: State, hash: Constant -> nat, phase: Phase) {
    match phase
    case Rechecking(_) => Lists(s, hash, s.published)
    case Adding(c) => Unknown(s, c) && Lists(s, hash, s.published)
    case Placing(c, i) => i == s.published < CAPACITY && Unknown(s, c) && Lists(s, hash, i)
    case Writing(c, i) => i == s.published < CAPACITY && Unknown(s, c) && Lists(s, hash, i) && i / BLOCK_SIZE in s.blocks
    case Listing(c, i) => i == s.published < CAPACITY && Unknown(s, c) && Lists(s, hash, i) && s.EntryOf(i) == Some(c)
    case Publishing(c, i) => i == s.published < CAPACITY && Unknown(s, c) && Lists(s, hash, i + 1) && s.EntryOf(i) == Some(c)
    case Leaving(c, i) => i + 1 == s.published && s.EntryOf(i) == Some(c) && Lists(s, hash, s.published)
    case Registered(c, i) => i < s.published && s.EntryOf(i) == Some(c)
    case Fetching(i) => i < s.published
    case Fetched(i, c) => i < s.published && s.EntryOf(i) == Some(c)
    case _ => true
  }

  ghost predicate Valid(s: State, hash: Constant -> nat) {
    && Locked(s) && Entries(s)
    && (s.writer.None? ==> Lists(s, hash, s.published))
    && forall t: nat :: Knows(s, hash, s.PhaseOf(t))
  }

  /** Nothing published changes, and nothing is withdrawn. */
  ghost predicate Extends(s: State, r: State) {
    && s.published <= r.published
    && forall i: nat | i < s.published :: s.EntryOf(i) == r.EntryOf(i)
  }

  lemma FindIsExact(s: State, listed: seq<(nat, nat)>, hash: nat, c: Constant)
    ensures var r := Find(s, listed, hash, c);
            && (r.Some? ==> (hash, r.value) in listed && s.EntryOf(r.value) == Some(c))
            && (r.None? ==> forall i: nat | (hash, i) in listed :: s.EntryOf(i) != Some(c))
  {
  }

  /** A search under the lock finds a constant exactly if it has been published. */
  lemma SearchIsExact(s: State, hash: Constant -> nat, c: Constant)
    requires Entries(s) && Lists(s, hash, s.published)
    ensures var r := Find(s, s.index, hash(c), c);
            && (r.Some? ==> r.value < s.published && s.EntryOf(r.value) == Some(c))
            && (r.None? ==> Unknown(s, c))
  {
    FindIsExact(s, s.index, hash(c), c);
  }

  /** The other threads keep what they know; only one holding the lock depends on more than published entries. */
  lemma KnowledgeOfOthers(s: State, r: State, hash: Constant -> nat, u: Thread)
    requires Knows(s, hash, s.PhaseOf(u)) && Extends(s, r) && r.PhaseOf(u) == s.PhaseOf(u)
    requires HoldsLock(s.PhaseOf(u)) ==> r.blocks == s.blocks && r.index == s.index && r.published == s.published
    ensures Knows(r, hash, r.PhaseOf(u))
  {
  }

  /** A thread moves on, taking or giving back the lock as its phases say. */
  ghost predicate MovesOn(s: State, r: State, t: Thread, phase: Phase) {
    && r.phases == s.phases[t := phase]
    && r.readers == (if phase.Searching? then s.readers + {t} else s.readers - {t})
    && r.writer == (if HoldsLock(phase) then Some(t) else if s.writer == Some(t) then None else s.writer)
    && (phase.Searching? ==> s.writer.None?)
    && (HoldsLock(phase) ==> s.writer == Some(t) || (s.writer.None? && s.readers == {}))
  }

  lemma LockIsKept(s: State, r: State, t: Thread, phase: Phase)
    requires Locked(s) && MovesOn(s, r, t, phase)
    ensures Locked(r)
  {
    forall u: nat ensures u in r.readers <==> r.PhaseOf(u).Searching? {
      assert u != t ==> r.PhaseOf(u) == s.PhaseOf(u);
    }
    forall u: nat ensures r.writer == Some(u) <==> HoldsLock(r.PhaseOf(u)) {
      assert u != t ==> r.PhaseOf(u) == s.PhaseOf(u);
      assert s.writer == Some(u) <==> HoldsLock(s.PhaseOf(u));
      assert s.writer == Some(t) <==> HoldsLock(s.PhaseOf(t));
    }
  }

  /** What remains to be shown of a step: what it adds is right, and what the thread knows afterwards. */
  lemma StepIsValid(s: State, r: State, hash: Constant -> nat, t: Thread, phase: Phase)
    requires Valid(s, hash) && MovesOn(s, r, t, phase) && Extends(s, r) && Entries(r)
    requires (r.blocks == s.blocks && r.index == s.index && r.published == s.published) || s.writer == Some(t)
    requires Knows(r, hash, phase) && (r.writer.None? ==> Lists(r, hash, r.published))
    ensures Valid(r, hash)
  {
    LockIsKept(s, r, t, phase);
    forall u: nat ensures Knows(r, hash, r.PhaseOf(u)) {
      if u != t {
        assert s.writer == Some(u) <==> HoldsLock(s.PhaseOf(u));
        KnowledgeOfOthers(s, r, hash, u);
      }
    }
  }

  lemma SameEntries(s: State, r: State)
    requires r.blocks == s.blocks
    ensures forall i: nat :: r.EntryOf(i) == s.EntryOf(i)
  {
  }

  lemma EntriesKept(s: State, r: State)
    requires Entries(s) && r.blocks == s.blocks && r.published == s.published
    ensures Entries(r) && Extends(s, r)
  {
    SameEntries(s, r);
  }

  // ---------- the steps ----------

  lemma LockingKeeps(s: State, hash: Constant -> nat, t: Thread)
    requires Valid(s, hash)
    requires var p := s.PhaseOf(t); p.Arrived? || p.Missed? || p.Adding? || p.Leaving? || p.Checking?
    ensures Valid(Next(s, hash, t), hash) && Extends(s, Next(s, hash, t))
  {
    var r := Next(s, hash, t);
    assert Knows(s, hash, s.PhaseOf(t));
    hide Entries, State.EntryOf, Locked;
    WriterHoldsLock(s, t);
    SameEntries(s, r);
    EntriesKept(s, r);
    if r != s {
      StepIsValid(s, r, hash, t, r.PhaseOf(t));
    }
  }

  lemma SearchingKeeps(s: State, hash: Constant -> nat, t: Thread)
    requires Valid(s, hash)
    requires var p := s.PhaseOf(t); p.Searching? || p.Rechecking? || p.Fetching?
    ensures Valid(Next(s, hash, t), hash) && Extends(s, Next(s, hash, t))
  {
    var r := Next(s, hash, t);
    assert Knows(s, hash, s.PhaseOf(t));
    hide Entries, State.EntryOf, Locked;
    WriterHoldsLock(s, t);
    SameEntries(s, r);
    EntriesKept(s, r);
    if s.PhaseOf(t).Searching? {
      SearchIsExact(s, hash, s.PhaseOf(t).c);
    } else if s.PhaseOf(t).Rechecking? {
      SearchIsExact(s, hash, s.PhaseOf(t).c);
    }
    if r != s {
      StepIsValid(s, r, hash, t, r.PhaseOf(t));
    }
  }

  lemma PlacingKeeps(s: State, hash: Constant -> nat, t: Thread)
    requires Valid(s, hash) && s.PhaseOf(t).Placing?
    ensures Valid(Next(s, hash, t), hash) && Extends(s, Next(s, hash, t))
  {
    var r := Next(s, hash, t);
    assert Knows(s, hash, s.PhaseOf(t));
    assert s.writer == Some(t) <==> HoldsLock(s.PhaseOf(t));
    forall i: nat ensures r.EntryOf(i) == s.EntryOf(i) {
    }
    StepIsValid(s, r, hash, t, r.PhaseOf(t));
  }

  lemma WritingKeeps(s: State, hash: Constant -> nat, t: Thread)
    requires Valid(s, hash) && s.PhaseOf(t).Writing?
    ensures Valid(Next(s, hash, t), hash) && Extends(s, Next(s, hash, t))
  {
    var r, p := Next(s, hash, t), s.PhaseOf(t);
    assert Knows(s, hash, p);
    assert s.writer == Some(t) <==> HoldsLock(p);
    forall i: nat ensures r.EntryOf(i) == if i == p.i then Some(p.c) else s.EntryOf(i) {
    }
    StepIsValid(s, r, hash, t, r.PhaseOf(t));
  }

  lemma ListingKeeps(s: State, hash: Constant -> nat, t: Thread)
    requires Valid(s, hash) && s.PhaseOf(t).Listing?
    ensures Valid(Next(s, hash, t), hash) && Extends(s, Next(s, hash, t))
  {
    var r, p := Next(s, hash, t), s.PhaseOf(t);
    assert Knows(s, hash, p);
    hide Entries, State.EntryOf, Locked;
    WriterHoldsLock(s, t);
    SameEntries(s, r);
    EntriesKept(s, r);
    forall i: nat | i < p.i + 1 && r.EntryOf(i).Some? ensures (hash(r.EntryOf(i).value), i) in r.index {
      assert i < p.i ==> (hash(s.EntryOf(i).value), i) in s.index;
    }
    StepIsValid(s, r, hash, t, r.PhaseOf(t));
  }

  lemma PublishedEntries(s: State, r: State, c: Constant)
    requires Entries(s) && r.blocks == s.blocks && r.published == s.published + 1 <= CAPACITY
    requires s.EntryOf(s.published) == Some(c) && Unknown(s, c)
    ensures Entries(r) && Extends(s, r)
  {
    SameEntries(s, r);
    forall i: nat, j: nat | i < j < r.published ensures r.EntryOf(i) != r.EntryOf(j) {
      assert i < s.published && s.EntryOf(i) != Some(c);
    }
  }

  lemma PublishingKeeps(s: State, hash: Constant -> nat, t: Thread)
    requires Valid(s, hash) && s.PhaseOf(t).Publishing?
    ensures Valid(Next(s, hash, t), hash) && Extends(s, Next(s, hash, t))
  {
    hide Entries, State.EntryOf, Unknown, Locked;
    var r, p := Next(s, hash, t), s.PhaseOf(t);
    assert Knows(s, hash, p);
    WriterHoldsLock(s, t);
    SameEntries(s, r);
    PublishedEntries(s, r, p.c);
    StepIsValid(s, r, hash, t, r.PhaseOf(t));
  }

  lemma WriterHoldsLock(s: State, t: Thread)
    requires Locked(s)
    ensures (s.writer == Some(t) <==> HoldsLock(s.PhaseOf(t))) && (t in s.readers <==> s.PhaseOf(t).Searching?)
    ensures s.writer.Some? ==> s.readers == {}
  {
  }

  lemma EventKeeps(s: State, hash: Constant -> nat, e: Event)
    requires Valid(s, hash)
    ensures Valid(After(s, hash, e), hash) && Extends(s, After(s, hash, e))
  {
    var r := After(s, hash, e);
    match e
    case Step(t) =>
      var p := s.PhaseOf(t);
      if p.Arrived? || p.Missed? || p.Adding? || p.Leaving? || p.Checking? {
        LockingKeeps(s, hash, t);
      } else if p.Searching? || p.Rechecking? || p.Fetching? {
        SearchingKeeps(s, hash, t);
      } else if p.Placing? {
        PlacingKeeps(s, hash, t);
      } else if p.Writing? {
        WritingKeeps(s, hash, t);
      } else if p.Listing? {
        ListingKeeps(s, hash, t);
      } else if p.Publishing? {
        PublishingKeeps(s, hash, t);
      }
    case _ =>
      if r != s {
        SameEntries(s, r);
        assert s.writer == Some(e.t) <==> HoldsLock(s.PhaseOf(e.t));
        assert e.t in s.readers <==> s.PhaseOf(e.t).Searching?;
        StepIsValid(s, r, hash, e.t, r.PhaseOf(e.t));
      }
  }

  // ---------- runs ----------

  function Run(s: State, hash: Constant -> nat, events: seq<Event>): State {
    if events == [] then s else After(Run(s, hash, ButLast(events)), hash, Last(events))
  }

  lemma {:induction false} RunIsValid(hash: Constant -> nat, events: seq<Event>)
    ensures Valid(Run(INITIAL, hash, events), hash)
  {
    if events != [] {
      RunIsValid(hash, ButLast(events));
      EventKeeps(Run(INITIAL, hash, ButLast(events)), hash, Last(events));
    }
  }

  lemma {:induction false} RunExtends(s: State, hash: Constant -> nat, events: seq<Event>)
    requires Valid(s, hash)
    ensures Valid(Run(s, hash, events), hash) && Extends(s, Run(s, hash, events))
  {
    if events != [] {
      RunExtends(s, hash, ButLast(events));
      EventKeeps(Run(s, hash, ButLast(events)), hash, Last(events));
    }
  }

  /**
   However the steps of threads are interleaved: what an index refers to once it has been published is the same at the
   end of every longer run, and two published indices refer to equal constants only if they are equal.
   */
  lemma InternedForGood(hash: Constant -> nat, events: seq<Event>, more: seq<Event>, i: nat, j: nat)
    ensures
      var s := Run(INITIAL, hash, events);
      var r := Run(s, hash, more);
      && (i < s.published ==> s.EntryOf(i).Some? && r.EntryOf(i) == s.EntryOf(i))
      && (i < s.published && j < r.published ==> (s.EntryOf(i) == r.EntryOf(j) <==> i == j))
  {
    RunIsValid(hash, events);
    RunExtends(Run(INITIAL, hash, events), hash, more);
  }

  /** Registrations, by whichever threads and whenever completed, agree exactly on equal constants. */
  lemma RegistrationsAgree(hash: Constant -> nat, events: seq<Event>, more: seq<Event>, t: Thread, u: Thread)
    ensures
      var s := Run(INITIAL, hash, events);
      var r := Run(s, hash, more);
      var p, q := s.PhaseOf(t), r.PhaseOf(u);
      p.Registered? && q.Registered? ==> (p.i == q.i <==> p.c == q.c)
  {
    var s := Run(INITIAL, hash, events);
    var r := Run(s, hash, more);
    RunIsValid(hash, events);
    RunExtends(s, hash, more);
    assert Knows(s, hash, s.PhaseOf(t)) && Knows(r, hash, r.PhaseOf(u));
  }

  /** A reader that has checked its index finds the entry there, written completely. */
  lemma ReaderFindsEntry(hash: Constant -> nat, events: seq<Event>, t: Thread)
    ensures
      var s := Run(INITIAL, hash, events);
      s.PhaseOf(t).Fetching? ==>
        var i := s.PhaseOf(t).i;
        s.EntryOf(i).Some? && Next(s, hash, t).PhaseOf(t) == Fetched(i, s.EntryOf(i).value)
  {
    RunIsValid(hash, events);
    var s := Run(INITIAL, hash, events);
    assert Knows(s, hash, s.PhaseOf(t));
  }

  // ---------- every registration comes to its end ----------

  /** The thread waits for the lock. */
  ghost predicate Waits(s: State, t: Thread) {
    var p := s.PhaseOf(t);
    (p.Arrived? && s.writer.Some?) || (p.Missed? && (s.writer.Some? || s.readers != {}))
  }

  /** A step of a thread leaves everything as it is exactly if the thread has nothing to do or waits for the lock. */
  lemma StandsStillExactly(s: State, hash: Constant -> nat, t: Thread)
    requires Valid(s, hash)
    ensures Next(s, hash, t) == s <==> Resting(s.PhaseOf(t)) || Waits(s, t)
  {
    assert Knows(s, hash, s.PhaseOf(t));
    hide Locked;
    assert Next(s, hash, t).PhaseOf(t) != s.PhaseOf(t) ==> Next(s, hash, t) != s;
  }

  /** While a thread has something to do, some thread goes on. */
  lemma SomeThreadGoesOn(s: State, hash: Constant -> nat, t: Thread) returns (u: Thread)
    requires Valid(s, hash) && !Resting(s.PhaseOf(t))
    ensures !Resting(s.PhaseOf(u)) && Next(s, hash, u) != s
  {
    u := t;
    if Waits(s, t) && s.writer.Some? {
      u := s.writer.value;
      assert HoldsLock(s.PhaseOf(u));
    } else if Waits(s, t) {
      u :| u in s.readers;
      assert s.PhaseOf(u).Searching?;
    }
    StandsStillExactly(s, hash, u);
  }

  /** A new constant is refused exactly if the registry is full, an index exactly if nothing is published with it. */
  lemma RefusedExactly(s: State, hash: Constant -> nat, t: Thread)
    requires Valid(s, hash)
    ensures
      var p, after := s.PhaseOf(t), Next(s, hash, t).PhaseOf(t);
      && (p.Adding? ==> after == if s.published == CAPACITY then Rejected(p.c) else Placing(p.c, s.published))
      && (p.Checking? ==> after == if p.i < s.published then Fetching(p.i) else OutOfRange(p.i))
      && (after.Rejected? ==> p.Rejected? || p.Adding?) && (after.OutOfRange? ==> p.OutOfRange? || p.Checking?)
  {
    assert Entries(s);
    hide Entries, Locked, State.EntryOf, Knows, Find;
  }

  /** The steps a thread has left at most until it gives back the lock it holds exclusively. */
  ghost function StepsLeft(phase: Phase): nat {
    match phase
    case Rechecking(_) => 7
    case Adding(_) => 6
    case Placing(_, _) => 5
    case Writing(_, _) => 4
    case Listing(_, _) => 3
    case Publishing(_, _) => 2
    case Leaving(_, _) => 1
    case _ => 0
  }

  /** The thread has registered the constant, or was refused because the registry is full. */
  ghost predicate Ended(s: State, t: Thread, c: Constant) {
    var p := s.PhaseOf(t);
    (p.Registered? && p.c == c) || (p == Rejected(c) && s.published == CAPACITY)
  }

  lemma HolderGoesOn(s: State, hash: Constant -> nat, t: Thread)
    requires Valid(s, hash) && HoldsLock(s.PhaseOf(t))
    ensures
      var r := Next(s, hash, t);
      || Ended(r, t, s.PhaseOf(t).c)
      || (HoldsLock(r.PhaseOf(t)) && r.PhaseOf(t).c == s.PhaseOf(t).c && StepsLeft(r.PhaseOf(t)) < StepsLeft(s.PhaseOf(t)))
  {
    assert Knows(s, hash, s.PhaseOf(t));
    RefusedExactly(s, hash, t);
    hide Locked;
  }

  /** The steps the thread itself takes among the events. */
  ghost function OwnSteps(events: seq<Event>, t: Thread): nat {
    if events == [] then 0 else OwnSteps(ButLast(events), t) + if Last(events) == Step(t) then 1 else 0
  }

  ghost predicate EndsWithin(s: State, hash: Constant -> nat, events: seq<Event>, t: Thread, c: Constant) {
    exists n: nat :: n <= |events| && Ended(Run(s, hash, events[..n]), t, c)
  }

  lemma EndsWithinMore(s: State, hash: Constant -> nat, events: seq<Event>, t: Thread, c: Constant)
    requires events != [] && EndsWithin(s, hash, ButLast(events), t, c)
    ensures EndsWithin(s, hash, events, t, c)
  {
    hide Ended, Run;
    var n: nat :| n <= |events| - 1 && Ended(Run(s, hash, ButLast(events)[..n]), t, c);
    assert ButLast(events)[..n] == events[..n];
  }

  lemma {:induction false} HolderGoesOnWithin(s: State, hash: Constant -> nat, events: seq<Event>, t: Thread)
    requires Valid(s, hash) && HoldsLock(s.PhaseOf(t))
    ensures
      var p, q := s.PhaseOf(t), Run(s, hash, events).PhaseOf(t);
      || EndsWithin(s, hash, events, t, p.c)
      || (HoldsLock(q) && q.c == p.c && StepsLeft(q) + OwnSteps(events, t) <= StepsLeft(p))
  {
    hide Ended, Valid, Next, EndsWithin;
    if events != [] {
      var before, r, c := Run(s, hash, ButLast(events)), Run(s, hash, events), s.PhaseOf(t).c;
      HolderGoesOnWithin(s, hash, ButLast(events), t);
      RunExtends(s, hash, ButLast(events));
      if EndsWithin(s, hash, ButLast(events), t, c) {
        EndsWithinMore(s, hash, events, t, c);
      } else if Last(events) == Step(t) {
        HolderGoesOn(before, hash, t);
        if Ended(r, t, c) {
          EndsAtLast(s, hash, events, t, c);
        }
      } else {
        OthersLeavePhase(before, hash, Last(events), t);
      }
    }
  }

  lemma EndsAtLast(s: State, hash: Constant -> nat, events: seq<Event>, t: Thread, c: Constant)
    requires Ended(Run(s, hash, events), t, c)
    ensures EndsWithin(s, hash, events, t, c)
  {
    hide Ended, Run;
    assert events[..|events|] == events;
  }

  lemma OthersLeavePhase(s: State, hash: Constant -> nat, e: Event, t: Thread)
    requires HoldsLock(s.PhaseOf(t)) && e != Step(t)
    ensures After(s, hash, e).PhaseOf(t) == s.PhaseOf(t)
  {
    hide Find, State.EntryOf;
  }

  /** Whatever the others do meanwhile, a thread holding the lock exclusively needs seven steps of its own at most. */
  lemma RegistrationEnds(s: State, hash: Constant -> nat, events: seq<Event>, t: Thread)
    requires Valid(s, hash) && HoldsLock(s.PhaseOf(t)) && OwnSteps(events, t) >= 7
    ensures EndsWithin(s, hash, events, t, s.PhaseOf(t).c)
  {
    hide Valid, EndsWithin, Run, OwnSteps;
    HolderGoesOnWithin(s, hash, events, t);
  }

  lemma {:induction false} RunTogether(s: State, hash: Constant -> nat, a: seq<Event>, b: seq<Event>)
    ensures Run(s, hash, a + b) == Run(Run(s, hash, a), hash, b)
    decreases |b|
  {
    hide After;
    if b == [] {
      assert a + b == a;
    } else {
      assert ButLast(a + b) == a + ButLast(b) && Last(a + b) == Last(b);
      RunTogether(s, hash, a, ButLast(b));
    }
  }

  ghost function Alone(t: Thread, n: nat): seq<Event> {
    seq(n, _ => Step(t))
  }

  lemma {:induction false} AloneSteps(t: Thread, n: nat)
    ensures OwnSteps(Alone(t, n), t) == n
  {
    if n > 0 {
      assert ButLast(Alone(t, n)) == Alone(t, n - 1);
      AloneSteps(t, n - 1);
    }
  }

  /** What has ended after some events has ended within more. */
  lemma EndsLater(s: State, hash: Constant -> nat, a: seq<Event>, b: seq<Event>, t: Thread, c: Constant)
    requires EndsWithin(Run(s, hash, a), hash, b, t, c)
    ensures EndsWithin(s, hash, a + b, t, c)
  {
    hide Ended, Run;
    var n: nat :| n <= |b| && Ended(Run(Run(s, hash, a), hash, b[..n]), t, c);
    RunTogether(s, hash, a, b[..n]);
    assert (a + b)[..|a| + n] == a + b[..n];
  }

  /** If nobody holds the lock, a thread with nothing to do that runs alone has registered its constant after ten steps. */
  lemma AloneRegisters(s: State, hash: Constant -> nat, t: Thread, c: Constant)
    requires Valid(s, hash) && Resting(s.PhaseOf(t)) && s.writer.None? && s.readers == {}
    ensures EndsWithin(s, hash, [Register(t, c)] + Alone(t, 10), t, c)
  {
    hide Valid, EndsWithin, Find, OwnSteps, Alone;
    var first := [Register(t, c), Step(t), Step(t)];
    var r := Run(s, hash, first);
    SearchesFirst(s, hash, t, c);
    if r.PhaseOf(t) == Missed(c) {
      var taken := first + [Step(t)];
      RunTogether(s, hash, first, [Step(t)]);
      RunExtends(s, hash, taken);
      AloneSteps(t, 7);
      RegistrationEnds(Run(s, hash, taken), hash, Alone(t, 7), t);
      EndsLater(s, hash, taken, Alone(t, 7), t, c);
      assert taken + Alone(t, 7) == [Register(t, c)] + Alone(t, 10) by { AloneIs(t); }
    } else {
      EndsAtFirst(s, hash, first, Alone(t, 8), t, c);
      assert first + Alone(t, 8) == [Register(t, c)] + Alone(t, 10) by { AloneIs(t); }
    }
  }

  lemma AloneIs(t: Thread)
    ensures forall c :: [Register(t, c), Step(t), Step(t)] + [Step(t)] + Alone(t, 7) == [Register(t, c)] + Alone(t, 10)
    ensures forall c :: [Register(t, c), Step(t), Step(t)] + Alone(t, 8) == [Register(t, c)] + Alone(t, 10)
  {
  }

  lemma EndsAtFirst(s: State, hash: Constant -> nat, a: seq<Event>, b: seq<Event>, t: Thread, c: Constant)
    requires Ended(Run(s, hash, a), t, c)
    ensures EndsWithin(s, hash, a + b, t, c)
  {
    hide Ended, Run;
    assert (a + b)[..|a|] == a;
  }

  lemma SearchesFirst(s: State, hash: Constant -> nat, t: Thread, c: Constant)
    requires Resting(s.PhaseOf(t)) && s.writer.None? && s.readers == {}
    ensures
      var r := Run(s, hash, [Register(t, c), Step(t), Step(t)]);
      r.writer.None? && r.readers == {} && (Ended(r, t, c) || r.PhaseOf(t) == Missed(c))
  {
    hide Find;
    RunOfThree(s, hash, Register(t, c), Step(t), Step(t));
  }

  lemma RunOfThree(s: State, hash: Constant -> nat, e: Event, f: Event, g: Event)
    ensures Run(s, hash, [e, f, g]) == After(After(After(s, hash, e), hash, f), hash, g)
  {
    hide After;
    assert ButLast([e, f, g]) == [e, f] && ButLast([e, f]) == [e] && ButLast([e]) == [];
    assert Run(s, hash, [e]) == After(s, hash, e);
    assert Run(s, hash, [e, f]) == After(Run(s, hash, [e]), hash, f);
  }

  lemma PublishedIsThere(s: State, hash: Constant -> nat, i: nat)
    requires Valid(s, hash)
    ensures i < s.published ==> s.EntryOf(i).Some?
  {
  }

  /** A thread with nothing to do reads the entry with the index in two steps, or finds that there is none. */
  lemma AloneReads(s: State, hash: Constant -> nat, t: Thread, i: nat)
    requires Valid(s, hash) && Resting(s.PhaseOf(t))
    ensures
      Run(s, hash, [Read(t, i), Step(t), Step(t)]).PhaseOf(t)
      == if i < s.published then Fetched(i, s.EntryOf(i).value) else OutOfRange(i)
  {
    hide Find, Valid, Run, State.EntryOf;
    RunOfThree(s, hash, Read(t, i), Step(t), Step(t));
    PublishedIsThere(s, hash, i);
    SameEntries(s, Next(At(s, t, Checking(i)), hash, t));
  }
}
