/** The schedule of the events a data provider will produce, released by clock ticks. */
module Scheduling {
  import opened Basics

  /** A scheduled event: the number of events scheduled before it, and the time it is due. */
  datatype Entry = Entry(number: nat, due: int)

  /** An entry released at an instant; its event is produced unless the token it is for no longer exists. */
  datatype Release = Release(entry: Entry, instant: nat, produced: bool)

  datatype Action = Terminate | AdvanceClock

  ghost predicate Increasing(s: seq<int>) {
    forall i, j | 0 <= i < j < |s| :: s[i] < s[j]
  }

  /** In the order of due times, and of scheduling where these are equal. */
  predicate Before(a: Entry, b: Entry) {
    a.due < b.due || (a.due == b.due && a.number < b.number)
  }

  ghost predicate Sorted(entries: seq<Entry>) {
    forall i, j | 0 <= i < j < |entries| :: Before(entries[i], entries[j])
  }

  /** What has happened: the instants so far, and when each event was scheduled. */
  datatype History = History(instants: seq<int>, scheduledAt: seq<nat>, dues: seq<int>) {
    ghost predicate Valid() {
      && instants != [] && Increasing(instants) && |scheduledAt| == |dues|
      && forall n | 0 <= n < |scheduledAt| :: scheduledAt[n] < |instants|
    }

    predicate Known(e: Entry)
      requires |scheduledAt| == |dues|
    {
      e.number < |dues| && dues[e.number] == e.due
    }

    /** The event had to wait for a clock tick. */
    predicate Deferred(r: Release)
      requires r.entry.number < |scheduledAt|
    {
      scheduledAt[r.entry.number] < r.instant
    }

    /** The entry was released at the first instant, from its scheduling on, not before its due time. */
    ghost predicate OnTime(r: Release)
      requires Valid()
    {
      && Known(r.entry) && scheduledAt[r.entry.number] <= r.instant < |instants|
      && instants[r.instant] >= r.entry.due
      && forall i | scheduledAt[r.entry.number] <= i < r.instant :: instants[i] < r.entry.due
    }

    /** Releases follow each other in time; at an instant, those deferred come first, in the order of due times. */
    ghost predicate InOrder(a: Release, b: Release)
      requires Valid() && Known(a.entry) && Known(b.entry)
    {
      || a.instant < b.instant
      || (a.instant == b.instant && Deferred(a) && (Deferred(b) ==> Before(a.entry, b.entry)))
      || (a.instant == b.instant && !Deferred(a) && !Deferred(b) && a.entry.number < b.entry.number)
    }
  }

  ghost predicate Ordered(h: History, releases: seq<Release>)
    requires h.Valid() && forall r <- releases :: h.Known(r.entry)
  {
    forall i, j | 0 <= i < j < |releases| ::
      assert releases[i] in releases && releases[j] in releases;
      h.InOrder(releases[i], releases[j])
  }

  /** The events produced, in the order of their release. */
  function Produced(releases: seq<Release>): seq<Entry> {
    if releases == [] then []
    else Produced(ButLast(releases)) + (if Last(releases).produced then [Last(releases).entry] else [])
  }

  ghost predicate Pending(entries: seq<Entry>, n: nat) {
    exists e <- entries :: e.number == n
  }

  ghost predicate Released(releases: seq<Release>, n: nat) {
    exists r <- releases :: r.entry.number == n
  }

  /** Every scheduled event is pending or has been released, on time and in order; pending ones are due after a time. */
  ghost predicate Exact(h: History, entries: seq<Entry>, releases: seq<Release>, passed: int) {
    && h.Valid() && Sorted(entries)
    && (forall e <- entries :: h.Known(e) && e.due > passed)
    && (forall r <- releases :: h.OnTime(r))
    && Ordered(h, releases)
    && (forall n: nat :: n < |h.dues| ==> (Pending(entries, n) <==> !Released(releases, n)))
  }

  /** No event is released twice, nor is it at two places of the schedule. */
  lemma ReleasedOnce(h: History, entries: seq<Entry>, releases: seq<Release>, passed: int)
    requires Exact(h, entries, releases, passed)
    ensures forall i, j | 0 <= i < j < |releases| :: releases[i].entry.number != releases[j].entry.number
    ensures forall i, j | 0 <= i < j < |entries| :: entries[i].number != entries[j].number
  {
    forall i, j | 0 <= i < j < |releases| ensures releases[i].entry.number != releases[j].entry.number {
      assert releases[i] in releases && releases[j] in releases;
      assert h.InOrder(releases[i], releases[j]) && h.OnTime(releases[i]) && h.OnTime(releases[j]);
    }
    forall i, j | 0 <= i < j < |entries| ensures entries[i].number != entries[j].number {
      assert entries[i] in entries && entries[j] in entries;
    }
  }

  // ---------- scheduling ----------

  function Known(h: History, due: int): History
    requires h.instants != []
  {
    History(h.instants, h.scheduledAt + [|h.instants| - 1], h.dues + [due])
  }

  lemma KnownKeeps(h: History, due: int)
    requires h.Valid()
    ensures Known(h, due).Valid() && Known(h, due).Known(Entry(|h.dues|, due))
    ensures forall e: Entry | h.Known(e) :: Known(h, due).Known(e)
    ensures forall r: Release | h.OnTime(r) :: Known(h, due).OnTime(r)
    ensures forall a: Release, b: Release | h.Known(a.entry) && h.Known(b.entry) ::
              Known(h, due).InOrder(a, b) <==> h.InOrder(a, b)
  {
  }

  lemma KnownIsValid(h: History, due: int)
    requires h.Valid()
    ensures Known(h, due).Valid() && Known(h, due).instants == h.instants && |Known(h, due).dues| == |h.dues| + 1
  {
    hide Increasing;
  }

  lemma ProducedNext(releases: seq<Release>, r: Release)
    ensures Produced(releases + [r]) == if r.produced then Produced(releases) + [r.entry] else Produced(releases)
  {
    assert ButLast(releases + [r]) == releases;
  }

  lemma OrderKept(h: History, releases: seq<Release>, due: int)
    requires h.Valid() && (forall r <- releases :: h.Known(r.entry)) && Ordered(h, releases)
    ensures Known(h, due).Valid() && (forall r <- releases :: Known(h, due).Known(r.entry)) && Ordered(Known(h, due), releases)
  {
    KnownKeeps(h, due);
    forall i, j | 0 <= i < j < |releases| ensures Known(h, due).InOrder(releases[i], releases[j]) {
      assert releases[i] in releases && releases[j] in releases;
      assert h.InOrder(releases[i], releases[j]);
    }
  }

  /** A due event is released at once. */
  lemma ReleasedAtOnce(h: History, entries: seq<Entry>, releases: seq<Release>, due: int, produced: bool)
    requires h.Valid() && Exact(h, entries, releases, Last(h.instants)) && due <= Last(h.instants)
    ensures Exact(Known(h, due), entries, releases + [Release(Entry(|h.dues|, due), |h.instants| - 1, produced)], Last(h.instants))
  {
    var after, r := Known(h, due), Release(Entry(|h.dues|, due), |h.instants| - 1, produced);
    KnownKeeps(h, due);
    OrderKept(h, releases, due);
    forall i | 0 <= i < |releases| ensures after.InOrder(releases[i], r) {
      assert releases[i] in releases && h.OnTime(releases[i]);
    }
    forall n: nat | n < |after.dues| ensures Pending(entries, n) <==> !Released(releases + [r], n) {
      assert n < |h.dues| ==> (Released(releases + [r], n) <==> Released(releases, n));
      assert n == |h.dues| ==> r in releases + [r];
    }
  }

  lemma InsertedSorted(entries: seq<Entry>, e: Entry, p: nat)
    requires Sorted(entries) && p <= |entries| && (forall x <- entries :: x.number < e.number)
    requires forall i | 0 <= i < p :: entries[i].due <= e.due
    requires p < |entries| ==> e.due < entries[p].due
    ensures Sorted(entries[..p] + [e] + entries[p..])
    ensures forall x :: x in entries[..p] + [e] + entries[p..] <==> x in entries || x == e
  {
    var r := entries[..p] + [e] + entries[p..];
    assert entries == entries[..p] + entries[p..];
    forall i | 0 <= i < |entries| ensures if i < p then Before(entries[i], e) else Before(e, entries[i]) {
      assert entries[i] in entries;
      assert i <= p || Before(entries[p], entries[i]);
    }
    forall i, j | 0 <= i < j < |r| ensures Before(r[i], r[j]) {
      var k, l := if i < p then i else i - 1, if j < p then j else j - 1;
      if i != p && j != p {
        assert Before(entries[k], entries[l]);
      }
    }
  }

  /** Any other event is inserted behind those due no later. */
  lemma Inserted(h: History, entries: seq<Entry>, releases: seq<Release>, due: int, inserted: seq<Entry>)
    requires h.Valid() && Exact(h, entries, releases, Last(h.instants)) && due > Last(h.instants)
    requires Sorted(inserted) && forall x :: x in inserted <==> x in entries || x == Entry(|h.dues|, due)
    ensures Exact(Known(h, due), inserted, releases, Last(h.instants))
  {
    var after, e := Known(h, due), Entry(|h.dues|, due);
    KnownKeeps(h, due);
    OrderKept(h, releases, due);
    forall n: nat | n < |after.dues| ensures Pending(inserted, n) <==> !Released(releases, n) {
      if n < |h.dues| {
        assert Pending(inserted, n) <==> Pending(entries, n);
      } else {
        assert e in inserted;
        assert forall r <- releases :: h.Known(r.entry);
      }
    }
  }

  // ---------- clock ticks ----------

  function Ticked(h: History, time: int): History {
    h.(instants := h.instants + [time])
  }

  /** What is released at the current instant was deferred and comes before what is still pending. */
  ghost predicate Draining(h: History, entries: seq<Entry>, releases: seq<Release>)
    requires h.Valid()
  {
    && (forall e <- entries :: h.Known(e) && h.scheduledAt[e.number] < |h.instants| - 1)
    && (forall r <- releases :: h.Known(r.entry) &&
          (r.instant == |h.instants| - 1 ==> h.Deferred(r) && forall e <- entries :: Before(r.entry, e)))
  }

  lemma TickStarts(h: History, entries: seq<Entry>, releases: seq<Release>, time: int)
    requires h.Valid() && Exact(h, entries, releases, Last(h.instants)) && time > Last(h.instants)
    ensures Ticked(h, time).Valid() && Exact(Ticked(h, time), entries, releases, Last(h.instants))
    ensures Draining(Ticked(h, time), entries, releases)
  {
    var after := Ticked(h, time);
    forall r <- releases ensures after.OnTime(r) {
      assert h.OnTime(r);
    }
    forall k | 0 <= k < |releases| ensures after.Known(releases[k].entry) {
      assert releases[k] in releases;
    }
    forall i, j | 0 <= i < j < |releases| ensures after.InOrder(releases[i], releases[j]) {
      assert h.InOrder(releases[i], releases[j]);
    }
  }

  /** The first entry is released if it is due. */
  lemma FirstReleased(h: History, entries: seq<Entry>, releases: seq<Release>, passed: int, produced: bool)
    requires h.Valid() && Exact(h, entries, releases, passed) && Draining(h, entries, releases)
    requires |h.instants| > 1 && passed == h.instants[|h.instants| - 2]
    requires entries != [] && entries[0].due <= Last(h.instants)
    ensures
      var after := releases + [Release(entries[0], |h.instants| - 1, produced)];
      Exact(h, entries[1..], after, passed) && Draining(h, entries[1..], after)
  {
    var e, rest, r := entries[0], entries[1..], Release(entries[0], |h.instants| - 1, produced);
    assert e in entries && forall x <- rest :: x in entries;
    assert h.OnTime(r);
    forall i | 0 <= i < |releases| ensures h.InOrder(releases[i], r) {
      assert releases[i] in releases && h.OnTime(releases[i]);
    }
    forall x <- rest ensures Before(e, x) {
      var k :| 0 <= k < |rest| && rest[k] == x;
      assert x == entries[k + 1];
    }
    forall n: nat | n < |h.dues| ensures Pending(rest, n) <==> !Released(releases + [r], n) {
      assert Pending(entries, n) <==> Pending(rest, n) || n == e.number by {
        assert entries == [e] + rest;
      }
      assert Released(releases + [r], n) <==> Released(releases, n) || n == e.number by {
        assert r in releases + [r];
      }
    }
  }

  /** Once the first entry is not due, no entry is. */
  lemma TickEnds(h: History, entries: seq<Entry>, releases: seq<Release>, passed: int)
    requires h.Valid() && Exact(h, entries, releases, passed) && (entries != [] ==> entries[0].due > Last(h.instants))
    ensures Exact(h, entries, releases, Last(h.instants)) && forall e <- entries :: e.due > Last(h.instants)
  {
    forall e <- entries ensures e.due > Last(h.instants) {
      var k :| 0 <= k < |entries| && entries[k] == e;
      assert k == 0 || Before(entries[0], entries[k]);
    }
  }

  lemma KnownBefore(h: History, entries: seq<Entry>, releases: seq<Release>, passed: int)
    requires Exact(h, entries, releases, passed)
    ensures Sorted(entries) && forall e <- entries :: e.number < |h.dues|
  {
  }

  /** The entries whose event is produced, in their order. */
  ghost function Existing(entries: seq<Entry>, exist: Entry -> bool): seq<Entry> {
    if entries == [] then []
    else Existing(ButLast(entries), exist) + (if exist(Last(entries)) then [Last(entries)] else [])
  }

  lemma OneMoreExisting(entries: seq<Entry>, n: nat, exist: Entry -> bool)
    requires n < |entries|
    ensures Existing(entries[..n + 1], exist) == Existing(entries[..n], exist) + (if exist(entries[n]) then [entries[n]] else [])
  {
    assert ButLast(entries[..n + 1]) == entries[..n];
  }

  /** The first n entries have been released at the instant, each with its event if that exists. */
  ghost predicate ReleasedFirst(entries: seq<Entry>, n: nat, instant: nat, exist: Entry -> bool,
                                before: seq<Release>, after: seq<Release>) {
    && n <= |entries| && |after| == |before| + n && before <= after
    && forall i | 0 <= i < n :: after[|before| + i] == Release(entries[i], instant, exist(entries[i]))
  }

  lemma NoneReleased(entries: seq<Entry>, instant: nat, exist: Entry -> bool, releases: seq<Release>)
    ensures ReleasedFirst(entries, 0, instant, exist, releases, releases) && Existing(entries[..0], exist) == []
  {
  }

  lemma OneMoreReleased(entries: seq<Entry>, n: nat, instant: nat, exist: Entry -> bool, before: seq<Release>, after: seq<Release>)
    requires n < |entries| && ReleasedFirst(entries, n, instant, exist, before, after)
    ensures ReleasedFirst(entries, n + 1, instant, exist, before, after + [Release(entries[n], instant, exist(entries[n]))])
  {
  }

  class Scenario {
    var time: int
    var scheduledEvents: seq<Entry>
    var queue: seq<Entry>
    var scheduled: nat

    ghost var history: History
    ghost var releases: seq<Release>

    /** Every event scheduled so far is released on time and in order, and none due by now is still pending. */
    ghost predicate Valid()
      reads this
    {
      && history.Valid() && Exact(history, scheduledEvents, releases, time)
      && time == Last(history.instants) && scheduled == |history.dues| && queue == Produced(releases)
    }

    constructor (time: int)
      ensures Valid() && this.time == time && scheduledEvents == [] && queue == []
      ensures history == History([time], [], []) && releases == []
    {
      this.time, scheduledEvents, queue, scheduled := time, [], [], 0;
      history, releases := History([time], [], []), [];
    }

    /** Schedules an event; if it is due already, it is produced at once unless the token it is for is gone. */
    method Schedule(due: int, exists_: bool)
      requires Valid()
      modifies this`scheduledEvents, this`queue, this`scheduled, this`history, this`releases
      ensures Valid() && history == Known(old(history), due) && old(releases) <= releases
      ensures due <= time ==>
                && scheduledEvents == old(scheduledEvents)
                && queue == old(queue) + (if exists_ then [Entry(old(scheduled), due)] else [])
      ensures due > time ==>
                && queue == old(queue) && releases == old(releases)
                && forall x :: x in scheduledEvents <==> x in old(scheduledEvents) || x == Entry(old(scheduled), due)
    {
      if due <= time {
        Produce(due, exists_);
      } else {
        Defer(due);
      }
    }

    method Produce(due: int, exists_: bool)
      requires Valid() && due <= time
      modifies this`queue, this`scheduled, this`history, this`releases
      ensures Valid() && history == Known(old(history), due)
      ensures releases == old(releases) + [Release(Entry(old(scheduled), due), |history.instants| - 1, exists_)]
      ensures queue == old(queue) + (if exists_ then [Entry(old(scheduled), due)] else [])
    {
      hide Exact, Produced, Increasing;
      ReleasedAtOnce(history, scheduledEvents, releases, due, exists_);
      KnownIsValid(history, due);
      var e := Entry(scheduled, due);
      ghost var r := Release(e, |history.instants| - 1, exists_);
      ProducedNext(releases, r);
      releases := releases + [r];
      if exists_ {
        queue := queue + [e];
      }
      history := Known(history, due);
      scheduled := scheduled + 1;
    }

    method Defer(due: int)
      requires Valid() && due > time
      modifies this`scheduledEvents, this`scheduled, this`history
      ensures Valid() && history == Known(old(history), due)
      ensures forall x :: x in scheduledEvents <==> x in old(scheduledEvents) || x == Entry(old(scheduled), due)
    {
      KnownBefore(history, scheduledEvents, releases, time);
      hide Exact, Increasing, Sorted;
      var inserted := Insert(Entry(scheduled, due));
      Inserted(history, scheduledEvents, releases, due, inserted);
      KnownIsValid(history, due);
      scheduledEvents := inserted;
      history := Known(history, due);
      scheduled := scheduled + 1;
    }

    /** Inserts an entry behind those due no later. */
    method Insert(e: Entry) returns (inserted: seq<Entry>)
      requires Sorted(scheduledEvents) && forall x <- scheduledEvents :: x.number < e.number
      ensures Sorted(inserted) && forall x :: x in inserted <==> x in scheduledEvents || x == e
    {
      var p: nat := 0;
      while p < |scheduledEvents| && scheduledEvents[p].due <= e.due
        invariant p <= |scheduledEvents| && forall i | 0 <= i < p :: scheduledEvents[i].due <= e.due
      {
        p := p + 1;
      }
      InsertedSorted(scheduledEvents, e, p);
      inserted := scheduledEvents[..p] + [e] + scheduledEvents[p..];
    }

    /** A clock tick: afterwards everything pending is due later. */
    method ClockTick(now: int, exist: Entry -> bool)
      requires Valid() && now > time
      modifies this`time, this`scheduledEvents, this`queue, this`history, this`releases
      ensures Valid() && time == now && history == Ticked(old(history), now) && old(releases) <= releases
      ensures forall e <- scheduledEvents :: e.due > now
      ensures
        var n := |old(scheduledEvents)| - |scheduledEvents|;
        && n >= 0 && scheduledEvents == old(scheduledEvents)[n..] && (forall e <- old(scheduledEvents)[..n] :: e.due <= now)
        && queue == old(queue) + Existing(old(scheduledEvents)[..n], exist)
        && ReleasedFirst(old(scheduledEvents), n, |history.instants| - 1, exist, old(releases), releases)
    {
      hide Exact, Draining, Existing, ReleasedFirst;
      TickStarts(history, scheduledEvents, releases, now);
      ghost var passed := time;
      time := now;
      history := Ticked(history, now);
      ReleaseDue(exist, passed);
      TickEnds(history, scheduledEvents, releases, passed);
    }

    /** Releases entries from the first one on while they are due. */
    method ReleaseDue(exist: Entry -> bool, ghost passed: int)
      requires history.Valid() && Exact(history, scheduledEvents, releases, passed) && Draining(history, scheduledEvents, releases)
      requires |history.instants| > 1 && passed == history.instants[|history.instants| - 2] && time == Last(history.instants)
      requires queue == Produced(releases)
      modifies this`scheduledEvents, this`queue, this`releases
      ensures Exact(history, scheduledEvents, releases, passed) && Draining(history, scheduledEvents, releases)
      ensures queue == Produced(releases) && old(releases) <= releases
      ensures scheduledEvents != [] ==> scheduledEvents[0].due > time
      ensures
        var n := |old(scheduledEvents)| - |scheduledEvents|;
        && n >= 0 && scheduledEvents == old(scheduledEvents)[n..] && (forall e <- old(scheduledEvents)[..n] :: e.due <= time)
        && queue == old(queue) + Existing(old(scheduledEvents)[..n], exist)
        && ReleasedFirst(old(scheduledEvents), n, |history.instants| - 1, exist, old(releases), releases)
    {
      hide Exact, Draining, Produced, Existing, ReleasedFirst;
      ghost var entries, n := scheduledEvents, 0;
      NoneReleased(entries, |history.instants| - 1, exist, releases);
      while scheduledEvents != [] && scheduledEvents[0].due <= time
        invariant Exact(history, scheduledEvents, releases, passed) && Draining(history, scheduledEvents, releases)
        invariant queue == Produced(releases) && old(releases) <= releases
        invariant n <= |entries| && scheduledEvents == entries[n..] && forall e <- entries[..n] :: e.due <= time
        invariant queue == old(queue) + Existing(entries[..n], exist)
        invariant ReleasedFirst(entries, n, |history.instants| - 1, exist, old(releases), releases)
        decreases |scheduledEvents|
      {
        assert scheduledEvents[0] == entries[n] && entries[..n + 1] == entries[..n] + [entries[n]];
        OneMoreExisting(entries, n, exist);
        OneMoreReleased(entries, n, |history.instants| - 1, exist, old(releases), releases);
        ReleaseFirst(exist(scheduledEvents[0]), passed);
        n := n + 1;
      }
    }

    /** Releases the first entry; its event is produced unless the token it is for is gone. */
    method ReleaseFirst(exists_: bool, ghost passed: int)
      requires history.Valid() && Exact(history, scheduledEvents, releases, passed) && Draining(history, scheduledEvents, releases)
      requires |history.instants| > 1 && passed == history.instants[|history.instants| - 2]
      requires scheduledEvents != [] && scheduledEvents[0].due <= Last(history.instants) && queue == Produced(releases)
      modifies this`scheduledEvents, this`queue, this`releases
      ensures Exact(history, scheduledEvents, releases, passed) && Draining(history, scheduledEvents, releases)
      ensures queue == Produced(releases) && scheduledEvents == old(scheduledEvents)[1..]
      ensures releases == old(releases) + [Release(old(scheduledEvents)[0], |history.instants| - 1, exists_)]
      ensures queue == old(queue) + (if exists_ then [old(scheduledEvents)[0]] else [])
    {
      hide Exact, Draining;
      FirstReleased(history, scheduledEvents, releases, passed, exists_);
      ghost var r := Release(scheduledEvents[0], |history.instants| - 1, exists_);
      assert ButLast(releases + [r]) == releases;
      releases := releases + [r];
      if exists_ {
        queue := queue + [scheduledEvents[0]];
      }
      scheduledEvents := scheduledEvents[1..];
    }

    /**
     With no event to process, the run is terminated at its end time or if nothing can happen any more; before the
     end time this means that there are no tokens and every scheduled event has been released.
     */
    method Advance(endTime: int, tokensEmpty: bool) returns (action: Action)
      requires Valid()
      ensures action == Terminate <==> time >= endTime || (tokensEmpty && scheduledEvents == [])
      ensures action == Terminate && time < endTime ==> tokensEmpty && forall n: nat | n < scheduled :: Released(releases, n)
    {
      if time >= endTime || (tokensEmpty && scheduledEvents == []) {
        assert scheduledEvents == [] ==> forall n: nat :: !Pending(scheduledEvents, n);
        return Terminate;
      }
      return AdvanceClock;
    }
  }
}
