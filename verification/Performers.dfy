/** The lock by which a sequential performer performs one child activity at a time. */
module Performers {
  import opened Basics
  import opened Sequences

  type Token = nat

  /** A token at a child activity awaits entry, is performed, or has failed or been withdrawn and is about to be removed. */
  datatype State = Ready | Performed | Withdrawn

  /** The situation of all performers and the tokens at their child activities. */
  datatype Situation = Situation(
      performing: map<Token, Token>,       // the token each busy performer performs
      pending: map<Token, seq<Token>>,     // the tokens awaiting entry at each performer, some possibly removed
      state: map<Token, State>,            // the tokens between becoming ready and leaving their activity
      requests: set<Token>,                // the tokens whose entry may be decided
      removed: set<Token>) {

    function Pending(p: Token): seq<Token> {
      if p in pending then pending[p] else []
    }

    /** The tokens performed are those the performers hold. */
    ghost predicate Performs(performer: Token -> Token) {
      && (forall p <- performing :: performing[p] in state && state[performing[p]] == Performed && performer(performing[p]) == p)
      && (forall t <- state | state[t] == Performed :: performer(t) in performing && performing[performer(t)] == t)
    }

    /** The lists of the performers hold every token awaiting entry once, and else only tokens withdrawn or removed. */
    ghost predicate Lists(performer: Token -> Token) {
      && (forall t <- state | state[t] == Ready :: t in Pending(performer(t)))
      && (forall p <- pending :: Distinct(pending[p]))
      && (forall p <- pending, t <- pending[p] :: performer(t) == p && if t in state then state[t] != Performed else t in removed)
      && (forall t <- removed :: t !in state)
    }

    /** A token awaiting entry has a decision request exactly if its performer is idle. */
    ghost predicate Offered(performer: Token -> Token, t: Token) {
      t in state && state[t] == Ready ==> (t in requests <==> performer(t) !in performing)
    }

    ghost predicate Valid(performer: Token -> Token) {
      && Performs(performer) && Lists(performer)
      && (forall t <- requests :: t in state && state[t] != Performed)
      && forall t :: Offered(performer, t)
    }

    /** No token has failed or been withdrawn without having been removed. */
    predicate Settled() {
      forall t <- state :: state[t] != Withdrawn
    }
  }

  /** A performer performs at most one of its child activities. */
  lemma MutualExclusion(s: Situation, performer: Token -> Token, t: Token, u: Token)
    requires s.Valid(performer) && t in s.state && u in s.state && performer(t) == performer(u)
    requires s.state[t] == Performed && s.state[u] == Performed
    ensures t == u
  {
  }

  /** A token awaiting entry is not offered exactly while another child activity is performed. */
  lemma DeferredWhileBusy(s: Situation, performer: Token -> Token, t: Token)
    requires s.Valid(performer) && t in s.state && s.state[t] == Ready
    ensures t !in s.requests <==> exists u <- s.state :: s.state[u] == Performed && performer(u) == performer(t)
  {
    assert s.Offered(performer, t);
    if t !in s.requests {
      var u := s.performing[performer(t)];
      assert u in s.state && s.state[u] == Performed && performer(u) == performer(t);
    }
  }

  /** The tokens of a list that await entry. */
  function AwaitingEntry(entries: seq<Token>, state: map<Token, State>): set<Token> {
    set u <- entries | u in state && state[u] == Ready
  }

  // ---------- what each change leads to ----------

  function Awaiting(s: Situation, performer: Token -> Token, t: Token): Situation {
    s.(state := s.state[t := Ready], pending := s.pending[performer(t) := s.Pending(performer(t)) + [t]],
       requests := if performer(t) in s.performing then s.requests else s.requests + {t})
  }

  function Occupied(s: Situation, performer: Token -> Token, t: Token): Situation {
    s.(state := s.state[t := Performed], performing := s.performing[performer(t) := t],
       pending := s.pending[performer(t) := Without(s.Pending(performer(t)), t)],
       requests := s.requests - set u <- s.Pending(performer(t)))
  }

  function Released(s: Situation, performer: Token -> Token, t: Token): Situation {
    s.(state := s.state - {t}, performing := s.performing - {performer(t)},
       requests := s.requests + AwaitingEntry(s.Pending(performer(t)), s.state - {t}))
  }

  function Marked(s: Situation, t: Token): Situation {
    s.(state := s.state[t := Withdrawn])
  }

  function Removed(s: Situation, t: Token): Situation {
    s.(state := s.state - {t}, requests := s.requests - {t}, removed := s.removed + {t})
  }

  lemma AwaitingKeeps(s: Situation, performer: Token -> Token, t: Token)
    requires s.Valid(performer) && t !in s.state && t !in s.removed
    ensures Awaiting(s, performer, t).Valid(performer)
  {
    hide Situation.Lists, Situation.Offered;
    var r := Awaiting(s, performer, t);
    AwaitingLists(s, performer, t);
    forall u ensures r.Offered(performer, u) {
      AwaitingOffers(s, performer, t, u);
    }
  }

  lemma AwaitingLists(s: Situation, performer: Token -> Token, t: Token)
    requires s.Lists(performer) && t !in s.state && t !in s.removed
    ensures Awaiting(s, performer, t).Lists(performer)
  {
    var r, p := Awaiting(s, performer, t), performer(t);
    assert t !in s.Pending(p);
    DistinctConcatenation(s.Pending(p), [t]);
    hide Distinct;
    assert forall q <- r.pending, u <- r.pending[q] :: (u in s.Pending(q) && q in s.pending) || (u == t && q == p);
  }

  lemma AwaitingOffers(s: Situation, performer: Token -> Token, t: Token, u: Token)
    requires s.Offered(performer, u) && t !in s.state && t !in s.requests
    ensures Awaiting(s, performer, t).Offered(performer, u)
  {
  }

  lemma OccupiedLists(s: Situation, performer: Token -> Token, t: Token)
    requires s.Lists(performer) && t in s.state && s.state[t] == Ready
    ensures Occupied(s, performer, t).Lists(performer)
  {
    hide Without, Distinct;
    var r, p := Occupied(s, performer, t), performer(t);
    assert t in s.Pending(p);
    WithoutDistinct(s.Pending(p), t);
    assert forall u <- r.state | r.state[u] == Ready :: u in s.Pending(performer(u)) && u != t;
    forall q <- r.pending, u <- r.pending[q]
      ensures performer(u) == q && if u in r.state then r.state[u] != Performed else u in r.removed
    {
      assert u in s.Pending(q) && q in s.pending;
    }
  }

  lemma OccupiedOffers(s: Situation, performer: Token -> Token, t: Token, u: Token)
    requires s.Valid(performer) && t in s.state && s.state[t] == Ready && performer(t) !in s.performing
    ensures Occupied(s, performer, t).Offered(performer, u)
  {
    assert s.Offered(performer, u);
    if u in s.state && s.state[u] == Ready && u != t {
      assert u in s.Pending(performer(u));
      if u in s.Pending(performer(t)) {
        assert performer(t) in s.pending && u in s.pending[performer(t)];
      }
    }
  }

  lemma OccupiedKeeps(s: Situation, performer: Token -> Token, t: Token)
    requires s.Valid(performer) && t in s.state && s.state[t] == Ready && performer(t) !in s.performing
    ensures Occupied(s, performer, t).Valid(performer)
  {
    var r := Occupied(s, performer, t);
    OccupiedLists(s, performer, t);
    assert r.Performs(performer);
    forall u <- r.requests ensures u in r.state && r.state[u] != Performed {
      assert t in s.Pending(performer(t));
    }
    hide Situation.Lists, Situation.Performs, Situation.Offered;
    forall u ensures r.Offered(performer, u) {
      OccupiedOffers(s, performer, t, u);
    }
  }

  lemma WithoutRequests(requests: set<Token>, entries: seq<Token>, t: Token)
    requires t in entries
    ensures (requests - {t}) - (set u <- Without(entries, t)) == requests - set u <- entries
  {
  }

  /** While the performer is idle, every live token in its list awaits entry and has a decision request. */
  lemma PendingAreOffered(s: Situation, performer: Token -> Token, t: Token)
    requires s.Valid(performer) && s.Settled() && t in s.state && s.state[t] == Ready && performer(t) !in s.performing
    ensures performer(t) in s.pending && Distinct(s.pending[performer(t)]) && t in s.pending[performer(t)]
    ensures forall u <- s.pending[performer(t)] | u in s.state :: s.state[u] == Ready && u in s.requests
    ensures s.requests <= s.state.Keys
  {
    forall u <- s.pending[performer(t)] | u in s.state ensures s.state[u] == Ready && u in s.requests {
      assert s.Offered(performer, u);
    }
  }

  lemma ReleasedLists(s: Situation, performer: Token -> Token, t: Token)
    requires s.Valid(performer) && performer(t) in s.performing && s.performing[performer(t)] == t
    ensures Released(s, performer, t).Performs(performer) && Released(s, performer, t).Lists(performer)
  {
    hide AwaitingEntry, Distinct, Situation.Offered;
    var r := Released(s, performer, t);
    forall q <- r.pending, u <- r.pending[q]
      ensures performer(u) == q && if u in r.state then r.state[u] != Performed else u in r.removed
    {
      assert q in s.pending && u in s.pending[q];
      assert u != t;
    }
  }

  lemma ReleasedKeeps(s: Situation, performer: Token -> Token, t: Token)
    requires s.Valid(performer) && performer(t) in s.performing && s.performing[performer(t)] == t
    ensures Released(s, performer, t).Valid(performer)
  {
    var r := Released(s, performer, t);
    ReleasedLists(s, performer, t);
    forall u ensures r.Offered(performer, u) {
      assert s.Offered(performer, u);
    }
  }

  lemma MarkedKeeps(s: Situation, performer: Token -> Token, t: Token)
    requires s.Valid(performer) && t in s.state && s.state[t] != Performed
    ensures Marked(s, t).Valid(performer)
  {
    var r := Marked(s, t);
    forall u ensures r.Offered(performer, u) {
      assert s.Offered(performer, u);
    }
  }

  lemma RemovedKeeps(s: Situation, performer: Token -> Token, t: Token)
    requires s.Valid(performer) && (t in s.state ==> s.state[t] != Performed)
    ensures Removed(s, t).Valid(performer)
  {
    var r := Removed(s, t);
    forall u ensures r.Offered(performer, u) {
      assert s.Offered(performer, u);
    }
  }

  class Engine {
    const performer: Token -> Token

    var performing: map<Token, Token>
    var pendingSequentialEntries: map<Token, seq<Token>>
    var state: map<Token, State>
    var requests: set<Token>
    ghost var removed: set<Token>

    ghost function Now(): Situation
      reads this
    {
      Situation(performing, pendingSequentialEntries, state, requests, removed)
    }

    constructor (performer: Token -> Token)
      ensures Now() == Situation(map[], map[], map[], {}, {}) && this.performer == performer && Now().Valid(performer)
    {
      this.performer := performer;
      performing, pendingSequentialEntries, state, requests, removed := map[], map[], map[], {}, {};
    }

    /** A token at a child activity has become ready; its entry is offered unless its performer is busy. */
    method AwaitEntryEvent(t: Token)
      requires Now().Valid(performer) && t !in state && t !in removed
      modifies this`pendingSequentialEntries, this`state, this`requests
      ensures Now().Valid(performer) && Now() == Awaiting(old(Now()), performer, t)
    {
      AwaitingKeeps(Now(), performer, t);
      var p := performer(t);
      state := state[t := Ready];
      var entries := if p in pendingSequentialEntries then pendingSequentialEntries[p] else [];
      pendingSequentialEntries := pendingSequentialEntries[p := entries + [t]];
      if p in performing {
        // the request is made by RenewRequests
        return;
      }
      requests := requests + {t};
    }

    /** The entry of a token is decided; its performer, if idle, becomes busy. */
    method ProcessEntry(t: Token)
      requires Now().Valid(performer) && Now().Settled() && t in requests
      modifies this`performing, this`pendingSequentialEntries, this`state, this`requests
      ensures Now().Valid(performer) && Now().Settled() && Now() == Occupied(old(Now()), performer, t)
    {
      assert Now().Offered(performer, t);
      assert t in Now().Pending(performer(t));
      OccupiedKeeps(Now(), performer, t);
      ghost var before := Now();
      requests := requests - {t};
      OccupySequentialPerformer(t, before);
    }

    /** The requests of all others awaiting entry at the performer are withdrawn. */
    method OccupySequentialPerformer(t: Token, ghost before: Situation)
      requires before.Valid(performer) && before.Settled() && t in before.state && before.state[t] == Ready
      requires performer(t) !in before.performing && Now() == before.(requests := before.requests - {t})
      modifies this`performing, this`pendingSequentialEntries, this`state, this`requests
      ensures Now() == Occupied(before, performer, t)
    {
      PendingAreOffered(before, performer, t);
      hide Situation.Valid, Situation.Settled, Without, Distinct;
      var p := performer(t);
      assert p !in performing;
      var entries := Without(pendingSequentialEntries[p], t);
      WithoutDistinct(pendingSequentialEntries[p], t);
      pendingSequentialEntries := pendingSequentialEntries[p := entries];
      performing := performing[p := t];
      state := state[t := Performed];
      WithdrawRequests(entries);
      WithoutRequests(before.requests, before.Pending(p), t);
    }

    method WithdrawRequests(entries: seq<Token>)
      requires requests <= state.Keys && forall u <- entries :: u in state ==> state[u] == Ready && u in requests
      requires Distinct(entries)
      modifies this`requests
      ensures requests == old(requests) - set u <- entries
    {
      for k := 0 to |entries|
        invariant requests == old(requests) - set u <- entries[..k]
      {
        var u := entries[k];
        assert u in entries && u !in entries[..k];
        assert entries[..k + 1] == entries[..k] + [u];
        if u in state {
          // the assertions of the source, by PendingAreOffered
          assert state[u] == Ready;
          assert u in requests;
          requests := requests - {u};
        }
      }
      assert entries[..|entries|] == entries;
    }

    /** The performer becomes idle: every token still awaiting entry at it is offered. */
    method ReleaseSequentialPerformer(t: Token)
      requires Now().Valid(performer) && performer(t) in performing && performing[performer(t)] == t
      modifies this`performing, this`state, this`requests
      ensures Now().Valid(performer) && Now() == Released(old(Now()), performer, t)
    {
      ReleasedKeeps(Now(), performer, t);
      var p := performer(t);
      assert p in performing;
      forall u <- Now().Pending(p) | u in state && state[u] == Ready ensures u !in requests {
        assert Now().Offered(performer, u);
      }
      performing := performing - {p};
      state := state - {t};
      RenewRequests(if p in pendingSequentialEntries then pendingSequentialEntries[p] else []);
    }

    method RenewRequests(entries: seq<Token>)
      requires Distinct(entries) && forall u <- entries | u in state && state[u] == Ready :: u !in requests
      modifies this`requests
      ensures requests == old(requests) + AwaitingEntry(entries, state)
    {
      for k := 0 to |entries|
        invariant requests == old(requests) + AwaitingEntry(entries[..k], state)
      {
        var u := entries[k];
        assert u in entries && u !in entries[..k];
        assert entries[..k + 1] == entries[..k] + [u];
        // the list may hold tokens that have been withdrawn or removed
        if u in state && state[u] == Ready {
          assert u !in requests;
          requests := requests + {u};
        }
      }
      assert entries[..|entries|] == entries;
    }

    /** A child activity has completed: its performer is released, and a looping activity awaits entry again. */
    method AdvanceFromCompleted(t: Token, loops: bool)
      requires Now().Valid(performer) && t in state && state[t] == Performed
      modifies this`performing, this`pendingSequentialEntries, this`state, this`requests
      ensures Now().Valid(performer)
      ensures Now() == var released := Released(old(Now()), performer, t);
                       if loops then Awaiting(released, performer, t) else released
    {
      ReleaseSequentialPerformer(t);
      if loops {
        AwaitEntryEvent(t);
      }
    }

    /** A child activity fails; if it was performed, its performer is released, and otherwise it awaits entry no longer. */
    method AdvanceToFailed(t: Token)
      requires Now().Valid(performer)
      modifies this`performing, this`state, this`requests
      ensures Now().Valid(performer) && (t in state ==> state[t] == Withdrawn)
      ensures Now() == (if t !in old(state) then old(Now())
                        else if old(state)[t] == Performed then Released(old(Now()), performer, t)
                        else Marked(old(Now()), t))
    {
      if performer(t) in performing && performing[performer(t)] == t {
        ReleaseSequentialPerformer(t);
      }
      if t in state {
        MarkedKeeps(Now(), performer, t);
        state := state[t := Withdrawn];
      }
    }

    /** A child activity is withdrawn; if it was performed, its performer is released. */
    method Withdraw(t: Token)
      requires Now().Valid(performer)
      modifies this`performing, this`state, this`requests
      ensures Now().Valid(performer) && (t in state ==> state[t] == Withdrawn)
      ensures Now() == (if t !in old(state) then old(Now())
                        else if old(state)[t] == Performed then Released(old(Now()), performer, t)
                        else Marked(old(Now()), t))
    {
      if performer(t) in performing && performing[performer(t)] == t {
        ReleaseSequentialPerformer(t);
      } else if t in state {
        MarkedKeeps(Now(), performer, t);
        state := state[t := Withdrawn];
      }
    }

    /** A token that has failed or been withdrawn is removed, so that it is not in the way of other entries. */
    method Remove(t: Token)
      requires Now().Valid(performer) && (t in state ==> state[t] != Performed)
      modifies this`state, this`requests, this`removed
      ensures Now().Valid(performer) && Now() == Removed(old(Now()), t)
      ensures Now().Settled() <==> forall u <- old(state) | old(state)[u] == Withdrawn :: u == t
    {
      RemovedKeeps(Now(), performer, t);
      hide Situation.Valid;
      ghost var before := state;
      state, requests, removed := state - {t}, requests - {t}, removed + {t};
      forall u <- before | u != t ensures u in state && state[u] == before[u] {
      }
    }

    /** The tokens of a scope are withdrawn one after the other and then removed together. */
    method ClearObsoleteTokens(tokens: seq<Token>)
      requires Now().Valid(performer)
      modifies this`performing, this`state, this`requests, this`removed
      ensures Now().Valid(performer)
      ensures Now().Settled() <==> forall t <- old(state) | old(state)[t] == Withdrawn :: t in tokens
      ensures forall t <- tokens :: t !in state && t in removed
      ensures forall t <- state :: t in old(state) && state[t] == old(state)[t] && t !in tokens
      ensures forall t <- old(state) | t !in tokens :: t in state
    {
      hide Situation.Performs, Situation.Lists, Situation.Offered;
      WithdrawAll(tokens);
      for k := 0 to |tokens|
        invariant Now().Valid(performer)
        invariant forall t <- tokens :: t in state ==> state[t] == Withdrawn
        invariant forall t <- tokens[..k] :: t !in state && t in removed
        invariant forall t <- state :: t in old(state) && (t !in tokens ==> state[t] == old(state)[t])
        invariant forall t <- old(state) | t !in tokens :: t in state
      {
        assert tokens[k] in tokens && tokens[..k + 1] == tokens[..k] + [tokens[k]];
        Remove(tokens[k]);
      }
      assert tokens[..|tokens|] == tokens;
    }

    method WithdrawAll(tokens: seq<Token>)
      requires Now().Valid(performer)
      modifies this`performing, this`state, this`requests
      ensures Now().Valid(performer)
      ensures forall t <- tokens :: t in state ==> state[t] == Withdrawn
      ensures forall t <- state :: t in old(state) && (t !in tokens ==> state[t] == old(state)[t])
      ensures forall t <- old(state) | t !in tokens :: t in state
    {
      for k := 0 to |tokens|
        invariant Now().Valid(performer)
        invariant forall t <- tokens[..k] :: t in state ==> state[t] == Withdrawn
        invariant forall t <- state :: t in old(state) && (t !in tokens ==> state[t] == old(state)[t])
        invariant forall t <- old(state) | t !in tokens :: t in state
      {
        assert tokens[k] in tokens && tokens[..k + 1] == tokens[..k] + [tokens[k]];
        Withdraw(tokens[k]);
      }
      assert tokens[..|tokens|] == tokens;
    }
  }
}
