/** The compensation of completed activities, one after the other, on behalf of a token that waits for the last. */
module Compensations {
  import opened Basics
  import opened Sequences

  type Token = nat

  type Activity = nat

  /** A registered compensation is busy until its turn comes; a waiting token is busy or failing. */
  datatype State = BUSY | FAILING | OTHER

  /** A command makes a token busy, advances a token whose turn has come, or lets a failing token fail. */
  datatype Command =
    | UpdateToBusy(token: Token)
    | AdvanceToCompleted(token: Token)
    | UpdateToFailed(token: Token)
    | HandleFailure(token: Token)

  /** The tokens compensated on behalf of one waiting token, in the order of their compensation. */
  datatype Run = Run(order: seq<Token>, done: nat) {
    predicate Finished() {
      done >= |order|
    }
  }

  /** The token that waits for the i-th compensation: the next one, or the one waiting for all. */
  function Awaiter(order: seq<Token>, i: nat, waiting: Token): Token
    requires i < |order|
  {
    if i + 1 < |order| then order[i + 1] else waiting
  }

  ghost predicate Link(awaiting: map<Token, Token>, order: seq<Token>, waiting: Token, i: nat)
    requires i < |order|
  {
    order[i] in awaiting && awaiting[order[i]] == Awaiter(order, i, waiting)
  }

  /** The tokens of a list that belong to the run, in the order of the list. */
  ghost function Among(list: seq<Token>, order: seq<Token>): seq<Token> {
    if list == [] then []
    else Among(ButLast(list), order) + (if Last(list) in order then [Last(list)] else [])
  }

  datatype Situation = Situation(
      tokens: seq<Token>,                 // the active tokens
      compensationTokens: seq<Token>,     // the registered compensations whose turn has not come
      awaiting: map<Token, Token>,        // the token awaiting each compensation
      state: map<Token, State>,
      runs: map<Token, Run>,              // by the token waiting, or that waited last, for all of them
      completed: seq<Token>) {            // the compensations completed, in this order

    /** The remaining compensations are one chain: each awaits the one before, and the first is active. */
    ghost predicate Chained(w: Token)
      requires w in runs
    {
      var run := runs[w];
      && Distinct(run.order) && run.done <= |run.order| && w !in run.order && run.order != []
      && (forall i | run.done <= i < |run.order| :: Link(awaiting, run.order, w, i))
      && (forall i | run.done < i < |run.order| :: run.order[i] in compensationTokens)
      && (!run.Finished() ==> run.order[run.done] in tokens)
    }

    /** Of the tokens of a run, those compensated so far were so once each and in their order. */
    ghost predicate InOrder(w: Token)
      requires w in runs
    {
      runs[w].done <= |runs[w].order| && Among(completed, runs[w].order) == runs[w].order[..runs[w].done]
    }

    ghost predicate Valid(compensates: Token -> bool) {
      && Distinct(tokens) && Distinct(compensationTokens)
      && (forall t <- compensationTokens :: t !in tokens && compensates(t) && t in state && state[t] == BUSY)
      && (forall t <- completed :: t !in tokens && t !in compensationTokens)
      && (forall w <- runs :: Chained(w) && InOrder(w))
      && RunsApart(compensates)
      && (forall t <- awaiting :: Awaited(t))
    }

    /** The token is one of the compensations of the run that have not completed. */
    ghost predicate Remains(w: Token, t: Token)
      requires w in runs
    {
      exists i :: runs[w].done <= i < |runs[w].order| && runs[w].order[i] == t
    }

    /** The completion of the token is awaited within some run. */
    ghost predicate Awaited(t: Token) {
      exists w <- runs :: Remains(w, t)
    }

    /** Runs are made of compensations, of different ones, on behalf of tokens that are none. */
    ghost predicate RunsApart(compensates: Token -> bool) {
      && (forall w <- runs :: !compensates(w) && forall t <- runs[w].order :: compensates(t))
      && (forall v <- runs, w <- runs, t <- runs[v].order :: t in runs[w].order ==> v == w)
    }

    /** The completion of some compensation is awaited by the token. */
    predicate Waits(w: Token) {
      exists t <- awaiting :: awaiting[t] == w
    }

    /** The compensation is not part of any run. */
    ghost predicate Unclaimed(t: Token) {
      forall w <- runs :: t !in runs[w].order
    }
  }

  // ---------- what each change leads to ----------

  ghost function Registered(s: Situation, t: Token): Situation {
    s.(compensationTokens := s.compensationTokens + [t], state := s.state[t := BUSY])
  }

  lemma RegisteredKeeps(s: Situation, compensates: Token -> bool, t: Token)
    requires s.Valid(compensates) && compensates(t)
    requires t !in s.tokens && t !in s.compensationTokens && t !in s.completed
    ensures Registered(s, t).Valid(compensates)
  {
    var r := Registered(s, t);
    forall w <- r.runs ensures r.Chained(w) && r.InOrder(w) {
      assert s.Chained(w) && s.InOrder(w);
    }
    hide Situation.Chained, Situation.InOrder, Situation.Awaited;
    forall u <- r.awaiting ensures r.Awaited(u) {
      SameAwaited(s, r, u);
    }
  }

  /** The awaiters the compensations of the order are given from position i on. */
  ghost function Linked(awaiting: map<Token, Token>, run: Run, waiting: Token, n: nat): map<Token, Token>
    requires n <= |run.order|
  {
    if n == 0 then awaiting
    else Linked(awaiting, run, waiting, n - 1)[run.order[n - 1] := Awaiter(run.order, n - 1, waiting)]
  }

  lemma {:induction false} LinkedAt(awaiting: map<Token, Token>, run: Run, waiting: Token, n: nat, i: nat)
    requires i < n <= |run.order| && Distinct(run.order)
    ensures Link(Linked(awaiting, run, waiting, n), run.order, waiting, i)
    decreases n
  {
    if i < n - 1 {
      LinkedAt(awaiting, run, waiting, n - 1, i);
    }
  }

  lemma {:induction false} LinkedElsewhere(awaiting: map<Token, Token>, run: Run, waiting: Token, n: nat, t: Token)
    requires n <= |run.order| && t !in run.order
    ensures t in Linked(awaiting, run, waiting, n) <==> t in awaiting
    ensures t in awaiting ==> Linked(awaiting, run, waiting, n)[t] == awaiting[t]
  {
    if n > 0 {
      assert run.order[n - 1] in run.order;
      LinkedElsewhere(awaiting, run, waiting, n - 1, t);
    }
  }

  /** Compensation starts with the last token of the list; every other one awaits the one after it. */
  ghost function Started(s: Situation, list: seq<Token>, waiting: Token): Situation
    requires list != []
  {
    var run := Run(Reversed(list), 0);
    s.(tokens := s.tokens + [Last(list)],
       compensationTokens := Without(s.compensationTokens, Last(list)),
       awaiting := Linked(s.awaiting, run, waiting, |run.order|),
       runs := s.runs[waiting := run])
  }

  lemma {:induction false} AmongNone(list: seq<Token>, order: seq<Token>)
    requires forall t <- list :: t !in order
    ensures Among(list, order) == []
  {
    if list != [] {
      assert Last(list) in list;
      AmongNone(ButLast(list), order);
    }
  }

  lemma ReversedIsDistinct(list: seq<Token>)
    requires Distinct(list)
    ensures Distinct(Reversed(list)) && forall t :: t in Reversed(list) <==> t in list
  {
    var r := Reversed(list);
    forall t | t in list ensures t in r {
      var k :| 0 <= k < |list| && list[k] == t;
      assert r[|list| - 1 - k] == t;
    }
    forall t | t in r ensures t in list {
      var k :| 0 <= k < |r| && r[k] == t;
      assert list[|list| - 1 - k] == t;
    }
  }

  /** A token that waits for nothing has no compensations left to be completed. */
  lemma IdleIsFinished(s: Situation, compensates: Token -> bool, w: Token)
    requires s.Valid(compensates) && w in s.runs && !s.Waits(w)
    ensures s.runs[w].Finished()
  {
    assert s.Chained(w);
    var n := |s.runs[w].order|;
    assert !s.runs[w].Finished() ==> Link(s.awaiting, s.runs[w].order, w, n - 1);
  }

  lemma StartedChain(s: Situation, compensates: Token -> bool, list: seq<Token>, w: Token)
    requires s.Valid(compensates) && list != [] && Distinct(list) && !compensates(w) && !s.Waits(w)
    requires forall t <- list :: t in s.compensationTokens && s.Unclaimed(t)
    ensures Started(s, list, w).Chained(w) && Started(s, list, w).InOrder(w)
  {
    var r, run := Started(s, list, w), Run(Reversed(list), 0);
    ReversedIsDistinct(list);
    forall i | 0 <= i < |run.order| ensures Link(r.awaiting, run.order, w, i) {
      LinkedAt(s.awaiting, run, w, |run.order|, i);
    }
    assert run.order[0] == Last(list);
    forall i | 0 < i < |run.order| ensures run.order[i] in r.compensationTokens {
      assert run.order[i] in run.order;
    }
    forall t <- s.completed ensures t !in run.order {
    }
    AmongNone(s.completed, run.order);
    assert !compensates(w) ==> w !in list;
  }

  lemma StartedKeepsOther(s: Situation, compensates: Token -> bool, list: seq<Token>, w: Token, v: Token)
    requires s.Valid(compensates) && list != [] && Distinct(list) && !compensates(w) && !s.Waits(w) && v in s.runs && v != w
    requires forall t <- list :: t in s.compensationTokens && s.Unclaimed(t)
    ensures Started(s, list, w).Chained(v) && Started(s, list, w).InOrder(v)
  {
    var r, run := Started(s, list, w), Run(Reversed(list), 0);
    ReversedIsDistinct(list);
    assert s.Chained(v) && s.InOrder(v);
    var other := s.runs[v];
    forall i | 0 <= i < |other.order| ensures other.order[i] !in run.order && other.order[i] != Last(list) {
      assert other.order[i] in other.order;
      assert Last(list) in list;
    }
    forall i | other.done <= i < |other.order| ensures Link(r.awaiting, other.order, v, i) {
      assert Link(s.awaiting, other.order, v, i);
      LinkedElsewhere(s.awaiting, run, w, |run.order|, other.order[i]);
    }
  }

  lemma StartedKeeps(s: Situation, compensates: Token -> bool, list: seq<Token>, w: Token)
    requires s.Valid(compensates) && list != [] && Distinct(list) && !compensates(w) && !s.Waits(w)
    requires forall t <- list :: t in s.compensationTokens && s.Unclaimed(t)
    ensures Started(s, list, w).Valid(compensates)
  {
    var r := Started(s, list, w);
    StartedLists(s, compensates, list, w);
    StartedApart(s, compensates, list, w);
    forall v <- r.runs ensures r.Chained(v) && r.InOrder(v) {
      if v == w {
        StartedChain(s, compensates, list, w);
      } else {
        StartedKeepsOther(s, compensates, list, w, v);
      }
    }
    StartedAwaited(s, compensates, list, w);
    hide Situation.Chained, Situation.InOrder, Situation.RunsApart, Situation.Awaited, Linked;
  }

  lemma StartedAwaited(s: Situation, compensates: Token -> bool, list: seq<Token>, w: Token)
    requires s.Valid(compensates) && list != [] && !s.Waits(w)
    ensures forall t <- Started(s, list, w).awaiting :: Started(s, list, w).Awaited(t)
  {
    hide Situation.Chained, Situation.InOrder, Situation.RunsApart, Situation.Waits, Linked;
    var r, run := Started(s, list, w), Run(Reversed(list), 0);
    if w in s.runs {
      IdleIsFinished(s, compensates, w);
    }
    forall t <- r.awaiting ensures r.Awaited(t) {
      if t in run.order {
        assert r.Remains(w, t);
      } else {
        LinkedElsewhere(s.awaiting, run, w, |run.order|, t);
        assert s.Awaited(t);
        var v :| v in s.runs && s.Remains(v, t);
        var i :| s.runs[v].done <= i < |s.runs[v].order| && s.runs[v].order[i] == t;
        assert r.runs[v] == s.runs[v] && r.runs[v].order[i] == t;
        assert r.Remains(v, t);
      }
    }
  }

  lemma StartedLists(s: Situation, compensates: Token -> bool, list: seq<Token>, w: Token)
    requires s.Valid(compensates) && list != [] && Last(list) in s.compensationTokens
    ensures var r := Started(s, list, w);
            && Distinct(r.tokens) && Distinct(r.compensationTokens)
            && (forall t <- r.compensationTokens :: t !in r.tokens && compensates(t) && t in r.state && r.state[t] == BUSY)
            && (forall t <- r.completed :: t !in r.tokens && t !in r.compensationTokens)
  {
    hide Situation.Chained, Situation.InOrder, Situation.RunsApart, Linked, Reversed;
    DistinctConcatenation(s.tokens, [Last(list)]);
    WithoutDistinct(s.compensationTokens, Last(list));
  }

  lemma StartedApart(s: Situation, compensates: Token -> bool, list: seq<Token>, w: Token)
    requires s.RunsApart(compensates) && list != [] && Distinct(list) && !compensates(w)
    requires forall t <- list :: compensates(t) && s.Unclaimed(t)
    ensures Started(s, list, w).RunsApart(compensates)
  {
    var r := Started(s, list, w);
    ReversedIsDistinct(list);
    forall u <- r.runs, v <- r.runs, t <- r.runs[u].order | t in r.runs[v].order ensures u == v {
      if u != w && v != w {
        assert t in s.runs[u].order && t in s.runs[v].order;
      }
    }
  }

  // ---------- starting is sound exactly for compensations that are no part of another run ----------

  lemma {:induction false} AmongIsPart(list: seq<Token>, order: seq<Token>)
    ensures forall t <- Among(list, order) :: t in list
  {
    if list != [] {
      AmongIsPart(ButLast(list), order);
      assert list == ButLast(list) + [Last(list)];
    }
  }

  /** A compensation whose turn has not come is in no other place of its run than behind the active one. */
  lemma ClaimedIsAhead(s: Situation, compensates: Token -> bool, v: Token, i: nat)
    requires s.Valid(compensates) && v in s.runs && i < |s.runs[v].order| && s.runs[v].order[i] in s.compensationTokens
    ensures s.runs[v].done < i
  {
    var run := s.runs[v];
    assert s.Chained(v) && s.InOrder(v);
    AmongIsPart(s.completed, run.order);
    forall k | 0 <= k < run.done ensures run.order[k] !in s.compensationTokens {
      assert run.order[..run.done][k] in Among(s.completed, run.order);
    }
  }

  /** Two runs whose compensations are chains share none: what awaits a shared one would be shared too. */
  lemma {:induction false} NothingShared(r: Situation, compensates: Token -> bool, v: Token, i: nat, w: Token, j: nat)
    requires v in r.runs && w in r.runs && v != w && !compensates(v) && !compensates(w)
    requires forall t <- r.runs[v].order :: compensates(t)
    requires forall t <- r.runs[w].order :: compensates(t)
    requires r.Chained(v) && r.Chained(w)
    requires r.runs[v].done <= i < |r.runs[v].order| && r.runs[w].done <= j < |r.runs[w].order|
    ensures r.runs[v].order[i] != r.runs[w].order[j]
    decreases |r.runs[v].order| - i
  {
    var a, b := r.runs[v].order, r.runs[w].order;
    assert Link(r.awaiting, a, v, i) && Link(r.awaiting, b, w, j);
    if i + 1 < |a| && j + 1 < |b| {
      NothingShared(r, compensates, v, i + 1, w, j + 1);
    } else if i + 1 < |a| {
      assert a[i + 1] in a;
    } else if j + 1 < |b| {
      assert b[j + 1] in b;
    }
  }

  /** A registered compensation is part of a run exactly if the awaiter map has an entry for it. */
  lemma ClaimedIsAwaited(s: Situation, compensates: Token -> bool, t: Token)
    requires s.Valid(compensates) && t in s.compensationTokens
    ensures s.Unclaimed(t) <==> t !in s.awaiting
  {
    if t in s.awaiting {
      assert s.Awaited(t);
      var v :| v in s.runs && s.Remains(v, t);
      assert t in s.runs[v].order;
    }
    if !s.Unclaimed(t) {
      var v :| v in s.runs && t in s.runs[v].order;
      var i :| 0 <= i < |s.runs[v].order| && s.runs[v].order[i] == t;
      ClaimedIsAhead(s, compensates, v, i);
      assert s.Chained(v) && Link(s.awaiting, s.runs[v].order, v, i);
    }
  }

  /** Starting the compensations of a list keeps all runs chains exactly if the awaiter map has an entry for none of them. */
  lemma ChainsStayExactly(s: Situation, compensates: Token -> bool, list: seq<Token>, w: Token)
    requires s.Valid(compensates) && list != [] && Distinct(list) && !compensates(w) && !s.Waits(w)
    requires forall t <- list :: t in s.compensationTokens
    ensures (forall v <- Started(s, list, w).runs :: Started(s, list, w).Chained(v)) <==> (forall t <- list :: t !in s.awaiting)
  {
    hide Situation.Valid, Situation.Chained, Situation.Unclaimed, Linked, Without, Reversed;
    ChainsStayForUnclaimed(s, compensates, list, w);
    forall t <- list ensures s.Unclaimed(t) <==> t !in s.awaiting {
      ClaimedIsAwaited(s, compensates, t);
    }
  }

  lemma ChainsStayForUnclaimed(s: Situation, compensates: Token -> bool, list: seq<Token>, w: Token)
    requires s.Valid(compensates) && list != [] && Distinct(list) && !compensates(w) && !s.Waits(w)
    requires forall t <- list :: t in s.compensationTokens
    ensures (forall v <- Started(s, list, w).runs :: Started(s, list, w).Chained(v)) <==> (forall t <- list :: s.Unclaimed(t))
  {
    hide Situation.Awaited, Without;
    var r := Started(s, list, w);
    if forall t <- list :: s.Unclaimed(t) {
      StartedKeeps(s, compensates, list, w);
    } else {
      var t :| t in list && !s.Unclaimed(t);
      var v :| v in s.runs && t in s.runs[v].order;
      var i :| 0 <= i < |s.runs[v].order| && s.runs[v].order[i] == t;
      ClaimedIsAhead(s, compensates, v, i);
      if v == w {
        IdleIsFinished(s, compensates, w);
      }
      ReversedIsDistinct(list);
      var j :| 0 <= j < |r.runs[w].order| && r.runs[w].order[j] == t;
      if r.Chained(v) && r.Chained(w) {
        NothingShared(r, compensates, v, i, w, j);
      }
    }
  }

  /** Starting a list with the last compensation of an unfinished run leaves no entry for the token waiting for that run. */
  lemma WaitingTokenIsLost(s: Situation, compensates: Token -> bool, list: seq<Token>, w: Token, v: Token)
    requires s.Valid(compensates) && list != [] && Distinct(list) && !compensates(w) && v != w
    requires forall t <- list :: t in s.compensationTokens
    requires v in s.runs && !s.runs[v].Finished() && Last(s.runs[v].order) in list
    ensures forall t <- Started(s, list, w).awaiting :: Started(s, list, w).awaiting[t] != v
  {
    var r, run := Started(s, list, w), Run(Reversed(list), 0);
    ReversedIsDistinct(list);
    forall t <- r.awaiting ensures r.awaiting[t] != v {
      if t in run.order {
        var i :| 0 <= i < |run.order| && run.order[i] == t;
        LinkedAt(s.awaiting, run, w, |run.order|, i);
        assert i + 1 < |run.order| ==> run.order[i + 1] in run.order;
      } else {
        LinkedElsewhere(s.awaiting, run, w, |run.order|, t);
        AwaitsNoOther(s, compensates, v, t);
      }
    }
  }

  /** The place in its run of a compensation that is awaited. */
  lemma PlaceOfAwaited(s: Situation, compensates: Token -> bool, t: Token) returns (u: Token, i: nat)
    requires s.Valid(compensates) && t in s.awaiting
    ensures u in s.runs && i < |s.runs[u].order| && s.runs[u].order[i] == t
    ensures s.awaiting[t] == Awaiter(s.runs[u].order, i, u)
    ensures i + 1 < |s.runs[u].order| ==> compensates(s.runs[u].order[i + 1])
  {
    assert s.Awaited(t);
    u :| u in s.runs && s.Remains(u, t);
    var order := s.runs[u].order;
    i :| s.runs[u].done <= i < |order| && order[i] == t;
    assert s.Chained(u) && Link(s.awaiting, order, u, i);
    assert i + 1 < |order| ==> order[i + 1] in order;
  }

  /** Only the last compensation of a run has the token waiting for the run as its awaiter. */
  lemma AwaitsNoOther(s: Situation, compensates: Token -> bool, v: Token, t: Token)
    requires s.Valid(compensates) && v in s.runs && s.runs[v].order != [] && t in s.awaiting && t != Last(s.runs[v].order)
    ensures s.awaiting[t] != v
  {
    var u, i := PlaceOfAwaited(s, compensates, t);
    hide Situation.Chained, Situation.InOrder, Situation.Awaited;
  }

  // ---------- two overlapping runs ----------

  /** Four compensations are registered, and two tokens may wait for compensations. */
  function FourRegistered(): Situation {
    Situation([], [1, 2, 3, 4], map[], map[11 := BUSY, 12 := BUSY, 1 := BUSY, 2 := BUSY, 3 := BUSY, 4 := BUSY], map[], [])
  }

  lemma FourAreListed()
    ensures FourRegistered().compensationTokens == [1, 2, 3, 4] && 12 in FourRegistered().state
    ensures FourRegistered().state[12] == BUSY
  {
  }

  predicate BelowTen(t: Token) { t < 10 }

  lemma FourAreRegistered()
    ensures
      var none := Situation([], [], map[], map[11 := BUSY, 12 := BUSY], map[], []);
      && none.Valid(BelowTen) && FourRegistered().Valid(BelowTen)
      && Registered(Registered(Registered(Registered(none, 1), 2), 3), 4) == FourRegistered()
  {
    var none := Situation([], [], map[], map[11 := BUSY, 12 := BUSY], map[], []);
    var four := Registered(Registered(Registered(Registered(none, 1), 2), 3), 4);
    assert four.compensationTokens == [1, 2, 3, 4];
    assert four.state == FourRegistered().state;
  }

  lemma FirstIsStarted()
    ensures
      var s := Started(FourRegistered(), [1, 3, 4], 11);
      && s.compensationTokens == [1, 2, 3] && s.awaiting == map[4 := 3, 3 := 1, 1 := 11]
      && 11 in s.runs && s.runs[11] == Run([4, 3, 1], 0) && !s.Waits(12) && s.state == FourRegistered().state
  {
    hide Without, Linked, Reversed;
    var registered: seq<Token>, before: seq<Token>, four: Token := [1, 2, 3, 4], [1, 2, 3], 4;
    assert before + [four] + [] == registered && before + [] == before;
    WithoutOnly(before, four, []);
    LinksOfThree(map[], 1, 3, 4, 11);
    assert Reversed([1, 3, 4]) == [4, 3, 1];
    assert map[][4 := 3][3 := 1][1 := 11] == map[4 := 3, 3 := 1, 1 := 11];
  }

  lemma FirstIsValid()
    ensures Started(FourRegistered(), [1, 3, 4], 11).Valid(BelowTen)
  {
    FourAreRegistered();
    hide Started, Situation.Valid;
    StartedKeeps(FourRegistered(), BelowTen, [1, 3, 4], 11);
  }

  /**
   The compensations 1, 3 and 4 of one activity and 2 of another are registered in the order of their numbers. Token 11
   has the first activity compensated, and token 12, while 4 is being compensated, all that is registered then. The
   compensations 3 and 1 are part of both runs, and each is still awaited, but nothing leads back to token 11.
   */
  lemma OverlappingRunsLoseAToken(attachedTo: Token -> Activity)
    requires attachedTo(1) == attachedTo(3) == attachedTo(4) == 1 && attachedTo(2) == 2
    ensures Selected(FourRegistered().compensationTokens, attachedTo, Some(1)) == [1, 3, 4]
    ensures
      var s := Started(FourRegistered(), [1, 3, 4], 11);
      var r := Started(s, [1, 2, 3], 12);
      && s.Valid(BelowTen) && Selected(s.compensationTokens, attachedTo, None) == [1, 2, 3] && 3 in s.awaiting
      && r.awaiting == map[4 := 3, 3 := 2, 2 := 1, 1 := 12]
      && forall t <- r.awaiting :: r.awaiting[t] != 11
  {
    hide Situation.Valid, Selected, Started, FourRegistered;
    assert FourRegistered().compensationTokens == [1, 2, 3, 4] by { FourAreListed(); }
    var s := Started(FourRegistered(), [1, 3, 4], 11);
    SelectedOfFour(attachedTo);
    FirstIsStarted();
    FirstIsValid();
    AllSelected([1, 2, 3], attachedTo);
    SecondIsStarted(s);
    WaitingTokenIsLost(s, BelowTen, [1, 2, 3], 12, 11);
  }

  lemma SecondIsStarted(s: Situation)
    requires s.awaiting == map[4 := 3, 3 := 1, 1 := 11]
    ensures Started(s, [1, 2, 3], 12).awaiting == map[4 := 3, 3 := 2, 2 := 1, 1 := 12]
  {
    hide Without, Linked, Reversed;
    LinksOfThree(s.awaiting, 1, 2, 3, 12);
  }

  /** The compensation whose turn it was has completed, and the token awaiting it has its turn. */
  ghost function Compensated(s: Situation, w: Token): Situation
    requires w in s.runs && !s.runs[w].Finished()
  {
    var run := s.runs[w];
    var t := run.order[run.done];
    if run.done + 1 < |run.order| then
      var next := run.order[run.done + 1];
      s.(tokens := Without(s.tokens + [next], t), compensationTokens := Without(s.compensationTokens, next),
         awaiting := s.awaiting - {t}, runs := s.runs[w := Run(run.order, run.done + 1)], completed := s.completed + [t])
    else
      s.(tokens := Without(s.tokens, t),
         awaiting := s.awaiting - {t}, runs := s.runs[w := Run(run.order, run.done + 1)], completed := s.completed + [t])
  }

  lemma AmongStep(completed: seq<Token>, t: Token, order: seq<Token>)
    ensures Among(completed + [t], order) == Among(completed, order) + (if t in order then [t] else [])
  {
    assert ButLast(completed + [t]) == completed;
  }

  lemma CompensatedOrder(s: Situation, w: Token)
    requires w in s.runs && !s.runs[w].Finished() && s.InOrder(w)
    ensures Compensated(s, w).InOrder(w)
  {
    hide Without;
    var run := s.runs[w];
    AmongStep(s.completed, run.order[run.done], run.order);
    assert run.order[..run.done + 1] == run.order[..run.done] + [run.order[run.done]];
  }

  lemma CompensatedChain(s: Situation, w: Token)
    requires w in s.runs && !s.runs[w].Finished() && s.Chained(w)
    ensures Compensated(s, w).Chained(w)
  {
    var r, run := Compensated(s, w), s.runs[w];
    var t, n := run.order[run.done], |run.order|;
    assert r.runs[w] == Run(run.order, run.done + 1) && r.state == s.state;
    assert r.awaiting == s.awaiting - {t};
    forall i | run.done < i < n ensures Link(r.awaiting, run.order, w, i) {
      assert Link(s.awaiting, run.order, w, i) && run.order[i] != t;
    }
    if run.done + 1 < n {
      TurnOfNext(s, w);
    }
  }

  lemma TurnOfNext(s: Situation, w: Token)
    requires w in s.runs && s.Chained(w) && s.runs[w].done + 1 < |s.runs[w].order|
    ensures s.runs[w].order[s.runs[w].done + 1] in Compensated(s, w).tokens
    ensures forall i | s.runs[w].done + 1 < i < |s.runs[w].order| :: s.runs[w].order[i] in Compensated(s, w).compensationTokens
  {
    var run, r := s.runs[w], Compensated(s, w);
    var next := run.order[run.done + 1];
    assert next in s.tokens + [next] && next != run.order[run.done];
    forall i | run.done + 1 < i < |run.order| ensures run.order[i] in r.compensationTokens {
      assert run.order[i] in s.compensationTokens && run.order[i] != next;
    }
  }

  lemma CompensatedParts(s: Situation, w: Token)
    requires w in s.runs && !s.runs[w].Finished()
    ensures
      var run, r := s.runs[w], Compensated(s, w);
      && r.awaiting == s.awaiting - {run.order[run.done]} && r.state == s.state
      && r.runs == s.runs[w := Run(run.order, run.done + 1)] && r.completed == s.completed + [run.order[run.done]]
  {
  }

  /** A token that neither completes nor has its turn next stays where it is. */
  lemma OtherStays(s: Situation, w: Token, t: Token)
    requires w in s.runs && !s.runs[w].Finished() && t != s.runs[w].order[s.runs[w].done]
    requires s.runs[w].done + 1 < |s.runs[w].order| ==> t != s.runs[w].order[s.runs[w].done + 1]
    ensures t in s.tokens ==> t in Compensated(s, w).tokens
    ensures t in s.compensationTokens ==> t in Compensated(s, w).compensationTokens
  {
    hide Without;
    var run := s.runs[w];
    if run.done + 1 < |run.order| && t in s.tokens {
      assert t in s.tokens + [run.order[run.done + 1]];
    }
  }

  lemma CompensatedOther(s: Situation, compensates: Token -> bool, w: Token, v: Token)
    requires s.Valid(compensates) && w in s.runs && !s.runs[w].Finished() && v in s.runs && v != w
    ensures Compensated(s, w).Chained(v) && Compensated(s, w).InOrder(v)
  {
    hide Situation.Awaited, Compensated, Among, Distinct;
    var r, run, other := Compensated(s, w), s.runs[w], s.runs[v];
    var t := run.order[run.done];
    assert t in run.order && s.Chained(v) && s.InOrder(v);
    CompensatedParts(s, w);
    AmongStep(s.completed, t, other.order);
    forall i | 0 <= i < |other.order|
      ensures other.order[i] != t && (run.done + 1 < |run.order| ==> other.order[i] != run.order[run.done + 1])
    {
      assert other.order[i] in other.order;
      assert run.done + 1 < |run.order| ==> run.order[run.done + 1] in run.order;
    }
    forall i | other.done <= i < |other.order|
      ensures Link(r.awaiting, other.order, v, i)
      ensures other.order[i] in s.tokens ==> other.order[i] in r.tokens
      ensures other.order[i] in s.compensationTokens ==> other.order[i] in r.compensationTokens
    {
      assert Link(s.awaiting, other.order, v, i);
      OtherStays(s, w, other.order[i]);
    }
  }

  lemma CompensatedApart(s: Situation, compensates: Token -> bool, w: Token)
    requires s.RunsApart(compensates) && w in s.runs && !s.runs[w].Finished()
    ensures Compensated(s, w).RunsApart(compensates)
  {
    var r := Compensated(s, w);
    forall u <- r.runs, v <- r.runs, t <- r.runs[u].order | t in r.runs[v].order ensures u == v {
      assert t in s.runs[u].order && t in s.runs[v].order;
    }
  }

  lemma CompensatedLists(s: Situation, compensates: Token -> bool, w: Token)
    requires s.Valid(compensates) && w in s.runs && !s.runs[w].Finished()
    ensures var r := Compensated(s, w);
            && Distinct(r.tokens) && Distinct(r.compensationTokens)
            && (forall t <- r.compensationTokens :: t !in r.tokens && compensates(t) && t in r.state && r.state[t] == BUSY)
            && (forall t <- r.completed :: t !in r.tokens && t !in r.compensationTokens)
  {
    var run := s.runs[w];
    assert s.Chained(w);
    hide Situation.RunsApart, Situation.Chained, Situation.InOrder;
    var t := run.order[run.done];
    if run.done + 1 < |run.order| {
      var next := run.order[run.done + 1];
      assert next in s.compensationTokens;
      DistinctConcatenation(s.tokens, [next]);
      WithoutDistinct(s.tokens + [next], t);
      WithoutDistinct(s.compensationTokens, next);
    } else {
      WithoutDistinct(s.tokens, t);
    }
  }

  lemma CompensatedKeeps(s: Situation, compensates: Token -> bool, w: Token)
    requires s.Valid(compensates) && w in s.runs && !s.runs[w].Finished()
    ensures Compensated(s, w).Valid(compensates)
  {
    hide Compensated, Situation.Awaited;
    var r := Compensated(s, w);
    CompensatedParts(s, w);
    CompensatedLists(s, compensates, w);
    CompensatedApart(s, compensates, w);
    forall v <- r.runs ensures r.Chained(v) && r.InOrder(v) {
      if v == w {
        assert s.Chained(w) && s.InOrder(w);
        CompensatedChain(s, w);
        CompensatedOrder(s, w);
      } else {
        CompensatedOther(s, compensates, w, v);
      }
    }
    CompensatedAwaited(s, compensates, w);
    hide Situation.RunsApart, Situation.Chained, Situation.InOrder, Situation.Awaited;
  }

  lemma RemainsAwaited(s: Situation, w: Token, t: Token)
    requires w in s.runs && !s.runs[w].Finished() && s.Awaited(t) && t != s.runs[w].order[s.runs[w].done]
    ensures Compensated(s, w).Awaited(t)
  {
    CompensatedParts(s, w);
    hide Compensated;
    var r := Compensated(s, w);
    var v :| v in s.runs && s.Remains(v, t);
    var i :| s.runs[v].done <= i < |s.runs[v].order| && s.runs[v].order[i] == t;
    assert r.runs[v].order[i] == t && r.runs[v].done <= i;
    assert r.Remains(v, t);
  }

  lemma CompensatedAwaited(s: Situation, compensates: Token -> bool, w: Token)
    requires s.Valid(compensates) && w in s.runs && !s.runs[w].Finished()
    ensures forall t <- Compensated(s, w).awaiting :: Compensated(s, w).Awaited(t)
  {
    hide Situation.Awaited, Situation.Chained, Situation.InOrder, Situation.RunsApart, Compensated;
    CompensatedParts(s, w);
    forall t <- Compensated(s, w).awaiting ensures Compensated(s, w).Awaited(t) {
      RemainsAwaited(s, w, t);
    }
  }

  /** A run that is finished has compensated every token of its list once, in reverse order of registration. */
  lemma ReverseOrder(s: Situation, compensates: Token -> bool, w: Token, list: seq<Token>)
    requires s.Valid(compensates) && w in s.runs && s.runs[w].order == Reversed(list) && s.runs[w].Finished()
    ensures Among(s.completed, Reversed(list)) == Reversed(list)
  {
    assert s.Chained(w) && s.InOrder(w);
    assert s.runs[w].order[..|s.runs[w].order|] == s.runs[w].order;
  }

  /** A compensation of a run has completed, is active, or awaits its turn, exactly as its place in the order says. */
  lemma PlaceInRun(s: Situation, compensates: Token -> bool, w: Token, i: nat)
    requires s.Valid(compensates) && w in s.runs && i < |s.runs[w].order|
    ensures var t, done := s.runs[w].order[i], s.runs[w].done;
            && (t in s.completed <==> i < done) && (t in s.tokens <==> i == done) && (t in s.compensationTokens <==> i > done)
  {
    var run := s.runs[w];
    assert s.Chained(w) && s.InOrder(w);
    AmongIsPart(s.completed, run.order);
    if i < run.done {
      assert run.order[i] == run.order[..run.done][i];
      assert run.order[i] in Among(s.completed, run.order);
    }
  }

  // ---------- a waiting token is busy or failing by the time its turn comes ----------

  predicate IsWaiting(state: map<Token, State>, w: Token) {
    w in state && state[w] in {BUSY, FAILING}
  }

  /** The second command comes at some place behind the first. */
  ghost predicate Follows(commands: seq<Command>, first: Command, second: Command) {
    exists i, j :: 0 <= i < j < |commands| && commands[i] == first && commands[j] == second
  }

  /** The token will be busy before the compensation is advanced. */
  ghost predicate BusyBefore(commands: seq<Command>, w: Token, t: Token) {
    Follows(commands, UpdateToBusy(w), AdvanceToCompleted(t))
  }

  /** Every token waiting for a run is busy or failing, or will be before the first compensation is advanced. */
  ghost predicate AllReady(runs: map<Token, Run>, state: map<Token, State>, commands: seq<Command>) {
    forall w <- runs | !runs[w].Finished() :: IsWaiting(state, w) || BusyBefore(commands, w, runs[w].order[runs[w].done])
  }

  lemma MoreFollows(commands: seq<Command>, more: seq<Command>, first: Command, second: Command)
    requires Follows(commands, first, second)
    ensures Follows(commands + more, first, second)
  {
    var i, j :| 0 <= i < j < |commands| && commands[i] == first && commands[j] == second;
    assert (commands + more)[i] == first && (commands + more)[j] == second;
  }

  lemma BusyBeforeMore(commands: seq<Command>, more: seq<Command>, w: Token, t: Token)
    requires BusyBefore(commands, w, t)
    ensures BusyBefore(commands + more, w, t)
  {
    MoreFollows(commands, more, UpdateToBusy(w), AdvanceToCompleted(t));
  }

  /** The token becomes busy next, or will be busy before the compensation is advanced once the first command is executed. */
  lemma RestIsBusyBefore(commands: seq<Command>, w: Token, t: Token)
    requires BusyBefore(commands, w, t)
    ensures commands[0] == UpdateToBusy(w) || BusyBefore(commands[1..], w, t)
  {
    var i, j :| 0 <= i < j < |commands| && commands[i] == UpdateToBusy(w) && commands[j] == AdvanceToCompleted(t);
    if i > 0 {
      assert commands[1..][i - 1] == UpdateToBusy(w) && commands[1..][j - 1] == AdvanceToCompleted(t);
    }
  }

  /** Runs stay ready while commands are appended and the tokens waiting stay busy or failing. */
  lemma StaysReady(runs: map<Token, Run>, state: map<Token, State>, commands: seq<Command>, after: map<Token, State>, more: seq<Command>)
    requires AllReady(runs, state, commands)
    requires forall w <- runs | !runs[w].Finished() && IsWaiting(state, w) :: IsWaiting(after, w)
    ensures AllReady(runs, after, commands + more)
  {
    hide BusyBefore, IsWaiting;
    forall w <- runs | !runs[w].Finished() && !IsWaiting(after, w)
      ensures BusyBefore(commands + more, w, runs[w].order[runs[w].done])
    {
      BusyBeforeMore(commands, more, w, runs[w].order[runs[w].done]);
    }
  }

  // ---------- every token whose turn comes is advanced, once, and the waiting token continues ----------

  /** The waiting token is advanced behind the last compensation of its run, or fails and has its failure handled. */
  ghost predicate Continued(issued: seq<Command>, last: Token, w: Token) {
    || Follows(issued, AdvanceToCompleted(last), AdvanceToCompleted(w))
    || exists i, j, k ::
         && 0 <= i < j < k < |issued| && issued[i] == AdvanceToCompleted(last)
         && issued[j] == UpdateToFailed(w) && issued[k] == HandleFailure(w)
  }

  /** The compensations of the run are advanced in their order up to the active one; after the last, the waiting token is. */
  ghost predicate TurnsTaken(issued: seq<Command>, run: Run, w: Token) {
    && run.order != [] && run.done <= |run.order|
    && (forall i | 0 < i <= run.done && i < |run.order| ::
          Follows(issued, AdvanceToCompleted(run.order[i - 1]), AdvanceToCompleted(run.order[i])))
    && (!run.Finished() ==> AdvanceToCompleted(run.order[run.done]) in issued)
    && (run.Finished() ==> Continued(issued, Last(run.order), w))
  }

  /** Only what is active or has completed was advanced, and no compensation a second time. */
  ghost predicate AdvancedOnce(s: Situation, compensates: Token -> bool, issued: seq<Command>) {
    forall j | 0 <= j < |issued| && issued[j].AdvanceToCompleted? && compensates(issued[j].token) ::
      Begun(s, issued[j].token) && forall i | 0 <= i < j :: issued[i] != issued[j]
  }

  /** The compensation is active or has completed. */
  ghost predicate Begun(s: Situation, t: Token) {
    t in s.tokens || t in s.completed
  }

  /** The commands executed and those pending account for the turns taken; what completed had its advance executed. */
  ghost predicate Accounted(s: Situation, compensates: Token -> bool, executed: seq<Command>, commands: seq<Command>) {
    && (forall w <- s.runs :: TurnsTaken(executed + commands, s.runs[w], w))
    && AdvancedOnce(s, compensates, executed + commands)
    && (forall t <- s.completed :: AdvanceToCompleted(t) in executed)
  }

  lemma MoreContinued(issued: seq<Command>, more: seq<Command>, last: Token, w: Token)
    requires Continued(issued, last, w)
    ensures Continued(issued + more, last, w)
  {
    hide Follows;
    if Follows(issued, AdvanceToCompleted(last), AdvanceToCompleted(w)) {
      MoreFollows(issued, more, AdvanceToCompleted(last), AdvanceToCompleted(w));
    } else {
      var i, j, k :| 0 <= i < j < k < |issued| && issued[i] == AdvanceToCompleted(last)
                     && issued[j] == UpdateToFailed(w) && issued[k] == HandleFailure(w);
      var all := issued + more;
      assert all[i] == AdvanceToCompleted(last) && all[j] == UpdateToFailed(w) && all[k] == HandleFailure(w);
    }
  }

  lemma MoreTurnsTaken(issued: seq<Command>, more: seq<Command>, run: Run, w: Token)
    requires TurnsTaken(issued, run, w)
    ensures TurnsTaken(issued + more, run, w)
  {
    hide Follows, Continued;
    forall i | 0 < i <= run.done && i < |run.order|
      ensures Follows(issued + more, AdvanceToCompleted(run.order[i - 1]), AdvanceToCompleted(run.order[i]))
    {
      MoreFollows(issued, more, AdvanceToCompleted(run.order[i - 1]), AdvanceToCompleted(run.order[i]));
    }
    if run.Finished() {
      MoreContinued(issued, more, Last(run.order), w);
    }
  }

  lemma OneMoreOnce(s: Situation, r: Situation, compensates: Token -> bool, issued: seq<Command>, c: Command)
    requires AdvancedOnce(s, compensates, issued)
    requires forall t :: Begun(s, t) ==> Begun(r, t)
    requires c.AdvanceToCompleted? && compensates(c.token) ==> Begun(r, c.token) && !Begun(s, c.token)
    ensures AdvancedOnce(r, compensates, issued + [c])
  {
    var all := issued + [c];
    forall j | 0 <= j < |all| && all[j].AdvanceToCompleted? && compensates(all[j].token)
      ensures Begun(r, all[j].token) && forall i | 0 <= i < j :: all[i] != all[j]
    {
      if j < |issued| {
        assert Begun(s, issued[j].token);
      } else {
        forall i | 0 <= i < |issued| ensures issued[i] != c {
          assert issued[i].AdvanceToCompleted? && compensates(issued[i].token) ==> Begun(s, issued[i].token);
        }
      }
    }
  }

  /** The account depends neither on the states of tokens nor on what is registered and awaited. */
  lemma SameAccounted(s: Situation, r: Situation, compensates: Token -> bool, executed: seq<Command>, commands: seq<Command>)
    requires Accounted(s, compensates, executed, commands)
    requires r.tokens == s.tokens && r.runs == s.runs && r.completed == s.completed
    ensures Accounted(r, compensates, executed, commands)
  {
    hide TurnsTaken;
  }

  /** Appending a command that advances no compensation changes nothing of the account. */
  lemma OneMoreAccounted(s: Situation, compensates: Token -> bool, executed: seq<Command>, commands: seq<Command>, c: Command)
    requires Accounted(s, compensates, executed, commands) && !(c.AdvanceToCompleted? && compensates(c.token))
    ensures Accounted(s, compensates, executed, commands + [c])
  {
    hide AdvancedOnce, TurnsTaken, Begun;
    assert executed + (commands + [c]) == (executed + commands) + [c];
    OneMoreOnce(s, s, compensates, executed + commands, c);
    forall w <- s.runs ensures TurnsTaken(executed + (commands + [c]), s.runs[w], w) {
      MoreTurnsTaken(executed + commands, [c], s.runs[w], w);
    }
  }

  /** Executing the first command only moves it from the pending ones to those executed. */
  lemma ExecutedAccounted(s: Situation, compensates: Token -> bool, executed: seq<Command>, commands: seq<Command>)
    requires Accounted(s, compensates, executed, commands) && commands != []
    ensures Accounted(s, compensates, executed + [commands[0]], commands[1..])
  {
    hide AdvancedOnce, TurnsTaken;
    assert (executed + [commands[0]]) + commands[1..] == executed + commands;
  }

  lemma StartedIsAccounted(s: Situation, compensates: Token -> bool, executed: seq<Command>, commands: seq<Command>,
                           list: seq<Token>, w: Token)
    requires s.Valid(compensates) && Accounted(s, compensates, executed, commands)
    requires list != [] && Last(list) in s.compensationTokens
    ensures Accounted(Started(s, list, w), compensates, executed, commands + [AdvanceToCompleted(Last(list))])
  {
    hide AdvancedOnce, TurnsTaken, Linked, Without, Reversed, Situation.Chained, Situation.InOrder, Situation.RunsApart, Situation.Awaited;
    var r, first, issued := Started(s, list, w), AdvanceToCompleted(Last(list)), executed + commands;
    assert executed + (commands + [first]) == issued + [first];
    assert !Begun(s, Last(list));
    OneMoreOnce(s, r, compensates, issued, first);
    forall v <- r.runs ensures TurnsTaken(issued + [first], r.runs[v], v) {
      if v == w {
        FirstTurnTaken(issued, list, w);
      } else {
        MoreTurnsTaken(issued, [first], s.runs[v], v);
      }
    }
  }

  lemma FirstTurnTaken(issued: seq<Command>, list: seq<Token>, w: Token)
    requires list != []
    ensures TurnsTaken(issued + [AdvanceToCompleted(Last(list))], Run(Reversed(list), 0), w)
  {
    var all := issued + [AdvanceToCompleted(Last(list))];
    assert all[|issued|] == AdvanceToCompleted(Reversed(list)[0]);
  }

  /** The commands by which the awaiter of a completed compensation has its turn. */
  ghost predicate HasTurn(more: seq<Command>, next: Token) {
    more == [AdvanceToCompleted(next)] || more == [UpdateToFailed(next), HandleFailure(next)]
  }

  lemma NextTurnTaken(issued: seq<Command>, more: seq<Command>, run: Run, w: Token)
    requires TurnsTaken(issued, run, w) && !run.Finished()
    requires HasTurn(more, Awaiter(run.order, run.done, w))
    requires run.done + 1 < |run.order| ==> more == [AdvanceToCompleted(run.order[run.done + 1])]
    ensures TurnsTaken(issued + more, Run(run.order, run.done + 1), w)
  {
    hide Follows, Continued;
    MoreTurnsTaken(issued, more, run, w);
    var t := run.order[run.done];
    if run.done + 1 < |run.order| {
      AdvancedBehind(issued, t, run.order[run.done + 1]);
      assert more[0] in issued + more;
    } else {
      ContinuedBehind(issued, more, t, w);
    }
  }

  lemma AdvancedBehind(issued: seq<Command>, t: Token, next: Token)
    requires AdvanceToCompleted(t) in issued
    ensures Follows(issued + [AdvanceToCompleted(next)], AdvanceToCompleted(t), AdvanceToCompleted(next))
  {
    var i :| 0 <= i < |issued| && issued[i] == AdvanceToCompleted(t);
    var all := issued + [AdvanceToCompleted(next)];
    assert all[i] == AdvanceToCompleted(t) && all[|issued|] == AdvanceToCompleted(next);
  }

  lemma ContinuedBehind(issued: seq<Command>, more: seq<Command>, t: Token, w: Token)
    requires AdvanceToCompleted(t) in issued && HasTurn(more, w)
    ensures Continued(issued + more, t, w)
  {
    hide Follows;
    if more == [AdvanceToCompleted(w)] {
      AdvancedBehind(issued, t, w);
    } else {
      var i :| 0 <= i < |issued| && issued[i] == AdvanceToCompleted(t);
      var all := issued + more;
      assert all[i] == AdvanceToCompleted(t);
      assert all[|issued|] == UpdateToFailed(w) && all[|issued| + 1] == HandleFailure(w);
    }
  }

  lemma CompensatedIsOnce(s: Situation, compensates: Token -> bool, issued: seq<Command>, more: seq<Command>, w: Token)
    requires s.Valid(compensates) && AdvancedOnce(s, compensates, issued) && w in s.runs && !s.runs[w].Finished()
    requires var next := Awaiter(s.runs[w].order, s.runs[w].done, w);
             HasTurn(more, next) && (compensates(next) ==> s.runs[w].done + 1 < |s.runs[w].order|)
    ensures AdvancedOnce(Compensated(s, w), compensates, issued + more)
  {
    var run, r := s.runs[w], Compensated(s, w);
    assert s.Chained(w);
    var t, next := run.order[run.done], Awaiter(run.order, run.done, w);
    hide AdvancedOnce, Situation.Chained, Situation.InOrder, Situation.RunsApart, Situation.Awaited;
    BegunStays(s, w);
    if compensates(next) {
      NextBegins(s, compensates, w);
    }
    OneMoreOnce(s, r, compensates, issued, more[0]);
    if |more| == 2 {
      OneMoreOnce(r, r, compensates, issued + [more[0]], more[1]);
      assert issued + more == (issued + [more[0]]) + [more[1]];
    } else {
      assert more == [more[0]];
    }
  }

  lemma BegunStays(s: Situation, w: Token)
    requires w in s.runs && !s.runs[w].Finished()
    ensures forall t :: Begun(s, t) ==> Begun(Compensated(s, w), t)
  {
    hide Without;
    var run := s.runs[w];
    if run.done + 1 < |run.order| {
      assert forall u <- s.tokens :: u in s.tokens + [run.order[run.done + 1]];
    }
  }

  lemma NextBegins(s: Situation, compensates: Token -> bool, w: Token)
    requires s.Valid(compensates) && w in s.runs && s.runs[w].done + 1 < |s.runs[w].order|
    ensures var next := s.runs[w].order[s.runs[w].done + 1];
            !Begun(s, next) && Begun(Compensated(s, w), next)
  {
    hide Situation.InOrder, Situation.RunsApart, Situation.Awaited;
    var run := s.runs[w];
    assert s.Chained(w);
    TurnOfNext(s, w);
    assert run.order[run.done + 1] in s.compensationTokens;
  }

  lemma CompensatedIsAccounted(s: Situation, compensates: Token -> bool, executed: seq<Command>, commands: seq<Command>,
                               more: seq<Command>, w: Token)
    requires s.Valid(compensates) && Accounted(s, compensates, executed, commands) && w in s.runs && !s.runs[w].Finished()
    requires AdvanceToCompleted(s.runs[w].order[s.runs[w].done]) in executed
    requires HasTurn(more, Awaiter(s.runs[w].order, s.runs[w].done, w))
    requires s.runs[w].done + 1 < |s.runs[w].order| ==> more == [AdvanceToCompleted(s.runs[w].order[s.runs[w].done + 1])]
    requires compensates(Awaiter(s.runs[w].order, s.runs[w].done, w)) ==> s.runs[w].done + 1 < |s.runs[w].order|
    ensures Accounted(Compensated(s, w), compensates, executed, commands + more)
  {
    hide AdvancedOnce, TurnsTaken, HasTurn, Situation.Valid, Compensated;
    var r, issued := Compensated(s, w), executed + commands;
    assert executed + (commands + more) == issued + more;
    CompensatedParts(s, w);
    CompensatedIsOnce(s, compensates, issued, more, w);
    forall v <- r.runs ensures TurnsTaken(issued + more, r.runs[v], v) {
      if v == w {
        NextTurnTaken(issued, more, s.runs[w], w);
      } else {
        MoreTurnsTaken(issued, more, s.runs[v], v);
      }
    }
  }

  /** A compensation whose advance has been executed is not to be advanced again. */
  lemma ExecutedIsNotPending(s: Situation, compensates: Token -> bool, executed: seq<Command>, commands: seq<Command>, t: Token)
    requires AdvancedOnce(s, compensates, executed + commands) && compensates(t) && AdvanceToCompleted(t) in executed
    ensures AdvanceToCompleted(t) !in commands
  {
    var issued := executed + commands;
    var i :| 0 <= i < |executed| && executed[i] == AdvanceToCompleted(t);
    forall j | 0 <= j < |commands| ensures commands[j] != AdvanceToCompleted(t) {
      assert issued[i] == executed[i] && issued[|executed| + j] == commands[j];
    }
  }

  /** The compensations of a run are advanced in reverse order of their registration, each behind all before it. */
  lemma {:induction false} AdvancedInOrder(s: Situation, compensates: Token -> bool, executed: seq<Command>, commands: seq<Command>,
                                           w: Token, i: nat, j: nat)
    requires s.Valid(compensates) && Accounted(s, compensates, executed, commands)
    requires w in s.runs && i < j <= s.runs[w].done && j < |s.runs[w].order|
    ensures Follows(executed + commands, AdvanceToCompleted(s.runs[w].order[i]), AdvanceToCompleted(s.runs[w].order[j]))
    decreases j
  {
    hide Follows, AdvancedOnce, Situation.Valid;
    var order := s.runs[w].order;
    if i < j - 1 {
      AdvancedInOrder(s, compensates, executed, commands, w, i, j - 1);
      OfARun(s, compensates, w, order[j - 1]);
      FollowsThrough(s, compensates, executed + commands,
                     AdvanceToCompleted(order[i]), order[j - 1], AdvanceToCompleted(order[j]));
    }
  }

  /** What is advanced at one place only comes between what it follows and what follows it. */
  lemma FollowsThrough(s: Situation, compensates: Token -> bool, issued: seq<Command>, first: Command, t: Token, last: Command)
    requires AdvancedOnce(s, compensates, issued) && compensates(t)
    requires Follows(issued, first, AdvanceToCompleted(t)) && Follows(issued, AdvanceToCompleted(t), last)
    ensures Follows(issued, first, last)
  {
    var i, j :| 0 <= i < j < |issued| && issued[i] == first && issued[j] == AdvanceToCompleted(t);
    var k, l :| 0 <= k < l < |issued| && issued[k] == AdvanceToCompleted(t) && issued[l] == last;
    assert j == k;
  }

  class StateMachine {
    const attachedTo: Token -> Activity
    const compensates: Token -> bool

    var tokens: seq<Token>
    var compensationTokens: seq<Token>
    var tokenAwaitingCompensationActivity: map<Token, Token>
    var state: map<Token, State>
    var commands: seq<Command>
    ghost var runs: map<Token, Run>
    ghost var completed: seq<Token>
    ghost var executed: seq<Command>    // the commands before those pending

    constructor (attachedTo: Token -> Activity, compensates: Token -> bool)
      ensures Now() == Situation([], [], map[], map[], map[], []) && Valid()
      ensures this.attachedTo == attachedTo && this.compensates == compensates && commands == [] && executed == []
    {
      this.attachedTo, this.compensates := attachedTo, compensates;
      tokens, compensationTokens, tokenAwaitingCompensationActivity, state, commands := [], [], map[], map[], [];
      runs, completed, executed := map[], [], [];
    }

    ghost function Now(): Situation
      reads this
    {
      Situation(tokens, compensationTokens, tokenAwaitingCompensationActivity, state, runs, completed)
    }

    ghost predicate Valid()
      reads this
    {
      Now().Valid(compensates) && AllReady(runs, state, commands) && Accounted(Now(), compensates, executed, commands)
    }

    /** The token waits for a compensation. */
    predicate Waits(w: Token)
      reads this
      ensures Waits(w) == Now().Waits(w)
    {
      exists t <- tokenAwaitingCompensationActivity :: tokenAwaitingCompensationActivity[t] == w
    }

    /** An activity has completed; its compensation is registered behind those before it. */
    method CreateCompensationToken(t: Token)
      requires Valid() && compensates(t)
      requires t !in tokens && t !in compensationTokens && t !in completed
      modifies this`compensationTokens, this`state
      ensures Valid() && Now() == Registered(old(Now()), t)
      ensures compensationTokens == old(compensationTokens) + [t] && state == old(state)[t := BUSY]
    {
      hide Situation.Valid, AllReady, Accounted;
      RegisteredKeeps(Now(), compensates, t);
      SameAccounted(Now(), Registered(Now(), t), compensates, executed, commands);
      StaysReady(runs, state, commands, state[t := BUSY], []);
      assert commands + [] == commands;
      state := state[t := BUSY];
      compensationTokens := compensationTokens + [t];
    }

    /** A token that is no compensation changes its state; while it waits it may start failing, but is otherwise busy. */
    method Update(t: Token, newState: State)
      requires Valid() && !compensates(t) && (Waits(t) ==> newState in {BUSY, FAILING})
      modifies this`state
      ensures Valid() && state == old(state)[t := newState]
    {
      hide Situation.Valid, AllReady, Accounted;
      UpdatedKeeps(Now(), compensates, t, newState);
      SameAccounted(Now(), Now().(state := state[t := newState]), compensates, executed, commands);
      if t in runs && !Waits(t) {
        IdleIsFinished(Now(), compensates, t);
      }
      StaysReady(runs, state, commands, state[t := newState], []);
      assert commands + [] == commands;
      state := state[t := newState];
    }

    /** Executes the first command as far as it concerns the states of tokens. */
    method Execute()
      requires Valid() && commands != []
      requires commands[0].UpdateToBusy? ==> !compensates(commands[0].token)
      requires commands[0].UpdateToFailed? ==> !compensates(commands[0].token) && !Waits(commands[0].token)
      modifies this`commands, this`state, this`executed
      ensures Valid() && commands == old(commands)[1..] && executed == old(executed) + [old(commands)[0]]
      ensures state == match old(commands)[0]
                case UpdateToBusy(t) => old(state)[t := BUSY]
                case UpdateToFailed(t) => old(state)[t := OTHER]
                case _ => old(state)
    {
      hide Situation.Valid, AllReady, BusyBefore, Accounted;
      var command := commands[0];
      ghost var pending := commands;
      if command.UpdateToBusy? {
        Update(command.token, BUSY);
      } else if command.UpdateToFailed? {
        Update(command.token, OTHER);
      }
      RestIsReady(runs, state, pending);
      ExecutedAccounted(Now(), compensates, executed, commands);
      commands, executed := commands[1..], executed + [command];
    }

    /** The registered compensations of an activity, or all of them, in the order of their registration. */
    method GetCompensationTokens(activity: Option<Activity>) returns (result: seq<Token>)
      requires Valid()
      ensures Distinct(result) && result == Selected(compensationTokens, attachedTo, activity)
      ensures forall t :: t in result <==> t in compensationTokens && (activity.None? || attachedTo(t) == activity.value)
      ensures OrderedAs(compensationTokens, result)
    {
      SelectedDistinct(compensationTokens, attachedTo, activity);
      SelectedInOrder(compensationTokens, attachedTo, activity);
      if activity.None? {
        AllSelected(compensationTokens, attachedTo);
        return compensationTokens;
      }
      result := [];
      for k := 0 to |compensationTokens|
        invariant result == Selected(compensationTokens[..k], attachedTo, activity)
      {
        assert ButLast(compensationTokens[..k + 1]) == compensationTokens[..k];
        if attachedTo(compensationTokens[k]) == activity.value {
          result := result + [compensationTokens[k]];
        }
      }
      assert compensationTokens[..|compensationTokens|] == compensationTokens;
    }

    /** Starts the last compensation of the list; each other one awaits the one after it, the waiting token all. */
    method Compensate(compensations: seq<Token>, waitingToken: Token)
      requires Valid() && compensations != [] && Distinct(compensations)
      requires forall t <- compensations :: t in compensationTokens
      requires !compensates(waitingToken) && !Waits(waitingToken)
      requires IsWaiting(state, waitingToken) || UpdateToBusy(waitingToken) in commands
      modifies this`tokens, this`compensationTokens, this`tokenAwaitingCompensationActivity, this`commands, this`runs
      ensures Now() == Started(old(Now()), compensations, waitingToken)
      ensures tokens == old(tokens) + [Last(compensations)]
      ensures compensationTokens == Without(old(compensationTokens), Last(compensations))
      ensures (forall t <- compensations :: t !in old(tokenAwaitingCompensationActivity)) ==> Valid()
      ensures commands == old(commands) + [AdvanceToCompleted(Last(compensations))]
    {
      hide Situation.Valid, Without, Linked, Distinct, Reversed, Situation.Unclaimed, AllReady, BusyBefore, Situation.Waits, Accounted;
      forall t <- compensations ensures Now().Unclaimed(t) <==> t !in tokenAwaitingCompensationActivity {
        ClaimedIsAwaited(Now(), compensates, t);
      }
      if forall t <- compensations :: Now().Unclaimed(t) {
        StartedKeeps(Now(), compensates, compensations, waitingToken);
      }
      ghost var run := Run(Reversed(compensations), 0);
      StartedIsReady(runs, state, commands, compensations, waitingToken);
      StartedIsAccounted(Now(), compensates, executed, commands, compensations, waitingToken);
      var compensationToken := Last(compensations);
      tokens := tokens + [compensationToken];
      compensationTokens := Without(compensationTokens, compensationToken);
      commands := commands + [AdvanceToCompleted(compensationToken)];
      LinkAwaiters(compensations, waitingToken);
      runs := runs[waitingToken := run];
    }

    /** A token at a throw event has an activity, or all, compensated; it is to be busy meanwhile, or goes on at once. */
    method Throw(activity: Option<Activity>, t: Token) returns (waits: bool)
      requires Valid() && !compensates(t) && !Waits(t)
      modifies this`tokens, this`compensationTokens, this`tokenAwaitingCompensationActivity, this`commands, this`runs
      ensures
        var list := Selected(old(compensationTokens), attachedTo, activity);
        && waits == (list != []) && Now() == (if waits then Started(old(Now()), list, t) else old(Now()))
        && (waits ==> commands == old(commands) + [UpdateToBusy(t), AdvanceToCompleted(Last(list))])
        && (!waits ==> commands == old(commands))
        && ((forall u <- list :: u !in old(tokenAwaitingCompensationActivity)) ==> Valid())
    {
      hide Situation.Valid, AllReady, Selected, Started, Situation.Waits, Accounted;
      var compensations := GetCompensationTokens(activity);
      if compensations == [] {
        return false;
      }
      StaysReady(runs, state, commands, state, [UpdateToBusy(t)]);
      OneMoreAccounted(Now(), compensates, executed, commands, UpdateToBusy(t));
      commands := commands + [UpdateToBusy(t)];
      Compensate(compensations, t);
      return true;
    }

    /** A scope fails; all that is registered is compensated before its failure is handled. */
    method Terminate(t: Token) returns (waits: bool)
      requires Valid() && !compensates(t) && !Waits(t) && t in state && state[t] == FAILING
      modifies this`tokens, this`compensationTokens, this`tokenAwaitingCompensationActivity, this`commands, this`runs
      ensures
        var list := old(compensationTokens);
        && waits == (list != []) && Now() == (if waits then Started(old(Now()), list, t) else old(Now()))
        && (waits ==> commands == old(commands) + [AdvanceToCompleted(Last(list))])
        && (!waits ==> commands == old(commands) + [UpdateToFailed(t), HandleFailure(t)])
        && ((forall u <- list :: u !in old(tokenAwaitingCompensationActivity)) ==> Valid())
    {
      hide Situation.Valid, AllReady, Started, Situation.Waits, Accounted;
      if compensationTokens != [] {
        RegisteredOnce(Now(), compensates);
        Compensate(compensationTokens, t);
        return true;
      }
      StaysReady(runs, state, commands, state, [UpdateToFailed(t), HandleFailure(t)]);
      OneMoreAccounted(Now(), compensates, executed, commands, UpdateToFailed(t));
      OneMoreAccounted(Now(), compensates, executed, commands + [UpdateToFailed(t)], HandleFailure(t));
      assert commands + [UpdateToFailed(t), HandleFailure(t)] == (commands + [UpdateToFailed(t)]) + [HandleFailure(t)];
      commands := commands + [UpdateToFailed(t), HandleFailure(t)];
      return false;
    }

    method LinkAwaiters(compensations: seq<Token>, waitingToken: Token)
      requires compensations != []
      modifies this`tokenAwaitingCompensationActivity
      ensures tokenAwaitingCompensationActivity
           == Linked(old(tokenAwaitingCompensationActivity), Run(Reversed(compensations), 0), waitingToken, |compensations|)
    {
      ghost var run := Run(Reversed(compensations), 0);
      var compensationToken := Last(compensations);
      var it: nat := |compensations| - 1;
      while it > 0
        invariant it < |compensations| && compensationToken == compensations[it]
        invariant tokenAwaitingCompensationActivity
               == Linked(old(tokenAwaitingCompensationActivity), run, waitingToken, |compensations| - 1 - it)
      {
        assert run.order[|compensations| - 1 - it] == compensations[it];
        assert run.order[|compensations| - it] == compensations[it - 1];
        tokenAwaitingCompensationActivity := tokenAwaitingCompensationActivity[compensationToken := compensations[it - 1]];
        compensationToken := compensations[it - 1];
        it := it - 1;
      }
      assert run.order[|compensations| - 1] == compensations[0];
      tokenAwaitingCompensationActivity := tokenAwaitingCompensationActivity[compensationToken := waitingToken];
    }

    /** The token that waited for a compensation has its turn, or, after the last one, continues or fails. */
    method AdvanceTokenWaitingForCompensation(waitingToken: Token)
      requires waitingToken in state && state[waitingToken] in {BUSY, FAILING}
      requires compensates(waitingToken) ==> state[waitingToken] == BUSY
      modifies this`tokens, this`compensationTokens, this`commands
      ensures tokens == if compensates(waitingToken) then old(tokens) + [waitingToken] else old(tokens)
      ensures compensationTokens
           == if compensates(waitingToken) then Without(old(compensationTokens), waitingToken) else old(compensationTokens)
      ensures state[waitingToken] == BUSY ==> commands == old(commands) + [AdvanceToCompleted(waitingToken)]
      ensures state[waitingToken] == FAILING
          ==> commands == old(commands) + [UpdateToFailed(waitingToken), HandleFailure(waitingToken)]
    {
      if state[waitingToken] == BUSY {
        if compensates(waitingToken) {
          tokens := tokens + [waitingToken];
          compensationTokens := Without(compensationTokens, waitingToken);
        }
        commands := commands + [AdvanceToCompleted(waitingToken)];
      } else {
        assert state[waitingToken] == FAILING;
        commands := commands + [UpdateToFailed(waitingToken), HandleFailure(waitingToken)];
      }
    }

    /**
     A compensation has completed, after the command that advanced it has been executed; w is the token waiting for all
     compensations of its run.
     */
    method CompleteCompensationActivity(t: Token, ghost w: Token)
      requires Valid() && w in runs && !runs[w].Finished() && runs[w].order[runs[w].done] == t
      requires AdvanceToCompleted(t) in executed
      modifies this`tokens, this`compensationTokens, this`tokenAwaitingCompensationActivity, this`commands
      modifies this`runs, this`completed
      ensures Valid() && Now() == Compensated(old(Now()), w)
      ensures
        var next := Awaiter(old(runs)[w].order, old(runs)[w].done, w);
        && next in state && state[next] in {BUSY, FAILING}
        && (state[next] == BUSY ==> commands == old(commands) + [AdvanceToCompleted(next)])
        && (state[next] == FAILING ==> commands == old(commands) + [UpdateToFailed(next), HandleFailure(next)])
    {
      hide Situation.Valid, Without, AllReady, Accounted;
      AwaiterIsWaiting(t, w);
      var waitingToken := tokenAwaitingCompensationActivity[t];
      ghost var before := Now();
      ghost var run, pending := runs[w], commands;
      CompensatedKeeps(before, compensates, w);
      AdvanceTokenWaitingForCompensation(waitingToken);
      ghost var more := commands[|pending|..];
      assert commands == pending + more;
      CompensatedIsReady(runs, state, pending, more, w);
      CompensatedIsAccounted(before, compensates, executed, pending, more, w);
      tokenAwaitingCompensationActivity := tokenAwaitingCompensationActivity - {t};
      tokens := Without(tokens, t);
      runs := runs[w := Run(run.order, run.done + 1)];
      completed := completed + [t];
    }

    /** The token awaiting the compensation is in the map, and busy or failing. */
    lemma AwaiterIsWaiting(t: Token, w: Token)
      requires Valid() && w in runs && !runs[w].Finished() && runs[w].order[runs[w].done] == t
      requires AdvanceToCompleted(t) in executed
      ensures
        var next := Awaiter(runs[w].order, runs[w].done, w);
        && t in tokenAwaitingCompensationActivity && tokenAwaitingCompensationActivity[t] == next
        && IsWaiting(state, w) && IsWaiting(state, next) && compensates(next) == (runs[w].done + 1 < |runs[w].order|)
        && (compensates(next) ==> state[next] == BUSY)
    {
      hide Situation.Valid, AllReady, TurnsTaken;
      AwaitedInRun(Now(), compensates, w);
      OfARun(Now(), compensates, w, t);
      ExecutedIsNotPending(Now(), compensates, executed, commands, t);
      AdvancedIsWaiting(runs, state, commands, w);
    }
  }

  lemma OfARun(s: Situation, compensates: Token -> bool, w: Token, t: Token)
    requires s.Valid(compensates) && w in s.runs && t in s.runs[w].order
    ensures compensates(t)
  {
  }

  lemma RegisteredOnce(s: Situation, compensates: Token -> bool)
    requires s.Valid(compensates)
    ensures Distinct(s.compensationTokens)
  {
  }

  lemma UpdatedKeeps(s: Situation, compensates: Token -> bool, t: Token, newState: State)
    requires s.Valid(compensates) && !compensates(t)
    ensures s.(state := s.state[t := newState]).Valid(compensates)
  {
    hide Situation.Chained, Situation.InOrder, Situation.Awaited, Situation.RunsApart;
    var r := s.(state := s.state[t := newState]);
    forall w <- r.runs ensures r.Chained(w) && r.InOrder(w) {
      StateIsNoPart(s, r, w);
    }
    SameRunsApart(s, r, compensates);
    forall u <- r.awaiting ensures r.Awaited(u) {
      SameAwaited(s, r, u);
    }
  }

  lemma SameRunsApart(s: Situation, r: Situation, compensates: Token -> bool)
    requires r.runs == s.runs
    ensures r.RunsApart(compensates) == s.RunsApart(compensates)
  {
  }

  lemma SameAwaited(s: Situation, r: Situation, u: Token)
    requires r.runs == s.runs && s.Awaited(u)
    ensures r.Awaited(u)
  {
    var w :| w in s.runs && s.Remains(w, u);
    assert r.Remains(w, u);
  }

  /** Whether compensations are a chain and in order does not depend on the states of tokens. */
  lemma StateIsNoPart(s: Situation, r: Situation, w: Token)
    requires r == s.(state := r.state) && w in s.runs
    ensures r.Chained(w) == s.Chained(w) && r.InOrder(w) == s.InOrder(w)
  {
  }

  lemma RestIsReady(runs: map<Token, Run>, state: map<Token, State>, commands: seq<Command>)
    requires AllReady(runs, state, commands) && commands != []
    requires commands[0].UpdateToBusy? ==> IsWaiting(state, commands[0].token)
    ensures AllReady(runs, state, commands[1..])
  {
    hide BusyBefore, IsWaiting;
    forall w <- runs | !runs[w].Finished() && !IsWaiting(state, w)
      ensures BusyBefore(commands[1..], w, runs[w].order[runs[w].done])
    {
      RestIsBusyBefore(commands, w, runs[w].order[runs[w].done]);
    }
  }

  lemma StartedIsReady(runs: map<Token, Run>, state: map<Token, State>, commands: seq<Command>, list: seq<Token>, w: Token)
    requires AllReady(runs, state, commands) && list != []
    requires IsWaiting(state, w) || UpdateToBusy(w) in commands
    ensures AllReady(runs[w := Run(Reversed(list), 0)], state, commands + [AdvanceToCompleted(Last(list))])
  {
    hide AllReady, BusyBefore;
    var first := AdvanceToCompleted(Last(list));
    StaysReady(runs, state, commands, state, [first]);
    OneMoreIsReady(runs, state, commands + [first], w, Run(Reversed(list), 0));
    if !IsWaiting(state, w) {
      BusyBeforeLast(commands, w, Last(list));
    }
  }

  lemma BusyBeforeLast(commands: seq<Command>, w: Token, t: Token)
    requires UpdateToBusy(w) in commands
    ensures BusyBefore(commands + [AdvanceToCompleted(t)], w, t)
  {
    var i :| 0 <= i < |commands| && commands[i] == UpdateToBusy(w);
    assert (commands + [AdvanceToCompleted(t)])[i] == UpdateToBusy(w);
    assert (commands + [AdvanceToCompleted(t)])[|commands|] == AdvanceToCompleted(t);
  }

  lemma OneMoreIsReady(runs: map<Token, Run>, state: map<Token, State>, commands: seq<Command>, w: Token, run: Run)
    requires AllReady(runs, state, commands)
    ensures AllReady(runs[w := run], state, commands)
       <==> run.Finished() || IsWaiting(state, w) || BusyBefore(commands, w, run.order[run.done])
  {
    hide BusyBefore, IsWaiting;
  }

  /** Once the compensation has been advanced, the token waiting is busy or failing. */
  lemma AdvancedIsWaiting(runs: map<Token, Run>, state: map<Token, State>, commands: seq<Command>, w: Token)
    requires AllReady(runs, state, commands) && w in runs && !runs[w].Finished()
    requires AdvanceToCompleted(runs[w].order[runs[w].done]) !in commands
    ensures IsWaiting(state, w)
  {
  }

  lemma CompensatedIsReady(runs: map<Token, Run>, state: map<Token, State>, commands: seq<Command>, more: seq<Command>, w: Token)
    requires AllReady(runs, state, commands) && w in runs && IsWaiting(state, w)
    ensures AllReady(runs[w := Run(runs[w].order, runs[w].done + 1)], state, commands + more)
  {
    hide AllReady, BusyBefore, IsWaiting;
    StaysReady(runs, state, commands, state, more);
    OneMoreIsReady(runs, state, commands + more, w, Run(runs[w].order, runs[w].done + 1));
  }

  /** The compensation whose turn it is is awaited, by the next one or by the token waiting for all. */
  lemma AwaitedInRun(s: Situation, compensates: Token -> bool, w: Token)
    requires s.Valid(compensates) && w in s.runs && !s.runs[w].Finished()
    ensures
      var run := s.runs[w];
      var t, next := run.order[run.done], Awaiter(run.order, run.done, w);
      && t in s.awaiting && s.awaiting[t] == next && compensates(next) == (run.done + 1 < |run.order|)
      && (compensates(next) ==> next in s.state && s.state[next] == BUSY)
  {
    assert s.Chained(w);
    var run := s.runs[w];
    assert Link(s.awaiting, run.order, w, run.done);
    if run.done + 1 < |run.order| {
      assert run.order[run.done + 1] in s.compensationTokens;
    }
  }

  /** The one token is in the list at some place before the other. */
  ghost predicate Precedes(list: seq<Token>, t: Token, u: Token) {
    exists k, l :: 0 <= k < l < |list| && list[k] == t && list[l] == u
  }

  /** What is before in the part is before in the list. */
  ghost predicate OrderedAs(list: seq<Token>, part: seq<Token>) {
    forall i, j | 0 <= i < j < |part| :: Precedes(list, part[i], part[j])
  }

  lemma PrecedesInMore(list: seq<Token>, t: Token, u: Token)
    requires list != [] && Precedes(ButLast(list), t, u)
    ensures Precedes(list, t, u)
  {
    var before := ButLast(list);
    var k, l :| 0 <= k < l < |before| && before[k] == t && before[l] == u;
    assert list[k] == t && list[l] == u;
  }

  lemma PrecedesLast(list: seq<Token>, t: Token)
    requires list != [] && t in ButLast(list)
    ensures Precedes(list, t, Last(list))
  {
    var k :| 0 <= k < |list| - 1 && ButLast(list)[k] == t;
    assert list[k] == t && list[|list| - 1] == Last(list);
  }

  lemma {:induction false} SelectedInOrder(list: seq<Token>, attachedTo: Token -> Activity, activity: Option<Activity>)
    requires Distinct(list)
    ensures OrderedAs(list, Selected(list, attachedTo, activity))
  {
    hide Precedes;
    if list != [] {
      var before, r := ButLast(list), Selected(list, attachedTo, activity);
      var s := Selected(before, attachedTo, activity);
      SelectedInOrder(before, attachedTo, activity);
      SelectedDistinct(before, attachedTo, activity);
      forall i, j | 0 <= i < j < |r| ensures Precedes(list, r[i], r[j]) {
        if j < |s| {
          assert Precedes(before, s[i], s[j]);
          PrecedesInMore(list, s[i], s[j]);
        } else {
          assert r[i] == s[i] && s[i] in s && r[j] == Last(list);
          PrecedesLast(list, s[i]);
        }
      }
    }
  }

  /** The tokens of a list attached to an activity, or all of them. */
  ghost function Selected(list: seq<Token>, attachedTo: Token -> Activity, activity: Option<Activity>): seq<Token> {
    if list == [] then []
    else
      Selected(ButLast(list), attachedTo, activity)
      + (if activity.None? || attachedTo(Last(list)) == activity.value then [Last(list)] else [])
  }

  lemma {:induction false} AllSelected(list: seq<Token>, attachedTo: Token -> Activity)
    ensures Selected(list, attachedTo, None) == list
  {
    if list != [] {
      var before, last := ButLast(list), Last(list);
      assert list == before + [last];
      AllSelected(before, attachedTo);
    }
  }

  lemma {:induction false} SelectedDistinct(list: seq<Token>, attachedTo: Token -> Activity, activity: Option<Activity>)
    requires Distinct(list)
    ensures Distinct(Selected(list, attachedTo, activity))
    ensures forall t :: t in Selected(list, attachedTo, activity)
                   <==> t in list && (activity.None? || attachedTo(t) == activity.value)
  {
    if list != [] {
      SelectedDistinct(ButLast(list), attachedTo, activity);
      assert list == ButLast(list) + [Last(list)];
      assert Last(list) !in ButLast(list);
    }
  }

  lemma SelectedOfFour(attachedTo: Token -> Activity)
    requires attachedTo(1) == attachedTo(3) == attachedTo(4) == 1 && attachedTo(2) == 2
    ensures Selected([1, 2, 3, 4], attachedTo, Some(1)) == [1, 3, 4]
  {
    assert ButLast([1, 2, 3, 4]) == [1, 2, 3] && ButLast([1, 2, 3]) == [1, 2] && ButLast([1, 2]) == [1] && ButLast([1]) == [];
    assert Selected([], attachedTo, Some(1)) == [];
    assert Selected([1], attachedTo, Some(1)) == [1];
    assert Selected([1, 2], attachedTo, Some(1)) == [1];
    assert Selected([1, 2, 3], attachedTo, Some(1)) == [1, 3];
  }

  lemma LinksOfThree(awaiting: map<Token, Token>, a: Token, b: Token, c: Token, w: Token)
    requires a != b && b != c && a != c
    ensures Linked(awaiting, Run(Reversed([a, b, c]), 0), w, 3) == awaiting[c := b][b := a][a := w]
  {
    var run := Run(Reversed([a, b, c]), 0);
    assert run.order == [c, b, a];
    assert Linked(awaiting, run, w, 1) == awaiting[c := b];
    assert Linked(awaiting, run, w, 2) == awaiting[c := b][b := a];
  }
}
