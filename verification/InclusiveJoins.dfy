/** The activation of a converging inclusive gateway: when it is safe, and that it is decided only when it is. */
module InclusiveJoins {
  import opened Basics
  import opened Progress
  import opened Sequences
  import opened SequenceFlows

  /** Where a token is: at a node, waiting at a join, on a sequence flow, or done. Boundary events are left out. */
  datatype Place = At(node: Node) | Waiting(node: Node, via: Flow) | Departed(via: Flow) | Done(node: Node)

  type Tokens = multiset<Place>

  /** A token that has departed is still at the node it departed from, but its position is the node ahead. */
  function NodeOf(p: Place): Node {
    if p.Departed? then p.via.source else p.node
  }

  function Position(p: Place): Node {
    if p.Departed? then p.via.target else p.node
  }

  /** A token blocks the gateway: it is at a predecessor or on a sequence flow leading to one. */
  predicate Blocks(predecessors: set<Node>, gateway: Node, p: Place) {
    NodeOf(p) != gateway && !p.Done? && Position(p) in predecessors
  }

  /** Looks through the tokens for one that blocks the gateway. */
  method AttemptGatewayActivation(tokens: seq<Place>, predecessors: set<Node>, gateway: Node) returns (activated: bool)
    ensures activated <==> forall p <- tokens :: !Blocks(predecessors, gateway, p)
  {
    for k := 0 to |tokens|
      invariant forall p <- tokens[..k] :: !Blocks(predecessors, gateway, p)
    {
      var token := tokens[k];
      assert token in tokens;
      if NodeOf(token) != gateway && !token.Done? {
        if Position(token) in predecessors {
          return false;
        }
      }
      assert tokens[..k + 1] == tokens[..k] + [token];
    }
    assert tokens[..|tokens|] == tokens;
    return true;
  }

  // ---------- what may happen to tokens ----------

  /** Departures, arrivals, releases from joins, ends, removals, and copies made at a split. */
  datatype Move =
    | Depart(via: Flow)
    | Arrive(via: Flow, waits: bool)
    | Release(node: Node, consumed: seq<Flow>)
    | Finish(node: Node)
    | Copy(node: Node)
    | Withdraw(place: Place)

  ghost function WaitingVia(node: Node, flows: seq<Flow>): Tokens {
    if flows == [] then multiset{} else WaitingVia(node, ButLast(flows)) + multiset{Waiting(node, Last(flows))}
  }

  ghost predicate Enabled(graph: Graph, s: Tokens, move: Move) {
    match move
    case Depart(via) => via in graph && At(via.source) in s
    case Arrive(via, _) => Departed(via) in s
    case Release(node, consumed) => consumed != [] && WaitingVia(node, consumed) <= s
    case Finish(node) => At(node) in s
    case Copy(node) => At(node) in s
    case Withdraw(place) => place in s
  }

  ghost function Arrived(via: Flow, waits: bool): Place {
    if waits then Waiting(via.target, via) else At(via.target)
  }

  ghost function Apply(s: Tokens, move: Move): Tokens {
    match move
    case Depart(via) => s - multiset{At(via.source)} + multiset{Departed(via)}
    case Arrive(via, waits) => s - multiset{Departed(via)} + multiset{Arrived(via, waits)}
    case Release(node, consumed) => s - WaitingVia(node, consumed) + multiset{At(node)}
    case Finish(node) => s - multiset{At(node)} + multiset{Done(node)}
    case Copy(node) => s + multiset{At(node)}
    case Withdraw(place) => s - multiset{place}
  }

  lemma ArriveApplied(s: Tokens, via: Flow, waits: bool)
    ensures Apply(s, Arrive(via, waits)) == s - multiset{Departed(via)} + multiset{if waits then Waiting(via.target, via) else At(via.target)}
  {
  }

  ghost predicate IsRun(graph: Graph, s: Tokens, run: seq<Move>)
    decreases |run|
  {
    run == [] || (Enabled(graph, s, run[0]) && IsRun(graph, Apply(s, run[0]), run[1..]))
  }

  ghost function After(s: Tokens, run: seq<Move>): Tokens
    decreases |run|
  {
    if run == [] then s else After(Apply(s, run[0]), run[1..])
  }

  /** A token is about to arrive at the gateway. */
  ghost predicate Approached(gateway: Node, s: Tokens) {
    exists f: Flow :: Departed(f) in s && f.target == gateway
  }

  /** Some run lets a token approach the gateway. */
  ghost predicate Approachable(graph: Graph, gateway: Node, s: Tokens) {
    exists run :: IsRun(graph, s, run) && Approached(gateway, After(s, run))
  }

  /** Some run of moves leads from the one situation to the other. */
  ghost predicate RunsTo(graph: Graph, s: Tokens, t: Tokens) {
    exists run :: IsRun(graph, s, run) && After(s, run) == t
  }

  lemma {:induction false} RunOfRuns(graph: Graph, s: Tokens, a: seq<Move>, b: seq<Move>)
    requires IsRun(graph, s, a) && IsRun(graph, After(s, a), b)
    ensures IsRun(graph, s, a + b) && After(s, a + b) == After(After(s, a), b)
    decreases |a|
  {
    hide Enabled, Apply;
    if a == [] {
      assert a + b == b;
    } else {
      RunOfRuns(graph, Apply(s, a[0]), a[1..], b);
      assert (a + b)[0] == a[0] && (a + b)[1..] == a[1..] + b;
    }
  }

  lemma RunsByMove(graph: Graph, s: Tokens, move: Move)
    requires Enabled(graph, s, move)
    ensures RunsTo(graph, s, Apply(s, move))
  {
    hide Enabled, Apply;
    var run := [move];
    assert run[1..] == [];
    assert IsRun(graph, s, run) && After(s, run) == Apply(s, move);
  }

  lemma RunsToItself(graph: Graph, s: Tokens)
    ensures RunsTo(graph, s, s)
  {
    assert IsRun(graph, s, []) && After(s, []) == s;
  }

  lemma RunsFurther(graph: Graph, s: Tokens, t: Tokens, u: Tokens)
    requires RunsTo(graph, s, t) && RunsTo(graph, t, u)
    ensures RunsTo(graph, s, u)
  {
    hide IsRun, After;
    var a :| IsRun(graph, s, a) && After(s, a) == t;
    var b :| IsRun(graph, t, b) && After(t, b) == u;
    RunOfRuns(graph, s, a, b);
  }

  lemma RunsApproach(graph: Graph, gateway: Node, s: Tokens, t: Tokens)
    requires RunsTo(graph, s, t) && Approachable(graph, gateway, t)
    ensures Approachable(graph, gateway, s)
  {
    hide IsRun, After, Approached;
    var a :| IsRun(graph, s, a) && After(s, a) == t;
    var b :| IsRun(graph, t, b) && Approached(gateway, After(t, b));
    RunOfRuns(graph, s, a, b);
  }

  ghost predicate OnFlows(graph: Graph, s: Tokens) {
    forall f: Flow :: Departed(f) in s ==> f in graph
  }

  ghost predicate Guarded(graph: Graph, gateway: Node, s: Tokens) {
    forall p <- s :: NodeOf(p) == gateway || p.Done? || !Precedes(graph, gateway, Position(p))
  }

  // ---------- safety ----------

  /** No token can reach the gateway any more. */
  ghost predicate Clear(graph: Graph, gateway: Node, s: Tokens) {
    forall p <- s :: ClearPlace(graph, gateway, p)
  }

  ghost predicate ClearPlace(graph: Graph, gateway: Node, p: Place) {
    p.Done? || (!Precedes(graph, gateway, Position(p)) && (p.Departed? ==> Position(p) != gateway && p.via in graph))
  }

  lemma DepartureIsClear(graph: Graph, gateway: Node, f: Flow)
    requires Acyclic(graph) && !Precedes(graph, gateway, f.source) && f in graph
    ensures ClearPlace(graph, gateway, Departed(f))
  {
    if f.source == gateway {
      NoReturn(graph, gateway, f);
    } else if f.target == gateway || Precedes(graph, gateway, f.target) {
      PrecedesAlong(graph, gateway, f);
    }
  }

  /** The places tokens may be at after a move. */
  lemma MovedTo(s: Tokens, move: Move, p: Place)
    requires p in Apply(s, move)
    ensures
      || p in s
      || (move.Depart? && p == Departed(move.via))
      || (move.Arrive? && p == Arrived(move.via, move.waits))
      || (move.Release? && p == At(move.node))
      || (move.Finish? && p == Done(move.node))
      || (move.Copy? && p == At(move.node))
  {
    hide WaitingVia;
  }

  lemma MoveKeepsClear(graph: Graph, gateway: Node, s: Tokens, move: Move)
    requires Acyclic(graph) && Clear(graph, gateway, s) && Enabled(graph, s, move)
    ensures Clear(graph, gateway, Apply(s, move))
  {
    hide Acyclic, Precedes, WaitingVia, Apply;
    forall p <- Apply(s, move) ensures ClearPlace(graph, gateway, p) {
      MovedTo(s, move, p);
      if p in s {
        assert ClearPlace(graph, gateway, p);
      } else if move.Depart? {
        assert ClearPlace(graph, gateway, At(move.via.source));
        DepartureIsClear(graph, gateway, move.via);
      } else if move.Arrive? {
        assert ClearPlace(graph, gateway, Departed(move.via));
      } else if move.Release? {
        LastIsWaiting(move.node, move.consumed);
        assert Waiting(move.node, Last(move.consumed)) in s;
        assert ClearPlace(graph, gateway, Waiting(move.node, Last(move.consumed)));
      }
    }
  }

  lemma LastIsWaiting(node: Node, consumed: seq<Flow>)
    requires consumed != []
    ensures Waiting(node, Last(consumed)) in WaitingVia(node, consumed)
  {
  }

  lemma {:induction false} RunKeepsClear(graph: Graph, gateway: Node, s: Tokens, run: seq<Move>)
    requires Acyclic(graph) && Clear(graph, gateway, s) && IsRun(graph, s, run)
    ensures Clear(graph, gateway, After(s, run))
    decreases |run|
  {
    if run != [] {
      MoveKeepsClear(graph, gateway, s, run[0]);
      RunKeepsClear(graph, gateway, Apply(s, run[0]), run[1..]);
    }
  }

  lemma GuardedIsClear(graph: Graph, gateway: Node, s: Tokens)
    requires Acyclic(graph) && OnFlows(graph, s) && Guarded(graph, gateway, s) && !Approached(gateway, s)
    ensures Clear(graph, gateway, s)
  {
    GatewayDoesNotPrecedeItself(graph, gateway);
    forall p <- s | !p.Done?
      ensures !Precedes(graph, gateway, Position(p)) && (p.Departed? ==> Position(p) != gateway && p.via in graph)
    {
      if p.Departed? && p.via.source == gateway {
        NoReturn(graph, gateway, p.via);
      }
    }
  }

  // ---------- and exactness ----------

  lemma RunOn(graph: Graph, gateway: Node, s: Tokens, move: Move)
    requires Enabled(graph, s, move) && Approachable(graph, gateway, Apply(s, move))
    ensures Approachable(graph, gateway, s)
  {
    RunsByMove(graph, s, move);
    RunsApproach(graph, gateway, s, Apply(s, move));
  }

  /** A token at a node that precedes the gateway may move there. */
  lemma {:induction false} MovesAlong(graph: Graph, gateway: Node, s: Tokens, route: seq<Flow>, from: Node)
    requires IsRoute(graph, gateway, route, from) && At(from) in s
    ensures Approachable(graph, gateway, s)
    decreases |route|
  {
    var f := route[0];
    assert f in route;
    var departed := Apply(s, Depart(f));
    assert Departed(f) in departed;
    if |route| == 1 {
      assert IsRun(graph, departed, []) && Approached(gateway, After(departed, []));
    } else {
      var arrived := Apply(departed, Arrive(f, false));
      assert forall g <- route[1..] :: g in route;
      MovesAlong(graph, gateway, arrived, route[1..], f.target);
      RunOn(graph, gateway, departed, Arrive(f, false));
    }
    RunOn(graph, gateway, s, Depart(f));
  }

  lemma RouteFrom(graph: Graph, gateway: Node, n: Node) returns (route: seq<Flow>)
    requires Precedes(graph, gateway, n)
    ensures IsRoute(graph, gateway, route, n)
  {
    route :| IsRoute(graph, gateway, route, n);
  }

  lemma BlockingMayApproach(graph: Graph, gateway: Node, s: Tokens, p: Place)
    requires p in s && !p.Done? && Precedes(graph, gateway, Position(p))
    ensures Approachable(graph, gateway, s)
  {
    hide Approachable, IsRoute;
    var route := RouteFrom(graph, gateway, Position(p));
    if p.At? {
      MovesAlong(graph, gateway, s, route, p.node);
    } else {
      var move := if p.Departed? then Arrive(p.via, false) else Release(p.node, [p.via]);
      EntersItsNode(graph, s, p);
      MovesAlong(graph, gateway, Apply(s, move), route, Position(p));
      RunOn(graph, gateway, s, move);
    }
  }

  lemma EntersItsNode(graph: Graph, s: Tokens, p: Place)
    requires p in s && (p.Departed? || p.Waiting?)
    ensures
      var move := if p.Departed? then Arrive(p.via, false) else Release(p.node, [p.via]);
      Enabled(graph, s, move) && At(Position(p)) in Apply(s, move)
  {
    if p.Waiting? {
      SingleWaiting(p.node, [p.via]);
    }
  }

  /**
   In an acyclic graph, a token can still arrive at the gateway exactly if the gateway is not to be activated or a
   token is on a sequence flow into it; no token is on a sequence flow once the commands have settled.
   */
  lemma ActivationIsSafe(graph: Graph, gateway: Node, s: Tokens)
    requires Acyclic(graph) && OnFlows(graph, s)
    ensures Approachable(graph, gateway, s) <==> !Guarded(graph, gateway, s) || Approached(gateway, s)
  {
    if !Guarded(graph, gateway, s) {
      var p :| p in s && NodeOf(p) != gateway && !p.Done? && Precedes(graph, gateway, Position(p));
      BlockingMayApproach(graph, gateway, s, p);
    } else if Approached(gateway, s) {
      assert IsRun(graph, s, []) && Approached(gateway, After(s, []));
    } else {
      GuardedIsClear(graph, gateway, s);
      forall run | IsRun(graph, s, run) ensures !Approached(gateway, After(s, run)) {
        RunKeepsClear(graph, gateway, s, run);
      }
    }
  }

  // ---------- the commands that let tokens advance ----------

  /**
   A token enters its node, or goes on there after an event; is copied at a diverging gateway; departs; or arrives; or
   the tokens waiting at a converging gateway are merged.
   */
  datatype Command =
    | ToAdvance(node: Node)
    | ToDiverge(node: Node)
    | ToDepart(via: Flow)
    | ToArrive(via: Flow)
    | ToMerge(gateway: Node)

  /** What a token does when it enters its node or an event occurs there. */
  datatype Outcome = Awaits | Ends | Departs(via: Flow) | Diverges

  /** The token a command is about, if it is about one. */
  ghost function Subject(c: Command): Tokens {
    match c
    case ToAdvance(node) => multiset{At(node)}
    case ToDiverge(node) => multiset{At(node)}
    case ToDepart(via) => multiset{At(via.source)}
    case ToArrive(via) => multiset{Departed(via)}
    case ToMerge(_) => multiset{}
  }

  ghost function Subjects(commands: seq<Command>): Tokens {
    if commands == [] then multiset{} else Subject(commands[0]) + Subjects(commands[1..])
  }

  lemma {:induction false} SubjectsOfConcatenation(a: seq<Command>, b: seq<Command>)
    ensures Subjects(a + b) == Subjects(a) + Subjects(b)
  {
    hide Subject;
    if a == [] {
      assert a + b == b;
    } else {
      SubjectsOfConcatenation(a[1..], b);
      assert (a + b)[0] == a[0] && (a + b)[1..] == a[1..] + b;
    }
  }

  lemma {:induction false} NoSubjectWaits(commands: seq<Command>, node: Node, via: Flow)
    ensures Waiting(node, via) !in Subjects(commands)
  {
    if commands != [] {
      NoSubjectWaits(commands[1..], node, via);
    }
  }

  /** No two commands are about one token, and every token on a sequence flow has a command. */
  ghost predicate AllPursued(tokens: Tokens, commands: seq<Command>) {
    && Subjects(commands) <= tokens
    && forall f: Flow :: tokens[Departed(f)] == Subjects(commands)[Departed(f)]
  }

  /** Tokens and commands are about the flows and the joins there are. */
  ghost predicate AllInPlace(graph: Graph, gateways: seq<Node>, diverging: set<Node>, tokens: Tokens, commands: seq<Command>) {
    && (forall p <- tokens ::
          && (p.Departed? ==> p.via in graph)
          && (p.Waiting? ==> p.node in gateways && p.via in graph && p.via.target == p.node))
    && forall c <- commands :: (c.ToDepart? || c.ToArrive? ==> c.via in graph) && (c.ToDiverge? ==> c.node in diverging)
  }

  ghost predicate NoneDeparted(tokens: Tokens) {
    forall p <- tokens :: !p.Departed?
  }

  ghost predicate Joining(tokens: Tokens, gateway: Node) {
    exists f: Flow :: Waiting(gateway, f) in tokens
  }

  ghost predicate Activable(graph: Graph, gateways: seq<Node>, tokens: Tokens, gateway: Node) {
    gateway in gateways && Guarded(graph, gateway, tokens) && Joining(tokens, gateway)
  }

  /** Activations come first and once each, and are right for the tokens there are, none of which is on a flow. */
  ghost predicate AllDecided(graph: Graph, gateways: seq<Node>, tokens: Tokens, commands: seq<Command>) {
    && (forall i, j | 0 <= i < j < |commands| && commands[j].ToMerge? :: commands[i].ToMerge? && commands[i] != commands[j])
    && (forall c <- commands | c.ToMerge? :: NoneDeparted(tokens) && Activable(graph, gateways, tokens, c.gateway))
  }

  ghost predicate AllInOrder(graph: Graph, gateways: seq<Node>, diverging: set<Node>, tokens: Tokens, commands: seq<Command>) {
    && AllInPlace(graph, gateways, diverging, tokens, commands) && AllPursued(tokens, commands)
    && AllDecided(graph, gateways, tokens, commands)
  }

  lemma FirstDecides(graph: Graph, gateways: seq<Node>, tokens: Tokens, commands: seq<Command>)
    requires AllDecided(graph, gateways, tokens, commands) && (commands == [] || !commands[0].ToMerge?)
    ensures forall c <- commands :: !c.ToMerge?
  {
  }

  lemma NothingDecided(graph: Graph, gateways: seq<Node>, tokens: Tokens, commands: seq<Command>)
    requires forall c <- commands :: !c.ToMerge?
    ensures AllDecided(graph, gateways, tokens, commands)
  {
  }

  /** Executing the first command replaces its token and appends commands about the tokens in its place. */
  lemma AdvanceKeeps(tokens: Tokens, commands: seq<Command>, advanced: Tokens, added: seq<Command>)
    requires commands != [] && AllPursued(tokens, commands)
    requires Subjects(added) <= advanced && forall f: Flow :: advanced[Departed(f)] == Subjects(added)[Departed(f)]
    ensures Subject(commands[0]) <= tokens
    ensures AllPursued(tokens - Subject(commands[0]) + advanced, commands[1..] + added)
  {
    hide Subject, Subjects;
    SubjectsOfConcatenation(commands[1..], added);
    SubjectsOfFirst(commands);
    Exchanged(tokens, Subject(commands[0]), Subjects(commands[1..]), advanced, Subjects(added));
  }

  /** Exchanging some tokens for others, of a part exchanged likewise, leaves a part, and no more where it was all before. */
  lemma Exchanged(tokens: Tokens, subject: Tokens, rest: Tokens, advanced: Tokens, added: Tokens)
    requires subject + rest <= tokens && added <= advanced
    ensures subject <= tokens && rest + added <= tokens - subject + advanced
    ensures forall p: Place | tokens[p] == (subject + rest)[p] && advanced[p] == added[p] ::
              (tokens - subject + advanced)[p] == (rest + added)[p]
  {
    forall p: Place ensures subject[p] + rest[p] <= tokens[p] {
      assert (subject + rest)[p] <= tokens[p];
    }
  }

  lemma SubjectsOfFirst(commands: seq<Command>)
    requires commands != []
    ensures Subjects(commands) == Subject(commands[0]) + Subjects(commands[1..])
  {
  }

  lemma NoSubjects()
    ensures Subjects([]) == multiset{}
  {
  }

  lemma SubjectsOfOne(c: Command)
    ensures Subjects([c]) == Subject(c)
  {
    assert [c][1..] == [];
  }

  lemma AdvanceInPlace(graph: Graph, gateways: seq<Node>, diverging: set<Node>, tokens: Tokens, commands: seq<Command>,
                       advanced: Tokens, added: seq<Command>)
    requires commands != [] && AllInPlace(graph, gateways, diverging, tokens, commands) && AllInPlace(graph, gateways, diverging, advanced, added)
    ensures AllInPlace(graph, gateways, diverging, tokens - Subject(commands[0]) + advanced, commands[1..] + added)
  {
    forall p <- tokens - Subject(commands[0]) + advanced ensures p in tokens || p in advanced {
    }
    forall c <- commands[1..] + added ensures c in commands || c in added {
    }
  }

  /** Executing a command other than a merge keeps tokens and commands in order. */
  lemma StepKeeps(graph: Graph, gateways: seq<Node>, diverging: set<Node>, tokens: Tokens, command: Command,
                  commands: seq<Command>, advanced: Tokens, added: seq<Command>)
    requires AllInOrder(graph, gateways, diverging, tokens, [command] + commands)
    requires AllInPlace(graph, gateways, diverging, advanced, added)
    requires Subjects(added) <= advanced && forall f: Flow :: advanced[Departed(f)] == Subjects(added)[Departed(f)]
    requires !command.ToMerge? && forall c <- added :: !c.ToMerge?
    ensures Subject(command) <= tokens
    ensures AllInOrder(graph, gateways, diverging, tokens - Subject(command) + advanced, commands + added)
  {
    var pending := [command] + commands;
    assert pending[0] == command && pending[1..] == commands;
    AdvanceKeeps(tokens, pending, advanced, added);
    AdvanceInPlace(graph, gateways, diverging, tokens, pending, advanced, added);
    FirstDecides(graph, gateways, tokens, pending);
    forall c <- commands + added ensures !c.ToMerge? {
      assert c in pending || c in added;
    }
    NothingDecided(graph, gateways, tokens - Subject(command) + advanced, commands + added);
  }

  lemma DepartureKeeps(graph: Graph, gateways: seq<Node>, diverging: set<Node>, tokens: Tokens, commands: seq<Command>, via: Flow)
    requires AllInOrder(graph, gateways, diverging, tokens, [ToDepart(via)] + commands)
    ensures Enabled(graph, tokens, Depart(via))
    ensures AllInOrder(graph, gateways, diverging, Apply(tokens, Depart(via)), commands + [ToArrive(via)])
  {
    hide AllPursued, AllDecided;
    assert ToDepart(via) in [ToDepart(via)] + commands;
    SubjectsOfOne(ToArrive(via));
    StepKeeps(graph, gateways, diverging, tokens, ToDepart(via), commands, multiset{Departed(via)}, [ToArrive(via)]);
  }

  lemma ArrivalKeeps(graph: Graph, gateways: seq<Node>, diverging: set<Node>, tokens: Tokens, commands: seq<Command>, via: Flow,
                     added: seq<Command>)
    requires AllInOrder(graph, gateways, diverging, tokens, [ToArrive(via)] + commands)
    requires added == [] || (added == [ToAdvance(via.target)] && via.target !in gateways)
    ensures
      var arrive := Arrive(via, via.target in gateways);
      Departed(via) in tokens && Enabled(graph, tokens, arrive) && AllInOrder(graph, gateways, diverging, Apply(tokens, arrive), commands + added)
  {
    hide AllPursued, AllDecided;
    assert ToArrive(via) in [ToArrive(via)] + commands;
    NoSubjects();
    SubjectsOfOne(ToAdvance(via.target));
    StepKeeps(graph, gateways, diverging, tokens, ToArrive(via), commands, multiset{Arrived(via, via.target in gateways)}, added);
  }

  /** A token stays where it is, and perhaps has a command again. */
  lemma StayKeeps(graph: Graph, gateways: seq<Node>, diverging: set<Node>, tokens: Tokens, commands: seq<Command>, node: Node,
                  added: seq<Command>)
    requires AllInOrder(graph, gateways, diverging, tokens, [ToAdvance(node)] + commands)
    requires added == [] || (|added| == 1 && Subject(added[0]) == multiset{At(node)})
    requires AllInPlace(graph, gateways, diverging, multiset{}, added)
    ensures At(node) in tokens && AllInOrder(graph, gateways, diverging, tokens, commands + added)
  {
    hide AllPursued, AllDecided;
    NoSubjects();
    if added != [] {
      SubjectsOfOne(added[0]);
      assert added == [added[0]];
    }
    StepKeeps(graph, gateways, diverging, tokens, ToAdvance(node), commands, multiset{At(node)}, added);
    assert tokens - multiset{At(node)} + multiset{At(node)} == tokens;
  }

  lemma EndKeeps(graph: Graph, gateways: seq<Node>, diverging: set<Node>, tokens: Tokens, commands: seq<Command>, node: Node)
    requires AllInOrder(graph, gateways, diverging, tokens, [ToAdvance(node)] + commands)
    ensures At(node) in tokens && AllInOrder(graph, gateways, diverging, Apply(tokens, Finish(node)), commands)
  {
    hide AllPursued, AllDecided;
    NoSubjects();
    StepKeeps(graph, gateways, diverging, tokens, ToAdvance(node), commands, multiset{Done(node)}, []);
    assert commands + [] == commands;
  }

  // ---------- a split keeps tokens and commands in order ----------

  ghost function Copies(node: Node, n: nat): Tokens {
    multiset{At(node)}[At(node) := n]
  }

  ghost function Departures(flows: seq<Flow>): seq<Command> {
    seq(|flows|, i requires 0 <= i < |flows| => ToDepart(flows[i]))
  }

  lemma {:induction false} SubjectsOfDepartures(node: Node, flows: seq<Flow>)
    requires forall f <- flows :: f.source == node
    ensures Subjects(Departures(flows)) == Copies(node, |flows|)
  {
    hide Subjects;
    if flows == [] {
      NoSubjects();
    } else {
      var rest := ButLast(flows);
      SubjectsOfDepartures(node, rest);
      assert Departures(flows) == Departures(rest) + [ToDepart(Last(flows))];
      SubjectsOfConcatenation(Departures(rest), [ToDepart(Last(flows))]);
      SubjectsOfOne(ToDepart(Last(flows)));
    }
  }

  /** The tokens at a diverging gateway after one of them has been copied for every flow, and been removed unless it stays. */
  ghost function Diverged(tokens: Tokens, node: Node, flows: seq<Flow>, stays: bool): Tokens {
    tokens + Copies(node, |flows|) - (if stays then multiset{} else multiset{At(node)})
  }

  /** A copy of a token is there for each of n flows; the token itself is no longer there unless it stays. */
  ghost predicate Splits(before: Tokens, node: Node, n: nat, stays: bool, after: Tokens) {
    && after[At(node)] == before[At(node)] + n - (if stays then 0 else 1)
    && forall p: Place | p != At(node) :: after[p] == before[p]
  }

  /** The commands are followed by one to depart along each of the flows. */
  ghost predicate DepartsAlong(before: seq<Command>, flows: seq<Flow>, after: seq<Command>) {
    && |after| == |before| + |flows| && before <= after
    && forall i | 0 <= i < |flows| :: after[|before| + i] == ToDepart(flows[i])
  }

  lemma DivergedSplits(tokens: Tokens, node: Node, flows: seq<Flow>, stays: bool)
    requires At(node) in tokens
    ensures Splits(tokens, node, |flows|, stays, Diverged(tokens, node, flows, stays))
  {
  }

  lemma DeparturesAlong(commands: seq<Command>, flows: seq<Flow>)
    ensures DepartsAlong(commands, flows, commands + Departures(flows))
  {
  }

  lemma {:induction false} RunsByCopying(graph: Graph, s: Tokens, node: Node, n: nat)
    requires At(node) in s
    ensures RunsTo(graph, s, s + Copies(node, n))
  {
    hide RunsTo;
    if n == 0 {
      RunsToItself(graph, s);
      assert s + Copies(node, 0) == s;
    } else {
      RunsByCopying(graph, s, node, n - 1);
      RunsByMove(graph, s + Copies(node, n - 1), Copy(node));
      assert s + Copies(node, n - 1) + multiset{At(node)} == s + Copies(node, n);
      RunsFurther(graph, s, s + Copies(node, n - 1), s + Copies(node, n));
    }
  }

  lemma RunsByDiverging(graph: Graph, s: Tokens, node: Node, flows: seq<Flow>, stays: bool)
    requires At(node) in s
    ensures RunsTo(graph, s, Diverged(s, node, flows, stays))
  {
    hide RunsTo, Copies;
    RunsByCopying(graph, s, node, |flows|);
    var copied := s + Copies(node, |flows|);
    if stays {
      assert Diverged(s, node, flows, stays) == copied;
    } else {
      RunsByMove(graph, copied, Withdraw(At(node)));
      RunsFurther(graph, s, copied, Diverged(s, node, flows, stays));
    }
  }

  lemma DivergenceKeeps(graph: Graph, gateways: seq<Node>, diverging: set<Node>, tokens: Tokens, commands: seq<Command>, node: Node,
                        flows: seq<Flow>, stays: bool)
    requires AllInOrder(graph, gateways, diverging, tokens, [ToDiverge(node)] + commands)
    requires forall f <- flows :: f in graph && f.source == node
    ensures At(node) in tokens
    ensures AllInOrder(graph, gateways, diverging, Diverged(tokens, node, flows, stays), commands + Departures(flows))
  {
    hide AllPursued, AllDecided, Subjects;
    SubjectsOfDepartures(node, flows);
    var advanced := Copies(node, |flows|) + if stays then multiset{At(node)} else multiset{};
    forall c <- Departures(flows) ensures c.ToDepart? && c.via in flows {
    }
    StepKeeps(graph, gateways, diverging, tokens, ToDiverge(node), commands, advanced, Departures(flows));
    assert tokens - multiset{At(node)} + advanced == Diverged(tokens, node, flows, stays);
  }

  // ---------- sequences of tokens ----------

  function IndexOf(tokens: seq<Place>, p: Place): (k: nat)
    requires p in tokens
    ensures k < |tokens| && tokens[k] == p
  {
    if tokens[0] == p then 0 else 1 + IndexOf(tokens[1..], p)
  }

  lemma MultisetOfReplaced(tokens: seq<Place>, k: nat, p: Place)
    requires k < |tokens|
    ensures multiset(tokens[k := p]) == multiset(tokens) - multiset{tokens[k]} + multiset{p}
  {
  }

  function Removing(tokens: seq<Place>, p: Place): (r: seq<Place>)
    requires p in tokens
    ensures multiset(r) == multiset(tokens) - multiset{p}
  {
    var k := IndexOf(tokens, p);
    assert tokens == tokens[..k] + [p] + tokens[k + 1..];
    tokens[..k] + tokens[k + 1..]
  }

  /** One waiting token for each flow into the gateway that has one. */
  ghost predicate Consumes(graph: Graph, gateway: Node, tokens: Tokens, consumed: seq<Flow>) {
    forall f: Flow :: f in consumed <==> f in graph && f.target == gateway && Waiting(gateway, f) in tokens
  }

  lemma {:induction false} WaitingViaOnly(gateway: Node, consumed: seq<Flow>, p: Place)
    ensures p in WaitingVia(gateway, consumed) ==> p.Waiting? && p.node == gateway && p.via in consumed
  {
    if consumed != [] {
      WaitingViaOnly(gateway, ButLast(consumed), p);
    }
  }

  lemma {:induction false} WaitingViaOnce(gateway: Node, consumed: seq<Flow>, f: Flow)
    requires Distinct(consumed)
    ensures WaitingVia(gateway, consumed)[Waiting(gateway, f)] <= 1
  {
    if consumed != [] {
      WaitingViaOnce(gateway, ButLast(consumed), f);
      WaitingViaOnly(gateway, ButLast(consumed), Waiting(gateway, Last(consumed)));
      assert Last(consumed) !in ButLast(consumed);
    }
  }

  lemma ConsumedAreWaiting(graph: Graph, tokens: Tokens, gateway: Node, consumed: seq<Flow>)
    requires Distinct(consumed) && Consumes(graph, gateway, tokens, consumed)
    ensures WaitingVia(gateway, consumed) <= tokens
  {
    forall p: Place ensures WaitingVia(gateway, consumed)[p] <= tokens[p] {
      WaitingViaOnly(gateway, consumed, p);
      if p in WaitingVia(gateway, consumed) {
        WaitingViaOnce(gateway, consumed, p.via);
        assert p == Waiting(gateway, p.via) && p in tokens;
      }
    }
  }

  lemma Removable(current: Tokens, removed: Tokens, p: Place, all: Tokens)
    requires current + removed == all && removed + multiset{p} <= all
    ensures p in current && (current - multiset{p}) + (removed + multiset{p}) == all
  {
    assert (removed + multiset{p})[p] <= all[p] == (current + removed)[p];
  }

  lemma SingleWaiting(gateway: Node, consumed: seq<Flow>)
    requires |consumed| == 1
    ensures WaitingVia(gateway, consumed) == multiset{Waiting(gateway, consumed[0])}
  {
    assert ButLast(consumed) == [];
  }

  lemma NoneWaiting(gateway: Node, consumed: seq<Flow>)
    ensures WaitingVia(gateway, consumed[..0]) == multiset{}
  {
  }

  lemma {:induction false} WaitingViaPrefix(gateway: Node, consumed: seq<Flow>, k: nat)
    requires k < |consumed|
    ensures WaitingVia(gateway, consumed[..k + 1]) == WaitingVia(gateway, consumed[..k]) + multiset{Waiting(gateway, consumed[k])}
    ensures WaitingVia(gateway, consumed[..k + 1]) <= WaitingVia(gateway, consumed)
    decreases |consumed|
  {
    assert ButLast(consumed[..k + 1]) == consumed[..k];
    if k < |consumed| - 1 {
      WaitingViaPrefix(gateway, ButLast(consumed), k);
      assert ButLast(consumed)[..k + 1] == consumed[..k + 1];
    } else {
      assert consumed[..k + 1] == consumed;
    }
  }

  // ---------- a merge keeps the activations still pending ----------

  lemma MergeKeepsGuard(graph: Graph, gateway: Node, other: Node, tokens: Tokens, consumed: seq<Flow>)
    requires other != gateway && Enabled(graph, tokens, Release(gateway, consumed))
    requires Guarded(graph, other, tokens) && Joining(tokens, other)
    ensures Guarded(graph, other, Apply(tokens, Release(gateway, consumed)))
    ensures Joining(Apply(tokens, Release(gateway, consumed)), other)
  {
    LastIsWaiting(gateway, consumed);
    hide WaitingVia, Precedes;
    var after := Apply(tokens, Release(gateway, consumed));
    assert Waiting(gateway, Last(consumed)) in tokens;
    forall p <- after ensures NodeOf(p) == other || p.Done? || !Precedes(graph, other, Position(p)) {
      assert p in tokens || p == At(gateway);
    }
    var f: Flow :| Waiting(other, f) in tokens;
    WaitingViaOnly(gateway, consumed, Waiting(other, f));
    assert Waiting(other, f) in after;
  }

  lemma MergeKeepsDecided(graph: Graph, gateways: seq<Node>, tokens: Tokens, commands: seq<Command>, gateway: Node, consumed: seq<Flow>)
    requires AllDecided(graph, gateways, tokens, [ToMerge(gateway)] + commands)
    requires Enabled(graph, tokens, Release(gateway, consumed))
    ensures AllDecided(graph, gateways, Apply(tokens, Release(gateway, consumed)), commands + [ToAdvance(gateway)])
  {
    hide Guarded, WaitingVia, Joining;
    var pending, rest := [ToMerge(gateway)] + commands, commands + [ToAdvance(gateway)];
    var after := Apply(tokens, Release(gateway, consumed));
    assert NoneDeparted(tokens) by { assert pending[0] in pending; }
    forall p <- after ensures !p.Departed? {
      assert p in tokens || p == At(gateway);
    }
    forall i, j | 0 <= i < j < |rest| && rest[j].ToMerge? ensures rest[i].ToMerge? && rest[i] != rest[j] {
      assert pending[i + 1] == rest[i] && pending[j + 1] == rest[j];
    }
    forall c <- rest | c.ToMerge? ensures Activable(graph, gateways, after, c.gateway) {
      var j :| 0 <= j < |commands| && commands[j] == c;
      assert pending[j + 1] == c && c in pending && c != pending[0];
      MergeKeepsGuard(graph, gateway, c.gateway, tokens, consumed);
    }
  }

  lemma MergeKeepsPursued(gateway: Node, consumed: seq<Flow>, tokens: Tokens, commands: seq<Command>)
    requires AllPursued(tokens, [ToMerge(gateway)] + commands) && WaitingVia(gateway, consumed) <= tokens
    ensures AllPursued(Apply(tokens, Release(gateway, consumed)), commands + [ToAdvance(gateway)])
  {
    hide Subjects, WaitingVia;
    var pending := [ToMerge(gateway)] + commands;
    assert pending[1..] == commands;
    SubjectsOfConcatenation(commands, [ToAdvance(gateway)]);
    SubjectsOfFirst(pending);
    SubjectsOfOne(ToAdvance(gateway));
    assert Subjects(pending) == Subjects(commands);
    var removed := WaitingVia(gateway, consumed);
    forall p: Place ensures Subjects(commands)[p] <= (tokens - removed)[p] && (p.Departed? ==> (tokens - removed)[p] == tokens[p]) {
      WaitingViaOnly(gateway, consumed, p);
      if p.Waiting? {
        NoSubjectWaits(commands, p.node, p.via);
      }
    }
  }

  lemma DivergesThere(graph: Graph, gateways: seq<Node>, diverging: set<Node>, tokens: Tokens, commands: seq<Command>, node: Node)
    requires AllInOrder(graph, gateways, diverging, tokens, [ToDiverge(node)] + commands)
    ensures node in diverging
  {
    assert ToDiverge(node) in [ToDiverge(node)] + commands;
  }

  lemma PursuedIsSettled(graph: Graph, gateways: seq<Node>, diverging: set<Node>, tokens: Tokens)
    requires AllInOrder(graph, gateways, diverging, tokens, [])
    ensures NoneDeparted(tokens)
  {
    forall p <- tokens ensures !p.Departed? {
      assert p.Departed? ==> tokens[p] == tokens[Departed(p.via)] == 0;
    }
  }

  /** A gateway that may be activated is, behind the others. */
  lemma ActivationKeeps(graph: Graph, gateways: seq<Node>, diverging: set<Node>, tokens: Tokens, commands: seq<Command>, gateway: Node)
    requires AllInOrder(graph, gateways, diverging, tokens, commands) && NoneDeparted(tokens)
    requires forall c <- commands :: c.ToMerge? && c != ToMerge(gateway)
    requires Activable(graph, gateways, tokens, gateway)
    ensures AllInOrder(graph, gateways, diverging, tokens, commands + [ToMerge(gateway)])
  {
    hide Guarded, Joining, Subjects;
    SubjectsOfConcatenation(commands, [ToMerge(gateway)]);
    SubjectsOfOne(ToMerge(gateway));
    assert Subjects(commands + [ToMerge(gateway)]) == Subjects(commands);
  }

  /** A merge keeps tokens and commands in order, in particular the other activations that are pending. */
  lemma MergeKeeps(graph: Graph, gateways: seq<Node>, diverging: set<Node>, tokens: Tokens, commands: seq<Command>, gateway: Node,
                   consumed: seq<Flow>)
    requires AllInOrder(graph, gateways, diverging, tokens, [ToMerge(gateway)] + commands)
    requires Enabled(graph, tokens, Release(gateway, consumed))
    ensures AllInOrder(graph, gateways, diverging, Apply(tokens, Release(gateway, consumed)), commands + [ToAdvance(gateway)])
  {
    hide WaitingVia, AllInPlace, AllPursued, AllDecided;
    MergeKeepsDecided(graph, gateways, tokens, commands, gateway, consumed);
    MergeKeepsPursued(gateway, consumed, tokens, commands);
    MergeKeepsPlace(graph, gateways, diverging, tokens, commands, gateway, WaitingVia(gateway, consumed));
  }

  lemma MergeKeepsPlace(graph: Graph, gateways: seq<Node>, diverging: set<Node>, tokens: Tokens, commands: seq<Command>,
                        gateway: Node, removed: Tokens)
    requires AllInPlace(graph, gateways, diverging, tokens, [ToMerge(gateway)] + commands)
    ensures AllInPlace(graph, gateways, diverging, tokens - removed + multiset{At(gateway)}, commands + [ToAdvance(gateway)])
  {
    forall p <- tokens - removed + multiset{At(gateway)} ensures p in tokens || p == At(gateway) {
    }
    forall c <- commands + [ToAdvance(gateway)] ensures c in [ToMerge(gateway)] + commands || c == ToAdvance(gateway) {
    }
  }

  /** An activation that is pending is safe. */
  lemma PendingIsSafe(graph: Graph, gateways: seq<Node>, diverging: set<Node>, tokens: Tokens, commands: seq<Command>, gateway: Node)
    requires Acyclic(graph) && AllInOrder(graph, gateways, diverging, tokens, commands) && ToMerge(gateway) in commands
    ensures Joining(tokens, gateway) && !Approachable(graph, gateway, tokens)
  {
    hide Approachable, Guarded, Acyclic, Joining, AllPursued;
    assert Activable(graph, gateways, tokens, gateway);
    ActivationIsSafe(graph, gateway, tokens);
  }

  // ---------- the state machine ----------

  /** The effort the commands may still cause, and that of the tokens waiting at joins. */
  ghost function CommandEffort(graph: Graph): Command -> nat {
    (c: Command) =>
      match c
      case ToAdvance(node) => Effort(graph, node)
      case ToDiverge(node) => Effort(graph, node) - 1
      case ToDepart(via) => 3 + Effort(graph, via.target)
      case ToArrive(via) => 2 + Effort(graph, via.target)
      case ToMerge(_) => 0
  }

  ghost function PlaceEffort(graph: Graph): Place -> nat {
    (p: Place) => if p.Waiting? then 1 + Effort(graph, p.node) else 0
  }

  ghost predicate LeadsOut(graph: Graph, diverging: set<Node>, n: Node, outcome: Outcome) {
    && (outcome.Departs? ==> outcome.via in graph && outcome.via.source == n)
    && (outcome.Diverges? ==> n in diverging)
  }

  ghost predicate Branches(graph: Graph, n: Node, flows: seq<Flow>) {
    flows != [] && Distinct(flows) && forall f <- flows :: f in graph && f.source == n
  }

  ghost predicate IsPrepared(graph: Graph, gateways: seq<Node>, predecessors: map<Node, set<Node>>, diverging: set<Node>,
                             outcome: (Node, nat) -> Outcome, branches: (Node, nat) -> seq<Flow>) {
    && Acyclic(graph) && Distinct(graph) && Distinct(gateways)
    && (forall g <- gateways :: g in predecessors && forall n :: n in predecessors[g] <==> Precedes(graph, g, n))
    && (forall n: Node, k: nat :: LeadsOut(graph, diverging, n, outcome(n, k)))
    && forall n <- diverging, k: nat :: Branches(graph, n, branches(n, k))
  }

  /** The tokens, the commands pending and the number of commands executed so far. */
  datatype Situation = Situation(tokens: Tokens, commands: seq<Command>, executed: nat)

  /** At the gateway, one waiting token of each flow that has any is replaced by a token there. */
  ghost predicate Merges(graph: Graph, gateway: Node, before: Tokens, after: Tokens) {
    && after[At(gateway)] == before[At(gateway)] + 1
    && forall p: Place | p != At(gateway) :: after[p] == before[p] - (if ToConsume(graph, gateway, before, p) then 1 else 0)
  }

  ghost predicate ToConsume(graph: Graph, gateway: Node, tokens: Tokens, p: Place) {
    p in tokens && p.Waiting? && p.node == gateway && p.via in graph && p.via.target == gateway
  }

  lemma ReleaseMerges(graph: Graph, gateway: Node, tokens: Tokens, consumed: seq<Flow>)
    requires Consumes(graph, gateway, tokens, consumed) && Distinct(consumed)
    ensures Merges(graph, gateway, tokens, Apply(tokens, Release(gateway, consumed)))
  {
    hide Distinct, WaitingVia;
    ConsumedAreWaiting(graph, tokens, gateway, consumed);
    forall p: Place ensures WaitingVia(gateway, consumed)[p] == if ToConsume(graph, gateway, tokens, p) then 1 else 0 {
      WaitingViaOnly(gateway, consumed, p);
      if ToConsume(graph, gateway, tokens, p) {
        WaitingViaOnce(gateway, consumed, p.via);
        ConsumedIsListed(gateway, consumed, p.via);
      }
    }
  }

  lemma {:induction false} ConsumedIsListed(gateway: Node, consumed: seq<Flow>, f: Flow)
    requires f in consumed
    ensures Waiting(gateway, f) in WaitingVia(gateway, consumed)
  {
    assert consumed == ButLast(consumed) + [Last(consumed)];
    if f != Last(consumed) {
      ConsumedIsListed(gateway, ButLast(consumed), f);
    }
  }

  /**
   The state machine of a scope. What a token does at a node, and along which flows a diverging gateway sends copies,
   depends on data: both are arbitrary functions of the number of commands executed.
   */
  class StateMachine {
    const graph: Graph
    const gateways: seq<Node>
    const predecessors: map<Node, set<Node>>
    const activities: set<Node>
    const diverging: set<Node>
    const eventBased: set<Node>
    const outcome: (Node, nat) -> Outcome
    const branches: (Node, nat) -> seq<Flow>

    var tokens: seq<Place>
    var commands: seq<Command>
    var executed: nat

    /** The gateways that have been activated. */
    ghost var activations: seq<Node>

    ghost predicate Prepared() {
      IsPrepared(graph, gateways, predecessors, diverging, outcome, branches)
    }


    /** No token can reach a gateway that has been activated. */
    ghost predicate Safe()
      reads this
    {
      forall g <- activations :: !Approachable(graph, g, multiset(tokens))
    }

    /** The tokens are in order, given the commands still to be executed. */
    ghost predicate InOrder(pending: seq<Command>)
      reads this
    {
      Prepared() && Safe() && AllInOrder(graph, gateways, diverging, multiset(tokens), pending)
    }

    ghost predicate Valid()
      reads this
    {
      InOrder(commands)
    }

    ghost function Now(): Situation
      reads this
    {
      Situation(multiset(tokens), commands, executed)
    }

    /** What the command changes of the tokens, and the commands behind those pending before. */
    ghost predicate Executes(c: Command, s: Situation, t: Situation) {
      && t.executed == s.executed
      && match c
         case ToAdvance(node) =>
           (match outcome(node, s.executed)
            case Awaits => t.tokens == s.tokens && t.commands == s.commands
            case Ends => t.tokens == s.tokens - multiset{At(node)} + multiset{Done(node)} && t.commands == s.commands
            case Departs(via) => t.tokens == s.tokens && t.commands == s.commands + [ToDepart(via)]
            case Diverges => t.tokens == s.tokens && t.commands == s.commands + [ToDiverge(node)])
         case ToDiverge(node) =>
           && Splits(s.tokens, node, |branches(node, s.executed)|, node in eventBased, t.tokens)
           && DepartsAlong(s.commands, branches(node, s.executed), t.commands)
         case ToDepart(via) =>
           && t.tokens == s.tokens - multiset{At(via.source)} + multiset{Departed(via)}
           && t.commands == s.commands + [ToArrive(via)]
         case ToArrive(via) =>
           var place := if via.target in gateways then Waiting(via.target, via) else At(via.target);
           && t.tokens == s.tokens - multiset{Departed(via)} + multiset{place}
           && t.commands == s.commands + (if via.target in gateways || via.target in activities then [] else [ToAdvance(via.target)])
         case ToMerge(gateway) =>
           Merges(graph, gateway, s.tokens, t.tokens) && t.commands == s.commands + [ToAdvance(gateway)]
    }

    /** The first command is executed, having been removed. */
    ghost predicate Steps(s: Situation, t: Situation) {
      s.commands != [] && Executes(s.commands[0], Situation(s.tokens, s.commands[1..], s.executed + 1), t)
    }

    /** Nothing is pending, and then the activation of exactly the gateways that may be activated is. */
    ghost predicate Decides(s: Situation, t: Situation) {
      && s.commands == [] && t.tokens == s.tokens && t.executed == s.executed
      && (forall c <- t.commands :: c.ToMerge?)
      && forall g: Node :: ToMerge(g) in t.commands <==> Activable(graph, gateways, s.tokens, g)
    }

    /** The situations follow each other by executing commands and, unless no gateway is to be activated, by decisions. */
    ghost predicate Follow(situations: seq<Situation>, deciding: bool) {
      forall i | 0 < i < |situations| ::
        Steps(situations[i - 1], situations[i]) || (deciding && Decides(situations[i - 1], situations[i]))
    }

    ghost predicate Leads(s: Situation, t: Situation, deciding: bool) {
      exists situations: seq<Situation> ::
        situations != [] && situations[0] == s && Last(situations) == t && Follow(situations, deciding)
    }

    lemma LeadsToItself(s: Situation, deciding: bool)
      ensures Leads(s, s, deciding)
    {
      assert Last([s]) == s && Follow([s], deciding);
    }

    lemma LeadsFurther(s: Situation, t: Situation, u: Situation, deciding: bool)
      requires Leads(s, t, deciding) && (Steps(t, u) || (deciding && Decides(t, u)))
      ensures Leads(s, u, deciding)
    {
      hide Steps, Decides;
      var a: seq<Situation> :| a != [] && a[0] == s && Last(a) == t && Follow(a, deciding);
      var b := a + [u];
      assert b[0] == s && Last(b) == u && Follow(b, deciding);
    }

    lemma LeadsThrough(s: Situation, t: Situation, u: Situation)
      requires Leads(s, t, true) && Leads(t, u, false)
      ensures Leads(s, u, true)
    {
      hide Steps, Decides;
      var a: seq<Situation> :| a != [] && a[0] == s && Last(a) == t && Follow(a, true);
      var b: seq<Situation> :| b != [] && b[0] == t && Last(b) == u && Follow(b, false);
      var c := a + b[1..];
      forall i | 0 < i < |c| ensures Steps(c[i - 1], c[i]) || Decides(c[i - 1], c[i]) {
        if i >= |a| {
          assert c[i - 1] == b[i - |a|] && c[i] == b[i - |a| + 1];
        }
      }
      assert c[0] == s && Last(c) == u && Follow(c, true);
    }

    /** Every command executed decreases the effort of the commands and of the tokens waiting at joins. */
    ghost function Potential(): nat
      reads this
    {
      Total(tokens, PlaceEffort(graph)) + Total(commands, CommandEffort(graph))
    }

    constructor (graph: Graph, gateways: seq<Node>, predecessors: map<Node, set<Node>>, activities: set<Node>,
                 diverging: set<Node>, eventBased: set<Node>, outcome: (Node, nat) -> Outcome,
                 branches: (Node, nat) -> seq<Flow>, start: Node)
      requires IsPrepared(graph, gateways, predecessors, diverging, outcome, branches)
      ensures Valid() && tokens == [At(start)] && commands == [ToAdvance(start)] && activations == []
      ensures this.graph == graph && this.gateways == gateways
    {
      this.graph, this.gateways, this.predecessors, this.activities := graph, gateways, predecessors, activities;
      this.diverging, this.eventBased, this.outcome, this.branches := diverging, eventBased, outcome, branches;
      tokens, commands, executed, activations := [At(start)], [ToAdvance(start)], 0, [];
      SubjectsOfOne(ToAdvance(start));
    }

    /** Gateways that have been activated stay out of reach. */
    lemma StaysSafe(s: Tokens, t: Tokens)
      requires RunsTo(graph, s, t) && forall g <- activations :: !Approachable(graph, g, s)
      ensures forall g <- activations :: !Approachable(graph, g, t)
    {
      hide RunsTo, Approachable;
      forall g <- activations ensures !Approachable(graph, g, t) {
        if Approachable(graph, g, t) {
          RunsApproach(graph, g, s, t);
        }
      }
    }

    lemma MoveStaysSafe(s: Tokens, move: Move)
      requires Enabled(graph, s, move) && forall g <- activations :: !Approachable(graph, g, s)
      ensures RunsTo(graph, s, Apply(s, move)) && forall g <- activations :: !Approachable(graph, g, Apply(s, move))
    {
      hide RunsTo, Approachable, Apply, Enabled;
      RunsByMove(graph, s, move);
      StaysSafe(s, Apply(s, move));
    }

    /** An event that a token awaits has occurred: the token is to go on. */
    method Resume(node: Node)
      requires Valid() && Subjects(commands)[At(node)] < multiset(tokens)[At(node)]
      modifies this`commands
      ensures Valid() && commands == old(commands) + [ToAdvance(node)]
    {
      hide Approachable, Guarded, Acyclic, IsPrepared;
      SubjectsOfConcatenation(commands, [ToAdvance(node)]);
      SubjectsOfOne(ToAdvance(node));
      hide Subjects;
      commands := commands + [ToAdvance(node)];
    }

    method Replace(p: Place, q: Place)
      requires p in tokens
      modifies this`tokens
      ensures multiset(tokens) == old(multiset(tokens)) - multiset{p} + multiset{q}
      ensures Total(tokens, PlaceEffort(graph)) + PlaceEffort(graph)(p) == old(Total(tokens, PlaceEffort(graph))) + PlaceEffort(graph)(q)
    {
      var k := IndexOf(tokens, p);
      MultisetOfReplaced(tokens, k, q);
      TotalOfReplaced(tokens, k, q, PlaceEffort(graph));
      tokens := tokens[k := q];
    }

    method Add(p: Place)
      modifies this`tokens
      ensures multiset(tokens) == old(multiset(tokens)) + multiset{p}
      ensures Total(tokens, PlaceEffort(graph)) == old(Total(tokens, PlaceEffort(graph))) + PlaceEffort(graph)(p)
    {
      TotalOfAppended(tokens, p, PlaceEffort(graph));
      tokens := tokens + [p];
    }

    method Remove(p: Place)
      requires p in tokens
      modifies this`tokens
      ensures multiset(tokens) == old(multiset(tokens)) - multiset{p}
      ensures Total(tokens, PlaceEffort(graph)) + PlaceEffort(graph)(p) == old(Total(tokens, PlaceEffort(graph)))
    {
      TotalOfRemoved(tokens, IndexOf(tokens, p), PlaceEffort(graph));
      tokens := Removing(tokens, p);
    }

    method Enqueue(c: Command)
      modifies this`commands
      ensures commands == old(commands) + [c]
      ensures Total(commands, CommandEffort(graph)) == old(Total(commands, CommandEffort(graph))) + CommandEffort(graph)(c)
    {
      TotalOfAppended(commands, c, CommandEffort(graph));
      commands := commands + [c];
    }

    /** A token departs along a flow, on which a command lets it arrive. */
    method AdvanceToDeparted(via: Flow)
      requires InOrder([ToDepart(via)] + commands)
      modifies this`tokens, this`commands
      ensures RunsTo(graph, old(multiset(tokens)), multiset(tokens))
      ensures Valid() && Potential() < old(Potential()) + CommandEffort(graph)(ToDepart(via))
      ensures Executes(ToDepart(via), old(Now()), Now())
    {
      hide RunsTo, Approachable, AllInOrder, IsPrepared, Total, Effort;
      DepartureKeeps(graph, gateways, diverging, multiset(tokens), commands, via);
      MoveStaysSafe(multiset(tokens), Depart(via));
      Replace(At(via.source), Departed(via));
      Enqueue(ToArrive(via));
    }

    /** A token arrives; it waits at a join, awaits an event at an activity, and enters any other node. */
    method AdvanceToArrived(via: Flow)
      requires InOrder([ToArrive(via)] + commands)
      modifies this`tokens, this`commands
      ensures RunsTo(graph, old(multiset(tokens)), multiset(tokens))
      ensures Valid() && Potential() < old(Potential()) + CommandEffort(graph)(ToArrive(via))
      ensures Executes(ToArrive(via), old(Now()), Now())
    {
      hide RunsTo, Approachable, AllInOrder, IsPrepared, Total, Effort, Executes, Apply, Enabled;
      ghost var before := Now();
      var place := if via.target in gateways then Waiting(via.target, via) else At(via.target);
      ArriveApplied(multiset(tokens), via, via.target in gateways);
      ghost var entry := if via.target in gateways || via.target in activities then [] else [ToAdvance(via.target)];
      ArrivalKeeps(graph, gateways, diverging, multiset(tokens), commands, via, entry);
      MoveStaysSafe(multiset(tokens), Arrive(via, via.target in gateways));
      Replace(Departed(via), place);
      assert commands + [] == commands;
      ArrivalExecutes(via, before, Situation(multiset(tokens), before.commands + entry, executed));
      if via.target in gateways {
        return;
      }
      if via.target !in activities {
        Enqueue(ToAdvance(via.target));
      }
    }

    lemma ArrivalExecutes(via: Flow, s: Situation, t: Situation)
      requires t.executed == s.executed
      requires t.tokens == s.tokens - multiset{Departed(via)}
                           + multiset{if via.target in gateways then Waiting(via.target, via) else At(via.target)}
      requires t.commands == s.commands + if via.target in gateways || via.target in activities then [] else [ToAdvance(via.target)]
      ensures Executes(ToArrive(via), s, t)
    {
    }

    /** A token enters its node, or goes on there. */
    method Advance(node: Node)
      requires InOrder([ToAdvance(node)] + commands)
      modifies this`tokens, this`commands
      ensures RunsTo(graph, old(multiset(tokens)), multiset(tokens))
      ensures Valid() && Potential() < old(Potential()) + CommandEffort(graph)(ToAdvance(node))
      ensures Executes(ToAdvance(node), old(Now()), Now())
    {
      hide RunsTo, Approachable, AllInOrder, IsPrepared, Acyclic, Total, Effort;
      OutcomeLeadsOut(node);
      assert commands + [] == commands;
      match outcome(node, executed) {
        case Awaits =>
          RunsToItself(graph, multiset(tokens));
          StayKeeps(graph, gateways, diverging, multiset(tokens), commands, node, []);
        case Ends =>
          AdvanceToDone(node);
        case Departs(via) =>
          EffortOfDeparture(via);
          AdvanceToDeparting(node, ToDepart(via));
        case Diverges =>
          AdvanceToDeparting(node, ToDiverge(node));
      }
    }

    method AdvanceToDone(node: Node)
      requires InOrder([ToAdvance(node)] + commands)
      modifies this`tokens
      ensures RunsTo(graph, old(multiset(tokens)), multiset(tokens))
      ensures Valid() && Potential() < old(Potential()) + CommandEffort(graph)(ToAdvance(node))
      ensures multiset(tokens) == old(multiset(tokens)) - multiset{At(node)} + multiset{Done(node)}
    {
      hide RunsTo, Approachable, AllInOrder, IsPrepared, Total, Effort;
      EndKeeps(graph, gateways, diverging, multiset(tokens), commands, node);
      MoveStaysSafe(multiset(tokens), Finish(node));
      Replace(At(node), Done(node));
    }

    /** A command lets a token leave its node. */
    method AdvanceToDeparting(node: Node, c: Command)
      requires InOrder([ToAdvance(node)] + commands)
      requires Subject(c) == multiset{At(node)} && AllInPlace(graph, gateways, diverging, multiset{}, [c])
      requires CommandEffort(graph)(c) < CommandEffort(graph)(ToAdvance(node))
      modifies this`commands
      ensures RunsTo(graph, old(multiset(tokens)), multiset(tokens))
      ensures Valid() && Potential() < old(Potential()) + CommandEffort(graph)(ToAdvance(node))
      ensures commands == old(commands) + [c]
    {
      hide RunsTo, Approachable, AllInOrder, IsPrepared, Total, Effort, Subject;
      RunsToItself(graph, multiset(tokens));
      StayKeeps(graph, gateways, diverging, multiset(tokens), commands, node, [c]);
      Enqueue(c);
    }

    lemma OutcomeLeadsOut(node: Node)
      requires Prepared()
      ensures LeadsOut(graph, diverging, node, outcome(node, executed))
    {
      hide LeadsOut, Acyclic;
    }

    lemma EffortOfDeparture(via: Flow)
      requires Prepared() && via in graph
      ensures 5 + Effort(graph, via.target) <= Effort(graph, via.source)
    {
      EffortOfFlow(graph, via);
      EffortOfSome(graph, via.source, [via]);
      TotalOfAppended([], via, FlowEffort(graph, via.source));
      assert [] + [via] == [via];
    }

    /** The predecessors determined beforehand tell whether a token may still reach the gateway. */
    lemma GuardIsExact(g: Node)
      requires Prepared() && g in gateways
      ensures (forall p <- tokens :: !Blocks(predecessors[g], g, p)) <==> Guarded(graph, g, multiset(tokens))
      ensures (exists p <- tokens :: p.Waiting? && p.node == g) <==> Joining(multiset(tokens), g)
    {
      hide Precedes, Acyclic;
      assert forall p :: p in tokens <==> p in multiset(tokens);
      if exists p <- tokens :: p.Waiting? && p.node == g {
        var p :| p in tokens && p.Waiting? && p.node == g;
        assert Waiting(g, p.via) in tokens;
      }
    }

    /** Copies are created first, and then a command for each of them to depart. */
    method CreateTokenCopies(node: Node, flows: seq<Flow>)
      requires Acyclic(graph) && forall f <- flows :: f in graph && f.source == node
      modifies this`tokens, this`commands
      ensures multiset(tokens) == old(multiset(tokens)) + Copies(node, |flows|) && commands == old(commands) + Departures(flows)
      ensures Potential() == old(Potential()) + Total(flows, FlowEffort(graph, node))
    {
      hide Acyclic, Total, Effort, Departures;
      for k := 0 to |flows|
        invariant multiset(tokens) == old(multiset(tokens)) + Copies(node, k) && commands == old(commands)
        invariant Total(tokens, PlaceEffort(graph)) == old(Total(tokens, PlaceEffort(graph)))
      {
        Add(At(node));
      }
      EnqueueDepartures(node, flows);
    }

    method EnqueueDepartures(node: Node, flows: seq<Flow>)
      requires Acyclic(graph) && forall f <- flows :: f in graph && f.source == node
      modifies this`commands
      ensures commands == old(commands) + Departures(flows)
      ensures Total(commands, CommandEffort(graph)) == old(Total(commands, CommandEffort(graph))) + Total(flows, FlowEffort(graph, node))
    {
      hide Acyclic, Total, Effort, FlowEffort;
      NoTotal(FlowEffort(graph, node));
      for k := 0 to |flows|
        invariant commands == old(commands) + Departures(flows[..k])
        invariant Total(commands, CommandEffort(graph))
                  == old(Total(commands, CommandEffort(graph))) + Total(flows[..k], FlowEffort(graph, node))
      {
        Enqueue(ToDepart(flows[k]));
        assert flows[..k + 1] == flows[..k] + [flows[k]];
        assert flows[k] in flows;
        TotalOfAppended(flows[..k], flows[k], FlowEffort(graph, node));
        EffortOfFlow(graph, flows[k]);
        assert Departures(flows[..k + 1]) == Departures(flows[..k]) + [ToDepart(flows[k])];
      }
      assert flows[..|flows|] == flows;
    }

    /** A token is copied for every flow to be taken; it stays only at an event-based gateway. */
    method HandleDivergingGateway(node: Node)
      requires InOrder([ToDiverge(node)] + commands)
      modifies this`tokens, this`commands
      ensures RunsTo(graph, old(multiset(tokens)), multiset(tokens))
      ensures Valid() && Potential() < old(Potential()) + CommandEffort(graph)(ToDiverge(node))
      ensures Executes(ToDiverge(node), old(Now()), Now())
    {
      hide RunsTo, Approachable, AllInOrder, IsPrepared, Total, Effort, Copies, Departures, Branches, Splits, DepartsAlong;
      ghost var before := multiset(tokens);
      DivergesThere(graph, gateways, diverging, before, commands, node);
      var flows := branches(node, executed);
      BranchesLeadOut(node);
      DivergenceKeeps(graph, gateways, diverging, before, commands, node, flows, node in eventBased);
      RunsByDiverging(graph, before, node, flows, node in eventBased);
      StaysSafe(before, Diverged(before, node, flows, node in eventBased));
      EffortOfSome(graph, node, flows);
      CreateTokenCopies(node, flows);
      assert At(node) in multiset(tokens);
      if node !in eventBased {
        Remove(At(node));
      }
      assert multiset(tokens) == Diverged(before, node, flows, node in eventBased);
      DivergedSplits(before, node, flows, node in eventBased);
      DeparturesAlong(old(commands), flows);
    }

    lemma BranchesLeadOut(node: Node)
      requires Prepared() && node in diverging
      ensures Acyclic(graph) && Distinct(branches(node, executed))
      ensures forall f <- branches(node, executed) :: f in graph && f.source == node
    {
      hide Acyclic;
      assert Branches(graph, node, branches(node, executed));
    }

    /** Replaces one waiting token for each flow that has any by a token at the gateway, which a command lets enter. */
    method CreateMergedToken(gateway: Node) returns (consumed: seq<Flow>)
      requires InOrder([ToMerge(gateway)] + commands)
      modifies this`tokens, this`commands, this`activations
      ensures RunsTo(graph, old(multiset(tokens)), multiset(tokens))
      ensures Valid() && Potential() < old(Potential()) + CommandEffort(graph)(ToMerge(gateway))
      ensures Consumes(graph, gateway, old(multiset(tokens)), consumed) && Distinct(consumed) && consumed != []
      ensures WaitingVia(gateway, consumed) <= old(multiset(tokens))
      ensures Executes(ToMerge(gateway), old(Now()), Now()) && activations == old(activations) + [gateway]
    {
      hide RunsTo, Approachable, AllInOrder, IsPrepared, WaitingVia, Total, Effort, Consumes, Distinct, Merges;
      MergeIsSafe(gateway);
      consumed := Consumed(gateway);
      ReleaseMerges(graph, gateway, multiset(tokens), consumed);
      ConsumedAreWaiting(graph, multiset(tokens), gateway, consumed);
      MergeKeeps(graph, gateways, diverging, multiset(tokens), commands, gateway, consumed);
      activations := activations + [gateway];
      MoveStaysSafe(multiset(tokens), Release(gateway, consumed));
      MergeTokens(gateway, consumed);
      Enqueue(ToAdvance(gateway));
    }

    lemma MergeIsSafe(gateway: Node)
      requires InOrder([ToMerge(gateway)] + commands)
      ensures !Approachable(graph, gateway, multiset(tokens))
    {
      hide Approachable, Acyclic, AllInOrder;
      ghost var pending := [ToMerge(gateway)] + commands;
      assert pending[0] in pending;
      PendingIsSafe(graph, gateways, diverging, multiset(tokens), pending, gateway);
    }

    /** A single token is released, several are removed and another one is added. */
    method MergeTokens(gateway: Node, consumed: seq<Flow>)
      requires WaitingVia(gateway, consumed) <= multiset(tokens) && consumed != []
      modifies this`tokens
      ensures multiset(tokens) == old(multiset(tokens)) - WaitingVia(gateway, consumed) + multiset{At(gateway)}
      ensures Total(tokens, PlaceEffort(graph)) + 1 + Effort(graph, gateway) <= old(Total(tokens, PlaceEffort(graph)))
    {
      hide WaitingVia, Total, Effort;
      if |consumed| == 1 {
        SingleWaiting(gateway, consumed);
        Replace(Waiting(gateway, consumed[0]), At(gateway));
      } else {
        RemoveTokens(gateway, consumed);
        Add(At(gateway));
      }
    }

    method Consumed(gateway: Node) returns (consumed: seq<Flow>)
      requires InOrder([ToMerge(gateway)] + commands)
      ensures Consumes(graph, gateway, multiset(tokens), consumed) && Distinct(consumed) && consumed != []
    {
      ghost var pending := [ToMerge(gateway)] + commands;
      assert pending[0] in pending && Joining(multiset(tokens), gateway);
      hide AllPursued, AllDecided, Approachable, Acyclic;
      consumed := [];
      for k := 0 to |graph|
        invariant Distinct(consumed)
        invariant forall f: Flow :: f in consumed <==> f in graph[..k] && f.target == gateway && Waiting(gateway, f) in tokens
      {
        assert graph[k] !in graph[..k];
        assert graph[..k + 1] == graph[..k] + [graph[k]];
        if graph[k].target == gateway && Waiting(gateway, graph[k]) in tokens {
          consumed := consumed + [graph[k]];
        }
      }
      assert graph[..|graph|] == graph;
    }

    method RemoveTokens(gateway: Node, consumed: seq<Flow>)
      requires WaitingVia(gateway, consumed) <= multiset(tokens) && consumed != []
      modifies this`tokens
      ensures multiset(tokens) == old(multiset(tokens)) - WaitingVia(gateway, consumed)
      ensures Total(tokens, PlaceEffort(graph)) + 1 + Effort(graph, gateway) <= old(Total(tokens, PlaceEffort(graph)))
    {
      hide WaitingVia, Removing, Total, Effort;
      NoneWaiting(gateway, consumed);
      for k := 0 to |consumed|
        invariant multiset(tokens) + WaitingVia(gateway, consumed[..k]) == old(multiset(tokens))
        invariant Total(tokens, PlaceEffort(graph)) + (if k > 0 then 1 + Effort(graph, gateway) else 0) <= old(Total(tokens, PlaceEffort(graph)))
      {
        var p := Waiting(gateway, consumed[k]);
        WaitingViaPrefix(gateway, consumed, k);
        Removable(multiset(tokens), WaitingVia(gateway, consumed[..k]), p, old(multiset(tokens)));
        Remove(p);
      }
      assert consumed[..|consumed|] == consumed;
    }

    /** Executes the first command. It is removed before, as its execution may append others. */
    method Execute()
      requires Valid() && commands != []
      modifies this`tokens, this`commands, this`executed, this`activations
      ensures RunsTo(graph, old(multiset(tokens)), multiset(tokens))
      ensures Valid() && old(activations) <= activations && Potential() < old(Potential())
      ensures Steps(old(Now()), Now())
    {
      hide RunsTo, Approachable, AllInOrder, IsPrepared, Effort, Executes;
      var command := commands[0];
      assert commands == [command] + commands[1..];
      commands, executed := commands[1..], executed + 1;
      match command {
        case ToAdvance(node) => Advance(node);
        case ToDiverge(node) => HandleDivergingGateway(node);
        case ToDepart(via) => AdvanceToDeparted(via);
        case ToArrive(via) => AdvanceToArrived(via);
        case ToMerge(gateway) => var _ := CreateMergedToken(gateway);
      }
    }

    /** Executes all pending commands. */
    method DrainCommands()
      requires Valid()
      modifies this`tokens, this`commands, this`executed, this`activations
      ensures RunsTo(graph, old(multiset(tokens)), multiset(tokens))
      ensures Valid() && commands == [] && old(activations) <= activations && NoneDeparted(multiset(tokens))
      ensures if old(commands) == [] then tokens == old(tokens) && Potential() == old(Potential()) else Potential() < old(Potential())
      ensures Leads(old(Now()), Now(), false)
    {
      hide RunsTo, Approachable, AllInOrder, IsPrepared, Total, Steps, Leads;
      RunsToItself(graph, multiset(tokens));
      LeadsToItself(Now(), false);
      while commands != []
        invariant Leads(old(Now()), Now(), false)
        invariant Valid() && old(activations) <= activations && RunsTo(graph, old(multiset(tokens)), multiset(tokens))
        invariant old(commands) == [] ==> commands == [] && tokens == old(tokens)
        invariant (commands == old(commands) && tokens == old(tokens)) || Potential() < old(Potential())
        decreases Potential()
      {
        ghost var before := Now();
        Execute();
        RunsFurther(graph, old(multiset(tokens)), before.tokens, multiset(tokens));
        LeadsFurther(old(Now()), before, Now(), false);
      }
      PursuedIsSettled(graph, gateways, diverging, multiset(tokens));
    }

    /** Decides on the activation of every gateway at which tokens wait. */
    method AttemptActivations()
      requires Valid() && commands == [] && NoneDeparted(multiset(tokens))
      modifies this`commands
      ensures Valid() && Potential() == old(Potential())
      ensures forall g: Node :: ToMerge(g) in commands <==>
                g in gateways && Guarded(graph, g, multiset(tokens)) && Joining(multiset(tokens), g)
      ensures forall c <- commands :: c.ToMerge?
    {
      hide Approachable, Acyclic, AllInPlace, AllPursued, Total, Guarded;
      for k := 0 to |gateways|
        invariant AllInOrder(graph, gateways, diverging, multiset(tokens), commands)
        invariant forall c <- commands :: c.ToMerge? && c.gateway in gateways[..k]
        invariant forall g <- gateways[..k] :: ToMerge(g) in commands <==> Guarded(graph, g, multiset(tokens)) && Joining(multiset(tokens), g)
        invariant Potential() == old(Potential())
      {
        var g := gateways[k];
        assert g in gateways && g !in gateways[..k];
        assert gateways[..k + 1] == gateways[..k] + [g];
        if exists p <- tokens :: p.Waiting? && p.node == g {
          var activated := AttemptGatewayActivation(tokens, predecessors[g], g);
          GuardIsExact(g);
          if activated {
            ActivationKeeps(graph, gateways, diverging, multiset(tokens), commands, g);
            Enqueue(ToMerge(g));
          }
        }
      }
      assert gateways[..|gateways|] == gateways;
    }

    /**
     Commands are executed until they have settled, and only then is the activation of gateways decided, again after
     every activation. In the end, every gateway at which tokens still wait is blocked.
     */
    method ProcessCommands()
      requires Valid()
      modifies this`tokens, this`commands, this`executed, this`activations
      ensures RunsTo(graph, old(multiset(tokens)), multiset(tokens))
      ensures Valid() && commands == [] && old(activations) <= activations && NoneDeparted(multiset(tokens))
      ensures forall g <- gateways | Joining(multiset(tokens), g) :: !Guarded(graph, g, multiset(tokens))
      ensures Leads(old(Now()), Now(), true)
    {
      hide RunsTo, Approachable, AllInOrder, IsPrepared, Total, Guarded, Joining, Leads;
      RunsToItself(graph, multiset(tokens));
      LeadsToItself(Now(), true);
      while true
        invariant Leads(old(Now()), Now(), true)
        invariant Valid() && old(activations) <= activations && RunsTo(graph, old(multiset(tokens)), multiset(tokens))
        decreases Potential(), if commands == [] then 1 else 0
      {
        ghost var before := Now();
        DrainCommands();
        RunsFurther(graph, old(multiset(tokens)), before.tokens, multiset(tokens));
        LeadsThrough(old(Now()), before, Now());
        ghost var settled := Now();
        AttemptActivations();
        LeadsFurther(old(Now()), settled, Now(), true);
        if commands == [] {
          break;
        }
      }
    }
  }
}
