/** The matching of messages with requests for their delivery, kept up to date with every message and request. */
module Messages {
  import opened Basics
  import opened Sequences

  type Node = nat

  /** A message thrown at a node, and a request for a message at a node catching one. */
  datatype Message = Message(id: nat, origin: Node, header: seq<Value>)
  datatype Request = Request(id: nat, node: Node, header: seq<Value>)

  type Delivery = (Request, Message)

  /** Headers match if they have the same parameters and agree wherever both state a value. */
  ghost predicate Agree(a: seq<Value>, b: seq<Value>) {
    |a| == |b| && forall i | 0 <= i < |a| :: a[i].None? || b[i].None? || a[i] == b[i]
  }

  method Matches(header: seq<Value>, other: seq<Value>) returns (matches: bool)
    ensures matches <==> Agree(header, other)
  {
    if |header| != |other| {
      return false;
    }
    for i := 0 to |header|
      invariant forall j | 0 <= j < i :: header[j].None? || other[j].None? || header[j] == other[j]
    {
      if header[i].Some? && other[i].Some? && header[i].value != other[i].value {
        return false;
      }
    }
    return true;
  }

  // ---------- the nodes that may exchange messages ----------

  type Candidates = map<Node, seq<Node>>

  function Of(candidates: Candidates, n: Node): seq<Node> {
    if n in candidates then candidates[n] else []
  }

  /** A key of a message header, and the type of its values where that is stated; keys and types are told apart by numbers. */
  datatype HeaderKey = HeaderKey(key: nat, valueType: Option<nat>)

  /** What a message event states of its message: name, header keys and content type. */
  datatype Definition = Definition(name: nat, header: seq<HeaderKey>, schema: nat)

  /** Which messages nodes throw or catch, their processes, and which pairs of nodes the message flows admit. */
  datatype Exchange = Exchange(
      definition: Node -> Definition, process: Node -> nat, caught: (Node, Node) -> bool, thrown: (Node, Node) -> bool)

  ghost predicate SameKeys(a: seq<HeaderKey>, b: seq<HeaderKey>) {
    && |a| == |b|
    && forall i | 0 <= i < |a| ::
         && a[i].key == b[i].key
         && (a[i].valueType.None? || b[i].valueType.None? || a[i].valueType == b[i].valueType)
  }

  /** A message thrown at the one node may be caught at the other. */
  ghost predicate MayExchange(x: Exchange, t: Node, c: Node) {
    && x.process(t) != x.process(c) && x.definition(t).name == x.definition(c).name
    && SameKeys(x.definition(t).header, x.definition(c).header) && x.caught(t, c) && x.thrown(t, c)
  }

  /** No pair of nodes able to communicate states different types. */
  ghost predicate Typed(throwing: seq<Node>, catching: seq<Node>, x: Exchange) {
    forall t <- throwing, c <- catching | MayExchange(x, t, c) :: x.definition(t).schema == x.definition(c).schema
  }

  ghost predicate Connected(throwing: seq<Node>, catching: seq<Node>, x: Exchange, n: Node, m: Node) {
    (n in throwing && m in catching && MayExchange(x, n, m)) || (m in throwing && n in catching && MayExchange(x, m, n))
  }

  ghost predicate Symmetric(candidates: Candidates) {
    forall n, m :: m in Of(candidates, n) <==> n in Of(candidates, m)
  }

  method AddCandidate(candidates: Candidates, n: Node, m: Node) returns (r: Candidates)
    requires forall k <- candidates :: Distinct(candidates[k])
    ensures forall k <- r :: Distinct(r[k])
    ensures forall k, l :: l in Of(r, k) <==> l in Of(candidates, k) || (k == n && l == m)
  {
    r := candidates;
    if m !in Of(candidates, n) {
      DistinctConcatenation(Of(candidates, n), [m]);
      r := candidates[n := Of(candidates, n) + [m]];
    }
  }

  method CompareKeys(a: seq<HeaderKey>, b: seq<HeaderKey>) returns (same: bool)
    ensures same <==> SameKeys(a, b)
  {
    if |a| != |b| {
      return false;
    }
    for i := 0 to |a|
      invariant SameKeys(a[..i], b[..i])
    {
      assert a[..i + 1] == a[..i] + [a[i]] && b[..i + 1] == b[..i] + [b[i]];
      if a[i].key != b[i].key || (a[i].valueType.Some? && b[i].valueType.Some? && a[i].valueType != b[i].valueType) {
        return false;
      }
    }
    assert a[..|a|] == a && b[..|b|] == b;
    return true;
  }

  /** A pair of nodes that may exchange a message become candidates of each other; it fails if their types differ. */
  method CreateMessageCandidates(before: Candidates, x: Exchange, t: Node, c: Node) returns (r: Result<Candidates, (Node, Node)>)
    requires forall n <- before :: Distinct(before[n])
    ensures r.Ok? <==> Typed([t], [c], x)
    ensures r.Err? ==> r.error == (t, c)
    ensures r.Ok? ==> forall n <- r.value :: Distinct(r.value[n])
    ensures r.Ok? ==> forall n, m :: m in Of(r.value, n) <==> m in Of(before, n) || Connected([t], [c], x, n, m)
  {
    var candidates := before;
    if x.process(t) == x.process(c) || x.definition(t).name != x.definition(c).name {
      return Ok(candidates);
    }
    var same := CompareKeys(x.definition(t).header, x.definition(c).header);
    if !same {
      return Ok(candidates);
    }
    hide SameKeys, Distinct;
    if x.caught(t, c) && x.thrown(t, c) {
      if x.definition(t).schema != x.definition(c).schema {
        return Err((t, c));
      }
      candidates := AddCandidate(candidates, t, c);
      candidates := AddCandidate(candidates, c, t);
    }
    return Ok(candidates);
  }

  /** The nodes throwing and catching messages become candidates of each other, each once, unless types differ. */
  method CreateMessageFlows(throwing: seq<Node>, catching: seq<Node>, x: Exchange) returns (r: Result<Candidates, (Node, Node)>)
    ensures r.Ok? <==> Typed(throwing, catching, x)
    ensures r.Err? ==>
              var (t, c) := r.error;
              t in throwing && c in catching && MayExchange(x, t, c) && x.definition(t).schema != x.definition(c).schema
    ensures r.Ok? ==> forall n <- r.value :: Distinct(r.value[n])
    ensures r.Ok? ==> forall n, m :: m in Of(r.value, n) <==> Connected(throwing, catching, x, n, m)
    ensures r.Ok? ==> Symmetric(r.value)
  {
    hide Distinct, MayExchange;
    var candidates: Candidates := map[];
    for i := 0 to |throwing|
      invariant forall n <- candidates :: Distinct(candidates[n])
      invariant Typed(throwing[..i], catching, x)
      invariant forall n, m :: m in Of(candidates, n) <==> Connected(throwing[..i], catching, x, n, m)
    {
      var t := throwing[i];
      var added := CandidatesOf(candidates, t, catching, x);
      if added.Err? {
        var (_, c) := added.error;
        assert t in throwing && c in catching;
        return added;
      }
      candidates := added.value;
      assert throwing[..i + 1] == throwing[..i] + [t];
    }
    assert throwing[..|throwing|] == throwing;
    return Ok(candidates);
  }

  method CandidatesOf(before: Candidates, t: Node, catching: seq<Node>, x: Exchange) returns (r: Result<Candidates, (Node, Node)>)
    requires forall n <- before :: Distinct(before[n])
    ensures r.Ok? <==> Typed([t], catching, x)
    ensures r.Err? ==>
              && r.error.0 == t && r.error.1 in catching && MayExchange(x, t, r.error.1)
              && x.definition(t).schema != x.definition(r.error.1).schema
    ensures r.Ok? ==> forall n <- r.value :: Distinct(r.value[n])
    ensures r.Ok? ==> forall n, m :: m in Of(r.value, n) <==> m in Of(before, n) || Connected([t], catching, x, n, m)
  {
    hide Distinct, MayExchange;
    var candidates := before;
    for j := 0 to |catching|
      invariant forall n <- candidates :: Distinct(candidates[n])
      invariant Typed([t], catching[..j], x)
      invariant forall n, m :: m in Of(candidates, n) <==> m in Of(before, n) || Connected([t], catching[..j], x, n, m)
    {
      var c := catching[j];
      var added := CreateMessageCandidates(candidates, x, t, c);
      if added.Err? {
        assert t in [t] && c in catching;
        return added;
      }
      candidates := added.value;
      assert catching[..j + 1] == catching[..j] + [c];
    }
    assert catching[..|catching|] == catching;
    return Ok(candidates);
  }

  // ---------- deliveries ----------

  /** The message may be delivered to the token making the request. */
  ghost predicate Deliverable(candidates: Candidates, d: Delivery) {
    d.1.origin in Of(candidates, d.0.node) && Agree(d.1.header, d.0.header)
  }

  class MessageDeliveries {
    const candidates: Candidates

    // the requests and messages that exist
    var liveRequests: set<Request>
    var liveMessages: set<Message>

    // those noticed, and the decisions registered
    var requests: seq<Request>
    var messages: seq<Message>
    var decisions: seq<Delivery>

    predicate Live(d: Delivery)
      reads this
    {
      d.0 in liveRequests && d.1 in liveMessages
    }

    /** The live decisions are exactly the live deliverable pairs, each registered once. */
    ghost predicate Matched()
      reads this
    {
      && Distinct(decisions)
      && (forall d: Delivery | Live(d) :: d in decisions <==> Deliverable(candidates, d))
    }

    ghost predicate Valid()
      reads this
    {
      && Symmetric(candidates) && Matched()
      && Distinct(requests) && Distinct(messages)
      && (forall r <- liveRequests :: r in requests) && (forall m <- liveMessages :: m in messages)
      && (forall d <- decisions :: d.0 in requests && d.1 in messages)
    }

    constructor (candidates: Candidates)
      requires Symmetric(candidates)
      ensures Valid() && this.candidates == candidates && liveRequests == {} && liveMessages == {}
      ensures requests == [] && messages == [] && decisions == []
    {
      this.candidates := candidates;
      liveRequests, liveMessages, requests, messages, decisions := {}, {}, [], [], [];
    }

    /** A token requests the delivery of a message; it is matched with every message there is. */
    method NoticeRequest(r: Request)
      requires Valid() && r !in requests
      modifies this`liveRequests, this`requests, this`decisions
      ensures Valid() && liveRequests == old(liveRequests) + {r} && requests == old(requests) + [r]
      ensures old(decisions) <= decisions
    {
      liveRequests, requests := liveRequests + {r}, requests + [r];
      for k := 0 to |messages|
        modifies this`decisions
        invariant Distinct(decisions) && old(decisions) <= decisions
        invariant forall d: Delivery :: d in decisions
                   <==> d in old(decisions) || (d.0 == r && d.1 in messages[..k] && d.1 in liveMessages && Deliverable(candidates, d))
      {
        var m := messages[k];
        assert m !in messages[..k] && messages[..k + 1] == messages[..k] + [m];
        if m in liveMessages {
          var matches := Matches(m.header, r.header);
          if m.origin in Of(candidates, r.node) && matches {
            DistinctConcatenation(decisions, [(r, m)]);
            decisions := decisions + [(r, m)];
          }
        }
      }
      assert messages[..|messages|] == messages;
    }

    /** A message is thrown; it is matched with every request there is. */
    method NoticeMessage(m: Message)
      requires Valid() && m !in messages
      modifies this`liveMessages, this`messages, this`decisions
      ensures Valid() && liveMessages == old(liveMessages) + {m} && messages == old(messages) + [m]
      ensures old(decisions) <= decisions
    {
      liveMessages, messages := liveMessages + {m}, messages + [m];
      for k := 0 to |requests|
        modifies this`decisions
        invariant Distinct(decisions) && old(decisions) <= decisions
        invariant forall d: Delivery :: d in decisions
                   <==> d in old(decisions) || (d.1 == m && d.0 in requests[..k] && d.0 in liveRequests && Deliverable(candidates, d))
      {
        var r := requests[k];
        assert r !in requests[..k] && requests[..k + 1] == requests[..k] + [r];
        if r in liveRequests {
          var matches := Matches(m.header, r.header);
          if r.node in Of(candidates, m.origin) && matches {
            DistinctConcatenation(decisions, [(r, m)]);
            decisions := decisions + [(r, m)];
          }
        }
      }
      assert requests[..|requests|] == requests;
    }

    /** A request is withdrawn or answered, or its token ceases to exist. */
    method ExpireRequest(r: Request)
      requires Valid()
      modifies this`liveRequests
      ensures Valid() && liveRequests == old(liveRequests) - {r}
    {
      liveRequests := liveRequests - {r};
    }

    /** A message is delivered or withdrawn. */
    method ExpireMessage(m: Message)
      requires Valid()
      modifies this`liveMessages
      ensures Valid() && liveMessages == old(liveMessages) - {m}
    {
      liveMessages := liveMessages - {m};
    }

    /** The matching is rebuilt from the messages and requests of an installed state. */
    method Install(installedMessages: seq<Message>, installedRequests: seq<Request>)
      requires Symmetric(candidates) && Distinct(installedMessages) && Distinct(installedRequests)
      modifies this
      ensures Valid() && liveMessages == (set m <- installedMessages) && liveRequests == set r <- installedRequests
    {
      requests, messages, decisions, liveRequests, liveMessages := [], [], [], {}, {};
      for k := 0 to |installedMessages|
        invariant Valid() && messages == installedMessages[..k] && requests == [] && liveRequests == {}
        invariant liveMessages == set m <- installedMessages[..k]
      {
        assert installedMessages[..k + 1] == installedMessages[..k] + [installedMessages[k]];
        NoticeMessage(installedMessages[k]);
      }
      assert installedMessages[..|installedMessages|] == installedMessages;
      for k := 0 to |installedRequests|
        invariant Valid() && requests == installedRequests[..k]
        invariant liveMessages == (set m <- installedMessages) && liveRequests == set r <- installedRequests[..k]
      {
        assert installedRequests[..k + 1] == installedRequests[..k] + [installedRequests[k]];
        NoticeRequest(installedRequests[k]);
      }
      assert installedRequests[..|installedRequests|] == installedRequests;
    }
  }

  /** Collections of deliveries over the same live messages and requests have the same live decisions. */
  lemma MatchingIsExact(a: MessageDeliveries, b: MessageDeliveries)
    requires a.Valid() && b.Valid() && a.candidates == b.candidates
    requires a.liveRequests == b.liveRequests && a.liveMessages == b.liveMessages
    ensures forall d: Delivery | a.Live(d) :: d in a.decisions <==> d in b.decisions
  {
    forall d: Delivery | a.Live(d) ensures d in a.decisions <==> d in b.decisions {
      assert b.Live(d);
    }
  }
}
