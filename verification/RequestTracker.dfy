/** Matching responses to outstanding calls (cpp/metaspore/ps_agent.cpp). */
module RequestTracker {
  import opened NodeManagers

  /** A message id is drawn as a 64-bit count but kept and sent as a 32-bit `int`. */
  function Wire(id: int): int {
    (id + 0x8000_0000) % 0x1_0000_0000 - 0x8000_0000
  }

  /** The wire keeps an id exactly when it is below 2^31. */
  lemma WireKeeps(id: nat)
    ensures Wire(id) == id <==> id < 0x8000_0000
  {}

  /** What it makes of any id: the 32-bit number with the same low bits. */
  lemma WireWraps(id: nat)
    ensures -0x8000_0000 <= Wire(id) < 0x8000_0000 && (id - Wire(id)) % 0x1_0000_0000 == 0
  {}

  datatype Request = Request(id: int, sender: nat, receiver: nat, body: int)

  /** `answers` records the request a response was made for; no code reads it. */
  datatype Response = Response(id: int, sender: nat, receiver: nat, isException: bool, body: int, answers: Request)

  datatype Message = Asks(request: Request) | Answers(response: Response)

  /** `sent` records the requests of the call; no code reads it. */
  datatype TrackerEntry = TrackerEntry(total: nat, responses: seq<Response>, sent: seq<Request>)

  datatype Agent = Agent(node: nat, counter: nat, tracker: map<int, TrackerEntry>)

  /** Where one message of a call goes, and what it says. */
  type Target = (nat, int)

  function Requests(node: nat, id: int, targets: seq<Target>): (rs: seq<Request>)
    ensures |rs| == |targets|
  {
    seq(|targets|, i requires 0 <= i < |targets| => Request(Wire(id), node, targets[i].0, targets[i].1))
  }

  /** The agent after drawing an id, tracking it and sending one request per target. */
  function Begun(a: Agent, targets: seq<Target>): Agent {
    var entry := TrackerEntry(|targets|, [], Requests(a.node, a.counter, targets));
    a.(counter := a.counter + 1, tracker := a.tracker[a.counter := entry])
  }

  /** The response `SendResponse` makes of a handler's result: addressed by the request. */
  function ReplyTo(req: Request, isException: bool, body: int): Response {
    Response(req.id, req.receiver, req.sender, isException, body, req)
  }

  /** A response recorded under its id; None when the lookup misses and throws. */
  function Recorded(a: Agent, res: Response): (now: Agent)
    requires res.id in a.tracker
  {
    var e := a.tracker[res.id];
    a.(tracker := a.tracker[res.id := e.(responses := e.responses + [res])])
  }

  predicate Complete(a: Agent, id: int) {
    id in a.tracker && |a.tracker[id].responses| == a.tracker[id].total
  }

  datatype Outcome = Callback(responses: seq<Response>) | Threw(response: Response)

  predicate AnyException(rs: seq<Response>) {
    exists i :: 0 <= i < |rs| && rs[i].isException
  }

  /** One process: the counter of its message ids and its tracker. */
  class PSAgent {
    const node: nat
    const manager: NodeManager
    var counter: nat
    var tracker: map<int, TrackerEntry>

    ghost function Contents(): Agent
      reads this
    {
      Agent(node, counter, tracker)
    }

    constructor (node: nat, manager: NodeManager)
      requires manager.Valid()
      ensures this.node == node && this.manager == manager && Contents() == Agent(node, 0, map[])
    {
      this.node, this.manager, counter, tracker := node, manager, 0, map[];
    }

    method GetMessageId() returns (id: nat)
      modifies this`counter
      ensures id == old(counter) && counter == old(counter) + 1
    {
      id := counter;
      counter := counter + 1;
    }

    /** Sends to one node; a receiver naming none or several throws before anything is sent. */
    method SendRequest(target: Target) returns (ok: bool, sent: seq<Request>)
      requires manager.Valid()
      modifies this
      ensures ok <==> |NodeIds(manager.nodes, target.0)| == 1
      ensures Contents() == if ok then Begun(old(Contents()), [target]) else old(Contents())
      ensures sent == if ok then Requests(node, old(counter), [target]) else []
      ensures ok ==> |sent| == 1 && sent[0].receiver == target.0 && sent[0].body == target.1
      ensures ok ==> tracker == old(tracker)[old(counter) := TrackerEntry(1, [], sent)] && counter == old(counter) + 1
    {
      if target.0 !in manager.nodeIds || |manager.nodeIds[target.0]| != 1 {
        return false, [];
      }
      var id := GetMessageId();
      sent := [Request(Wire(id), node, target.0, target.1)];
      assert sent == Requests(node, id, [target]);
      tracker := tracker[id := TrackerEntry(|manager.nodeIds[target.0]|, [], sent)];
      ok := true;
    }

    /** Sends one request per target under one id; checks every receiver first. */
    method SendAllRequests(targets: seq<Target>) returns (ok: bool, sent: seq<Request>)
      requires manager.Valid()
      modifies this
      ensures ok <==> forall i :: 0 <= i < |targets| ==> |NodeIds(manager.nodes, targets[i].0)| == 1
      ensures Contents() == if ok then Begun(old(Contents()), targets) else old(Contents())
      ensures sent == if ok then Requests(node, old(counter), targets) else []
      ensures ok ==> |sent| == |targets|
      ensures ok ==> forall i :: 0 <= i < |sent| ==> sent[i].receiver == targets[i].0 && sent[i].body == targets[i].1
      ensures ok ==> tracker == old(tracker)[old(counter) := TrackerEntry(|targets|, [], sent)]
    {
      for i := 0 to |targets|
        invariant forall j :: 0 <= j < i ==> |NodeIds(manager.nodes, targets[j].0)| == 1
      {
        if targets[i].0 !in manager.nodeIds || |manager.nodeIds[targets[i].0]| != 1 {
          return false, [];
        }
      }
      var id := GetMessageId();
      sent := Post(id, targets);
      tracker := tracker[id := TrackerEntry(|targets|, [], sent)];
      ok := true;
    }

    /** Sends the same body to every node of a group. */
    method BroadcastRequest(target: Target) returns (ok: bool, sent: seq<Request>, ghost targets: seq<Target>)
      requires manager.Valid()
      modifies this
      ensures ok <==> NodeIds(manager.nodes, target.0) != []
      ensures |targets| == |NodeIds(manager.nodes, target.0)|
      ensures forall i :: 0 <= i < |targets| ==> targets[i] == (NodeIds(manager.nodes, target.0)[i], target.1)
      ensures Contents() == if ok then Begun(old(Contents()), targets) else old(Contents())
      ensures sent == if ok then Requests(node, old(counter), targets) else []
      ensures ok ==> |sent| == |NodeIds(manager.nodes, target.0)|
      ensures ok ==> forall i :: 0 <= i < |sent| ==>
                sent[i].receiver == NodeIds(manager.nodes, target.0)[i] && sent[i].body == target.1
      ensures ok ==> tracker == old(tracker)[old(counter) := TrackerEntry(|sent|, [], sent)]
    {
      if target.0 !in manager.nodeIds {
        return false, [], [];
      }
      var ids := manager.nodeIds[target.0];
      var id := GetMessageId();
      var receivers := seq(|ids|, i requires 0 <= i < |ids| => (ids[i], target.1));
      sent := Post(id, receivers);
      tracker := tracker[id := TrackerEntry(|ids|, [], sent)];
      ok, targets := true, receivers;
    }

    method Post(id: nat, targets: seq<Target>) returns (sent: seq<Request>)
      ensures sent == Requests(node, id, targets)
    {
      sent := [];
      for i := 0 to |targets|
        invariant sent == Requests(node, id, targets)[..i]
      {
        sent := sent + [Request(Wire(id), node, targets[i].0, targets[i].1)];
      }
    }

    /** Records a response; fails when its id is not tracked. */
    method HandleResponse(res: Response) returns (ok: bool)
      modifies this`tracker
      ensures ok <==> res.id in old(tracker)
      ensures Contents() == if ok then Recorded(old(Contents()), res) else old(Contents())
    {
      if res.id !in tracker {
        return false;
      }
      var ent := tracker[res.id];
      tracker := tracker[res.id := ent.(responses := ent.responses + [res])];
      ok := true;
    }

    /** What a woken caller does: takes its responses, forgets the id, then calls back or throws. */
    method Finish(id: int) returns (outcome: Outcome)
      requires Complete(Contents(), id)
      modifies this`tracker
      ensures tracker == old(tracker) - {id}
      ensures AnyException(old(tracker)[id].responses) <==> outcome.Threw?
      ensures outcome.Callback? ==> outcome.responses == old(tracker)[id].responses
      ensures outcome.Threw? ==>
                exists i :: 0 <= i < |old(tracker)[id].responses| && outcome.response == old(tracker)[id].responses[i]
                            && outcome.response.isException
                            && forall j :: 0 <= j < i ==> !old(tracker)[id].responses[j].isException
    {
      var responses := tracker[id].responses;
      tracker := tracker - {id};
      for i := 0 to |responses|
        invariant forall j :: 0 <= j < i ==> !responses[j].isException
      {
        if responses[i].isException {
          return Threw(responses[i]);
        }
      }
      outcome := Callback(responses);
    }
  }

  // ---- All agents and the network ----

  /** `net` lists the messages in flight; any of them may be the next to arrive. */
  datatype System = System(agents: map<nat, Agent>, net: seq<Message>, missed: bool)

  datatype Step =
    | Draw(node: nat)
    | Begin(node: nat, targets: seq<Target>)
    | Reply(i: nat, isException: bool, body: int)
    | Deliver(i: nat)
    | Finish(node: nat, id: int)

  function Without<T>(s: seq<T>, i: nat): seq<T>
    requires i < |s|
  {
    s[..i] + s[i + 1..]
  }

  function Asked(rs: seq<Request>): (ms: seq<Message>)
    ensures |ms| == |rs|
  {
    seq(|rs|, i requires 0 <= i < |rs| => Asks(rs[i]))
  }

  predicate Enabled(s: System, step: Step) {
    match step
    case Draw(n) => n in s.agents
    case Begin(n, _) => n in s.agents
    case Reply(i, _, _) => i < |s.net| && s.net[i].Asks?
    case Deliver(i) => i < |s.net| && s.net[i].Answers?
    case Finish(n, id) => n in s.agents && Complete(s.agents[n], id)
  }

  /** Exactly one reply per request; `missed` records a response whose lookup failed. */
  function Next(s: System, step: Step): System
    requires Enabled(s, step)
  {
    match step
    case Draw(n) => s.(agents := s.agents[n := s.agents[n].(counter := s.agents[n].counter + 1)])
    case Begin(n, targets) =>
      s.(agents := s.agents[n := Begun(s.agents[n], targets)],
         net := s.net + Asked(Requests(n, s.agents[n].counter, targets)))
    case Reply(i, isException, body) =>
      s.(net := Without(s.net, i) + [Answers(ReplyTo(s.net[i].request, isException, body))])
    case Deliver(i) =>
      var res, t := s.net[i].response, s.(net := Without(s.net, i));
      if res.receiver in s.agents && res.id in s.agents[res.receiver].tracker then
        t.(agents := s.agents[res.receiver := Recorded(s.agents[res.receiver], res)])
      else t.(missed := true)
    case Finish(n, id) => s.(agents := s.agents[n := s.agents[n].(tracker := s.agents[n].tracker - {id})])
  }

  /** The request that message `m` carries or answers, if it belongs to call `id` of `node`. */
  ghost function Belongs(m: Message, node: nat, id: int): multiset<Request> {
    match m
    case Asks(r) => if r.sender == node && r.id == id then multiset{r} else multiset{}
    case Answers(res) => if res.receiver == node && res.id == id then multiset{res.answers} else multiset{}
  }

  /** The requests of call `id` of `node` still in flight, in either direction. */
  ghost function Pending(net: seq<Message>, node: nat, id: int): multiset<Request> {
    if net == [] then multiset{} else Belongs(net[0], node, id) + Pending(net[1..], node, id)
  }

  ghost function Answered(responses: seq<Response>): multiset<Request> {
    if responses == [] then multiset{}
    else Answered(responses[..|responses| - 1]) + multiset{responses[|responses| - 1].answers}
  }

  /** Each request of a call is in flight, being answered, or answered: never lost, doubled or mixed up. */
  ghost predicate CallConserved(a: Agent, net: seq<Message>, id: int) {
    if id in a.tracker then
      var e := a.tracker[id];
      && 0 <= id < a.counter && e.total == |e.sent|
      && Pending(net, a.node, id) + Answered(e.responses) == multiset(e.sent)
    else Pending(net, a.node, id) == multiset{}
  }

  ghost predicate Invariant(s: System) {
    && !s.missed
    && (forall n :: n in s.agents ==> s.agents[n].node == n)
    && (forall n, id :: n in s.agents ==> CallConserved(s.agents[n], s.net, id))
    && (forall n, id :: n !in s.agents ==> Pending(s.net, n, id) == multiset{})
  }

  /** Every id drawn so far is below 2^31. */
  ghost predicate ShortIds(s: System) {
    forall n :: n in s.agents ==> s.agents[n].counter <= 0x8000_0000
  }

  ghost predicate Fresh(s: System) {
    && s.net == [] && !s.missed
    && forall n :: n in s.agents ==> s.agents[n] == Agent(n, 0, map[])
  }

  // ---- How the network's content moves ----

  lemma {:induction false} PendingAppend(a: seq<Message>, b: seq<Message>, node: nat, id: int)
    ensures Pending(a + b, node, id) == Pending(a, node, id) + Pending(b, node, id)
  {
    hide Belongs;
    if a == [] {
      assert a + b == b;
    } else {
      PendingAppend(a[1..], b, node, id);
      assert (a + b)[1..] == a[1..] + b;
    }
  }

  lemma PendingOne(m: Message, node: nat, id: int)
    ensures Pending([m], node, id) == Belongs(m, node, id)
  {
    assert [m][1..] == [];
  }

  lemma PendingWithout(net: seq<Message>, i: nat, node: nat, id: int)
    requires i < |net|
    ensures Pending(net, node, id) == Pending(Without(net, i), node, id) + Belongs(net[i], node, id)
  {
    hide Belongs, Pending;
    PendingAppend(net[..i], net[i + 1..], node, id);
    PendingAppend(net[..i], [net[i]] + net[i + 1..], node, id);
    PendingAppend([net[i]], net[i + 1..], node, id);
    PendingOne(net[i], node, id);
    assert net == net[..i] + ([net[i]] + net[i + 1..]);
  }

  lemma {:induction false} PendingAsked(rs: seq<Request>, node: nat, id: int, node': nat, id': int)
    requires forall i :: 0 <= i < |rs| ==> rs[i].sender == node && rs[i].id == id
    ensures Pending(Asked(rs), node', id') == if node' == node && id' == id then multiset(rs) else multiset{}
  {
    if rs != [] {
      PendingAsked(rs[1..], node, id, node', id');
      assert Asked(rs)[1..] == Asked(rs[1..]);
      assert rs == [rs[0]] + rs[1..];
    }
  }

  lemma AnsweredSnoc(responses: seq<Response>, res: Response)
    ensures Answered(responses + [res]) == Answered(responses) + multiset{res.answers}
  {
    assert (responses + [res])[..|responses|] == responses;
  }

  lemma {:induction false} AnsweredSize(responses: seq<Response>)
    ensures |Answered(responses)| == |responses|
  {
    if responses != [] {
      AnsweredSize(responses[..|responses| - 1]);
    }
  }

  // ---- Every step keeps the invariant ----

  lemma BeginKeeps(s: System, n: nat, targets: seq<Target>)
    requires Invariant(s) && Enabled(s, Begin(n, targets)) && (s.agents[n].counter < 0x8000_0000 || targets == [])
    ensures Invariant(Next(s, Begin(n, targets)))
  {
    hide Pending, Answered, Requests;
    var t, counter := Next(s, Begin(n, targets)), s.agents[n].counter;
    var rs := Requests(n, counter, targets);
    assert CallConserved(s.agents[n], s.net, counter);
    RequestsBelong(n, counter, targets);
    forall x, id
      ensures Pending(t.net, x, id)
              == Pending(s.net, x, id) + if x == n && id == counter then multiset(rs) else multiset{}
    {
      PendingAppend(s.net, Asked(rs), x, id);
      PendingAsked(rs, n, counter, x, id);
    }
    AnsweredNone();
    forall x, id | x in t.agents ensures CallConserved(t.agents[x], t.net, id) {
      assert CallConserved(s.agents[x], s.net, id);
    }
  }

  lemma RequestsBelong(node: nat, id: nat, targets: seq<Target>)
    requires id < 0x8000_0000 || targets == []
    ensures forall i :: 0 <= i < |targets| ==>
              Requests(node, id, targets)[i].sender == node && Requests(node, id, targets)[i].id == id
  {}

  /** Beginning a call keeps requests and responses together exactly when its id is short, or nothing is sent. */
  lemma BeginKeepsIff(s: System, n: nat, targets: seq<Target>)
    requires Invariant(s) && Enabled(s, Begin(n, targets))
    ensures Invariant(Next(s, Begin(n, targets))) <==> s.agents[n].counter < 0x8000_0000 || targets == []
  {
    hide Pending, Answered;
    var t, counter := Next(s, Begin(n, targets)), s.agents[n].counter;
    if counter < 0x8000_0000 || targets == [] {
      BeginKeeps(s, n, targets);
    } else {
      var rs := Requests(n, counter, targets);
      WireKeeps(counter);
      assert CallConserved(s.agents[n], s.net, counter);
      PendingAppend(s.net, Asked(rs), n, counter);
      PendingAsked(rs, n, Wire(counter), n, counter);
      AnsweredNone();
      assert |multiset(rs)| == |targets|;
      assert !CallConserved(t.agents[n], t.net, counter);
    }
  }

  lemma AnsweredNone()
    ensures Answered([]) == multiset{}
  {}

  lemma ReplyKeeps(s: System, i: nat, isException: bool, body: int)
    requires Invariant(s) && Enabled(s, Reply(i, isException, body))
    ensures Invariant(Next(s, Reply(i, isException, body)))
  {
    hide Pending, Answered;
    var t, reply := Next(s, Reply(i, isException, body)), Answers(ReplyTo(s.net[i].request, isException, body));
    forall x, id ensures Pending(t.net, x, id) == Pending(s.net, x, id) {
      PendingWithout(s.net, i, x, id);
      PendingAppend(Without(s.net, i), [reply], x, id);
      PendingOne(reply, x, id);
    }
    forall x, id | x in t.agents ensures CallConserved(t.agents[x], t.net, id) {
      assert CallConserved(s.agents[x], s.net, id);
    }
  }

  /** A response in flight finds its call in the tracker. */
  lemma LookupHits(s: System, i: nat)
    requires Invariant(s) && i < |s.net| && s.net[i].Answers?
    ensures var res := s.net[i].response; res.receiver in s.agents && res.id in s.agents[res.receiver].tracker
  {
    hide Pending, Answered;
    var res := s.net[i].response;
    PendingWithout(s.net, i, res.receiver, res.id);
    assert res.answers in Pending(s.net, res.receiver, res.id);
    assert res.receiver in s.agents ==> CallConserved(s.agents[res.receiver], s.net, res.id);
  }

  lemma DeliverKeepsCall(s: System, i: nat, t: System, x: nat, id: int)
    requires Invariant(s) && Enabled(s, Deliver(i)) && t == Next(s, Deliver(i)) && x in s.agents
    ensures !t.missed && x in t.agents && CallConserved(t.agents[x], t.net, id)
  {
    hide Pending, Answered, Without;
    var res := s.net[i].response;
    LookupHits(s, i);
    PendingWithout(s.net, i, x, id);
    assert CallConserved(s.agents[x], s.net, id);
    if x == res.receiver && id == res.id {
      AnsweredSnoc(s.agents[x].tracker[id].responses, res);
    }
  }

  lemma DeliverKeeps(s: System, i: nat)
    requires Invariant(s) && Enabled(s, Deliver(i))
    ensures Invariant(Next(s, Deliver(i)))
  {
    hide Pending, Answered, CallConserved, Without;
    var t := Next(s, Deliver(i));
    LookupHits(s, i);
    forall x, id | x in t.agents ensures CallConserved(t.agents[x], t.net, id) {
      DeliverKeepsCall(s, i, t, x, id);
    }
    forall x, id | x !in t.agents ensures Pending(t.net, x, id) == multiset{} {
      PendingWithout(s.net, i, x, id);
    }
  }

  lemma CompleteHasNonePending(s: System, n: nat, id: int)
    requires Invariant(s) && n in s.agents && id in s.agents[n].tracker
    ensures Complete(s.agents[n], id) <==> Pending(s.net, n, id) == multiset{}
  {
    hide Pending, Answered;
    var e := s.agents[n].tracker[id];
    assert CallConserved(s.agents[n], s.net, id);
    AnsweredSize(e.responses);
    assert |Pending(s.net, n, id)| + |e.responses| == |multiset(e.sent)| == e.total;
  }

  lemma FinishKeeps(s: System, n: nat, id: int)
    requires Invariant(s) && Enabled(s, Finish(n, id))
    ensures Invariant(Next(s, Finish(n, id)))
  {
    hide Pending, Answered;
    var t := Next(s, Finish(n, id));
    CompleteHasNonePending(s, n, id);
    forall x, y | x in t.agents ensures CallConserved(t.agents[x], t.net, y) {
      assert CallConserved(s.agents[x], s.net, y);
    }
  }

  lemma StepKeeps(s: System, step: Step)
    requires Invariant(s) && Enabled(s, step) && ShortIds(Next(s, step))
    ensures Invariant(Next(s, step))
  {
    hide Pending, Answered;
    match step
    case Draw(n) =>
      forall x, id | x in s.agents ensures CallConserved(Next(s, step).agents[x], s.net, id) {
        assert CallConserved(s.agents[x], s.net, id);
      }
    case Begin(n, targets) =>
      assert Next(s, step).agents[n].counter <= 0x8000_0000;
      BeginKeeps(s, n, targets);
    case Reply(i, isException, body) => ReplyKeeps(s, i, isException, body);
    case Deliver(i) => DeliverKeeps(s, i);
    case Finish(n, id) => FinishKeeps(s, n, id);
  }

  // ---- Over whole runs ----

  ghost predicate Runs(trace: seq<System>, steps: seq<Step>) {
    && |trace| == |steps| + 1 && Fresh(trace[0])
    && (forall i :: 0 <= i < |steps| ==> Enabled(trace[i], steps[i]) && trace[i + 1] == Next(trace[i], steps[i]))
  }

  lemma {:induction false} RunKeeps(trace: seq<System>, steps: seq<Step>, i: nat)
    requires Runs(trace, steps) && i <= |steps| && forall j :: 0 <= j <= i ==> ShortIds(trace[j])
    ensures Invariant(trace[i])
  {
    if i > 0 {
      RunKeeps(trace, steps, i - 1);
      StepKeeps(trace[i - 1], steps[i - 1]);
    }
  }

  /** Step `j` of the run made the response: for its request, to the requester, with the handler's outcome. */
  ghost predicate MadeBy(trace: seq<System>, steps: seq<Step>, j: nat, res: Response)
    requires j < |steps| && j < |trace|
  {
    && steps[j].Reply? && steps[j].i < |trace[j].net| && trace[j].net[steps[j].i] == Asks(res.answers)
    && res.id == res.answers.id && res.sender == res.answers.receiver && res.receiver == res.answers.sender
    && res.isException == steps[j].isException && res.body == steps[j].body
  }

  ghost predicate Made(trace: seq<System>, steps: seq<Step>, i: nat, res: Response)
    requires i <= |steps| && i <= |trace|
  {
    exists j: nat :: j < i && MadeBy(trace, steps, j, res)
  }

  ghost predicate RecordsMade(trace: seq<System>, steps: seq<Step>, i: nat, responses: seq<Response>)
    requires i <= |steps| && i <= |trace|
  {
    forall r :: 0 <= r < |responses| ==> Made(trace, steps, i, responses[r])
  }

  /** All responses under way or recorded were made so. */
  ghost predicate AllMade(trace: seq<System>, steps: seq<Step>, i: nat)
    requires i <= |steps| && i < |trace|
  {
    && (forall k :: 0 <= k < |trace[i].net| && trace[i].net[k].Answers? ==>
          Made(trace, steps, i, trace[i].net[k].response))
    && (forall n, id :: n in trace[i].agents && id in trace[i].agents[n].tracker ==>
          RecordsMade(trace, steps, i, trace[i].agents[n].tracker[id].responses))
  }

  lemma {:induction false} ResponsesMade(trace: seq<System>, steps: seq<Step>, i: nat)
    requires Runs(trace, steps) && i <= |steps|
    ensures AllMade(trace, steps, i)
  {
    hide Made, RecordsMade, Requests, Complete, Without;
    if i > 0 {
      ResponsesMade(trace, steps, i - 1);
      MadeLater(trace, steps, i - 1);
      match steps[i - 1]
      case Draw(_) =>
      case Begin(_, _) => NoRecords(trace, steps, i);
      case Reply(k, isException, body) =>
        ReplyMade(trace, steps, i - 1);
        WithoutAt(trace[i - 1].net, k);
      case Deliver(k) =>
        WithoutAt(trace[i - 1].net, k);
        OneMoreMade(trace, steps, i);
      case Finish(_, _) =>
    }
  }

  lemma WithoutAt<T>(s: seq<T>, i: nat)
    requires i < |s|
    ensures |Without(s, i)| == |s| - 1
    ensures forall k :: 0 <= k < |s| - 1 ==> Without(s, i)[k] == s[if k < i then k else k + 1]
  {}

  lemma NoRecords(trace: seq<System>, steps: seq<Step>, i: nat)
    requires i <= |steps| && i <= |trace|
    ensures RecordsMade(trace, steps, i, [])
  {}

  lemma OneMoreMade(trace: seq<System>, steps: seq<Step>, i: nat)
    requires i <= |steps| && i <= |trace|
    ensures forall rs, res :: RecordsMade(trace, steps, i, rs) && Made(trace, steps, i, res) ==>
              RecordsMade(trace, steps, i, rs + [res])
  {}

  lemma MadeLater(trace: seq<System>, steps: seq<Step>, i: nat)
    requires i < |steps| && i < |trace|
    ensures forall res :: Made(trace, steps, i, res) ==> Made(trace, steps, i + 1, res)
    ensures forall rs :: RecordsMade(trace, steps, i, rs) ==> RecordsMade(trace, steps, i + 1, rs)
  {}

  lemma ReplyMade(trace: seq<System>, steps: seq<Step>, i: nat)
    requires Runs(trace, steps) && i < |steps| && steps[i].Reply?
    ensures var net := trace[i + 1].net;
            net != [] && net[|net| - 1].Answers? && Made(trace, steps, i + 1, net[|net| - 1].response)
  {
    assert MadeBy(trace, steps, i, trace[i + 1].net[|trace[i + 1].net| - 1].response);
  }

  /**
    However many calls are outstanding and in whatever order replies come, the call that
    completes gets one response for each request it sent and none of another call, and
    no lookup has missed: as long as fewer than 2^31 ids are drawn.  Every response held
    was made by the receiver for its request, with the outcome and body it replied.
   */
  lemma CallsGetTheirAnswers(trace: seq<System>, steps: seq<Step>, i: nat, n: nat, id: int)
    requires Runs(trace, steps) && i <= |steps| && forall j :: 0 <= j <= i ==> ShortIds(trace[j])
    ensures !trace[i].missed
    ensures n in trace[i].agents && Complete(trace[i].agents[n], id) ==>
              var e := trace[i].agents[n].tracker[id];
              Answered(e.responses) == multiset(e.sent) && |e.responses| == |e.sent|
    ensures n in trace[i].agents && id in trace[i].agents[n].tracker ==>
              (Complete(trace[i].agents[n], id) <==> Pending(trace[i].net, n, id) == multiset{})
    ensures n in trace[i].agents && id in trace[i].agents[n].tracker ==>
              var rs := trace[i].agents[n].tracker[id].responses;
              forall r :: 0 <= r < |rs| ==> Made(trace, steps, i, rs[r])
  {
    hide Made;
    ResponsesMade(trace, steps, i);
    RunKeeps(trace, steps, i);
    if n in trace[i].agents && id in trace[i].agents[n].tracker {
      CompleteHasNonePending(trace[i], n, id);
      assert CallConserved(trace[i].agents[n], trace[i].net, id);
    }
  }

  /** A call of one request, answered and delivered before anything else happens. */
  ghost function Served(s: System, n: nat, target: Target, isException: bool, body: int): System
    requires Enabled(s, Begin(n, [target]))
  {
    var s1 := Next(s, Begin(n, [target]));
    BeginSends(s, n, target);
    Next(Next(s1, Reply(|s.net|, isException, body)), Deliver(|s.net|))
  }

  lemma BeginSends(s: System, n: nat, target: Target)
    requires Enabled(s, Begin(n, [target]))
    ensures var s1 := Next(s, Begin(n, [target]));
            && s1.net == s.net + [Asks(Request(Wire(s.agents[n].counter), n, target.0, target.1))]
            && Without(s1.net, |s.net|) == s.net
  {}

  /**
    What becomes of any call whose id is 2^31 or more.  Its answer comes back under the id
    the wire made of it: when no call of that id is outstanding, the lookup misses; when
    one is, that other call is handed the answer.  Either way the call itself gets none.
   */
  lemma LongIdGoesAstray(s: System, n: nat, target: Target, isException: bool, body: int)
    requires Invariant(s) && n in s.agents && s.agents[n].counter >= 0x8000_0000
    ensures var id, a, t := s.agents[n].counter, s.agents[n], Served(s, n, target, isException, body);
            var res := ReplyTo(Request(Wire(id), n, target.0, target.1), isException, body);
            && Wire(id) != id && id in t.agents[n].tracker && t.agents[n].tracker[id].responses == []
            && (t.missed <==> Wire(id) !in a.tracker)
            && (Wire(id) in a.tracker ==>
                  && Wire(id) in t.agents[n].tracker
                  && t.agents[n].tracker[Wire(id)].sent == a.tracker[Wire(id)].sent
                  && t.agents[n].tracker[Wire(id)].responses == a.tracker[Wire(id)].responses + [res])
  {
    hide Pending, Answered;
    WireKeeps(s.agents[n].counter);
    BeginSends(s, n, target);
    assert CallConserved(s.agents[n], s.net, s.agents[n].counter);
  }
}
