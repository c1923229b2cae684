/**
 Request/response correlation (cyber/service/client.h, cyber/service/service.h) over a network that
 loses, reorders and duplicates.  Every method body that runs under a mutex is one step; a message on
 the wire may be delivered any number of times, in any order, or never.
 */
module Rpc {
  import opened Common

  /** transport::MessageInfo */
  datatype Info = Info(senderId: nat, seqNum: nat, spareId: nat)

  /** pending maps a sequence number to the promise waiting for it. */
  datatype Client = Client(writerId: nat, initialized: bool, sequenceNumber: nat, pending: map<nat, nat>)

  /** running is the task that the processing thread has popped and not finished. */
  datatype Service<Req> =
    Service(transmitterId: nat, initialized: bool, tasks: seq<(Req, Info)>, running: Option<(Req, Info)>)

  /** A promise, by whom it was made, and how often a value was set. */
  datatype Promise<Resp> = Promise(writerId: nat, seqNum: nat, value: Option<Resp>, timesSet: nat)

  /** What the service callback answered to what, under which writer and sequence number. */
  datatype Answer<Req, Resp> = Answer(writerId: nat, seqNum: nat, request: Req, response: Resp)

  /** requests and responses are everything ever put on the wire; sent and answers are history. */
  datatype State<Req, Resp> = State(
    clients: seq<Client>, service: Service<Req>, promises: seq<Promise<Resp>>,
    requests: seq<(Req, Info)>, responses: seq<(Resp, Info)>,
    sent: map<(nat, nat), Req>, answers: seq<Answer<Req, Resp>>)

  datatype Action<Req, Resp> =
    | AsyncSendRequest(c: nat, request: Req)
    | Enqueue(i: nat)                      // a request on the wire becomes a task
    | PopTask                              // Process takes the front task, if the service is not destroyed
    | HandleRequest(response: Resp)        // the popped task runs: the callback produces response
    | DeliverResponse(c: nat, i: nat)      // a client sees a response on the wire
    | ClearInited                          // destroy, in its two steps
    | ClearTasks

  function Init<Req, Resp>(clients: seq<Client>, transmitterId: nat): State<Req, Resp> {
    State(clients, Service(transmitterId, true, [], None), [], [], [], map[], [])
  }

  function Step<Req, Resp>(s: State<Req, Resp>, a: Action<Req, Resp>): State<Req, Resp> {
    match a
    case AsyncSendRequest(c, request) => if c < |s.clients| then Send(s, c, request) else s
    case Enqueue(i) =>
      if i < |s.requests| then s.(service := s.service.(tasks := s.service.tasks + [s.requests[i]])) else s
    case PopTask =>
      if s.service.initialized && s.service.tasks != [] && s.service.running.None?
      then s.(service := s.service.(tasks := s.service.tasks[1..], running := Some(s.service.tasks[0])))
      else s
    case HandleRequest(response) => if s.service.running.Some? then Handle(s, response) else s
    case DeliverResponse(c, i) =>
      if c < |s.clients| && i < |s.responses| then HandleResponse(s, c, s.responses[i].0, s.responses[i].1) else s
    case ClearInited => s.(service := s.service.(initialized := false))
    case ClearTasks => s.(service := s.service.(tasks := []))
  }

  function Send<Req, Resp>(s: State<Req, Resp>, c: nat, request: Req): State<Req, Resp>
    requires c < |s.clients|
  {
    var client := s.clients[c];
    if !client.initialized then s else
      var n := client.sequenceNumber + 1;
      var info := Info(client.writerId, n, client.writerId);
      s.(clients := s.clients[c := client.(sequenceNumber := n, pending := client.pending[n := |s.promises|])],
         promises := s.promises + [Promise(client.writerId, n, None, 0)],
         requests := s.requests + [(request, info)],
         sent := s.sent[(client.writerId, n) := request])
  }

  function Handle<Req, Resp>(s: State<Req, Resp>, response: Resp): State<Req, Resp>
    requires s.service.running.Some?
  {
    var (request, info) := s.service.running.value;
    s.(service := s.service.(running := None),
       responses := s.responses + [(response, info.(senderId := s.service.transmitterId))],
       answers := s.answers + [Answer(info.spareId, info.seqNum, request, response)])
  }

  function HandleResponse<Req, Resp>(s: State<Req, Resp>, c: nat, response: Resp, info: Info): State<Req, Resp>
    requires c < |s.clients|
  {
    var client := s.clients[c];
    if info.spareId != client.writerId || info.seqNum !in client.pending then s else
      var p := client.pending[info.seqNum];
      s.(clients := s.clients[c := client.(pending := client.pending - {info.seqNum})],
         promises := if p < |s.promises|
                     then s.promises[p := s.promises[p].(value := Some(response), timesSet := s.promises[p].timesSet + 1)]
                     else s.promises)
  }

  ghost function Exec<Req, Resp>(s: State<Req, Resp>, actions: seq<Action<Req, Resp>>): State<Req, Resp>
    decreases |actions|
  {
    if actions == [] then s else Step(Exec(s, actions[..|actions| - 1]), actions[|actions| - 1])
  }

  // ---------------------------------------------------------------- invariant

  ghost predicate UniqueWriters(clients: seq<Client>) {
    forall i, j | 0 <= i < j < |clients| :: clients[i].writerId != clients[j].writerId
  }

  /** A request in transit is the one sent under its writer and sequence number. */
  ghost predicate Genuine<Req, Resp>(s: State<Req, Resp>, m: (Req, Info)) {
    var key := (m.1.spareId, m.1.seqNum);
    key in s.sent && s.sent[key] == m.0
  }

  ghost predicate Answered<Req, Resp>(s: State<Req, Resp>, writerId: nat, seqNum: nat, response: Resp) {
    exists i | 0 <= i < |s.answers| ::
      s.answers[i].writerId == writerId && s.answers[i].seqNum == seqNum && s.answers[i].response == response
  }

  ghost predicate AnswerOk<Req, Resp>(s: State<Req, Resp>, a: Answer<Req, Resp>) {
    (a.writerId, a.seqNum) in s.sent && s.sent[(a.writerId, a.seqNum)] == a.request
  }

  ghost predicate Wire<Req, Resp>(s: State<Req, Resp>) {
    && (forall i | 0 <= i < |s.requests| :: Genuine(s, s.requests[i]))
    && (forall i | 0 <= i < |s.service.tasks| :: Genuine(s, s.service.tasks[i]))
    && (s.service.running.Some? ==> Genuine(s, s.service.running.value))
    && (forall i | 0 <= i < |s.answers| :: AnswerOk(s, s.answers[i]))
    && (forall i | 0 <= i < |s.responses| ::
          Answered(s, s.responses[i].1.spareId, s.responses[i].1.seqNum, s.responses[i].0))
  }

  /** Client c's entry n: its promise is its own and still empty. */
  ghost predicate PendingOk<Req, Resp>(s: State<Req, Resp>, c: int, n: nat)
    requires 0 <= c < |s.clients| && n in s.clients[c].pending
  {
    var p := s.clients[c].pending[n];
    && n <= s.clients[c].sequenceNumber && p < |s.promises|
    && s.promises[p] == Promise(s.clients[c].writerId, n, None, 0)
  }

  ghost predicate Tables<Req, Resp>(s: State<Req, Resp>) {
    && UniqueWriters(s.clients)
    && (forall c, n: nat | 0 <= c < |s.clients| && n in s.clients[c].pending :: PendingOk(s, c, n))
    && (forall c, n: nat | 0 <= c < |s.clients| && (s.clients[c].writerId, n) in s.sent :: n <= s.clients[c].sequenceNumber)
  }

  /** Client c still waits for promise p. */
  ghost predicate WaitsFor<Req, Resp>(s: State<Req, Resp>, c: int, p: int)
    requires 0 <= c < |s.clients| && 0 <= p < |s.promises|
  {
    && s.clients[c].writerId == s.promises[p].writerId && s.promises[p].seqNum in s.clients[c].pending
    && s.clients[c].pending[s.promises[p].seqNum] == p
  }

  ghost predicate PromiseOk<Req, Resp>(s: State<Req, Resp>, p: int)
    requires 0 <= p < |s.promises|
  {
    match s.promises[p].value
    case None => s.promises[p].timesSet == 0 && exists c | 0 <= c < |s.clients| :: WaitsFor(s, c, p)
    case Some(r) => s.promises[p].timesSet == 1 && Answered(s, s.promises[p].writerId, s.promises[p].seqNum, r)
  }

  ghost predicate Inv<Req, Resp>(s: State<Req, Resp>) {
    Wire(s) && Tables(s) && (forall p | 0 <= p < |s.promises| :: PromiseOk(s, p))
  }

  lemma SendInv<Req, Resp>(s: State<Req, Resp>, c: nat, request: Req)
    requires Inv(s) && c < |s.clients|
    ensures Inv(Send(s, c, request))
  {
    var s' := Send(s, c, request);
    assert forall k | k in s.sent :: k in s'.sent && s'.sent[k] == s.sent[k];
    forall i | 0 <= i < |s'.requests| ensures Genuine(s', s'.requests[i]) {
      if i < |s.requests| { assert Genuine(s, s.requests[i]); }
    }
    forall i | 0 <= i < |s'.service.tasks| ensures Genuine(s', s'.service.tasks[i]) { assert Genuine(s, s.service.tasks[i]); }
    forall i | 0 <= i < |s'.answers| ensures AnswerOk(s', s'.answers[i]) { assert AnswerOk(s, s.answers[i]); }
    SameAnswers(s, s');
    forall e, n: nat | 0 <= e < |s'.clients| && n in s'.clients[e].pending ensures PendingOk(s', e, n) {
      if n in s.clients[e].pending { assert PendingOk(s, e, n); }
    }
    forall p | 0 <= p < |s'.promises| ensures PromiseOk(s', p) {
      if p < |s.promises| {
        assert PromiseOk(s, p);
        StillWaiting(s, s', p);
      } else {
        assert WaitsFor(s', c, p);
      }
    }
  }

  lemma StillWaiting<Req, Resp>(s: State<Req, Resp>, s': State<Req, Resp>, p: int)
    requires 0 <= p < |s.promises| <= |s'.promises| && |s.clients| == |s'.clients|
    requires s'.promises[p] == s.promises[p]
    requires forall c | 0 <= c < |s.clients| :: WaitsFor(s, c, p) ==> WaitsFor(s', c, p)
    ensures (exists c | 0 <= c < |s.clients| :: WaitsFor(s, c, p)) ==> (exists c | 0 <= c < |s'.clients| :: WaitsFor(s', c, p))
  {
  }

  lemma SameAnswers<Req, Resp>(s: State<Req, Resp>, s': State<Req, Resp>)
    requires s.answers <= s'.answers
    ensures forall w: nat, n: nat, r: Resp | Answered(s, w, n, r) :: Answered(s', w, n, r)
  {
    forall w: nat, n: nat, r: Resp | Answered(s, w, n, r)
      ensures Answered(s', w, n, r)
    {
      var i :| 0 <= i < |s.answers| && s.answers[i].writerId == w && s.answers[i].seqNum == n && s.answers[i].response == r;
      assert s'.answers[i] == s.answers[i];
    }
  }

  /** Steps of the service touch neither the clients nor the promises. */
  lemma ServiceInv<Req, Resp>(s: State<Req, Resp>, s': State<Req, Resp>)
    requires Inv(s) && Wire(s')
    requires s'.clients == s.clients && s'.promises == s.promises && s'.sent == s.sent && s.answers <= s'.answers
    ensures Inv(s')
  {
    SameAnswers(s, s');
    forall c, n: nat | 0 <= c < |s'.clients| && n in s'.clients[c].pending ensures PendingOk(s', c, n) {
      assert PendingOk(s, c, n);
    }
    forall p | 0 <= p < |s'.promises| ensures PromiseOk(s', p) {
      assert PromiseOk(s, p);
      StillWaiting(s, s', p);
    }
  }

  lemma HandleInv<Req, Resp>(s: State<Req, Resp>, response: Resp)
    requires Inv(s) && s.service.running.Some?
    ensures Inv(Handle(s, response))
  {
    var s' := Handle(s, response);
    var (request, info) := s.service.running.value;
    assert Genuine(s, s.service.running.value);
    SameAnswers(s, s');
    assert s'.answers[|s.answers|] == Answer(info.spareId, info.seqNum, request, response);
    assert Answered(s', info.spareId, info.seqNum, response);
    forall i | 0 <= i < |s'.responses|
      ensures Answered(s', s'.responses[i].1.spareId, s'.responses[i].1.seqNum, s'.responses[i].0)
    {
      if i < |s.responses| { assert s'.responses[i] == s.responses[i]; }
    }
    forall i | 0 <= i < |s'.answers| ensures AnswerOk(s', s'.answers[i]) {
      if i < |s.answers| { assert AnswerOk(s, s.answers[i]); }
    }
    forall i | 0 <= i < |s'.requests| ensures Genuine(s', s'.requests[i]) { assert Genuine(s, s.requests[i]); }
    forall i | 0 <= i < |s'.service.tasks| ensures Genuine(s', s'.service.tasks[i]) { assert Genuine(s, s.service.tasks[i]); }
    ServiceInv(s, s');
  }

  /** The response settles exactly the promise of its own request: no other pending entry holds it. */
  lemma ResponseInv<Req, Resp>(s: State<Req, Resp>, c: nat, i: nat)
    requires Inv(s) && c < |s.clients| && i < |s.responses|
    ensures Inv(HandleResponse(s, c, s.responses[i].0, s.responses[i].1))
  {
    var (response, info) := s.responses[i];
    var s' := HandleResponse(s, c, response, info);
    var client := s.clients[c];
    if info.spareId == client.writerId && info.seqNum in client.pending {
      var p := client.pending[info.seqNum];
      assert PendingOk(s, c, info.seqNum);
      SameAnswers(s, s');
      assert Answered(s, info.spareId, info.seqNum, response);
      assert Wire(s') by {
        forall i | 0 <= i < |s'.requests| ensures Genuine(s', s'.requests[i]) { assert Genuine(s, s.requests[i]); }
        forall i | 0 <= i < |s'.service.tasks| ensures Genuine(s', s'.service.tasks[i]) { assert Genuine(s, s.service.tasks[i]); }
        forall i | 0 <= i < |s'.answers| ensures AnswerOk(s', s'.answers[i]) { assert AnswerOk(s, s.answers[i]); }
        assert s.service.running.Some? ==> Genuine(s, s.service.running.value);
      }
      forall e, n: nat | 0 <= e < |s'.clients| && n in s'.clients[e].pending ensures PendingOk(s', e, n) {
        assert n in s.clients[e].pending && PendingOk(s, e, n);
      }
      forall q | 0 <= q < |s'.promises| ensures PromiseOk(s', q) {
        assert PromiseOk(s, q);
        if q != p { StillWaiting(s, s', q); }
      }
    }
  }

  /** Moving tasks about keeps the invariant as long as no task is made up. */
  lemma TasksInv<Req, Resp>(s: State<Req, Resp>, s': State<Req, Resp>)
    requires Inv(s) && s' == s.(service := s'.service)
    requires forall i | 0 <= i < |s'.service.tasks| :: Genuine(s, s'.service.tasks[i])
    requires s'.service.running.Some? ==> Genuine(s, s'.service.running.value)
    ensures Inv(s')
  {
    forall i | 0 <= i < |s'.requests| ensures Genuine(s', s'.requests[i]) { assert Genuine(s, s.requests[i]); }
    forall i | 0 <= i < |s'.service.tasks| ensures Genuine(s', s'.service.tasks[i]) {
      assert Genuine(s, s'.service.tasks[i]);
    }
    forall i | 0 <= i < |s'.answers| ensures AnswerOk(s', s'.answers[i]) { assert AnswerOk(s, s.answers[i]); }
    SameAnswers(s, s');
    ServiceInv(s, s');
  }

  lemma StepInv<Req, Resp>(s: State<Req, Resp>, a: Action<Req, Resp>)
    requires Inv(s)
    ensures Inv(Step(s, a))
  {
    var s' := Step(s, a);
    match a
    case AsyncSendRequest(c, request) => if c < |s.clients| { SendInv(s, c, request); }
    case HandleRequest(response) => if s.service.running.Some? { HandleInv(s, response); }
    case DeliverResponse(c, i) => if c < |s.clients| && i < |s.responses| { ResponseInv(s, c, i); }
    case _ => TasksInv(s, s');
  }

  /** Clients as constructed: distinct writer ids, no request sent. */
  ghost predicate Fresh(clients: seq<Client>) {
    UniqueWriters(clients) && forall c | 0 <= c < |clients| :: clients[c].pending == map[]
  }

  lemma {:induction false} ExecInv<Req, Resp>(clients: seq<Client>, id: nat, actions: seq<Action<Req, Resp>>)
    requires Fresh(clients)
    ensures Inv(Exec(Init(clients, id), actions))
    decreases |actions|
  {
    if actions != [] {
      ExecInv(clients, id, actions[..|actions| - 1]);
      StepInv(Exec(Init(clients, id), actions[..|actions| - 1]), actions[|actions| - 1]);
    }
  }

  /** In s, the callback answered response to the request sent under this writer and sequence number. */
  ghost predicate AnswersOwnRequest<Req, Resp>(s: State<Req, Resp>, writerId: nat, seqNum: nat, response: Resp) {
    && (writerId, seqNum) in s.sent
    && Answer(writerId, seqNum, s.sent[(writerId, seqNum)], response) in s.answers
  }

  /**
   * Correlation: whatever the network loses, reorders or repeats, every promise is set at most once,
   * and only with what the callback produced for the request sent under the promise's own writer
   * and sequence number.
   */
  lemma Correlation<Req, Resp>(clients: seq<Client>, id: nat, actions: seq<Action<Req, Resp>>)
    requires Fresh(clients)
    ensures var s := Exec(Init(clients, id), actions);
      forall p | 0 <= p < |s.promises| ::
        && s.promises[p].timesSet == (if s.promises[p].value.Some? then 1 else 0)
        && (s.promises[p].value.Some? ==>
              AnswersOwnRequest(s, s.promises[p].writerId, s.promises[p].seqNum, s.promises[p].value.value))
  {
    ExecInv(clients, id, actions);
    var s := Exec(Init(clients, id), actions);
    forall p | 0 <= p < |s.promises|
      ensures s.promises[p].timesSet == (if s.promises[p].value.Some? then 1 else 0)
      ensures s.promises[p].value.Some? ==>
        AnswersOwnRequest(s, s.promises[p].writerId, s.promises[p].seqNum, s.promises[p].value.value)
    {
      var q := s.promises[p];
      assert PromiseOk(s, p);
      if q.value.Some? {
        var i :| 0 <= i < |s.answers| && s.answers[i].writerId == q.writerId && s.answers[i].seqNum == q.seqNum
                 && s.answers[i].response == q.value.value;
        assert AnswerOk(s, s.answers[i]);
      }
    }
  }

  /** A promise is open exactly while its client keeps it in the table under its own sequence number. */
  lemma OpenExactlyWhilePending<Req, Resp>(clients: seq<Client>, id: nat, actions: seq<Action<Req, Resp>>, p: nat)
    requires Fresh(clients) && p < |Exec(Init(clients, id), actions).promises|
    ensures var s := Exec(Init(clients, id), actions);
      s.promises[p].value.None? <==> exists c | 0 <= c < |s.clients| :: WaitsFor(s, c, p)
  {
    ExecInv(clients, id, actions);
    var s := Exec(Init(clients, id), actions);
    assert PromiseOk(s, p);
    forall c | 0 <= c < |s.clients| && WaitsFor(s, c, p) ensures s.promises[p].value.None? {
      assert PendingOk(s, c, s.promises[p].seqNum);
    }
  }

  /** The first response for an open promise that reaches its client settles it, with that response. */
  lemma ResponseSettles<Req, Resp>(s: State<Req, Resp>, c: nat, i: nat, p: nat)
    requires Inv(s) && c < |s.clients| && i < |s.responses| && p < |s.promises| && s.promises[p].value.None?
    requires s.clients[c].writerId == s.promises[p].writerId
    requires s.responses[i].1.spareId == s.promises[p].writerId && s.responses[i].1.seqNum == s.promises[p].seqNum
    ensures Step(s, DeliverResponse(c, i)).promises[p].value == Some(s.responses[i].0)
  {
    assert PromiseOk(s, p);
    var e :| 0 <= e < |s.clients| && WaitsFor(s, e, p);
    assert e == c;
  }

  /** History is permanent: no step changes what was sent under a key, what was answered, or a set promise. */
  lemma HistoryStable<Req, Resp>(s: State<Req, Resp>, a: Action<Req, Resp>)
    requires Inv(s)
    ensures var s' := Step(s, a);
      && (forall k | k in s.sent :: k in s'.sent && s'.sent[k] == s.sent[k])
      && s.answers <= s'.answers && |s.promises| <= |s'.promises|
      && (forall p | 0 <= p < |s.promises| ::
            && s'.promises[p].writerId == s.promises[p].writerId && s'.promises[p].seqNum == s.promises[p].seqNum
            && (s.promises[p].value.Some? ==> s'.promises[p] == s.promises[p]))
  {
    var s' := Step(s, a);
    match a
    case AsyncSendRequest(c, _) =>
      assert forall k | k in s.sent :: k in s'.sent && s'.sent[k] == s.sent[k];
    case DeliverResponse(c, i) =>
      if c < |s.clients| && i < |s.responses| && s.responses[i].1.seqNum in s.clients[c].pending {
        assert PendingOk(s, c, s.responses[i].1.seqNum);
      }
    case _ =>
  }

  // ---------------------------------------------------------- what each call puts where

  /** A client's call sends exactly its own request, once, under its next number, and makes one open promise that the
      client then waits for; a client that is not initialized does nothing. */
  lemma SendTransmits<Req, Resp>(s: State<Req, Resp>, c: nat, request: Req)
    requires Inv(s) && c < |s.clients|
    ensures var s', w, n := Step(s, AsyncSendRequest(c, request)), s.clients[c].writerId, s.clients[c].sequenceNumber + 1;
      if !s.clients[c].initialized then s' == s
      else
        && s'.requests == s.requests + [(request, Info(w, n, w))]
        && (w, n) !in s.sent && (w, n) in s'.sent && s'.sent[(w, n)] == request
        && s'.promises == s.promises + [Promise(w, n, None, 0)] && WaitsFor(s', c, |s.promises|)
        && s'.clients[c].sequenceNumber == n && s'.service == s.service && s'.responses == s.responses
        && |s'.clients| == |s.clients| && (forall e | 0 <= e < |s.clients| && e != c :: s'.clients[e] == s.clients[e])
  {
  }

  /** A task that runs answers its own request, once, on the wire: with the callback's response under the writer and
      number of the request. */
  lemma HandleAnswers<Req, Resp>(s: State<Req, Resp>, response: Resp)
    ensures var s' := Step(s, HandleRequest(response));
      if s.service.running.None? then s' == s
      else
        var (request, info) := s.service.running.value;
        && |s'.responses| == |s.responses| + 1 && s.responses <= s'.responses
        && s'.responses[|s.responses|].0 == response && s'.responses[|s.responses|].1.spareId == info.spareId
        && s'.responses[|s.responses|].1.seqNum == info.seqNum
        && s'.responses[|s.responses|].1.senderId == s.service.transmitterId
        && s'.answers == s.answers + [Answer(info.spareId, info.seqNum, request, response)]
        && s'.service.running.None? && s'.service.tasks == s.service.tasks && s'.clients == s.clients
        && s'.promises == s.promises && s'.requests == s.requests && s'.sent == s.sent
  {
  }

  /** The requests a run makes tasks of, and the tasks it pops, in order. */
  ghost function Enqueued<Req, Resp>(s: State<Req, Resp>, actions: seq<Action<Req, Resp>>): seq<(Req, Info)>
    decreases |actions|
  {
    if actions == [] then [] else
      var front, a := actions[..|actions| - 1], actions[|actions| - 1];
      Enqueued(s, front) +
        if a.Enqueue? && a.i < |Exec(s, front).requests| then [Exec(s, front).requests[a.i]] else []
  }

  ghost function Popped<Req, Resp>(s: State<Req, Resp>, actions: seq<Action<Req, Resp>>): seq<(Req, Info)>
    decreases |actions|
  {
    if actions == [] then [] else
      var front, a := actions[..|actions| - 1], actions[|actions| - 1];
      var t := Exec(s, front);
      Popped(s, front) +
        if t.service.running.None? && Step(t, a).service.running.Some? then [Step(t, a).service.running.value] else []
  }

  /** The service serves first in, first out, over every run in which it is not destroyed. */
  lemma {:induction false} ServesInOrder<Req, Resp>(s: State<Req, Resp>, actions: seq<Action<Req, Resp>>)
    requires forall i | 0 <= i < |actions| :: !actions[i].ClearTasks?
    ensures s.service.tasks + Enqueued(s, actions) == Popped(s, actions) + Exec(s, actions).service.tasks
    decreases |actions|
  {
    if actions != [] {
      var front, a := actions[..|actions| - 1], actions[|actions| - 1];
      ServesInOrder(s, front);
      var t := Exec(s, front);
      ServesStep(t, a);
      var more := if a.Enqueue? && a.i < |t.requests| then [t.requests[a.i]] else [];
      var t' := Step(t, a);
      var popped := if t.service.running.None? && t'.service.running.Some? then [t'.service.running.value] else [];
      BothEnds(s.service.tasks, Enqueued(s, front), Popped(s, front), t.service.tasks, more, popped, t'.service.tasks);
    }
  }

  lemma BothEnds<X>(a: seq<X>, b: seq<X>, c: seq<X>, d: seq<X>, more: seq<X>, popped: seq<X>, rest: seq<X>)
    requires a + b == c + d && d + more == popped + rest
    ensures a + (b + more) == (c + popped) + rest
  {
    assert a + (b + more) == (a + b) + more;
    assert (c + d) + more == c + (d + more);
    assert c + (popped + rest) == (c + popped) + rest;
  }

  lemma ServesStep<Req, Resp>(t: State<Req, Resp>, a: Action<Req, Resp>)
    requires !a.ClearTasks?
    ensures var t' := Step(t, a);
      var more := if a.Enqueue? && a.i < |t.requests| then [t.requests[a.i]] else [];
      var popped := if t.service.running.None? && t'.service.running.Some? then [t'.service.running.value] else [];
      t.service.tasks + more == popped + t'.service.tasks
  {
  }

  lemma {:induction false} UninitedServesNothing<Req, Resp>(s: State<Req, Resp>, actions: seq<Action<Req, Resp>>)
    requires !s.service.initialized
    ensures !Exec(s, actions).service.initialized && Popped(s, actions) == []
    decreases |actions|
  {
    if actions != [] { UninitedServesNothing(s, actions[..|actions| - 1]); }
  }

  /** Destroying the service: from its first step on no further task is begun, its second step drops the tasks that wait,
      and neither touches anything else; a task that runs still answers. */
  lemma DestroyStops<Req, Resp>(s: State<Req, Resp>, actions: seq<Action<Req, Resp>>)
    ensures Popped(Step(s, ClearInited), actions) == []
    ensures var s' := Step(Step(s, ClearInited), ClearTasks);
      s'.service.tasks == [] && s'.service.running == s.service.running && s' == s.(service := s'.service)
  {
    UninitedServesNothing(Step(s, ClearInited), actions);
  }

  /** The five steps of one undisturbed call. */
  ghost function Exchange<Req, Resp>(s: State<Req, Resp>, c: nat, request: Req, response: Resp): State<Req, Resp> {
    var s1 := Step(s, AsyncSendRequest(c, request));
    var s2 := Step(s1, Action.Enqueue(|s.requests|));
    var s3 := Step(s2, PopTask);
    var s4 := Step(s3, HandleRequest(response));
    Step(s4, DeliverResponse(c, |s.responses|))
  }

  /** A call that the network and other clients leave alone: the callback answers exactly the request sent, and the
      client's promise is settled with that answer. */
  lemma ExchangeSettles<Req, Resp>(s: State<Req, Resp>, c: nat, request: Req, response: Resp)
    requires Inv(s) && c < |s.clients| && s.clients[c].initialized
    requires s.service.initialized && s.service.tasks == [] && s.service.running.None?
    ensures var r, w, n := Exchange(s, c, request, response), s.clients[c].writerId, s.clients[c].sequenceNumber + 1;
      && r.promises == s.promises + [Promise(w, n, Some(response), 1)]
      && r.answers == s.answers + [Answer(w, n, request, response)]
      && r.clients[c].pending == s.clients[c].pending
  {
    var w, n := s.clients[c].writerId, s.clients[c].sequenceNumber + 1;
    var s1 := Step(s, AsyncSendRequest(c, request));
    SendTransmits(s, c, request);
    forall k: nat | k in s.clients[c].pending
      ensures k < n
    {
      assert PendingOk(s, c, k);
    }
    assert s1.clients[c].pending - {n} == s.clients[c].pending;
    var s2 := Step(s1, Action.Enqueue(|s.requests|));
    assert s2.service.tasks == [(request, Info(w, n, w))];
    var s3 := Step(s2, PopTask);
    assert s3.service.running == Some((request, Info(w, n, w)));
    var s4 := Step(s3, HandleRequest(response));
    HandleAnswers(s3, response);
    assert s4.responses[|s.responses|] == (response, Info(s.service.transmitterId, n, w));
  }
}
