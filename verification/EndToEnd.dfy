/** The whole proxy, from the bytes of the client to the replicas and back: it is
    one map behind one connection. */
module EndToEnd {
  import opened Bytes
  import opened Messages
  import opened Connections
  import opened Memcached
  import opened Timestamps
  import opened Replication
  import opened Refinement
  import opened Proxy
  import opened ClientCas
  import opened LostUpdates
  import Framing
  import RoundTrip

  /** What a memcached holding `m` answers, `held` being the CAS of the key's record,
      or 0 if there is none. A delete that finds nothing may report a stopped replica. */
  ghost predicate Answers(m: map<Key, Item>, held: nat, req: Request, rsp: Message) {
    && (held != 0 <==> req.key in m)
    && rsp.IsResponse() && rsp.opaqueId == req.opaqueId
    && rsp.opCode == (if req.opCode == GETK && req.key == [] then GET else req.opCode)
    && rsp.key == (if req.opCode == GETK then req.key else [])
    && (req.GetReq? ==>
          && rsp.GetRsp?
          && rsp.status == (if req.key in m then NO_ERROR else KEY_NOT_FOUND)
          && rsp.value == (if req.key in m then m[req.key].value else [])
          && rsp.cas == held % 0x1_0000_0000_0000_0000 && rsp.readFlags == Some(0))
    && (req.StoreReq? ==> rsp.StoreRsp? && rsp.cas == 0 && rsp.status == StoreStatus(m, held, req))
    && (req.DeleteReq? ==>
          && rsp.DeleteRsp? && rsp.cas == 0
          && (rsp.status == NO_ERROR <==> req.key in m)
          && rsp.status in {NO_ERROR, KEY_NOT_FOUND, TEMPORARY_FAILURE})
    && (req.VersionReq? ==>
          rsp.VersionRsp? && rsp.cas == 0 && rsp.status == NO_ERROR && rsp.version == VERSION_TEXT)
  }

  function StoreStatus(m: map<Key, Item>, held: nat, req: Request): uint16
    requires req.StoreReq?
  {
    match req.kind
    case SetKind => NO_ERROR
    case AddKind => if req.key in m then KEY_EXISTS else NO_ERROR
    case ReplaceKind =>
      if req.key !in m then KEY_NOT_FOUND else if req.cas == 0 || req.cas == held then NO_ERROR else KEY_EXISTS
  }

  /** The map after a request that was answered so. */
  function Updated(m: map<Key, Item>, req: Request, env: OpEnv, rsp: Message): map<Key, Item>
    requires rsp.IsResponse()
  {
    if req.StoreReq? && rsp.status == NO_ERROR then
      var millis := env.time.sec * 1000 + env.time.nsec / 1_000_000;
      m[req.key := Item(req.value, millis % 0x1_0000_0000, req.expiry)]
    else if req.DeleteReq? then m - {req.key}
    else m
  }

  /** The map after a row of requests; only the answers are looked at. */
  ghost function OneMap(m: map<Key, Item>, reqs: seq<Request>, envs: nat -> OpEnv, rsps: seq<Message>): map<Key, Item>
    requires |rsps| == |reqs| && forall i :: 0 <= i < |rsps| ==> rsps[i].IsResponse()
  {
    if reqs == [] then m
    else
      var n := |reqs| - 1;
      Updated(OneMap(m, reqs[..n], envs, rsps[..n]), reqs[n], envs(n), rsps[n])
  }

  /** Every request is answered as the one map answers it, with the CAS values of
      `held`. */
  ghost predicate AnsweredByOneMap(m: map<Key, Item>, reqs: seq<Request>, envs: nat -> OpEnv, rsps: seq<Message>,
                                   held: seq<Decision>)
  {
    && |held| == |rsps| == |reqs|
    && (forall i :: 0 <= i < |rsps| ==> rsps[i].IsResponse())
    && (forall i :: 0 <= i < |reqs| ==> Answers(OneMap(m, reqs[..i], envs, rsps[..i]), held[i].cas, reqs[i], rsps[i]))
  }

  /** A client that talks to a single memcached could have had this conversation: the
      answers are those of one map, and as long as the same replica decides about a
      key, its CAS changes exactly when the key is written or deleted. After a
      fail-over the CAS may be another one. */
  ghost predicate ConversationOfOneMap(m: map<Key, Item>, reqs: seq<Request>, envs: nat -> OpEnv, rsps: seq<Message>,
                                       held: seq<Decision>)
  {
    AnsweredByOneMap(m, reqs, envs, rsps, held) && CasTells(reqs, rsps, held)
  }

  /** The replicas that have stopped before the `n`-th request is done. */
  ghost function Stopped(stops: nat -> set<Server>, n: nat): set<Server> {
    if n == 0 then {} else Stopped(stops, n - 1) + stops(n - 1)
  }

  /** Even without the replicas that stop, every bucket has a running one. */
  ghost predicate Outlasts(sys: System, stopped: set<Server>) {
    sys.(live := sys.live - stopped).Available()
  }

  lemma OutlastsFewer(sys: System, stopped: set<Server>, fewer: set<Server>)
    requires Outlasts(sys, stopped) && fewer <= stopped
    ensures Outlasts(sys, fewer)
  {
    hide ListFor;
    forall k
      ensures HasLive(ListFor(sys.hash, sys.replicas, k), sys.live - fewer)
    {
      assert HasLive(ListFor(sys.hash, sys.replicas, k), sys.live - stopped);
    }
  }

  /** An answer of the backend becomes an answer on the wire. */
  lemma AllowedAnswers(sys: System, m: map<Key, Item>, req: Request, env: OpEnv, reply: Reply)
    requires Fitting(OpOf(req), reply) && Allowed(sys, m, OpOf(req), reply)
    requires CasAt(sys, req.key) != 0 <==> req.key in m
    ensures
      var rsp := Respond(req, reply);
      && Answers(m, CasAt(sys, req.key), req, rsp) && Updated(m, req, env, rsp) == After(m, OpOf(req), env, reply)
  {
    hide ListFor, VERSION_TEXT, CasAt;
  }

  /** One request, with replicas stopping before it. */
  lemma HandleAnswers(sys: System, m: map<Key, Item>, req: Request, stopped: set<Server>, env: OpEnv)
    requires sys.Valid() && Agrees(sys, m) && sys.Available() && Outlasts(sys, stopped)
    ensures
      var sys1, (sys', rsp) := Step(sys, StopOp(stopped), env).0, Handle(sys, req, stopped, env);
      && sys1.Valid() && rsp.IsResponse() && Answers(m, CasAt(sys1, req.key), req, rsp)
      && sys'.Valid() && Agrees(sys', Updated(m, req, env, rsp)) && LaterState(sys, sys', stopped)
  {
    hide *;
    HandleIs(sys, req, stopped, env);
    StepRefines(sys, m, StopOp(stopped), env);
    StepShape(sys, StopOp(stopped), env);
    var sys1 := Step(sys, StopOp(stopped), env).0;
    StopKeeps(sys, m, stopped, env);
    StepRefines(sys1, m, OpOf(req), env);
    StepShape(sys1, OpOf(req), env);
    OpIsNoStop(req);
    HeldIsContained(sys1, m, req.key);
    AllowedAnswers(sys1, m, req, env, Step(sys1, OpOf(req), env).1);
    AnswersRespond(m, CasAt(sys1, req.key), req, Respond(req, Step(sys1, OpOf(req), env).1));
    SameDeployment(sys, Handle(sys, req, stopped, env).0, stopped);
  }

  lemma SameDeployment(sys: System, later: System, stopped: set<Server>)
    requires later.hash == sys.hash && later.replicas == sys.replicas && later.live == sys.live - stopped
    ensures LaterState(sys, later, stopped)
  {
  }

  lemma AnswersRespond(m: map<Key, Item>, held: nat, req: Request, rsp: Message)
    requires Answers(m, held, req, rsp)
    ensures rsp.IsResponse()
  {
  }

  lemma StopKeeps(sys: System, m: map<Key, Item>, stopped: set<Server>, env: OpEnv)
    requires sys.Valid() && Outlasts(sys, stopped)
    ensures Step(sys, StopOp(stopped), env).0.Available()
    ensures forall reply :: After(m, StopOp(stopped), env, reply) == m
  {
    hide HasLive, ListFor;
  }

  /** Serving the requests is a conversation with one map, and the running replicas
      hold that map at the end. */
  ghost predicate SeenAsOneMap(sys: System, m: map<Key, Item>, reqs: seq<Request>, stops: nat -> set<Server>,
                               envs: nat -> OpEnv)
    requires sys.Valid()
  {
    var (final, rsps) := Serve(sys, reqs, stops, envs);
    && ConversationOfOneMap(m, reqs, envs, rsps, Decisions(sys, reqs, stops, envs))
    && Agrees(final, OneMap(m, reqs, envs, rsps))
    && LaterState(sys, final, Stopped(stops, |reqs|))
  }

  /** The same before it is known what the CAS values tell. */
  ghost predicate ServedSoFar(sys: System, m: map<Key, Item>, reqs: seq<Request>, stops: nat -> set<Server>,
                              envs: nat -> OpEnv)
    requires sys.Valid()
  {
    var (final, rsps) := Serve(sys, reqs, stops, envs);
    && AnsweredByOneMap(m, reqs, envs, rsps, Decisions(sys, reqs, stops, envs))
    && Agrees(final, OneMap(m, reqs, envs, rsps))
    && LaterState(sys, final, Stopped(stops, |reqs|))
  }

  /** The same deployment later, without the replicas that have stopped. */
  ghost predicate LaterState(sys: System, later: System, stopped: set<Server>) {
    later.hash == sys.hash && later.replicas == sys.replicas && later.live == sys.live - stopped
  }

  /** In every conversation over replicas that agree at first and of which every
      bucket keeps one running, the client sees a single map. */
  lemma ServedAsOneMap(sys: System, m: map<Key, Item>, reqs: seq<Request>, stops: nat -> set<Server>,
                       envs: nat -> OpEnv)
    requires sys.Valid() && Agrees(sys, m) && Outlasts(sys, Stopped(stops, |reqs|))
    ensures SeenAsOneMap(sys, m, reqs, stops, envs)
  {
    hide Agrees, System.Valid, Outlasts, Serve, Decisions, Answers, CasTells, OneMap, LaterState, Message.IsResponse;
    AllServedSoFar(sys, m, reqs, stops, envs);
    CasTellsInRow(sys, reqs, stops, envs);
  }

  lemma {:induction false} AllServedSoFar(sys: System, m: map<Key, Item>, reqs: seq<Request>,
                                          stops: nat -> set<Server>, envs: nat -> OpEnv)
    requires sys.Valid() && Agrees(sys, m) && Outlasts(sys, Stopped(stops, |reqs|))
    ensures ServedSoFar(sys, m, reqs, stops, envs)
  {
    hide Agrees, System.Valid, Outlasts, Serve, ServedSoFar;
    if reqs == [] {
      NothingServed(sys, m, stops, envs);
    } else {
      var n := |reqs| - 1;
      var front := reqs[..n];
      assert front + [reqs[n]] == reqs;
      OutlastsFewer(sys, Stopped(stops, n + 1), Stopped(stops, n));
      AllServedSoFar(sys, m, front, stops, envs);
      NextServed(sys, m, front, reqs[n], stops, envs);
    }
  }

  lemma NextServed(sys: System, m: map<Key, Item>, front: seq<Request>, req: Request, stops: nat -> set<Server>,
                   envs: nat -> OpEnv)
    requires sys.Valid() && ServedSoFar(sys, m, front, stops, envs)
    requires Outlasts(sys, Stopped(stops, |front|)) && Outlasts(sys, Stopped(stops, |front| + 1))
    ensures ServedSoFar(sys, m, front + [req], stops, envs)
  {
    hide *;
    var n := |front|;
    var (before, rsps) := Serve(sys, front, stops, envs);
    var held := Decisions(sys, front, stops, envs);
    ServedFacts(sys, m, front, stops, envs);
    AllResponses(m, front, envs, rsps, held);
    StoppedNext(stops, n);
    SameShape(sys, before, Stopped(stops, n), stops(n));
    var (after, rsp) := Handle(before, req, stops(n), envs(n));
    HandleAnswers(before, OneMap(m, front, envs, rsps), req, stops(n), envs(n));
    LaterStill(sys, before, after, Stopped(stops, n), stops(n));
    ServeSnoc(sys, front, req, stops, envs);
    DecisionsSnoc(sys, front, req, stops, envs);
    var last := Decisions(sys, front + [req], stops, envs)[n];
    LongerConversation(m, front, envs, rsps, held, req, rsp, last);
    AllResponses(m, front + [req], envs, rsps + [rsp], held + [last]);
    FactsServed(sys, m, front + [req], stops, envs, after, rsps + [rsp]);
  }

  lemma ServedFacts(sys: System, m: map<Key, Item>, reqs: seq<Request>, stops: nat -> set<Server>, envs: nat -> OpEnv)
    requires sys.Valid() && ServedSoFar(sys, m, reqs, stops, envs)
    ensures
      var (final, rsps) := Serve(sys, reqs, stops, envs);
      && AnsweredByOneMap(m, reqs, envs, rsps, Decisions(sys, reqs, stops, envs))
      && |rsps| == |reqs| && (forall i :: 0 <= i < |rsps| ==> rsps[i].IsResponse())
      && Agrees(final, OneMap(m, reqs, envs, rsps)) && LaterState(sys, final, Stopped(stops, |reqs|))
  {
    hide System.Valid, Serve, Decisions, Answers, Agrees, OneMap, LaterState, Stopped, Message.IsResponse;
  }

  lemma FactsServed(sys: System, m: map<Key, Item>, reqs: seq<Request>, stops: nat -> set<Server>, envs: nat -> OpEnv,
                    final: System, rsps: seq<Message>)
    requires sys.Valid() && Serve(sys, reqs, stops, envs) == (final, rsps) && final.Valid()
    requires AnsweredByOneMap(m, reqs, envs, rsps, Decisions(sys, reqs, stops, envs))
    requires |rsps| == |reqs| && forall i :: 0 <= i < |rsps| ==> rsps[i].IsResponse()
    requires Agrees(final, OneMap(m, reqs, envs, rsps)) && LaterState(sys, final, Stopped(stops, |reqs|))
    ensures ServedSoFar(sys, m, reqs, stops, envs)
  {
    hide System.Valid, Serve, Decisions, Answers, Agrees, OneMap, LaterState, Stopped, Message.IsResponse;
  }

  lemma AllResponses(m: map<Key, Item>, reqs: seq<Request>, envs: nat -> OpEnv, rsps: seq<Message>, held: seq<Decision>)
    requires AnsweredByOneMap(m, reqs, envs, rsps, held)
    ensures |held| == |rsps| == |reqs| && forall i :: 0 <= i < |rsps| ==> rsps[i].IsResponse()
  {
  }

  /** One more request: one more decision. */
  lemma DecisionsSnoc(sys: System, front: seq<Request>, req: Request, stops: nat -> set<Server>, envs: nat -> OpEnv)
    requires sys.Valid()
    ensures
      var before, n := Serve(sys, front, stops, envs).0, |front|;
      var held := Decisions(sys, front + [req], stops, envs);
      && held == Decisions(sys, front, stops, envs) + [held[n]]
      && held[n].cas == CasAt(Step(before, StopOp(stops(n)), envs(n)).0, req.key)
  {
    hide Serve, System.Valid, Step, CasAt, Primary;
    assert (front + [req])[..|front|] == front;
  }

  lemma LaterStill(sys: System, later: System, last: System, stopped: set<Server>, more: set<Server>)
    requires LaterState(sys, later, stopped) && LaterState(later, last, more)
    ensures LaterState(sys, last, stopped + more)
  {
  }

  lemma StoppedNext(stops: nat -> set<Server>, n: nat)
    ensures Stopped(stops, n + 1) == Stopped(stops, n) + stops(n)
  {
  }

  lemma NothingServed(sys: System, m: map<Key, Item>, stops: nat -> set<Server>, envs: nat -> OpEnv)
    requires sys.Valid() && Agrees(sys, m)
    ensures ServedSoFar(sys, m, [], stops, envs)
  {
    hide System.Valid, Answers, Agrees;
  }

  /** Availability is a matter of the lists and of who is running. */
  lemma SameShape(sys: System, later: System, stopped: set<Server>, more: set<Server>)
    requires LaterState(sys, later, stopped) && Outlasts(sys, stopped) && Outlasts(sys, stopped + more)
    ensures later.Available() && Outlasts(later, more)
  {
    hide HasLive, ListFor;
    assert later.live - more == sys.live - (stopped + more);
  }

  lemma LongerConversation(m: map<Key, Item>, reqs: seq<Request>, envs: nat -> OpEnv, rsps: seq<Message>,
                           held: seq<Decision>, req: Request, rsp: Message, last: Decision)
    requires AnsweredByOneMap(m, reqs, envs, rsps, held)
    requires rsp.IsResponse() && Answers(OneMap(m, reqs, envs, rsps), last.cas, req, rsp)
    ensures AnsweredByOneMap(m, reqs + [req], envs, rsps + [rsp], held + [last])
    ensures OneMap(m, reqs + [req], envs, rsps + [rsp]) == Updated(OneMap(m, reqs, envs, rsps), req, envs(|reqs|), rsp)
  {
    hide Answers, Updated, OneMap, Message.IsResponse;
    var reqs', rsps', held' := reqs + [req], rsps + [rsp], held + [last];
    OneMapNext(m, reqs, envs, rsps, req, rsp);
    forall i | 0 <= i < |reqs'|
      ensures Answers(OneMap(m, reqs'[..i], envs, rsps'[..i]), held'[i].cas, reqs'[i], rsps'[i])
    {
      assert i == |reqs| ==> reqs'[..i] == reqs && rsps'[..i] == rsps;
      assert i < |reqs| ==> reqs'[..i] == reqs[..i] && rsps'[..i] == rsps[..i];
    }
  }

  lemma OneMapNext(m: map<Key, Item>, reqs: seq<Request>, envs: nat -> OpEnv, rsps: seq<Message>, req: Request,
                   rsp: Message)
    requires |rsps| == |reqs| && rsp.IsResponse() && forall i :: 0 <= i < |rsps| ==> rsps[i].IsResponse()
    ensures OneMap(m, reqs + [req], envs, rsps + [rsp]) == Updated(OneMap(m, reqs, envs, rsps), req, envs(|reqs|), rsp)
  {
    hide Updated, Message.IsResponse;
    assert (reqs + [req])[..|reqs|] == reqs && (rsps + [rsp])[..|reqs|] == rsps;
  }

  /** So a client can rely on the CAS of a GET: as long as the same replica decides,
      its REPLACE with that CAS succeeds exactly if no request in between has written
      or deleted the key. */
  lemma ReplaceAfterGet(m: map<Key, Item>, reqs: seq<Request>, envs: nat -> OpEnv, rsps: seq<Message>,
                        held: seq<Decision>, i: nat, j: nat)
    requires ConversationOfOneMap(m, reqs, envs, rsps, held) && i < j < |reqs| && held[i].server == held[j].server
    requires reqs[i].GetReq? && rsps[i].status == NO_ERROR
    requires reqs[j].StoreReq? && reqs[j].kind == ReplaceKind && reqs[j].key == reqs[i].key
    requires reqs[j].cas == held[i].cas
    ensures rsps[j].status == NO_ERROR <==> !TouchedBetween(reqs, rsps, reqs[i].key, i, j)
  {
    hide OneMap, TouchedBetween;
    var before, now := OneMap(m, reqs[..i], envs, rsps[..i]), OneMap(m, reqs[..j], envs, rsps[..j]);
    assert Answers(before, held[i].cas, reqs[i], rsps[i]);
    assert Answers(now, held[j].cas, reqs[j], rsps[j]);
  }

  // ------------------------------------------------------- requests on the wire

  /** A message a length field and the receive buffer can take. */
  ghost predicate Sendable(msg: Message) {
    RoundTrip.Fits(msg) && |ToWire(msg)| + BUFLEN <= 0x1_0000_0000
  }

  ghost predicate AllSendable(msgs: seq<Message>) {
    forall i :: 0 <= i < |msgs| ==> Sendable(msgs[i])
  }

  lemma RequestsAreFaithful(req: Request)
    ensures RoundTrip.Faithful(req)
  {
  }

  lemma {:induction false} AllServed(msgs: seq<Message>)
    requires forall i :: 0 <= i < |msgs| ==> ClassMatches(msgs[i]) && IsServed(msgs[i])
    ensures Requests(msgs) == msgs
  {
    hide ClassMatches, IsServed;
    if msgs != [] {
      AllServed(msgs[1..]);
      assert msgs == [msgs[0]] + msgs[1..];
    }
  }

  /** What a client prints is what the thread takes off the stream. */
  lemma RequestsArrive(reqs: seq<Request>)
    requires AllSendable(reqs)
    ensures WellFormedStream(Flatten(PrintAll(reqs)))
    ensures RequestsIn(Flatten(PrintAll(reqs))) == reqs
  {
    hide RoundTrip.Faithful, RoundTrip.Fits, ToWire, WellFormedStream, MessagesIn, Flatten, ClassMatches, IsServed;
    forall i | 0 <= i < |reqs|
      ensures RoundTrip.Faithful(reqs[i])
    {
      RequestsAreFaithful(reqs[i]);
    }
    Framing.SentIsReceived(reqs);
    AllServed(reqs);
  }

  // ------------------------------------------------------ responses on the wire

  /** The packet carries the response: every header field, the key and the value. */
  ghost predicate Carries(packet: Octets, rsp: Message)
    requires rsp.IsResponse()
  {
    && Framing.IsPacket(packet)
    && !RequestMagic(packet) && OpCodeOf(packet) == rsp.opCode && OpaqueOf(packet) == rsp.opaqueId
    && VBucketOrStatusOf(packet) == rsp.status && CasOf(packet) == rsp.cas
    && KeyOf(packet) == rsp.key && ValueOf(packet) == rsp.Value()
  }

  /** What this program's own parser makes of it: the class of a GET response and of
      an ADD or REPLACE response is kept, any other becomes a plain response. */
  ghost predicate Echoes(rsp: Message, msg: Message) {
    && rsp.IsResponse() && msg.IsResponse()
    && msg.opCode == rsp.opCode && msg.opaqueId == rsp.opaqueId && msg.cas == rsp.cas
    && msg.status == rsp.status && msg.key == rsp.key
    && (rsp.GetRsp? && rsp.opCode == GET ==> msg.GetRsp? && msg.value == rsp.value)
  }

  lemma PrintedResponse(rsp: Message)
    requires rsp.IsResponse() && Sendable(rsp)
    ensures Carries(ToWire(rsp), rsp) && Echoes(rsp, Decode(ToWire(rsp)))
  {
    hide Header, ToWire, Read16, Read32, Read64, Message.Extra;
    var w := ToWire(rsp);
    assert w + [] == w;
    RoundTrip.Sections(rsp, []);
    RoundTrip.HeaderFields(rsp, w);
  }

  /** Every response sent arrives as one packet, in order. */
  lemma ResponsesArrive(rsps: seq<Message>)
    requires AllSendable(rsps) && forall i :: 0 <= i < |rsps| ==> rsps[i].IsResponse()
    ensures
      var bytes := Flatten(PrintAll(rsps));
      && WellFormedStream(bytes) && |MessagesIn(bytes)| == |rsps|
      && (forall i :: 0 <= i < |rsps| ==> Echoes(rsps[i], MessagesIn(bytes)[i]))
  {
    hide Decode, Echoes, MessagesIn, WellFormedStream, Flatten, PrintAll, Framing.DecodeAll, Sendable, WellFormed,
         FrameSize,
         Message.IsResponse, Carries;
    var packets := PrintAll(rsps);
    PrintedLength(rsps);
    forall i | 0 <= i < |packets|
      ensures Framing.IsPacket(packets[i]) && |packets[i]| + BUFLEN <= 0x1_0000_0000
      ensures Echoes(rsps[i], Decode(packets[i]))
    {
      ResponsePacket(rsps, i);
    }
    Framing.EmptyIsIncomplete();
    Framing.PacketsInOrder(packets, []);
    assert Flatten(packets) + [] == Flatten(packets);
    forall i | 0 <= i < |packets|
      ensures |Framing.DecodeAll(packets)| == |packets| && Framing.DecodeAll(packets)[i] == Decode(packets[i])
    {
      Framing.DecodedAt(packets, i);
    }
    if packets == [] {
      NothingDecoded();
    } else {
      Framing.DecodedAt(packets, 0);
    }
  }

  lemma NothingDecoded()
    ensures Framing.DecodeAll([]) == []
  {
  }

  lemma PrintedLength(msgs: seq<Message>)
    ensures |PrintAll(msgs)| == |msgs|
  {
    if msgs != [] {
      PrintedAt(msgs, 0);
    }
  }

  lemma ResponsePacket(rsps: seq<Message>, i: nat)
    requires AllSendable(rsps) && i < |rsps| && rsps[i].IsResponse()
    ensures |PrintAll(rsps)| == |rsps|
    ensures
      var packet := PrintAll(rsps)[i];
      && |packet| + BUFLEN <= 0x1_0000_0000 && Carries(packet, rsps[i]) && Framing.IsPacket(packet)
      && |packet| >= HEADER && WellFormed(packet) && |packet| >= FrameSize(packet) && Echoes(rsps[i], Decode(packet))
  {
    hide ToWire, PrintAll, Decode, RoundTrip.Fits, WellFormed, FrameSize, Echoes, OpCodeOf, OpaqueOf,
         VBucketOrStatusOf, CasOf,
         KeyOf, ValueOf, RequestMagic, Message.Value;
    PrintedAt(rsps, i);
    PrintedResponse(rsps[i]);
  }

  /** Records small enough to be sent back under their keys. */
  ghost predicate SmallItems(m: map<Key, Item>) {
    forall k :: k in m ==> |k| + |m[k].value| + HEADER + 4 + BUFLEN <= 0x1_0000_0000
  }

  lemma {:induction false} OneMapIsSmall(m: map<Key, Item>, reqs: seq<Request>, envs: nat -> OpEnv, rsps: seq<Message>)
    requires SmallItems(m) && AllSendable(reqs)
    requires |rsps| == |reqs| && forall i :: 0 <= i < |rsps| ==> rsps[i].IsResponse()
    ensures SmallItems(OneMap(m, reqs, envs, rsps))
  {
    hide SmallItems, Sendable, Updated, Message.IsResponse;
    if reqs != [] {
      var n := |reqs| - 1;
      OneMapIsSmall(m, reqs[..n], envs, rsps[..n]);
      UpdatedIsSmall(OneMap(m, reqs[..n], envs, rsps[..n]), reqs[n], envs(n), rsps[n]);
    }
  }

  lemma UpdatedIsSmall(m: map<Key, Item>, req: Request, env: OpEnv, rsp: Message)
    requires SmallItems(m) && Sendable(req) && rsp.IsResponse()
    ensures SmallItems(Updated(m, req, env, rsp))
  {
    hide ToWire, Header, IsServed, ClassMatches;
    assert req.StoreReq? ==> |req.Extra()| == 8 && req.Value() == req.value;
  }

  lemma ResponseIsSendable(m: map<Key, Item>, held: nat, req: Request, rsp: Message)
    requires SmallItems(m) && Sendable(req) && Answers(m, held, req, rsp)
    ensures Sendable(rsp)
  {
    hide ToWire, Header, VERSION_TEXT, Write32;
    assert |VERSION_TEXT| == 24 by { VersionLength(); }
    assert |rsp.Extra()| <= 4;
    assert rsp.Value() == if rsp.GetRsp? then rsp.value else if rsp.VersionRsp? then rsp.version else [];
  }

  lemma VersionLength()
    ensures |VERSION_TEXT| == 24
  {
  }

  lemma ResponsesAreSendable(m: map<Key, Item>, reqs: seq<Request>, envs: nat -> OpEnv, rsps: seq<Message>,
                             held: seq<Decision>)
    requires SmallItems(m) && AllSendable(reqs) && AnsweredByOneMap(m, reqs, envs, rsps, held)
    ensures AllSendable(rsps)
  {
    hide SmallItems, Sendable, Answers, OneMap, Message.IsResponse;
    forall i | 0 <= i < |rsps|
      ensures Sendable(rsps[i])
    {
      OneMapIsSmall(m, reqs[..i], envs, rsps[..i]);
      ResponseIsSendable(OneMap(m, reqs[..i], envs, rsps[..i]), held[i].cas, reqs[i], rsps[i]);
    }
  }

  // ------------------------------------------------------ a client's session

  /** A way of cutting bytes into chunks. */
  ghost predicate Cuts(cut: Octets -> seq<Octets>) {
    forall s :: Receivable(cut(s)) && Flatten(cut(s)) == s
  }

  function ByteByByte(s: Octets): seq<Octets> {
    if s == [] then [] else [[s[0]]] + ByteByByte(s[1..])
  }

  /** There are such ways. */
  lemma {:induction false} ByteByByteCuts(s: Octets)
    ensures Receivable(ByteByByte(s)) && Flatten(ByteByByte(s)) == s
  {
    if s != [] {
      ByteByByteCuts(s[1..]);
      assert s == [s[0]] + s[1..];
    }
  }

  lemma {:induction false} StoppedGrows(stops: nat -> set<Server>, k: nat, n: nat)
    requires k <= n
    ensures Stopped(stops, k) <= Stopped(stops, n)
  {
    if k < n {
      StoppedGrows(stops, k, n - 1);
    }
  }

  /** The client's side: it receives the responses whose bytes it is handed. */
  method ReceiveResponses(chunks: seq<Octets>, ending: Ending, ghost rsps: seq<Message>)
    returns (received: seq<Message>, status: Status)
    requires Receivable(chunks) && Flatten(chunks) == Flatten(PrintAll(rsps))
    requires AllSendable(rsps) && forall i :: 0 <= i < |rsps| ==> rsps[i].IsResponse()
    ensures |received| == |rsps| && forall i :: 0 <= i < |rsps| ==> Echoes(rsps[i], received[i])
    ensures status == if ending == Closed then DISCONNECTED else ERROR
  {
    hide *;
    ResponsesArrive(rsps);
    var c := new Connection(chunks, ending);
    received, status := Framing.ReceiveAll(c);
  }

  /** A client prints any row of requests; the network cuts the bytes into any
      chunks; replicas stop, but never the last of a bucket; the bytes of the
      responses are cut into any chunks again. If no send fails, the client
      receives one response to each request, in order, with its opaque value, and
      as one map would answer; the running replicas end up holding that map. If
      the `n`-th send fails, the requests up to that one have been carried out, and
      the client has the responses before it. */
  method Session(reqs: seq<Request>, chunks: seq<Octets>, ending: Ending, b: Backend, ghost sys: System,
                 live: set<Server>,
                 ghost m: map<Key, Item>, stops: nat -> set<Server>, envs: nat -> OpEnv, accepts: nat -> bool,
                 cut: Octets -> seq<Octets>, closing: Ending)
    returns (received: seq<Message>, status: Status, ghost rsps: seq<Message>, ghost held: seq<Decision>,
             ghost final: System)
    requires AllSendable(reqs) && Flatten(chunks) == Flatten(PrintAll(reqs)) && Receivable(chunks)
    requires Represents(b, sys) && live == sys.live && sys.Valid() && Agrees(sys, m) && SmallItems(m)
    requires Outlasts(sys, Stopped(stops, |reqs|)) && Cuts(cut)
    modifies b`nodes
    ensures
      var n := FirstRefused(accepts, |reqs|);
      var k := ServedBefore(n, |reqs|);
      && n <= k <= |reqs|
      && ConversationOfOneMap(m, reqs[..k], envs, rsps, held)
      && Represents(b, final) && final.Valid() && Agrees(final, OneMap(m, reqs[..k], envs, rsps))
      && |received| == n
      && (forall i :: 0 <= i < n ==> Carries(ToWire(rsps[i]), rsps[i]) && Echoes(rsps[i], received[i]))
    ensures status == if closing == Closed then DISCONNECTED else ERROR
  {
    hide *;
    RequestsArrive(reqs);
    var c := new Connection(chunks, ending);
    final, rsps := ConnectionThread(c, b, sys, live, stops, envs, accepts);
    ghost var n := FirstRefused(accepts, |reqs|);
    ghost var k := ServedBefore(n, |reqs|);
    ServedResponses(sys, m, reqs, k, n, stops, envs);
    held := Decisions(sys, reqs[..k], stops, envs);
    var bytes := cut(c.written);
    CutWritten(c, cut, rsps[..n]);
    received, status := ReceiveResponses(bytes, closing, rsps[..n]);
  }

  lemma CutWritten(c: Connection, cut: Octets -> seq<Octets>, rsps: seq<Message>)
    requires c.Valid() && c.sent == rsps && Cuts(cut)
    ensures Receivable(cut(c.written)) && Flatten(cut(c.written)) == Flatten(PrintAll(rsps))
  {
    hide WellFormedStream, Flatten, PrintAll, Receivable;
  }

  /** What the thread has sent when it ends, as the client will see it. */
  lemma ServedResponses(sys: System, m: map<Key, Item>, reqs: seq<Request>, k: nat, n: nat,
                        stops: nat -> set<Server>, envs: nat -> OpEnv)
    requires sys.Valid() && Agrees(sys, m) && Outlasts(sys, Stopped(stops, |reqs|))
    requires SmallItems(m) && AllSendable(reqs)
    requires n <= k <= |reqs|
    ensures
      var (final, rsps) := Serve(sys, reqs[..k], stops, envs);
      && ConversationOfOneMap(m, reqs[..k], envs, rsps, Decisions(sys, reqs[..k], stops, envs))
      && |rsps| == k && (forall i :: 0 <= i < k ==> rsps[i].IsResponse())
      && Agrees(final, OneMap(m, reqs[..k], envs, rsps))
      && AllSendable(rsps[..n]) && forall i :: 0 <= i < n ==> Carries(ToWire(rsps[i]), rsps[i])
  {
    hide Serve, Agrees, Outlasts, SmallItems, Sendable, Answers, OneMap, Carries, Message.IsResponse, System.Valid,
         ToWire,
         LaterState, Decisions, CasTells;
    var (final, rsps) := Serve(sys, reqs[..k], stops, envs);
    StoppedGrows(stops, k, |reqs|);
    OutlastsFewer(sys, Stopped(stops, |reqs|), Stopped(stops, k));
    ServedAsOneMap(sys, m, reqs[..k], stops, envs);
    ResponsesAreSendable(m, reqs[..k], envs, rsps, Decisions(sys, reqs[..k], stops, envs));
    forall i | 0 <= i < n
      ensures Carries(ToWire(rsps[i]), rsps[i])
    {
      PrintedResponse(rsps[i]);
    }
  }

  // -------------------------------------------------------- one such session

  /** A deployment of one empty replica. */
  function OneReplica(hash: Key -> int): System {
    System(hash, map["a" := Node(map[], 1)], {"a"}, _ => ["a"])
  }

  function SetRequest(key: Key, value: Octets): Request { StoreReq(SetKind, SET, key, 1, 0, 0, value, 0, 0) }

  function GetRequest(key: Key): Request { GetReq(GET, key, 2, 0, 0) }

  /** A session on an empty deployment: what a client sets it gets back, for every
      key and value that can be sent and all ways of cutting the bytes. */
  method SetThenGet(hash: Key -> int, key: Key, value: Octets, cut: Octets -> seq<Octets>)
    returns (received: seq<Message>)
    requires |key| < 0x1_0000 && |key| + |value| + HEADER + 8 + BUFLEN <= 0x1_0000_0000 && Cuts(cut)
    ensures |received| == 2 && received[0].IsResponse() && received[0].opaqueId == 1 && received[0].status == NO_ERROR
    ensures received[1].GetRsp? && received[1].opaqueId == 2
    ensures received[1].status == NO_ERROR && received[1].value == value
  {
    hide *;
    ghost var sys := OneReplica(hash);
    var lists := seq(128, _ => ["a"]);
    OneReplicaKnown(hash, lists);
    var b := new Backend(hash, map["a" := Node(map[], 1)], lists, lists);
    OneReplicaRuns(hash, b);
    var reqs := [SetRequest(key, value), GetRequest(key)];
    var accepts, stops := (_: nat) => true, (_: nat) => {};
    var envs := (_: nat) => OpEnv(Failing, TimeSpec(0, 0));
    PairIsSendable(key, value);
    NoneStop(sys, stops);
    var bytes := Flatten(PrintAll(reqs));
    CutAny(cut, bytes);
    ghost var rsps, held, final;
    var status;
    received, status, rsps, held, final :=
      Session(reqs, cut(bytes), Closed, b, sys, {"a"}, map[], stops, envs, accepts, cut, Closed);
    RefusedAt(accepts, 2, 2);
    ServedIs(2, 2);
    assert reqs[..2] == reqs;
    PairAnswered(key, value, envs, rsps, held);
    EchoesOf(rsps[0], received[0]);
    EchoesOf(rsps[1], received[1]);
  }

  lemma CutAny(cut: Octets -> seq<Octets>, s: Octets)
    requires Cuts(cut)
    ensures Receivable(cut(s)) && Flatten(cut(s)) == s
  {
  }

  lemma EchoesOf(rsp: Message, msg: Message)
    requires Echoes(rsp, msg)
    ensures rsp.IsResponse() && msg.IsResponse() && msg.opaqueId == rsp.opaqueId && msg.status == rsp.status
    ensures rsp.GetRsp? && rsp.opCode == GET ==> msg.GetRsp? && msg.value == rsp.value
  {
  }

  lemma OneReplicaKnown(hash: Key -> int, lists: seq<seq<Server>>)
    requires |lists| == 128 && forall b :: 0 <= b < 128 ==> lists[b] == ["a"]
    ensures forall b :: 0 <= b < 128 ==> Known(map["a" := Node(map[], 1)], lists[b])
  {
  }

  lemma OneReplicaRuns(hash: Key -> int, b: Backend)
    requires b.Valid() && b.hash == hash && b.nodes == map["a" := Node(map[], 1)]
    requires b.readReplicas == b.writeReplicas && forall i :: 0 <= i < 128 ==> b.readReplicas[i] == ["a"]
    ensures
      var sys := OneReplica(hash);
      sys.Valid() && sys.live == {"a"} && Represents(b, sys) && Agrees(sys, map[]) && SmallItems(map[])
  {
    var sys := OneReplica(hash);
    assert forall k :: ListFor(hash, sys.replicas, k) == ["a"];
  }

  lemma NoneStop(sys: System, stops: nat -> set<Server>)
    requires sys == OneReplica(sys.hash) && forall n: nat :: stops(n) == {}
    ensures Outlasts(sys, Stopped(stops, 2))
  {
    assert Stopped(stops, 0) == {} && Stopped(stops, 1) == {} && Stopped(stops, 2) == {};
    assert sys.live - {} == {"a"};
    forall k
      ensures HasLive(ListFor(sys.hash, sys.replicas, k), {"a"})
    {
      assert ListFor(sys.hash, sys.replicas, k)[0] in {"a"};
    }
  }

  lemma PairIsSendable(key: Key, value: Octets)
    requires |key| < 0x1_0000 && |key| + |value| + HEADER + 8 + BUFLEN <= 0x1_0000_0000
    ensures AllSendable([SetRequest(key, value), GetRequest(key)])
  {
    hide ToWire, Header;
  }

  /** What one map answers to the pair. */
  lemma PairAnswered(key: Key, value: Octets, envs: nat -> OpEnv, rsps: seq<Message>, held: seq<Decision>)
    requires ConversationOfOneMap(map[], [SetRequest(key, value), GetRequest(key)], envs, rsps, held)
    ensures |rsps| == 2 && rsps[0].IsResponse() && rsps[1].IsResponse()
    ensures rsps[0].opaqueId == 1 && rsps[0].status == NO_ERROR
    ensures rsps[1].GetRsp? && rsps[1].opCode == GET && rsps[1].opaqueId == 2
    ensures rsps[1].status == NO_ERROR && rsps[1].value == value
  {
    var reqs := [SetRequest(key, value), GetRequest(key)];
    assert reqs[..0] == [] && rsps[..0] == [] && 
           Answers(OneMap(map[], reqs[..0], envs, rsps[..0]), held[0].cas, reqs[0], rsps[0]);
    OneMapNext(map[], [], envs, [], reqs[0], rsps[0]);
    assert reqs[..1] == [] + [reqs[0]] && rsps[..1] == [] + [rsps[0]];
    assert Answers(OneMap(map[], reqs[..1], envs, rsps[..1]), held[1].cas, reqs[1], rsps[1]);
  }
}
