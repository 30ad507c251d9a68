/** The proxy's connection thread: requests come in as a chunked byte stream, each
    is carried out on the replicated backend and answered on the connection. */
module Proxy {
  import opened Bytes
  import opened Messages
  import opened Connections
  import opened Memcached
  import opened Replication
  import opened Refinement
  import WireFormat

  /** `1.6.0_beta1_106_g62c7e7a` */
  const VERSION_TEXT: Octets :=
    [49, 46, 54, 46, 48, 95, 98, 101, 116, 97, 49, 95, 49, 48, 54, 95, 103, 54, 50, 99, 55, 101, 55, 97]

  lemma VersionText()
    ensures |VERSION_TEXT| == 24
    ensures forall i :: 0 <= i < 24 ==> VERSION_TEXT[i] == "1.6.0_beta1_106_g62c7e7a"[i] as int
  {
  }

  /** Requests that are answered; anything else ends the connection. */
  predicate IsServed(m: Message) {
    m.IsRequest() && m.opCode in {GET, GETK, ADD, SET, REPLACE, DELETE, VERSION}
  }

  /** The class of a request is the one its handler casts it to. */
  predicate ClassMatches(m: Message) {
    IsServed(m) ==>
      && (m.opCode in {GET, GETK} ==> m.GetReq?)
      && (m.opCode in {ADD, SET, REPLACE} ==> m.StoreReq? && m.kind.OpCode() == m.opCode)
      && (m.opCode == DELETE ==> m.DeleteReq?)
      && (m.opCode == VERSION ==> m.VersionReq?)
  }

  /** Every message of a stream can be cast as its op code suggests. */
  lemma {:induction false} ParsedClassMatches(s: Octets)
    ensures forall i :: 0 <= i < |MessagesIn(s)| ==> ClassMatches(MessagesIn(s)[i])
    decreases |s|
  {
    hide ClassMatches, Frame;
    if Frame(s).Parsed? {
      FirstClassMatches(s);
      FrameShrinks(s);
      ParsedClassMatches(Frame(s).rest);
    }
  }

  lemma FirstClassMatches(s: Octets)
    requires Frame(s).Parsed?
    ensures ClassMatches(Frame(s).msg)
  {
    hide KeyOf, ValueOf, ExtraWord, OpaqueOf, CasOf, VBucketOrStatusOf, Read16, Read32, Read64, BodyLength, KeyLength;
  }

  type Request = m: Message | IsServed(m) && ClassMatches(m)
    witness VersionReq(VERSION, [], 0, 0, 0)

  /** The requests in front of the first message that ends the connection. */
  function Requests(msgs: seq<Message>): seq<Request>
    requires forall i :: 0 <= i < |msgs| ==> ClassMatches(msgs[i])
  {
    if |msgs| == 0 || !IsServed(msgs[0]) then []
    else assert ClassMatches(msgs[0]); [msgs[0]] + Requests(msgs[1..])
  }

  function RequestsIn(s: Octets): seq<Request> {
    ParsedClassMatches(s);
    Requests(MessagesIn(s))
  }

  /** By the bytes: requests with one of seven op codes are answered, one after another;
      anything else, or an incomplete packet, is the end. */
  lemma ServedIff(s: Octets)
    ensures
      var served := Frame(s).Parsed? && s[0] == 0x80 && s[1] in {0x00, 0x01, 0x02, 0x03, 0x04, 0x0b, 0x0c};
      && (served ==> RequestsIn(s) == [Frame(s).msg] + RequestsIn(Frame(s).rest))
      && (!served ==> RequestsIn(s) == [])
  {
    hide Frame, ClassMatches;
    FrameShrinks(s);
    ParsedClassMatches(s);
    if Frame(s).Parsed? {
      var m, rest := Frame(s).msg, Frame(s).rest;
      ParsedClassMatches(rest);
      assert MessagesIn(s)[0] == m;
      FirstRequest(m, MessagesIn(rest));
      WireFormat.ParsedHeader(s);
    }
  }

  // ---------------------------------------------------------- specification

  /** The backend operation behind a request. */
  function OpOf(m: Request): Op {
    if m.GetReq? then ReadOp(m.key)
    else if m.StoreReq? then WriteOp(m.kind, m.key, m.value, m.cas, m.expiry)
    else if m.DeleteReq? then DeleteOp(m.key)
    else NoOp
  }

  /** The reply has the shape the handler expects. */
  predicate Fitting(op: Op, reply: Reply) {
    match op
    case ReadOp(_) => reply.ReadDone?
    case WriteOp(_, _, _, _, _) => reply.Done?
    case DeleteOp(_) => reply.Done?
    case _ => reply == Nothing
  }

  lemma StepFits(sys: System, op: Op, env: OpEnv)
    requires sys.Valid()
    ensures Fitting(op, Step(sys, op, env).1)
  {
    hide Read, Write, Delete, FaultsOf;
  }

  /** The response to a read. A GETK response carries the key; the response to a
      GETK with an empty key is a plain GET response. */
  function ReadResponse(m: Request, read: ReadReply): Message
    requires m.GetReq?
  {
    var key := if m.opCode == GETK then m.key else [];
    GetRsp(if key != [] then GETK else GET, key, m.opaqueId, read.cas % 0x1_0000_0000_0000_0000,
           read.status, read.data, Some(0))
  }

  /** The response to each request. Statuses of writes and deletes pass through
      a byte. */
  function Respond(m: Request, reply: Reply): Message
    requires Fitting(OpOf(m), reply)
  {
    if m.GetReq? then ReadResponse(m, reply.read)
    else if m.StoreReq? then StoreRsp(m.opCode, [], m.opaqueId, 0, reply.status % 0x100)
    else if m.DeleteReq? then DeleteRsp(DELETE, [], m.opaqueId, 0, reply.status % 0x100)
    else VersionRsp(VERSION, [], m.opaqueId, 0, NO_ERROR, VERSION_TEXT)
  }

  /** One request; some replicas may stop before it is carried out. */
  function Handle(sys: System, m: Request, stopped: set<Server>, env: OpEnv): (System, Message)
    requires sys.Valid()
  {
    StepValid(sys, StopOp(stopped), env);
    var sys1 := Step(sys, StopOp(stopped), env).0;
    StepFits(sys1, OpOf(m), env);
    var (sys2, reply) := Step(sys1, OpOf(m), env);
    (sys2, Respond(m, reply))
  }

  /** The state and the responses after serving a row of requests. */
  ghost function Serve(sys: System, reqs: seq<Request>, stops: nat -> set<Server>, envs: nat -> OpEnv)
    : (r: (System, seq<Message>))
    requires sys.Valid()
    ensures r.0.Valid() && |r.1| == |reqs|
  {
    if reqs == [] then (sys, [])
    else
      var n := |reqs| - 1;
      var (before, responses) := Serve(sys, reqs[..n], stops, envs);
      HandleValid(before, reqs[n], stops(n), envs(n));
      var (after, response) := Handle(before, reqs[n], stops(n), envs(n));
      (after, responses + [response])
  }

  lemma HandleValid(sys: System, m: Request, stopped: set<Server>, env: OpEnv)
    requires sys.Valid()
    ensures Handle(sys, m, stopped, env).0.Valid()
  {
    hide Step, System.Valid;
    StepValid(sys, StopOp(stopped), env);
    StepValid(Step(sys, StopOp(stopped), env).0, OpOf(m), env);
  }

  // -------------------------------------------------------------- handlers

  /** The backend object is in the state of the deployment; buckets are read from
      and written to the same replicas. */
  ghost predicate Represents(b: Backend, sys: System)
    reads b
  {
    && b.Valid() && sys.Valid() && b.hash == sys.hash && b.nodes == sys.nodes
    && (forall k ::
          SameLists(b.readReplicas, b.writeReplicas, ListFor(sys.hash, sys.replicas, k), VBucketForKey(b.hash, k)))
  }

  ghost predicate SameLists(readLists: seq<seq<Server>>, writeLists: seq<seq<Server>>, list: seq<Server>,
                            bucket: Bucket) {
    bucket < |readLists| && bucket < |writeLists| && readLists[bucket] == writeLists[bucket] == list
  }

  /** `handle_get` */
  method HandleGet(b: Backend, ghost sys: System, live: set<Server>, m: Request, env: OpEnv) returns (response: Message)
    requires Represents(b, sys) && live == sys.live && m.GetReq?
    ensures Step(sys, OpOf(m), env).0 == sys && Step(sys, OpOf(m), env).1.ReadDone?
    ensures response == ReadResponse(m, Step(sys, OpOf(m), env).1.read)
  {
    hide Read, FaultsOf;
    ghost var list := ListFor(sys.hash, sys.replicas, m.key);
    assert SameLists(b.readReplicas, b.writeReplicas, list, VBucketForKey(b.hash, m.key));
    var fault := FaultsOf(live, b.readReplicas[VBucketForKey(b.hash, m.key)], env.down);
    var status, data, cas, comm := b.ReadData(m.key, fault);
    var key := if m.opCode == GETK then m.key else [];
    response := GetRsp(if key != [] then GETK else GET, key, m.opaqueId, cas % 0x1_0000_0000_0000_0000,
                       status, data, Some(0));
  }

  /** `handle_set_add_replace` */
  method HandleSetAddReplace(b: Backend, ghost sys: System, live: set<Server>, m: Request, env: OpEnv)
    returns (status: uint16)
    requires Represents(b, sys) && live == sys.live && m.StoreReq?
    modifies b`nodes
    ensures b.Valid() && Step(sys, OpOf(m), env) == (sys.(nodes := b.nodes), Done(status))
  {
    hide Write, FaultsOf;
    ghost var list := ListFor(sys.hash, sys.replicas, m.key);
    assert SameLists(b.readReplicas, b.writeReplicas, list, VBucketForKey(b.hash, m.key));
    var fault := FaultsOf(live, b.writeReplicas[VBucketForKey(b.hash, m.key)], env.down);
    var comm;
    status, comm := b.WriteData(m.opCode, m.key, m.value, m.cas, m.expiry, env.time, fault);
  }

  /** `handle_delete` */
  method HandleDelete(b: Backend, ghost sys: System, live: set<Server>, m: Request, env: OpEnv)
    returns (status: uint16)
    requires Represents(b, sys) && live == sys.live && m.DeleteReq?
    modifies b`nodes
    ensures b.Valid() && Step(sys, OpOf(m), env) == (sys.(nodes := b.nodes), Done(status))
  {
    hide Delete, FaultsOf;
    ghost var list := ListFor(sys.hash, sys.replicas, m.key);
    assert SameLists(b.readReplicas, b.writeReplicas, list, VBucketForKey(b.hash, m.key));
    var fault := FaultsOf(live, b.readReplicas[VBucketForKey(b.hash, m.key)], env.down);
    status := b.DeleteData(m.key, fault);
  }

  /** The switch on the op code. */
  method Dispatch(b: Backend, ghost sys: System, live: set<Server>, m: Request, env: OpEnv) returns (response: Message)
    requires Represents(b, sys) && live == sys.live
    modifies b`nodes
    ensures Represents(b, Step(sys, OpOf(m), env).0)
    ensures Step(sys, OpOf(m), env).0.live == live && Fitting(OpOf(m), Step(sys, OpOf(m), env).1)
    ensures response == Respond(m, Step(sys, OpOf(m), env).1)
  {
    hide Read, Write, Delete, FaultsOf, ListFor, AllValid, Known, VERSION_TEXT;
    StepValid(sys, OpOf(m), env);
    StepFits(sys, OpOf(m), env);
    if m.opCode == GET || m.opCode == GETK {
      response := HandleGet(b, sys, live, m, env);
    } else if m.opCode == ADD || m.opCode == SET || m.opCode == REPLACE {
      var status := HandleSetAddReplace(b, sys, live, m, env);
      response := StoreRsp(m.opCode, [], m.opaqueId, 0, status % 0x100);
    } else if m.opCode == DELETE {
      var status := HandleDelete(b, sys, live, m, env);
      response := DeleteRsp(DELETE, [], m.opaqueId, 0, status % 0x100);
    } else {
      response := VersionRsp(VERSION, [], m.opaqueId, 0, NO_ERROR, VERSION_TEXT);
    }
  }

  /** One more request of a connection: some replicas may have stopped, then the
      request is carried out. */
  method ServeOne(b: Backend, ghost start: System, ghost sys: System, ghost served: seq<Request>, live: set<Server>,
                  m: Request, stopped: set<Server>, env: OpEnv, ghost stops: nat -> set<Server>,
                  ghost envs: nat -> OpEnv)
    returns (response: Message, ghost next: System)
    requires start.Valid() && Represents(b, sys) && live == sys.live && sys == Serve(start, served, stops, envs).0
    requires stopped == stops(|served|) && env == envs(|served|)
    modifies b`nodes
    ensures Represents(b, next) && next.Valid() && next.live == live - stopped
    ensures Serve(start, served + [m], stops, envs) == (next, Serve(start, served, stops, envs).1 + [response])
  {
    hide Handle, System.Valid, Represents, Respond, Fitting, Step, Serve;
    ghost var sys1 := Step(sys, StopOp(stopped), env).0;
    StopRepresents(b, sys, stopped, env);
    response := Dispatch(b, sys1, live - stopped, m, env);
    HandleIs(sys, m, stopped, env);
    next := Step(sys1, OpOf(m), env).0;
    ServeSnoc(start, served, m, stops, envs);
  }

  /** Receiving, up to the switch on the op code: the next request, or none if the
      connection is to be closed. */
  method NextRequest(c: Connection) returns (m: Option<Request>)
    requires c.Valid()
    modifies c
    ensures c.Valid() && c.sent == old(c.sent) && c.written == old(c.written)
    ensures m.Some? ==>
              && old(c.open) && c.open && |c.Pending()| < |old(c.Pending())|
              && old(RequestsIn(c.Pending())) == [m.value] + RequestsIn(c.Pending())
    ensures m == None ==> !old(c.open) || old(RequestsIn(c.Pending())) == []
    ensures !old(c.open) ==> !c.open
  {
    hide ClassMatches, Frame, IsServed, WellFormedStream, Flatten, Prints, Receivable;
    ghost var before := c.Pending();
    FrameShrinks(before);
    ParsedClassMatches(before);
    var status, msg := c.Recv();
    if status == Status.OK {
      ghost var rest := MessagesIn(c.Pending());
      ParsedClassMatches(c.Pending());
      assert MessagesIn(before) == [msg.value] + rest;
      assert ClassMatches(MessagesIn(before)[0]);
      FirstRequest(msg.value, rest);
      if IsServed(msg.value) {
        return Some(msg.value);
      }
    }
    return None;
  }

  lemma FirstRequest(m: Message, rest: seq<Message>)
    requires ClassMatches(m) && forall j :: 0 <= j < |rest| ==> ClassMatches(rest[j])
    ensures forall j :: 0 <= j < |[m] + rest| ==> ClassMatches(([m] + rest)[j])
    ensures IsServed(m) ==> Requests([m] + rest) == [m] + Requests(rest)
    ensures !IsServed(m) ==> Requests([m] + rest) == []
  {
    hide ClassMatches;
    assert ([m] + rest)[1..] == rest;
  }

  /** The first of `n` sends that fails; `n` if none does. */
  function FirstRefused(accepts: nat -> bool, n: nat): (i: nat)
    ensures i <= n && (forall j :: 0 <= j < i ==> accepts(j)) && (i < n ==> !accepts(i))
  {
    if n == 0 then 0
    else
      var i := FirstRefused(accepts, n - 1);
      if i < n - 1 || !accepts(i) then i else n
  }

  /** A request is carried out before its response can fail to be sent. */
  function ServedBefore(refused: nat, n: nat): nat {
    if refused < n then refused + 1 else n
  }

  /** `connection_thread_fn`: for every chunking of the stream, exactly the requests
      before the first QUIT, unknown op code or response are carried out, and each
      is answered once, in order. If sending a response fails, its request has been
      carried out and nothing more is done. */
  method ConnectionThread(c: Connection, b: Backend, ghost sys: System, live: set<Server>,
                          stops: nat -> set<Server>, envs: nat -> OpEnv, accepts: nat -> bool)
    returns (ghost final: System, ghost responses: seq<Message>)
    requires c.Valid() && c.open && Represents(b, sys) && live == sys.live
    modifies c, b`nodes
    ensures c.Valid() && !c.open && Represents(b, final) && sys.Valid()
    ensures
      var reqs := old(RequestsIn(c.Pending()));
      var n := FirstRefused(accepts, |reqs|);
      var k := ServedBefore(n, |reqs|);
      && k <= |reqs| && |responses| == k && n <= k
      && (final, responses) == Serve(sys, reqs[..k], stops, envs)
      && c.sent == old(c.sent) + responses[..n]
  {
    hide *;
    ServeNone(b, sys, stops, envs);
    final, responses := sys, [];
    ghost var served: seq<Request> := [];
    ghost var all := RequestsIn(c.Pending());
    ghost var refused := false;
    var i, running, keepGoing := 0, live, true;
    while keepGoing
      invariant c.Valid() && Represents(b, final) && i == |served| == |responses| && running == final.live
      invariant (final, responses) == Serve(sys, served, stops, envs)
      invariant served <= all
      invariant refused ==> i > 0 && !accepts(i - 1) && !c.open
      invariant forall j :: 0 <= j < (if refused then i - 1 else i) ==> accepts(j)
      invariant c.sent == old(c.sent) + responses[..if refused then i - 1 else i]
      invariant !refused && keepGoing ==> c.open && all == served + RequestsIn(c.Pending())
      invariant !refused && !keepGoing ==> all == served
      decreases keepGoing, |c.Pending()|
    {
      var m := NextRequest(c);
      if m.Some? {
        var response;
        response, final := ServeOne(b, sys, final, served, running, m.value, stops(i), envs(i), stops, envs);
        var ok := c.Send(response, accepts(i));
        OneMoreServed(all, served, m.value, RequestsIn(c.Pending()));
        served, responses := served + [m.value], responses + [response];
        i, running, refused := i + 1, running - stops(i), !ok;
      } else {
        keepGoing := false;
      }
    }
    c.Disconnect();
    RefusedAt(accepts, |all|, if refused then i - 1 else i);
    ServedIs(if refused then i - 1 else i, |all|);
    assert served == all[..i];
  }

  lemma OneMoreServed(all: seq<Request>, served: seq<Request>, m: Request, rest: seq<Request>)
    requires all == served + ([m] + rest)
    ensures all == (served + [m]) + rest && served + [m] <= all
  {
  }

  lemma RefusedAt(accepts: nat -> bool, n: nat, i: nat)
    requires i <= n && (forall j :: 0 <= j < i ==> accepts(j)) && (i < n ==> !accepts(i))
    ensures FirstRefused(accepts, n) == i
  {
  }

  lemma ServedIs(refused: nat, n: nat)
    ensures refused < n ==> ServedBefore(refused, n) == refused + 1
    ensures refused >= n ==> ServedBefore(refused, n) == n
  {
  }

  lemma ServeNone(b: Backend, sys: System, stops: nat -> set<Server>, envs: nat -> OpEnv)
    requires Represents(b, sys)
    ensures sys.Valid() && Serve(sys, [], stops, envs) == (sys, [])
  {
    hide System.Valid;
  }

  lemma StopRepresents(b: Backend, sys: System, stopped: set<Server>, env: OpEnv)
    requires Represents(b, sys)
    ensures sys.Valid() && Represents(b, Step(sys, StopOp(stopped), env).0)
    ensures Step(sys, StopOp(stopped), env).0.live == sys.live - stopped
  {
    hide AllValid, Known, ListFor, SameLists;
  }

  lemma HandleIs(sys: System, m: Request, stopped: set<Server>, env: OpEnv)
    requires sys.Valid()
    ensures
      var sys1 := Step(sys, StopOp(stopped), env).0;
      && sys1.Valid()
      && var (sys2, reply) := Step(sys1, OpOf(m), env);
        && sys2.Valid() && Fitting(OpOf(m), reply) && Handle(sys, m, stopped, env) == (sys2, Respond(m, reply))
  {
    hide Step, System.Valid, Fitting, Respond;
    StepValid(sys, StopOp(stopped), env);
    var sys1 := Step(sys, StopOp(stopped), env).0;
    StepValid(sys1, OpOf(m), env);
    StepFits(sys1, OpOf(m), env);
  }

  lemma ServeSnoc(sys: System, reqs: seq<Request>, m: Request, stops: nat -> set<Server>, envs: nat -> OpEnv)
    requires sys.Valid()
    ensures
      var (before, responses) := Serve(sys, reqs, stops, envs);
      var (after, response) := Handle(before, m, stops(|reqs|), envs(|reqs|));
      Serve(sys, reqs + [m], stops, envs) == (after, responses + [response])
  {
    hide Handle;
    assert (reqs + [m])[..|reqs|] == reqs;
  }

  /** Every response belongs to its request: same opaque value, and same op code
      exactly unless the request is a GETK with an empty key. */
  lemma {:induction false} ResponsesMatch(sys: System, reqs: seq<Request>, stops: nat -> set<Server>,
                                          envs: nat -> OpEnv,
                                          i: nat)
    requires sys.Valid() && i < |reqs|
    ensures
      var response := Serve(sys, reqs, stops, envs).1[i];
      && response.IsResponse() && response.opaqueId == reqs[i].opaqueId
      && (response.opCode == reqs[i].opCode <==> !(reqs[i].opCode == GETK && reqs[i].key == []))
  {
    hide Step, System.Valid;
    var n := |reqs| - 1;
    if i < n {
      ResponsesMatch(sys, reqs[..n], stops, envs, i);
    } else {
      var before := Serve(sys, reqs[..n], stops, envs).0;
      StepValid(before, StopOp(stops(n)), envs(n));
      StepFits(Step(before, StopOp(stops(n)), envs(n)).0, OpOf(reqs[n]), envs(n));
    }
  }
}
