/** The CAS values behind a row of requests: who decides about each request's key,
    with which CAS, and what that tells about the requests in between. */
module ClientCas {
  import opened Bytes
  import opened Messages
  import opened Memcached
  import opened Replication
  import opened Refinement
  import opened LostUpdates
  import opened Proxy

  /** The replica that decides about a key, and the CAS of its record, 0 if none. */
  datatype Decision = Decision(server: Option<Server>, cas: nat)

  /** The deployment as request `i` meets it. */
  ghost function StateAt(sys: System, reqs: seq<Request>, stops: nat -> set<Server>, envs: nat -> OpEnv, i: nat)
    : (r: System)
    requires sys.Valid() && i <= |reqs|
    ensures r.Valid()
  {
    var before := Serve(sys, reqs[..i], stops, envs).0;
    StepValid(before, StopOp(stops(i)), envs(i));
    Step(before, StopOp(stops(i)), envs(i)).0
  }

  ghost function DecisionAt(sys: System, k: Key): Decision {
    Decision(Primary(sys, k), CasAt(sys, k))
  }

  /** The decision behind each request. */
  ghost function Decisions(sys: System, reqs: seq<Request>, stops: nat -> set<Server>, envs: nat -> OpEnv)
    : (held: seq<Decision>)
    requires sys.Valid()
    ensures |held| == |reqs|
  {
    if reqs == [] then []
    else
      var n := |reqs| - 1;
      Decisions(sys, reqs[..n], stops, envs) + [DecisionAt(StateAt(sys, reqs, stops, envs, n), reqs[n].key)]
  }

  lemma {:induction false} DecisionIs(sys: System, reqs: seq<Request>, stops: nat -> set<Server>, envs: nat -> OpEnv,
                                      i: nat)
    requires sys.Valid() && i < |reqs|
    ensures Decisions(sys, reqs, stops, envs)[i] == DecisionAt(StateAt(sys, reqs, stops, envs, i), reqs[i].key)
  {
    hide Serve, DecisionAt, System.Valid, Step;
    var n := |reqs| - 1;
    if i < n {
      DecisionIs(sys, reqs[..n], stops, envs, i);
      assert reqs[..n][..i] == reqs[..i] && reqs[..n][i] == reqs[i];
    }
  }

  // -------------------------------------------------------------- one request

  /** As the client sees it, the request has written or deleted the key. */
  predicate TouchesKey(req: Request, rsp: Message, k: Key)
    requires rsp.IsResponse()
  {
    req.key == k && ((req.StoreReq? && rsp.status == NO_ERROR) || req.DeleteReq?)
  }

  lemma StatusIsSmall(sys: System, op: Op, env: OpEnv)
    requires sys.Valid() && op.WriteOp?
    ensures Step(sys, op, env).1.Done? && Step(sys, op, env).1.status < 0x100
  {
    hide SetAll, FaultsOf, ListFor;
  }

  /** What a client sees is what has happened. */
  lemma RequestTouches(sys: System, req: Request, env: OpEnv, k: Key)
    requires sys.Valid()
    ensures Fitting(OpOf(req), Step(sys, OpOf(req), env).1)
    ensures
      var rsp := Respond(req, Step(sys, OpOf(req), env).1);
      rsp.IsResponse() && (TouchesKey(req, rsp, k) <==> Touches(sys, OpOf(req), env, k))
  {
    hide Step, System.Valid, VERSION_TEXT;
    StepFits(sys, OpOf(req), env);
    if req.StoreReq? {
      StatusIsSmall(sys, OpOf(req), env);
    }
  }

  /** Request `n` of a row: what it leaves behind and how it is answered. */
  lemma ServeAt(sys: System, reqs: seq<Request>, stops: nat -> set<Server>, envs: nat -> OpEnv, n: nat)
    requires sys.Valid() && n < |reqs|
    ensures
      var at := StateAt(sys, reqs, stops, envs, n);
      && Fitting(OpOf(reqs[n]), Step(at, OpOf(reqs[n]), envs(n)).1)
      && Serve(sys, reqs[..n + 1], stops, envs).0 == Step(at, OpOf(reqs[n]), envs(n)).0
      && Serve(sys, reqs, stops, envs).1[n] == Respond(reqs[n], Step(at, OpOf(reqs[n]), envs(n)).1)
  {
    hide Step, Serve, System.Valid, Respond, Fitting, OpOf, Handle;
    var before := Serve(sys, reqs[..n], stops, envs).0;
    HandleIs(before, reqs[n], stops(n), envs(n));
    ServeSnoc(sys, reqs[..n], reqs[n], stops, envs);
    assert reqs[..n] + [reqs[n]] == reqs[..n + 1];
    ServePrefix(sys, reqs, stops, envs, n + 1, n);
  }

  lemma {:induction false} ServePrefix(sys: System, reqs: seq<Request>, stops: nat -> set<Server>, envs: nat -> OpEnv,
                                       k: nat, n: nat)
    requires sys.Valid() && n < k <= |reqs|
    ensures Serve(sys, reqs[..k], stops, envs).1[n] == Serve(sys, reqs, stops, envs).1[n]
  {
    hide System.Valid, Handle;
    if k == |reqs| {
      assert reqs[..k] == reqs;
    } else {
      var last := |reqs| - 1;
      ServePrefix(sys, reqs[..last], stops, envs, k, n);
      assert reqs[..last][..k] == reqs[..k];
    }
  }

  // --------------------------------------------------------------- whole rows

  /** Some request from `i` on and before `j` has touched the key. */
  ghost predicate TouchedBetween(reqs: seq<Request>, rsps: seq<Message>, k: Key, i: nat, j: nat)
    requires |rsps| == |reqs| && j <= |reqs| && forall n :: 0 <= n < |rsps| ==> rsps[n].IsResponse()
  {
    exists n :: i <= n < j && TouchesKey(reqs[n], rsps[n], k)
  }

  lemma TouchedBetweenNext(reqs: seq<Request>, rsps: seq<Message>, k: Key, i: nat, j: nat)
    requires |rsps| == |reqs| && i < j <= |reqs| && forall n :: 0 <= n < |rsps| ==> rsps[n].IsResponse()
    ensures TouchedBetween(reqs, rsps, k, i, j) <==>
            TouchedBetween(reqs, rsps, k, i, j - 1) || TouchesKey(reqs[j - 1], rsps[j - 1], k)
  {
  }

  /** How the deciding replica's record of `k` stands at request `j` compared with
      request `i`. */
  ghost predicate Tracked(a: System, z: System, s: Server, k: Key, touched: bool) {
    && z.hash == a.hash && z.replicas == a.replicas && z.live <= a.live
    && Primary(z, k) == Some(s) && s in a.nodes && s in z.nodes && Evolves(a.nodes[s], z.nodes[s])
    && (!touched ==> z.nodes[s].Entry(k) == a.nodes[s].Entry(k))
    && (touched ==> NewSince(a.nodes[s], z.nodes[s], k))
  }

  lemma {:induction false} RowTracks(sys: System, reqs: seq<Request>, stops: nat -> set<Server>, envs: nat -> OpEnv,
                                     rsps: seq<Message>, k: Key, s: Server, i: nat, j: nat)
    requires sys.Valid() && i <= j < |reqs| && rsps == Serve(sys, reqs, stops, envs).1
    requires forall n :: 0 <= n < |rsps| ==> rsps[n].IsResponse()
    requires Primary(StateAt(sys, reqs, stops, envs, i), k) == Some(s)
    requires s in StateAt(sys, reqs, stops, envs, i).nodes && s in StateAt(sys, reqs, stops, envs, j).live
    ensures Tracked(StateAt(sys, reqs, stops, envs, i), StateAt(sys, reqs, stops, envs, j), s, k,
                    TouchedBetween(reqs, rsps, k, i, j))
    decreases j
  {
    hide Step, Serve, System.Valid, Tracked, Touches, TouchedBetween, TouchesKey, Primary, Respond, Fitting, OpOf,
         Message.IsResponse, StateAt;
    var a := StateAt(sys, reqs, stops, envs, i);
    if i == j {
      TrackedItself(a, s, k);
      NothingBetween(reqs, rsps, k, i);
    } else {
      var n := j - 1;
      var before, after := StateAt(sys, reqs, stops, envs, n), StateAt(sys, reqs, stops, envs, j);
      ServeAt(sys, reqs, stops, envs, n);
      NextState(sys, reqs, stops, envs, n);
      RequestTouches(before, reqs[n], envs(n), k);
      TouchedBetweenNext(reqs, rsps, k, i, j);
      OpIsNoStop(reqs[n]);
      var done := Step(before, OpOf(reqs[n]), envs(n)).0;
      StepShape(before, OpOf(reqs[n]), envs(n));
      StepShape(done, StopOp(stops(j)), envs(j));
      RowTracks(sys, reqs, stops, envs, rsps, k, s, i, n);
      NextTracked(a, before, OpOf(reqs[n]), envs(n), after, s, k, TouchedBetween(reqs, rsps, k, i, n));
    }
  }

  lemma OpIsNoStop(req: Request)
    ensures !OpOf(req).StopOp?
  {
  }

  /** A request, then stops: the next state. */
  lemma NextState(sys: System, reqs: seq<Request>, stops: nat -> set<Server>, envs: nat -> OpEnv, n: nat)
    requires sys.Valid() && n + 1 < |reqs|
    ensures
      var done := Step(StateAt(sys, reqs, stops, envs, n), OpOf(reqs[n]), envs(n)).0;
      && done.Valid()
      && StateAt(sys, reqs, stops, envs, n + 1) == Step(done, StopOp(stops(n + 1)), envs(n + 1)).0
      && StateAt(sys, reqs, stops, envs, n + 1).nodes == done.nodes
  {
    hide Serve, System.Valid, OpOf;
    ServeAt(sys, reqs, stops, envs, n);
    StepValid(StateAt(sys, reqs, stops, envs, n), OpOf(reqs[n]), envs(n));
  }

  lemma NothingBetween(reqs: seq<Request>, rsps: seq<Message>, k: Key, i: nat)
    requires |rsps| == |reqs| && i <= |reqs| && forall n :: 0 <= n < |rsps| ==> rsps[n].IsResponse()
    ensures !TouchedBetween(reqs, rsps, k, i, i)
  {
  }

  lemma TrackedItself(a: System, s: Server, k: Key)
    requires Primary(a, k) == Some(s) && s in a.nodes
    ensures Tracked(a, a, s, k, false)
  {
    hide Primary;
  }

  /** One more request, after which replicas other than the deciding one may stop. */
  lemma NextTracked(a: System, before: System, op: Op, env: OpEnv, after: System, s: Server, k: Key, touched: bool)
    requires before.Valid() && Tracked(a, before, s, k, touched) && s in after.live
    requires
      var done := Step(before, op, env).0;
      && after.nodes == done.nodes && after.hash == done.hash && after.replicas == done.replicas
      && after.live <= done.live && done.hash == before.hash && done.replicas == before.replicas
      && done.live == before.live && done.nodes.Keys == before.nodes.Keys
    ensures Tracked(a, after, s, k, touched || Touches(before, op, env, k))
  {
    hide Step, System.Valid, Touches, ListFor, Evolves;
    StepRecords(before, op, env, k, s);
    TrackStep(a.nodes[s], before.nodes[s], after.nodes[s], k);
    StillFirst(ListFor(before.hash, before.replicas, k), before.live, after.live);
  }

  /** What the CAS values tell: while the same replica decides about a key, its CAS
      is the same at two requests exactly if no request in between has written or
      deleted the key. */
  ghost predicate CasTells(reqs: seq<Request>, rsps: seq<Message>, held: seq<Decision>)
    requires |held| == |rsps| == |reqs| && forall n :: 0 <= n < |rsps| ==> rsps[n].IsResponse()
  {
    forall i, j :: 0 <= i <= j < |reqs| && reqs[i].key == reqs[j].key && held[i].cas != 0
                   && held[i].server == held[j].server ==>
      (held[j].cas == held[i].cas <==> !TouchedBetween(reqs, rsps, reqs[i].key, i, j))
  }

  lemma CasTellsInRow(sys: System, reqs: seq<Request>, stops: nat -> set<Server>, envs: nat -> OpEnv)
    requires sys.Valid()
    requires forall n :: 0 <= n < |reqs| ==> Serve(sys, reqs, stops, envs).1[n].IsResponse()
    ensures CasTells(reqs, Serve(sys, reqs, stops, envs).1, Decisions(sys, reqs, stops, envs))
  {
    hide Serve, Decisions, System.Valid, TouchedBetween, Message.IsResponse;
    var rsps, held := Serve(sys, reqs, stops, envs).1, Decisions(sys, reqs, stops, envs);
    forall i, j | 0 <= i <= j < |reqs| && reqs[i].key == reqs[j].key && held[i].cas != 0
                  && held[i].server == held[j].server
      ensures held[j].cas == held[i].cas <==> !TouchedBetween(reqs, rsps, reqs[i].key, i, j)
    {
      CasTellsAt(sys, reqs, stops, envs, rsps, i, j);
    }
  }

  lemma CasTellsAt(sys: System, reqs: seq<Request>, stops: nat -> set<Server>, envs: nat -> OpEnv, rsps: seq<Message>,
                   i: nat, j: nat)
    requires sys.Valid() && i <= j < |reqs| && rsps == Serve(sys, reqs, stops, envs).1
    requires forall n :: 0 <= n < |rsps| ==> rsps[n].IsResponse()
    requires
      var held := Decisions(sys, reqs, stops, envs);
      reqs[i].key == reqs[j].key && held[i].cas != 0 && held[i].server == held[j].server
    ensures
      var held := Decisions(sys, reqs, stops, envs);
      held[j].cas == held[i].cas <==> !TouchedBetween(reqs, rsps, reqs[i].key, i, j)
  {
    hide Serve, Decisions, System.Valid, TouchedBetween, Message.IsResponse, StateAt, Primary, CasAt;
    var k := reqs[i].key;
    var a, z := StateAt(sys, reqs, stops, envs, i), StateAt(sys, reqs, stops, envs, j);
    DecisionIs(sys, reqs, stops, envs, i);
    DecisionIs(sys, reqs, stops, envs, j);
    HeldByPrimary(a, k);
    HeldByPrimary(z, k);
    var s := Primary(a, k).value;
    PrimaryRuns(z, k);
    RowTracks(sys, reqs, stops, envs, rsps, k, s, i, j);
  }
}
