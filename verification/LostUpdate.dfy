/** Optimistic concurrency over the replicas: when a REPLACE with the CAS of an
    earlier read is sure to notice what was written in between, and when not. */
module LostUpdates {
  import opened Bytes
  import opened Messages
  import opened Memcached
  import opened Timestamps
  import opened Replication
  import opened Refinement

  // ------------------------------------------------------ records on one node

  lemma EvolvesOn(n0: Node, n1: Node, n2: Node)
    requires Evolves(n0, n1) && Evolves(n1, n2)
    ensures Evolves(n0, n2)
  {
  }

  lemma {:induction false} SetAllRecords(nodes: Cluster, list: seq<Server>, fault: Faults, j: nat, key: Key,
                                         item: Item, s: Server)
    requires Known(nodes, list) && j <= |list| && s in nodes
    ensures Evolves(nodes[s], SetAll(nodes, list, fault, j, key, item)[s])
    ensures forall k :: k != key ==> SetAll(nodes, list, fault, j, key, item)[s].Entry(k) == nodes[s].Entry(k)
    decreases |list| - j
  {
    if j < |list| {
      var nodes' := if fault(j) == Up then nodes[list[j] := nodes[list[j]].Set(key, item).1] else nodes;
      SetAllRecords(nodes', list, fault, j + 1, key, item, s);
      assert Evolves(nodes[s], nodes'[s]);
      EvolvesOn(nodes[s], nodes'[s], SetAll(nodes, list, fault, j, key, item)[s]);
    }
  }

  /** A successful write gives the record a new CAS on the replica that decides. */
  lemma WriteRecords(nodes: Cluster, list: seq<Server>, fault: Faults, kind: StoreKind, key: Key, item: Item, cas: nat,
                     s: Server)
    requires Known(nodes, list) && s in nodes
    ensures
      var (nodes', status) := Write(nodes, list, fault, kind, key, item, cas);
      var u := Responder(fault, |list|);
      && Evolves(nodes[s], nodes'[s])
      && (forall k :: k != key ==> nodes'[s].Entry(k) == nodes[s].Entry(k))
      && (status == NO_ERROR && u < |list| && list[u] == s ==>
            key !in nodes'[s].store || nodes'[s].store[key].cas >= nodes[s].nextCas)
  {
    hide SetAll, Responder;
    var u := Responder(fault, |list|);
    if u < |list| {
      var (rc, node) := Apply(kind, nodes[list[u]], key, item, cas);
      if rc == Success {
        var first := nodes[list[u] := node];
        SetAllRecords(first, list, fault, u + 1, key, item, s);
        EvolvesOn(nodes[s], first[s], SetAll(first, list, fault, u + 1, key, item)[s]);
      }
    }
  }

  lemma {:induction false} DeleteRecords(nodes: Cluster, list: seq<Server>, fault: Faults, key: Key, n: nat, s: Server)
    requires Known(nodes, list) && n <= |list| && s in nodes
    ensures Evolves(nodes[s], Delete(nodes, list, fault, key, n).0[s])
    ensures forall k :: k != key ==> Delete(nodes, list, fault, key, n).0[s].Entry(k) == nodes[s].Entry(k)
  {
    if n > 0 {
      DeleteRecords(nodes, list, fault, key, n - 1, s);
      var nodes' := Delete(nodes, list, fault, key, n - 1).0;
      EvolvesOn(nodes[s], nodes'[s], Delete(nodes, list, fault, key, n).0[s]);
    }
  }

  // ------------------------------------------------------------ one operation

  /** The server that decides about a key. */
  function Primary(sys: System, k: Key): Option<Server> {
    var list := ListFor(sys.hash, sys.replicas, k);
    var p := FirstLive(list, sys.live, 0);
    if p < |list| then Some(list[p]) else None
  }

  /** The operation is a successful write of the key, or a delete. */
  predicate Touches(sys: System, op: Op, env: OpEnv, k: Key)
    requires sys.Valid()
  {
    || (op.WriteOp? && op.key == k && Step(sys, op, env).1 == Done(NO_ERROR))
    || op == DeleteOp(k)
  }

  lemma StepRecords(sys: System, op: Op, env: OpEnv, k: Key, s: Server)
    requires sys.Valid() && s in sys.nodes
    ensures
      var nodes' := Step(sys, op, env).0.nodes;
      && s in nodes' && Evolves(sys.nodes[s], nodes'[s])
      && (!Touches(sys, op, env, k) ==> nodes'[s].Entry(k) == sys.nodes[s].Entry(k))
      && (Touches(sys, op, env, k) && Primary(sys, k) == Some(s) ==>
            NewSince(sys.nodes[s], nodes'[s], k))
  {
    hide Read, ListFor, Evolves, AllValid, FaultsOf, Write, Delete, Responder;
    if op.WriteOp? {
      var list, item := ListFor(sys.hash, sys.replicas, op.key), Item(op.value, env.Flags(), op.expiry);
      var fault := FaultsOf(sys.live, list, env.down);
      WriteRecords(sys.nodes, list, fault, op.kind, op.key, item, op.cas, s);
      WriteHolds(sys.nodes, list, fault, op.kind, op.key, item, op.cas);
      ResponderIsFirstLive(sys.live, list, env.down);
    } else if op.DeleteOp? {
      var list := ListFor(sys.hash, sys.replicas, op.key);
      var fault := FaultsOf(sys.live, list, env.down);
      DeleteRecords(sys.nodes, list, fault, op.key, |list|, s);
      DeleteContents(sys.nodes, list, fault, op.key, |list|);
      var p := FirstLive(list, sys.live, 0);
      if p < |list| {
        FaultsAreDown(sys.live, list, env.down, p);
      }
    } else {
      SameEvolves(sys.nodes[s]);
    }
  }

  lemma SameEvolves(n: Node)
    ensures Evolves(n, n)
  {
  }

  // --------------------------------------------------------------- whole runs

  /** Some operation of the run wrote or deleted the key. */
  ghost predicate Touched(sys: System, ops: seq<Op>, envs: nat -> OpEnv, k: Key)
    requires sys.Valid()
  {
    exists j :: 0 <= j < |ops| && TouchedAt(sys, ops, envs, k, j)
  }

  ghost predicate TouchedAt(sys: System, ops: seq<Op>, envs: nat -> OpEnv, k: Key, j: nat)
    requires sys.Valid() && j < |ops|
  {
    Touches(Run(sys, ops[..j], envs), ops[j], envs(j), k)
  }

  lemma TouchedNext(sys: System, ops: seq<Op>, envs: nat -> OpEnv, k: Key)
    requires sys.Valid() && ops != []
    ensures Touched(sys, ops, envs, k) <==>
            Touched(sys, ops[..|ops| - 1], envs, k) || TouchedAt(sys, ops, envs, k, |ops| - 1)
  {
    hide Run, Touches, System.Valid;
    var n := |ops| - 1;
    var front := ops[..n];
    forall j | 0 <= j < n
      ensures TouchedAt(sys, front, envs, k, j) <==> TouchedAt(sys, ops, envs, k, j)
    {
      assert front[..j] == ops[..j] && front[j] == ops[j];
    }
  }

  /** While the replica that decides about a key runs, it goes on deciding; its
      record of the key is as it was unless the run touched the key, and then it
      has a new CAS or is gone. */
  lemma {:induction false} RecordTracksRun(sys: System, ops: seq<Op>, envs: nat -> OpEnv, k: Key, s: Server)
    requires sys.Valid() && s in sys.nodes && Primary(sys, k) == Some(s)
    requires s in Run(sys, ops, envs).live
    ensures
      var end := Run(sys, ops, envs);
      && end.hash == sys.hash && end.replicas == sys.replicas && end.live <= sys.live
      && Primary(end, k) == Some(s) && s in end.nodes && Evolves(sys.nodes[s], end.nodes[s])
      && (!Touched(sys, ops, envs, k) ==> end.nodes[s].Entry(k) == sys.nodes[s].Entry(k))
      && (Touched(sys, ops, envs, k) ==>
            NewSince(sys.nodes[s], end.nodes[s], k))
  {
    hide Step, System.Valid, Evolves, Touched, Touches, ListFor;
    if ops == [] {
      NothingTouched(sys, envs, k);
      SameEvolves(sys.nodes[s]);
    } else {
      var n := |ops| - 1;
      var before := Run(sys, ops[..n], envs);
      StepShape(before, ops[n], envs(n));
      RecordTracksRun(sys, ops[..n], envs, k, s);
      StepRecords(before, ops[n], envs(n), k, s);
      TouchedNext(sys, ops, envs, k);
      TrackStep(sys.nodes[s], before.nodes[s], Run(sys, ops, envs).nodes[s], k);
      StillFirst(ListFor(sys.hash, sys.replicas, k), before.live, Run(sys, ops, envs).live);
    }
  }

  lemma NothingTouched(sys: System, envs: nat -> OpEnv, k: Key)
    requires sys.Valid()
    ensures !Touched(sys, [], envs, k)
  {
  }

  /** The record of `k` is gone or has a CAS handed out since. */
  predicate NewSince(past: Node, now: Node, k: Key) {
    k !in now.store || now.store[k].cas >= past.nextCas
  }

  lemma TrackStep(n0: Node, n1: Node, n2: Node, k: Key)
    requires Evolves(n0, n1) && Evolves(n1, n2)
    ensures Evolves(n0, n2)
    ensures NewSince(n0, n1, k) || NewSince(n1, n2, k) ==> NewSince(n0, n2, k)
  {
  }

  lemma StillFirst(list: seq<Server>, live: set<Server>, later: set<Server>)
    requires later <= live
    ensures
      var p := FirstLive(list, live, 0);
      p < |list| && list[p] in later ==> FirstLive(list, later, 0) == p
  {
  }

  /** A client reads a key that is there, later sends REPLACE with the CAS it got.
      While the replica that answered the read runs, the REPLACE succeeds exactly
      if nobody wrote or deleted the key in between. A REPLACE that succeeds
      although somebody did is possible exactly when that replica has stopped and
      the record on the replica deciding now bears the same CAS by coincidence. */
  lemma NoLostUpdate(sys: System, m: map<Key, Item>, ops: seq<Op>, envs: nat -> OpEnv, k: Key, value: Octets,
                     expiry: uint32,
                     env: OpEnv)
    requires sys.Valid() && Agrees(sys, m) && StaysAvailable(sys, ops, envs) && k in m
    ensures
      var cas := CasAt(sys, k);
      var final := Run(sys, ops, envs);
      var reply := Step(final, WriteOp(ReplaceKind, k, value, cas, expiry), env).1;
      && Step(sys, ReadOp(k), env).1 == ReadDone(ReadReply(NO_ERROR, m[k].value, cas))
      && (Primary(final, k) == Primary(sys, k) ==> (reply == Done(NO_ERROR) <==> !Touched(sys, ops, envs, k)))
      && (reply == Done(NO_ERROR) && Touched(sys, ops, envs, k) <==>
            Touched(sys, ops, envs, k) && Primary(final, k) != Primary(sys, k) && CasAt(final, k) == cas)
  {
    hide Step, Touched, Agrees, Run, ListFor, HasLive, AllValid, Evolves;
    assert ops[..|ops|] == ops && ops[..0] == [];
    var cas, final := CasAt(sys, k), Run(sys, ops, envs);
    RunNothing(sys, envs);
    assert sys.Available() && final.Available();
    StepRefines(sys, m, ReadOp(k), env);
    BackendIsOneMap(sys, m, ops, envs);
    var m' := Contents(sys, m, ops, envs);
    var op := WriteOp(ReplaceKind, k, value, cas, expiry);
    StepRefines(final, m', op, env);
    HeldIsContained(final, m', k);
    HeldByPrimary(sys, k);
    if Primary(final, k) == Primary(sys, k) {
      var s := Primary(sys, k).value;
      PrimaryRuns(final, k);
      RecordTracksRun(sys, ops, envs, k, s);
      HeldByPrimary(final, k);
    }
  }

  lemma RunNothing(sys: System, envs: nat -> OpEnv)
    requires sys.Valid()
    ensures Run(sys, [], envs) == sys
  {
  }

  lemma PrimaryRuns(sys: System, k: Key)
    requires Primary(sys, k).Some?
    ensures Primary(sys, k).value in sys.live
  {
  }

  /** The CAS is that of the deciding replica's record. */
  lemma HeldByPrimary(sys: System, k: Key)
    requires sys.Valid()
    ensures Primary(sys, k) == None ==> CasAt(sys, k) == 0
    ensures Primary(sys, k).Some? ==>
              && Primary(sys, k).value in sys.nodes
              && var node := sys.nodes[Primary(sys, k).value];
                && (k !in node.store ==> CasAt(sys, k) == 0)
                && (k in node.store ==> 0 < CasAt(sys, k) == node.store[k].cas < node.nextCas)
  {
    hide ListFor;
    assert Known(sys.nodes, ListFor(sys.hash, sys.replicas, k));
  }

  /** The deciding replica has a record of exactly the keys of the map. */
  lemma HeldIsContained(sys: System, m: map<Key, Item>, k: Key)
    requires sys.Valid() && Agrees(sys, m)
    ensures CasAt(sys, k) != 0 ==> k in m
    ensures sys.Available() && k in m ==> CasAt(sys, k) != 0
  {
    hide ListFor;
    var list := ListFor(sys.hash, sys.replicas, k);
    assert Known(sys.nodes, list) && AgreeOn(sys.nodes, sys.live, list, k, Find(m, k));
    assert sys.Available() ==> HasLive(list, sys.live);
  }

  // ----------------------------------------------------------- a lost update

  /** Two replicas that agree; the next CAS of the second is the one the first gave
      to the record. */
  function TwoReplicas(hash: Key -> int, k: Key, item: Item): System {
    System(hash,
           map["a" := Node(map[k := Record(item, 7)], 8), "b" := Node(map[k := Record(item, 1)], 7)],
           {"a", "b"}, _ => ["a", "b"])
  }

  /** It does happen after a fail-over: a client reads CAS 7, another client's SET
      succeeds and gets CAS 7 on the second replica, the first replica stops, and
      the REPLACE with CAS 7 overwrites what the other client wrote. */
  lemma LostAfterFailOver(hash: Key -> int, k: Key, item: Item, value: Octets, mine: Octets, down: Fault,
                          time: TimeSpec)
    ensures
      var sys, env := TwoReplicas(hash, k, item), OpEnv(down, time);
      var ops, envs := [WriteOp(SetKind, k, value, 0, 0), StopOp({"a"})], (_: nat) => env;
      && sys.Valid() && Agrees(sys, map[k := item]) && StaysAvailable(sys, ops, envs)
      && CasAt(sys, k) == 7 && Touched(sys, ops, envs, k)
      && Step(Run(sys, ops, envs), WriteOp(ReplaceKind, k, mine, 7, 0), env).1 == Done(NO_ERROR)
  {
    hide Step, Touched, Run, Agrees, StaysAvailable, TwoReplicas, System.Valid, System.Available, CasAt, Primary;
    var sys, env := TwoReplicas(hash, k, item), OpEnv(down, time);
    var write, stop := WriteOp(SetKind, k, value, 0, 0), StopOp({"a"});
    var ops, envs := [write, stop], (_: nat) => env;
    TheyAgree(hash, k, item);
    var written := SecondGetsSeven(hash, k, item, value, env);
    SecondIsLeft(written, k, env);
    TwoSteps(sys, write, stop, envs, k);
    NoLostUpdate(sys, map[k := item], ops, envs, k, mine, 0, env);
  }

  lemma TheyAgree(hash: Key -> int, k: Key, item: Item)
    ensures
      var sys := TwoReplicas(hash, k, item);
      && sys.Valid() && Agrees(sys, map[k := item]) && sys.Available() && CasAt(sys, k) == 7
      && Primary(sys, k) == Some("a")
  {
    var sys := TwoReplicas(hash, k, item);
    forall k'
      ensures HasLive(ListFor(hash, sys.replicas, k'), sys.live)
    {
      assert ListFor(hash, sys.replicas, k')[0] in sys.live;
    }
  }

  lemma SecondGetsSeven(hash: Key -> int, k: Key, item: Item, value: Octets, env: OpEnv) returns (written: System)
    requires TwoReplicas(hash, k, item).Valid()
    ensures
      var sys := TwoReplicas(hash, k, item);
      && Step(sys, WriteOp(SetKind, k, value, 0, 0), env) == (written, Done(NO_ERROR))
      && written.Valid() && written.live == {"a", "b"} && written.replicas == sys.replicas && written.hash == hash
      && (forall k' :: ListFor(hash, written.replicas, k') == ["a", "b"])
      && "b" in written.nodes && k in written.nodes["b"].store && written.nodes["b"].store[k].cas == 7
      && written.Available()
  {
    hide System.Valid, FaultsOf, SetAll, FirstUp;
    var sys, list := TwoReplicas(hash, k, item), ["a", "b"];
    var it := Item(value, env.Flags(), 0);
    var fault := FaultsOf(sys.live, list, env.down);
    FaultsAreDown(sys.live, list, env.down, 0);
    FaultsAreDown(sys.live, list, env.down, 1);
    assert ListFor(hash, sys.replicas, k) == list;
    ResponderIsFirstLive(sys.live, list, env.down);
    assert FirstLive(list, sys.live, 0) == 0;
    assert Known(sys.nodes, list);
    var first := sys.nodes["a" := sys.nodes["a"].Put(k, it)];
    SetSecond(first, list, fault, k, it);
    written := Step(sys, WriteOp(SetKind, k, value, 0, 0), env).0;
    StepValid(sys, WriteOp(SetKind, k, value, 0, 0), env);
    forall k'
      ensures HasLive(ListFor(hash, sys.replicas, k'), sys.live)
    {
      assert ListFor(hash, sys.replicas, k')[0] in sys.live;
    }
  }

  lemma SetSecond(nodes: Cluster, list: seq<Server>, fault: Faults, k: Key, item: Item)
    requires list == ["a", "b"] && Known(nodes, list) && "b" in nodes && fault(1) == Up
    ensures SetAll(nodes, list, fault, 1, k, item) == nodes["b" := nodes["b"].Put(k, item)]
  {
    var nodes' := nodes["b" := nodes["b"].Put(k, item)];
    assert SetAll(nodes', list, fault, 2, k, item) == nodes';
  }

  lemma SecondIsLeft(written: System, k: Key, env: OpEnv)
    requires written.Valid() && written.live == {"a", "b"}
    requires forall k' :: ListFor(written.hash, written.replicas, k') == ["a", "b"]
    requires "b" in written.nodes && k in written.nodes["b"].store && written.nodes["b"].store[k].cas == 7
    ensures
      var sys := Step(written, StopOp({"a"}), env).0;
      sys.Valid() && sys.Available() && CasAt(sys, k) == 7 && Primary(sys, k) == Some("b")
  {
    hide ListFor;
    StepValid(written, StopOp({"a"}), env);
    var sys := Step(written, StopOp({"a"}), env).0;
    assert sys.live == {"b"};
    forall k'
      ensures HasLive(ListFor(sys.hash, sys.replicas, k'), sys.live)
    {
      assert ListFor(sys.hash, sys.replicas, k')[1] in sys.live;
    }
    assert FirstLive(["a", "b"], {"b"}, 0) == 1;
  }

  /** A run of two operations, the first of which touches the key. */
  lemma TwoSteps(sys: System, first: Op, second: Op, envs: nat -> OpEnv, k: Key)
    requires sys.Valid()
    ensures Step(sys, first, envs(0)).0.Valid()
    ensures Run(sys, [first, second], envs) == Step(Step(sys, first, envs(0)).0, second, envs(1)).0
    ensures Touches(sys, first, envs(0), k) ==> Touched(sys, [first, second], envs, k)
    ensures sys.Available() && Step(sys, first, envs(0)).0.Available() && Run(sys, [first, second], envs).Available()
            ==> StaysAvailable(sys, [first, second], envs)
  {
    hide Step, System.Valid, System.Available, Touches;
    var ops := [first, second];
    StepValid(sys, first, envs(0));
    assert ops[..0] == [] && ops[..1] == [first] && ops[..2] == ops && [first][..0] == [];
    assert Run(sys, ops[..1], envs) == Step(sys, first, envs(0)).0;
    assert TouchedAt(sys, ops, envs, k, 0) <==> Touches(sys, first, envs(0), k);
  }
}
