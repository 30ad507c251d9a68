/** The replicated backend behaves as one map, and the CAS a read returns fits the
    write that follows it. */
module Refinement {
  import opened Bytes
  import opened Messages
  import opened Memcached
  import opened Timestamps
  import opened Replication

  // ------------------------------------------------------- reading, exactly

  /** An attempt met a working replica without the record. */
  ghost predicate AnsweredNotFound(nodes: Cluster, list: seq<Server>, fault: Faults, key: Key)
    requires Known(nodes, list)
  {
    if |list| == 1 then
      key !in nodes[list[0]].store && (fault(0) == Up || (fault(0) == NoConnection && fault(1) == Up))
    else
      exists j :: 0 <= j < |list| && fault(j) == Up && key !in nodes[list[j]].store
  }

  ghost predicate AnsweredFound(nodes: Cluster, list: seq<Server>, fault: Faults, key: Key)
    requires Known(nodes, list)
  {
    exists j :: 0 <= j < |list| && Responds(fault, |list|, j) && key in nodes[list[j]].store
  }

  /** For every contents and every pattern of failures: a read finds the record
      exactly when a replica that answers has it. It reports KEY_NOT_FOUND exactly
      when none has it and one has answered so - except that a sole replica whose
      first connection failed is reported as failing although it answered. */
  lemma ReadStatusExact(nodes: Cluster, list: seq<Server>, fault: Faults, key: Key)
    requires Known(nodes, list)
    ensures
      var r := Read(nodes, list, fault, key);
      && (r.status == NO_ERROR <==> AnsweredFound(nodes, list, fault, key))
      && (r.status == KEY_NOT_FOUND <==>
            && !AnsweredFound(nodes, list, fault, key) && AnsweredNotFound(nodes, list, fault, key)
            && !(|list| == 1 && fault(0) == NoConnection))
      && r.status in {NO_ERROR, KEY_NOT_FOUND, TEMPORARY_FAILURE}
      && (r.cas != 0 ==> r.status == NO_ERROR)
  {
    var h := FirstHolder(nodes, list, fault, key, 0);
    if |list| != 1 && h == |list| && AnyUp(fault, |list|) {
      var j: nat :| j < |list| && fault(j) == Up;
      assert key !in nodes[list[j]].store;
    }
    if |list| != 1 && h < |list| {
      assert Responds(fault, |list|, h);
    }
    if |list| == 1 && key in nodes[list[0]].store {
      assert Responds(fault, 1, 0) <==> (fault(0) == Up || (fault(0) == NoConnection && fault(1) == Up));
    }
  }

  /** Which replicas take part: those whose exchange works; a sole replica also if it
      does so at the second attempt, after a failed connection. */
  lemma RespondsMeans(fault: Faults, n: nat, i: nat)
    ensures Responds(fault, n, i) <==>
            && i < n
            && (fault(i) == Up || (n == 1 && fault(0) == NoConnection && fault(1) == Up))
  {
  }

  /** Replica `i` is the first to respond that has the key, and the reply is its
      record: the value, and the CAS, or 0 if one has responded before it. */
  ghost predicate AnsweredBy(nodes: Cluster, list: seq<Server>, fault: Faults, key: Key, r: ReadReply, i: nat)
    requires Known(nodes, list)
  {
    && Responds(fault, |list|, i) && key in nodes[list[i]].store
    && (forall j :: 0 <= j < i && Responds(fault, |list|, j) ==> key !in nodes[list[j]].store)
    && r.data == nodes[list[i]].store[key].item.value
    && r.cas == (if exists j :: 0 <= j < i && Responds(fault, |list|, j) then 0 else nodes[list[i]].store[key].cas)
  }

  /** For every contents, however divergent, and every pattern of failures: a read
      that finds a record gives the value and the CAS of the first replica to respond
      with one, and one that finds none gives nothing. */
  lemma ReadAnswers(nodes: Cluster, list: seq<Server>, fault: Faults, key: Key)
    requires Known(nodes, list)
    ensures
      var r := Read(nodes, list, fault, key);
      && (r.status == NO_ERROR ==> exists i: nat :: AnsweredBy(nodes, list, fault, key, r, i))
      && (r.status != NO_ERROR ==> r.data == [] && r.cas == 0)
  {
    var r := Read(nodes, list, fault, key);
    if r.status == NO_ERROR {
      var h := if |list| == 1 then 0 else FirstHolder(nodes, list, fault, key, 0);
      assert |list| != 1 ==> (AnyUp(fault, h) <==> exists j :: 0 <= j < h && Responds(fault, |list|, j)) by {
        if |list| != 1 && AnyUp(fault, h) {
          var j: nat :| j < h && fault(j) == Up;
          assert Responds(fault, |list|, j);
        }
      }
      assert AnsweredBy(nodes, list, fault, key, r, h);
    }
  }

  /** So it happens that a replica's answer is reported as a failure: the connection
      to the sole replica had dropped, and on the retry it says it has no record. */
  lemma AnswerReportedAsFailure(s: Server, key: Key, next: nat)
    ensures
      var nodes, fault := map[s := Node(map[], next)], (i: nat) => if i == 0 then NoConnection else Up;
      && Known(nodes, [s]) && AnsweredNotFound(nodes, [s], fault, key)
      && Read(nodes, [s], fault, key).status == TEMPORARY_FAILURE
  {
  }

  // ----------------------------------------------- the CAS fits the next write

  ghost predicate AllValid(nodes: Cluster) {
    forall s :: s in nodes ==> nodes[s].Valid()
  }

  /** Every replica that takes part holds the item under the key. */
  ghost predicate AllHold(nodes: Cluster, list: seq<Server>, fault: Faults, key: Key, item: Item)
    requires Known(nodes, list)
  {
    forall i :: 0 <= i < |list| && Responds(fault, |list|, i) ==> nodes[list[i]].Lookup(key) == Some(item)
  }

  /** A working replica from `j` on is server `s`. */
  ghost predicate Targeted(list: seq<Server>, fault: Faults, j: nat, s: Server) {
    exists i :: j <= i < |list| && fault(i) == Up && list[i] == s
  }

  lemma TargetedNext(list: seq<Server>, fault: Faults, j: nat, s: Server)
    requires j < |list|
    ensures Targeted(list, fault, j, s) <==> Targeted(list, fault, j + 1, s) || (fault(j) == Up && list[j] == s)
  {
  }

  /** What the unconditional writes do to one server: nothing unless it is targeted,
      and then only the key changes. */
  lemma {:induction false} SetAllOn(nodes: Cluster, list: seq<Server>, fault: Faults, j: nat, key: Key, item: Item,
                                    s: Server)
    requires Known(nodes, list) && j <= |list| && s in nodes
    ensures
      var node := SetAll(nodes, list, fault, j, key, item)[s];
      && (!Targeted(list, fault, j, s) ==> node == nodes[s])
      && (Targeted(list, fault, j, s) ==> node.Lookup(key) == Some(item))
      && (forall k :: k != key ==> node.Lookup(k) == nodes[s].Lookup(k))
      && (nodes[s].Valid() ==> node.Valid())
    decreases |list| - j
  {
    hide Targeted;
    if j < |list| {
      var nodes' := if fault(j) == Up then nodes[list[j] := nodes[list[j]].Set(key, item).1] else nodes;
      SetAllOn(nodes', list, fault, j + 1, key, item, s);
      TargetedNext(list, fault, j, s);
      PutKeepsValid(nodes[s], key, item);
    } else {
      NoneTargeted(list, fault, j, s);
    }
  }

  lemma NoneTargeted(list: seq<Server>, fault: Faults, j: nat, s: Server)
    requires j >= |list|
    ensures !Targeted(list, fault, j, s)
  {
  }

  lemma PutKeepsValid(node: Node, key: Key, item: Item)
    ensures node.Valid() ==> node.Put(key, item).Valid()
  {
  }

  /** Unconditional writes reach every working replica they are sent to, leave the
      item where it is, and change nothing else. */
  lemma SetAllHolds(nodes: Cluster, list: seq<Server>, fault: Faults, j: nat, key: Key, item: Item)
    requires Known(nodes, list) && j <= |list|
    ensures forall i :: j <= i < |list| && fault(i) == Up ==>
              SetAll(nodes, list, fault, j, key, item)[list[i]].Lookup(key) == Some(item)
    ensures forall s :: s in nodes && nodes[s].Lookup(key) == Some(item) ==>
              SetAll(nodes, list, fault, j, key, item)[s].Lookup(key) == Some(item)
    ensures forall s, k :: s in nodes && k != key ==>
              SetAll(nodes, list, fault, j, key, item)[s].Lookup(k) == nodes[s].Lookup(k)
    ensures forall s :: s in nodes && (forall i :: j <= i < |list| && fault(i) == Up ==> list[i] != s) ==>
              SetAll(nodes, list, fault, j, key, item)[s] == nodes[s]
    ensures AllValid(nodes) ==> AllValid(SetAll(nodes, list, fault, j, key, item))
  {
    hide SetAll, Node.Lookup, Node.Valid;
    var nodes' := SetAll(nodes, list, fault, j, key, item);
    forall s | s in nodes
      ensures !Targeted(list, fault, j, s) ==> nodes'[s] == nodes[s]
      ensures Targeted(list, fault, j, s) ==> nodes'[s].Lookup(key) == Some(item)
      ensures forall k :: k != key ==> nodes'[s].Lookup(k) == nodes[s].Lookup(k)
      ensures nodes[s].Valid() ==> nodes'[s].Valid()
    {
      SetAllOn(nodes, list, fault, j, key, item, s);
    }
    forall i | j <= i < |list| && fault(i) == Up
      ensures Targeted(list, fault, j, list[i])
    {
    }
  }

  /** A write that succeeds leaves the item on every replica that takes part, and
      changes no other key anywhere; one that does not succeed changes nothing. */
  lemma WriteHolds(nodes: Cluster, list: seq<Server>, fault: Faults, kind: StoreKind, key: Key, item: Item, cas: nat)
    requires Known(nodes, list)
    ensures
      var (nodes', status) := Write(nodes, list, fault, kind, key, item, cas);
      && Known(nodes', list)
      && (status == NO_ERROR ==> AllHold(nodes', list, fault, key, item))
      && (status != NO_ERROR ==> nodes' == nodes)
      && (forall s, k :: s in nodes && k != key ==> nodes'[s].Lookup(k) == nodes[s].Lookup(k))
      && (AllValid(nodes) ==> AllValid(nodes'))
  {
    hide SetAll, Apply, Node.Lookup, Node.Valid, Responds;
    var u := Responder(fault, |list|);
    if u < |list| {
      var (rc, node) := Apply(kind, nodes[list[u]], key, item, cas);
      ApplyIs(kind, nodes[list[u]], key, item, cas);
      if rc == Success {
        var first := nodes[list[u] := node];
        SetAllHolds(first, list, fault, u + 1, key, item);
        assert first[list[u]].Lookup(key) == Some(item);
        forall i | 0 <= i < |list| && Responds(fault, |list|, i)
          ensures i == u || (u < i && fault(i) == Up)
        {
          RespondsFrom(fault, |list|, i);
        }
      }
    }
  }

  /** What the conditional write does to the node that takes it. */
  lemma ApplyIs(kind: StoreKind, node: Node, key: Key, item: Item, cas: nat)
    ensures
      var (rc, node') := Apply(kind, node, key, item, cas);
      && (rc == Success ==> node'.Lookup(key) == Some(item))
      && (rc != Success ==> node' == node && StatusOf(rc) != NO_ERROR)
      && (forall k :: k != key ==> node'.Lookup(k) == node.Lookup(k))
      && (node.Valid() ==> node'.Valid())
  {
  }

  lemma RespondsFrom(fault: Faults, n: nat, i: nat)
    requires Responds(fault, n, i)
    ensures i == Responder(fault, n) || (Responder(fault, n) < i && fault(i) == Up)
  {
  }

  /** What a write answers, for every contents and every pattern of failures: a
      failure if no replica responds, else what the first one to respond says. */
  ghost predicate DecidedBy(nodes: Cluster, list: seq<Server>, fault: Faults, kind: StoreKind, key: Key, cas: nat,
                            status: uint16, u: nat)
    requires Known(nodes, list)
  {
    && Responds(fault, |list|, u) && (forall j :: 0 <= j < u ==> !Responds(fault, |list|, j))
    && var store := nodes[list[u]].store;
      && (kind == SetKind ==> status == NO_ERROR)
      && (kind == AddKind ==> status == if key in store then KEY_EXISTS else NO_ERROR)
      && (kind == ReplaceKind ==>
            status ==
            if key !in store then KEY_NOT_FOUND
            else if cas == 0 || cas == store[key].cas then NO_ERROR
            else KEY_EXISTS)
  }

  lemma WriteAnswers(nodes: Cluster, list: seq<Server>, fault: Faults, kind: StoreKind, key: Key, item: Item, cas: nat)
    requires Known(nodes, list)
    ensures
      var status := Write(nodes, list, fault, kind, key, item, cas).1;
      if forall i: nat :: !Responds(fault, |list|, i) then status == TEMPORARY_FAILURE
      else exists u: nat :: DecidedBy(nodes, list, fault, kind, key, cas, status, u)
  {
    hide SetAll;
    var u := Responder(fault, |list|);
    if u < |list| {
      assert Responds(fault, |list|, u);
      assert DecidedBy(nodes, list, fault, kind, key, cas, Write(nodes, list, fault, kind, key, item, cas).1, u);
    }
  }

  /** A replica that does not respond is not written to. */
  lemma WriteSpares(nodes: Cluster, list: seq<Server>, fault: Faults, kind: StoreKind, key: Key, item: Item, cas: nat,
                    s: Server)
    requires Known(nodes, list) && s in nodes
    requires forall i :: 0 <= i < |list| && list[i] == s ==> !Responds(fault, |list|, i)
    ensures Write(nodes, list, fault, kind, key, item, cas).0[s] == nodes[s]
  {
    hide SetAll, Apply;
    var u := Responder(fault, |list|);
    if u < |list| {
      assert Responds(fault, |list|, u);
      var (rc, node) := Apply(kind, nodes[list[u]], key, item, cas);
      if rc == Success {
        forall i | u < i < |list| && fault(i) == Up
          ensures list[i] != s
        {
          assert Responds(fault, |list|, i);
        }
        SetAllHolds(nodes[list[u] := node], list, fault, u + 1, key, item);
      }
    }
  }

  /** The same replicas take part. A sole replica may need its second attempt in
      one operation and not in the other. */
  ghost predicate SameResponders(fr: Faults, fw: Faults, n: nat) {
    forall i: nat :: Responds(fr, n, i) <==> Responds(fw, n, i)
  }

  /** For any contents, however divergent, if the same replicas respond to a read
      and to the write after it: a nonzero CAS from the read lets REPLACE succeed;
      where the CAS was zeroed, or the key was reported missing, ADD succeeds.
      Either way all replicas that take part then hold the item. */
  lemma CasFitsNextWrite(nodes: Cluster, list: seq<Server>, fr: Faults, fw: Faults, key: Key, item: Item)
    requires Known(nodes, list) && AllValid(nodes) && SameResponders(fr, fw, |list|)
    ensures
      var r := Read(nodes, list, fr, key);
      var replace, add := Write(nodes, list, fw, ReplaceKind, key, item, r.cas),
                          Write(nodes, list, fw, AddKind, key, item, 0);
      && Known(replace.0, list) && Known(add.0, list)
      && (r.cas != 0 ==> replace.1 == NO_ERROR && AllHold(replace.0, list, fw, key, item))
      && ((r.status == NO_ERROR && r.cas == 0) || r.status == KEY_NOT_FOUND ==>
            add.1 == NO_ERROR && AllHold(add.0, list, fw, key, item))
  {
    hide SetAll, SameResponders;
    var r := Read(nodes, list, fr, key);
    WriteHolds(nodes, list, fw, ReplaceKind, key, item, r.cas);
    WriteHolds(nodes, list, fw, AddKind, key, item, 0);
    ReadMeetsResponder(nodes, list, fr, fw, key);
  }

  /** What a read says about the replica that will take the conditional write. */
  lemma ReadMeetsResponder(nodes: Cluster, list: seq<Server>, fr: Faults, fw: Faults, key: Key)
    requires Known(nodes, list) && AllValid(nodes) && SameResponders(fr, fw, |list|)
    ensures
      var r, u := Read(nodes, list, fr, key), Responder(fw, |list|);
      && (r.status in {NO_ERROR, KEY_NOT_FOUND} ==> u < |list|)
      && (r.cas != 0 ==> u < |list| && key in nodes[list[u]].store && nodes[list[u]].store[key].cas == r.cas)
      && ((r.status == NO_ERROR && r.cas == 0) || r.status == KEY_NOT_FOUND ==> key !in nodes[list[u]].store)
  {
    var u := Responder(fw, |list|);
    if |list| == 1 {
      assert Responds(fr, 1, 0) <==> Responds(fw, 1, 0);
    } else {
      forall j: nat | j < |list|
        ensures fr(j) == Up <==> fw(j) == Up
      {
        assert Responds(fr, |list|, j) <==> Responds(fw, |list|, j);
      }
      var h := FirstHolder(nodes, list, fr, key, 0);
      if h < |list| && AnyUp(fr, h) {
        var j: nat :| j < h && fr(j) == Up;
        assert u <= j;
      } else if h == |list| && AnyUp(fr, |list|) {
        var j: nat :| j < |list| && fr(j) == Up;
        assert u <= j;
      } else if h < |list| {
        assert u == h;
      }
    }
  }

  // ---------------------------------------------------------------- one map

  /** The replicas of a key's bucket. */
  function ListFor(hash: Key -> int, replicas: Bucket -> seq<Server>, k: Key): seq<Server> {
    replicas(VBucketForKey(hash, k))
  }

  /** The deployment: nodes, those still running, and for each bucket its replicas
      - the same for reading and writing. */
  datatype System = System(hash: Key -> int, nodes: Cluster, live: set<Server>, replicas: Bucket -> seq<Server>)
  {
    ghost predicate Valid() {
      && AllValid(nodes)
      && (forall k :: Known(nodes, ListFor(hash, replicas, k)))
    }

    /** Every bucket has a running replica. */
    ghost predicate Available() {
      forall k :: HasLive(ListFor(hash, replicas, k), live)
    }
  }

  ghost predicate HasLive(list: seq<Server>, live: set<Server>) {
    exists i :: 0 <= i < |list| && list[i] in live
  }

  datatype Op =
    | ReadOp(key: Key)
    | WriteOp(kind: StoreKind, key: Key, value: Octets, cas: nat, expiry: uint32)
    | DeleteOp(key: Key)
    | StopOp(servers: set<Server>)
    | NoOp

  /** How a stopped replica fails, and the clock. */
  datatype OpEnv = OpEnv(down: Fault, time: TimeSpec)
  {
    function Flags(): uint32 { FlagsAt(time.Millis()) }
  }

  datatype Reply = ReadDone(read: ReadReply) | Done(status: uint16) | Nothing

  function FaultsOf(live: set<Server>, list: seq<Server>, down: Fault): Faults {
    (i: nat) =>
      if (i < |list| && list[i] in live) || (|list| == 1 && list[0] in live) then Up
      else if down == Up then Failing else down
  }

  function Step(sys: System, op: Op, env: OpEnv): (System, Reply)
    requires sys.Valid()
  {
    match op
    case ReadOp(k) =>
      var list := ListFor(sys.hash, sys.replicas, k);
      (sys, ReadDone(Read(sys.nodes, list, FaultsOf(sys.live, list, env.down), k)))
    case WriteOp(kind, k, v, cas, expiry) =>
      var list := ListFor(sys.hash, sys.replicas, k);
      var (nodes, status) := Write(sys.nodes, list, FaultsOf(sys.live, list, env.down), kind, k,
                                   Item(v, env.Flags(), expiry), cas);
      (sys.(nodes := nodes), Done(status))
    case DeleteOp(k) =>
      var list := ListFor(sys.hash, sys.replicas, k);
      var (nodes, status) := Delete(sys.nodes, list, FaultsOf(sys.live, list, env.down), k, |list|);
      (sys.(nodes := nodes), Done(status))
    case StopOp(servers) => (sys.(live := sys.live - servers), Nothing)
    case NoOp => (sys, Nothing)
  }

  /** All running replicas of a key's bucket agree with the map about the key. */
  ghost predicate Agrees(sys: System, m: map<Key, Item>)
    requires sys.Valid()
  {
    forall k :: AgreeOn(sys.nodes, sys.live, ListFor(sys.hash, sys.replicas, k), k, Find(m, k))
  }

  ghost predicate AgreeOn(nodes: Cluster, live: set<Server>, list: seq<Server>, k: Key, found: Option<Item>)
    requires Known(nodes, list)
  {
    forall i :: 0 <= i < |list| && list[i] in live ==> nodes[list[i]].Lookup(k) == found
  }

  function Find(m: map<Key, Item>, k: Key): Option<Item> {
    if k in m then Some(m[k]) else None
  }

  /** The first running replica. */
  function FirstLive(list: seq<Server>, live: set<Server>, i: nat): (p: nat)
    requires i <= |list|
    ensures i <= p <= |list|
    ensures forall j :: i <= j < p ==> list[j] !in live
    ensures p < |list| ==> list[p] in live
    decreases |list| - i
  {
    if i == |list| || list[i] in live then i else FirstLive(list, live, i + 1)
  }

  /** The CAS of the key's record on the first running replica; 0 if there is none. */
  function HeldCas(nodes: Cluster, live: set<Server>, list: seq<Server>, k: Key): nat {
    var p := FirstLive(list, live, 0);
    if p < |list| && list[p] in nodes && k in nodes[list[p]].store then nodes[list[p]].store[k].cas else 0
  }

  function CasAt(sys: System, k: Key): nat {
    HeldCas(sys.nodes, sys.live, ListFor(sys.hash, sys.replicas, k), k)
  }

  /** What one memcached with these contents answers. The CAS it hands out and
      compares with is that of the first running replica. A delete that finds
      nothing says so, unless the last replica of the list is down. */
  ghost predicate Allowed(sys: System, m: map<Key, Item>, op: Op, reply: Reply) {
    match op
    case ReadOp(k) =>
      && reply.ReadDone?
      && (k in m ==> reply.read == ReadReply(NO_ERROR, m[k].value, CasAt(sys, k)) && CasAt(sys, k) != 0)
      && (k !in m ==> reply.read == ReadReply(KEY_NOT_FOUND, [], 0))
    case WriteOp(kind, k, _, cas, _) =>
      && reply.Done?
      && (kind == SetKind ==> reply.status == NO_ERROR)
      && (kind == AddKind ==> reply.status == if k in m then KEY_EXISTS else NO_ERROR)
      && (kind == ReplaceKind ==>
            reply.status ==
            if k !in m then KEY_NOT_FOUND else if cas == 0 || cas == CasAt(sys, k) then NO_ERROR else KEY_EXISTS)
    case DeleteOp(k) =>
      && reply.Done?
      && (reply.status == NO_ERROR <==> k in m)
      && (k !in m ==>
            var list := ListFor(sys.hash, sys.replicas, k);
            reply.status == if list != [] && list[|list| - 1] in sys.live then KEY_NOT_FOUND else TEMPORARY_FAILURE)
    case _ => reply == Nothing
  }

  /** The map after an operation that was answered so. */
  function After(m: map<Key, Item>, op: Op, env: OpEnv, reply: Reply): map<Key, Item> {
    match op
    case WriteOp(_, k, v, _, expiry) => if reply == Done(NO_ERROR) then m[k := Item(v, env.Flags(), expiry)] else m
    case DeleteOp(k) => m - {k}
    case _ => m
  }

  lemma FaultsAreDown(live: set<Server>, list: seq<Server>, down: Fault, i: nat)
    requires i < |list|
    ensures FaultsOf(live, list, down)(i) == Up <==> list[i] in live
    ensures |list| == 1 ==> FaultsOf(live, list, down)(1) == FaultsOf(live, list, down)(0)
  {
  }

  lemma ReadRefines(nodes: Cluster, live: set<Server>, list: seq<Server>, down: Fault, k: Key, found: Option<Item>)
    requires Known(nodes, list) && AllValid(nodes) && AgreeOn(nodes, live, list, k, found) && HasLive(list, live)
    ensures
      var r := Read(nodes, list, FaultsOf(live, list, down), k);
      && (found.Some? ==> r == ReadReply(NO_ERROR, found.value.value, HeldCas(nodes, live, list, k)) && r.cas != 0)
      && (found == None ==> r == ReadReply(KEY_NOT_FOUND, [], 0))
  {
    hide FaultsOf;
    var fault := FaultsOf(live, list, down);
    forall j: nat | j < |list|
      ensures fault(j) == Up <==> list[j] in live
      ensures fault(j) == Up ==> nodes[list[j]].Lookup(k) == found
    {
      FaultsAreDown(live, list, down, j);
    }
    var i :| 0 <= i < |list| && list[i] in live;
    var h := FirstHolder(nodes, list, fault, k, 0);
    assert found.Some? ==> h <= i && !AnyUp(fault, h) && h == FirstLive(list, live, 0);
    assert found == None ==> h == |list|;
  }

  lemma ResponderIsFirstLive(live: set<Server>, list: seq<Server>, down: Fault)
    ensures Responder(FaultsOf(live, list, down), |list|) == FirstLive(list, live, 0)
  {
    hide FaultsOf;
    forall j: nat | j < |list|
      ensures FaultsOf(live, list, down)(j) == Up <==> list[j] in live
      ensures |list| == 1 ==> FaultsOf(live, list, down)(1) == FaultsOf(live, list, down)(0)
    {
      FaultsAreDown(live, list, down, j);
    }
  }

  /** The status of a write is decided by the first running replica. */
  lemma WriteStatus(nodes: Cluster, live: set<Server>, list: seq<Server>, down: Fault, kind: StoreKind, k: Key,
                    item: Item,
                    cas: nat, found: Option<Item>)
    requires Known(nodes, list) && AgreeOn(nodes, live, list, k, found) && HasLive(list, live)
    ensures
      var status := Write(nodes, list, FaultsOf(live, list, down), kind, k, item, cas).1;
      && (kind == SetKind ==> status == NO_ERROR)
      && (kind == AddKind ==> status == if found.Some? then KEY_EXISTS else NO_ERROR)
      && (kind == ReplaceKind ==>
            status ==
            if found == None then KEY_NOT_FOUND
            else if cas == 0 || cas == HeldCas(nodes, live, list, k) then NO_ERROR
            else KEY_EXISTS)
  {
    hide FaultsOf, SetAll;
    var fault := FaultsOf(live, list, down);
    ResponderIsFirstLive(live, list, down);
    var u := Responder(fault, |list|);
    var i :| 0 <= i < |list| && list[i] in live;
    assert u < |list|;
    assert nodes[list[u]].Lookup(k) == found;
  }

  lemma WriteRefines(sys: System, m: map<Key, Item>, op: Op, env: OpEnv)
    requires sys.Valid() && Agrees(sys, m) && sys.Available() && op.WriteOp?
    ensures
      var (sys', reply) := Step(sys, op, env);
      && Allowed(sys, m, op, reply) && sys'.Valid()
      && Agrees(sys', After(m, op, env, reply))
  {
    hide ListFor, Write, FaultsOf, AgreeOn, HasLive, AllValid;
    var k, item := op.key, Item(op.value, env.Flags(), op.expiry);
    var list := ListFor(sys.hash, sys.replicas, k);
    var fault := FaultsOf(sys.live, list, env.down);
    var (nodes, status) := Write(sys.nodes, list, fault, op.kind, k, item, op.cas);
    WriteHolds(sys.nodes, list, fault, op.kind, k, item, op.cas);
    WriteStatus(sys.nodes, sys.live, list, env.down, op.kind, k, item, op.cas, Find(m, k));
    var m' := After(m, op, env, Done(status));
    forall k'
      ensures Known(nodes, ListFor(sys.hash, sys.replicas, k'))
      ensures AgreeOn(nodes, sys.live, ListFor(sys.hash, sys.replicas, k'), k', Find(m', k'))
    {
      var list' := ListFor(sys.hash, sys.replicas, k');
      assert Known(sys.nodes, list') && AgreeOn(sys.nodes, sys.live, list', k', Find(m, k'));
      if k' == k && status == NO_ERROR {
        HoldersAgree(nodes, sys.live, list, env.down, k, item);
      } else {
        AgreeFrame(sys.nodes, nodes, sys.live, list', k', Find(m, k'));
      }
    }
  }

  lemma HoldersAgree(nodes: Cluster, live: set<Server>, list: seq<Server>, down: Fault, k: Key, item: Item)
    requires Known(nodes, list) && AllHold(nodes, list, FaultsOf(live, list, down), k, item)
    ensures AgreeOn(nodes, live, list, k, Some(item))
  {
    hide FaultsOf;
    forall i | 0 <= i < |list| && list[i] in live
      ensures nodes[list[i]].Lookup(k) == Some(item)
    {
      FaultsAreDown(live, list, down, i);
      assert Responds(FaultsOf(live, list, down), |list|, i);
    }
  }

  lemma AgreeFrame(nodes: Cluster, nodes': Cluster, live: set<Server>, list: seq<Server>, k: Key, found: Option<Item>)
    requires Known(nodes, list) && AgreeOn(nodes, live, list, k, found) && nodes'.Keys == nodes.Keys
    requires forall s :: s in nodes ==> nodes'[s].Lookup(k) == nodes[s].Lookup(k)
    ensures Known(nodes', list) && AgreeOn(nodes', live, list, k, found)
  {
  }

  /** What a delete leaves behind. */
  lemma {:induction false} DeleteContents(nodes: Cluster, list: seq<Server>, fault: Faults, key: Key, n: nat)
    requires Known(nodes, list) && n <= |list|
    ensures
      var nodes' := Delete(nodes, list, fault, key, n).0;
      && (forall i :: 0 <= i < n && fault(i) == Up ==> key !in nodes'[list[i]].store)
      && (forall s, k :: s in nodes && k != key ==> nodes'[s].Lookup(k) == nodes[s].Lookup(k))
      && (forall s :: s in nodes && key in nodes[s].store && key !in nodes'[s].store ==> Reached(list, fault, n, s))
      && (forall s :: s in nodes && key !in nodes[s].store ==> key !in nodes'[s].store)
      && (AllValid(nodes) ==> AllValid(nodes'))
  {
    if n > 0 {
      DeleteContents(nodes, list, fault, key, n - 1);
      forall s | Reached(list, fault, n - 1, s)
        ensures Reached(list, fault, n, s)
      {
      }
      if fault(n - 1) == Up {
        assert Reached(list, fault, n, list[n - 1]);
      }
    }
  }

  /** A working replica among the first `n` is server `s`. */
  ghost predicate Reached(list: seq<Server>, fault: Faults, n: nat, s: Server)
    requires n <= |list|
  {
    exists i :: 0 <= i < n && fault(i) == Up && list[i] == s
  }

  /** A delete reports success exactly when a replica it reached had the record;
      otherwise it reports what became of the last replica, not of the best one. */
  lemma {:induction false} DeleteStatus(nodes: Cluster, list: seq<Server>, fault: Faults, key: Key, n: nat)
    requires Known(nodes, list) && n <= |list|
    ensures
      var best := Delete(nodes, list, fault, key, n).1;
      && (best == NO_ERROR <==> exists s :: s in nodes && Reached(list, fault, n, s) && key in nodes[s].store)
      && (best != NO_ERROR ==> best == if n > 0 && fault(n - 1) == Up then KEY_NOT_FOUND else TEMPORARY_FAILURE)
  {
    hide Reached;
    if n > 0 {
      DeleteStatus(nodes, list, fault, key, n - 1);
      DeleteContents(nodes, list, fault, key, n - 1);
      forall s
        ensures Reached(list, fault, n, s) <==>
                Reached(list, fault, n - 1, s) || (fault(n - 1) == Up && list[n - 1] == s)
      {
        ReachedNext(list, fault, n, s);
      }
    } else {
      NoneReached(list, fault);
    }
  }

  /** So it happens that a delete reports a failure although a replica has said that
      there is no record: the one after it is down. */
  lemma LastFailureIsReported(key: Key, next: nat, down: Fault)
    requires down != Up
    ensures
      var nodes, list := map["a" := Node(map[], next), "b" := Node(map[], next)], ["a", "b"];
      var fault := (i: nat) => if i == 0 then Up else down;
      && Known(nodes, list)
      && Delete(nodes, list, fault, key, 1).1 == KEY_NOT_FOUND
      && Delete(nodes, list, fault, key, 2).1 == TEMPORARY_FAILURE
  {
    var nodes, list := map["a" := Node(map[], next), "b" := Node(map[], next)], ["a", "b"];
    var fault := (i: nat) => if i == 0 then Up else down;
    assert Delete(nodes, list, fault, key, 0) == (nodes, TEMPORARY_FAILURE);
    assert list[0] == "a";
  }

  lemma NoneReached(list: seq<Server>, fault: Faults)
    ensures forall s :: !Reached(list, fault, 0, s)
  {
  }

  lemma ReachedNext(list: seq<Server>, fault: Faults, n: nat, s: Server)
    requires 0 < n <= |list|
    ensures Reached(list, fault, n, s) <==> Reached(list, fault, n - 1, s) || (fault(n - 1) == Up && list[n - 1] == s)
  {
  }

  lemma DeleteRefines(sys: System, m: map<Key, Item>, k: Key, env: OpEnv)
    requires sys.Valid() && Agrees(sys, m) && sys.Available()
    ensures
      var (sys', reply) := Step(sys, DeleteOp(k), env);
      && Allowed(sys, m, DeleteOp(k), reply) && sys'.Valid()
      && Agrees(sys', After(m, DeleteOp(k), env, reply))
  {
    hide ListFor, Delete, FaultsOf, AgreeOn, HasLive, AllValid, Reached, Known;
    var list := ListFor(sys.hash, sys.replicas, k);
    var fault := FaultsOf(sys.live, list, env.down);
    var (nodes, status) := Delete(sys.nodes, list, fault, k, |list|);
    assert Known(sys.nodes, list) && AgreeOn(sys.nodes, sys.live, list, k, Find(m, k)) && HasLive(list, sys.live);
    DeleteAnswer(sys.nodes, sys.live, list, env.down, k, Find(m, k));
    StepValid(sys, DeleteOp(k), env);
    forall k'
      ensures Known(nodes, ListFor(sys.hash, sys.replicas, k'))
      ensures AgreeOn(nodes, sys.live, ListFor(sys.hash, sys.replicas, k'), k', Find(m - {k}, k'))
    {
      DeleteAgrees(sys, m, k, env, k');
    }
  }

  /** After a delete the replicas of every key agree again. */
  lemma DeleteAgrees(sys: System, m: map<Key, Item>, k: Key, env: OpEnv, k': Key)
    requires sys.Valid() && Agrees(sys, m)
    requires Known(sys.nodes, ListFor(sys.hash, sys.replicas, k))
    ensures
      var list, list' := ListFor(sys.hash, sys.replicas, k), ListFor(sys.hash, sys.replicas, k');
      var nodes := Delete(sys.nodes, list, FaultsOf(sys.live, list, env.down), k, |list|).0;
      Known(nodes, list') && AgreeOn(nodes, sys.live, list', k', Find(m - {k}, k'))
  {
    hide ListFor, Delete, FaultsOf, AgreeOn, AllValid, Reached;
    var list, list' := ListFor(sys.hash, sys.replicas, k), ListFor(sys.hash, sys.replicas, k');
    var fault := FaultsOf(sys.live, list, env.down);
    var nodes := Delete(sys.nodes, list, fault, k, |list|).0;
    DeleteContents(sys.nodes, list, fault, k, |list|);
    assert Known(sys.nodes, list') && AgreeOn(sys.nodes, sys.live, list', k', Find(m, k'));
    if k' == k {
      GoneEverywhere(nodes, sys.live, list, env.down, k);
    } else {
      AgreeFrame(sys.nodes, nodes, sys.live, list', k', Find(m, k'));
    }
  }

  lemma GoneEverywhere(nodes: Cluster, live: set<Server>, list: seq<Server>, down: Fault, k: Key)
    requires Known(nodes, list)
    requires forall i :: 0 <= i < |list| && FaultsOf(live, list, down)(i) == Up ==> k !in nodes[list[i]].store
    ensures AgreeOn(nodes, live, list, k, None)
  {
    hide FaultsOf;
    forall i | 0 <= i < |list| && list[i] in live
      ensures nodes[list[i]].Lookup(k) == None
    {
      FaultsAreDown(live, list, down, i);
    }
  }

  lemma DeleteAnswer(nodes: Cluster, live: set<Server>, list: seq<Server>, down: Fault, k: Key, found: Option<Item>)
    requires Known(nodes, list) && AgreeOn(nodes, live, list, k, found) && HasLive(list, live)
    ensures list != []
    ensures
      var status := Delete(nodes, list, FaultsOf(live, list, down), k, |list|).1;
      && (status == NO_ERROR <==> found.Some?)
      && (found == None ==> status == if list[|list| - 1] in live then KEY_NOT_FOUND else TEMPORARY_FAILURE)
  {
    hide FaultsOf, Delete;
    var fault := FaultsOf(live, list, down);
    DeleteStatus(nodes, list, fault, k, |list|);
    forall j: nat | j < |list|
      ensures fault(j) == Up <==> list[j] in live
      ensures fault(j) == Up ==> nodes[list[j]].Lookup(k) == found
    {
      FaultsAreDown(live, list, down, j);
    }
    var i :| 0 <= i < |list| && list[i] in live;
    assert Reached(list, fault, |list|, list[i]);
  }

  /** One operation of the deployment is one of the map. */
  lemma StepRefines(sys: System, m: map<Key, Item>, op: Op, env: OpEnv)
    requires sys.Valid() && Agrees(sys, m) && sys.Available()
    ensures
      var (sys', reply) := Step(sys, op, env);
      && Allowed(sys, m, op, reply) && sys'.Valid()
      && Agrees(sys', After(m, op, env, reply))
  {
    hide Write, Delete, Read, ListFor, AgreeOn, HasLive, AllValid, FaultsOf;
    match op
    case ReadOp(k) =>
      ReadRefines(sys.nodes, sys.live, ListFor(sys.hash, sys.replicas, k), env.down, k, Find(m, k));
    case WriteOp(_, _, _, _, _) => WriteRefines(sys, m, op, env);
    case DeleteOp(k) => DeleteRefines(sys, m, k, env);
    case StopOp(servers) =>
      forall k
        ensures AgreeOn(sys.nodes, sys.live - servers, ListFor(sys.hash, sys.replicas, k), k, Find(m, k))
      {
        FewerAgree(sys.nodes, sys.live, servers, ListFor(sys.hash, sys.replicas, k), k, Find(m, k));
      }
    case NoOp =>
  }

  lemma FewerAgree(nodes: Cluster, live: set<Server>, stopped: set<Server>, list: seq<Server>, k: Key,
                   found: Option<Item>)
    requires Known(nodes, list) && AgreeOn(nodes, live, list, k, found)
    ensures AgreeOn(nodes, live - stopped, list, k, found)
  {
  }

  /** Only the contents of the nodes and the set of running ones ever change. */
  lemma StepShape(sys: System, op: Op, env: OpEnv)
    requires sys.Valid()
    ensures
      var sys' := Step(sys, op, env).0;
      && sys'.hash == sys.hash && sys'.replicas == sys.replicas && sys'.nodes.Keys == sys.nodes.Keys
      && sys'.live == if op.StopOp? then sys.live - op.servers else sys.live
  {
    hide Read, Write, Delete, FaultsOf, ListFor;
  }

  // ------------------------------------------------------------- whole runs

  /** The state after the first operations of a run. */
  ghost function Run(sys: System, ops: seq<Op>, envs: nat -> OpEnv): System
    requires sys.Valid()
    ensures Run(sys, ops, envs).Valid()
  {
    if ops == [] then sys
    else
      var n := |ops| - 1;
      var before := Run(sys, ops[..n], envs);
      StepValid(before, ops[n], envs(n));
      Step(before, ops[n], envs(n)).0
  }

  lemma StepValid(sys: System, op: Op, env: OpEnv)
    requires sys.Valid()
    ensures Step(sys, op, env).0.Valid()
  {
    hide Write, Delete, Read, ListFor, AllValid, FaultsOf;
    if op.WriteOp? {
      var list := ListFor(sys.hash, sys.replicas, op.key);
      WriteHolds(sys.nodes, list, FaultsOf(sys.live, list, env.down), op.kind, op.key,
                 Item(op.value, env.Flags(), op.expiry), op.cas);
    } else if op.DeleteOp? {
      var list := ListFor(sys.hash, sys.replicas, op.key);
      DeleteContents(sys.nodes, list, FaultsOf(sys.live, list, env.down), op.key, |list|);
    }
  }

  /** The answer to operation `i` of a run. */
  ghost function ReplyAt(sys: System, ops: seq<Op>, envs: nat -> OpEnv, i: nat): Reply
    requires sys.Valid() && i < |ops|
  {
    Step(Run(sys, ops[..i], envs), ops[i], envs(i)).1
  }

  /** The one map's contents along a run, following the answers given. */
  ghost function Contents(sys: System, m: map<Key, Item>, ops: seq<Op>, envs: nat -> OpEnv): map<Key, Item>
    requires sys.Valid()
  {
    if ops == [] then m
    else
      var n := |ops| - 1;
      After(Contents(sys, m, ops[..n], envs), ops[n], envs(n), ReplyAt(sys, ops, envs, n))
  }

  /** Replicas stop for good, between operations, and never the last of a bucket. */
  ghost predicate StaysAvailable(sys: System, ops: seq<Op>, envs: nat -> OpEnv)
    requires sys.Valid()
  {
    forall i :: 0 <= i <= |ops| ==> Run(sys, ops[..i], envs).Available()
  }

  /** In every serial run that starts with agreeing replicas and keeps one running
      replica per bucket, all running replicas of a bucket agree at every point,
      and every operation is answered as a single map with those contents would. */
  lemma {:induction false} BackendIsOneMap(sys: System, m: map<Key, Item>, ops: seq<Op>, envs: nat -> OpEnv)
    requires sys.Valid() && Agrees(sys, m) && StaysAvailable(sys, ops, envs)
    ensures Agrees(Run(sys, ops, envs), Contents(sys, m, ops, envs))
    ensures forall i :: 0 <= i < |ops| ==>
              Allowed(Run(sys, ops[..i], envs), Contents(sys, m, ops[..i], envs), ops[i], ReplyAt(sys, ops, envs, i))
  {
    hide Step, Allowed, Agrees, After, System.Available, System.Valid;
    if ops != [] {
      var n := |ops| - 1;
      var front := ops[..n];
      assert StaysAvailable(sys, front, envs) by {
        forall i | 0 <= i <= n
          ensures front[..i] == ops[..i]
        {
        }
      }
      BackendIsOneMap(sys, m, front, envs);
      StepRefines(Run(sys, front, envs), Contents(sys, m, front, envs), ops[n], envs(n));
      forall i | 0 <= i < |ops|
        ensures Allowed(Run(sys, ops[..i], envs), Contents(sys, m, ops[..i], envs), ops[i], ReplyAt(sys, ops, envs, i))
      {
        if i < n {
          assert front[..i] == ops[..i] && front[i] == ops[i];
          assert ReplyAt(sys, front, envs, i) == ReplyAt(sys, ops, envs, i);
        }
      }
    }
  }
}
