/** The replicated backend: reading, writing and deleting over an ordered list of
    replicas of which any may fail. The replicas are memcached nodes; what each
    exchange meets is given per attempt. */
module Replication {
  import opened Bytes
  import opened Messages
  import opened Memcached
  import opened Timestamps

  /** All memcached nodes of the deployment. */
  type Cluster = map<Server, Node>

  /** What an attempt meets: a working replica, no connection, or another error.
      A failed exchange has had no effect on the replica. */
  datatype Fault = Up | NoConnection | Failing

  /** Attempt number to fault. Attempt `i` goes to replica `i`, except that a sole
      replica is tried a second time as attempt 1. */
  type Faults = nat -> Fault

  datatype ReadReply = ReadReply(status: uint16, data: Octets, cas: nat)

  datatype CommState = OK | FAILED

  ghost predicate Known(nodes: Cluster, list: seq<Server>) {
    forall i :: 0 <= i < |list| ==> list[i] in nodes
  }

  function ErrorOf(fault: Fault): Rc
    requires fault != Up
  {
    if fault == NoConnection then ConnectionFailure else OtherError
  }

  /** `libmemcached_result_to_memcache_status` */
  function StatusOf(rc: Rc): uint16 {
    match rc
    case NotFound => KEY_NOT_FOUND
    case DataExists => KEY_EXISTS
    case NotStored => ITEM_NOT_STORED
    case _ => TEMPORARY_FAILURE
  }

  /** The status codes a client gets, by their numbers. */
  lemma StatusCodes(rc: Rc)
    ensures StatusOf(rc) ==
            if rc == NotFound then 0x01 else if rc == DataExists then 0x02 else if rc == NotStored then 0x05 else 0x86
    ensures NO_ERROR == 0x00 && NOT_SUPPORTED == 0x83
  {
  }

  // ---------------------------------------------------------- specification

  /** Some of the first `n` attempts met a working replica. */
  predicate AnyUp(fault: Faults, n: nat) {
    exists j: nat :: j < n && fault(j) == Up
  }

  /** The first working replica from `i` on that has the key. */
  function FirstHolder(nodes: Cluster, list: seq<Server>, fault: Faults, key: Key, i: nat): (h: nat)
    requires Known(nodes, list) && i <= |list|
    ensures i <= h <= |list|
    ensures forall j :: i <= j < h ==> fault(j) == Up ==> key !in nodes[list[j]].store
    ensures h < |list| ==> fault(h) == Up && key in nodes[list[h]].store
    decreases |list| - i
  {
    if i == |list| then i
    else if fault(i) == Up && key in nodes[list[i]].store then i
    else FirstHolder(nodes, list, fault, key, i + 1)
  }

  /** What reading answers: the record of the first working replica that has it,
      with a CAS of zero if an earlier working replica has no record. A sole
      replica is tried again after a failed connection; that it then has no
      record is reported as a failure. */
  function Read(nodes: Cluster, list: seq<Server>, fault: Faults, key: Key): ReadReply
    requires Known(nodes, list)
  {
    if |list| == 1 then
      var store := nodes[list[0]].store;
      if fault(0) == Up && key !in store then ReadReply(KEY_NOT_FOUND, [], 0)
      else if key in store && (fault(0) == Up || (fault(0) == NoConnection && fault(1) == Up)) then
        ReadReply(NO_ERROR, store[key].item.value, store[key].cas)
      else ReadReply(TEMPORARY_FAILURE, [], 0)
    else
      var h := FirstHolder(nodes, list, fault, key, 0);
      if h < |list| then
        var rec := nodes[list[h]].store[key];
        ReadReply(NO_ERROR, rec.item.value, if AnyUp(fault, h) then 0 else rec.cas)
      else ReadReply(if AnyUp(fault, |list|) then KEY_NOT_FOUND else TEMPORARY_FAILURE, [], 0)
  }

  function FirstUp(fault: Faults, n: nat, i: nat): (u: nat)
    requires i <= n
    ensures i <= u <= n
    ensures forall j :: i <= j < u ==> fault(j) != Up
    ensures u < n ==> fault(u) == Up
    decreases n - i
  {
    if i == n || fault(i) == Up then i else FirstUp(fault, n, i + 1)
  }

  /** The replica that takes the conditional write; `n` if none works. */
  function Responder(fault: Faults, n: nat): (u: nat)
    ensures u <= n
  {
    if n == 1 then if fault(0) == Up || (fault(0) == NoConnection && fault(1) == Up) then 0 else 1
    else FirstUp(fault, n, 0)
  }

  /** Whether replica `i` takes part in an operation on `n` replicas. */
  predicate Responds(fault: Faults, n: nat, i: nat) {
    i < n && if n == 1 then Responder(fault, 1) == 0 else fault(i) == Up
  }

  /** The conditional write on one node. SET disregards the CAS. */
  function Apply(kind: StoreKind, node: Node, key: Key, item: Item, cas: nat): (Rc, Node) {
    match kind
    case AddKind => node.Add(key, item)
    case SetKind => node.Set(key, item)
    case ReplaceKind => node.Replace(key, item, cas)
  }

  /** The unconditional writes to the working replicas from `j` on. */
  function SetAll(nodes: Cluster, list: seq<Server>, fault: Faults, j: nat, key: Key, item: Item): (r: Cluster)
    requires Known(nodes, list) && j <= |list|
    ensures r.Keys == nodes.Keys
    decreases |list| - j
  {
    if j == |list| then nodes
    else
      var nodes' := if fault(j) == Up then nodes[list[j] := nodes[list[j]].Set(key, item).1] else nodes;
      SetAll(nodes', list, fault, j + 1, key, item)
  }

  /** What writing does: the first working replica decides, the working replicas
      after it follow. */
  function Write(nodes: Cluster, list: seq<Server>, fault: Faults, kind: StoreKind, key: Key, item: Item, cas: nat)
    : (r: (Cluster, uint16))
    requires Known(nodes, list)
    ensures r.0.Keys == nodes.Keys
  {
    var u := Responder(fault, |list|);
    if u == |list| then (nodes, TEMPORARY_FAILURE)
    else
      var (rc, node) := Apply(kind, nodes[list[u]], key, item, cas);
      if rc == Success then (SetAll(nodes[list[u] := node], list, fault, u + 1, key, item), NO_ERROR)
      else (nodes, StatusOf(rc))
  }

  /** What deleting does on the first `n` replicas: the best status is NO_ERROR if
      any replica had the record, else the last one's. */
  function Delete(nodes: Cluster, list: seq<Server>, fault: Faults, key: Key, n: nat): (r: (Cluster, uint16))
    requires Known(nodes, list) && n <= |list|
    ensures r.0.Keys == nodes.Keys
  {
    if n == 0 then (nodes, TEMPORARY_FAILURE)
    else
      var (nodes', best) := Delete(nodes, list, fault, key, n - 1);
      if fault(n - 1) != Up then
        (nodes', if best == NO_ERROR then best else TEMPORARY_FAILURE)
      else
        var (rc, node) := nodes'[list[n - 1]].Delete(key);
        (nodes'[list[n - 1] := node], if rc == Success || best == NO_ERROR then NO_ERROR else StatusOf(rc))
  }

  // ------------------------------------------------------------ the backend

  class Backend {
    const hash: Key -> int
    var nodes: Cluster
    var readReplicas: seq<seq<Server>>
    var writeReplicas: seq<seq<Server>>

    ghost predicate Valid()
      reads this
    {
      && |readReplicas| == |writeReplicas| == 128
      && (forall b :: 0 <= b < 128 ==> Known(nodes, readReplicas[b]) && Known(nodes, writeReplicas[b]))
    }

    constructor (hash: Key -> int, nodes: Cluster, readReplicas: seq<seq<Server>>, writeReplicas: seq<seq<Server>>)
      requires |readReplicas| == |writeReplicas| == 128
      requires forall b :: 0 <= b < 128 ==> Known(nodes, readReplicas[b]) && Known(nodes, writeReplicas[b])
      ensures Valid() && this.hash == hash && this.nodes == nodes
      ensures this.readReplicas == readReplicas && this.writeReplicas == writeReplicas
    {
      this.hash := hash;
      this.nodes := nodes;
      this.readReplicas := readReplicas;
      this.writeReplicas := writeReplicas;
    }

    /** `get_from_replica` */
    function GetFromReplica(server: Server, fault: Fault, key: Key): (Rc, Octets, nat)
      requires server in nodes
      reads this
    {
      if fault != Up then (ErrorOf(fault), [], 0)
      else if key in nodes[server].store then
        (Success, nodes[server].store[key].item.value, nodes[server].store[key].cas)
      else (NotFound, [], 0)
    }

    /** `read_data`; also what is recorded about the bucket's accessibility. */
    method ReadData(key: Key, fault: Faults) returns (status: uint16, data: Octets, cas: nat, comm: CommState)
      requires Valid()
      ensures ReadReply(status, data, cas) == Read(nodes, readReplicas[VBucketForKey(hash, key)], fault, key)
      ensures comm == FAILED <==> status == TEMPORARY_FAILURE
    {
      hide FirstHolder;
      var list := readReplicas[VBucketForKey(hash, key)];
      assert Known(nodes, list);
      var rc, activeNotFound, failed := OtherError, false, 0;
      data, cas := [], 0;
      var attempts := if |list| == 1 then 2 else |list|;
      var ii := 0;
      while ii < attempts
        invariant 0 <= ii <= attempts
        invariant rc == Success ==> ii < attempts
        invariant rc != Success ==> data == [] && cas == 0
        invariant |list| != 1 ==>
                    && rc != Success && failed <= ii
                    && (failed < ii <==> AnyUp(fault, ii)) && (activeNotFound <==> AnyUp(fault, ii))
                    && FirstHolder(nodes, list, fault, key, 0) == FirstHolder(nodes, list, fault, key, ii)
        invariant |list| == 1 ==> rc != Success && SoleState(fault, key in nodes[list[0]].store, ii, rc, failed)
        invariant |list| == 1 ==> !activeNotFound || rc == NotFound
      {
        var replica := ii;
        if |list| == 1 && ii == 1 {
          if rc != ConnectionFailure {
            break;
          }
          replica := 0;
        }
        var r := GetFromReplica(list[replica], fault(ii), key);
        rc, data, cas := r.0, r.1, r.2;
        if rc == Success {
          if |list| != 1 {
            HolderNext(nodes, list, fault, key, ii);
          }
          break;
        } else if rc == NotFound {
          activeNotFound := true;
        } else {
          failed := failed + 1;
        }
        AnyUpNext(fault, ii);
        if |list| != 1 {
          HolderNext(nodes, list, fault, key, ii);
        }
        ii := ii + 1;
      }
      if rc == Success {
        if activeNotFound {
          cas := 0;
        }
        status, comm := NO_ERROR, OK;
      } else if failed < |list| {
        status, comm := KEY_NOT_FOUND, OK;
      } else {
        status, comm := TEMPORARY_FAILURE, FAILED;
      }
    }

    /** The conditional write, tried on one replica after another. */
    method ConditionalWrite(list: seq<Server>, kind: StoreKind, key: Key, item: Item, cas: nat, fault: Faults)
      returns (rc: Rc, replica: nat)
      requires Known(nodes, list)
      modifies this`nodes
      ensures Responder(fault, |list|) == |list| ==>
                (rc == ConnectionFailure || rc == OtherError) && nodes == old(nodes)
      ensures Responder(fault, |list|) < |list| ==>
                && replica == Responder(fault, |list|)
                && rc == Apply(kind, old(nodes)[list[replica]], key, item, cas).0
                && nodes == old(nodes)[list[replica] := Apply(kind, old(nodes)[list[replica]], key, item, cas).1]
    {
      rc, replica := OtherError, 0;
      var attempts := if |list| == 1 then 2 else |list|;
      var ii := 0;
      while ii < attempts
        invariant 0 <= ii <= attempts && nodes == old(nodes)
        invariant rc == ConnectionFailure || rc == OtherError
        invariant |list| != 1 ==> FirstUp(fault, |list|, 0) == FirstUp(fault, |list|, ii)
        invariant |list| == 1 && ii > 0 ==> fault(0) != Up && (rc == ConnectionFailure ==> fault(0) == NoConnection)
        invariant |list| == 1 && ii == 1 ==> rc == ErrorOf(fault(0))
        invariant |list| == 1 && ii == 2 ==> fault(1) != Up
      {
        replica := ii;
        if |list| == 1 && ii == 1 {
          if rc != ConnectionFailure {
            return;
          }
          replica := 0;
        }
        if fault(ii) == Up {
          var r := Apply(kind, nodes[list[replica]], key, item, cas);
          rc := r.0;
          nodes := nodes[list[replica] := r.1];
          return;
        }
        rc := ErrorOf(fault(ii));
        ii := ii + 1;
      }
    }

    /** The unconditional writes to the replicas from `start` on. */
    method UnconditionalWrites(list: seq<Server>, start: nat, key: Key, item: Item, fault: Faults)
      requires Known(nodes, list) && start <= |list|
      modifies this`nodes
      ensures nodes == SetAll(old(nodes), list, fault, start, key, item)
    {
      var jj := start;
      while jj < |list|
        invariant start <= jj <= |list| && nodes.Keys == old(nodes.Keys) && Known(nodes, list)
        invariant SetAll(nodes, list, fault, jj, key, item) == SetAll(old(nodes), list, fault, start, key, item)
      {
        if fault(jj) == Up {
          nodes := nodes[list[jj] := nodes[list[jj]].Set(key, item).1];
        }
        jj := jj + 1;
      }
    }

    /** `write_data` */
    method WriteData(op: byte, key: Key, data: Octets, cas: nat, expiry: uint32, time: TimeSpec, fault: Faults)
      returns (status: uint16, comm: CommState)
      requires Valid()
      modifies this`nodes
      ensures Valid() && nodes.Keys == old(nodes.Keys)
      ensures op !in {ADD, SET, REPLACE} ==> status == NOT_SUPPORTED && nodes == old(nodes)
      ensures op in {ADD, SET, REPLACE} ==>
                (nodes, status) ==
                Write(old(nodes), writeReplicas[VBucketForKey(hash, key)], fault, KindOf(op), key,
                      Item(data, (time.sec * 1000 + time.nsec / 1_000_000) % 0x1_0000_0000, expiry), cas)
      ensures comm == FAILED <==> status == TEMPORARY_FAILURE
    {
      hide SetAll, Apply, Responder;
      if op != ADD && op != SET && op != REPLACE {
        return NOT_SUPPORTED, OK;
      }
      var flags := FlagsAt(time.Millis());
      var kind, item := KindOf(op), Item(data, flags, expiry);
      var list := writeReplicas[VBucketForKey(hash, key)];
      assert Known(nodes, list);
      var rc, replica := ConditionalWrite(list, kind, key, item, cas, fault);
      if Responder(fault, |list|) < |list| {
        AppliedOrRefused(kind, old(nodes)[list[replica]], key, item, cas);
      }
      if rc == Success {
        UnconditionalWrites(list, replica + 1, key, item, fault);
        status, comm := NO_ERROR, OK;
      } else if rc == NotFound || rc == NotStored || rc == DataExists {
        status, comm := StatusOf(rc), OK;
        RefusedChangesNothing(kind, old(nodes)[list[replica]], key, item, cas);
        assert nodes == old(nodes);
      } else {
        status, comm := TEMPORARY_FAILURE, FAILED;
      }
    }

    /** `delete_data` */
    method DeleteData(key: Key, fault: Faults) returns (best: uint16)
      requires Valid()
      modifies this`nodes
      ensures Valid() && nodes.Keys == old(nodes.Keys)
      ensures
        var list := readReplicas[VBucketForKey(hash, key)];
        (nodes, best) == Delete(old(nodes), list, fault, key, |list|)
    {
      best := TEMPORARY_FAILURE;
      var list := readReplicas[VBucketForKey(hash, key)];
      assert Known(nodes, list);
      for ii := 0 to |list|
        invariant nodes.Keys == old(nodes.Keys) && Known(old(nodes), list)
        invariant (nodes, best) == Delete(old(nodes), list, fault, key, ii)
      {
        var rc := if fault(ii) == Up then nodes[list[ii]].Delete(key).0 else ErrorOf(fault(ii));
        if fault(ii) == Up {
          nodes := nodes[list[ii] := nodes[list[ii]].Delete(key).1];
        }
        if rc != Success {
          if best != NO_ERROR {
            best := StatusOf(rc);
          }
        } else {
          best := NO_ERROR;
        }
      }
    }
  }

  function KindOf(op: byte): StoreKind
    requires op in {ADD, SET, REPLACE}
  {
    if op == ADD then AddKind else if op == SET then SetKind else ReplaceKind
  }

  /** Where the read loop stands on a sole replica after `ii` attempts without
      success. */
  ghost predicate SoleState(fault: Faults, has: bool, ii: nat, rc: Rc, failed: nat) {
    && (ii == 0 ==> rc == OtherError && failed == 0)
    && (ii == 1 && fault(0) == Up ==> rc == NotFound && !has && failed == 0)
    && (ii == 1 && fault(0) != Up ==> rc == ErrorOf(fault(0)) && failed == 1)
    && (ii == 2 ==> fault(0) == NoConnection && failed >= 1 && (fault(1) == Up ==> !has))
  }

  lemma HolderNext(nodes: Cluster, list: seq<Server>, fault: Faults, key: Key, i: nat)
    requires Known(nodes, list) && i < |list|
    ensures FirstHolder(nodes, list, fault, key, i) ==
            if fault(i) == Up && key in nodes[list[i]].store then i else FirstHolder(nodes, list, fault, key, i + 1)
  {
  }

  lemma AnyUpNext(fault: Faults, n: nat)
    ensures AnyUp(fault, n + 1) <==> AnyUp(fault, n) || fault(n) == Up
  {
    if fault(n) == Up {
      assert n < n + 1;
    }
  }

  lemma RefusedChangesNothing(kind: StoreKind, node: Node, key: Key, item: Item, cas: nat)
    ensures Apply(kind, node, key, item, cas).0 != Success ==> Apply(kind, node, key, item, cas).1 == node
  {
  }

  lemma AppliedOrRefused(kind: StoreKind, node: Node, key: Key, item: Item, cas: nat)
    ensures Apply(kind, node, key, item, cas).0 in {Success, NotFound, NotStored, DataExists}
  {
  }
}
