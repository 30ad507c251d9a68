/** The reads and writes of the backend report to the record of accessible buckets;
    what its alarm then says about the operations carried out. */
module BackendAlarm {
  import opened Bytes
  import opened Messages
  import opened Memcached
  import opened Timestamps
  import opened Replication
  import opened Refinement
  import opened CommStates

  /** A read or write, and the replicas as it met them. Deletes report nothing. */
  datatype Call =
    | ReadCall(bucket: Bucket, nodes: Cluster, list: seq<Server>, fault: Faults, key: Key)
    | WriteCall(bucket: Bucket, nodes: Cluster, list: seq<Server>, fault: Faults, key: Key,
                kind: StoreKind, item: Item, cas: nat)
  {
    ghost predicate Valid() { Known(nodes, list) && bucket < 128 }

    function Status(): uint16
      requires Valid()
    {
      match this
      case ReadCall(_, _, _, _, _) => Read(nodes, list, fault, key).status
      case WriteCall(_, _, _, _, _, _, _, _) => Write(nodes, list, fault, kind, key, item, cas).1
    }
  }

  /** No replica took part; or the sole one, reached by a second attempt at reading,
      had no record. */
  ghost predicate Unreached(c: Call)
    requires c.Valid()
  {
    || (forall i: nat :: !Responds(c.fault, |c.list|, i))
    || (c.ReadCall? && |c.list| == 1 && c.fault(0) == NoConnection && c.key !in c.nodes[c.list[0]].store)
  }

  /** A failure is reported of exactly these operations. */
  lemma FailureMeansUnreached(c: Call)
    requires c.Valid()
    ensures c.Status() == TEMPORARY_FAILURE <==> Unreached(c)
  {
    var n, u := |c.list|, Responder(c.fault, |c.list|);
    assert u < n ==> Responds(c.fault, n, u);
    match c
    case ReadCall(_, nodes, list, fault, key) =>
      ReadStatusExact(nodes, list, fault, key);
      if n != 1 {
        assert forall i: nat :: i < n ==> (Responds(fault, n, i) <==> fault(i) == Up);
      }
    case WriteCall(_, nodes, list, fault, key, kind, item, cas) =>
      if u < n {
        AppliedOrRefused(kind, nodes[list[u]], key, item, cas);
      }
  }

  // ------------------------------------------------------------------- methods

  function UpdateOf(c: Call, now: nat, later: nat): Update
    requires c.Valid()
  {
    Update(c.bucket, if c.Status() == TEMPORARY_FAILURE then FAILED else OK, now, later)
  }

  /** `read_data` with its report. */
  method ReadAndReport(b: Backend, monitor: CommMonitor, key: Key, fault: Faults, now: nat, later: nat)
    returns (status: uint16, data: Octets, cas: nat, ghost call: Call)
    requires b.Valid() && monitor.Valid() && |monitor.states| == 128
    modifies monitor
    ensures
      var bucket := VBucketForKey(b.hash, key);
      call == ReadCall(bucket, b.nodes, b.readReplicas[bucket], fault, key) && call.Valid()
    ensures ReadReply(status, data, cas) == Read(call.nodes, call.list, fault, key)
    ensures monitor.Valid() && monitor.View() == Updated(old(monitor.View()), UpdateOf(call, now, later))
  {
    hide Read, Known, Failed, Recount;
    var bucket, comm := VBucketForKey(b.hash, key), OK;
    call := ReadCall(bucket, b.nodes, b.readReplicas[bucket], fault, key);
    status, data, cas, comm := b.ReadData(key, fault);
    monitor.UpdateVBucketCommState(bucket, comm, now, later);
  }

  /** `write_data` with its report; an op code that is not supported is not
      reported. */
  method WriteAndReport(b: Backend, monitor: CommMonitor, op: byte, key: Key, data: Octets, cas: nat, expiry: uint32,
                        time: TimeSpec, fault: Faults, now: nat, later: nat)
    returns (status: uint16, ghost call: Call)
    requires b.Valid() && monitor.Valid() && |monitor.states| == 128
    modifies b`nodes, monitor
    ensures b.Valid() && monitor.Valid()
    ensures op !in {ADD, SET, REPLACE} ==>
              status == NOT_SUPPORTED && b.nodes == old(b.nodes) && monitor.View() == old(monitor.View())
    ensures op in {ADD, SET, REPLACE} ==>
              && call == WriteCall(VBucketForKey(b.hash, key), old(b.nodes),
                                   b.writeReplicas[VBucketForKey(b.hash, key)], fault, key, KindOf(op),
                                   Item(data, FlagsAt(time.Millis()), expiry), cas)
              && call.Valid()
              && (b.nodes, status) == Write(call.nodes, call.list, fault, call.kind, key, call.item, cas)
              && monitor.View() == Updated(old(monitor.View()), UpdateOf(call, now, later))
  {
    hide Write, Known, Failed, Recount;
    var bucket, comm := VBucketForKey(b.hash, key), OK;
    var kind := if op in {ADD, SET, REPLACE} then KindOf(op) else SetKind;
    call := WriteCall(bucket, b.nodes, b.writeReplicas[bucket], fault, key, kind,
                      Item(data, FlagsAt(time.Millis()), expiry), cas);
    status, comm := b.WriteData(op, key, data, cas, expiry, time, fault);
    if op == ADD || op == SET || op == REPLACE {
      monitor.UpdateVBucketCommState(bucket, comm, now, later);
    }
  }

  // ---------------------------------------------------------------- whole runs

  datatype Report = Report(call: Call, now: nat, later: nat)

  ghost predicate AllMade(log: seq<Report>) {
    forall i :: 0 <= i < |log| ==> log[i].call.Valid()
  }

  ghost function Updates(log: seq<Report>): (us: seq<Update>)
    requires AllMade(log)
    ensures |us| == |log|
    ensures forall i :: 0 <= i < |log| ==> us[i] == UpdateOf(log[i].call, log[i].now, log[i].later)
  {
    seq(|log|, i requires 0 <= i < |log| => UpdateOf(log[i].call, log[i].now, log[i].later))
  }

  /** The last operation on the bucket reached no replica. */
  ghost predicate LastUnreached(log: seq<Report>, b: nat)
    requires AllMade(log)
  {
    log != [] &&
    var last := log[|log| - 1].call;
    if last.bucket == b then Unreached(last) else LastUnreached(log[..|log| - 1], b)
  }

  lemma {:induction false} LastUnreachedFails(log: seq<Report>, b: nat)
    requires AllMade(log)
    ensures LastUnreached(log, b) <==> LastFailed(Updates(log), b)
  {
    hide Unreached, Call.Status, Call.Valid, Updates;
    if log != [] {
      var n := |log| - 1;
      LastUnreachedFails(log[..n], b);
      UpdatesFront(log, n);
      LastUpdate(log);
    }
  }

  lemma LastUpdate(log: seq<Report>)
    requires AllMade(log) && log != []
    ensures
      var last, u := log[|log| - 1].call, Updates(log)[|log| - 1];
      u.vbucket == last.bucket && (u.state == FAILED <==> Unreached(last))
  {
    hide Unreached, Call.Status, Call.Valid, Updates;
    FailureMeansUnreached(log[|log| - 1].call);
  }

  lemma UpdatesFront(log: seq<Report>, n: nat)
    requires AllMade(log) && n <= |log|
    ensures AllMade(log[..n]) && Updates(log)[..n] == Updates(log[..n])
  {
    hide Call.Status, Call.Valid, UpdateOf;
  }

  lemma MadeInRange(log: seq<Report>)
    requires AllMade(log)
    ensures forall j :: 0 <= j < |log| ==> Updates(log)[j].vbucket < 128
  {
    hide Call.Status, Updates;
  }

  lemma UpdateTimes(log: seq<Report>, c: nat)
    requires AllMade(log) && c < |log|
    ensures Updates(log)[c].now == log[c].now
  {
    hide Call.Status, Call.Valid, Updates;
  }

  /** Some bucket was out of reach when it was last read or written. */
  ghost predicate AnyUnreached(log: seq<Report>)
    requires AllMade(log)
  {
    exists b :: 0 <= b < 128 && LastUnreached(log, b)
  }

  /** For every sequence of reads and writes, on any contents and with any failures:
      each alarm update was sent by one of them, and sets the alarm exactly if just
      then some bucket was out of reach when it was last read or written. */
  lemma AlarmTellsOfOperations(log: seq<Report>, i: nat) returns (c: nat)
    requires AllMade(log) && i < |CommStates.Run(InitialTable(128), Updates(log)).alarms|
    ensures c < |log| && CommStates.Run(InitialTable(128), Updates(log)).alarms[i].time == log[c].now
    ensures CommStates.Run(InitialTable(128), Updates(log)).alarms[i].isSet <==> AnyUnreached(log[..c + 1])
  {
    hide LastUnreached, CommStates.Run, LastFailed, Updates, Call.Valid;
    MadeInRange(log);
    c := AlarmsAreTrue(128, Updates(log), i);
    var front := log[..c + 1];
    UpdatesFront(log, c + 1);
    UpdateTimes(log, c);
    forall b | 0 <= b < 128
      ensures LastUnreached(front, b) <==> LastFailed(Updates(front), b)
    {
      LastUnreachedFails(front, b);
    }
  }
}
