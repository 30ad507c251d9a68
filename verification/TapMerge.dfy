/** What a round of taps computes while no client interferes: a merge that keeps
    the newest version of every record, the same for every interleaving. */
module TapMerge {
  import opened Bytes
  import opened Messages
  import opened Timestamps
  import opened Connections
  import opened Memcached
  import opened TapThreads

  /** One record arriving at a key: it wins if there is none, or an older one. */
  function MergeItem(cur: Option<Item>, m: Mutation): Option<Item> {
    if cur == None || Earlier(cur.value.flags, m.flags) then Some(ItemOf(m)) else cur
  }

  function MergeAll(cur: Option<Item>, ms: seq<Mutation>): Option<Item> {
    if ms == [] then cur else MergeItem(MergeAll(cur, ms[..|ms| - 1]), ms[|ms| - 1])
  }

  /** The records for key `k` that a tap of these buckets acts on. */
  function Handled(hash: Key -> int, buckets: seq<Bucket>, stream: seq<Message>, k: Key): seq<Mutation> {
    if stream == [] then []
    else
      var m := stream[|stream| - 1];
      Handled(hash, buckets, stream[..|stream| - 1], k) +
      if m.TapMutateReq? && m.key == k && Accepts(hash, buckets, m) then [m] else []
  }

  /** A tap stops at the first message that is not a TAP_MUTATE. */
  function MutatePrefix(stream: seq<Message>): seq<Message> {
    if stream == [] || !stream[0].TapMutateReq? then []
    else [stream[0]] + MutatePrefix(stream[1..])
  }

  /** What a tap takes from its server. */
  function Taken(t: Tap): seq<Message> {
    if t.reachable then MutatePrefix(t.stream) else []
  }

  /** A tap reports success when it could connect and saw nothing but mutations
      up to an orderly close. */
  predicate Succeeds(t: Tap) {
    t.reachable && t.ending == Closed && MutatePrefix(t.stream) == t.stream
  }

  ghost predicate Quiet(acts: seq<Act>) {
    forall j :: 0 <= j < |acts| ==> acts[j].TapAct? && acts[j].choice == Answered
  }

  /** No bucket is asked of two servers. */
  ghost predicate Disjoint(taps: map<Server, Tap>) {
    forall s, s', b :: s in taps && s' in taps && b in taps[s].buckets && b in taps[s'].buckets ==> s == s'
  }

  predicate Busy(p: Phase) { p.Getting? || p.Adding? || p.Replacing? }

  /** The messages a thread has dealt with. */
  function Processed(t: Tap): seq<Message>
    requires t.next <= |t.stream| && (Busy(t.phase) ==> t.next > 0)
  {
    t.stream[..if Busy(t.phase) then t.next - 1 else t.next]
  }

  ghost predicate AllMutations(s: seq<Message>) {
    forall j :: 0 <= j < |s| ==> s[j].TapMutateReq?
  }

  /** How far a thread has come. */
  ghost predicate Position(hash: Key -> int, t: Tap) {
    && t.next <= |t.stream|
    && (Busy(t.phase) ==>
          t.next > 0 && t.phase.m == t.stream[t.next - 1] && Accepts(hash, t.buckets, t.phase.m))
    && (t.phase == Connecting || !t.reachable ==> t.next == 0 && !t.success)
    && (t.phase != Connecting && t.phase != Finished ==> t.reachable && t.success && AllMutations(t.stream[..t.next]))
    && (t.phase == Finished && t.reachable ==>
          || (t.next == |t.stream| && AllMutations(t.stream) && t.success == (t.ending == Closed))
          || (t.next > 0 && AllMutations(t.stream[..t.next - 1]) && !t.stream[t.next - 1].TapMutateReq? && !t.success))
  }

  /** The keys of a thread's buckets hold the merge of what it has dealt with, and
      what the thread remembers of the store is still so. */
  ghost predicate Tracks(hash: Key -> int, start: Node, node: Node, t: Tap)
    requires t.next <= |t.stream| && (Busy(t.phase) ==> t.next > 0)
  {
    && (t.phase.Adding? ==> t.phase.m.key !in node.store)
    && (t.phase.Replacing? ==>
          && t.phase.m.key in node.store && node.store[t.phase.m.key] == t.phase.seen
          && Earlier(t.phase.seen.item.flags, t.phase.m.flags))
    && forall k :: VBucketForKey(hash, k) in t.buckets ==>
         node.Lookup(k) == MergeAll(start.Lookup(k), Handled(hash, t.buckets, Processed(t), k))
  }

  lemma PositionStep(hash: Key -> int, node: Node, t: Tap)
    requires Position(hash, t)
    ensures Position(hash, TapStep(hash, node, t, Answered).1)
  {
    hide Accepts, Earlier;
  }

  lemma HandledSnoc(hash: Key -> int, buckets: seq<Bucket>, stream: seq<Message>, n: nat, k: Key)
    requires n < |stream|
    ensures
      var m := stream[n];
      Handled(hash, buckets, stream[..n + 1], k) ==
      Handled(hash, buckets, stream[..n], k) +
      if m.TapMutateReq? && m.key == k && Accepts(hash, buckets, m) then [m] else []
  {
    assert stream[..n + 1][..n] == stream[..n];
  }

  lemma MergeSnoc(cur: Option<Item>, ms: seq<Mutation>, m: Mutation)
    ensures MergeAll(cur, ms + [m]) == MergeItem(MergeAll(cur, ms), m)
  {
    assert (ms + [m])[..|ms|] == ms;
  }

  /** One step of the thread itself. */
  lemma TracksStep(hash: Key -> int, start: Node, node: Node, t: Tap)
    requires Position(hash, t) && Tracks(hash, start, node, t)
    ensures
      var (node', t') := TapStep(hash, node, t, Answered);
      t'.next <= |t'.stream| && (Busy(t'.phase) ==> t'.next > 0) && Tracks(hash, start, node', t')
  {
    hide Accepts, Earlier, MergeAll, Handled;
    var (node', t') := TapStep(hash, node, t, Answered);
    PositionStep(hash, node, t);
    forall k | VBucketForKey(hash, k) in t.buckets
      ensures node'.Lookup(k) == MergeAll(start.Lookup(k), Handled(hash, t.buckets, Processed(t'), k))
    {
      KeyStep(hash, start, node, t, k);
    }
  }

  lemma KeyStep(hash: Key -> int, start: Node, node: Node, t: Tap, k: Key)
    requires Position(hash, t) && Tracks(hash, start, node, t) && VBucketForKey(hash, k) in t.buckets
    ensures
      var (node', t') := TapStep(hash, node, t, Answered);
      && t'.next <= |t'.stream| && (Busy(t'.phase) ==> t'.next > 0)
      && node'.Lookup(k) == MergeAll(start.Lookup(k), Handled(hash, t.buckets, Processed(t'), k))
  {
    hide Accepts, Earlier, MergeAll, Handled, VBucketForKey;
    var (node', t') := TapStep(hash, node, t, Answered);
    PositionStep(hash, node, t);
    if Busy(t.phase) && !Busy(t'.phase) {
      HandledSnoc(hash, t.buckets, t.stream, t.next - 1, k);
      MergeSnoc(start.Lookup(k), Handled(hash, t.buckets, Processed(t), k), t.phase.m);
      assert Handled(hash, t.buckets, Processed(t), k) + [] == Handled(hash, t.buckets, Processed(t), k);
    } else if t.phase == Receiving && !Busy(t'.phase) && t.next < |t.stream| {
      HandledSnoc(hash, t.buckets, t.stream, t.next, k);
      assert Handled(hash, t.buckets, Processed(t), k) + [] == Handled(hash, t.buckets, Processed(t), k);
    } else {
      assert Processed(t') == Processed(t);
    }
  }

  predicate SameRecord(node: Node, node': Node, k: Key) {
    (k in node'.store <==> k in node.store) && (k in node.store ==> node'.store[k] == node.store[k])
  }

  /** Steps of others, on other keys. */
  lemma FollowsFrame(hash: Key -> int, start: Node, node: Node, node': Node, t: Tap)
    requires Follows(hash, start, node, t)
    requires forall k :: VBucketForKey(hash, k) in t.buckets ==> SameRecord(node, node', k)
    ensures Follows(hash, start, node', t)
  {
    hide Earlier, MergeAll, Handled;
    assert Tracks(hash, start, node', t) by {
      forall k | VBucketForKey(hash, k) in t.buckets
        ensures node'.Lookup(k) == node.Lookup(k)
      {
        assert SameRecord(node, node', k);
      }
      if Busy(t.phase) {
        assert SameRecord(node, node', t.phase.m.key);
      }
    }
  }

  /** A thread and the store agree on where the thread stands. */
  ghost predicate Follows(hash: Key -> int, start: Node, node: Node, t: Tap) {
    Position(hash, t) && Tracks(hash, start, node, t)
  }

  ghost predicate InStep(hash: Key -> int, start: World, w: World) {
    && w.taps.Keys == start.taps.Keys && Disjoint(w.taps)
    && (forall s :: s in w.taps ==>
          && w.taps[s].buckets == start.taps[s].buckets && w.taps[s].stream == start.taps[s].stream
          && w.taps[s].reachable == start.taps[s].reachable && w.taps[s].ending == start.taps[s].ending)
    && (forall s :: s in w.taps ==> Follows(hash, start.node, w.node, w.taps[s]))
    && (forall k :: OffLimits(hash, w.taps, k) ==> SameRecord(start.node, w.node, k))
  }

  /** A key of Astaire's own, or of a bucket no tap was asked for. */
  ghost predicate OffLimits(hash: Key -> int, taps: map<Server, Tap>, k: Key) {
    (forall s :: s in taps ==> VBucketForKey(hash, k) !in taps[s].buckets) || IsAstaireKey(k)
  }

  lemma SameLimits(hash: Key -> int, taps: map<Server, Tap>, taps': map<Server, Tap>, k: Key)
    requires taps'.Keys == taps.Keys && forall s :: s in taps ==> taps'[s].buckets == taps[s].buckets
    ensures OffLimits(hash, taps, k) <==> OffLimits(hash, taps', k)
  {
  }

  lemma InStepInitially(hash: Key -> int, w: World)
    requires Initial(w) && Disjoint(w.taps)
    ensures InStep(hash, w, w)
  {
    hide Accepts, Earlier;
    forall s | s in w.taps
      ensures Follows(hash, w.node, w.node, w.taps[s])
    {
      assert Processed(w.taps[s]) == [];
    }
  }

  lemma InStepStep(hash: Key -> int, start: World, w: World, s: Server)
    requires InStep(hash, start, w)
    ensures InStep(hash, start, Step(hash, w, TapAct(s, Answered)))
  {
    hide Follows, TapStep, VBucketForKey, IsAstaireKey, OffLimits;
    if s in w.taps {
      var t := w.taps[s];
      var w' := Step(hash, w, TapAct(s, Answered));
      FollowsStep(hash, start.node, w.node, t);
      forall k | OffLimits(hash, w'.taps, k)
        ensures SameRecord(start.node, w'.node, k)
      {
        SameLimits(hash, w.taps, w'.taps, k);
        OffLimitsIsLocal(hash, w.taps, s, k);
        StepIsLocal(hash, start.node, w.node, t, k);
      }
      forall s' | s' in w.taps && s' != s
        ensures Follows(hash, start.node, w'.node, w.taps[s'])
      {
        OthersFollow(hash, start, w, s, s');
      }
    }
  }

  lemma OffLimitsIsLocal(hash: Key -> int, taps: map<Server, Tap>, s: Server, k: Key)
    requires OffLimits(hash, taps, k) && s in taps
    ensures VBucketForKey(hash, k) !in taps[s].buckets || IsAstaireKey(k)
  {
  }

  /** A step of one thread leaves another where it is. */
  lemma OthersFollow(hash: Key -> int, start: World, w: World, s: Server, s': Server)
    requires Disjoint(w.taps) && s in w.taps && s' in w.taps && s' != s
    requires Follows(hash, start.node, w.node, w.taps[s]) && Follows(hash, start.node, w.node, w.taps[s'])
    ensures Follows(hash, start.node, TapStep(hash, w.node, w.taps[s], Answered).0, w.taps[s'])
  {
    hide Follows, TapStep, VBucketForKey, IsAstaireKey;
    var node' := TapStep(hash, w.node, w.taps[s], Answered).0;
    forall k | VBucketForKey(hash, k) in w.taps[s'].buckets
      ensures SameRecord(w.node, node', k)
    {
      StepIsLocal(hash, start.node, w.node, w.taps[s], k);
    }
    FollowsFrame(hash, start.node, w.node, node', w.taps[s']);
  }

  /** Nothing outside the thread's own keys changes. */
  lemma StepIsLocal(hash: Key -> int, start: Node, node: Node, t: Tap, k: Key)
    requires Follows(hash, start, node, t)
    requires VBucketForKey(hash, k) !in t.buckets || IsAstaireKey(k)
    ensures SameRecord(node, TapStep(hash, node, t, Answered).0, k)
  {
    hide Earlier, Tracks;
  }

  lemma FollowsStep(hash: Key -> int, start: Node, node: Node, t: Tap)
    requires Follows(hash, start, node, t)
    ensures
      var (node', t') := TapStep(hash, node, t, Answered);
      && Follows(hash, start, node', t')
      && t'.buckets == t.buckets && t'.stream == t.stream && t'.reachable == t.reachable && t'.ending == t.ending
  {
    hide Tracks, Accepts, Earlier;
    PositionStep(hash, node, t);
    TracksStep(hash, start, node, t);
  }

  lemma {:induction false} InStepRun(hash: Key -> int, w: World, acts: seq<Act>)
    requires Initial(w) && Disjoint(w.taps) && Quiet(acts)
    ensures InStep(hash, w, Exec(hash, w, acts))
  {
    hide InStep, Step, Disjoint;
    if acts == [] {
      InStepInitially(hash, w);
    } else {
      var n := |acts| - 1;
      InStepRun(hash, w, acts[..n]);
      InStepStep(hash, w, Exec(hash, w, acts[..n]), acts[n].server);
    }
  }

  lemma {:induction false} PrefixOfMutations(stream: seq<Message>, n: nat)
    requires n <= |stream| && AllMutations(stream[..n])
    requires n < |stream| ==> !stream[n].TapMutateReq?
    ensures MutatePrefix(stream) == stream[..n]
  {
    if n > 0 {
      assert stream[..n][0] == stream[0];
      assert stream[1..][..n - 1] == stream[..n][1..];
      PrefixOfMutations(stream[1..], n - 1);
      assert stream[..n] == [stream[0]] + stream[1..][..n - 1];
    }
  }

  /** A finished thread has dealt with exactly what its server had to give. */
  lemma FinishedTap(hash: Key -> int, start: Node, node: Node, t: Tap, k: Key)
    requires Follows(hash, start, node, t) && t.phase == Finished
    ensures VBucketForKey(hash, k) in t.buckets ==>
              node.Lookup(k) == MergeAll(start.Lookup(k), Handled(hash, t.buckets, Taken(t), k))
    ensures t.success <==> Succeeds(t)
  {
    hide Accepts, MergeAll;
    if !t.reachable {
      assert Processed(t) == [];
    } else if t.next == |t.stream| && AllMutations(t.stream) {
      assert t.stream[..t.next] == t.stream;
      PrefixOfMutations(t.stream, t.next);
    } else {
      PrefixOfMutations(t.stream, t.next - 1);
      HandledSnoc(hash, t.buckets, t.stream, t.next - 1, k);
      var handled := Handled(hash, t.buckets, t.stream[..t.next - 1], k);
      assert handled + [] == handled;
    }
  }

  /** The outcome of a round, for every interleaving of its threads: each key of a
      tapped bucket holds the merge of its old record with everything its one
      server streamed for it; every other key keeps its record; each thread
      reports success exactly as its own server deserves. */
  lemma RoundResult(hash: Key -> int, w: World, acts: seq<Act>)
    requires Initial(w) && Disjoint(w.taps) && Quiet(acts) && Complete(Exec(hash, w, acts))
    ensures Exec(hash, w, acts).taps.Keys == w.taps.Keys
    ensures forall s, k :: s in w.taps && VBucketForKey(hash, k) in w.taps[s].buckets ==>
              Exec(hash, w, acts).node.Lookup(k) ==
              MergeAll(w.node.Lookup(k), Handled(hash, w.taps[s].buckets, Taken(w.taps[s]), k))
    ensures forall k :: OffLimits(hash, w.taps, k) ==>
              Exec(hash, w, acts).node.Lookup(k) == w.node.Lookup(k)
    ensures forall s :: s in w.taps ==> (Exec(hash, w, acts).taps[s].success <==> Succeeds(w.taps[s]))
  {
    hide Exec, Accepts, Earlier, Position, Tracks, MergeAll, Handled, VBucketForKey, IsAstaireKey, Succeeds, Taken;
    InStepRun(hash, w, acts);
    var end := Exec(hash, w, acts);
    forall s | s in w.taps
      ensures end.taps[s].success <==> Succeeds(w.taps[s])
    {
      SameTask(w.taps[s], end.taps[s]);
      FinishedTap(hash, w.node, end.node, end.taps[s], []);
    }
    forall s, k | s in w.taps && VBucketForKey(hash, k) in w.taps[s].buckets
      ensures end.node.Lookup(k) == MergeAll(w.node.Lookup(k), Handled(hash, w.taps[s].buckets, Taken(w.taps[s]), k))
    {
      SameTask(w.taps[s], end.taps[s]);
      FinishedTap(hash, w.node, end.node, end.taps[s], k);
    }
    forall k | (forall s :: s in w.taps ==> VBucketForKey(hash, k) !in w.taps[s].buckets) || IsAstaireKey(k)
      ensures end.node.Lookup(k) == w.node.Lookup(k)
    {
      assert SameRecord(w.node, end.node, k);
    }
  }

  lemma SameTask(t: Tap, t': Tap)
    requires t.stream == t'.stream && t.reachable == t'.reachable && t.ending == t'.ending
    ensures Taken(t) == Taken(t') && Succeeds(t) == Succeeds(t')
  {
  }

  /** Any two interleavings end with the same records and the same reports. */
  lemma InterleavingIsInvisible(hash: Key -> int, w: World, acts: seq<Act>, others: seq<Act>, k: Key)
    requires Initial(w) && Disjoint(w.taps) && Quiet(acts) && Quiet(others)
    requires Complete(Exec(hash, w, acts)) && Complete(Exec(hash, w, others))
    ensures Exec(hash, w, acts).node.Lookup(k) == Exec(hash, w, others).node.Lookup(k)
    ensures forall s :: s in w.taps ==>
              && s in Exec(hash, w, acts).taps && s in Exec(hash, w, others).taps
              && Exec(hash, w, acts).taps[s].success == Exec(hash, w, others).taps[s].success
  {
    hide Exec, Accepts, Earlier, MergeAll, Handled, VBucketForKey, IsAstaireKey, Succeeds, Taken;
    RoundResult(hash, w, acts);
    RoundResult(hash, w, others);
    if s :| s in w.taps && VBucketForKey(hash, k) in w.taps[s].buckets {
      assert Exec(hash, w, acts).node.Lookup(k) ==
             MergeAll(w.node.Lookup(k), Handled(hash, w.taps[s].buckets, Taken(w.taps[s]), k));
    }
  }

  /** `ms[i]` is later than the old record and than every earlier arrival. */
  ghost predicate FirstNewest(base: uint32, cur: Option<Item>, ms: seq<Mutation>, i: nat)
    requires i < |ms|
  {
    && (cur.Some? ==> Age(base, cur.value.flags) < Age(base, ms[i].flags))
    && forall j :: 0 <= j < i ==> Age(base, ms[j].flags) < Age(base, ms[i].flags)
  }

  /** The item is the streamed record, field by field. */
  predicate Holds(item: Item, m: Mutation) {
    item.value == m.value && item.flags == m.flags && item.expiry == m.expiry
  }

  /** Of the old record and all arrivals, `r` is one with the latest timestamp, and
      the first of these to have been there. */
  ghost predicate IsNewest(base: uint32, cur: Option<Item>, ms: seq<Mutation>, r: Option<Item>) {
    && (r == None <==> cur == None && ms == [])
    && (r.Some? ==>
          && InWindow(base, r.value.flags)
          && (cur.Some? ==> Age(base, cur.value.flags) <= Age(base, r.value.flags))
          && (forall j :: 0 <= j < |ms| ==> Age(base, ms[j].flags) <= Age(base, r.value.flags))
          && (r == cur || exists i :: 0 <= i < |ms| && FirstNewest(base, cur, ms, i) && Holds(r.value, ms[i])))
  }

  lemma {:induction false} MergeIsNewest(base: uint32, cur: Option<Item>, ms: seq<Mutation>)
    requires cur.Some? ==> InWindow(base, cur.value.flags)
    requires forall j :: 0 <= j < |ms| ==> InWindow(base, ms[j].flags)
    ensures IsNewest(base, cur, ms, MergeAll(cur, ms))
  {
    hide IsNewest, InWindow, MergeItem;
    if ms == [] {
      NothingArrived(base, cur);
    } else {
      var n := |ms| - 1;
      MergeIsNewest(base, cur, ms[..n]);
      NewestStep(base, cur, ms[..n], ms[n], MergeAll(cur, ms[..n]));
      assert ms[..n] + [ms[n]] == ms;
    }
  }

  lemma NothingArrived(base: uint32, cur: Option<Item>)
    requires cur.Some? ==> InWindow(base, cur.value.flags)
    ensures IsNewest(base, cur, [], cur)
  {
  }

  lemma NewestStep(base: uint32, cur: Option<Item>, ms: seq<Mutation>, m: Mutation, r: Option<Item>)
    requires IsNewest(base, cur, ms, r) && InWindow(base, m.flags)
    ensures IsNewest(base, cur, ms + [m], MergeItem(r, m))
  {
    hide InWindow, Age, Earlier;
    var all := ms + [m];
    if r.Some? {
      EarlierInWindow(base, r.value.flags, m.flags);
    }
    if MergeItem(r, m) == r {
      if r != cur {
        var i :| 0 <= i < |ms| && FirstNewest(base, cur, ms, i) && Holds(r.value, ms[i]);
        assert all[i] == ms[i] && FirstNewest(base, cur, all, i);
      }
    } else {
      assert FirstNewest(base, cur, all, |ms|);
    }
  }
}
