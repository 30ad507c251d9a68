/** Concurrent taps against taps run one after another, and the thread function
    itself as a loop. */
module TapSerial {
  import opened Messages
  import opened Timestamps
  import opened Connections
  import opened Memcached
  import opened TapThreads
  import opened TapMerge

  /** Steps a thread can still take. */
  function Rank(t: Tap): nat {
    var left := if t.next < |t.stream| then |t.stream| - t.next else 0;
    match t.phase
    case Finished => 0
    case Connecting => 4 * left + 5
    case Receiving => 4 * left + 1
    case Getting(_) => 4 * left + 4
    case Adding(_) => 4 * left + 3
    case Replacing(_, _) => 4 * left + 3
  }

  /** One thread running alone until it returns. */
  function RunTap(hash: Key -> int, w: World, s: Server): World
    requires s in w.taps
    decreases Rank(w.taps[s])
  {
    if w.taps[s].phase == Finished then w else RunTap(hash, Step(hash, w, TapAct(s, Answered)), s)
  }

  /** The threads one after another, in the given order. */
  function RunSerial(hash: Key -> int, w: World, order: seq<Server>): World
    requires forall i :: 0 <= i < |order| ==> order[i] in w.taps
    decreases |order|
  {
    if order == [] then w
    else
      var w' := RunTap(hash, w, order[0]);
      RunTapKeys(hash, w, order[0]);
      RunSerial(hash, w', order[1..])
  }

  lemma {:induction false} RunTapKeys(hash: Key -> int, w: World, s: Server)
    requires s in w.taps
    ensures RunTap(hash, w, s).taps.Keys == w.taps.Keys
    ensures RunTap(hash, w, s).taps[s].phase == Finished
    ensures forall s' :: s' in w.taps && s' != s ==> RunTap(hash, w, s).taps[s'] == w.taps[s']
    decreases Rank(w.taps[s])
  {
    hide Accepts, Earlier;
    if w.taps[s].phase != Finished {
      RunTapKeys(hash, Step(hash, w, TapAct(s, Answered)), s);
    }
  }

  lemma {:induction false} RunTapIsARun(hash: Key -> int, w: World, s: Server) returns (acts: seq<Act>)
    requires s in w.taps
    ensures Quiet(acts) && Exec(hash, w, acts) == RunTap(hash, w, s)
    decreases Rank(w.taps[s])
  {
    hide Accepts, Earlier;
    if w.taps[s].phase == Finished {
      acts := [];
    } else {
      var a := TapAct(s, Answered);
      var rest := RunTapIsARun(hash, Step(hash, w, a), s);
      acts := [a] + rest;
      ExecSnoc(hash, w, [], a);
      assert [] + [a] == [a];
      ExecAppend(hash, w, [a], rest);
    }
  }

  lemma {:induction false} SerialIsARun(hash: Key -> int, w: World, order: seq<Server>) returns (acts: seq<Act>)
    requires forall i :: 0 <= i < |order| ==> order[i] in w.taps
    ensures Quiet(acts) && Exec(hash, w, acts) == RunSerial(hash, w, order)
    ensures RunSerial(hash, w, order).taps.Keys == w.taps.Keys
    ensures forall s :: s in w.taps && (s in order || w.taps[s].phase == Finished) ==>
              RunSerial(hash, w, order).taps[s].phase == Finished
    decreases |order|
  {
    hide RunTap, Step;
    if order == [] {
      acts := [];
    } else {
      var first := RunTapIsARun(hash, w, order[0]);
      RunTapKeys(hash, w, order[0]);
      var rest := SerialIsARun(hash, RunTap(hash, w, order[0]), order[1..]);
      ExecAppend(hash, w, first, rest);
      acts := first + rest;
      assert forall s :: s in order ==> s == order[0] || s in order[1..];
    }
  }

  /** Whatever the scheduler does, the records and reports at the end of a round
      are those of the threads run one after another, in any order. */
  lemma ConcurrentIsSerial(hash: Key -> int, w: World, acts: seq<Act>, order: seq<Server>, k: Key)
    requires Initial(w) && Disjoint(w.taps) && Quiet(acts) && Complete(Exec(hash, w, acts))
    requires forall s :: s in order <==> s in w.taps
    ensures forall i :: 0 <= i < |order| ==> order[i] in w.taps
    ensures Exec(hash, w, acts).node.Lookup(k) == RunSerial(hash, w, order).node.Lookup(k)
    ensures forall s :: s in w.taps ==>
              && s in Exec(hash, w, acts).taps && s in RunSerial(hash, w, order).taps
              && Exec(hash, w, acts).taps[s].success == RunSerial(hash, w, order).taps[s].success
  {
    hide Exec, RunTap;
    assert forall i :: 0 <= i < |order| ==> order[i] in w.taps;
    var serial := SerialIsARun(hash, w, order);
    InterleavingIsInvisible(hash, w, acts, serial, k);
  }

  // ------------------------------------------------- the thread as a loop

  /** The thread of `s` makes its moves, the local node choosing each answer. */
  ghost predicate MovesOf(acts: seq<Act>, s: Server, choices: nat -> Choice) {
    forall i :: 0 <= i < |acts| ==> acts[i] == TapAct(s, choices(i))
  }

  /** A world of one thread. */
  function Alone(node: Node, s: Server, t: Tap): World { World(node, map[s := t]) }

  lemma StepAlone(hash: Key -> int, node: Node, s: Server, t: Tap, choice: Choice)
    ensures
      var (node', t') := TapStep(hash, node, t, choice);
      Step(hash, Alone(node, s, t), TapAct(s, choice)) == Alone(node', s, t')
  {
    hide TapStep;
    assert map[s := t][s := TapStep(hash, node, t, choice).1] == map[s := TapStep(hash, node, t, choice).1];
  }

  /** The exchange with the local node over one record: GET, compare, and ADD or
      REPLACE if need be. It is one or two steps of the thread. */
  method MergeRecord(hash: Key -> int, local: Node, m: Mutation, ghost t: Tap, get: Choice, put: Choice)
    returns (node: Node, success: bool, second: bool)
    requires t.phase == Getting(m)
    ensures
      var (node1, t1) := TapStep(hash, local, t, get);
      && (!second ==> node1 == node && t1 == t.(phase := Receiving, success := t.success && success))
      && (second ==>
            var (node2, t2) := TapStep(hash, node1, t1, put);
            node2 == node && t2 == t.(phase := Receiving, success := t.success && success))
  {
    hide Earlier;
    node, success, second := local, true, false;
    if !get.Answered? {
      success := false;
      return;
    }
    if m.key in local.store {
      if Earlier(local.store[m.key].item.flags, m.flags) {
        second := true;
        if put.Answered? || put == Lost(true) {
          node := local.Replace(m.key, ItemOf(m), local.store[m.key].cas).1;
        }
        success := !put.Lost?;
      }
    } else {
      second := true;
      if put.Answered? || put == Lost(true) {
        node := local.Add(m.key, ItemOf(m)).1;
      }
      success := !put.Lost?;
    }
  }

  /** The thread function: connect, then for every streamed record GET, compare, ADD
      or REPLACE. Whatever the local node answers, refuses or loses, it runs to its
      end through the thread's steps. If all is answered it leaves the merge of the
      store with the stream, and reports success as the server deserves. */
  method TapBucketsThread(hash: Key -> int, s: Server, buckets: seq<Bucket>, reachable: bool, stream: seq<Message>,
                          ending: Ending, local: Node, choices: nat -> Choice)
    returns (node: Node, success: bool, ghost acts: seq<Act>)
    requires local.Valid()
    ensures MovesOf(acts, s, choices)
    ensures
      var start := Alone(local, s, NewTap(buckets, reachable, stream, ending));
      var end := Exec(hash, start, acts);
      end.taps.Keys == {s} && end.node == node && end.taps[s].phase == Finished && end.taps[s].success == success
    ensures Quiet(acts) ==>
              && (forall k :: VBucketForKey(hash, k) in buckets ==>
                    node.Lookup(k) ==
                    MergeAll(local.Lookup(k),
                             Handled(hash, buckets, Taken(NewTap(buckets, reachable, stream, ending)), k)))
              && (forall k :: VBucketForKey(hash, k) !in buckets || IsAstaireKey(k) ==>
                    node.Lookup(k) == local.Lookup(k))
              && (success <==> Succeeds(NewTap(buckets, reachable, stream, ending)))
  {
    hide Exec, Step, TapStep, MovesOf, Quiet, MergeAll, Handled, VBucketForKey, IsAstaireKey, Accepts, Succeeds, Taken;
    ghost var t := NewTap(buckets, reachable, stream, ending);
    ghost var start := Alone(local, s, t);
    node, success, acts := local, false, [];
    var next, finished := 0, false;
    FirstMove(hash, local, s, t, choices);
    acts := [TapAct(s, choices(0))];
    var i := 1;
    if choices(0) == Answered && reachable {
      success := true;
      while !finished
        invariant i == |acts| && MovesOf(acts, s, choices) && next <= |stream|
        invariant Exec(hash, start, acts) ==
                  Alone(node, s, Tap(buckets, reachable, stream, ending, next,
                                     if finished then Finished else Receiving, success))
        decreases |stream| - next, !finished
      {
        ghost var at := Tap(buckets, reachable, stream, ending, next, Receiving, success);
        NextMove(hash, start, node, s, at, choices, acts);
        ReceiveIs(hash, node, at, choices(i));
        acts := acts + [TapAct(s, choices(i))];
        i := i + 1;
        if next == |stream| {
          finished := true;
          success := success && ending == Closed;
        } else {
          var msg := stream[next];
          next := next + 1;
          if !msg.TapMutateReq? {
            success, finished := false, true;
          } else if Accepts(hash, buckets, msg) {
            var m: Mutation := msg;
            ghost var getting := Tap(buckets, reachable, stream, ending, next, Getting(m), success);
            NextMove(hash, start, node, s, getting, choices, acts);
            ghost var (node1, t1) := TapStep(hash, node, getting, choices(i));
            var ok, second;
            node, ok, second := MergeRecord(hash, node, m, getting, choices(i), choices(i + 1));
            acts := acts + [TapAct(s, choices(i))];
            i := i + 1;
            if second {
              NextMove(hash, start, node1, s, t1, choices, acts);
              acts := acts + [TapAct(s, choices(i))];
              i := i + 1;
            }
            success := success && ok;
          }
        }
      }
    }
    if Quiet(acts) {
      AloneResult(hash, s, t, local, acts);
    }
  }

  lemma FirstMove(hash: Key -> int, node: Node, s: Server, t: Tap, choices: nat -> Choice)
    requires t == NewTap(t.buckets, t.reachable, t.stream, t.ending)
    ensures MovesOf([TapAct(s, choices(0))], s, choices)
    ensures
      var t' := if choices(0) == Answered && t.reachable then t.(phase := Receiving, success := true)
                else t.(phase := Finished);
      Exec(hash, Alone(node, s, t), [TapAct(s, choices(0))]) == Alone(node, s, t')
  {
    var a := TapAct(s, choices(0));
    ExecSnoc(hash, Alone(node, s, t), [], a);
    assert [] + [a] == [a];
    StepAlone(hash, node, s, t, choices(0));
  }

  lemma NextMove(hash: Key -> int, start: World, node: Node, s: Server, t: Tap, choices: nat -> Choice, acts: seq<Act>)
    requires MovesOf(acts, s, choices) && Exec(hash, start, acts) == Alone(node, s, t)
    ensures
      var a := TapAct(s, choices(|acts|));
      var (node', t') := TapStep(hash, node, t, choices(|acts|));
      MovesOf(acts + [a], s, choices) && Exec(hash, start, acts + [a]) == Alone(node', s, t')
  {
    hide TapStep, Alone;
    ExecSnoc(hash, start, acts, TapAct(s, choices(|acts|)));
    StepAlone(hash, node, s, t, choices(|acts|));
  }

  lemma ReceiveIs(hash: Key -> int, node: Node, t: Tap, choice: Choice)
    requires t.phase == Receiving && t.next <= |t.stream|
    ensures
      var t' := TapStep(hash, node, t, choice).1;
      && TapStep(hash, node, t, choice).0 == node
      && (t.next == |t.stream| ==> t' == t.(phase := Finished, success := t.success && t.ending == Closed))
      && (t.next < |t.stream| ==>
            var msg, moved := t.stream[t.next], t.(next := t.next + 1);
            t' == if !msg.TapMutateReq? then moved.(phase := Finished, success := false)
                  else if Accepts(hash, t.buckets, msg) then moved.(phase := Getting(msg))
                  else moved)
  {
    hide Accepts;
  }

  lemma AloneResult(hash: Key -> int, s: Server, t: Tap, local: Node, acts: seq<Act>)
    requires local.Valid() && t == NewTap(t.buckets, t.reachable, t.stream, t.ending) && Quiet(acts)
    requires Exec(hash, Alone(local, s, t), acts).taps.Keys == {s}
    requires Exec(hash, Alone(local, s, t), acts).taps[s].phase == Finished
    ensures
      var end := Exec(hash, Alone(local, s, t), acts);
      && (forall k :: VBucketForKey(hash, k) in t.buckets ==>
            end.node.Lookup(k) == MergeAll(local.Lookup(k), Handled(hash, t.buckets, Taken(t), k)))
      && (forall k :: VBucketForKey(hash, k) !in t.buckets || IsAstaireKey(k) ==> end.node.Lookup(k) == local.Lookup(k))
      && (end.taps[s].success <==> Succeeds(t))
  {
    hide Exec, MergeAll, Handled, Taken, VBucketForKey, IsAstaireKey, Succeeds;
    var start := Alone(local, s, t);
    RoundResult(hash, start, acts);
    assert s in start.taps && start.taps[s] == t;
  }
}
