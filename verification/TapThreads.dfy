/** The tap threads of one round as a step system: the local memcached, one
    thread per tapped server, and clients that write and delete at any moment.
    A step is one exchange with the local node, or the receipt of one message. */
module TapThreads {
  import opened Messages
  import opened Timestamps
  import opened Connections
  import opened Memcached

  type Mutation = m: Message | m.TapMutateReq? witness TapMutateReq(TAP_MUTATE, [], 0, 0, 0, [], 0, 0)

  function ItemOf(m: Mutation): Item { Item(m.value, m.flags, m.expiry) }

  /** Where a thread stands in its loop. `Replacing` keeps the record that GET
      returned; only its CAS is sent on. */
  datatype Phase =
    | Connecting
    | Receiving
    | Getting(m: Mutation)
    | Adding(m: Mutation)
    | Replacing(m: Mutation, seen: Record)
    | Finished

  /** A tap of one server: the buckets it was asked for, whether the server can
      be connected to, and everything the server will stream. */
  datatype Tap = Tap(buckets: seq<Bucket>, reachable: bool, stream: seq<Message>, ending: Ending,
                     next: nat, phase: Phase, success: bool)

  function NewTap(buckets: seq<Bucket>, reachable: bool, stream: seq<Message>, ending: Ending): Tap {
    Tap(buckets, reachable, stream, ending, 0, Connecting, false)
  }

  /** What the local node does with a request: answer it, lose the connection
      (the request may have been carried out or not), or refuse it. */
  datatype Choice = Answered | Lost(applied: bool) | Refused

  datatype World = World(node: Node, taps: map<Server, Tap>)

  datatype Act =
    | TapAct(server: Server, choice: Choice)
    | ClientPut(key: Key, item: Item)
    | ClientDelete(key: Key)

  /** The filter on a streamed record: its bucket was asked for and it is not one
      of Astaire's own. */
  predicate Accepts(hash: Key -> int, buckets: seq<Bucket>, m: Mutation) {
    VBucketForKey(hash, m.key) in buckets && !IsAstaireKey(m.key)
  }

  /** Receipt of the next message of the stream, or of its end. */
  function Receive(hash: Key -> int, t: Tap): Tap
    requires t.phase == Receiving
  {
    if t.next >= |t.stream| then
      t.(phase := Finished, success := t.success && t.ending == Closed)
    else
      var m := t.stream[t.next];
      var t' := t.(next := t.next + 1);
      if !m.TapMutateReq? then t'.(phase := Finished, success := false)
      else if Accepts(hash, t.buckets, m) then t'.(phase := Getting(m))
      else t'
  }

  /** GET of the record from the local node, and the comparison. */
  function Compare(node: Node, t: Tap, choice: Choice): Tap
    requires t.phase.Getting?
  {
    var m := t.phase.m;
    if !choice.Answered? then t.(phase := Receiving, success := false)
    else if m.key !in node.store then t.(phase := Adding(m))
    else if Earlier(node.store[m.key].item.flags, m.flags) then t.(phase := Replacing(m, node.store[m.key]))
    else t.(phase := Receiving)
  }

  function TapStep(hash: Key -> int, node: Node, t: Tap, choice: Choice): (Node, Tap) {
    match t.phase
    case Connecting =>
      if choice.Answered? && t.reachable then (node, t.(phase := Receiving, success := true))
      else (node, t.(phase := Finished))
    case Receiving => (node, Receive(hash, t))
    case Getting(_) => (node, Compare(node, t, choice))
    case Adding(m) =>
      (if choice.Answered? || choice == Lost(true) then node.Add(m.key, ItemOf(m)).1 else node,
       t.(phase := Receiving, success := t.success && !choice.Lost?))
    case Replacing(m, seen) =>
      (if choice.Answered? || choice == Lost(true) then node.Replace(m.key, ItemOf(m), seen.cas).1 else node,
       t.(phase := Receiving, success := t.success && !choice.Lost?))
    case Finished => (node, t)
  }

  function Step(hash: Key -> int, w: World, a: Act): World {
    match a
    case TapAct(s, choice) =>
      if s !in w.taps then w
      else
        var (node, t) := TapStep(hash, w.node, w.taps[s], choice);
        World(node, w.taps[s := t])
    case ClientPut(k, item) => w.(node := w.node.Put(k, item))
    case ClientDelete(k) => w.(node := w.node.Remove(k))
  }

  /** The world after a run: any sequence of acts is an interleaving. */
  function Exec(hash: Key -> int, w: World, acts: seq<Act>): World {
    if acts == [] then w else Step(hash, Exec(hash, w, acts[..|acts| - 1]), acts[|acts| - 1])
  }

  /** Before the first step of the round. */
  ghost predicate Initial(w: World) {
    && w.node.Valid()
    && forall s :: s in w.taps ==> w.taps[s].phase == Connecting && w.taps[s].next == 0 && !w.taps[s].success
  }

  /** Every thread has returned. */
  ghost predicate Complete(w: World) {
    forall s :: s in w.taps ==> w.taps[s].phase == Finished
  }

  lemma ExecSnoc(hash: Key -> int, w: World, acts: seq<Act>, a: Act)
    ensures Exec(hash, w, acts + [a]) == Step(hash, Exec(hash, w, acts), a)
  {
    assert (acts + [a])[..|acts|] == acts;
  }

  lemma {:induction false} ExecAppend(hash: Key -> int, w: World, first: seq<Act>, second: seq<Act>)
    ensures Exec(hash, w, first + second) == Exec(hash, Exec(hash, w, first), second)
  {
    if second == [] {
      assert first + second == first;
    } else {
      var n := |second| - 1;
      ExecAppend(hash, w, first, second[..n]);
      assert (first + second)[..|first + second| - 1] == first + second[..n];
    }
  }
}
