/** Races between a tap and those who write the same key: exactly when a tap brings
    back what a client deleted, and exactly when it drops the newer record. */
module TapRaces {
  import opened Bytes
  import opened Timestamps
  import opened Connections
  import opened Memcached
  import opened TapThreads
  import opened TapSafety
  import opened TapMerge

  /** The request reaches the local node, whatever becomes of its answer. */
  predicate Lands(choice: Choice) { choice == Answered || choice == Lost(true) }

  // ------------------------------------------------------------ undone deletes

  /** A client has deleted `k` by act `j`, since when the key is absent. */
  ghost predicate GoneSince(hash: Key -> int, w: World, acts: seq<Act>, k: Key, j: nat) {
    && j < |acts| && acts[j] == ClientDelete(k)
    && forall i :: j < i <= |acts| ==> k !in Exec(hash, w, acts[..i]).node.store
  }

  /** The next step of `s` brings back what a client deleted in this run, be it
      before the thread's GET or after it. */
  ghost predicate UndoesDelete(hash: Key -> int, w: World, acts: seq<Act>, s: Server, choice: Choice, k: Key) {
    && (exists j :: GoneSince(hash, w, acts, k, j))
    && k in Exec(hash, w, acts + [TapAct(s, choice)]).node.store
  }

  /** The thread is about to add a record under `k`, which is absent; its GET found
      none. The ADD carries no CAS. */
  ghost predicate AboutToAdd(w: World, s: Server, choice: Choice, k: Key)
    requires s in w.taps
  {
    w.taps[s].phase.Adding? && w.taps[s].phase.m.key == k && Lands(choice) && k !in w.node.store
  }

  /** Exactly when a tap undoes a client's delete: the ADD of a thread whose GET
      found no record lands while the key is absent, and a client has deleted the
      key before. A REPLACE never does it. */
  lemma UndoesDeleteIff(hash: Key -> int, w: World, acts: seq<Act>, s: Server, choice: Choice, k: Key)
    requires Initial(w) && s in w.taps
    ensures s in Exec(hash, w, acts).taps
    ensures UndoesDelete(hash, w, acts, s, choice, k) <==>
            AboutToAdd(Exec(hash, w, acts), s, choice, k) && exists j :: 0 <= j < |acts| && acts[j] == ClientDelete(k)
  {
    hide Exec, GoneSince;
    StoresIff(hash, w, acts, s, choice, k);
    if j :| GoneSince(hash, w, acts, k, j) {
      GoneNow(hash, w, acts, k, j);
    }
    if k !in Exec(hash, w, acts).node.store {
      if j :| 0 <= j < |acts| && acts[j] == ClientDelete(k) {
        InitialIsSound(hash, w);
        var last := LastDelete(hash, w, acts, k, j);
      }
    }
  }

  /** The same of the deletes since the thread's GET alone. */
  lemma UndoesLaterDeleteIff(hash: Key -> int, w: World, acts: seq<Act>, s: Server, choice: Choice, k: Key)
    requires Initial(w) && s in w.taps
    ensures s in Exec(hash, w, acts).taps
    ensures
      (&& (exists j :: GoneSince(hash, w, acts, k, j) && IdleSince(acts, s, j))
       && k in Exec(hash, w, acts + [TapAct(s, choice)]).node.store)
      <==>
      (&& AboutToAdd(Exec(hash, w, acts), s, choice, k)
       && exists j :: 0 <= j < |acts| && acts[j] == ClientDelete(k) && IdleSince(acts, s, j))
  {
    hide Exec, GoneSince, IdleSince;
    StoresIff(hash, w, acts, s, choice, k);
    if j :| GoneSince(hash, w, acts, k, j) && IdleSince(acts, s, j) {
      GoneNow(hash, w, acts, k, j);
    }
    if k !in Exec(hash, w, acts).node.store {
      if j :| 0 <= j < |acts| && acts[j] == ClientDelete(k) && IdleSince(acts, s, j) {
        InitialIsSound(hash, w);
        var last := LastDelete(hash, w, acts, k, j);
        IdleLater(acts, s, j, last);
      }
    }
  }

  lemma IdleLater(acts: seq<Act>, s: Server, j: nat, last: nat)
    requires IdleSince(acts, s, j) && j <= last
    ensures IdleSince(acts, s, last)
  {
  }

  lemma GoneNow(hash: Key -> int, w: World, acts: seq<Act>, k: Key, j: nat)
    requires GoneSince(hash, w, acts, k, j)
    ensures j < |acts| && acts[j] == ClientDelete(k) && k !in Exec(hash, w, acts).node.store
  {
    hide Exec;
    assert acts[..|acts|] == acts;
  }

  /** A step of a tap stores a record under an absent key only by an ADD that lands. */
  lemma StoresIff(hash: Key -> int, w: World, acts: seq<Act>, s: Server, choice: Choice, k: Key)
    requires Initial(w) && s in w.taps
    ensures s in Exec(hash, w, acts).taps
    ensures k !in Exec(hash, w, acts).node.store ==>
              (k in Exec(hash, w, acts + [TapAct(s, choice)]).node.store <==>
               AboutToAdd(Exec(hash, w, acts), s, choice, k))
  {
    hide Step, Earlier, Exec;
    InitialIsSound(hash, w);
    RunSound(hash, w, acts);
    SameTaps(hash, w, acts);
    var now := Exec(hash, w, acts);
    ExecSnoc(hash, w, acts, TapAct(s, choice));
    if k !in now.node.store {
      TapStepIsSafe(hash, now, s, choice, k);
      if now.taps[s].phase.Adding? && now.taps[s].phase.m.key == k {
        AddLands(hash, now, s, choice, k);
      }
    }
  }

  /** An ADD that reaches the node stores the record if there is none. */
  lemma AddLands(hash: Key -> int, w: World, s: Server, choice: Choice, k: Key)
    requires s in w.taps && w.taps[s].phase.Adding? && w.taps[s].phase.m.key == k && k !in w.node.store
    ensures k in Step(hash, w, TapAct(s, choice)).node.store <==> Lands(choice)
  {
  }

  /** If a key is absent that a client deleted, it has been so since a delete. */
  lemma {:induction false} LastDelete(hash: Key -> int, w: World, acts: seq<Act>, k: Key, j: nat) returns (last: nat)
    requires Sound(hash, w) && j < |acts| && acts[j] == ClientDelete(k)
    requires k !in Exec(hash, w, acts).node.store
    ensures j <= last && GoneSince(hash, w, acts, k, last)
  {
    hide TapStep, Sound;
    var n := |acts| - 1;
    assert acts[..|acts|] == acts;
    if acts[n] == ClientDelete(k) {
      last := n;
    } else {
      RunSound(hash, w, acts[..n]);
      if k in Exec(hash, w, acts[..n]).node.store {
        OnlyDeletesRemove(hash, Exec(hash, w, acts[..n]), acts[n], k);
      }
      last := LastDelete(hash, w, acts[..n], k, j);
      forall i | last < i <= |acts|
        ensures k !in Exec(hash, w, acts[..i]).node.store
      {
        if i <= n {
          assert acts[..n][..i] == acts[..i];
        }
      }
    }
  }

  lemma OnlyDeletesRemove(hash: Key -> int, w: World, a: Act, k: Key)
    requires Sound(hash, w) && a != ClientDelete(k) && k in w.node.store
    ensures k in Step(hash, w, a).node.store
  {
    hide Step, Sound;
    if a.TapAct? && a.server in w.taps {
      TapStepIsSafe(hash, w, a.server, a.choice, k);
    } else {
      OthersRemoveNothing(hash, w, a, k);
    }
  }

  lemma OthersRemoveNothing(hash: Key -> int, w: World, a: Act, k: Key)
    requires a != ClientDelete(k) && k in w.node.store && (a.TapAct? ==> a.server !in w.taps)
    ensures k in Step(hash, w, a).node.store
  {
  }

  // ------------------------------------------------------- dropped newer records

  /** The thread is about to write `m`, and the write lands. */
  ghost predicate Writes(w: World, s: Server, choice: Choice)
    requires s in w.taps
  {
    (w.taps[s].phase.Adding? || w.taps[s].phase.Replacing?) && Lands(choice)
  }

  /** The write of `s` lands, and yet its record is not stored and the key is left
      without a record or with an older one. */
  ghost predicate DropsNewer(hash: Key -> int, w: World, s: Server, choice: Choice)
    requires s in w.taps
  {
    && Writes(w, s, choice)
    && var m, after := w.taps[s].phase.m, Step(hash, w, TapAct(s, choice)).node.store;
      m.key !in after || Earlier(after[m.key].item.flags, m.flags)
  }

  /** Since the thread's GET some act has changed what is under `k`. */
  ghost predicate ChangedSince(hash: Key -> int, w: World, acts: seq<Act>, s: Server, k: Key) {
    exists j :: 0 <= j < |acts| && IdleSince(acts, s, j) && ChangedBy(hash, w, acts, k, j)
  }

  ghost predicate ChangedBy(hash: Key -> int, w: World, acts: seq<Act>, k: Key, j: nat)
    requires j < |acts|
  {
    Exec(hash, w, acts[..j]).node.Entry(k) != Exec(hash, w, acts[..j + 1]).node.Entry(k)
  }

  /** Over every run, exactly when a tap drops the newer record: somebody has changed
      what is under the key since the tap's GET, and the key now has an older record,
      or has none any more when the tap means to replace one. */
  lemma DropsNewerIff(hash: Key -> int, w: World, acts: seq<Act>, s: Server, choice: Choice)
    requires Initial(w) && s in w.taps
    ensures s in Exec(hash, w, acts).taps
    ensures
      var now := Exec(hash, w, acts);
      DropsNewer(hash, now, s, choice) <==>
        && Writes(now, s, choice)
        && ChangedSince(hash, w, acts, s, now.taps[s].phase.m.key)
        && var m := now.taps[s].phase.m;
          if m.key in now.node.store then Earlier(now.node.store[m.key].item.flags, m.flags)
          else now.taps[s].phase.Replacing?
  {
    hide Exec, Step, Earlier, ChangedSince;
    InitialIsSound(hash, w);
    RunSound(hash, w, acts);
    SameTaps(hash, w, acts);
    var now := Exec(hash, w, acts);
    if Writes(now, s, choice) {
      WriteOutcome(hash, now, s, choice);
      var k := now.taps[s].phase.m.key;
      if now.taps[s].phase.Adding? {
        AbsentUnlessChanged(hash, w, acts, s);
      } else {
        SeenUnlessChanged(hash, w, acts, s);
      }
    }
  }

  /** What a write that lands leaves under its key. */
  lemma WriteOutcome(hash: Key -> int, w: World, s: Server, choice: Choice)
    requires Sound(hash, w) && s in w.taps && Writes(w, s, choice)
    ensures
      var phase, before := w.taps[s].phase, w.node.store;
      var k, after := phase.m.key, Step(hash, w, TapAct(s, choice)).node.store;
      var stores := if phase.Adding? then k !in before else k in before && before[k] == phase.seen;
      && (stores ==> k in after && Holds(after[k].item, phase.m) && !Earlier(after[k].item.flags, phase.m.flags))
      && (!stores ==> after == before)
  {
    hide Earlier;
    assert TapSound(hash, w.node, w.taps[s]);
    NotEarlierThanItself(w.taps[s].phase.m.flags);
  }

  lemma NotEarlierThanItself(a: uint32)
    ensures !Earlier(a, a)
  {
  }

  /** Where an ADD is due, the key is absent unless something has changed. */
  lemma AbsentUnlessChanged(hash: Key -> int, w: World, acts: seq<Act>, s: Server)
    requires Initial(w) && s in Exec(hash, w, acts).taps && Exec(hash, w, acts).taps[s].phase.Adding?
    ensures
      var now := Exec(hash, w, acts);
      now.taps[s].phase.m.key in now.node.store ==> ChangedSince(hash, w, acts, s, now.taps[s].phase.m.key)
  {
    hide Exec, ChangedSince, IdleSince;
    var g := MissPoint(hash, w, acts, s);
    var k := Exec(hash, w, acts).taps[s].phase.m.key;
    GetKeepsNode(hash, w, acts, g);
    if !ChangedSince(hash, w, acts, s, k) {
      SameEntrySince(hash, w, acts, s, k, g + 1);
    }
  }

  /** Where a REPLACE is due, the key has the record that GET returned exactly unless
      something has changed. */
  lemma SeenUnlessChanged(hash: Key -> int, w: World, acts: seq<Act>, s: Server)
    requires Initial(w) && s in Exec(hash, w, acts).taps && Exec(hash, w, acts).taps[s].phase.Replacing?
    ensures
      var now := Exec(hash, w, acts);
      var phase := now.taps[s].phase;
      now.node.Entry(phase.m.key) == Some(phase.seen) <==> !ChangedSince(hash, w, acts, s, phase.m.key)
  {
    hide Exec, IdleSince, ChangedSince, Node.Valid;
    var g := ReadPoint(hash, w, acts, s);
    IdleAfter(acts, s, g);
    var phase := Exec(hash, w, acts).taps[s].phase;
    GetKeepsNode(hash, w, acts, g);
    if !ChangedSince(hash, w, acts, s, phase.m.key) {
      SameEntrySince(hash, w, acts, s, phase.m.key, g + 1);
    } else if Exec(hash, w, acts).node.Entry(phase.m.key) == Some(phase.seen) {
      UnchangedWhileThere(hash, w, acts, s, phase.m.key, g);
    }
  }

  /** A record that is still there has not been changed since. */
  lemma UnchangedWhileThere(hash: Key -> int, w: World, acts: seq<Act>, s: Server, k: Key, g: nat)
    requires Initial(w) && g < |acts| && acts[g] == TapAct(s, Answered)
    requires k in Exec(hash, w, acts).node.store && k in Exec(hash, w, acts[..g]).node.store
    requires Exec(hash, w, acts).node.store[k] == Exec(hash, w, acts[..g]).node.store[k]
    ensures !ChangedSince(hash, w, acts, s, k)
  {
    hide Exec, IdleSince, Node.Entry, Node.Valid;
    InitialIsSound(hash, w);
    RunSound(hash, w, acts[..g]);
    forall j | 0 <= j < |acts| && IdleSince(acts, s, j)
      ensures !ChangedBy(hash, w, acts, k, j)
    {
      MovedBefore(acts, s, g, j);
      SameAt(hash, w, acts, g, j, k);
      SameAt(hash, w, acts, g, j + 1, k);
    }
  }

  lemma IdleAfter(acts: seq<Act>, s: Server, g: nat)
    requires forall j :: g < j < |acts| ==> !(acts[j].TapAct? && acts[j].server == s)
    ensures IdleSince(acts, s, g + 1)
  {
  }

  lemma MovedBefore(acts: seq<Act>, s: Server, g: nat, j: nat)
    requires g < |acts| && acts[g] == TapAct(s, Answered) && IdleSince(acts, s, j)
    ensures g < j
  {
  }

  /** A record that is still there, and was there at point `g`, was there at every
      point in between. */
  lemma SameAt(hash: Key -> int, w: World, acts: seq<Act>, g: nat, i: nat, k: Key)
    requires w.node.Valid() && g <= i <= |acts| && Exec(hash, w, acts[..g]).node.Valid()
    requires k in Exec(hash, w, acts).node.store && k in Exec(hash, w, acts[..g]).node.store
    requires Exec(hash, w, acts).node.store[k] == Exec(hash, w, acts[..g]).node.store[k]
    ensures Exec(hash, w, acts[..i]).node.Entry(k) == Exec(hash, w, acts).node.Entry(k)
  {
    hide Exec;
    UntouchedSince(hash, w, acts[..i], g, k);
    assert acts[..i][..g] == acts[..g];
    UntouchedSince(hash, w, acts, i, k);
  }

  /** A GET changes nothing. */
  lemma GetKeepsNode(hash: Key -> int, w: World, acts: seq<Act>, g: nat)
    requires g < |acts| && acts[g].TapAct? && acts[g].server in Exec(hash, w, acts[..g]).taps
    requires Exec(hash, w, acts[..g]).taps[acts[g].server].phase.Getting?
    ensures Exec(hash, w, acts[..g + 1]).node == Exec(hash, w, acts[..g]).node
  {
    hide Exec, Earlier;
    assert acts[..g] + [acts[g]] == acts[..g + 1];
    ExecSnoc(hash, w, acts[..g], acts[g]);
  }

  lemma {:induction false} SameEntrySince(hash: Key -> int, w: World, acts: seq<Act>, s: Server, k: Key, i: nat)
    requires i <= |acts| && IdleSince(acts, s, i) && !ChangedSince(hash, w, acts, s, k)
    ensures Exec(hash, w, acts).node.Entry(k) == Exec(hash, w, acts[..i]).node.Entry(k)
    decreases |acts| - i
  {
    hide Exec, Node.Entry;
    if i == |acts| {
      assert acts[..i] == acts;
    } else {
      IdleLater(acts, s, i, i + 1);
      SameEntrySince(hash, w, acts, s, k, i + 1);
      assert !ChangedBy(hash, w, acts, k, i);
    }
  }

  /** In a round the buckets are apart, so that it takes a client to change what is
      under the key that a tap is about to write. */
  lemma OnlyClientsIntervene(hash: Key -> int, w: World, acts: seq<Act>, s: Server, k: Key, j: nat)
    requires Initial(w) && Disjoint(w.taps) && s in w.taps && VBucketForKey(hash, k) in w.taps[s].buckets
    requires j < |acts| && IdleSince(acts, s, j) && ChangedBy(hash, w, acts, k, j)
    ensures acts[j] == ClientDelete(k) || (acts[j].ClientPut? && acts[j].key == k)
  {
    hide Exec, TapStep, IdleSince, VBucketForKey;
    var now := Exec(hash, w, acts[..j]);
    assert acts[..j] + [acts[j]] == acts[..j + 1];
    ExecSnoc(hash, w, acts[..j], acts[j]);
    if acts[j].TapAct? && acts[j].server in now.taps {
      var other := acts[j].server;
      assert other != s by { IdleAt(acts, s, j); }
      InitialIsSound(hash, w);
      RunSound(hash, w, acts[..j]);
      SameTaps(hash, w, acts[..j]);
      TapConstants(hash, w, acts[..j], other);
      TapStepIsSafe(hash, now, other, acts[j].choice, k);
    }
  }

  lemma IdleAt(acts: seq<Act>, s: Server, j: nat)
    requires j < |acts| && IdleSince(acts, s, j)
    ensures acts[j].TapAct? ==> acts[j].server != s
  {
  }

  // ------------------------------------------------------------ runs that do so

  /** One thread that is to fetch the one record `m`. */
  function Fetching(hash: Key -> int, node: Node, s: Server, m: Mutation): World {
    World(node, map[s := NewTap([VBucketForKey(hash, m.key)], true, [m], Closed)])
  }

  /** The same when the thread has received `m`. */
  function Received(hash: Key -> int, node: Node, s: Server, m: Mutation, phase: Phase): World {
    World(node, map[s := Tap([VBucketForKey(hash, m.key)], true, [m], Closed, 1, phase, true)])
  }

  lemma FetchingIsInitial(hash: Key -> int, node: Node, s: Server, m: Mutation)
    requires node.Valid()
    ensures Initial(Fetching(hash, node, s, m)) && Disjoint(Fetching(hash, node, s, m).taps)
  {
    hide VBucketForKey;
  }

  /** Connecting and receiving `m`. */
  lemma Receives(hash: Key -> int, node: Node, s: Server, m: Mutation)
    requires !IsAstaireKey(m.key)
    ensures
      var go := TapAct(s, Answered);
      Exec(hash, Fetching(hash, node, s, m), [go, go]) == Received(hash, node, s, m, Getting(m))
  {
    hide IsAstaireKey, VBucketForKey, Exec;
    var go, w, bucket := TapAct(s, Answered), Fetching(hash, node, s, m), VBucketForKey(hash, m.key);
    var w1 := World(node, map[s := Tap([bucket], true, [m], Closed, 0, Receiving, true)]);
    ExecPair(hash, w, go, go);
    assert Step(hash, w, go) == w1;
    assert Accepts(hash, [bucket], m);
    assert Step(hash, w1, go) == Received(hash, node, s, m, Getting(m));
  }

  lemma ExecPair(hash: Key -> int, w: World, a: Act, b: Act)
    ensures Exec(hash, w, [a, b]) == Step(hash, Step(hash, w, a), b)
  {
    hide Step;
    ExecSnoc(hash, w, [a], b);
    ExecSnoc(hash, w, [], a);
    assert [a] + [b] == [a, b] && [] + [a] == [a];
  }

  /** The GET that finds nothing. */
  lemma Misses(hash: Key -> int, node: Node, s: Server, m: Mutation)
    requires m.key !in node.store
    ensures Step(hash, Received(hash, node, s, m, Getting(m)), TapAct(s, Answered)) ==
            Received(hash, node, s, m, Adding(m))
  {
    hide VBucketForKey;
  }

  /** Receiving, then two more acts. */
  lemma ReceivesThen(hash: Key -> int, node: Node, s: Server, m: Mutation, a: Act, b: Act)
    requires !IsAstaireKey(m.key)
    ensures
      var go := TapAct(s, Answered);
      Exec(hash, Fetching(hash, node, s, m), [go, go, a, b]) ==
      Step(hash, Step(hash, Received(hash, node, s, m, Getting(m)), a), b)
  {
    hide Step, Exec, IsAstaireKey;
    var go := TapAct(s, Answered);
    Receives(hash, node, s, m);
    ExecAppend(hash, Fetching(hash, node, s, m), [go, go], [a, b]);
    ExecPair(hash, Received(hash, node, s, m, Getting(m)), a, b);
    assert [go, go] + [a, b] == [go, go, a, b];
  }

  /** A delete before the GET is undone, for every record a tap accepts: a client
      deletes it, the GET therefore misses it, and the ADD brings it back. */
  lemma EarlierDeleteIsUndone(hash: Key -> int, s: Server, m: Mutation) returns (w: World, acts: seq<Act>)
    requires !IsAstaireKey(m.key)
    ensures Initial(w) && s in w.taps && m.key in w.node.store && Holds(w.node.store[m.key].item, m)
    ensures UndoesDelete(hash, w, acts, s, Answered, m.key)
    ensures !exists j :: 0 <= j < |acts| && acts[j] == ClientDelete(m.key) && IdleSince(acts, s, j)
  {
    hide IsAstaireKey, VBucketForKey, UndoesDelete, Exec, Initial;
    var go, k := TapAct(s, Answered), m.key;
    var node := Node(map[k := Record(ItemOf(m), 1)], 2);
    w := Fetching(hash, node, s, m);
    acts := [go, go, ClientDelete(k), go];
    ReceivesThen(hash, node, s, m, ClientDelete(k), go);
    Misses(hash, node.Remove(k), s, m);
    FetchingIsInitial(hash, node, s, m);
    assert acts[2] == ClientDelete(k) && acts[3] == go;
    UndoesDeleteIff(hash, w, acts, s, Answered, k);
  }

  /** A delete after the GET is undone, for every record a tap accepts: the GET
      misses, a client writes the key and deletes it, and the ADD brings a record
      back. */
  lemma LaterDeleteIsUndone(hash: Key -> int, s: Server, m: Mutation, item: Item) returns (w: World, acts: seq<Act>)
    requires !IsAstaireKey(m.key)
    ensures Initial(w) && s in w.taps && UndoesDelete(hash, w, acts, s, Answered, m.key)
    ensures |acts| == 5 && acts[3..] == [ClientPut(m.key, item), ClientDelete(m.key)] && IdleSince(acts, s, 3)
  {
    hide IsAstaireKey, VBucketForKey, UndoesDelete, Exec, Initial;
    var go, k, node := TapAct(s, Answered), m.key, Node(map[], 1);
    w := Fetching(hash, node, s, m);
    var first, last := [go, go, go, ClientPut(k, item)], ClientDelete(k);
    ReceivesThen(hash, node, s, m, go, ClientPut(k, item));
    Misses(hash, node, s, m);
    acts := first + [last];
    ExecSnoc(hash, w, first, last);
    FetchingIsInitial(hash, node, s, m);
    assert acts[4] == ClientDelete(k);
    UndoesDeleteIff(hash, w, acts, s, Answered, k);
  }

  /** A newer record is dropped: the GET misses, a client writes an older record,
      and the ADD is refused because of it. */
  lemma NewerIsDropped(hash: Key -> int, s: Server, m: Mutation, item: Item) returns (w: World, acts: seq<Act>)
    requires !IsAstaireKey(m.key) && Earlier(item.flags, m.flags)
    ensures Initial(w) && Disjoint(w.taps) && s in Exec(hash, w, acts).taps
    ensures DropsNewer(hash, Exec(hash, w, acts), s, Answered)
    ensures
      var end := Exec(hash, w, acts + [TapAct(s, Answered)]);
      m.key in end.node.store && end.node.store[m.key].item == item
  {
    hide IsAstaireKey, VBucketForKey, Exec, Initial, Disjoint, Earlier;
    var go, k, node := TapAct(s, Answered), m.key, Node(map[], 1);
    w := Fetching(hash, node, s, m);
    acts := [go, go, go, ClientPut(k, item)];
    ReceivesThen(hash, node, s, m, go, ClientPut(k, item));
    Misses(hash, node, s, m);
    FetchingIsInitial(hash, node, s, m);
    ExecSnoc(hash, w, acts, go);
    assert Exec(hash, w, acts) == Received(hash, node.Put(k, item), s, m, Adding(m));
  }
}
