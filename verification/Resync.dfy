/** A whole resync: rounds of concurrent taps driven by the work list, acting on
    the local store. For every work list, every behaviour of the servers and every
    interleaving within each round, the newest version of each record stays. */
module Resync {
  import opened Bytes
  import opened Messages
  import opened Timestamps
  import opened Connections
  import opened Memcached
  import opened TapThreads
  import TapSafety
  import TapSerial
  import opened TapMerge
  import opened Worklist
  import opened WorklistRounds

  /** What a round meets: which threads can be created and which joined, which
      servers connected to, what each server streams, and how the threads are
      interleaved. */
  datatype RoundEnv = RoundEnv(starts: set<Server>, joined: set<Server>, reachable: set<Server>,
                               stream: Server -> seq<Message>, ending: Server -> Ending, schedule: seq<Act>)
  {
    function TapOf(s: Server, buckets: seq<Bucket>): Tap {
      NewTap(buckets, s in reachable, stream(s), ending(s))
    }

    function Taps(tl: TapList): map<Server, Tap> {
      map s | s in tl && s in starts :: TapOf(s, tl[s])
    }
  }

  /** The end of a round, when every thread that was created has run its course. */
  function RunRound(hash: Key -> int, node: Node, tl: TapList, e: RoundEnv): World {
    Exec(hash, World(node, e.Taps(tl)), e.schedule)
  }

  /** The names blacklisted after a round: the servers whose joined thread reports
      failure, and the empty name if a thread could not be joined. */
  function StruckOff(w: World, e: RoundEnv): set<Server> {
    (set s | s in w.taps && s in e.joined && !w.taps[s].success) +
    if exists s :: s in w.taps && s !in e.joined then {""} else {}
  }

  /** `process_worklist` with the store: the local node after all rounds. */
  function ResyncFrom(hash: Key -> int, owl: OutstandingWorkList, node: Node, env: nat -> RoundEnv, r: nat): Node
    decreases TotalBuckets(owl)
  {
    if OwlEmpty(owl) then node
    else
      var w := RunRound(hash, node, TapListOf(owl), env(r));
      BlacklistShrinks(owl, StruckOff(w, env(r)));
      ResyncFrom(hash, Blacklisted(PopFirst(owl), StruckOff(w, env(r))), w.node, env, r + 1)
  }

  lemma BlacklistShrinks(owl: OutstandingWorkList, banned: set<Server>)
    ensures !OwlEmpty(owl) ==> TotalBuckets(Blacklisted(PopFirst(owl), banned)) < TotalBuckets(owl)
  {
    hide TotalBuckets;
    PopFirstTotal(owl);
    BlacklistedTotal(PopFirst(owl), banned);
    if !OwlEmpty(owl) {
      var b :| b in owl && owl[b] != [];
      assert b in Waiting(owl);
    }
  }

  /** In every round the local node answers, no client interferes, and the threads
      run to their ends. */
  ghost predicate Undisturbed(hash: Key -> int, owl: OutstandingWorkList, node: Node, env: nat -> RoundEnv, r: nat)
    decreases TotalBuckets(owl)
  {
    OwlEmpty(owl) ||
    var w := RunRound(hash, node, TapListOf(owl), env(r));
    && Quiet(env(r).schedule) && Complete(w)
    && (BlacklistShrinks(owl, StruckOff(w, env(r)));
        Undisturbed(hash, Blacklisted(PopFirst(owl), StruckOff(w, env(r))), w.node, env, r + 1))
  }

  /** What the servers' behaviour makes of each tap. */
  function EnvOutcomes(env: nat -> RoundEnv): Outcomes {
    (r: nat, s: Server) =>
      if s in env(r).starts then Ran(Succeeds(env(r).TapOf(s, [])), s in env(r).joined) else NotStarted
  }

  /** The records for `k` that a round's threads act on. */
  ghost function HandledIn(hash: Key -> int, tl: TapList, e: RoundEnv, k: Key): seq<Mutation> {
    if s :| s in tl && s in e.starts && VBucketForKey(hash, k) in tl[s]
    then Handled(hash, tl[s], Taken(e.TapOf(s, tl[s])), k)
    else []
  }

  /** The records for `k` acted on in all rounds, in order. */
  ghost function AllHandled(hash: Key -> int, rounds: seq<TapList>, env: nat -> RoundEnv, r: nat,
                            k: Key): seq<Mutation> {
    if rounds == [] then []
    else HandledIn(hash, rounds[0], env(r), k) + AllHandled(hash, rounds[1..], env, r + 1, k)
  }

  lemma {:induction false} MergeAppend(cur: Option<Item>, a: seq<Mutation>, b: seq<Mutation>)
    ensures MergeAll(MergeAll(cur, a), b) == MergeAll(cur, a + b)
  {
    hide MergeItem;
    if b == [] {
      assert a + b == a;
    } else {
      MergeAppend(cur, a, b[..|b| - 1]);
      assert (a + b)[..|a + b| - 1] == a + b[..|b| - 1];
    }
  }

  /** One round. */
  lemma RoundMerges(hash: Key -> int, owl: OutstandingWorkList, node: Node, e: RoundEnv, k: Key)
    requires node.Valid() && Quiet(e.schedule) && Complete(RunRound(hash, node, TapListOf(owl), e))
    ensures
      var w := RunRound(hash, node, TapListOf(owl), e);
      && w.node.Valid()
      && w.node.Lookup(k) == MergeAll(node.Lookup(k), HandledIn(hash, TapListOf(owl), e, k))
      && (VBucketForKey(hash, k) !in owl || IsAstaireKey(k) ==> w.node.Lookup(k) == node.Lookup(k))
  {
    hide TapListOf, Exec, Handled, MergeAll, VBucketForKey, IsAstaireKey, Taken;
    var tl := TapListOf(owl);
    var start := World(node, e.Taps(tl));
    RoundPartition(owl);
    TapSafety.InitialIsSound(hash, start);
    TapSafety.RunSound(hash, start, e.schedule);
    RoundResult(hash, start, e.schedule);
    MergeNothing(node.Lookup(k));
    if s :| s in tl && s in e.starts && VBucketForKey(hash, k) in tl[s] {
      assert s in start.taps && start.taps[s] == e.TapOf(s, tl[s]);
      assert HandledIn(hash, tl, e, k) == Handled(hash, tl[s], Taken(start.taps[s]), k);
    }
  }

  lemma MergeNothing(cur: Option<Item>)
    ensures MergeAll(cur, []) == cur
  {
  }

  /** The threads' reports are those the servers deserve. */
  lemma RoundReports(hash: Key -> int, owl: OutstandingWorkList, node: Node, env: nat -> RoundEnv, r: nat)
    requires node.Valid() && Quiet(env(r).schedule) && Complete(RunRound(hash, node, TapListOf(owl), env(r)))
    ensures StruckOff(RunRound(hash, node, TapListOf(owl), env(r)), env(r)) ==
            Banned(TapListOf(owl), EnvOutcomes(env), r)
  {
    hide TapListOf, Exec, Handled, MergeAll, VBucketForKey, Taken, IsAstaireKey;
    var tl, e := TapListOf(owl), env(r);
    var start := World(node, e.Taps(tl));
    RoundPartition(owl);
    RoundResult(hash, start, e.schedule);
    var w := RunRound(hash, node, tl, e);
    forall s | s in w.taps
      ensures EnvOutcomes(env)(r, s) == Ran(w.taps[s].success, s in e.joined)
    {
      assert Succeeds(e.TapOf(s, tl[s])) == Succeeds(e.TapOf(s, []));
    }
  }

  /** The resync runs exactly the rounds the work list prescribes for the servers'
      behaviour, and leaves under every key the merge of its old record with all
      records handled for it; Astaire's own keys and buckets not on the list are
      untouched. */
  lemma {:induction false} ResyncMerges(hash: Key -> int, owl: OutstandingWorkList, node: Node, env: nat -> RoundEnv,
                                        r: nat, k: Key)
    requires node.Valid() && Undisturbed(hash, owl, node, env, r)
    ensures ResyncFrom(hash, owl, node, env, r).Lookup(k) ==
            MergeAll(node.Lookup(k), AllHandled(hash, Rounds(owl, EnvOutcomes(env), r), env, r, k))
    ensures VBucketForKey(hash, k) !in owl || IsAstaireKey(k) ==>
              ResyncFrom(hash, owl, node, env, r).Lookup(k) == node.Lookup(k)
    decreases TotalBuckets(owl)
  {
    hide TapListOf, RunRound, StruckOff, MergeAll, HandledIn, TotalBuckets, VBucketForKey, IsAstaireKey, EnvOutcomes,
         Quiet;
    if OwlEmpty(owl) {
      MergeNothing(node.Lookup(k));
    } else {
      var tl, outcomes := TapListOf(owl), EnvOutcomes(env);
      var w := RunRound(hash, node, tl, env(r));
      RoundMerges(hash, owl, node, env(r), k);
      RoundReports(hash, owl, node, env, r);
      RoundShrinks(owl, outcomes, r);
      var next := NextOwl(owl, outcomes, r);
      BlacklistShrinks(owl, StruckOff(w, env(r)));
      assert next == Blacklisted(PopFirst(owl), StruckOff(w, env(r)));
      ResyncMerges(hash, next, w.node, env, r + 1, k);
      var rest := Rounds(next, outcomes, r + 1);
      assert Rounds(owl, outcomes, r) == [tl] + rest;
      MergeAppend(node.Lookup(k), HandledIn(hash, tl, env(r), k), AllHandled(hash, rest, env, r + 1, k));
    }
  }

  /** All timestamps streamed lie in one window. */
  ghost predicate StreamsInWindow(base: uint32, env: nat -> RoundEnv) {
    forall r: nat, s, m :: m in env(r).stream(s) && m.TapMutateReq? ==> InWindow(base, m.flags)
  }

  /** A resync keeps the newest version: after every undisturbed one the
      record under a key is, of its old record and all records handled for it, the
      first with the latest timestamp; there is no record only if there was none
      and none arrived. */
  lemma ResyncKeepsNewest(hash: Key -> int, owl: OutstandingWorkList, node: Node, env: nat -> RoundEnv, k: Key,
                          base: uint32)
    requires node.Valid() && Undisturbed(hash, owl, node, env, 0) && StreamsInWindow(base, env)
    requires k in node.store ==> InWindow(base, node.store[k].item.flags)
    ensures IsNewest(base, node.Lookup(k), AllHandled(hash, Rounds(owl, EnvOutcomes(env), 0), env, 0, k),
                     ResyncFrom(hash, owl, node, env, 0).Lookup(k))
    ensures VBucketForKey(hash, k) !in owl || IsAstaireKey(k) ==>
              ResyncFrom(hash, owl, node, env, 0).Lookup(k) == node.Lookup(k)
  {
    hide IsNewest, AllHandled, MergeAll, Rounds, ResyncFrom, Undisturbed, InWindow, StreamsInWindow, EnvOutcomes;
    var rounds := Rounds(owl, EnvOutcomes(env), 0);
    ResyncMerges(hash, owl, node, env, 0, k);
    AllHandledInWindow(hash, rounds, env, 0, k, base);
    MergeIsNewest(base, node.Lookup(k), AllHandled(hash, rounds, env, 0, k));
  }

  lemma {:induction false} AllHandledInWindow(hash: Key -> int, rounds: seq<TapList>, env: nat -> RoundEnv, r: nat,
                                              k: Key, base: uint32)
    requires StreamsInWindow(base, env)
    ensures forall j :: 0 <= j < |AllHandled(hash, rounds, env, r, k)| ==>
              InWindow(base, AllHandled(hash, rounds, env, r, k)[j].flags)
  {
    hide InWindow, Handled, Taken, VBucketForKey;
    if rounds != [] {
      AllHandledInWindow(hash, rounds[1..], env, r + 1, k, base);
      if s :| s in rounds[0] && s in env(r).starts && VBucketForKey(hash, k) in rounds[0][s]
              && HandledIn(hash, rounds[0], env(r), k) ==
                 Handled(hash, rounds[0][s], Taken(env(r).TapOf(s, rounds[0][s])), k) {
        HandledFromStream(hash, rounds[0][s], env(r).TapOf(s, rounds[0][s]), k);
      }
    }
  }

  lemma HandledFromStream(hash: Key -> int, buckets: seq<Bucket>, t: Tap, k: Key)
    ensures forall m :: m in Handled(hash, buckets, Taken(t), k) ==> m in t.stream && m.key == k
  {
    HandledMembers(hash, buckets, Taken(t), k);
    PrefixMembers(t.stream);
  }

  lemma {:induction false} HandledMembers(hash: Key -> int, buckets: seq<Bucket>, stream: seq<Message>, k: Key)
    ensures forall m: Mutation :: m in Handled(hash, buckets, stream, k) <==>
              m in stream && m.key == k && Accepts(hash, buckets, m)
  {
    hide Accepts;
    if stream != [] {
      var n := |stream| - 1;
      HandledMembers(hash, buckets, stream[..n], k);
      assert stream == stream[..n] + [stream[n]];
    }
  }

  lemma {:induction false} PrefixMembers(stream: seq<Message>)
    ensures forall m :: m in MutatePrefix(stream) ==> m in stream
  {
    if stream != [] {
      PrefixMembers(stream[1..]);
    }
  }

  // -------------------------------------------------- what has been delivered

  /** `m` is message `p` of the stream, and all messages up to it are mutations. */
  ghost predicate InPrefix(stream: seq<Message>, m: Message, p: nat) {
    p < |stream| && stream[p] == m && forall q :: 0 <= q <= p ==> stream[q].TapMutateReq?
  }

  /** In round `i` the thread for server `s`, which was asked for the bucket of `k`,
      got `m` as message `p` of its stream, with nothing but mutations before it. */
  ghost predicate DeliveredBy(hash: Key -> int, rounds: seq<TapList>, env: nat -> RoundEnv, r: nat, k: Key,
                              m: Mutation, i: nat, s: Server, p: nat)
  {
    && i < |rounds| && s in rounds[i] && VBucketForKey(hash, k) in rounds[i][s]
    && s in env(r + i).starts && s in env(r + i).reachable
    && InPrefix(env(r + i).stream(s), m, p)
    && m.key == k && !IsAstaireKey(k)
  }

  ghost predicate Delivered(hash: Key -> int, rounds: seq<TapList>, env: nat -> RoundEnv, r: nat, k: Key, m: Mutation) {
    exists i: nat, s, p: nat :: DeliveredBy(hash, rounds, env, r, k, m, i, s, p)
  }

  /** No bucket is asked of two servers. */
  ghost predicate Apart(tl: TapList) {
    forall s, s', b :: s in tl && s' in tl && b in tl[s] && b in tl[s'] ==> s == s'
  }

  lemma {:induction false} RoundsAreApart(owl: OutstandingWorkList, outcomes: Outcomes, r: nat, i: nat)
    requires i < |Rounds(owl, outcomes, r)|
    ensures Apart(Rounds(owl, outcomes, r)[i])
    decreases i
  {
    hide Apart, TapListOf, NextOwl, TotalBuckets;
    RoundsCons(owl, outcomes, r);
    if i == 0 {
      ListIsApart(owl);
    } else {
      RoundsAreApart(NextOwl(owl, outcomes, r), outcomes, r + 1, i - 1);
    }
  }

  lemma ListIsApart(owl: OutstandingWorkList)
    ensures Apart(TapListOf(owl))
  {
    hide TapListOf;
    RoundPartition(owl);
  }

  lemma {:induction false} PrefixExactly(stream: seq<Message>, m: Message)
    ensures m in MutatePrefix(stream) <==> exists p: nat :: InPrefix(stream, m, p)
  {
    if stream != [] {
      PrefixExactly(stream[1..], m);
      if p: nat :| InPrefix(stream[1..], m, p) {
        if stream[0].TapMutateReq? {
          assert InPrefix(stream, m, p + 1);
        }
      }
      if p: nat :| InPrefix(stream, m, p) {
        if p > 0 {
          assert InPrefix(stream[1..], m, p - 1);
        }
      }
      if stream[0].TapMutateReq? && stream[0] == m {
        assert InPrefix(stream, m, 0);
      }
    }
  }

  /** One round handles exactly what is delivered in it. */
  lemma HandledInIff(hash: Key -> int, tl: TapList, env: nat -> RoundEnv, r: nat, k: Key, m: Mutation)
    requires Apart(tl)
    ensures m in HandledIn(hash, tl, env(r), k) <==> exists s, p: nat :: DeliveredBy(hash, [tl], env, r, k, m, 0, s, p)
  {
    hide VBucketForKey, IsAstaireKey, Handled, MutatePrefix;
    var e := env(r);
    forall s | s in tl && s in e.starts && VBucketForKey(hash, k) in tl[s]
      ensures HandledIn(hash, tl, e, k) == Handled(hash, tl[s], Taken(e.TapOf(s, tl[s])), k)
      ensures m in Handled(hash, tl[s], Taken(e.TapOf(s, tl[s])), k) <==>
              exists p: nat :: DeliveredBy(hash, [tl], env, r, k, m, 0, s, p)
    {
      HandledByIff(hash, tl, env, r, k, m, s);
    }
  }

  lemma HandledByIff(hash: Key -> int, tl: TapList, env: nat -> RoundEnv, r: nat, k: Key, m: Mutation, s: Server)
    requires s in tl && s in env(r).starts && VBucketForKey(hash, k) in tl[s]
    ensures m in Handled(hash, tl[s], Taken(env(r).TapOf(s, tl[s])), k) <==>
            exists p: nat :: DeliveredBy(hash, [tl], env, r, k, m, 0, s, p)
  {
    hide VBucketForKey, IsAstaireKey, Handled, MutatePrefix;
    var e := env(r);
    var t := e.TapOf(s, tl[s]);
    HandledMembers(hash, tl[s], Taken(t), k);
    PrefixExactly(t.stream, m);
    forall p: nat
      ensures DeliveredBy(hash, [tl], env, r, k, m, 0, s, p) <==>
              s in e.reachable && InPrefix(t.stream, m, p) && m.key == k && !IsAstaireKey(k)
    {
      assert r + 0 == r;
    }
  }

  /** The records handled in all rounds are exactly those delivered. */
  lemma {:induction false} HandledIffDelivered(hash: Key -> int, rounds: seq<TapList>, env: nat -> RoundEnv, r: nat,
                                               k: Key, m: Mutation)
    requires forall i :: 0 <= i < |rounds| ==> Apart(rounds[i])
    ensures m in AllHandled(hash, rounds, env, r, k) <==> Delivered(hash, rounds, env, r, k, m)
  {
    hide HandledIn, Apart, DeliveredBy;
    if rounds == [] {
      NothingDelivered(hash, env, r, k, m);
    } else {
      HandledIffDelivered(hash, rounds[1..], env, r + 1, k, m);
      HandledInIff(hash, rounds[0], env, r, k, m);
      forall s, p: nat
        ensures DeliveredBy(hash, rounds, env, r, k, m, 0, s, p) <==>
                DeliveredBy(hash, [rounds[0]], env, r, k, m, 0, s, p)
      {
        LaterDelivered(hash, rounds, env, r, k, m, 0, s, p);
      }
      var rest, r' := rounds[1..], r + 1;
      forall i: nat, s, p: nat
        ensures DeliveredBy(hash, rest, env, r', k, m, i, s, p) <==>
                DeliveredBy(hash, rounds, env, r, k, m, i + 1, s, p)
      {
        LaterDelivered(hash, rounds, env, r, k, m, i, s, p);
      }
      if i: nat, s, p: nat :| DeliveredBy(hash, rounds, env, r, k, m, i, s, p) {
        if i > 0 {
          assert DeliveredBy(hash, rest, env, r', k, m, i - 1, s, p);
        }
      }
    }
  }

  lemma NothingDelivered(hash: Key -> int, env: nat -> RoundEnv, r: nat, k: Key, m: Mutation)
    ensures !Delivered(hash, [], env, r, k, m)
  {
  }

  lemma LaterDelivered(hash: Key -> int, rounds: seq<TapList>, env: nat -> RoundEnv, r: nat, k: Key, m: Mutation,
                       i: nat, s: Server, p: nat)
    requires rounds != []
    ensures DeliveredBy(hash, rounds, env, r, k, m, 0, s, p) <==>
            DeliveredBy(hash, [rounds[0]], env, r, k, m, 0, s, p)
    ensures DeliveredBy(hash, rounds, env, r, k, m, i + 1, s, p) <==>
            DeliveredBy(hash, rounds[1..], env, r + 1, k, m, i, s, p)
  {
    hide VBucketForKey, IsAstaireKey;
    assert r + (i + 1) == (r + 1) + i;
    if i + 1 < |rounds| {
      assert rounds[i + 1] == rounds[1..][i];
    }
  }

  /** The main result in terms of what the servers streamed: after every undisturbed
      resync the record under a key is the old one or one that was delivered, value,
      flags and expiry alike, and neither the old one nor any that was delivered is
      newer. */
  lemma ResyncLeavesNewestDelivered(hash: Key -> int, owl: OutstandingWorkList, node: Node, env: nat -> RoundEnv,
                                    k: Key, base: uint32)
    requires node.Valid() && Undisturbed(hash, owl, node, env, 0) && StreamsInWindow(base, env)
    requires k in node.store ==> InWindow(base, node.store[k].item.flags)
    ensures
      var rounds, before, after :=
        Rounds(owl, EnvOutcomes(env), 0), node.store, ResyncFrom(hash, owl, node, env, 0).store;
      && (k in before ==> k in after && Age(base, before[k].item.flags) <= Age(base, after[k].item.flags))
      && (forall m: Mutation :: Delivered(hash, rounds, env, 0, k, m) ==>
            k in after && Age(base, m.flags) <= Age(base, after[k].item.flags))
      && (k in after ==>
            || (k in before && after[k].item == before[k].item)
            || exists m: Mutation :: Delivered(hash, rounds, env, 0, k, m) && Holds(after[k].item, m))
  {
    hide AllHandled, Rounds, ResyncFrom, Undisturbed, InWindow, StreamsInWindow, EnvOutcomes, Age, Delivered, Apart;
    var rounds := Rounds(owl, EnvOutcomes(env), 0);
    var ms := AllHandled(hash, rounds, env, 0, k);
    ResyncKeepsNewest(hash, owl, node, env, k, base);
    forall i | 0 <= i < |rounds|
      ensures Apart(rounds[i])
    {
      RoundsAreApart(owl, EnvOutcomes(env), 0, i);
    }
    forall m: Mutation
      ensures m in ms <==> Delivered(hash, rounds, env, 0, k, m)
    {
      HandledIffDelivered(hash, rounds, env, 0, k, m);
    }
  }

  /** In every round the thread of every listed server starts and is joined, and the
      server can be reached, streams nothing but mutations and closes in order. */
  ghost predicate AllWell(owl: OutstandingWorkList, env: nat -> RoundEnv) {
    forall r: nat, b, s :: b in owl && s in owl[b] ==> WellAt(env(r), s)
  }

  predicate WellAt(e: RoundEnv, s: Server) {
    s in e.starts && s in e.joined && Succeeds(e.TapOf(s, []))
  }

  /** When all goes well the `i`-th source of a bucket is tapped in round `i`, and
      no record it streams for a key of that bucket is newer than the record the
      local node ends up with. */
  lemma CompleteResync(hash: Key -> int, owl: OutstandingWorkList, node: Node, env: nat -> RoundEnv, k: Key,
                       base: uint32,
                       i: nat, m: Mutation)
    requires node.Valid() && Undisturbed(hash, owl, node, env, 0) && StreamsInWindow(base, env) && AllWell(owl, env)
    requires k in node.store ==> InWindow(base, node.store[k].item.flags)
    requires VBucketForKey(hash, k) in owl && !IsAstaireKey(k) && m.key == k
    requires i < |owl[VBucketForKey(hash, k)]| && m in env(i).stream(owl[VBucketForKey(hash, k)][i])
    ensures
      var result := ResyncFrom(hash, owl, node, env, 0);
      k in result.store && Age(base, m.flags) <= Age(base, result.store[k].item.flags)
  {
    hide AllHandled, Rounds, ResyncFrom, Undisturbed, InWindow, StreamsInWindow, EnvOutcomes, Age, AllWell,
         VBucketForKey;
    ResyncKeepsNewest(hash, owl, node, env, k, base);
    HandledWhenAllWell(hash, owl, env, 0, k, i, m);
  }

  lemma {:induction false} HandledWhenAllWell(hash: Key -> int, owl: OutstandingWorkList, env: nat -> RoundEnv, r: nat,
                                              k: Key,
                                              i: nat, m: Mutation)
    requires AllWell(owl, env) && VBucketForKey(hash, k) in owl && !IsAstaireKey(k) && m.key == k
    requires i < |owl[VBucketForKey(hash, k)]| && m in env(r + i).stream(owl[VBucketForKey(hash, k)][i])
    ensures m in AllHandled(hash, Rounds(owl, EnvOutcomes(env), r), env, r, k)
    decreases i
  {
    hide TapListOf, VBucketForKey, HandledIn, TotalBuckets, NextOwl, EnvOutcomes, AllWell, IsAstaireKey;
    var b, tl, outcomes := VBucketForKey(hash, k), TapListOf(owl), EnvOutcomes(env);
    assert !OwlEmpty(owl);
    RoundShrinks(owl, outcomes, r);
    NoneBanned(owl, env, r);
    var next := PopFirst(owl);
    FewerAreWell(owl, env);
    assert Rounds(owl, outcomes, r) == [tl] + Rounds(next, outcomes, r + 1);
    if i == 0 {
      HandledAtOnce(hash, owl, env, r, k, m);
    } else {
      assert next[b] == owl[b][1..];
      HandledWhenAllWell(hash, next, env, r + 1, k, i - 1, m);
    }
  }

  lemma HandledAtOnce(hash: Key -> int, owl: OutstandingWorkList, env: nat -> RoundEnv, r: nat, k: Key, m: Mutation)
    requires AllWell(owl, env) && VBucketForKey(hash, k) in owl && !IsAstaireKey(k) && m.key == k
    requires owl[VBucketForKey(hash, k)] != [] && m in env(r).stream(owl[VBucketForKey(hash, k)][0])
    ensures m in HandledIn(hash, TapListOf(owl), env(r), k)
  {
    hide TapListOf, VBucketForKey, Taken, Handled, AllWell;
    var tl, s := TapListOf(owl), owl[VBucketForKey(hash, k)][0];
    RoundPartition(owl);
    assert s in owl[VBucketForKey(hash, k)];
    WellTap(owl, env, r, VBucketForKey(hash, k), s, tl[s]);
    HandledMembers(hash, tl[s], env(r).stream(s), k);
    assert HandledIn(hash, tl, env(r), k) == Handled(hash, tl[s], Taken(env(r).TapOf(s, tl[s])), k);
  }

  lemma FewerAreWell(owl: OutstandingWorkList, env: nat -> RoundEnv)
    requires AllWell(owl, env)
    ensures AllWell(PopFirst(owl), env)
  {
    hide WellAt;
    forall r: nat, b, s | b in owl && s in PopFirst(owl)[b]
      ensures WellAt(env(r), s)
    {
      assert s in owl[b];
    }
  }

  lemma WellTap(owl: OutstandingWorkList, env: nat -> RoundEnv, r: nat, b: Bucket, s: Server, buckets: seq<Bucket>)
    requires AllWell(owl, env) && b in owl && s in owl[b]
    ensures s in env(r).starts && Taken(env(r).TapOf(s, buckets)) == env(r).stream(s)
  {
    assert WellAt(env(r), s);
  }

  lemma NoneBanned(owl: OutstandingWorkList, env: nat -> RoundEnv, r: nat)
    requires AllWell(owl, env)
    ensures NextOwl(owl, EnvOutcomes(env), r) == PopFirst(owl)
  {
    hide TapListOf;
    var tl := TapListOf(owl);
    RoundPartition(owl);
    forall s | s in tl
      ensures EnvOutcomes(env)(r, s) == Ran(true, true)
    {
      var b := tl[s][0];
      assert b in tl[s];
      assert s in owl[b];
      assert WellAt(env(r), s);
    }
    assert Banned(tl, EnvOutcomes(env), r) == {};
    forall b | b in owl
      ensures FilterOut(Tail(owl[b]), {}) == Tail(owl[b])
    {
      FilterNothing(Tail(owl[b]), {});
    }
  }

  // ------------------------------------------------- undisturbed resyncs exist

  /** Only the schedules differ. */
  ghost predicate SameServers(env: nat -> RoundEnv, other: nat -> RoundEnv) {
    forall r: nat :: env(r) == other(r).(schedule := env(r).schedule)
  }

  /** What the rounds from `r` on make of the store depends on nothing earlier. */
  lemma {:induction false} LaterRoundsOnly(hash: Key -> int, owl: OutstandingWorkList, node: Node, env: nat -> RoundEnv,
                                           other: nat -> RoundEnv, r: nat)
    requires forall j: nat :: r <= j ==> env(j) == other(j)
    requires Undisturbed(hash, owl, node, env, r)
    ensures Undisturbed(hash, owl, node, other, r)
    decreases TotalBuckets(owl)
  {
    hide TapListOf, RunRound, StruckOff, TotalBuckets, Quiet, Complete;
    if !OwlEmpty(owl) {
      var w := RunRound(hash, node, TapListOf(owl), env(r));
      BlacklistShrinks(owl, StruckOff(w, env(r)));
      LaterRoundsOnly(hash, Blacklisted(PopFirst(owl), StruckOff(w, env(r))), w.node, env, other, r + 1);
    }
  }

  lemma {:induction false} InSomeOrder(servers: set<Server>) returns (order: seq<Server>)
    ensures forall s :: s in order <==> s in servers
  {
    order := [];
    if servers != {} {
      var s :| s in servers;
      var rest := InSomeOrder(servers - {s});
      order := [s] + rest;
    }
  }

  /** Every round can run to its end. */
  lemma RoundCompletes(hash: Key -> int, node: Node, tl: TapList, e: RoundEnv) returns (schedule: seq<Act>)
    ensures Quiet(schedule) && Complete(RunRound(hash, node, tl, e.(schedule := schedule)))
  {
    hide Exec, TapSerial.RunSerial;
    var start := World(node, e.Taps(tl));
    var order := InSomeOrder(start.taps.Keys);
    schedule := TapSerial.SerialIsARun(hash, start, order);
    assert e.(schedule := schedule).Taps(tl) == e.Taps(tl);
  }

  /** For every work list and store, and whatever the servers do, there are
      schedules under which the resync is undisturbed. */
  lemma {:induction false} UndisturbedExists(hash: Key -> int, owl: OutstandingWorkList, node: Node,
                                             servers: nat -> RoundEnv, r: nat)
    returns (env: nat -> RoundEnv)
    ensures SameServers(env, servers) && Undisturbed(hash, owl, node, env, r)
    decreases TotalBuckets(owl)
  {
    hide TapListOf, RunRound, StruckOff, TotalBuckets, Quiet, Complete;
    if OwlEmpty(owl) {
      env := servers;
    } else {
      var schedule := RoundCompletes(hash, node, TapListOf(owl), servers(r));
      var e := servers(r).(schedule := schedule);
      var w := RunRound(hash, node, TapListOf(owl), e);
      var next := Blacklisted(PopFirst(owl), StruckOff(w, e));
      BlacklistShrinks(owl, StruckOff(w, e));
      var later := UndisturbedExists(hash, next, w.node, servers, r + 1);
      env := (j: nat) => if j == r then e else later(j);
      LaterRoundsOnly(hash, next, w.node, later, env, r + 1);
    }
  }

  /** So the premises of `CompleteResync` can be met for every work list and
      store, and for all streams of mutations within a window. */
  lemma CompleteResyncApplies(hash: Key -> int, owl: OutstandingWorkList, node: Node,
                              streams: nat -> Server -> seq<Message>,
                              base: uint32)
    returns (env: nat -> RoundEnv)
    requires forall r: nat, s, m :: m in streams(r)(s) ==> m.TapMutateReq? && InWindow(base, m.flags)
    ensures Undisturbed(hash, owl, node, env, 0) && StreamsInWindow(base, env) && AllWell(owl, env)
    ensures forall r: nat, s :: env(r).stream(s) == streams(r)(s)
  {
    hide Undisturbed, InWindow;
    var all := set b, s | b in owl && s in owl[b] :: s;
    var servers := (r: nat) => RoundEnv(all, all, all, streams(r), _ => Closed, []);
    env := UndisturbedExists(hash, owl, node, servers, 0);
    forall r: nat, b, s | b in owl && s in owl[b]
      ensures WellAt(env(r), s)
    {
      assert s in all;
      AllMutationsPrefix(streams(r)(s));
    }
  }

  lemma {:induction false} AllMutationsPrefix(stream: seq<Message>)
    requires forall m :: m in stream ==> m.TapMutateReq?
    ensures MutatePrefix(stream) == stream
  {
    if stream != [] {
      AllMutationsPrefix(stream[1..]);
    }
  }

  /** For instance: an empty node whose one source has one record ends up with that
      record. */
  lemma OneSourceIsFetched(hash: Key -> int, s: Server, m: Mutation) returns (env: nat -> RoundEnv)
    requires !IsAstaireKey(m.key)
    ensures
      var owl := map[VBucketForKey(hash, m.key) := [s]];
      && Undisturbed(hash, owl, Node(map[], 1), env, 0) && AllWell(owl, env)
      && m.key in ResyncFrom(hash, owl, Node(map[], 1), env, 0).store
      && ResyncFrom(hash, owl, Node(map[], 1), env, 0).store[m.key].item == Item(m.value, m.flags, m.expiry)
  {
    hide Undisturbed, ResyncFrom, IsAstaireKey, StreamsInWindow, AllWell, Rounds, VBucketForKey, EnvOutcomes;
    var owl: OutstandingWorkList := map[VBucketForKey(hash, m.key) := [s]];
    var streams: nat -> Server -> seq<Message> := (r: nat) => (x: Server) => [m];
    env := CompleteResyncApplies(hash, owl, Node(map[], 1), streams, m.flags);
    assert env(0).stream(s) == [m];
    CompleteResync(hash, owl, Node(map[], 1), env, m.key, m.flags, 0, m);
    ResyncLeavesNewestDelivered(hash, owl, Node(map[], 1), env, m.key, m.flags);
  }
}
