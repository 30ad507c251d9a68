/** The resync loop itself: the work list is erased in place, round by round, and
    is proved to run the rounds of the specification. */
module ResyncEngine {
  import opened Memcached
  import opened Worklist
  import opened WorklistRounds

  // ---------------------------------------------------------- small lemmas

  lemma {:induction false} FilterTwice(list: seq<Server>, a: set<Server>, b: set<Server>)
    ensures FilterOut(FilterOut(list, a), b) == FilterOut(list, a + b)
  {
    if list != [] {
      FilterTwice(list[1..], a, b);
    }
  }

  lemma BlacklistTwice(owl: OutstandingWorkList, a: set<Server>, b: set<Server>)
    ensures Blacklisted(Blacklisted(owl, a), b) == Blacklisted(owl, a + b)
  {
    hide FilterOut;
    forall k | k in owl
      ensures Blacklisted(Blacklisted(owl, a), b)[k] == Blacklisted(owl, a + b)[k]
    {
      FilterTwice(owl[k], a, b);
    }
  }

  lemma BlacklistNone(owl: OutstandingWorkList)
    ensures Blacklisted(owl, {}) == owl
  {
    forall b | b in owl
      ensures FilterOut(owl[b], {}) == owl[b]
    {
      FilterNothing(owl[b], {});
    }
  }

  /** The tap list of a round: no empty or repeated entries, no bucket twice. */
  ghost predicate Partition(tl: TapList) {
    && (forall s :: s in tl ==> Ascending(tl[s]))
    && (forall s, s', b :: s in tl && s' in tl && b in tl[s] && b in tl[s'] ==> s == s')
  }

  function ToSet(r: seq<Bucket>): set<Bucket> { set b | b in r }

  lemma ToSetSnoc(r: seq<Bucket>, k: Bucket)
    ensures ToSet(r + [k]) == ToSet(r) + {k}
  {
  }

  lemma {:induction false} AscendingCount(r: seq<Bucket>)
    requires Ascending(r)
    ensures |ToSet(r)| == |r|
  {
    hide ToSet;
    if r == [] {
      NoBuckets();
    } else {
      var k, rest := r[|r| - 1], r[..|r| - 1];
      AscendingCount(rest);
      assert r == rest + [k];
      ToSetSnoc(rest, k);
      assert k !in ToSet(rest) by { NotAmong(rest, k); }
    }
  }

  lemma NoBuckets()
    ensures ToSet([]) == {}
  {
  }

  lemma NotAmong(r: seq<Bucket>, k: Bucket)
    requires forall i :: 0 <= i < |r| ==> r[i] < k
    ensures k !in ToSet(r)
  {
  }

  /** Counting a tap's buckets adds the length of its list. */
  lemma CountOneMore(tl: TapList, done: set<Server>, s: Server)
    requires Partition(tl) && s in tl && s !in done
    ensures |BucketsOf(tl, done + {s})| == |BucketsOf(tl, done)| + |tl[s]|
  {
    hide Ascending, ToSet, BucketsOf;
    AscendingCount(tl[s]);
    StreamOneMore(tl, done, s);
    OthersApart(tl, done, s);
  }

  lemma OthersApart(tl: TapList, done: set<Server>, s: Server)
    requires Partition(tl) && s in tl && s !in done
    ensures BucketsOf(tl, done) !! ToSet(tl[s])
  {
    hide Ascending;
  }

  lemma StreamOneMore(tl: TapList, streamed: set<Server>, s: Server)
    requires s in tl
    ensures BucketsOf(tl, streamed + {s}) == BucketsOf(tl, streamed) + ToSet(tl[s])
  {
  }

  lemma {:induction false} RoundsSnoc(rounds: seq<TapList>, tl: TapList, outcomes: Outcomes, r: nat)
    ensures Streamed(rounds + [tl], outcomes, r) ==
            Streamed(rounds, outcomes, r) + StreamedIn(tl, outcomes, r + |rounds|)
    ensures Resynced(rounds + [tl], outcomes, r) ==
            Resynced(rounds, outcomes, r) + |BucketsOf(tl, Counted(tl, outcomes, r + |rounds|))|
  {
    hide StreamedIn, BucketsOf, Counted;
    if rounds == [] {
      assert rounds + [tl] == [tl];
    } else {
      RoundsSnoc(rounds[1..], tl, outcomes, r + 1);
      assert (rounds + [tl])[1..] == rounds[1..] + [tl];
    }
  }

  /** The threads of a round that could be created. */
  function Started(tl: TapList, outcomes: Outcomes, r: nat): set<Server> {
    set s | s in tl && outcomes(r, s).Ran?
  }

  /** The names blacklisted on joining the given threads. */
  ghost function BannedAmong(joined: set<Server>, outcomes: Outcomes, r: nat): set<Server> {
    (set s | s in joined && outcomes(r, s) == Ran(false, true)) +
    if exists s :: s in joined && outcomes(r, s).Ran? && !outcomes(r, s).joined then {""} else {}
  }

  /** The given threads that report success. */
  ghost function StreamedAmong(joined: set<Server>, outcomes: Outcomes, r: nat): set<Server> {
    set s | s in joined && outcomes(r, s) == Ran(true, true)
  }

  lemma JoinOneMore(joined: set<Server>, outcomes: Outcomes, r: nat, s: Server)
    requires outcomes(r, s).Ran?
    ensures
      var success := outcomes(r, s).joined && outcomes(r, s).success;
      && BannedAmong(joined + {s}, outcomes, r) ==
         BannedAmong(joined, outcomes, r) + (if success then {} else {if outcomes(r, s).joined then s else ""})
      && StreamedAmong(joined + {s}, outcomes, r) ==
         StreamedAmong(joined, outcomes, r) + if success then {s} else {}
  {
  }

  lemma JoinNone(outcomes: Outcomes, r: nat)
    ensures BannedAmong({}, outcomes, r) == {} && StreamedAmong({}, outcomes, r) == {}
  {
  }

  lemma JoinAll(tl: TapList, outcomes: Outcomes, r: nat)
    ensures BannedAmong(Started(tl, outcomes, r), outcomes, r) == Banned(tl, outcomes, r)
    ensures BucketsOf(tl, StreamedAmong(Started(tl, outcomes, r), outcomes, r)) == StreamedIn(tl, outcomes, r)
  {
    hide BucketsOf;
    assert StreamedAmong(Started(tl, outcomes, r), outcomes, r) == set s | s in tl && outcomes(r, s) == Ran(true, true);
  }

  /** No joined tap of the bucket reported success, in any round. */
  ghost predicate NeverStreamed(rounds: seq<TapList>, outcomes: Outcomes, b: Bucket) {
    forall i, s :: 0 <= i < |rounds| && s in rounds[i] && b in rounds[i][s] ==> outcomes(i, s) != Ran(true, true)
  }

  class Resync {
    var owl: OutstandingWorkList
    /** Statistics: what is to be fetched, and what successful taps have fetched. */
    var totalBuckets: nat
    var resyncedBuckets: nat

    constructor ()
      ensures owl == map[] && totalBuckets == 0 && resyncedBuckets == 0
    {
      owl, totalBuckets, resyncedBuckets := map[], 0, 0;
    }

    /** `calculate_taps`: the first server of each list, taken off in place. */
    method CalculateTaps() returns (tl: TapList)
      modifies this`owl
      ensures tl == TapListOf(old(owl)) && owl == PopFirst(old(owl))
    {
      hide SortedBuckets, TapListOver, PopOver;
      var keys := SortedBuckets(owl.Keys);
      SortedIsAscending(owl.Keys);
      tl := map[];
      NothingPopped(owl);
      for i := 0 to |keys|
        invariant owl == PopOver(old(owl), keys[..i]) && tl == TapListOver(old(owl), keys[..i])
      {
        var vbucket := keys[i];
        assert vbucket in keys && vbucket !in keys[..i];
        assert keys[..i + 1] == keys[..i] + [vbucket];
        PopOneMore(old(owl), keys[..i], vbucket);
        TapOneMore(old(owl), keys[..i], vbucket);
        if owl[vbucket] != [] {
          var replica := owl[vbucket][0];
          tl := tl[replica := (if replica in tl then tl[replica] else []) + [vbucket]];
          owl := owl[vbucket := owl[vbucket][1..]];
        }
      }
      assert keys[..|keys|] == keys;
      AllPopped(old(owl), keys);
    }

    /** `blacklist_server`: the server is taken out of every list. */
    method BlacklistServer(server: Server)
      modifies this`owl
      ensures owl == Blacklisted(old(owl), {server})
    {
      hide SortedBuckets, FilterOut, FilterOver, Blacklisted;
      var keys := SortedBuckets(owl.Keys);
      SortedIsAscending(owl.Keys);
      NothingFiltered(owl, {server});
      for i := 0 to |keys|
        invariant owl == FilterOver(old(owl), keys[..i], {server})
      {
        assert keys[i] in keys && keys[i] !in keys[..i];
        assert keys[..i + 1] == keys[..i] + [keys[i]];
        FilterOneMore(old(owl), keys[..i], keys[i], {server});
        var list := WithoutServer(owl[keys[i]], server);
        owl := owl[keys[i] := list];
      }
      assert keys[..|keys|] == keys;
      AllFiltered(old(owl), keys, {server});
    }

    /** `owl_total_buckets` */
    method OwlTotalBuckets() returns (n: nat)
      ensures n == TotalBuckets(owl)
    {
      var keys := SortedBuckets(owl.Keys);
      n := 0;
      for i := 0 to |keys|
        invariant n + LengthsOver(owl, keys[i..]) == TotalBuckets(owl)
      {
        assert keys[i] in keys;
        n := n + |owl[keys[i]]|;
      }
    }

    /** Starts the threads of a round. A thread counts its buckets when it
        succeeds, whether or not it can be joined later. */
    method StartTaps(tl: TapList, outcomes: Outcomes, r: nat) returns (handles: set<Server>)
      requires Partition(tl)
      modifies this`resyncedBuckets
      ensures handles == Started(tl, outcomes, r)
      ensures resyncedBuckets == old(resyncedBuckets) + |BucketsOf(tl, Counted(tl, outcomes, r))|
    {
      hide *;
      handles := {};
      var pending := tl.Keys;
      NoneStarted(tl, outcomes, r);
      while pending != {}
        invariant pending <= tl.Keys
        invariant handles == Started(tl, outcomes, r) - pending
        invariant resyncedBuckets == old(resyncedBuckets) + |BucketsOf(tl, Counted(tl, outcomes, r) - pending)|
        decreases |pending|
      {
        var s :| s in pending;
        StartOneMore(tl, outcomes, r, pending, s);
        if outcomes(r, s).Ran? {
          handles := handles + {s};
          if outcomes(r, s).success {
            resyncedBuckets := resyncedBuckets + |tl[s]|;
          }
        }
        pending := pending - {s};
      }
      assert Counted(tl, outcomes, r) - {} == Counted(tl, outcomes, r);
      assert Started(tl, outcomes, r) - {} == Started(tl, outcomes, r);
    }

    /** Joins the threads that were started, in any order. */
    method JoinTaps(tl: TapList, outcomes: Outcomes, r: nat, toStream: set<Bucket>, started: set<Server>)
      returns (unstreamed: set<Bucket>)
      requires started == Started(tl, outcomes, r)
      modifies this`owl
      ensures owl == Blacklisted(old(owl), Banned(tl, outcomes, r))
      ensures unstreamed == toStream - StreamedIn(tl, outcomes, r)
    {
      hide Blacklisted, BucketsOf, BannedAmong, StreamedAmong, Banned, StreamedIn, ToSet;
      unstreamed := toStream;
      var handles := started;
      ghost var joined: set<Server> := {};
      BlacklistNone(owl);
      NothingCounted(tl);
      JoinNone(outcomes, r);
      while handles != {}
        invariant handles + joined == started
        invariant owl == Blacklisted(old(owl), BannedAmong(joined, outcomes, r))
        invariant unstreamed == toStream - BucketsOf(tl, StreamedAmong(joined, outcomes, r))
        decreases |handles|
      {
        var s :| s in handles;
        // A failed join brings back no server name.
        var server, success := "", false;
        if outcomes(r, s).joined {
          server, success := s, outcomes(r, s).success;
        }
        JoinOneMore(joined, outcomes, r, s);
        if success {
          unstreamed := unstreamed - ToSet(tl[s]);
          StreamOneMore(tl, StreamedAmong(joined, outcomes, r), s);
          assert BannedAmong(joined, outcomes, r) + {} == BannedAmong(joined, outcomes, r);
        } else {
          BlacklistServer(server);
          BlacklistTwice(old(owl), BannedAmong(joined, outcomes, r), {server});
          assert StreamedAmong(joined, outcomes, r) + {} == StreamedAmong(joined, outcomes, r);
        }
        joined := joined + {s};
        handles := handles - {s};
      }
      JoinAll(tl, outcomes, r);
    }

    /** `process_worklist`: runs the rounds of the specification and reports
        failure exactly when some bucket had no joined tap reporting success. */
    method ProcessWorklist(outcomes: Outcomes) returns (failed: bool, ghost rounds: seq<TapList>)
      modifies this`owl, this`resyncedBuckets
      ensures rounds == Rounds(old(owl), outcomes, 0) && OwlEmpty(owl)
      ensures failed <==> exists b :: b in old(owl) && NeverStreamed(rounds, outcomes, b)
      ensures resyncedBuckets == old(resyncedBuckets) + Resynced(rounds, outcomes, 0)
    {
      hide TapListOf, Streamed, Resynced, TotalBuckets, NextOwl, StreamedIn, Counted, BucketsOf, Rounds,
           NeverStreamed, OwlEmpty;
      var unstreamed := owl.Keys;
      var r := 0;
      rounds := [];
      NothingYet(outcomes);
      while !OwlEmpty(owl)
        invariant r == |rounds|
        invariant rounds + Rounds(owl, outcomes, r) == Rounds(old(owl), outcomes, 0)
        invariant unstreamed == old(owl).Keys - Streamed(rounds, outcomes, 0)
        invariant resyncedBuckets == old(resyncedBuckets) + Resynced(rounds, outcomes, 0)
        decreases TotalBuckets(owl)
      {
        RoundsCons(owl, outcomes, r);
        ghost var tl;
        unstreamed, tl := OneRound(outcomes, r, unstreamed);
        RoundsSnoc(rounds, tl, outcomes, 0);
        assert rounds + ([tl] + Rounds(owl, outcomes, r + 1)) == (rounds + [tl]) + Rounds(owl, outcomes, r + 1);
        rounds := rounds + [tl];
        r := r + 1;
      }
      RoundsCons(owl, outcomes, r);
      assert rounds + [] == rounds;
      failed := unstreamed != {};
      UnstreamedMeans(old(owl).Keys, rounds, outcomes);
    }

    /** One round: taps are taken off the list, started and joined. */
    method OneRound(outcomes: Outcomes, r: nat, toStream: set<Bucket>)
    returns (unstreamed: set<Bucket>, ghost taps: TapList)
      modifies this`owl, this`resyncedBuckets
      ensures taps == TapListOf(old(owl)) && owl == NextOwl(old(owl), outcomes, r)
      ensures unstreamed == toStream - StreamedIn(taps, outcomes, r)
      ensures resyncedBuckets == old(resyncedBuckets) + |BucketsOf(taps, Counted(taps, outcomes, r))|
    {
      hide TapListOf, StreamedIn, Counted, Banned, Blacklisted, BucketsOf;
      RoundPartition(owl);
      var tl := CalculateTaps();
      taps := tl;
      var handles := StartTaps(tl, outcomes, r);
      unstreamed := JoinTaps(tl, outcomes, r, toStream, handles);
    }

    /** `do_resync`: with statistics at zero before and after, the count reached in
        between is within the total, and equal to it exactly when every tap was
        started and succeeded and nothing was struck off. */
    method DoResync(current: map<Bucket, seq<Server>>, next: map<Bucket, seq<Server>>, self: Server, full: bool,
                    outcomes: Outcomes)
      returns (failed: bool, total: nat, reached: nat, ghost rounds: seq<TapList>)
      requires totalBuckets == 0 && resyncedBuckets == 0
      modifies this
      ensures totalBuckets == 0 && resyncedBuckets == 0
      ensures rounds == Rounds(WorklistOf(current, next, self, full), outcomes, 0)
      ensures total == TotalBuckets(WorklistOf(current, next, self, full))
      ensures reached <= total
      ensures reached == total <==>
              AllSucceed(rounds, outcomes, 0) && NothingStruck(WorklistOf(current, next, self, full), outcomes, 0)
      ensures failed <==>
              exists b :: b in WorklistOf(current, next, self, full) && NeverStreamed(rounds, outcomes, b)
    {
      hide TotalBuckets, Rounds, Resynced, WorklistOf, AllSucceed, NothingStruck;
      owl := CalculateWorklist(current, next, self, full);
      ProgressComplete(owl, outcomes, 0);
      if owl == map[] {
        failed, total, reached, rounds := false, 0, 0, [];
        EmptyTotal(owl);
        NoRounds(outcomes);
        return;
      }
      totalBuckets := OwlTotalBuckets();
      failed, rounds := ProcessWorklist(outcomes);
      total, reached := totalBuckets, resyncedBuckets;
      totalBuckets, resyncedBuckets := 0, 0;
    }
  }

  /** Something is left to stream exactly if some bucket had no joined tap reporting
      success. */
  lemma UnstreamedMeans(buckets: set<Bucket>, rounds: seq<TapList>, outcomes: Outcomes)
    ensures buckets - Streamed(rounds, outcomes, 0) != {} <==>
            exists b :: b in buckets && NeverStreamed(rounds, outcomes, b)
  {
    hide Streamed, NeverStreamed;
    forall b | b in buckets
      ensures b in buckets - Streamed(rounds, outcomes, 0) <==> NeverStreamed(rounds, outcomes, b)
    {
      NeverStreamedMeans(rounds, outcomes, b);
    }
  }

  lemma NeverStreamedMeans(rounds: seq<TapList>, outcomes: Outcomes, b: Bucket)
    ensures NeverStreamed(rounds, outcomes, b) <==> b !in Streamed(rounds, outcomes, 0)
  {
    hide Streamed;
    StreamedMeans(rounds, outcomes, 0, b);
    assert forall i: nat, s :: outcomes(0 + i, s) == outcomes(i, s);
  }

  lemma NoneStarted(tl: TapList, outcomes: Outcomes, r: nat)
    ensures Started(tl, outcomes, r) - tl.Keys == {} && |BucketsOf(tl, Counted(tl, outcomes, r) - tl.Keys)| == 0
  {
    hide BucketsOf;
    assert Counted(tl, outcomes, r) - tl.Keys == {};
    NothingCounted(tl);
  }

  /** One more thread started: it gets a handle if it could be created, and counts
      its buckets if it succeeds. */
  lemma StartOneMore(tl: TapList, outcomes: Outcomes, r: nat, pending: set<Server>, s: Server)
    requires Partition(tl) && s in pending && s in tl
    ensures Started(tl, outcomes, r) - (pending - {s}) ==
            (Started(tl, outcomes, r) - pending) + if outcomes(r, s).Ran? then {s} else {}
    ensures |BucketsOf(tl, Counted(tl, outcomes, r) - (pending - {s}))| ==
            |BucketsOf(tl, Counted(tl, outcomes, r) - pending)| +
            if outcomes(r, s).Ran? && outcomes(r, s).success then |tl[s]| else 0
  {
    hide BucketsOf, Partition;
    var counted := Counted(tl, outcomes, r);
    if outcomes(r, s).Ran? && outcomes(r, s).success {
      assert counted - (pending - {s}) == (counted - pending) + {s};
      CountOneMore(tl, counted - pending, s);
    } else {
      assert counted - (pending - {s}) == counted - pending;
    }
  }

  lemma NoRounds(outcomes: Outcomes)
    ensures Rounds(map[], outcomes, 0) == [] && Resynced([], outcomes, 0) == 0
  {
  }

  lemma NothingYet(outcomes: Outcomes)
    ensures Streamed([], outcomes, 0) == {} && Resynced([], outcomes, 0) == 0
  {
  }

  lemma NothingCounted(tl: TapList)
    ensures BucketsOf(tl, {}) == {}
  {
  }

  /** The work list after the lists of the given buckets were filtered. */
  ghost function FilterOver(owl: OutstandingWorkList, keys: seq<Bucket>, banned: set<Server>): OutstandingWorkList {
    map b | b in owl :: if b in keys then FilterOut(owl[b], banned) else owl[b]
  }

  lemma NothingFiltered(owl: OutstandingWorkList, banned: set<Server>)
    ensures FilterOver(owl, [], banned) == owl
  {
    hide FilterOut;
  }

  lemma FilterOneMore(owl: OutstandingWorkList, keys: seq<Bucket>, k: Bucket, banned: set<Server>)
    requires k in owl && k !in keys
    ensures k in FilterOver(owl, keys, banned) && FilterOver(owl, keys, banned)[k] == owl[k]
    ensures FilterOver(owl, keys + [k], banned) == FilterOver(owl, keys, banned)[k := FilterOut(owl[k], banned)]
  {
    hide FilterOut;
  }

  lemma AllFiltered(owl: OutstandingWorkList, keys: seq<Bucket>, banned: set<Server>)
    requires forall b :: b in keys <==> b in owl
    ensures FilterOver(owl, keys, banned) == Blacklisted(owl, banned)
  {
    hide FilterOut;
  }

  /** The work list after the buckets in `keys` have been dealt with. */
  ghost function PopOver(owl: OutstandingWorkList, keys: seq<Bucket>): OutstandingWorkList {
    map b | b in owl :: if b in keys then Tail(owl[b]) else owl[b]
  }

  lemma NothingPopped(owl: OutstandingWorkList)
    ensures PopOver(owl, []) == owl && TapListOver(owl, []) == map[]
  {
  }

  lemma AllPopped(owl: OutstandingWorkList, keys: seq<Bucket>)
    requires forall b :: b in owl ==> b in keys
    ensures PopOver(owl, keys) == PopFirst(owl)
  {
  }

  lemma PopOneMore(owl: OutstandingWorkList, keys: seq<Bucket>, k: Bucket)
    requires k in owl && k !in keys
    ensures k in PopOver(owl, keys) && PopOver(owl, keys)[k] == owl[k]
    ensures PopOver(owl, keys + [k]) == PopOver(owl, keys)[k := Tail(owl[k])]
  {
  }

  lemma TapOneMore(owl: OutstandingWorkList, keys: seq<Bucket>, k: Bucket)
    requires k in owl
    ensures
      var tl := TapListOver(owl, keys);
      TapListOver(owl, keys + [k]) ==
      if owl[k] == [] then tl else tl[owl[k][0] := (if owl[k][0] in tl then tl[owl[k][0]] else []) + [k]]
  {
    hide TapListOver;
    var tl, tl' := TapListOver(owl, keys), TapListOver(owl, keys + [k]);
    forall s
      ensures s in tl' <==> s in tl || (owl[k] != [] && owl[k][0] == s)
      ensures s in tl' ==>
                tl'[s] == if owl[k] != [] && owl[k][0] == s then (if s in tl then tl[s] else []) + [k]
                          else if s in tl then tl[s] else []
    {
      TapOneMoreOf(owl, keys, k, s);
    }
  }

  /** One more bucket, seen from one server. */
  lemma TapOneMoreOf(owl: OutstandingWorkList, keys: seq<Bucket>, k: Bucket, s: Server)
    requires k in owl
    ensures
      var tl, tl' := TapListOver(owl, keys), TapListOver(owl, keys + [k]);
      var mine := owl[k] != [] && owl[k][0] == s;
      && (s in tl' <==> s in tl || mine)
      && (s in tl' ==>
            tl'[s] == if mine then (if s in tl then tl[s] else []) + [k] else if s in tl then tl[s] else [])
  {
    hide BucketsFor, FirstServers;
    FirstServersSnoc(owl, keys, k);
    BucketsForSnoc(owl, s, keys, k);
    NoBucketsWithoutTap(owl, s, keys);
    assert BucketsFor(owl, s, keys) + [] == BucketsFor(owl, s, keys);
  }

  lemma FirstServersSnoc(owl: OutstandingWorkList, keys: seq<Bucket>, k: Bucket)
    requires k in owl
    ensures FirstServers(owl, keys + [k]) == FirstServers(owl, keys) + if owl[k] == [] then {} else {owl[k][0]}
  {
  }

  lemma NoBucketsWithoutTap(owl: OutstandingWorkList, s: Server, keys: seq<Bucket>)
    ensures s !in FirstServers(owl, keys) ==> BucketsFor(owl, s, keys) == []
  {
    var bs := BucketsFor(owl, s, keys);
    if bs != [] {
      assert bs[0] in bs && bs[0] in keys;
    }
  }

  lemma BucketsForSnoc(owl: OutstandingWorkList, s: Server, keys: seq<Bucket>, k: Bucket)
    ensures BucketsFor(owl, s, keys + [k]) ==
            BucketsFor(owl, s, keys) + if k in owl && owl[k] != [] && owl[k][0] == s then [k] else []
  {
    assert (keys + [k])[..|keys|] == keys;
  }

  lemma FilterCons(list: seq<Server>, banned: set<Server>)
    requires list != []
    ensures FilterOut(list, banned) ==
            if list[0] in banned then FilterOut(list[1..], banned) else [list[0]] + FilterOut(list[1..], banned)
  {
  }

  /** A list without the server, built by a scan. */
  method WithoutServer(list: seq<Server>, server: Server) returns (r: seq<Server>)
    ensures r == FilterOut(list, {server})
  {
    hide FilterOut;
    r := [];
    FilterNoServers({server});
    for i := 0 to |list|
      invariant r + FilterOut(list[i..], {server}) == FilterOut(list, {server})
    {
      var rest := list[i..];
      assert rest[0] == list[i] && rest[1..] == list[i + 1..];
      FilterCons(rest, {server});
      if list[i] != server {
        ghost var later := FilterOut(list[i + 1..], {server});
        assert r + ([list[i]] + later) == (r + [list[i]]) + later;
        r := r + [list[i]];
      }
    }
  }
}
