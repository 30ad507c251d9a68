/** All rounds of a resync, for every pattern of threads that do not start, do not
    join, or report failure. */
module WorklistRounds {
  import opened Memcached
  import opened Worklist

  /** What became of a tap: its thread was not created, or it ran - to success or
      not - and was joined or not. */
  datatype Outcome = NotStarted | Ran(success: bool, joined: bool)

  /** The outcome of the tap of a server in a round, for every round and server. */
  type Outcomes = (nat, Server) -> Outcome

  /** The names blacklisted after a round: servers whose joined tap failed. When a
      join fails, no server name comes back and the empty name is blacklisted. */
  function Banned(tl: TapList, outcomes: Outcomes, r: nat): set<Server> {
    (set s | s in tl && outcomes(r, s) == Ran(false, true)) +
    if exists s :: s in tl && outcomes(r, s).Ran? && !outcomes(r, s).joined then {""} else {}
  }

  function NextOwl(owl: OutstandingWorkList, outcomes: Outcomes, r: nat): OutstandingWorkList {
    Blacklisted(PopFirst(owl), Banned(TapListOf(owl), outcomes, r))
  }

  /** The tap lists of the coming rounds, the first of which has number `r`. */
  function Rounds(owl: OutstandingWorkList, outcomes: Outcomes, r: nat): seq<TapList>
    decreases TotalBuckets(owl)
  {
    if OwlEmpty(owl) then []
    else
      RoundShrinks(owl, outcomes, r);
      [TapListOf(owl)] + Rounds(NextOwl(owl, outcomes, r), outcomes, r + 1)
  }

  /** Every round takes at least one pair off the list. */
  lemma RoundShrinks(owl: OutstandingWorkList, outcomes: Outcomes, r: nat)
    ensures TotalBuckets(NextOwl(owl, outcomes, r)) + |Waiting(owl)| <= TotalBuckets(owl)
    ensures !OwlEmpty(owl) ==> |Waiting(owl)| > 0
  {
    hide TotalBuckets, TapListOf;
    PopFirstTotal(owl);
    BlacklistedTotal(PopFirst(owl), Banned(TapListOf(owl), outcomes, r));
    if !OwlEmpty(owl) {
      var b :| b in owl && owl[b] != [];
      assert b in Waiting(owl);
    }
  }

  lemma RoundsCons(owl: OutstandingWorkList, outcomes: Outcomes, r: nat)
    ensures OwlEmpty(owl) ==> Rounds(owl, outcomes, r) == []
    ensures !OwlEmpty(owl) ==>
              && TotalBuckets(NextOwl(owl, outcomes, r)) < TotalBuckets(owl)
              && Rounds(owl, outcomes, r) == [TapListOf(owl)] + Rounds(NextOwl(owl, outcomes, r), outcomes, r + 1)
  {
    hide TotalBuckets, TapListOf, NextOwl;
    RoundShrinks(owl, outcomes, r);
  }

  /** There are at most as many rounds as the longest list has servers. */
  lemma {:induction false} RoundsBound(owl: OutstandingWorkList, outcomes: Outcomes, r: nat, longest: nat)
    requires forall b :: b in owl ==> |owl[b]| <= longest
    ensures |Rounds(owl, outcomes, r)| <= longest
    decreases longest
  {
    hide TapListOf, Banned;
    if !OwlEmpty(owl) {
      RoundShrinks(owl, outcomes, r);
      var next := NextOwl(owl, outcomes, r);
      assert longest > 0;
      assert forall b :: b in next ==> |next[b]| <= longest - 1;
      RoundsBound(next, outcomes, r + 1, longest - 1);
    }
  }

  // ------------------------------------------------------------ conservation

  /** `a` can be had from `l` by leaving elements out. */
  predicate IsSubsequence(a: seq<Server>, l: seq<Server>) {
    a == [] || (l != [] && ((a[0] == l[0] && IsSubsequence(a[1..], l[1..])) || IsSubsequence(a, l[1..])))
  }

  lemma {:induction false} SubsequenceOfFiltered(a: seq<Server>, l: seq<Server>, banned: set<Server>)
    requires IsSubsequence(a, FilterOut(l, banned))
    ensures IsSubsequence(a, l)
  {
    if a != [] && l != [] {
      var f := FilterOut(l, banned);
      if l[0] in banned {
        SubsequenceOfFiltered(a, l[1..], banned);
      } else if a[0] == f[0] && IsSubsequence(a[1..], f[1..]) {
        SubsequenceOfFiltered(a[1..], l[1..], banned);
      } else {
        SubsequenceOfFiltered(a, l[1..], banned);
      }
    }
  }

  lemma {:induction false} FilterSplits(l: seq<Server>, banned: set<Server>) returns (removed: multiset<Server>)
    ensures multiset(l) == multiset(FilterOut(l, banned)) + removed
    ensures forall s :: s in removed ==> s in banned
  {
    if l == [] {
      removed := multiset{};
    } else {
      assert l == [l[0]] + l[1..];
      removed := FilterSplits(l[1..], banned);
      if l[0] in banned {
        removed := removed + multiset{l[0]};
      }
    }
  }

  /** The server a round fetches bucket `b` from, if any. */
  ghost function TapperOf(tl: TapList, b: Bucket): seq<Server> {
    if s :| s in tl && b in tl[s] then [s] else []
  }

  /** The servers bucket `b` is fetched from, round by round. */
  ghost function Tapped(rounds: seq<TapList>, b: Bucket): seq<Server> {
    if rounds == [] then [] else TapperOf(rounds[0], b) + Tapped(rounds[1..], b)
  }

  lemma TapperIsFirst(owl: OutstandingWorkList, b: Bucket)
    ensures TapperOf(TapListOf(owl), b) == if b in owl && owl[b] != [] then [owl[b][0]] else []
  {
    hide TapListOf;
    RoundPartition(owl);
  }

  /** For every bucket: the servers it started with are those it was fetched from
      and those struck off by blacklisting, each accounted for once; the fetches
      follow the order of the list; whatever was struck off had been blacklisted
      after some round. */
  lemma {:induction false} WorklistConservation(owl: OutstandingWorkList, outcomes: Outcomes, r: nat, b: Bucket)
    returns (removed: multiset<Server>)
    requires b in owl
    ensures multiset(owl[b]) == multiset(Tapped(Rounds(owl, outcomes, r), b)) + removed
    ensures IsSubsequence(Tapped(Rounds(owl, outcomes, r), b), owl[b])
    ensures forall s :: s in removed ==> s in EverBanned(Rounds(owl, outcomes, r), outcomes, r)
    decreases TotalBuckets(owl)
  {
    hide TapListOf, Banned, TapperOf, TotalBuckets, FilterOut, IsSubsequence;
    if OwlEmpty(owl) {
      removed := multiset{};
      NothingTapped(owl[b]);
    } else {
      RoundShrinks(owl, outcomes, r);
      var tl, next := TapListOf(owl), NextOwl(owl, outcomes, r);
      var rest := Rounds(next, outcomes, r + 1);
      assert Rounds(owl, outcomes, r) == [tl] + rest;
      var later := WorklistConservation(next, outcomes, r + 1, b);
      var now := FilterSplits(Tail(owl[b]), Banned(tl, outcomes, r));
      removed := now + later;
      TapperIsFirst(owl, b);
      SubsequenceOfFiltered(Tapped(rest, b), Tail(owl[b]), Banned(tl, outcomes, r));
      ConsTapped(owl[b], Tapped(rest, b), TapperOf(tl, b));
    }
  }

  lemma NothingTapped(list: seq<Server>)
    ensures IsSubsequence([], list)
  {
  }

  /** All names blacklisted after the given rounds. */
  function EverBanned(rounds: seq<TapList>, outcomes: Outcomes, r: nat): set<Server> {
    if rounds == [] then {}
    else Banned(rounds[0], outcomes, r) + EverBanned(rounds[1..], outcomes, r + 1)
  }

  lemma ConsTapped(list: seq<Server>, later: seq<Server>, first: seq<Server>)
    requires IsSubsequence(later, Tail(list))
    requires first == if list == [] then [] else [list[0]]
    ensures IsSubsequence(first + later, list)
    ensures multiset(first + later) == multiset(first) + multiset(later)
    ensures multiset(list) == multiset(first) + multiset(Tail(list))
  {
    if list != [] {
      assert list == [list[0]] + list[1..];
      assert (first + later)[1..] == later;
    } else {
      assert first + later == later;
    }
  }

  /** A server on none of the lists is not tapped in any round to come. */
  lemma {:induction false} AbsentStaysAbsent(owl: OutstandingWorkList, outcomes: Outcomes, r: nat, s: Server, j: nat)
    requires forall b :: b in owl ==> s !in owl[b]
    requires j < |Rounds(owl, outcomes, r)|
    ensures s !in Rounds(owl, outcomes, r)[j]
    decreases TotalBuckets(owl)
  {
    hide Banned, TotalBuckets;
    RoundShrinks(owl, outcomes, r);
    if j > 0 {
      AbsentStaysAbsent(NextOwl(owl, outcomes, r), outcomes, r + 1, s, j - 1);
    }
  }

  lemma BannedAreGone(owl: OutstandingWorkList, outcomes: Outcomes, r: nat, s: Server)
    requires s in Banned(TapListOf(owl), outcomes, r)
    ensures forall b :: b in NextOwl(owl, outcomes, r) ==> s !in NextOwl(owl, outcomes, r)[b]
  {
    hide Banned, TapListOf;
  }

  /** A name blacklisted after a round - above all a server whose joined tap
      failed - is not tapped in any later round. */
  lemma {:induction false} NeverTappedAgain(owl: OutstandingWorkList, outcomes: Outcomes, r: nat, i: nat, j: nat,
                                            s: Server)
    requires i < j < |Rounds(owl, outcomes, r)|
    requires s in Banned(Rounds(owl, outcomes, r)[i], outcomes, r + i)
    ensures s !in Rounds(owl, outcomes, r)[j]
    decreases TotalBuckets(owl)
  {
    hide Banned, TotalBuckets, TapListOf, NextOwl;
    RoundShrinks(owl, outcomes, r);
    var next := NextOwl(owl, outcomes, r);
    if i == 0 {
      BannedAreGone(owl, outcomes, r, s);
      AbsentStaysAbsent(next, outcomes, r + 1, s, j - 1);
    } else {
      NeverTappedAgain(next, outcomes, r + 1, i - 1, j - 1, s);
    }
  }

  /** A round takes the first server off a list, and strikes off exactly the servers
      whose tap was joined and had failed, and the empty name if a join failed. A
      server whose tap failed but could not be joined stays. */
  lemma StruckOffIff(owl: OutstandingWorkList, outcomes: Outcomes, r: nat, s: Server, b: Bucket)
    requires b in owl
    ensures b in NextOwl(owl, outcomes, r)
    ensures s in NextOwl(owl, outcomes, r)[b] <==>
            && owl[b] != [] && s in owl[b][1..]
            && !(s in TapListOf(owl) && outcomes(r, s) == Ran(false, true))
            && !(s == "" && exists x :: x in TapListOf(owl) && outcomes(r, x).Ran? && !outcomes(r, x).joined)
  {
    hide TapListOf;
  }

  /** So it can be tapped again: `a` fails in the first round, is not joined, and is
      tapped once more in the second. */
  lemma TappedAgainAfterFailedJoin() returns (owl: OutstandingWorkList, outcomes: Outcomes)
    ensures
      var rounds := Rounds(owl, outcomes, 0);
      |rounds| >= 2 && "a" in rounds[0] && outcomes(0, "a") == Ran(false, false) && "a" in rounds[1]
  {
    hide TapListOf, Banned, NextOwl, TotalBuckets;
    owl := map[0 := ["a"], 1 := ["b", "a"]];
    outcomes := (_: nat, s: Server) => if s == "a" then Ran(false, false) else Ran(true, true);
    RoundPartition(owl);
    assert owl[0][0] in TapListOf(owl);
    RoundShrinks(owl, outcomes, 0);
    var next := NextOwl(owl, outcomes, 0);
    StruckOffIff(owl, outcomes, 0, "a", 1);
    SecondRound(owl, outcomes);
    RoundShrinks(next, outcomes, 1);
    RoundPartition(next);
    assert next[1][0] in TapListOf(next);
  }

  lemma SecondRound(owl: OutstandingWorkList, outcomes: Outcomes)
    requires 1 in owl && owl[1] == ["b", "a"] && "a" in NextOwl(owl, outcomes, 0)[1]
    ensures NextOwl(owl, outcomes, 0)[1] == ["a"]
  {
    hide Banned, TapListOf;
    var banned := Banned(TapListOf(owl), outcomes, 0);
    assert Tail(owl[1]) == ["a"] && ["a"][1..] == [];
    assert NextOwl(owl, outcomes, 0)[1] == FilterOut(["a"], banned);
  }

  // ---------------------------------------------------------------- progress

  /** The buckets the given servers fetch in a round. */
  function BucketsOf(tl: TapList, servers: set<Server>): set<Bucket> {
    set s, b | s in servers && s in tl && b in tl[s] :: b
  }

  /** The taps whose threads count their buckets as resynced. */
  function Counted(tl: TapList, outcomes: Outcomes, r: nat): set<Server> {
    set s | s in tl && outcomes(r, s).Ran? && outcomes(r, s).success
  }

  /** The resynced bucket count after the given rounds. */
  function Resynced(rounds: seq<TapList>, outcomes: Outcomes, r: nat): nat {
    if rounds == [] then 0
    else |BucketsOf(rounds[0], Counted(rounds[0], outcomes, r))| + Resynced(rounds[1..], outcomes, r + 1)
  }

  lemma RoundCount(owl: OutstandingWorkList, servers: set<Server>)
    ensures BucketsOf(TapListOf(owl), servers) <= Waiting(owl)
    ensures |BucketsOf(TapListOf(owl), servers)| <= |Waiting(owl)|
    ensures |BucketsOf(TapListOf(owl), servers)| == |Waiting(owl)| <==> TapListOf(owl).Keys <= servers
  {
    hide TapListOf;
    RoundPartition(owl);
    var tl := TapListOf(owl);
    var got := BucketsOf(tl, servers);
    assert got <= Waiting(owl);
    Cardinality(got, Waiting(owl));
    if tl.Keys <= servers {
      forall b | b in Waiting(owl)
        ensures b in got
      {
        assert b in tl[owl[b][0]];
      }
    } else {
      var s :| s in tl && s !in servers;
      var b := tl[s][0];
      assert b in tl[s] && b in Waiting(owl) && b !in got;
    }
  }

  lemma Cardinality(a: set<Bucket>, b: set<Bucket>)
    requires a <= b
    ensures |a| <= |b| && (|a| == |b| <==> a == b)
  {
    assert b == a + (b - a);
    assert |b| == |a| + |b - a|;
  }

  /** At every moment - after any number of rounds, with any of the successful
      threads of the running round done - the count is within the total. */
  lemma {:induction false} ProgressBound(owl: OutstandingWorkList, outcomes: Outcomes, r: nat, n: nat,
                                         done: set<Server>)
    requires n < |Rounds(owl, outcomes, r)|
    ensures Resynced(Rounds(owl, outcomes, r)[..n], outcomes, r) + |BucketsOf(Rounds(owl, outcomes, r)[n], done)|
            <= TotalBuckets(owl)
    decreases n
  {
    hide TapListOf, BucketsOf, Counted, TotalBuckets, Banned;
    RoundShrinks(owl, outcomes, r);
    var rounds, next := Rounds(owl, outcomes, r), NextOwl(owl, outcomes, r);
    RoundCount(owl, done);
    if n > 0 {
      RoundCount(owl, Counted(rounds[0], outcomes, r));
      ProgressBound(next, outcomes, r + 1, n - 1, done);
      assert rounds[..n][0] == rounds[0] && rounds[..n][1..] == rounds[1..][..n - 1];
    }
  }

  /** No server on the list has the empty name, the one a failed join strikes off. */
  ghost predicate AllNamed(owl: OutstandingWorkList) {
    forall b :: b in owl ==> "" !in owl[b]
  }

  /** In no round to come does blacklisting strike a server off. */
  ghost predicate NothingStruck(owl: OutstandingWorkList, outcomes: Outcomes, r: nat)
    decreases TotalBuckets(owl)
  {
    OwlEmpty(owl) ||
    (RoundShrinks(owl, outcomes, r);
     && NoneListed(PopFirst(owl), Banned(TapListOf(owl), outcomes, r))
     && NothingStruck(NextOwl(owl, outcomes, r), outcomes, r + 1))
  }

  /** At the end count and total are equal exactly when every tap was started and
      succeeded, and no failed join struck the empty name off a list. */
  lemma {:induction false} ProgressComplete(owl: OutstandingWorkList, outcomes: Outcomes, r: nat)
    ensures Resynced(Rounds(owl, outcomes, r), outcomes, r) <= TotalBuckets(owl)
    ensures Resynced(Rounds(owl, outcomes, r), outcomes, r) == TotalBuckets(owl) <==>
            AllSucceed(Rounds(owl, outcomes, r), outcomes, r) && NothingStruck(owl, outcomes, r)
    decreases TotalBuckets(owl)
  {
    hide TapListOf, BucketsOf, Banned, TotalBuckets, NoneListed;
    if OwlEmpty(owl) {
      EmptyTotal(owl);
    } else {
      var tl, next := TapListOf(owl), NextOwl(owl, outcomes, r);
      RoundShrinks(owl, outcomes, r);
      RoundCount(owl, Counted(tl, outcomes, r));
      ProgressComplete(next, outcomes, r + 1);
      var rest := Rounds(next, outcomes, r + 1);
      assert Rounds(owl, outcomes, r) == [tl] + rest;
      AllSucceedCons(tl, rest, outcomes, r);
      PopFirstTotal(owl);
      BlacklistedTotal(PopFirst(owl), Banned(tl, outcomes, r));
    }
  }

  /** So if all servers have a name, it is enough that every tap succeeded. */
  lemma {:induction false} NamedServersStay(owl: OutstandingWorkList, outcomes: Outcomes, r: nat)
    requires AllNamed(owl) && AllSucceed(Rounds(owl, outcomes, r), outcomes, r)
    ensures NothingStruck(owl, outcomes, r)
    decreases TotalBuckets(owl)
  {
    hide TapListOf, TotalBuckets, Banned;
    if !OwlEmpty(owl) {
      var tl, next := TapListOf(owl), NextOwl(owl, outcomes, r);
      RoundShrinks(owl, outcomes, r);
      var rest := Rounds(next, outcomes, r + 1);
      assert Rounds(owl, outcomes, r) == [tl] + rest;
      AllSucceedCons(tl, rest, outcomes, r);
      OnlyTheEmptyName(tl, outcomes, r);
      NamedServersStay(next, outcomes, r + 1);
    }
  }

  lemma OnlyTheEmptyName(tl: TapList, outcomes: Outcomes, r: nat)
    requires tl.Keys <= Counted(tl, outcomes, r)
    ensures Banned(tl, outcomes, r) <= {""}
  {
    forall s | s in tl
      ensures outcomes(r, s) != Ran(false, true)
    {
      assert s in Counted(tl, outcomes, r);
    }
  }

  /** Every tap of every round was started and reported success. */
  ghost predicate AllSucceed(rounds: seq<TapList>, outcomes: Outcomes, r: nat) {
    forall i, s :: 0 <= i < |rounds| && s in rounds[i] ==> outcomes(r + i, s).Ran? && outcomes(r + i, s).success
  }

  lemma AllSucceedCons(tl: TapList, rest: seq<TapList>, outcomes: Outcomes, r: nat)
    ensures AllSucceed([tl] + rest, outcomes, r) <==>
            tl.Keys <= Counted(tl, outcomes, r) && AllSucceed(rest, outcomes, r + 1)
  {
    var all := [tl] + rest;
    if AllSucceed(all, outcomes, r) {
      forall s | s in tl ensures s in Counted(tl, outcomes, r) { assert s in all[0]; }
      forall i, s | 0 <= i < |rest| && s in rest[i]
        ensures outcomes(r + 1 + i, s).Ran? && outcomes(r + 1 + i, s).success
      {
        assert s in all[i + 1] && r + (i + 1) == r + 1 + i;
      }
    }
    if tl.Keys <= Counted(tl, outcomes, r) && AllSucceed(rest, outcomes, r + 1) {
      forall i, s | 0 <= i < |all| && s in all[i]
        ensures outcomes(r + i, s).Ran? && outcomes(r + i, s).success
      {
        if i == 0 {
          assert s in Counted(tl, outcomes, r);
        } else {
          assert s in rest[i - 1] && r + 1 + (i - 1) == r + i;
        }
      }
    }
  }

  lemma EmptyTotal(owl: OutstandingWorkList)
    requires OwlEmpty(owl)
    ensures TotalBuckets(owl) == 0
  {
    EmptyLengths(owl, SortedBuckets(owl.Keys));
  }

  lemma {:induction false} EmptyLengths(owl: OutstandingWorkList, keys: seq<Bucket>)
    requires OwlEmpty(owl)
    ensures LengthsOver(owl, keys) == 0
  {
    if keys != [] {
      EmptyLengths(owl, keys[1..]);
    }
  }

  // ---------------------------------------------------------------- failures

  /** The buckets some joined tap reported success for. */
  function Streamed(rounds: seq<TapList>, outcomes: Outcomes, r: nat): set<Bucket> {
    if rounds == [] then {}
    else StreamedIn(rounds[0], outcomes, r) + Streamed(rounds[1..], outcomes, r + 1)
  }

  function StreamedIn(tl: TapList, outcomes: Outcomes, r: nat): set<Bucket> {
    BucketsOf(tl, set s | s in tl && outcomes(r, s) == Ran(true, true))
  }

  lemma {:induction false} StreamedMeans(rounds: seq<TapList>, outcomes: Outcomes, r: nat, b: Bucket)
    ensures b in Streamed(rounds, outcomes, r) <==>
            exists i, s ::
              0 <= i < |rounds| && s in rounds[i] && b in rounds[i][s] && outcomes(r + i, s) == Ran(true, true)
  {
    if rounds != [] {
      StreamedMeans(rounds[1..], outcomes, r + 1, b);
      if i, s :| 0 <= i < |rounds| && s in rounds[i] && b in rounds[i][s] && outcomes(r + i, s) == Ran(true, true) {
        if i > 0 {
          assert rounds[1..][i - 1] == rounds[i] && r + 1 + (i - 1) == r + i;
        }
      }
      if b in Streamed(rounds[1..], outcomes, r + 1) {
        var i, s :| 0 <= i < |rounds[1..]| && s in rounds[1..][i] && b in rounds[1..][i][s]
                    && outcomes(r + 1 + i, s) == Ran(true, true);
        assert rounds[1..][i] == rounds[i + 1] && r + 1 + i == r + (i + 1);
      }
      if b in StreamedIn(rounds[0], outcomes, r) {
        var s :| s in rounds[0] && b in rounds[0][s] && outcomes(r, s) == Ran(true, true);
        assert outcomes(r + 0, s) == Ran(true, true);
      }
    }
  }
}
