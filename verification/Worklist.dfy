/** The outstanding work list of a resync: for every bucket the servers it is
    still to be fetched from, in order. Which buckets get on it, and how a round
    of taps takes one server per bucket off it. */
module Worklist {
  import opened Memcached

  type OutstandingWorkList = map<Bucket, seq<Server>>

  type TapList = map<Server, seq<Bucket>>

  predicate Ascending(r: seq<Bucket>) {
    forall i, j :: 0 <= i < j < |r| ==> r[i] < r[j]
  }

  predicate IsSmallest(b: Bucket, bs: set<Bucket>) {
    b in bs && forall x :: x in bs ==> b <= x
  }

  lemma {:induction false} SmallestExists(bs: set<Bucket>) returns (b: Bucket)
    requires bs != {}
    ensures IsSmallest(b, bs)
    decreases |bs|
  {
    var x :| x in bs;
    b := x;
    if bs - {x} != {} {
      var c := SmallestExists(bs - {x});
      b := if c < x then c else x;
    }
    assert forall y :: y in bs ==> y == x || y in bs - {x};
  }

  function Smallest(bs: set<Bucket>): (b: Bucket)
    requires bs != {}
    ensures IsSmallest(b, bs)
  {
    assert exists b :: IsSmallest(b, bs) by { var b := SmallestExists(bs); }
    var b :| IsSmallest(b, bs);
    b
  }

  /** The keys of a map in the order a `std::map` is walked. */
  function SortedBuckets(bs: set<Bucket>): (r: seq<Bucket>)
    ensures forall b :: b in r <==> b in bs
    decreases |bs|
  {
    if bs == {} then [] else [Smallest(bs)] + SortedBuckets(bs - {Smallest(bs)})
  }

  lemma {:induction false} SortedIsAscending(bs: set<Bucket>)
    ensures Ascending(SortedBuckets(bs))
    decreases |bs|
  {
    if bs != {} {
      SortedIsAscending(bs - {Smallest(bs)});
      AscendingCons(Smallest(bs), SortedBuckets(bs - {Smallest(bs)}));
    }
  }

  lemma AscendingCons(b: Bucket, r: seq<Bucket>)
    requires Ascending(r) && forall i :: 0 <= i < |r| ==> b < r[i]
    ensures Ascending([b] + r)
  {
  }

  lemma AscendingSnoc(r: seq<Bucket>, b: Bucket)
    requires Ascending(r) && forall i :: 0 <= i < |r| ==> r[i] < b
    ensures Ascending(r + [b])
  {
  }

  // ---------------------------------------------------------------- contents

  function Replicas(view: map<Bucket, seq<Server>>, b: Bucket): seq<Server> {
    if b in view then view[b] else []
  }

  /** The first occurrence of `s` taken out. */
  function EraseFirst(list: seq<Server>, s: Server): seq<Server> {
    if list == [] then []
    else if list[0] == s then list[1..]
    else [list[0]] + EraseFirst(list[1..], s)
  }

  /** Where a bucket can be fetched from. */
  function Sources(current: map<Bucket, seq<Server>>, self: Server, full: bool, b: Bucket): seq<Server> {
    if full then EraseFirst(Replicas(current, b), self) else Replicas(current, b)
  }

  /** With no resize in progress the new view is the current one. */
  function Target(current: map<Bucket, seq<Server>>, next: map<Bucket, seq<Server>>): map<Bucket, seq<Server>> {
    if next == map[] then current else next
  }

  /** `calculate_worklist` */
  method CalculateWorklist(current: map<Bucket, seq<Server>>, next: map<Bucket, seq<Server>>,
                           self: Server, full: bool)
    returns (owl: OutstandingWorkList)
    ensures owl == WorklistOf(current, next, self, full)
  {
    hide SortedBuckets, Sources;
    var target := Target(current, next);
    var keys := SortedBuckets(target.Keys);
    owl := map[];
    for i := 0 to |keys|
      invariant forall b :: b in owl <==> b in keys[..i] && Wanted(current, target, self, full, b)
      invariant forall b :: b in owl ==> owl[b] == Sources(current, self, full, b)
    {
      var vbucket := keys[i];
      assert vbucket in keys;
      assert keys[..i + 1] == keys[..i] + [vbucket];
      if self in target[vbucket] {
        var sources := Sources(current, self, full, vbucket);
        if sources != [] && self !in sources {
          owl := owl[vbucket := sources];
        }
      }
    }
    assert keys[..|keys|] == keys;
  }

  predicate Wanted(current: map<Bucket, seq<Server>>, target: map<Bucket, seq<Server>>,
                   self: Server, full: bool, b: Bucket)
  {
    && b in target && self in target[b]
    && Sources(current, self, full, b) != [] && self !in Sources(current, self, full, b)
  }

  function WorklistOf(current: map<Bucket, seq<Server>>, next: map<Bucket, seq<Server>>,
                      self: Server, full: bool): OutstandingWorkList
  {
    var target := Target(current, next);
    map b | b in target && Wanted(current, target, self, full, b) :: Sources(current, self, full, b)
  }

  ghost predicate NoRepeats(list: seq<Server>) {
    forall i, j :: 0 <= i < j < |list| ==> list[i] != list[j]
  }

  lemma {:induction false} EraseFirstWhenUnique(list: seq<Server>, s: Server)
    requires NoRepeats(list)
    ensures EraseFirst(list, s) == FilterOut(list, {s})
    ensures forall x :: x in EraseFirst(list, s) <==> x in list && x != s
    ensures s !in list ==> EraseFirst(list, s) == list
  {
    if list != [] {
      EraseFirstWhenUnique(list[1..], s);
      if list[0] == s {
        assert s !in list[1..];
        assert EraseFirst(list[1..], s) == list[1..];
      }
      assert forall x :: x in list <==> x == list[0] || x in list[1..];
    }
  }

  lemma {:induction false} EraseAt(list: seq<Server>, s: Server, i: nat)
    requires NoRepeats(list) && i < |list| && list[i] == s
    ensures EraseFirst(list, s) == list[..i] + list[i + 1..]
  {
    if i > 0 {
      assert list[0] != s;
      EraseAt(list[1..], s, i - 1);
      assert list[..i] == [list[0]] + list[1..][..i - 1] && list[1..][i..] == list[i + 1..];
    }
  }

  /** Some server other than this one holds the bucket now. */
  ghost predicate HeldElsewhere(current: map<Bucket, seq<Server>>, self: Server, b: Bucket) {
    b in current && exists s :: s in current[b] && s != self
  }

  /** For views without repeated servers: on the list are exactly the buckets this
      node is to own - in the new view if there is one, else in the current one -
      that another server holds now, and that, unless the resync is full, this node
      does not hold itself. Minimal work is part of full work. */
  lemma WorklistSpecification(current: map<Bucket, seq<Server>>, next: map<Bucket, seq<Server>>,
                              self: Server, b: Bucket)
    requires forall c :: c in current ==> NoRepeats(current[c])
    ensures
      var minimal, full := WorklistOf(current, next, self, false), WorklistOf(current, next, self, true);
      && (next != map[] ==> (b in full <==> b in next && self in next[b] && HeldElsewhere(current, self, b)))
      && (next == map[] ==> (b in full <==> b in current && self in current[b] && HeldElsewhere(current, self, b)))
      && (b in minimal <==> b in full && !(b in current && self in current[b]))
      && (b in minimal ==> minimal[b] == full[b])
  {
    hide EraseFirst;
    var held := Replicas(current, b);
    EraseFirstWhenUnique(held, self);
    if s :| s in held && s != self {
      assert s in EraseFirst(held, self);
    }
    if EraseFirst(held, self) != [] {
      assert EraseFirst(held, self)[0] in held;
    }
  }

  /** Each bucket comes with all its other holders, in order. */
  lemma SourcesSpecification(current: map<Bucket, seq<Server>>, next: map<Bucket, seq<Server>>,
                             self: Server, b: Bucket)
    requires (forall c :: c in current ==> NoRepeats(current[c])) && b in WorklistOf(current, next, self, true)
    ensures
      var sources := WorklistOf(current, next, self, true)[b];
      && b in current && sources != [] && self !in sources
      && (self !in current[b] ==> sources == current[b])
      && (forall i :: 0 <= i < |current[b]| && current[b][i] == self ==>
            sources == current[b][..i] + current[b][i + 1..])
  {
    hide EraseFirst, WorklistOf, FilterOut;
    ListedSources(current, next, self, b);
    EraseFirstWhenUnique(current[b], self);
    forall i | 0 <= i < |current[b]| && current[b][i] == self
      ensures EraseFirst(current[b], self) == current[b][..i] + current[b][i + 1..]
    {
      EraseAt(current[b], self, i);
    }
  }

  lemma ListedSources(current: map<Bucket, seq<Server>>, next: map<Bucket, seq<Server>>, self: Server, b: Bucket)
    requires b in WorklistOf(current, next, self, true)
    ensures b in current && WorklistOf(current, next, self, true)[b] == EraseFirst(current[b], self) != []
    ensures self !in WorklistOf(current, next, self, true)[b]
  {
    assert Sources(current, self, true, b) == EraseFirst(Replicas(current, b), self);
  }

  /** For instance when a node joins: it fetches the bucket it is to share from the
      server that holds it. */
  lemma JoiningNodeFetches(b: Bucket, holder: Server, self: Server, full: bool)
    requires holder != self
    ensures WorklistOf(map[b := [holder]], map[b := [holder, self]], self, full) == map[b := [holder]]
  {
    var current, next := map[b := [holder]], map[b := [holder, self]];
    assert [holder][1..] == [];
    assert EraseFirst([holder], self) == [holder] + EraseFirst([], self);
    assert self in next[b] && next != map[] by { assert next[b][1] == self; assert b in next; }
    assert Sources(current, self, full, b) == [holder];
  }

  // ------------------------------------------------------------------ rounds

  /** The servers not in `banned`, in order. */
  function FilterOut(list: seq<Server>, banned: set<Server>): (r: seq<Server>)
    ensures forall s :: s in r <==> s in list && s !in banned
    ensures |r| <= |list|
  {
    if list == [] then []
    else if list[0] in banned then FilterOut(list[1..], banned)
    else
      assert forall s :: s in list <==> s == list[0] || s in list[1..];
      [list[0]] + FilterOut(list[1..], banned)
  }

  function Tail(list: seq<Server>): seq<Server> { if list == [] then [] else list[1..] }

  /** The work list after each nonempty list has lost its first server. */
  function PopFirst(owl: OutstandingWorkList): OutstandingWorkList {
    map b | b in owl :: Tail(owl[b])
  }

  function Blacklisted(owl: OutstandingWorkList, banned: set<Server>): OutstandingWorkList {
    map b | b in owl :: FilterOut(owl[b], banned)
  }

  predicate OwlEmpty(owl: OutstandingWorkList) {
    forall b :: b in owl ==> owl[b] == []
  }

  /** The buckets of `keys` whose turn it is to be fetched from `s`. */
  function BucketsFor(owl: OutstandingWorkList, s: Server, keys: seq<Bucket>): (r: seq<Bucket>)
    ensures forall b :: b in r <==> b in keys && b in owl && owl[b] != [] && owl[b][0] == s
  {
    if keys == [] then []
    else
      var n := |keys| - 1;
      assert keys == keys[..n] + [keys[n]];
      BucketsFor(owl, s, keys[..n]) +
      if keys[n] in owl && owl[keys[n]] != [] && owl[keys[n]][0] == s then [keys[n]] else []
  }

  /** The taps for the buckets in `keys`: each goes to its first server. */
  function TapListOver(owl: OutstandingWorkList, keys: seq<Bucket>): TapList {
    map s | s in FirstServers(owl, keys) :: BucketsFor(owl, s, keys)
  }

  function FirstServers(owl: OutstandingWorkList, keys: seq<Bucket>): set<Server> {
    set b | b in keys && b in owl && owl[b] != [] :: owl[b][0]
  }

  function TapListOf(owl: OutstandingWorkList): TapList {
    TapListOver(owl, SortedBuckets(owl.Keys))
  }

  lemma {:induction false} BucketsForAscending(owl: OutstandingWorkList, s: Server, keys: seq<Bucket>)
    requires Ascending(keys)
    ensures Ascending(BucketsFor(owl, s, keys))
  {
    if keys != [] {
      var n := |keys| - 1;
      var before := BucketsFor(owl, s, keys[..n]);
      BucketsForAscending(owl, s, keys[..n]);
      forall i | 0 <= i < |before|
        ensures before[i] < keys[n]
      {
        assert before[i] in keys[..n];
      }
      AscendingSnoc(before, keys[n]);
    }
  }

  /** A round hands every bucket with servers left to its first server and to no
      other, each once; no server gets an empty list. */
  lemma RoundPartition(owl: OutstandingWorkList)
    ensures forall s, b :: s in TapListOf(owl) ==>
              (b in TapListOf(owl)[s] <==> b in owl && owl[b] != [] && owl[b][0] == s)
    ensures forall s :: s in TapListOf(owl) ==> TapListOf(owl)[s] != [] && Ascending(TapListOf(owl)[s])
    ensures forall b :: b in owl && owl[b] != [] ==> owl[b][0] in TapListOf(owl)
    ensures forall s, s', b ::
              s in TapListOf(owl) && s' in TapListOf(owl) && b in TapListOf(owl)[s] && b in TapListOf(owl)[s']
              ==> s == s'
  {
    hide SortedBuckets;
    forall s | s in TapListOf(owl)
      ensures TapListOf(owl)[s] != [] && Ascending(TapListOf(owl)[s])
    {
      SortedIsAscending(owl.Keys);
      BucketsForAscending(owl, s, SortedBuckets(owl.Keys));
      var b :| b in SortedBuckets(owl.Keys) && b in owl && owl[b] != [] && owl[b][0] == s;
      assert b in TapListOf(owl)[s];
    }
  }

  // ------------------------------------------------------------------ totals

  /** Lengths of the lists of the buckets in `keys`. */
  function LengthsOver(owl: OutstandingWorkList, keys: seq<Bucket>): nat {
    if keys == [] then 0
    else |Replicas(owl, keys[0])| + LengthsOver(owl, keys[1..])
  }

  /** The (bucket, server) pairs still on the list. */
  function TotalBuckets(owl: OutstandingWorkList): nat {
    LengthsOver(owl, SortedBuckets(owl.Keys))
  }

  function Waiting(owl: OutstandingWorkList): set<Bucket> {
    set b | b in owl && owl[b] != []
  }

  lemma {:induction false} LengthsDrop(owl: OutstandingWorkList, keys: seq<Bucket>)
    requires Ascending(keys)
    ensures LengthsOver(owl, keys) == LengthsOver(PopFirst(owl), keys) + |WaitingIn(owl, keys)|
  {
    hide WaitingIn;
    if keys != [] {
      var k, rest := keys[0], keys[1..];
      assert |Replicas(owl, k)| == |Replicas(PopFirst(owl), k)| + if Replicas(owl, k) != [] then 1 else 0;
      assert Ascending(rest) && k !in rest;
      LengthsDrop(owl, rest);
      assert keys == [k] + rest;
      WaitingCons(owl, k, rest);
    } else {
      NothingWaiting(owl);
    }
  }

  lemma NothingWaiting(owl: OutstandingWorkList)
    ensures WaitingIn(owl, []) == {}
  {
  }

  lemma WaitingCons(owl: OutstandingWorkList, k: Bucket, rest: seq<Bucket>)
    requires k !in rest
    ensures |WaitingIn(owl, [k] + rest)| == |WaitingIn(owl, rest)| + if Replicas(owl, k) != [] then 1 else 0
  {
    hide Replicas;
    var all, others := WaitingIn(owl, [k] + rest), WaitingIn(owl, rest);
    assert all == if Replicas(owl, k) != [] then others + {k} else others;
  }

  function WaitingIn(owl: OutstandingWorkList, keys: seq<Bucket>): set<Bucket> {
    set b | b in keys && Replicas(owl, b) != []
  }

  /** Taking the first servers off lowers the total by the number of buckets that
      had one. */
  lemma PopFirstTotal(owl: OutstandingWorkList)
    ensures TotalBuckets(owl) == TotalBuckets(PopFirst(owl)) + |Waiting(owl)|
  {
    hide SortedBuckets, LengthsOver;
    var keys := SortedBuckets(owl.Keys);
    SortedIsAscending(owl.Keys);
    LengthsDrop(owl, keys);
    assert PopFirst(owl).Keys == owl.Keys;
    assert WaitingIn(owl, keys) == Waiting(owl);
  }

  /** None of the names is on a list. */
  ghost predicate NoneListed(owl: OutstandingWorkList, banned: set<Server>) {
    forall b, s :: b in owl && s in owl[b] ==> s !in banned
  }

  lemma {:induction false} LengthsFiltered(owl: OutstandingWorkList, banned: set<Server>, keys: seq<Bucket>)
    ensures LengthsOver(Blacklisted(owl, banned), keys) <= LengthsOver(owl, keys)
    ensures LengthsOver(Blacklisted(owl, banned), keys) == LengthsOver(owl, keys) <==>
            forall i :: 0 <= i < |keys| ==> NoneAmong(Replicas(owl, keys[i]), banned)
  {
    hide NoneAmong, FilterOut;
    if keys != [] {
      LengthsFiltered(owl, banned, keys[1..]);
      FilterLength(Replicas(owl, keys[0]), banned);
      FilterNoServers(banned);
      assert Replicas(Blacklisted(owl, banned), keys[0]) == FilterOut(Replicas(owl, keys[0]), banned);
      assert forall i :: 1 <= i < |keys| ==> keys[i] == keys[1..][i - 1];
      assert forall i :: 0 <= i < |keys[1..]| ==> keys[1..][i] == keys[i + 1];
    }
  }

  ghost predicate NoneAmong(list: seq<Server>, banned: set<Server>) {
    forall s :: s in list ==> s !in banned
  }

  lemma FilterNoServers(banned: set<Server>)
    ensures FilterOut([], banned) == []
  {
  }

  lemma {:induction false} FilterLength(list: seq<Server>, banned: set<Server>)
    ensures |FilterOut(list, banned)| <= |list|
    ensures |FilterOut(list, banned)| == |list| <==> NoneAmong(list, banned)
  {
    if list != [] {
      FilterLength(list[1..], banned);
      assert forall s :: s in list <==> s == list[0] || s in list[1..];
    }
  }

  lemma {:induction false} FilterNothing(list: seq<Server>, banned: set<Server>)
    requires forall s :: s in list ==> s !in banned
    ensures FilterOut(list, banned) == list
  {
    if list != [] {
      assert list[0] in list;
      FilterNothing(list[1..], banned);
    }
  }

  /** Blacklisting lowers the total, exactly if a name on some list is banned. */
  lemma BlacklistedTotal(owl: OutstandingWorkList, banned: set<Server>)
    ensures TotalBuckets(Blacklisted(owl, banned)) <= TotalBuckets(owl)
    ensures TotalBuckets(Blacklisted(owl, banned)) == TotalBuckets(owl) <==> NoneListed(owl, banned)
  {
    hide SortedBuckets, LengthsOver;
    var keys := SortedBuckets(owl.Keys);
    LengthsFiltered(owl, banned, keys);
    assert Blacklisted(owl, banned).Keys == owl.Keys;
    if NoneListed(owl, banned) {
      forall i | 0 <= i < |keys|
        ensures NoneAmong(Replicas(owl, keys[i]), banned)
      {
        assert keys[i] in keys;
      }
    } else {
      var b, s :| b in owl && s in owl[b] && s in banned;
      assert b in keys;
    }
  }
}
