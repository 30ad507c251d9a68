/** The record of which buckets could not be reached, the counter kept beside it,
    and the alarm driven by the counter. */
module CommStates {
  import opened Replication

  /** Alarm updates are more than this many milliseconds apart. */
  const UPDATE_PERIOD_MS: nat := 30000

  /** An alarm update: when it was decided on, and whether it set the alarm. */
  datatype AlarmUpdate = AlarmUpdate(time: nat, isSet: bool)

  datatype Table = Table(states: seq<CommState>, failCount: nat, nextUpdate: nat, alarms: seq<AlarmUpdate>)

  /** A call: the bucket, its new state, and the two readings of the clock. */
  datatype Update = Update(vbucket: nat, state: CommState, now: nat, later: nat)

  function Failed(states: seq<CommState>): nat {
    if states == [] then 0
    else Failed(states[..|states| - 1]) + if states[|states| - 1] == FAILED then 1 else 0
  }

  function InitialTable(n: nat): Table {
    Table(seq(n, _ => OK), 0, 0, [])
  }

  /** The counter after bucket `b` has changed to `state`, as the code counts: one up
      or one down, though not below zero. */
  function Recount(t: Table, b: nat, state: CommState): nat
    requires b < |t.states|
  {
    if t.states[b] == state then t.failCount
    else if state == FAILED then t.failCount + 1
    else if t.failCount > 0 then t.failCount - 1
    else t.failCount
  }

  /** What an update does: the table follows the call, the counter is moved, and
      once the period is over the alarm goes by the counter. */
  function Updated(t: Table, u: Update): Table
    requires u.vbucket < |t.states|
  {
    var failCount := Recount(t, u.vbucket, u.state);
    var due := u.now > t.nextUpdate;
    Table(t.states[u.vbucket := u.state], failCount,
          if due then u.later + UPDATE_PERIOD_MS else t.nextUpdate,
          if due then t.alarms + [AlarmUpdate(u.now, failCount != 0)] else t.alarms)
  }

  class CommMonitor {
    var states: seq<CommState>
    var failCount: nat
    var nextUpdate: nat
    var alarms: seq<AlarmUpdate>

    ghost function View(): Table
      reads this
    {
      Table(states, failCount, nextUpdate, alarms)
    }

    /** The counter agrees with the table. */
    ghost predicate Valid()
      reads this
    {
      failCount == Failed(states)
    }

    constructor (vbuckets: nat)
      ensures Valid() && View() == InitialTable(vbuckets)
    {
      states := seq(vbuckets, _ => OK);
      failCount, nextUpdate, alarms := 0, 0, [];
      new;
      NoneFailed(vbuckets);
    }

    /** `update_vbucket_comm_state`, with an alarm configured. The counter agrees with
        the table before and after: where it is decremented it is not zero, so that
        the guard on it does not decide anything. */
    method UpdateVBucketCommState(vbucket: nat, state: CommState, now: nat, later: nat)
      requires Valid() && vbucket < |states|
      modifies this
      ensures Valid() && View() == Updated(old(View()), Update(vbucket, state, now, later))
    {
      CountChange(states, vbucket, state);
      if states[vbucket] != state {
        if state == OK {
          assert failCount > 0;
          if failCount > 0 {
            failCount := failCount - 1;
          }
        } else {
          failCount := failCount + 1;
        }
        states := states[vbucket := state];
      }
      assert states == old(states)[vbucket := state];
      if now > nextUpdate {
        alarms := alarms + [AlarmUpdate(now, failCount != 0)];
        nextUpdate := later + UPDATE_PERIOD_MS;
      }
    }
  }

  lemma {:induction false} NoneFailed(n: nat)
    ensures Failed(seq(n, _ => OK)) == 0
  {
    if n > 0 {
      NoneFailed(n - 1);
      var s := seq(n, _ => OK);
      assert s[..n - 1] == seq(n - 1, _ => OK);
    }
  }

  /** Changing one entry moves the count by one, in the direction of the change. */
  lemma {:induction false} CountChange(states: seq<CommState>, i: nat, state: CommState)
    requires i < |states|
    ensures Failed(states[i := state]) ==
            Failed(states) + (if state == FAILED then 1 else 0) - (if states[i] == FAILED then 1 else 0)
    ensures states[i] == FAILED ==> Failed(states) > 0
  {
    var n := |states| - 1;
    if i == n {
      assert states[i := state][..n] == states[..n];
    } else {
      CountChange(states[..n], i, state);
      assert states[i := state][..n] == states[..n][i := state];
    }
  }

  lemma {:induction false} ZeroMeansNone(states: seq<CommState>)
    ensures Failed(states) == 0 <==> FAILED !in states
  {
    if states != [] {
      var n := |states| - 1;
      ZeroMeansNone(states[..n]);
      assert states == states[..n] + [states[n]];
    }
  }

  // ------------------------------------------------------------- whole runs

  function Run(t: Table, us: seq<Update>): (r: Table)
    requires forall i :: 0 <= i < |us| ==> us[i].vbucket < |t.states|
    ensures |r.states| == |t.states|
  {
    if us == [] then t else Updated(Run(t, us[..|us| - 1]), us[|us| - 1])
  }

  /** The clock does not go back, within a call or from call to call. */
  ghost predicate Monotone(us: seq<Update>) {
    && (forall i :: 0 <= i < |us| ==> us[i].now <= us[i].later)
    && (forall i, j :: 0 <= i < j < |us| ==> us[i].later <= us[j].now)
  }

  /** Whether a bucket is failing after the given updates: its last update says. */
  ghost predicate LastFailed(us: seq<Update>, b: nat) {
    us != [] && if us[|us| - 1].vbucket == b then us[|us| - 1].state == FAILED else LastFailed(us[..|us| - 1], b)
  }

  ghost predicate AnyFailing(n: nat, us: seq<Update>) {
    exists b :: 0 <= b < n && LastFailed(us, b)
  }

  /** After every sequence of updates the counter is the number of failing buckets,
      and a bucket is failing exactly when its last update said so. */
  lemma {:induction false} CounterAgrees(n: nat, us: seq<Update>, b: nat)
    requires (forall i :: 0 <= i < |us| ==> us[i].vbucket < n) && b < n
    ensures
      var t := Run(InitialTable(n), us);
      && t.failCount == Failed(t.states)
      && (t.failCount == 0 <==> forall c :: 0 <= c < n ==> t.states[c] == OK)
      && (t.states[b] == FAILED <==> LastFailed(us, b))
  {
    hide Failed;
    var t := Run(InitialTable(n), us);
    if us == [] {
      NoneFailed(n);
    } else {
      var m := |us| - 1;
      CounterAgrees(n, us[..m], b);
      var before := Run(InitialTable(n), us[..m]);
      CountChange(before.states, us[m].vbucket, us[m].state);
      assert us[m].state == before.states[us[m].vbucket] ==> t.states == before.states;
    }
    ZeroMeansNone(t.states);
  }

  /** Any two alarm updates sent are more than the period apart, and so will the
      next one be. */
  ghost predicate Spaced(t: Table) {
    && (forall i, j :: 0 <= i < j < |t.alarms| ==> t.alarms[i].time + UPDATE_PERIOD_MS < t.alarms[j].time)
    && (forall i :: 0 <= i < |t.alarms| ==> t.alarms[i].time + UPDATE_PERIOD_MS <= t.nextUpdate)
  }

  /** On a clock that does not go back, alarm updates are more than 30 s apart. */
  lemma {:induction false} AlarmsAreApart(n: nat, us: seq<Update>)
    requires (forall i :: 0 <= i < |us| ==> us[i].vbucket < n) && Monotone(us)
    ensures Spaced(Run(InitialTable(n), us))
    ensures
      var alarms := Run(InitialTable(n), us).alarms;
      forall i, j :: 0 <= i < j < |alarms| ==> alarms[i].time + 30_000 < alarms[j].time
  {
    hide Updated;
    if us == [] {
      SpacedAtFirst(n);
    } else {
      var m := |us| - 1;
      AlarmsAreApart(n, us[..m]);
      SpacedStep(Run(InitialTable(n), us[..m]), us[m]);
    }
  }

  lemma SpacedAtFirst(n: nat)
    ensures Spaced(InitialTable(n))
  {
  }

  lemma SpacedStep(t: Table, u: Update)
    requires Spaced(t) && u.vbucket < |t.states| && u.now <= u.later
    ensures Spaced(Updated(t, u))
  {
    hide Recount;
    var t' := Updated(t, u);
    if u.now > t.nextUpdate {
      forall i | 0 <= i < |t.alarms|
        ensures t'.alarms[i] == t.alarms[i] && t.alarms[i].time + UPDATE_PERIOD_MS < u.now
      {
      }
    }
  }

  /** Call `c` sends an alarm update. */
  ghost predicate Sends(n: nat, us: seq<Update>, c: nat)
    requires (forall i :: 0 <= i < |us| ==> us[i].vbucket < n) && c < |us|
  {
    |Run(InitialTable(n), us[..c + 1]).alarms| > |Run(InitialTable(n), us[..c]).alarms|
  }

  /** The next update is put off by what the last call that sent one read last. */
  ghost predicate PutOffBy(n: nat, us: seq<Update>, d: nat)
    requires forall i :: 0 <= i < |us| ==> us[i].vbucket < n
  {
    && d < |us| && Sends(n, us, d) && (forall e :: d < e < |us| ==> !Sends(n, us, e))
    && Run(InitialTable(n), us).nextUpdate == us[d].later + 30_000
  }

  /** No update has been sent, and none is put off. */
  ghost predicate NotPutOff(n: nat, us: seq<Update>)
    requires forall i :: 0 <= i < |us| ==> us[i].vbucket < n
  {
    Run(InitialTable(n), us).nextUpdate == 0 && forall d :: 0 <= d < |us| ==> !Sends(n, us, d)
  }

  lemma {:induction false} PutOff(n: nat, us: seq<Update>)
    requires forall i :: 0 <= i < |us| ==> us[i].vbucket < n
    ensures NotPutOff(n, us) || exists d: nat :: PutOffBy(n, us, d)
  {
    hide Run, Sends, PutOffBy, NotPutOff;
    if us == [] {
      NothingPutOff(n);
    } else {
      var m := |us| - 1;
      PutOff(n, us[..m]);
      if Sends(n, us, m) {
        PutOffNow(n, us);
      } else if NotPutOff(n, us[..m]) {
        StillNotPutOff(n, us);
      } else {
        var d: nat :| PutOffBy(n, us[..m], d);
        StillPutOffBy(n, us, d);
      }
    }
  }

  lemma PutOffNow(n: nat, us: seq<Update>)
    requires (forall i :: 0 <= i < |us| ==> us[i].vbucket < n) && us != [] && Sends(n, us, |us| - 1)
    ensures PutOffBy(n, us, |us| - 1)
  {
    hide Run, Sends;
    PutOffNext(n, us);
  }

  lemma StillNotPutOff(n: nat, us: seq<Update>)
    requires (forall i :: 0 <= i < |us| ==> us[i].vbucket < n) && us != [] && !Sends(n, us, |us| - 1)
    requires NotPutOff(n, us[..|us| - 1])
    ensures NotPutOff(n, us)
  {
    hide Run, Sends;
    PutOffNext(n, us);
    forall d | 0 <= d < |us| - 1
      ensures !Sends(n, us, d)
    {
      SendsEarly(n, us, |us| - 1, d);
    }
  }

  lemma StillPutOffBy(n: nat, us: seq<Update>, d: nat)
    requires (forall i :: 0 <= i < |us| ==> us[i].vbucket < n) && us != [] && !Sends(n, us, |us| - 1)
    requires PutOffBy(n, us[..|us| - 1], d)
    ensures PutOffBy(n, us, d)
  {
    hide Run, Sends;
    PutOffNext(n, us);
    forall e | 0 <= e < |us| - 1
      ensures Sends(n, us, e) <==> Sends(n, us[..|us| - 1], e)
    {
      SendsEarly(n, us, |us| - 1, e);
    }
  }

  lemma NothingPutOff(n: nat)
    ensures NotPutOff(n, [])
  {
  }

  lemma PutOffNext(n: nat, us: seq<Update>)
    requires (forall i :: 0 <= i < |us| ==> us[i].vbucket < n) && us != []
    ensures
      var m := |us| - 1;
      Run(InitialTable(n), us).nextUpdate ==
      if Sends(n, us, m) then us[m].later + 30_000 else Run(InitialTable(n), us[..m]).nextUpdate
  {
    hide Recount, Sends;
    SendsNow(n, us, |us| - 1);
  }

  lemma SendsNow(n: nat, us: seq<Update>, c: nat)
    requires (forall i :: 0 <= i < |us| ==> us[i].vbucket < n) && c < |us|
    ensures Sends(n, us, c) <==> us[c].now > Run(InitialTable(n), us[..c]).nextUpdate
  {
    hide Recount;
    assert us[..c + 1][..c] == us[..c];
  }

  /** On a clock that does not go back, a call sends an alarm update exactly if it
      comes more than 30 s after all calls that have sent one. */
  lemma AlarmSentIff(n: nat, us: seq<Update>, c: nat)
    requires (forall i :: 0 <= i < |us| ==> us[i].vbucket < n) && Monotone(us) && c < |us|
    ensures Sends(n, us, c) <==>
            us[c].now > 0 && forall d :: 0 <= d < c && Sends(n, us, d) ==> us[c].now > us[d].later + 30_000
  {
    hide Run, Sends;
    var front := us[..c];
    SendsNow(n, us, c);
    PutOff(n, front);
    forall d | 0 <= d < c
      ensures Sends(n, us, d) <==> Sends(n, front, d)
    {
      SendsEarly(n, us, c, d);
    }
    if d: nat :| PutOffBy(n, front, d) {
      assert Sends(n, us, d) && us[d].later == front[d].later;
      forall e | 0 <= e < c && Sends(n, us, e)
        ensures us[e].later <= us[d].later
      {
        assert e <= d;
      }
    }
  }

  lemma SendsEarly(n: nat, us: seq<Update>, c: nat, d: nat)
    requires (forall i :: 0 <= i < |us| ==> us[i].vbucket < n) && d < c < |us|
    ensures Sends(n, us, d) <==> Sends(n, us[..c], d)
  {
    hide Run;
    assert us[..c][..d] == us[..d] && us[..c][..d + 1] == us[..d + 1];
  }

  /** Every alarm update was sent by some call, and tells whether there is a bucket
      whose last update up to that call said that it is failing. */
  lemma {:induction false} AlarmsAreTrue(n: nat, us: seq<Update>, i: nat) returns (c: nat)
    requires forall j :: 0 <= j < |us| ==> us[j].vbucket < n
    requires i < |Run(InitialTable(n), us).alarms|
    ensures c < |us| && Run(InitialTable(n), us).alarms[i].time == us[c].now
    ensures Run(InitialTable(n), us).alarms[i].isSet <==> AnyFailing(n, us[..c + 1])
  {
    hide Recount, AnyFailing;
    assert us != [];
    var m := |us| - 1;
    var before := Run(InitialTable(n), us[..m]);
    if i < |before.alarms| {
      c := AlarmsAreTrue(n, us[..m], i);
      assert us[..m][..c + 1] == us[..c + 1];
    } else {
      c := m;
      assert us[..c + 1] == us;
      CounterTells(n, us);
    }
  }

  /** The counter is not zero exactly when some bucket's last update was a failure. */
  lemma CounterTells(n: nat, us: seq<Update>)
    requires forall j :: 0 <= j < |us| ==> us[j].vbucket < n
    ensures Run(InitialTable(n), us).failCount != 0 <==> AnyFailing(n, us)
  {
    hide Run, LastFailed, Failed;
    var t := Run(InitialTable(n), us);
    forall b | 0 <= b < n
      ensures t.states[b] == FAILED <==> LastFailed(us, b)
      ensures t.failCount == 0 <==> forall c :: 0 <= c < n ==> t.states[c] == OK
    {
      CounterAgrees(n, us, b);
    }
    if us == [] {
      NothingFailing(n);
    } else {
      CounterAgrees(n, us, us[0].vbucket);
    }
  }

  lemma NothingFailing(n: nat)
    ensures Run(InitialTable(n), []).failCount == 0 && !AnyFailing(n, [])
  {
  }
}
