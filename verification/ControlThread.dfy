/** The control thread and the tag protocol, as a state machine. The thread holds
    the lock from waking up until it waits again, so signals are taken only while
    it waits (or before it first runs). The local memcached may restart, and the
    process may crash and be started again. */
module ControlThread {

  /** Where the control thread stands in its loop. */
  datatype Phase =
    | Starting
    | Top
    | Untagging
    | Polling(resync: bool, full: bool)
    | Resyncing(full: bool)
    | Tagging
    | Waiting
    | Ended

  /** `tagged`: the tag record is in the local memcached. `synced`: since the local
      memcached last restarted, a full resync ran from start to end. `clean`: there
      was no restart since the running resync began. */
  datatype System = System(viewUpdated: bool, fullRequested: bool, terminated: bool, phase: Phase,
                           tagged: bool, synced: bool, clean: bool)

  /** A request to the local memcached: answered, or lost before or after it took
      effect. */
  datatype Reply = Answered | Lost(applied: bool)

  datatype Event =
    | Reload(configOk: bool)        // SIGHUP
    | TriggerFull(configOk: bool)   // SIGUSR1
    | Terminate
    | Run(reply: Reply)             // the control thread's next step
    | Restart                       // of the local memcached
    | Crash                         // of this process, and its next start

  predicate LockFree(p: Phase) { p == Starting || p == Waiting }

  /** One step of the control thread. */
  function RunStep(s: System, reply: Reply): System {
    match s.phase
    case Starting => s.(phase := Top)
    case Waiting => s.(phase := Top)
    case Top =>
      if s.terminated then s.(phase := Ended)
      else
        var next := if s.fullRequested then Untagging else Polling(s.viewUpdated, false);
        s.(viewUpdated := false, fullRequested := false, phase := next)
    case Untagging =>
      s.(tagged := s.tagged && reply == Lost(false), phase := Polling(true, true))
    case Polling(resync, full) =>
      var outOfDate := reply == Answered && !s.tagged;
      if resync || outOfDate then s.(phase := Resyncing(full || outOfDate), clean := true)
      else s.(phase := Waiting)
    case Resyncing(full) => s.(phase := Tagging, synced := s.synced || (full && s.clean))
    case Tagging => s.(tagged := s.tagged || reply != Lost(false), phase := Top)
    case Ended => s
  }

  /** An event that cannot happen at the moment leaves everything as it is. */
  function Step(s: System, e: Event): System {
    match e
    case Reload(ok) => if LockFree(s.phase) then s.(viewUpdated := s.viewUpdated || ok) else s
    case TriggerFull(ok) =>
      if LockFree(s.phase) then s.(viewUpdated := s.viewUpdated || ok, fullRequested := true) else s
    case Terminate => if LockFree(s.phase) then s.(terminated := true) else s
    case Run(reply) => RunStep(s, reply)
    case Restart => s.(tagged := false, synced := false, clean := false)
    case Crash => s.(viewUpdated := false, fullRequested := false, terminated := false, phase := Starting)
  }

  function Exec(s: System, es: seq<Event>): System {
    if es == [] then s else Step(Exec(s, es[..|es| - 1]), es[|es| - 1])
  }

  /** The process just started, against a memcached that is tagged only if synced. */
  predicate Initial(s: System) {
    s.phase == Starting && !s.viewUpdated && !s.fullRequested && !s.terminated && (s.tagged ==> s.synced)
  }

  // ---------------------------------------------------------- tag soundness

  /** Local requests are answered, and memcached restarts only while the thread
      waits. */
  ghost predicate Calm(s: System, es: seq<Event>) {
    forall i :: 0 <= i < |es| ==>
      && (es[i].Run? ==> es[i].reply == Answered)
      && (es[i].Restart? ==> Exec(s, es[..i]).phase == Waiting)
  }

  predicate TagInvariant(s: System) {
    && (s.tagged ==> s.synced)
    && (s.phase.Polling? && s.phase.full ==> !s.tagged)
    && (s.phase.Resyncing? ==> (if s.phase.full then !s.tagged && s.clean else s.synced))
    && (s.phase == Tagging ==> s.synced)
  }

  /** In every calm run, crashes included, the tag is present only when a full
      resync has run to its end since the last restart of memcached; during a full
      resync there is no tag. */
  lemma {:induction false} TagSoundness(s: System, es: seq<Event>)
    requires Initial(s) && Calm(s, es)
    ensures TagInvariant(Exec(s, es))
  {
    hide Step;
    if es != [] {
      var n := |es| - 1;
      assert Calm(s, es[..n]) by {
        forall i | 0 <= i < n
          ensures es[..n][i].Restart? ==> Exec(s, es[..n][..i]).phase == Waiting
        {
          assert es[..n][..i] == es[..i];
        }
      }
      TagSoundness(s, es[..n]);
      TagStep(Exec(s, es[..n]), es[n]);
    }
  }

  lemma TagStep(s: System, e: Event)
    requires TagInvariant(s) && (e.Run? ==> e.reply == Answered) && (e.Restart? ==> s.phase == Waiting)
    ensures TagInvariant(Step(s, e))
  {
  }

  /** A run's last step is the end of a full resync. */
  predicate EndsFullResync(s: System, e: Event) {
    s.phase == Resyncing(true) && e.Run?
  }

  /** A full resync is still to come before the thread can wait. */
  predicate OwesFull(s: System) {
    && !s.tagged && s.phase != Waiting && s.phase != Tagging
    && (s.phase.Resyncing? ==> s.phase.full)
  }

  /** After a crash anywhere inside a full resync - while polling for it, running
      it, or before its tag is written - every calm continuation, further crashes
      included, runs a full resync to its end before the thread waits again. */
  lemma CrashRestartsFullResync(s: System, es: seq<Event>, later: seq<Event>) returns (i: nat)
    requires Initial(s) && Calm(s, es + [Crash] + later)
    requires
      var p := Exec(s, es).phase;
      (p.Polling? && p.full) || p == Resyncing(true) || (p == Tagging && !Exec(s, es).tagged)
    requires Exec(s, es + [Crash] + later).phase == Waiting
    ensures |es| < i < |es + [Crash] + later|
    ensures EndsFullResync(Exec(s, (es + [Crash] + later)[..i]), (es + [Crash] + later)[i])
  {
    var all := es + [Crash] + later;
    var n := |es| + 1;
    assert all[..|es|] == es && all[..n] == es + [Crash];
    assert Calm(s, es) by {
      forall j | 0 <= j < |es|
        ensures es[j] == all[j] && es[..j] == all[..j]
      {
      }
    }
    TagSoundness(s, es);
    assert (es + [Crash])[..|es|] == es;
    assert OwesFull(Exec(s, all[..n]));
    assert all[..|all|] == all;
    i := DebtIsPaid(s, all, n, |all|);
  }

  /** A debt of a full resync is only paid by one. */
  lemma {:induction false} DebtIsPaid(s: System, es: seq<Event>, start: nat, end: nat) returns (i: nat)
    requires start <= end <= |es| && Calm(s, es)
    requires OwesFull(Exec(s, es[..start])) && !OwesFull(Exec(s, es[..end]))
    ensures start <= i < end && EndsFullResync(Exec(s, es[..i]), es[i])
    decreases end
  {
    hide Step, OwesFull, EndsFullResync;
    assert start < end;
    assert es[..end][..end - 1] == es[..end - 1] && es[..end][end - 1] == es[end - 1];
    if OwesFull(Exec(s, es[..end - 1])) {
      i := end - 1;
      DebtStep(Exec(s, es[..i]), es[i]);
    } else {
      i := DebtIsPaid(s, es, start, end - 1);
    }
  }

  lemma DebtStep(s: System, e: Event)
    requires OwesFull(s) && !OwesFull(Step(s, e)) && (e.Run? ==> e.reply == Answered)
    ensures EndsFullResync(s, e)
  {
  }

  // --------------------------------------------------------- no lost trigger

  predicate Inside(p: Phase) { p == Untagging || p.Polling? || p.Resyncing? || p == Tagging }

  lemma FlagsStep(s: System, e: Event)
    requires Inside(s.phase) ==> !s.viewUpdated && !s.fullRequested
    ensures Inside(Step(s, e).phase) ==> !Step(s, e).viewUpdated && !Step(s, e).fullRequested
    ensures Step(s, e).phase == Waiting && s.phase != Waiting ==> !Step(s, e).viewUpdated && !Step(s, e).fullRequested
  {
    hide RunStep;
    if e.Run? {
      FlagsRunStep(s, e.reply);
    }
  }

  lemma FlagsRunStep(s: System, reply: Reply)
    requires Inside(s.phase) ==> !s.viewUpdated && !s.fullRequested
    ensures
      var s' := RunStep(s, reply);
      Inside(s'.phase) || (s'.phase == Waiting && s.phase != Waiting) ==> !s'.viewUpdated && !s'.fullRequested
  {
  }

  /** The thread has taken note of all requests once it is past the loop head. */
  lemma {:induction false} FlagsClearInside(s: System, es: seq<Event>)
    requires Initial(s)
    ensures Inside(Exec(s, es).phase) ==> !Exec(s, es).viewUpdated && !Exec(s, es).fullRequested
  {
    hide Step;
    if es != [] {
      FlagsClearInside(s, es[..|es| - 1]);
      FlagsStep(Exec(s, es[..|es| - 1]), es[|es| - 1]);
    }
  }

  /** In every run, whatever is lost or restarts: when the thread goes to wait, no
      request is pending. */
  lemma NothingPendingOnWait(s: System, es: seq<Event>, e: Event)
    requires Initial(s)
    requires Exec(s, es).phase != Waiting && Exec(s, es + [e]).phase == Waiting
    ensures !Exec(s, es + [e]).viewUpdated && !Exec(s, es + [e]).fullRequested
  {
    hide Step;
    FlagsClearInside(s, es);
    assert (es + [e])[..|es|] == es;
    FlagsStep(Exec(s, es), e);
  }

  /** A resync - a full one if `full` - is due before the thread waits again. */
  predicate Due(s: System, full: bool) {
    || s.fullRequested || (s.viewUpdated && !full)
    || s.phase == Untagging
    || (s.phase.Polling? && s.phase.resync && (full ==> s.phase.full))
    || (s.phase.Resyncing? && (full ==> s.phase.full))
  }

  /** What a signal asks for, if it is taken: a resync, or a full one. A reload whose
      configuration cannot be read asks for nothing. */
  predicate AsksFor(e: Event, full: bool) {
    if full then e.TriggerFull? else e == Reload(true) || e.TriggerFull?
  }

  /** Event `c` is a signal that is taken and asks for a resync, or a full one. */
  ghost predicate Asked(s: System, es: seq<Event>, full: bool, c: nat) {
    c < |es| && AsksFor(es[c], full) && LockFree(Exec(s, es[..c]).phase)
  }

  /** A signal that was taken is served by a resync before the thread next goes to
      wait - by a full one if it asks for one - unless the process crashes first. */
  lemma NoLostTrigger(s: System, es: seq<Event>, start: nat, full: bool) returns (i: nat)
    requires Initial(s) && Asked(s, es, full, start)
    requires forall j :: start < j < |es| ==> es[j] != Crash
    requires Exec(s, es[..|es| - 1]).phase != Waiting && Exec(s, es).phase == Waiting
    ensures start < i < |es| && es[i].Run? && Exec(s, es[..i]).phase.Resyncing?
    ensures full ==> Exec(s, es[..i]).phase.full
  {
    hide Step, Due;
    var n := |es| - 1;
    assert es[..|es|] == es && es[..n] + [es[n]] == es;
    assert es[..start + 1][..start] == es[..start];
    SignalIsDue(Exec(s, es[..start]), es[start], full);
    NothingPendingOnWait(s, es[..n], es[n]);
    NothingDueOnWait(Exec(s, es), full);
    i := DueIsServed(s, es, start + 1, |es|, full);
  }

  lemma SignalIsDue(s: System, e: Event, full: bool)
    requires AsksFor(e, full) && LockFree(s.phase)
    ensures Due(Step(s, e), full)
  {
  }

  lemma NothingDueOnWait(s: System, full: bool)
    requires s.phase == Waiting && !s.viewUpdated && !s.fullRequested
    ensures !Due(s, full)
  {
  }

  lemma {:induction false} DueIsServed(s: System, es: seq<Event>, start: nat, end: nat, full: bool) returns (i: nat)
    requires start <= end <= |es| && forall j :: start <= j < end ==> es[j] != Crash
    requires Due(Exec(s, es[..start]), full) && !Due(Exec(s, es[..end]), full)
    ensures start <= i < end && es[i].Run? && Exec(s, es[..i]).phase.Resyncing?
    ensures full ==> Exec(s, es[..i]).phase.full
    decreases end
  {
    hide Step, Due;
    assert start < end;
    assert es[..end][..end - 1] == es[..end - 1] && es[..end][end - 1] == es[end - 1];
    if Due(Exec(s, es[..end - 1]), full) {
      i := end - 1;
      DueStep(Exec(s, es[..i]), es[i], full);
    } else {
      i := DueIsServed(s, es, start, end - 1, full);
    }
  }

  lemma DueStep(s: System, e: Event, full: bool)
    requires Due(s, full) && !Due(Step(s, e), full) && e != Crash
    ensures e.Run? && s.phase.Resyncing? && (full ==> s.phase.full)
  {
  }

  // ------------------------------------------------------ no resync without cause

  /** A signal taken since the process started asks for a resync, or a full one. */
  ghost predicate HasCause(s: System, es: seq<Event>, full: bool) {
    exists c: nat :: Asked(s, es, full, c) && forall j :: c < j < |es| ==> es[j] != Crash
  }

  /** The flags, and what the thread has made of them, go back to signals. */
  predicate Caused(s: System, any: bool, full: bool) {
    && (s.viewUpdated || s.fullRequested ==> any) && (s.fullRequested ==> full)
    && (s.phase == Untagging ==> full)
    && (s.phase.Polling? ==> (s.phase.resync ==> any) && (s.phase.full ==> full))
  }

  lemma CausedStep(s: System, e: Event, any: bool, full: bool)
    requires Caused(s, any, full) && (full ==> any)
    ensures
      var any', full' := (e != Crash && any) || (AsksFor(e, false) && LockFree(s.phase)),
                         (e != Crash && full) || (AsksFor(e, true) && LockFree(s.phase));
      Caused(Step(s, e), any', full') && (full' ==> any')
  {
  }

  lemma CauseNext(s: System, es: seq<Event>, full: bool)
    requires es != []
    ensures
      var n := |es| - 1;
      HasCause(s, es, full) <==>
      (es[n] != Crash && HasCause(s, es[..n], full)) || (AsksFor(es[n], full) && LockFree(Exec(s, es[..n]).phase))
  {
    hide Exec;
    var n := |es| - 1;
    forall c: nat | c < n
      ensures Asked(s, es, full, c) <==> Asked(s, es[..n], full, c)
    {
      assert es[..n][..c] == es[..c] && es[..n][c] == es[c];
    }
    if AsksFor(es[n], full) && LockFree(Exec(s, es[..n]).phase) {
      assert Asked(s, es, full, n);
    }
    if c: nat :| Asked(s, es[..n], full, c) && (forall j :: c < j < n ==> es[..n][j] != Crash) && es[n] != Crash {
      assert Asked(s, es, full, c);
      assert forall j :: c < j < |es| ==> es[j] != Crash by {
        assert forall j :: c < j < n ==> es[..n][j] == es[j];
      }
    }
    if c: nat :| Asked(s, es, full, c) && forall j :: c < j < |es| ==> es[j] != Crash {
      assert c < n ==> Asked(s, es[..n], full, c);
    }
  }

  lemma {:induction false} EverythingIsCaused(s: System, es: seq<Event>)
    requires Initial(s)
    ensures Caused(Exec(s, es), HasCause(s, es, false), HasCause(s, es, true))
    ensures HasCause(s, es, true) ==> HasCause(s, es, false)
  {
    hide Step, Caused, HasCause, AsksFor;
    if es == [] {
      NothingAsked(s);
    } else {
      var n := |es| - 1;
      EverythingIsCaused(s, es[..n]);
      CausedStep(Exec(s, es[..n]), es[n], HasCause(s, es[..n], false), HasCause(s, es[..n], true));
      CauseNext(s, es, false);
      CauseNext(s, es, true);
    }
  }

  lemma NothingAsked(s: System)
    requires Initial(s)
    ensures !HasCause(s, [], false) && !HasCause(s, [], true) && Caused(s, false, false)
  {
  }

  /** In every run a resync begins only after a signal since the process started, or
      when a poll finds no tag; a full one only after a request for one, or when a
      poll finds no tag. */
  lemma NoResyncWithoutCause(s: System, es: seq<Event>, e: Event)
    requires Initial(s) && !Exec(s, es).phase.Resyncing? && Exec(s, es + [e]).phase.Resyncing?
    ensures e.Run? && Exec(s, es).phase.Polling?
    ensures HasCause(s, es, Exec(s, es + [e]).phase.full) || (e.reply == Answered && !Exec(s, es).tagged)
  {
    hide HasCause, Exec, Step;
    var longer := Then(s, es, e);
    EverythingIsCaused(s, es);
    ResyncBegins(Exec(s, es), e);
  }

  lemma ResyncBegins(s: System, e: Event)
    requires !s.phase.Resyncing? && Step(s, e).phase.Resyncing?
    ensures e.Run? && s.phase.Polling?
    ensures (e.reply == Answered && !s.tagged) || (s.phase.resync && Step(s, e).phase.full == s.phase.full)
  {
  }

  /** Once the tag is there and nobody asks for anything, polls and crashes of this
      process do not lead to a resync, whatever replies are lost. */
  lemma {:induction false} TaggedStaysIdle(s: System, es: seq<Event>)
    requires Initial(s) && s.tagged
    requires forall i :: 0 <= i < |es| ==> es[i].Run? || es[i] == Crash || es[i] == Reload(false)
    ensures
      var end := Exec(s, es);
      && end.tagged && !end.viewUpdated && !end.fullRequested && !end.terminated
      && (end.phase in {Starting, Top, Waiting} || end.phase == Polling(false, false))
  {
    if es != [] {
      TaggedStaysIdle(s, es[..|es| - 1]);
    }
  }

  // ------------------------------------------------------------------ termination

  /** Where the thread can be once it has been told to end. */
  predicate Ending(s: System) {
    s.terminated && s.phase in {Starting, Waiting, Top, Ended}
  }

  /** After the object has been told to terminate nothing more is begun, unless the
      process crashes and starts again. */
  lemma {:induction false} NoWorkAfterTermination(s: System, es: seq<Event>, start: nat, i: nat)
    requires start < i <= |es| && es[start] == Terminate && LockFree(Exec(s, es[..start]).phase)
    requires forall j :: start < j < i ==> es[j] != Crash
    ensures Ending(Exec(s, es[..i]))
    decreases i
  {
    hide Step, Ending;
    assert es[..i][..i - 1] == es[..i - 1];
    if i == start + 1 {
      EndingBegins(Exec(s, es[..start]));
    } else {
      NoWorkAfterTermination(s, es, start, i - 1);
      EndingStep(Exec(s, es[..i - 1]), es[i - 1]);
    }
  }

  lemma EndingBegins(s: System)
    requires LockFree(s.phase)
    ensures Ending(Step(s, Terminate))
  {
  }

  lemma EndingStep(s: System, e: Event)
    requires Ending(s) && e != Crash
    ensures Ending(Step(s, e))
  {
  }

  /** And then two steps of the thread are enough for it to end. */
  lemma TerminationEnds(s: System, first: Reply, second: Reply)
    requires Ending(s)
    ensures Step(Step(s, Run(first)), Run(second)).phase == Ended
  {
  }

  // ------------------------------------------- when the tag can be unsound

  /** What a pass through the loop meets: memcached restarts before the untag,
      before the poll, during the resync and before the tag, and the three replies. */
  datatype PassEnv = PassEnv(beforeUntag: bool, untag: Reply, beforePoll: bool, poll: Reply,
                             during: bool, beforeTag: bool, tag: Reply)

  function MaybeRestart(s: System, restart: bool): System {
    if restart then Step(s, Restart) else s
  }

  /** The pass up to the poll. */
  function BeforePoll(s: System, e: PassEnv): System {
    var s1 := MaybeRestart(Step(s, Run(Answered)), e.beforeUntag);
    var s2 := if s1.phase == Untagging then Step(s1, Run(e.untag)) else s1;
    MaybeRestart(s2, e.beforePoll)
  }

  /** The poll, and the resync and tag if they follow. */
  function FromPoll(s: System, e: PassEnv): System {
    var s1 := Step(s, Run(e.poll));
    if s1.phase.Resyncing? then
      var s2 := Step(MaybeRestart(s1, e.during), Run(Answered));
      Step(MaybeRestart(s2, e.beforeTag), Run(e.tag))
    else s1
  }

  /** One pass through the loop, as steps of the machine. */
  function Pass(s: System, e: PassEnv): System {
    FromPoll(BeforePoll(s, e), e)
  }

  lemma BeforePollIs(s: System, e: PassEnv)
    requires s.phase == Top && !s.terminated
    ensures
      var tagged := s.tagged && !e.beforeUntag && !e.beforePoll && (s.fullRequested ==> e.untag == Lost(false));
      var restarted := e.beforeUntag || e.beforePoll;
      BeforePoll(s, e) ==
      System(false, false, false, Polling(s.viewUpdated || s.fullRequested, s.fullRequested), tagged,
             s.synced && !restarted, s.clean && !restarted)
  {
  }

  lemma FromPollIs(s: System, e: PassEnv)
    requires s.phase.Polling?
    ensures
      var out := e.poll == Answered && !s.tagged;
      var full := s.phase.full || out;
      var restarted := e.during || e.beforeTag;
      FromPoll(s, e) ==
      if s.phase.resync || out then
        s.(phase := Top, tagged := (s.tagged && !restarted) || e.tag != Lost(false),
           synced := !restarted && (s.synced || full), clean := !restarted)
      else s.(phase := Waiting)
  {
  }

  /** Whether the pass runs a resync. */
  predicate PassResyncs(s: System, e: PassEnv) {
    || s.viewUpdated || s.fullRequested
    || (e.poll == Answered && (!s.tagged || e.beforeUntag || e.beforePoll))
  }

  /** Whether a full resync is asked for, or found to be needed. */
  predicate PassIsFull(s: System, e: PassEnv) {
    s.fullRequested || (e.poll == Answered && (!s.tagged || e.beforeUntag || e.beforePoll))
  }

  /** Exactly when a pass that starts with a sound tag ends with an unsound one:
      it resyncs and its tag gets written, and memcached restarted during the
      resync or before the tag, or the poll got no answer while no full resync was
      asked for and memcached was not in sync. */
  lemma UnsoundTagIff(s: System, e: PassEnv)
    requires s.phase == Top && !s.terminated && (s.tagged ==> s.synced)
    ensures Pass(s, e).tagged && !Pass(s, e).synced <==>
            && PassResyncs(s, e) && e.tag != Lost(false)
            && (|| e.during || e.beforeTag
                || (e.poll != Answered && !s.fullRequested && (!s.synced || e.beforeUntag || e.beforePoll)))
  {
    hide BeforePoll, FromPoll;
    BeforePollIs(s, e);
    FromPollIs(BeforePoll(s, e), e);
  }

  /** It does happen: memcached restarts during a minimal resync, and the run ends
      waiting with a tag but without a full resync since. */
  lemma UnsoundTagHappens(s: System)
    requires Initial(s) && s.tagged
    ensures exists es :: Exec(s, es).phase == Waiting && Exec(s, es).tagged && !Exec(s, es).synced
  {
    hide Exec;
    var go := Run(Answered);
    var es := [Reload(true), go, go, go, Restart, go, go, go, go];
    Unfold(s, es, 1);
    Unfold(s, es, 2);
    Unfold(s, es, 3);
    Unfold(s, es, 4);
    Unfold(s, es, 5);
    var s5 := Exec(s, es[..5]);
    assert s5 == s.(viewUpdated := false, phase := Resyncing(false), tagged := false, synced := false, clean := false);
    Unfold(s, es, 6);
    Unfold(s, es, 7);
    Unfold(s, es, 8);
    Unfold(s, es, 9);
    assert Exec(s, es[..9]).phase == Waiting;
  }

  lemma Unfold(s: System, es: seq<Event>, n: nat)
    requires 0 < n <= |es|
    ensures Exec(s, es[..n]) == Step(Exec(s, es[..n - 1]), es[n - 1])
    ensures n == 1 ==> Exec(s, es[..0]) == s
  {
    assert es[..n][..n - 1] == es[..n - 1];
  }

  /** A pass through the loop is a run of the machine. */
  lemma PassIsARun(s: System, e: PassEnv) returns (es: seq<Event>)
    ensures Exec(s, es) == Pass(s, e)
  {
    hide Step;
    es := Then(s, [], Run(Answered));
    es := ThenMaybeRestart(s, es, e.beforeUntag);
    if Exec(s, es).phase == Untagging {
      es := Then(s, es, Run(e.untag));
    }
    es := ThenMaybeRestart(s, es, e.beforePoll);
    es := Then(s, es, Run(e.poll));
    if Exec(s, es).phase.Resyncing? {
      es := ThenMaybeRestart(s, es, e.during);
      es := Then(s, es, Run(Answered));
      es := ThenMaybeRestart(s, es, e.beforeTag);
      es := Then(s, es, Run(e.tag));
    }
  }

  lemma Then(s: System, es: seq<Event>, e: Event) returns (longer: seq<Event>)
    ensures longer == es + [e] && Exec(s, longer) == Step(Exec(s, es), e)
  {
    hide Step;
    longer := es + [e];
    assert longer[..|es|] == es;
  }

  lemma ThenMaybeRestart(s: System, es: seq<Event>, restart: bool) returns (longer: seq<Event>)
    ensures Exec(s, longer) == MaybeRestart(Exec(s, es), restart)
  {
    hide Step;
    longer := es;
    if restart {
      longer := Then(s, es, Restart);
    }
  }

  /** A tag although no full resync ran since memcached last restarted. */
  predicate Unsound(s: System) { s.tagged && !s.synced }

  predicate Working(p: Phase) { p.Resyncing? || p == Tagging }

  /** Event `p` is a poll after which the thread has been at the resync, and at
      writing its tag, until point `t`. */
  ghost predicate SincePoll(s: System, es: seq<Event>, p: nat, t: nat)
    requires p < t <= |es|
  {
    && es[p].Run? && Exec(s, es[..p]).phase.Polling?
    && forall j :: p < j <= t ==> Working(Exec(s, es[..j]).phase)
  }

  ghost predicate RestartIn(es: seq<Event>, p: nat, t: nat)
    requires p < t <= |es|
  {
    exists j :: p < j < t && es[j] == Restart
  }

  /** Events `p` and `t` are the poll and the tag of one pass, the tag gets written,
      and memcached restarted in between, or the poll got no answer while no full
      resync was asked for and memcached was not in sync. */
  ghost predicate BadPass(s: System, es: seq<Event>, p: nat, t: nat)
    requires p < t < |es|
  {
    var polling := Exec(s, es[..p]);
    && SincePoll(s, es, p, t) && Exec(s, es[..t]).phase == Tagging && es[t].Run? && es[t].reply != Lost(false)
    && (RestartIn(es, p, t) || (es[p].reply != Answered && !polling.phase.full && !polling.synced))
  }

  /** How far a resync begun after a poll at `p` has put things right at `t`. */
  predicate Accounts(polling: System, reply: Reply, restarted: bool, s: System)
    requires polling.phase.Polling?
  {
    var full := polling.phase.full || (reply == Answered && !polling.tagged);
    && (s.phase.Resyncing? ==>
          s.phase.full == full && s.clean == !restarted && s.synced == (polling.synced && !restarted))
    && (s.phase == Tagging ==> s.synced == ((polling.synced || full) && !restarted))
  }

  lemma {:induction false} SincePollAccounts(s: System, es: seq<Event>, p: nat, t: nat)
    requires p < t <= |es| && SincePoll(s, es, p, t)
    ensures Accounts(Exec(s, es[..p]), es[p].reply, RestartIn(es, p, t), Exec(s, es[..t]))
    decreases t
  {
    hide Step, Accounts, Working;
    assert es[..t][..t - 1] == es[..t - 1];
    if t == p + 1 {
      AccountsFirst(Exec(s, es[..p]), es[p].reply);
    } else {
      SincePollAccounts(s, es, p, t - 1);
      AccountsStep(Exec(s, es[..p]), es[p].reply, RestartIn(es, p, t - 1), Exec(s, es[..t - 1]), es[t - 1]);
      assert RestartIn(es, p, t) <==> RestartIn(es, p, t - 1) || es[t - 1] == Restart;
    }
  }

  lemma AccountsFirst(polling: System, reply: Reply)
    requires polling.phase.Polling? && Working(Step(polling, Run(reply)).phase)
    ensures Accounts(polling, reply, false, Step(polling, Run(reply)))
  {
  }

  lemma AccountsStep(polling: System, reply: Reply, restarted: bool, s: System, e: Event)
    requires polling.phase.Polling? && Accounts(polling, reply, restarted, s)
    requires Working(s.phase) && Working(Step(s, e).phase)
    ensures Accounts(polling, reply, restarted || e == Restart, Step(s, e))
  {
  }

  lemma {:induction false} FindPoll(s: System, es: seq<Event>, t: nat) returns (p: nat)
    requires Initial(s) && t <= |es| && Working(Exec(s, es[..t]).phase)
    ensures p < t && SincePoll(s, es, p, t)
    decreases t
  {
    hide Step, Working;
    assert t > 0 by { NotWorkingAtFirst(s, es[..t]); }
    assert es[..t][..t - 1] == es[..t - 1];
    if Working(Exec(s, es[..t - 1]).phase) {
      p := FindPoll(s, es, t - 1);
    } else {
      p := t - 1;
      WorkBegins(Exec(s, es[..p]), es[p]);
    }
  }

  lemma NotWorkingAtFirst(s: System, es: seq<Event>)
    requires Initial(s) && Working(Exec(s, es).phase)
    ensures es != []
  {
  }

  lemma WorkBegins(s: System, e: Event)
    requires !Working(s.phase) && Working(Step(s, e).phase)
    ensures e.Run? && s.phase.Polling?
  {
  }

  lemma UnsoundStep(s: System, e: Event)
    requires !Unsound(s) && Unsound(Step(s, e))
    ensures e.Run? && e.reply != Lost(false) && s.phase == Tagging && !s.synced
  {
  }

  lemma {:induction false} UnsoundNeedsBadPass(s: System, es: seq<Event>, i: nat) returns (p: nat, t: nat)
    requires Initial(s) && i <= |es| && Unsound(Exec(s, es[..i]))
    ensures p < t < i && BadPass(s, es, p, t)
    decreases i
  {
    hide Step, SincePoll, RestartIn;
    assert i > 0;
    assert es[..i][..i - 1] == es[..i - 1];
    if Unsound(Exec(s, es[..i - 1])) {
      p, t := UnsoundNeedsBadPass(s, es, i - 1);
    } else {
      t := i - 1;
      UnsoundStep(Exec(s, es[..t]), es[t]);
      p := FindPoll(s, es, t);
      PollOf(s, es, p, t);
      SincePollAccounts(s, es, p, t);
      if Unsound(Exec(s, es[..p])) {
        p, t := UnsoundNeedsBadPass(s, es, p);
      }
    }
  }

  lemma PollOf(s: System, es: seq<Event>, p: nat, t: nat)
    requires p < t <= |es| && SincePoll(s, es, p, t)
    ensures es[p].Run? && Exec(s, es[..p]).phase.Polling?
  {
  }

  lemma BadPassIsUnsound(s: System, es: seq<Event>, p: nat, t: nat)
    requires p < t < |es| && BadPass(s, es, p, t)
    ensures Unsound(Exec(s, es[..t + 1]))
  {
    hide Exec, RestartIn;
    SincePollAccounts(s, es, p, t);
    var longer := Then(s, es[..t], es[t]);
    assert longer == es[..t + 1];
  }

  /** In every run, with signals, crashes, lost replies and restarts anywhere: the
      tag is sound at every point exactly if no pass is a bad one. */
  lemma TagSoundIff(s: System, es: seq<Event>)
    requires Initial(s)
    ensures (forall i :: 0 <= i <= |es| ==> !Unsound(Exec(s, es[..i]))) <==>
            (forall p, t :: 0 <= p < t < |es| ==> !BadPass(s, es, p, t))
  {
    hide Exec, BadPass, Unsound;
    if i :| 0 <= i <= |es| && Unsound(Exec(s, es[..i])) {
      var p, t := UnsoundNeedsBadPass(s, es, i);
    }
    if p, t :| 0 <= p < t < |es| && BadPass(s, es, p, t) {
      BadPassIsUnsound(s, es, p, t);
    }
  }

  // ----------------------------------------------------------- the object

  /** The flags and the local memcached's tag, as the program updates them. */
  class Astaire {
    var terminated: bool
    var viewUpdated: bool
    var fullRequested: bool
    var tagged: bool
    ghost var synced: bool
    ghost var clean: bool

    ghost function State(phase: Phase): System
      reads this
    {
      System(viewUpdated, fullRequested, terminated, phase, tagged, synced, clean)
    }

    /** `reload_config`, under the lock. */
    method ReloadConfig(configOk: bool)
      modifies this
      ensures State(Waiting) == Step(old(State(Waiting)), Reload(configOk))
      ensures viewUpdated == (old(viewUpdated) || configOk) && fullRequested == old(fullRequested)
    {
      if configOk {
        viewUpdated := true;
      }
    }

    /** `trigger_full_resync`, under the lock. */
    method TriggerFullResync(configOk: bool)
      modifies this
      ensures State(Waiting) == Step(old(State(Waiting)), TriggerFull(configOk))
      ensures viewUpdated == (old(viewUpdated) || configOk) && fullRequested
    {
      if configOk {
        viewUpdated := true;
      }
      fullRequested := true;
    }

    method MemcachedRestarts(restart: bool)
      modifies this`tagged, this`synced, this`clean
      ensures tagged == (old(tagged) && !restart) && synced == (old(synced) && !restart)
      ensures clean == (old(clean) && !restart)
    {
      if restart {
        tagged := false;
        synced, clean := false, false;
      }
    }

    /** The loop body up to the poll: the requests are taken note of, and for a full
        resync the tag is removed. */
    method TakeRequests(e: PassEnv) returns (resync: bool, full: bool)
      requires !terminated
      modifies this
      ensures State(Polling(resync, full)) == BeforePoll(old(State(Top)), e)
    {
      hide BeforePoll;
      BeforePollIs(State(Top), e);
      resync, full := false, false;
      if viewUpdated {
        viewUpdated := false;
        resync := true;
      }
      if fullRequested {
        fullRequested := false;
        resync, full := true, true;
        MemcachedRestarts(e.beforeUntag);
        if e.untag != Lost(false) {
          tagged := false;
        }
      } else {
        MemcachedRestarts(e.beforeUntag);
      }
      MemcachedRestarts(e.beforePoll);
    }

    /** A resync, and the tag after it. */
    method ResyncAndTag(full: bool, e: PassEnv)
      modifies this`tagged, this`synced, this`clean
      ensures tagged == ((old(tagged) && !e.during && !e.beforeTag) || e.tag != Lost(false))
      ensures synced == ((old(synced) || full) && !e.during && !e.beforeTag) && clean == (!e.during && !e.beforeTag)
    {
      clean := true;
      MemcachedRestarts(e.during);
      synced := synced || (full && clean);
      MemcachedRestarts(e.beforeTag);
      if e.tag != Lost(false) {
        tagged := true;
      }
    }

    /** The rest of the loop body: the poll, and the resync and the tag if need be. */
    method PollAndResync(asked: bool, askedFull: bool, e: PassEnv) returns (resync: bool, full: bool)
      modifies this
      ensures State(if resync then Top else Waiting) == FromPoll(old(State(Polling(asked, askedFull))), e)
      ensures resync <==> asked || (e.poll == Answered && !old(tagged))
      ensures full <==> askedFull || (e.poll == Answered && !old(tagged))
    {
      hide FromPoll;
      FromPollIs(State(Polling(asked, askedFull)), e);
      resync, full := asked, askedFull;
      if e.poll == Answered && !tagged {
        resync, full := true, true;
      }
      if resync {
        ResyncAndTag(full, e);
      }
    }

    /** The body of the control loop, up to the wait: it is one pass of the
        machine, and tells whether it did a resync and of what kind. */
    method ControlPass(e: PassEnv) returns (resync: bool, full: bool)
      requires !terminated
      modifies this
      ensures State(if resync then Top else Waiting) == Pass(old(State(Top)), e)
      ensures resync <==> PassResyncs(old(State(Top)), e)
      ensures full <==> PassIsFull(old(State(Top)), e)
      ensures !viewUpdated && !fullRequested
    {
      hide BeforePoll, FromPoll;
      BeforePollIs(State(Top), e);
      FromPollIs(BeforePoll(State(Top), e), e);
      resync, full := TakeRequests(e);
      resync, full := PollAndResync(resync, full, e);
    }
  }
}
