/** What a tap reports at its end, whatever the local node and the clients do. */
module TapReports {
  import opened Messages
  import opened Connections
  import opened Memcached
  import opened TapThreads
  import opened TapSafety

  /** The exchange failed: no connection, no answer to a GET, or the connection lost
      over an ADD or a REPLACE. A refusal of these is not noticed. */
  predicate Fails(phase: Phase, choice: Choice) {
    match phase
    case Connecting => choice != Answered
    case Getting(_) => choice != Answered
    case Adding(_) => choice.Lost?
    case Replacing(_, _) => choice.Lost?
    case _ => false
  }

  /** Act `j` is a failed exchange of the thread for `s`. */
  ghost predicate FailedAt(hash: Key -> int, w: World, acts: seq<Act>, s: Server, j: nat)
    requires s in w.taps && j < |acts|
  {
    SameTaps(hash, w, acts[..j]);
    acts[j].TapAct? && acts[j].server == s && Fails(Exec(hash, w, acts[..j]).taps[s].phase, acts[j].choice)
  }

  ghost predicate Failed(hash: Key -> int, w: World, acts: seq<Act>, s: Server)
    requires s in w.taps
  {
    exists j :: 0 <= j < |acts| && FailedAt(hash, w, acts, s, j)
  }

  ghost predicate OnlyMutations(stream: seq<Message>, n: nat)
    requires n <= |stream|
  {
    forall i :: 0 <= i < n ==> stream[i].TapMutateReq?
  }

  /** What the server deserves: it could be reached, streamed nothing but mutations
      and closed in order. */
  ghost predicate Deserved(t: Tap) {
    t.reachable && t.ending == Closed && OnlyMutations(t.stream, |t.stream|)
  }

  /** The thread has nothing more to receive: it never got a connection, or it has met
      a message that is no mutation, or the end of the stream. */
  ghost predicate Drained(t: Tap, failed: bool) {
    || (t.next == 0 && (!t.reachable || failed))
    || (t.next == |t.stream| && OnlyMutations(t.stream, t.next))
    || (0 < t.next <= |t.stream| && !t.stream[t.next - 1].TapMutateReq? && OnlyMutations(t.stream, t.next - 1))
  }

  /** How far a thread has come, and what it would report. */
  ghost predicate OnCourse(t: Tap, failed: bool) {
    match t.phase
    case Connecting => !failed && t.next == 0 && !t.success
    case Finished => (t.success <==> Deserved(t) && !failed) && Drained(t, failed)
    case _ => t.reachable && t.success == !failed && t.next <= |t.stream| && OnlyMutations(t.stream, t.next)
  }

  lemma CourseStep(hash: Key -> int, node: Node, t: Tap, choice: Choice, failed: bool)
    requires OnCourse(t, failed)
    ensures OnCourse(TapStep(hash, node, t, choice).1, failed || Fails(t.phase, choice))
  {
    hide Accepts;
  }

  lemma FailedNext(hash: Key -> int, w: World, acts: seq<Act>, s: Server)
    requires s in w.taps && acts != []
    ensures Failed(hash, w, acts, s) <==>
            Failed(hash, w, acts[..|acts| - 1], s) || FailedAt(hash, w, acts, s, |acts| - 1)
  {
    hide Exec, Fails;
    var n := |acts| - 1;
    forall j | 0 <= j < n
      ensures FailedAt(hash, w, acts, s, j) <==> FailedAt(hash, w, acts[..n], s, j)
    {
      assert acts[..n][..j] == acts[..j] && acts[..n][j] == acts[j];
    }
  }

  lemma {:induction false} RunOnCourse(hash: Key -> int, w: World, acts: seq<Act>, s: Server)
    requires Initial(w) && s in w.taps
    ensures s in Exec(hash, w, acts).taps && OnCourse(Exec(hash, w, acts).taps[s], Failed(hash, w, acts, s))
  {
    hide TapStep, OnCourse, Fails, Failed;
    if acts == [] {
      CourseBegins(hash, w, s);
    } else {
      var n := |acts| - 1;
      RunOnCourse(hash, w, acts[..n], s);
      FailedNext(hash, w, acts, s);
      var now := Exec(hash, w, acts[..n]);
      if acts[n].TapAct? && acts[n].server == s {
        CourseStep(hash, now.node, now.taps[s], acts[n].choice, Failed(hash, w, acts[..n], s));
      }
    }
  }

  lemma CourseBegins(hash: Key -> int, w: World, s: Server)
    requires Initial(w) && s in w.taps
    ensures OnCourse(w.taps[s], Failed(hash, w, [], s))
  {
  }

  /** In every run, whatever clients do and the local node answers, refuses or loses:
      a thread that has ended reports success exactly if its server deserves it and
      none of its exchanges failed; and it has not ended before its stream did, or a
      message that is no mutation came, unless it never got a connection. */
  lemma ReportIsExact(hash: Key -> int, w: World, acts: seq<Act>, s: Server)
    requires Initial(w) && s in w.taps
    ensures s in Exec(hash, w, acts).taps
    ensures
      var t, t0 := Exec(hash, w, acts).taps[s], w.taps[s];
      t.phase == Finished ==>
        && (t.success <==>
              && t0.reachable && t0.ending == Closed
              && (forall i :: 0 <= i < |t0.stream| ==> t0.stream[i].TapMutateReq?)
              && !exists j :: 0 <= j < |acts| && FailedAt(hash, w, acts, s, j))
        && Drained(t, Failed(hash, w, acts, s)) && t.stream == t0.stream && t.reachable == t0.reachable
  {
    hide Exec, FailedAt;
    RunOnCourse(hash, w, acts, s);
    TapConstants(hash, w, acts, s);
  }
}
