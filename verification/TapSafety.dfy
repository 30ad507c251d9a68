/** What taps may do to the local store, whatever clients, other taps and lost
    connections do in between. */
module TapSafety {
  import opened Bytes
  import opened Timestamps
  import opened Memcached
  import opened TapThreads

  /** What a thread remembers about the store when it is about to write. */
  ghost predicate TapSound(hash: Key -> int, node: Node, t: Tap) {
    && t.next <= |t.stream|
    && (t.phase.Getting? || t.phase.Adding? || t.phase.Replacing? ==> Accepts(hash, t.buckets, t.phase.m))
    && (t.phase.Replacing? ==>
          var Replacing(m, seen) := t.phase;
          && Earlier(seen.item.flags, m.flags) && 0 < seen.cas < node.nextCas
          && (m.key in node.store && node.store[m.key].cas == seen.cas ==> node.store[m.key] == seen))
  }

  ghost predicate Sound(hash: Key -> int, w: World) {
    w.node.Valid() && forall s :: s in w.taps ==> TapSound(hash, w.node, w.taps[s])
  }

  lemma InitialIsSound(hash: Key -> int, w: World)
    requires Initial(w)
    ensures Sound(hash, w)
  {
  }

  lemma StepEvolves(hash: Key -> int, w: World, a: Act)
    ensures Evolves(w.node, Step(hash, w, a).node)
    ensures w.node.Valid() ==> Step(hash, w, a).node.Valid()
    ensures Step(hash, w, a).taps.Keys == w.taps.Keys
  {
    hide Accepts, Earlier;
  }

  lemma SoundFrame(hash: Key -> int, node: Node, node': Node, t: Tap)
    requires TapSound(hash, node, t) && Evolves(node, node')
    ensures TapSound(hash, node', t)
  {
    hide Accepts, Earlier;
  }

  lemma TapStepSound(hash: Key -> int, node: Node, t: Tap, choice: Choice)
    requires node.Valid() && TapSound(hash, node, t)
    ensures TapSound(hash, TapStep(hash, node, t, choice).0, TapStep(hash, node, t, choice).1)
  {
    hide Accepts, Earlier;
  }

  lemma StepSound(hash: Key -> int, w: World, a: Act)
    requires Sound(hash, w)
    ensures Sound(hash, Step(hash, w, a))
  {
    hide TapSound, TapStep;
    var w' := Step(hash, w, a);
    StepEvolves(hash, w, a);
    forall s | s in w'.taps
      ensures TapSound(hash, w'.node, w'.taps[s])
    {
      if a.TapAct? && a.server == s {
        TapStepSound(hash, w.node, w.taps[s], a.choice);
      } else {
        SoundFrame(hash, w.node, w'.node, w.taps[s]);
      }
    }
  }

  lemma {:induction false} RunSound(hash: Key -> int, w: World, acts: seq<Act>)
    requires Sound(hash, w)
    ensures Sound(hash, Exec(hash, w, acts))
  {
    if acts != [] {
      RunSound(hash, w, acts[..|acts| - 1]);
      StepSound(hash, Exec(hash, w, acts[..|acts| - 1]), acts[|acts| - 1]);
    }
  }

  /** One tap step never removes a record, adds one only where there was none,
      overwrites only the record its GET returned, with a strictly later
      timestamp, and touches only accepted keys. */
  lemma TapStepIsSafe(hash: Key -> int, w: World, s: Server, choice: Choice, k: Key)
    requires Sound(hash, w) && s in w.taps
    ensures
      var before, after := w.node.store, Step(hash, w, TapAct(s, choice)).node.store;
      var phase := w.taps[s].phase;
      && (k in before ==> k in after)
      && (k !in before && k in after ==>
            phase.Adding? && phase.m.key == k && after[k].item == Item(phase.m.value, phase.m.flags, phase.m.expiry))
      && (k in before && after[k] != before[k] ==>
            && phase.Replacing? && phase.m.key == k && before[k] == phase.seen
            && after[k].item == Item(phase.m.value, phase.m.flags, phase.m.expiry)
            && Earlier(before[k].item.flags, after[k].item.flags))
      && (k in after && (k !in before || after[k] != before[k]) ==>
            VBucketForKey(hash, k) in w.taps[s].buckets && !IsAstaireKey(k))
  {
    hide Earlier;
    assert TapSound(hash, w.node, w.taps[s]);
  }

  /** A record whose CAS was handed out before point `i` of a run has not been
      touched since. */
  lemma {:induction false} UntouchedSince(hash: Key -> int, w: World, acts: seq<Act>, i: nat, k: Key)
    requires w.node.Valid() && i <= |acts|
    ensures Exec(hash, w, acts).node.Valid()
    ensures Exec(hash, w, acts[..i]).node.nextCas <= Exec(hash, w, acts).node.nextCas
    ensures
      var past, now := Exec(hash, w, acts[..i]).node, Exec(hash, w, acts).node;
      k in now.store && now.store[k].cas < past.nextCas ==> k in past.store && past.store[k] == now.store[k]
  {
    hide Step;
    if i == |acts| {
      assert acts[..i] == acts;
      if i > 0 {
        UntouchedSince(hash, w, acts[..i - 1], 0, k);
        StepEvolves(hash, Exec(hash, w, acts[..i - 1]), acts[i - 1]);
      }
    } else {
      var n := |acts| - 1;
      UntouchedSince(hash, w, acts[..n], i, k);
      assert acts[..n][..i] == acts[..i];
      StepEvolves(hash, Exec(hash, w, acts[..n]), acts[n]);
    }
  }

  /** A thread gets to write only by an answered GET. */
  lemma WriteFollowsGet(hash: Key -> int, node: Node, t: Tap, choice: Choice)
    ensures
      var phase := TapStep(hash, node, t, choice).1.phase;
      && (phase.Adding? || phase.Replacing? ==> t.phase == Getting(phase.m) && choice == Answered)
      && (phase.Adding? ==> phase.m.key !in node.store)
      && (phase.Replacing? ==> phase.m.key in node.store && node.store[phase.m.key] == phase.seen)
  {
    hide Accepts, Earlier;
  }

  /** A thread about to replace has a GET behind it, after which it has not moved. */
  lemma {:induction false} ReadPoint(hash: Key -> int, w: World, acts: seq<Act>, s: Server) returns (g: nat)
    requires Initial(w) && s in Exec(hash, w, acts).taps && Exec(hash, w, acts).taps[s].phase.Replacing?
    ensures g < |acts| && acts[g] == TapAct(s, Answered)
    ensures
      var at, phase := Exec(hash, w, acts[..g]), Exec(hash, w, acts).taps[s].phase;
      && s in at.taps && at.taps[s].phase == Getting(phase.m)
      && phase.m.key in at.node.store && at.node.store[phase.m.key] == phase.seen
    ensures forall j :: g < j < |acts| ==> !(acts[j].TapAct? && acts[j].server == s)
  {
    hide TapStep;
    assert acts != [];
    var n := |acts| - 1;
    if acts[n].TapAct? && acts[n].server == s {
      g := n;
      var now := Exec(hash, w, acts[..n]);
      WriteFollowsGet(hash, now.node, now.taps[s], acts[n].choice);
    } else {
      g := ReadPoint(hash, w, acts[..n], s);
      assert acts[..n][..g] == acts[..g];
    }
  }

  /** In every run: a record that a tap overwrites is the very record its GET
      returned; that record was older than the new one and stood untouched at
      every moment between the GET and the write. So no write by anyone that lands
      after a tap's GET is overwritten by that tap. */
  lemma OverwritesOnlyWhatItRead(hash: Key -> int, w: World, acts: seq<Act>, s: Server, choice: Choice, k: Key)
    returns (g: nat)
    requires Initial(w) && s in w.taps
    requires
      var now := Exec(hash, w, acts);
      var next := Exec(hash, w, acts + [TapAct(s, choice)]);
      k in now.node.store && (k !in next.node.store || next.node.store[k] != now.node.store[k])
    ensures g < |acts| && acts[g] == TapAct(s, Answered)
    ensures forall j :: g < j < |acts| ==> !(acts[j].TapAct? && acts[j].server == s)
    ensures
      var at := Exec(hash, w, acts[..g]);
      && s in at.taps && at.taps[s].phase.Getting? && at.taps[s].phase.m.key == k
      && k in at.node.store && Earlier(at.node.store[k].item.flags, at.taps[s].phase.m.flags)
    ensures forall j :: g <= j <= |acts| ==>
              && k in Exec(hash, w, acts[..j]).node.store
              && Exec(hash, w, acts[..j]).node.store[k] == Exec(hash, w, acts).node.store[k]
  {
    hide Step, Earlier;
    InitialIsSound(hash, w);
    RunSound(hash, w, acts);
    ExecSnoc(hash, w, acts, TapAct(s, choice));
    SameTaps(hash, w, acts);
    TapStepIsSafe(hash, Exec(hash, w, acts), s, choice, k);
    g := ReadPoint(hash, w, acts, s);
    RunSound(hash, w, acts[..g]);
    forall j | g <= j <= |acts|
      ensures k in Exec(hash, w, acts[..j]).node.store
      ensures Exec(hash, w, acts[..j]).node.store[k] == Exec(hash, w, acts).node.store[k]
    {
      UntouchedSince(hash, w, acts[..j], g, k);
      assert acts[..j][..g] == acts[..g];
      UntouchedSince(hash, w, acts, j, k);
    }
  }

  /** A thread about to add has a GET behind it that found no record, after which
      it has not moved. */
  lemma {:induction false} MissPoint(hash: Key -> int, w: World, acts: seq<Act>, s: Server) returns (g: nat)
    requires Initial(w) && s in Exec(hash, w, acts).taps && Exec(hash, w, acts).taps[s].phase.Adding?
    ensures g < |acts| && acts[g] == TapAct(s, Answered)
    ensures
      var at, phase := Exec(hash, w, acts[..g]), Exec(hash, w, acts).taps[s].phase;
      s in at.taps && at.taps[s].phase == Getting(phase.m) && phase.m.key !in at.node.store
    ensures IdleSince(acts, s, g + 1)
  {
    hide TapStep;
    assert acts != [];
    var n := |acts| - 1;
    if acts[n].TapAct? && acts[n].server == s {
      g := n;
      var now := Exec(hash, w, acts[..n]);
      WriteFollowsGet(hash, now.node, now.taps[s], acts[n].choice);
    } else {
      g := MissPoint(hash, w, acts[..n], s);
      assert acts[..n][..g] == acts[..g];
    }
  }

  /** The thread of `s` has not moved from act `i` on. */
  ghost predicate IdleSince(acts: seq<Act>, s: Server, i: nat) {
    forall j :: i <= j < |acts| ==> !(acts[j].TapAct? && acts[j].server == s)
  }

  /** In every run: a record that a tap adds was absent when its GET was answered,
      and is absent just before the write. In between it may have come and gone. */
  lemma AddsOnlyWhatWasAbsent(hash: Key -> int, w: World, acts: seq<Act>, s: Server, choice: Choice, k: Key)
    returns (g: nat)
    requires Initial(w) && s in w.taps
    requires
      var now := Exec(hash, w, acts);
      var next := Exec(hash, w, acts + [TapAct(s, choice)]);
      k !in now.node.store && k in next.node.store
    ensures g < |acts| && acts[g] == TapAct(s, Answered) && IdleSince(acts, s, g + 1)
    ensures
      var at := Exec(hash, w, acts[..g]);
      && s in at.taps && at.taps[s].phase.Getting? && at.taps[s].phase.m.key == k && k !in at.node.store
      && var m := at.taps[s].phase.m;
        Exec(hash, w, acts + [TapAct(s, choice)]).node.store[k].item == Item(m.value, m.flags, m.expiry)
  {
    hide Step, Earlier, IdleSince;
    InitialIsSound(hash, w);
    RunSound(hash, w, acts);
    ExecSnoc(hash, w, acts, TapAct(s, choice));
    SameTaps(hash, w, acts);
    TapStepIsSafe(hash, Exec(hash, w, acts), s, choice, k);
    g := MissPoint(hash, w, acts, s);
  }

  lemma {:induction false} SameTaps(hash: Key -> int, w: World, acts: seq<Act>)
    ensures Exec(hash, w, acts).taps.Keys == w.taps.Keys
  {
    hide Step;
    if acts != [] {
      SameTaps(hash, w, acts[..|acts| - 1]);
      StepEvolves(hash, Exec(hash, w, acts[..|acts| - 1]), acts[|acts| - 1]);
    }
  }

  /** Over a whole run in which clients leave key `k` alone, taps neither write nor
      remove it if it is one of Astaire's own, the tag among them, or belongs to a
      bucket that is not tapped. */
  lemma {:induction false} OtherKeysUntouched(hash: Key -> int, w: World, acts: seq<Act>, k: Key)
    requires Initial(w)
    requires forall j :: 0 <= j < |acts| ==> acts[j].TapAct? || acts[j].key != k
    requires IsAstaireKey(k) || (forall s :: s in w.taps ==> VBucketForKey(hash, k) !in w.taps[s].buckets)
    ensures k in Exec(hash, w, acts).node.store <==> k in w.node.store
    ensures k in w.node.store ==> Exec(hash, w, acts).node.store[k] == w.node.store[k]
  {
    hide TapSound, IsAstaireKey, VBucketForKey, Earlier, TapStep;
    if acts != [] {
      var n := |acts| - 1;
      OtherKeysUntouched(hash, w, acts[..n], k);
      SameTaps(hash, w, acts[..n]);
      if acts[n].TapAct? && acts[n].server in w.taps {
        InitialIsSound(hash, w);
        RunSound(hash, w, acts[..n]);
        TapConstants(hash, w, acts[..n], acts[n].server);
        TapStepIsSafe(hash, Exec(hash, w, acts[..n]), acts[n].server, acts[n].choice, k);
      }
    }
  }

  /** The tag, above all, is never written or removed by a tap. */
  lemma TagUntouched(hash: Key -> int, w: World, acts: seq<Act>)
    requires Initial(w)
    requires forall j :: 0 <= j < |acts| ==> acts[j].TapAct? || acts[j].key != ASTAIRE_TAG_KEY
    ensures Exec(hash, w, acts).node.Entry(ASTAIRE_TAG_KEY) == w.node.Entry(ASTAIRE_TAG_KEY)
  {
    hide Exec, Initial;
    assert IsAstaireKey(ASTAIRE_TAG_KEY);
    OtherKeysUntouched(hash, w, acts, ASTAIRE_TAG_KEY);
  }

  /** Over a whole run in which clients leave key `k` alone, the record under `k`
      never goes away and its timestamp never goes back. */
  lemma {:induction false} TapsNeverLower(hash: Key -> int, w: World, acts: seq<Act>, k: Key, base: uint32)
    requires Initial(w) && k in w.node.store
    requires forall j :: 0 <= j < |acts| ==> acts[j].TapAct? || acts[j].key != k
    requires InWindow(base, w.node.store[k].item.flags)
    requires forall s :: s in w.taps ==>
               forall m :: m in w.taps[s].stream && m.TapMutateReq? ==> InWindow(base, m.flags)
    ensures k in Exec(hash, w, acts).node.store
    ensures Age(base, w.node.store[k].item.flags) <= Age(base, Exec(hash, w, acts).node.store[k].item.flags)
    ensures InWindow(base, Exec(hash, w, acts).node.store[k].item.flags)
  {
    hide Accepts, Earlier, InWindow, Age;
    if acts != [] {
      var n := |acts| - 1;
      TapsNeverLower(hash, w, acts[..n], k, base);
      var now := Exec(hash, w, acts[..n]);
      if acts[n].TapAct? && acts[n].server in w.taps {
        var s := acts[n].server;
        InitialIsSound(hash, w);
        RunSound(hash, w, acts[..n]);
        SameTaps(hash, w, acts[..n]);
        TapConstants(hash, w, acts[..n], s);
        TapStepIsSafe(hash, now, s, acts[n].choice, k);
        if now.taps[s].phase.Replacing? {
          assert now.taps[s].phase.m in w.taps[s].stream;
          EarlierInWindowIf(base, now.node.store[k].item.flags, now.taps[s].phase.m.flags);
        }
      } else {
        SameTaps(hash, w, acts[..n]);
      }
    }
  }

  lemma EarlierInWindowIf(base: uint32, a: uint32, b: uint32)
    requires InWindow(base, a) && InWindow(base, b)
    ensures Earlier(a, b) ==> Age(base, a) < Age(base, b)
  {
    EarlierInWindow(base, a, b);
  }

  /** A thread's task never changes, and what it works on comes from its stream. */
  lemma {:induction false} TapConstants(hash: Key -> int, w: World, acts: seq<Act>, s: Server)
    requires Initial(w) && s in w.taps
    ensures s in Exec(hash, w, acts).taps
    ensures
      var t0, t := w.taps[s], Exec(hash, w, acts).taps[s];
      && t.buckets == t0.buckets && t.reachable == t0.reachable && t.stream == t0.stream && t.ending == t0.ending
      && (t.phase.Getting? || t.phase.Adding? || t.phase.Replacing? ==> t.phase.m in t0.stream)
  {
    hide TapStep;
    if acts != [] {
      var n := |acts| - 1;
      TapConstants(hash, w, acts[..n], s);
      if acts[n].TapAct? && acts[n].server == s {
        var now := Exec(hash, w, acts[..n]);
        StepConstants(hash, now.node, now.taps[s], acts[n].choice);
      }
    }
  }

  lemma StepConstants(hash: Key -> int, node: Node, t: Tap, choice: Choice)
    ensures
      var t' := TapStep(hash, node, t, choice).1;
      && t'.buckets == t.buckets && t'.reachable == t.reachable && t'.stream == t.stream && t'.ending == t.ending
      && (t'.phase.Getting? || t'.phase.Adding? || t'.phase.Replacing? ==>
            t'.phase.m in t.stream || (t.phase.Getting? && t.phase.m == t'.phase.m))
  {
    hide Accepts, Earlier;
  }
}
