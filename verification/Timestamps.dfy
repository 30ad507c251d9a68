/** The timestamp kept in a record's flags: the low 32 bits of the time in
    milliseconds, compared by a signed 32-bit difference. C++ leaves the overflow
    of that difference undefined; here it wraps, as the machines do it. */
module Timestamps {
  import opened Bytes

  /** The signed reading of the low 32 bits. */
  function AsInt32(x: int): int {
    var low := x % 0x1_0000_0000;
    if low < 0x8000_0000 then low else low - 0x1_0000_0000
  }

  /** `((int32_t)a) - ((int32_t)b) < 0` */
  predicate Earlier(a: uint32, b: uint32) {
    AsInt32(AsInt32(a) - AsInt32(b)) < 0
  }

  /** The flags written at a time in milliseconds since the epoch. */
  function FlagsAt(ms: nat): uint32 { ms % 0x1_0000_0000 }

  /** A reading of the clock. */
  datatype TimeSpec = TimeSpec(sec: nat, nsec: nat)
  {
    function Millis(): nat { sec * 1000 + nsec / 1_000_000 }
  }

  /** How far `flags` lies after `base` on the circle of 32-bit values. */
  function Age(base: uint32, flags: uint32): nat { (flags - base) % 0x1_0000_0000 }

  /** `flags` belongs to the half circle that starts at `base`. */
  predicate InWindow(base: uint32, flags: uint32) { Age(base, flags) < 0x8000_0000 }

  /** What the comparison computes on all inputs. */
  lemma EarlierMeans(a: uint32, b: uint32)
    ensures Earlier(a, b) <==> (a - b) % 0x1_0000_0000 >= 0x8000_0000
    ensures Earlier(a, b) <==> (if a >= b then a - b >= 0x8000_0000 else b - a <= 0x8000_0000)
  {
    Wrapped(a - b);
  }

  /** A difference of two 32-bit values wraps at most once. */
  lemma Wrapped(d: int)
    requires -0x1_0000_0000 < d < 0x1_0000_0000
    ensures d % 0x1_0000_0000 == if d >= 0 then d else d + 0x1_0000_0000
  {
  }

  /** Within a window shorter than 2^31 ms it is the order of the ages... */
  lemma EarlierInWindow(base: uint32, a: uint32, b: uint32)
    requires InWindow(base, a) && InWindow(base, b)
    ensures Earlier(a, b) <==> Age(base, a) < Age(base, b)
    ensures a == b <==> Age(base, a) == Age(base, b)
  {
    hide Earlier;
    EarlierMeans(a, b);
    Wrapped(a - base);
    Wrapped(b - base);
  }

  /** Times that span less than 2^31 ms have their flags in the window of the first,
      at their true distances. */
  lemma WindowOfTimes(start: nat, t: nat)
    requires start <= t
    ensures t < start + 0x8000_0000 ==>
              InWindow(FlagsAt(start), FlagsAt(t)) && Age(FlagsAt(start), FlagsAt(t)) == t - start
    ensures start + 0x8000_0000 <= t < start + 0x1_0000_0000 ==> !InWindow(FlagsAt(start), FlagsAt(t))
  {
    SubMod(t, start);
    if t < start + 0x1_0000_0000 {
      Wrapped(t - start);
    }
  }

  /** ...and of the true times, also when the 32-bit value rolls over between
      them. For times exactly 2^31 ms apart the comparison says yes both ways. */
  lemma EarlierIsTimeOrder(s: nat, t: nat)
    ensures -0x8000_0000 < s - t < 0x8000_0000 ==> (Earlier(FlagsAt(s), FlagsAt(t)) <==> s < t)
    ensures s - t == 0x8000_0000 ==> Earlier(FlagsAt(s), FlagsAt(t)) && Earlier(FlagsAt(t), FlagsAt(s))
  {
    hide Earlier;
    EarlierMeans(FlagsAt(s), FlagsAt(t));
    EarlierMeans(FlagsAt(t), FlagsAt(s));
    SubMod(s, t);
    SubMod(t, s);
    if -0x1_0000_0000 < s - t < 0x1_0000_0000 {
      Wrapped(s - t);
      Wrapped(t - s);
    }
  }

  lemma SubMod(s: nat, t: nat)
    ensures (s % 0x1_0000_0000 - t % 0x1_0000_0000) % 0x1_0000_0000 == (s - t) % 0x1_0000_0000
  {
    var q, r := s / 0x1_0000_0000, t / 0x1_0000_0000;
    assert s - t == (s % 0x1_0000_0000 - t % 0x1_0000_0000) + (q - r) * 0x1_0000_0000;
  }

  /** On any set of times spanning less than 2^31 ms the comparison of flags is a
      strict total order, and it is the order of the times. */
  lemma StrictTotalOrder(times: set<nat>, start: nat)
    requires forall t :: t in times ==> start <= t < start + 0x8000_0000
    ensures forall s, t :: s in times && t in times ==> (Earlier(FlagsAt(s), FlagsAt(t)) <==> s < t)
    ensures forall t :: t in times ==> !Earlier(FlagsAt(t), FlagsAt(t))
    ensures forall s, t :: s in times && t in times && s != t ==>
              Earlier(FlagsAt(s), FlagsAt(t)) || Earlier(FlagsAt(t), FlagsAt(s))
    ensures forall r, s, t ::
              (r in times && s in times && t in times
               && Earlier(FlagsAt(r), FlagsAt(s)) && Earlier(FlagsAt(s), FlagsAt(t)))
              ==> Earlier(FlagsAt(r), FlagsAt(t))
  {
    forall s, t | s in times && t in times
      ensures Earlier(FlagsAt(s), FlagsAt(t)) <==> s < t
    {
      EarlierIsTimeOrder(s, t);
    }
  }

  /** Transitivity holds exactly if the two steps together go no further than half
      the circle. */
  lemma TransitiveIff(a: uint32, b: uint32, c: uint32)
    requires Earlier(a, b) && Earlier(b, c)
    ensures Earlier(a, c) <==> Age(a, b) + Age(b, c) <= 0x8000_0000
  {
    hide Earlier;
    EarlierMeans(a, b);
    EarlierMeans(b, c);
    EarlierMeans(a, c);
    Wrapped(b - a);
    Wrapped(c - b);
  }

  /** It does fail: three times around the circle. */
  lemma NotTransitiveAroundTheCircle()
    ensures Earlier(0, 0x6000_0000) && Earlier(0x6000_0000, 0xC000_0000) && !Earlier(0, 0xC000_0000)
  {
    hide Earlier;
    EarlierMeans(0, 0x6000_0000);
    EarlierMeans(0x6000_0000, 0xC000_0000);
    EarlierMeans(0, 0xC000_0000);
  }

  /** Where the subtraction does not overflow, wrapping changes nothing. */
  lemma AgreesWithPlainComparison(a: uint32, b: uint32)
    requires -0x8000_0000 <= AsInt32(a) - AsInt32(b) < 0x8000_0000
    ensures Earlier(a, b) <==> AsInt32(a) < AsInt32(b)
  {
  }
}
