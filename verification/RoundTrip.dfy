/** Which messages survive printing and parsing. */
module RoundTrip {
  import opened Bytes
  import opened Messages

  /** The limits of the length fields. */
  predicate Fits(m: Message) {
    |m.key| < 0x1_0000 && |m.Extra()| + |m.key| + |m.Value()| < 0x1_0000_0000
  }

  /** Classes and op codes for which the parser builds back what was printed.
      Left out are: a response to a GET whose status is an error but which carries
      flags (they are not printed), a GETK response, a SET or DELETE response and
      a VERSION response (parsed as plain responses), TAP_CONNECT (parsed as a plain
      request) and TAP_MUTATE (its printer writes neither extras nor value). */
  predicate Faithful(m: Message) {
    match m
    case BaseReq(op, _, _, _, _) =>
      op !in {TAP_MUTATE, GET, GETK, SET, ADD, REPLACE, DELETE, VERSION}
    case GetReq(op, _, _, _, _) => op == GET || op == GETK
    case DeleteReq(op, _, _, _, _) => op == DELETE
    case VersionReq(op, _, _, _, _) => op == VERSION
    case StoreReq(kind, op, _, _, _, _, _, _, _) => op == kind.OpCode()
    case TapMutateReq(_, _, _, _, _, _, _, _) => false
    case TapConnectReq(_, _, _, _, _, _) => false
    case BaseRsp(op, _, _, _, _) => op !in {GET, ADD, REPLACE}
    case StoreRsp(op, _, _, _, _) => op == ADD || op == REPLACE
    case DeleteRsp(_, _, _, _, _) => false
    case GetRsp(op, _, _, _, st, _, f) => op == GET && (f.Some? <==> st == NO_ERROR)
    case VersionRsp(_, _, _, _, _, _) => false
  }

  /** Every header field is read back as it was written, whatever follows. */
  lemma HeaderFields(m: Message, raw: Octets)
    requires Fits(m) && |raw| >= HEADER && raw[..HEADER] == Header(m)
    ensures RequestMagic(raw) == m.IsRequest() && OpCodeOf(raw) == m.opCode
    ensures KeyLength(raw) == |m.key| && ExtraLength(raw) == |m.Extra()|
    ensures VBucketOrStatusOf(raw) == m.VBucketOrStatus()
    ensures BodyLength(raw) == |m.Extra()| + |m.key| + |m.Value()|
    ensures OpaqueOf(raw) == m.opaqueId && CasOf(raw) == m.cas
  {
    hide Layout, Write16, Write32, Write64, Read16, Read32, Read64, Message.Extra, Message.Value;
    HeaderSlices(raw);
    WordRoundTrip16(|m.key|);
    WordRoundTrip16(m.VBucketOrStatus());
    WordRoundTrip32(|m.Extra()| + |m.key| + |m.Value()|);
    WordRoundTrip32(m.opaqueId);
    WordRoundTrip64(m.cas);
  }

  /** The fields of a buffer are those of its header. */
  lemma HeaderSlices(raw: Octets)
    requires |raw| >= HEADER
    ensures
      var h := raw[..HEADER];
      && raw[2..4] == h[2..4] && raw[6..8] == h[6..8] && raw[8..12] == h[8..12]
      && raw[12..16] == h[12..16] && raw[16..24] == h[16..24]
  {
  }

  /** Cutting a concatenation at the ends of its parts. */
  lemma Cut(h: Octets, e: Octets, k: Octets, v: Octets, t: Octets)
    ensures
      var raw := h + e + k + v + t;
      && raw[..|h|] == h && raw[|h|..|h| + |e|] == e
      && raw[|h| + |e|..|h| + |e| + |k|] == k
      && raw[|h| + |e| + |k|..|h| + |e| + |k| + |v|] == v
      && raw[|h| + |e| + |k| + |v|..] == t
  {
  }

  /** The sections after the header are cut at the right places. */
  lemma Sections(m: Message, tail: Octets)
    requires Fits(m)
    ensures
      var raw := ToWire(m) + tail;
      && |raw| >= HEADER && raw[..HEADER] == Header(m)
      && FrameSize(raw) == |ToWire(m)| && raw[FrameSize(raw)..] == tail
      && raw[HEADER..HEADER + |m.Extra()|] == m.Extra()
      && (WellFormed(raw) <==> NeededExtras(raw) <= |m.Extra()|)
      && (WellFormed(raw) ==> KeyOf(raw) == m.key && ValueOf(raw) == m.Value())
  {
    hide Header, Write16, Write32, Write64, Read16, Read32, Read64, Message.Extra, Message.Value;
    Cut(Header(m), m.Extra(), m.key, m.Value(), tail);
    HeaderFields(m, ToWire(m) + tail);
  }

  /** A slice of a slice. */
  lemma SliceOfSlice(s: Octets, lo: nat, hi: nat, a: nat, b: nat)
    requires lo <= hi <= |s| && a <= b <= hi - lo
    ensures s[lo + a..lo + b] == s[lo..hi][a..b]
  {
    var x, y := s[lo + a..lo + b], s[lo..hi][a..b];
    forall j | 0 <= j < b - a
      ensures x[j] == y[j]
    {
      assert s[lo..hi][a + j] == s[lo + (a + j)];
    }
    assert x == y;
  }

  /** The extras are a row of 32-bit words. */
  lemma ExtraWordOf(m: Message, tail: Octets, i: nat, w: uint32)
    requires Fits(m) && WellFormed(ToWire(m) + tail) && 4 * (i + 1) <= |m.Extra()|
    requires m.Extra()[4 * i..4 * i + 4] == Write32(w)
    ensures
      var raw := ToWire(m) + tail;
      |raw| >= FrameSize(raw) && ExtraLength(raw) == |m.Extra()| && ExtraWord(raw, i) == w
  {
    hide Header, ToWire, Write16, Write32, Write64, Read16, Read32, Read64, Message.Extra, Message.Value;
    var raw := ToWire(m) + tail;
    Sections(m, tail);
    HeaderFields(m, raw);
    WordRoundTrip32(w);
    SliceOfSlice(raw, HEADER, HEADER + |m.Extra()|, 4 * i, 4 * i + 4);
  }

  /** The parser inverts the printer exactly on the faithful messages: it gives
      back every field and leaves exactly the bytes that follow. */
  lemma MessageRoundTrip(m: Message, tail: Octets)
    requires Fits(m) && |ToWire(m)| + |tail| < 0x1_0000_0000
    ensures FromWire(ToWire(m) + tail) == Parsed(m, tail) <==> Faithful(m)
  {
    hide Header, ToWire, Write16, Write32, Write64, Read16, Read32, Read64;
    var raw := ToWire(m) + tail;
    Sections(m, tail);
    HeaderFields(m, raw);
    FromWireIsFrame(raw);
    if WellFormed(raw) {
      assert FromWire(raw) == Parsed(Decode(raw), tail);
      if m.StoreReq? {
        ExtraWordOf(m, tail, 0, m.flags);
        ExtraWordOf(m, tail, 1, m.expiry);
      } else if m.GetRsp? && m.status == NO_ERROR && m.readFlags.Some? {
        ExtraWordOf(m, tail, 0, m.readFlags.value);
      }
    }
  }

  /** A message that does not survive: the value of a GETK response is lost, as it is
      parsed as a plain response. */
  lemma GetkResponseLosesItsValue(key: Octets, opaqueId: uint32, cas: uint64, value: Octets, flags: uint32,
                                  tail: Octets)
    requires |key| < 0x1_0000 && HEADER + 4 + |key| + |value| + |tail| < 0x1_0000_0000
    ensures
      FromWire(ToWire(GetRsp(GETK, key, opaqueId, cas, NO_ERROR, value, Some(flags))) + tail) ==
      Parsed(BaseRsp(GETK, key, opaqueId, cas, NO_ERROR), tail)
  {
    hide Header, ToWire, Write16, Write32, Write64, Read16, Read32, Read64;
    var m := GetRsp(GETK, key, opaqueId, cas, NO_ERROR, value, Some(flags));
    var raw := ToWire(m) + tail;
    Sections(m, tail);
    HeaderFields(m, raw);
    FromWireIsFrame(raw);
  }

  /** Even where the class is lost, a printed packet is always framed: the parser
      takes exactly its bytes off the buffer, or overruns it (TAP_MUTATE only). */
  lemma PrintedPacketIsFramed(m: Message, tail: Octets)
    requires Fits(m) && |ToWire(m)| + |tail| < 0x1_0000_0000
    requires m.StoreReq? ==> m.opCode == m.kind.OpCode()
    requires m.BaseReq? || m.TapConnectReq? ==> m.opCode !in {TAP_MUTATE, SET, ADD, REPLACE}
    requires m.GetReq? ==> m.opCode in {GET, GETK}
    requires m.DeleteReq? ==> m.opCode == DELETE
    requires m.VersionReq? ==> m.opCode == VERSION
    requires m.TapMutateReq? ==> m.opCode == TAP_MUTATE
    ensures FromWire(ToWire(m) + tail) == Undefined <==> m.TapMutateReq?
    ensures !m.TapMutateReq? ==> FromWire(ToWire(m) + tail).Parsed? && FromWire(ToWire(m) + tail).rest == tail
  {
    hide Header, ToWire, Write16, Write32, Write64, Read16, Read32, Read64;
    var raw := ToWire(m) + tail;
    Sections(m, tail);
    HeaderFields(m, raw);
    FromWireIsFrame(raw);
  }
}
