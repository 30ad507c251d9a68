/** The packets byte by byte: which offset holds what, with the numbers of section 2
    (Packet Structure) and section 3 (Defined Values) of draft-stone-memcache-binary-01
    written out. */
module WireFormat {
  import opened Bytes
  import opened Messages
  import opened RoundTrip

  // ------------------------------------------------------------------- printing

  /** The header of every printed packet, by offset. */
  lemma PrintedHeader(m: Message)
    requires Fits(m)
    ensures
      var w := ToWire(m);
      && w[0] == (if m.IsResponse() then 0x81 else 0x80) && w[1] == m.opCode
      && Spelled(w[2..4]) == |m.key| && w[4] == |m.Extra()| && w[5] == 0
      && Spelled(w[6..8]) == (if m.IsResponse() then m.status else m.vbucket)
      && Spelled(w[8..12]) == |w| - 24
      && Spelled(w[12..16]) == m.opaqueId && Spelled(w[16..24]) == m.cas
  {
    hide Layout, Spelled, Write16, Write32, Write64, Message.Extra, Message.Value;
    var w, h := ToWire(m), Header(m);
    assert w[..24] == h;
    HeaderSlices(w);
    assert w[0] == h[0] && w[1] == h[1] && w[4] == h[4] && w[5] == h[5];
    WriteSpells(|m.key|, |w| - 24, m.cas);
    WriteSpells(m.VBucketOrStatus(), m.opaqueId, m.cas);
  }

  /** What follows the header: extras, key and value, by class. */
  lemma PrintedBody(m: Message)
    requires Fits(m)
    ensures
      var w, k := ToWire(m), |m.key|;
      && (m.StoreReq? ==>
            && Spelled(w[24..28]) == m.flags && Spelled(w[28..32]) == m.expiry
            && w[4] == 8 && w[32..32 + k] == m.key && w[32 + k..] == m.value)
      && (m.GetRsp? && m.status == NO_ERROR ==>
            && Spelled(w[24..28]) == (if m.readFlags.Some? then m.readFlags.value else 0)
            && w[4] == 4 && w[28..28 + k] == m.key && w[28 + k..] == m.value)
      && (m.GetRsp? && m.status != NO_ERROR ==> w[4] == 0 && w[24..24 + k] == m.key && w[24 + k..] == m.value)
      && (m.VersionRsp? ==> w[4] == 0 && w[24..24 + k] == m.key && w[24 + k..] == m.version)
      && (!m.StoreReq? && !m.GetRsp? && !m.VersionRsp? && !m.TapConnectReq? ==> w[4] == 0 && w[24..] == m.key)
  {
    hide Header, Spelled, Write16, Write32, Write64;
    PrintedHeader(m);
    var w, h, e, v := ToWire(m), Header(m), m.Extra(), m.Value();
    assert w + [] == w;
    Cut(h, e, m.key, v, []);
    assert w == h + e + m.key + v + [];
    if m.StoreReq? {
      WriteSpells(0, m.flags, 0);
      WriteSpells(0, m.expiry, 0);
      TwoWords(Write32(m.flags), Write32(m.expiry), w);
    } else if m.GetRsp? && m.status == NO_ERROR {
      WriteSpells(0, if m.readFlags.Some? then m.readFlags.value else 0, 0);
    } else if e == [] && v == [] {
      assert w[24..] == m.key;
    }
  }

  lemma TwoWords(a: Octets, b: Octets, w: Octets)
    requires |a| == |b| == 4 && |w| >= 32 && w[24..32] == a + b
    ensures w[24..28] == a && w[28..32] == b
  {
    SliceOfSlice(w, 24, 32, 0, 4);
    SliceOfSlice(w, 24, 32, 4, 8);
  }

  /** A request to tap: the flag for a dump, the flag for a list of buckets if there
      are any, and then their number and the buckets in order. */
  lemma PrintedTapConnect(buckets: seq<uint16>)
    requires |buckets| < 0x1_0000
    ensures
      var w := ToWire(TapConnect(buckets));
      && |w| == (if buckets == [] then 28 else 30 + 2 * |buckets|)
      && w[0] == 0x80 && w[1] == 0x40 && Spelled(w[2..4]) == 0 && w[4] == 4
      && Spelled(w[8..12]) == |w| - 24 && Spelled(w[24..28]) == (if buckets == [] then 2 else 2 + 4)
      && (buckets != [] ==> Spelled(w[28..30]) == |buckets|)
      && (forall i :: 0 <= i < |buckets| ==> Spelled(w[30 + 2 * i..32 + 2 * i]) == buckets[i])
  {
    hide Header, Spelled, Write16, Write32, Write64;
    var m := TapConnect(buckets);
    var w, h, e, v := ToWire(m), Header(m), m.Extra(), m.Value();
    BucketsLength(buckets);
    assert |v| == if buckets == [] then 0 else 2 + 2 * |buckets|;
    PrintedHeader(m);
    Cut(h, e, m.key, v, []);
    assert w == h + e + m.key + v + [];
    WriteSpells(|buckets|, if buckets == [] then 2 else 6, 0);
    if buckets != [] {
      assert w[28..] == v;
      TapConnectValue(buckets, v);
      assert w[28..30] == v[..2];
      forall i | 0 <= i < |buckets|
        ensures Spelled(w[30 + 2 * i..32 + 2 * i]) == buckets[i]
      {
        SliceOfSlice(w, 28, |w|, 2 + 2 * i, 4 + 2 * i);
      }
    }
  }

  lemma TapConnectValue(buckets: seq<uint16>, v: Octets)
    requires 0 < |buckets| < 0x1_0000 && v == Write16(|buckets|) + WriteBuckets(buckets)
    ensures |v| == 2 + 2 * |buckets| && v[..2] == Write16(|buckets|)
    ensures forall i :: 0 <= i < |buckets| ==> Spelled(v[2 + 2 * i..4 + 2 * i]) == buckets[i]
  {
    hide Spelled, Write16, WriteBuckets;
    BucketsLength(buckets);
    forall i | 0 <= i < |buckets|
      ensures Spelled(v[2 + 2 * i..4 + 2 * i]) == buckets[i]
    {
      BucketAfterCount(buckets, Write16(|buckets|), v, i);
    }
  }

  lemma BucketAfterCount(buckets: seq<uint16>, count: Octets, v: Octets, i: nat)
    requires |count| == 2 && v == count + WriteBuckets(buckets) && i < |buckets|
    ensures |v| == 2 + 2 * |buckets| && Spelled(v[2 + 2 * i..4 + 2 * i]) == buckets[i]
  {
    hide *;
    var rest, a := WriteBuckets(buckets), 2 * i;
    BucketAt(buckets, i);
    AfterCount(count, rest, a);
    WriteSpells(buckets[i], 0, 0);
    assert v[2 + a..4 + a] == rest[a..a + 2];
  }

  lemma AfterCount(count: Octets, rest: Octets, a: nat)
    requires |count| == 2 && a + 2 <= |rest|
    ensures (count + rest)[2 + a..4 + a] == rest[a..a + 2]
  {
  }

  lemma {:induction false} BucketsLength(bs: seq<uint16>)
    ensures |WriteBuckets(bs)| == 2 * |bs|
  {
    hide Write16;
    if bs != [] {
      BucketsLength(bs[1..]);
    }
  }

  lemma {:induction false} BucketAt(bs: seq<uint16>, i: nat)
    requires i < |bs|
    ensures |WriteBuckets(bs)| == 2 * |bs| && WriteBuckets(bs)[2 * i..2 * i + 2] == Write16(bs[i])
  {
    hide Write16;
    BucketsLength(bs);
    var w, rest := WriteBuckets(bs), WriteBuckets(bs[1..]);
    if i == 0 {
      assert w[..2] == Write16(bs[0]);
    } else {
      BucketAt(bs[1..], i - 1);
      assert w[2..] == rest;
      SliceOfSlice(w, 2, |w|, 2 * (i - 1), 2 * i);
    }
  }

  // -------------------------------------------------------------------- parsing

  /** The header fields of a buffer, by offset. */
  lemma ReadHeader(raw: Octets)
    requires |raw| >= 24
    ensures RequestMagic(raw) <==> raw[0] == 0x80
    ensures OpCodeOf(raw) == raw[1] && KeyLength(raw) == Spelled(raw[2..4]) && ExtraLength(raw) == raw[4]
    ensures VBucketOrStatusOf(raw) == Spelled(raw[6..8]) && FrameSize(raw) == 24 + Spelled(raw[8..12])
    ensures OpaqueOf(raw) == Spelled(raw[12..16]) && CasOf(raw) == Spelled(raw[16..24])
  {
    hide Read16, Read32, Read64, Spelled;
    ReadSpells16(raw[2..4]);
    ReadSpells16(raw[6..8]);
    ReadSpells32(raw[8..12]);
    ReadSpells32(raw[12..16]);
    ReadSpells64(raw[16..24]);
  }

  /** The fields all messages have, by offset. */
  lemma ParsedHeader(raw: Octets)
    requires Frame(raw).Parsed?
    ensures
      var m, e, k := Frame(raw).msg, raw[4], Spelled(raw[2..4]);
      && (m.IsRequest() <==> raw[0] == 0x80) && m.opCode == raw[1]
      && (if m.IsRequest() then m.vbucket else m.status) == Spelled(raw[6..8])
      && m.opaqueId == Spelled(raw[12..16]) && m.cas == Spelled(raw[16..24])
      && 24 + e + k <= 24 + Spelled(raw[8..12]) <= |raw|
      && m.key == raw[24 + e..24 + e + k] && Frame(raw).rest == raw[24 + Spelled(raw[8..12])..]
  {
    hide Read16, Read32, Read64, Spelled, ExtraWord;
    ReadHeader(raw);
  }

  /** The class of a message, by the numbers of the op codes. */
  lemma ParsedClass(raw: Octets)
    requires Frame(raw).Parsed?
    ensures
      var m, op := Frame(raw).msg, raw[1];
      if raw[0] == 0x80 then
        && (m.GetReq? <==> op == 0x00 || op == 0x0c)
        && (m.StoreReq? <==> op == 0x01 || op == 0x02 || op == 0x03)
        && (m.StoreReq? ==> m.kind == (if op == 0x01 then SetKind else if op == 0x02 then AddKind else ReplaceKind))
        && (m.DeleteReq? <==> op == 0x04) && (m.VersionReq? <==> op == 0x0b)
        && (m.TapMutateReq? <==> op == 0x41)
      else
        && (m.GetRsp? <==> op == 0x00) && (m.StoreRsp? <==> op == 0x02 || op == 0x03)
        && (m.BaseRsp? <==> op !in {0x00, 0x02, 0x03})
  {
    hide KeyOf, ValueOf, ExtraWord, OpaqueOf, CasOf, VBucketOrStatusOf, Read16, Read32, Read64, BodyLength, KeyLength;
  }

  /** Values, flags and expiries, by offset. */
  lemma ParsedBody(raw: Octets)
    requires Frame(raw).Parsed?
    ensures
      var m, e, k, n := Frame(raw).msg, raw[4], Spelled(raw[2..4]), Spelled(raw[8..12]);
      && 24 + e + k <= 24 + n <= |raw|
      && (m.StoreReq? ==>
            && 8 <= e && m.flags == Spelled(raw[24..28]) && m.expiry == Spelled(raw[28..32])
            && m.value == raw[24 + e + k..24 + n])
      && (m.TapMutateReq? ==>
            && 16 <= e && m.flags == Spelled(raw[32..36]) && m.expiry == Spelled(raw[36..40])
            && m.value == raw[24 + e + k..24 + n])
      && (m.GetRsp? ==>
            && m.value == raw[24 + e + k..24 + n]
            && m.readFlags == if e < 4 then None else Some(Spelled(raw[24..28])))
  {
    hide Read16, Read32, Read64, Spelled;
    ReadHeader(raw);
    forall i: nat | 4 * (i + 1) <= ExtraLength(raw)
      ensures ExtraWord(raw, i) == Spelled(raw[24 + 4 * i..24 + 4 * i + 4])
    {
      ReadSpells32(raw[24 + 4 * i..24 + 4 * i + 4]);
    }
  }

  // ----------------------------------------------------------------- TAP_MUTATE

  /** The packet in which a server streams a record: eight bytes the program does not
      look at, the record's flags and expiry, its key and its value. */
  function TapMutatePacket(engine: Octets, flags: uint32, expiry: uint32, key: Octets, value: Octets,
                           vbucket: uint16, opaqueId: uint32, cas: uint64): Octets
    requires |engine| == 8 && |key| < 0x1_0000 && 16 + |key| + |value| < 0x1_0000_0000
  {
    Layout(0x80, 0x41, Write16(|key|), 16, Write16(vbucket), Write32(16 + |key| + |value|), Write32(opaqueId),
           Write64(cas)) + (engine + Write32(flags) + Write32(expiry)) + key + value
  }

  /** It is parsed into exactly that record, and the bytes after it are left. */
  lemma TapMutateIsParsed(engine: Octets, flags: uint32, expiry: uint32, key: Octets, value: Octets,
                          vbucket: uint16, opaqueId: uint32, cas: uint64, tail: Octets)
    requires |engine| == 8 && |key| < 0x1_0000 && HEADER + 16 + |key| + |value| + |tail| < 0x1_0000_0000
    ensures
      var packet := TapMutatePacket(engine, flags, expiry, key, value, vbucket, opaqueId, cas);
      FromWire(packet + tail) ==
      Parsed(TapMutateReq(TAP_MUTATE, key, opaqueId, cas, vbucket, value, flags, expiry), tail)
  {
    hide Write16, Write32, Write64, Read16, Read32, Read64, Layout, Spelled, Decode;
    var h := Layout(0x80, 0x41, Write16(|key|), 16, Write16(vbucket), Write32(16 + |key| + |value|), Write32(opaqueId),
                    Write64(cas));
    var e := engine + Write32(flags) + Write32(expiry);
    var raw := TapMutatePacket(engine, flags, expiry, key, value, vbucket, opaqueId, cas) + tail;
    Cut(h, e, key, value, tail);
    assert raw == h + e + key + value + tail;
    TapMutateHeader(raw, |key|, vbucket, 16 + |key| + |value|, opaqueId, cas);
    ReadHeader(raw);
    assert WellFormed(raw);
    FromWireIsFrame(raw);
    ParsedHeader(raw);
    ParsedClass(raw);
    ParsedBody(raw);
    LastWords(raw, engine, Write32(flags), Write32(expiry));
    WriteSpells(0, flags, 0);
    WriteSpells(0, expiry, 0);
  }

  lemma TapMutateHeader(raw: Octets, k: uint16, vbucket: uint16, n: uint32, opaqueId: uint32, cas: uint64)
    requires |raw| >= 24
    requires raw[..24] ==
             Layout(0x80, 0x41, Write16(k), 16, Write16(vbucket), Write32(n), Write32(opaqueId), Write64(cas))
    ensures raw[0] == 0x80 && raw[1] == 0x41 && raw[4] == 16
    ensures Spelled(raw[2..4]) == k && Spelled(raw[6..8]) == vbucket && Spelled(raw[8..12]) == n
    ensures Spelled(raw[12..16]) == opaqueId && Spelled(raw[16..24]) == cas
  {
    hide Write16, Write32, Write64, Layout, Spelled;
    HeaderSlices(raw);
    var h := raw[..24];
    assert raw[0] == h[0] && raw[1] == h[1] && raw[4] == h[4];
    WriteSpells(k, n, cas);
    WriteSpells(vbucket, opaqueId, cas);
  }

  lemma LastWords(raw: Octets, engine: Octets, a: Octets, b: Octets)
    requires |engine| == 8 && |a| == |b| == 4 && |raw| >= 40 && raw[24..40] == engine + a + b
    ensures raw[32..36] == a && raw[36..40] == b
  {
    SliceOfSlice(raw, 24, 40, 8, 12);
    SliceOfSlice(raw, 24, 40, 12, 16);
  }
}
