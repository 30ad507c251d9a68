/** Messages of the memcached binary protocol: their classes, their printer
    (`to_wire`) and their parser (`from_wire`). The layout is that of section 2
    (Packet Structure) of draft-stone-memcache-binary-01. */
module Messages {
  import opened Bytes

  const GET: byte := 0x00
  const SET: byte := 0x01
  const ADD: byte := 0x02
  const REPLACE: byte := 0x03
  const DELETE: byte := 0x04
  const QUIT: byte := 0x07
  const VERSION: byte := 0x0b
  const GETK: byte := 0x0c
  const TAP_CONNECT: byte := 0x40
  const TAP_MUTATE: byte := 0x41

  const NO_ERROR: uint16 := 0x0000
  const KEY_NOT_FOUND: uint16 := 0x0001
  const KEY_EXISTS: uint16 := 0x0002
  const ITEM_NOT_STORED: uint16 := 0x0005
  const NOT_SUPPORTED: uint16 := 0x0083
  const TEMPORARY_FAILURE: uint16 := 0x0086

  /** Size of the fixed header. */
  const HEADER: nat := 24

  datatype StoreKind = SetKind | AddKind | ReplaceKind {
    function OpCode(): byte {
      match this
      case SetKind => SET
      case AddKind => ADD
      case ReplaceKind => REPLACE
    }
  }

  /** One constructor per message class. The flags of a `GetRsp` are `None` when
      it was parsed from a packet whose extras are too short to hold them: the
      program then reads memory of no defined content. */
  datatype Message =
    | BaseReq(opCode: byte, key: Octets, opaqueId: uint32, cas: uint64, vbucket: uint16)
    | GetReq(opCode: byte, key: Octets, opaqueId: uint32, cas: uint64, vbucket: uint16)
    | DeleteReq(opCode: byte, key: Octets, opaqueId: uint32, cas: uint64, vbucket: uint16)
    | VersionReq(opCode: byte, key: Octets, opaqueId: uint32, cas: uint64, vbucket: uint16)
    | StoreReq(kind: StoreKind, opCode: byte, key: Octets, opaqueId: uint32, cas: uint64, vbucket: uint16,
               value: Octets, flags: uint32, expiry: uint32)
    | TapMutateReq(opCode: byte, key: Octets, opaqueId: uint32, cas: uint64, vbucket: uint16,
                   value: Octets, flags: uint32, expiry: uint32)
    | TapConnectReq(opCode: byte, key: Octets, opaqueId: uint32, cas: uint64, vbucket: uint16,
                    buckets: seq<uint16>)
    | BaseRsp(opCode: byte, key: Octets, opaqueId: uint32, cas: uint64, status: uint16)
    | StoreRsp(opCode: byte, key: Octets, opaqueId: uint32, cas: uint64, status: uint16)
    | DeleteRsp(opCode: byte, key: Octets, opaqueId: uint32, cas: uint64, status: uint16)
    | GetRsp(opCode: byte, key: Octets, opaqueId: uint32, cas: uint64, status: uint16,
             value: Octets, readFlags: Option<uint32>)
    | VersionRsp(opCode: byte, key: Octets, opaqueId: uint32, cas: uint64, status: uint16,
                 version: Octets)
  {
    predicate IsResponse() {
      BaseRsp? || StoreRsp? || DeleteRsp? || GetRsp? || VersionRsp?
    }

    predicate IsRequest() { !IsResponse() }

    function VBucketOrStatus(): uint16 {
      if IsResponse() then status else vbucket
    }

    /** `generate_extra` */
    function Extra(): (e: Octets)
      ensures |e| <= 8
    {
      match this
      case StoreReq(_, _, _, _, _, _, _, f, x) => Write32(f) + Write32(x)
      case GetRsp(_, _, _, _, st, _, f) =>
        if st == NO_ERROR then Write32(if f.Some? then f.value else 0) else []
      case TapConnectReq(_, _, _, _, _, bs) => Write32(if bs == [] then 2 else 6)
      case _ => []
    }

    /** `generate_value` */
    function Value(): Octets {
      match this
      case StoreReq(_, _, _, _, _, _, v, _, _) => v
      case GetRsp(_, _, _, _, _, v, _) => v
      case VersionRsp(_, _, _, _, _, v) => v
      case TapConnectReq(_, _, _, _, _, bs) =>
        if bs == [] then [] else Write16(|bs| % 0x1_0000) + WriteBuckets(bs)
      case _ => []
    }
  }

  /** The request to tap the given buckets. */
  function TapConnect(buckets: seq<uint16>): Message {
    TapConnectReq(TAP_CONNECT, [], 0, 0, 0, buckets)
  }

  function WriteBuckets(bs: seq<uint16>): Octets {
    if bs == [] then [] else Write16(bs[0]) + WriteBuckets(bs[1..])
  }

  /** The header fields in their places; the data type byte is 0 (raw data). */
  function Layout(magic: byte, op: byte, keyLength: Octets, extraLength: byte, vbucketOrStatus: Octets,
                  bodyLength: Octets, opaqueId: Octets, cas: Octets): (h: Octets)
    requires |keyLength| == |vbucketOrStatus| == 2 && |bodyLength| == |opaqueId| == 4 && |cas| == 8
    ensures |h| == HEADER && h[0] == magic && h[1] == op && h[4] == extraLength && h[5] == 0
    ensures h[2..4] == keyLength && h[6..8] == vbucketOrStatus && h[8..12] == bodyLength
    ensures h[12..16] == opaqueId && h[16..24] == cas
  {
    var first := [magic, op] + keyLength + [extraLength, 0] + vbucketOrStatus;
    assert first[2..4] == keyLength && first[6..8] == vbucketOrStatus;
    var h := first + (bodyLength + opaqueId + cas);
    assert h[2..4] == first[2..4] && h[6..8] == first[6..8];
    assert h[8..] == bodyLength + opaqueId + cas;
    assert h[8..12] == h[8..][..4] && h[12..16] == h[8..][4..8] && h[16..24] == h[8..][8..16];
    h
  }

  /** The header of a message, with the lengths cut to the width they are
      written in. */
  function Header(m: Message): (h: Octets)
    ensures |h| == HEADER
  {
    var bodySize := |m.Extra()| + |m.key| + |m.Value()|;
    Layout(if m.IsRequest() then 0x80 else 0x81, m.opCode, Write16(|m.key| % 0x1_0000), |m.Extra()| % 0x100,
           Write16(m.VBucketOrStatus()), Write32(bodySize % 0x1_0000_0000), Write32(m.opaqueId), Write64(m.cas))
  }

  function ToWire(m: Message): (w: Octets)
    ensures |w| == HEADER + |m.Extra()| + |m.key| + |m.Value()|
  {
    Header(m) + m.Extra() + m.key + m.Value()
  }

  // Header fields of a buffer (`HDR_GET`).

  function OpCodeOf(raw: Octets): byte requires |raw| >= HEADER { raw[1] }

  function KeyLength(raw: Octets): uint16 requires |raw| >= HEADER { Read16(raw[2..4]) }

  function ExtraLength(raw: Octets): byte requires |raw| >= HEADER { raw[4] }

  function VBucketOrStatusOf(raw: Octets): uint16 requires |raw| >= HEADER { Read16(raw[6..8]) }

  function BodyLength(raw: Octets): uint32 requires |raw| >= HEADER { Read32(raw[8..12]) }

  function OpaqueOf(raw: Octets): uint32 requires |raw| >= HEADER { Read32(raw[12..16]) }

  function CasOf(raw: Octets): uint64 requires |raw| >= HEADER { Read64(raw[16..24]) }

  predicate RequestMagic(raw: Octets) requires |raw| >= HEADER { raw[0] == 0x80 }

  /** How many bytes the first packet of the buffer takes. */
  function FrameSize(raw: Octets): nat requires |raw| >= HEADER { HEADER + BodyLength(raw) }

  /** The extras a class reads without checking. */
  function NeededExtras(raw: Octets): nat
    requires |raw| >= HEADER
  {
    var op := OpCodeOf(raw);
    if !RequestMagic(raw) then 0
    else if op == TAP_MUTATE then 16
    else if op == SET || op == ADD || op == REPLACE then 8
    else 0
  }

  /** The packets on which the message constructors have a defined result. */
  predicate WellFormed(raw: Octets)
    requires |raw| >= HEADER
  {
    ExtraLength(raw) + KeyLength(raw) <= BodyLength(raw) && NeededExtras(raw) <= ExtraLength(raw)
  }

  function KeyOf(raw: Octets): Octets
    requires |raw| >= HEADER && WellFormed(raw) && |raw| >= FrameSize(raw)
  {
    raw[HEADER + ExtraLength(raw)..HEADER + ExtraLength(raw) + KeyLength(raw)]
  }

  function ValueOf(raw: Octets): Octets
    requires |raw| >= HEADER && WellFormed(raw) && |raw| >= FrameSize(raw)
  {
    raw[HEADER + ExtraLength(raw) + KeyLength(raw)..FrameSize(raw)]
  }

  /** The `i`-th 32-bit word of the extras. */
  function ExtraWord(raw: Octets, i: nat): uint32
    requires |raw| >= HEADER && WellFormed(raw) && |raw| >= FrameSize(raw)
    requires 4 * (i + 1) <= ExtraLength(raw)
  {
    Read32(raw[HEADER + 4 * i..HEADER + 4 * i + 4])
  }

  function StoreReqOf(raw: Octets, kind: StoreKind): Message
    requires |raw| >= HEADER && WellFormed(raw) && |raw| >= FrameSize(raw) && 8 <= ExtraLength(raw)
  {
    StoreReq(kind, OpCodeOf(raw), KeyOf(raw), OpaqueOf(raw), CasOf(raw), VBucketOrStatusOf(raw),
             ValueOf(raw), ExtraWord(raw, 0), ExtraWord(raw, 1))
  }

  /** The message constructors from bytes, and the dispatch on the op code. */
  function Decode(raw: Octets): Message
    requires |raw| >= HEADER && WellFormed(raw) && |raw| >= FrameSize(raw)
  {
    var op, key, opaqueId, cas, vs := OpCodeOf(raw), KeyOf(raw), OpaqueOf(raw), CasOf(raw), VBucketOrStatusOf(raw);
    if RequestMagic(raw) then
      if op == TAP_MUTATE then
        TapMutateReq(op, key, opaqueId, cas, vs, ValueOf(raw), ExtraWord(raw, 2), ExtraWord(raw, 3))
      else if op == GET || op == GETK then GetReq(op, key, opaqueId, cas, vs)
      else if op == SET then StoreReqOf(raw, SetKind)
      else if op == ADD then StoreReqOf(raw, AddKind)
      else if op == REPLACE then StoreReqOf(raw, ReplaceKind)
      else if op == DELETE then DeleteReq(op, key, opaqueId, cas, vs)
      else if op == VERSION then VersionReq(op, key, opaqueId, cas, vs)
      else BaseReq(op, key, opaqueId, cas, vs)
    else
      if op == GET then
        GetRsp(op, key, opaqueId, cas, vs, ValueOf(raw),
               if ExtraLength(raw) < 4 then None else Some(ExtraWord(raw, 0)))
      else if op == ADD || op == REPLACE then StoreRsp(op, key, opaqueId, cas, vs)
      else BaseRsp(op, key, opaqueId, cas, vs)
  }

  /** `Undefined` stands for packets the message constructors overrun. */
  datatype Parse = Incomplete | Undefined | Parsed(msg: Message, rest: Octets)

  /** `is_msg_complete`: the buffer length is kept in 32 bits. */
  predicate IsMsgComplete(raw: Octets) {
    var rawLength := |raw| % 0x1_0000_0000;
    HEADER <= rawLength && FrameSize(raw) <= rawLength
  }

  /** `from_wire` on the buffer as it is. */
  function FromWire(raw: Octets): Parse {
    if !IsMsgComplete(raw) then Incomplete
    else if !WellFormed(raw) then Undefined
    else Parsed(Decode(raw), raw[FrameSize(raw)..])
  }

  /** The same without the 32-bit length: the framing the protocol prescribes. */
  function Frame(raw: Octets): Parse {
    if |raw| < HEADER || |raw| < FrameSize(raw) then Incomplete
    else if !WellFormed(raw) then Undefined
    else Parsed(Decode(raw), raw[FrameSize(raw)..])
  }

  /** Below 2^32 bytes the two agree; at any length the code never sees a packet
      that is not there, and a packet of 2^32 bytes or more is never complete. */
  lemma FromWireIsFrame(raw: Octets)
    ensures |raw| < 0x1_0000_0000 ==> FromWire(raw) == Frame(raw)
    ensures FromWire(raw) == Incomplete || FromWire(raw) == Frame(raw)
    ensures |raw| >= HEADER && FrameSize(raw) >= 0x1_0000_0000 ==> FromWire(raw) == Incomplete
  {
    hide Decode, BodyLength;
  }

  /** Bytes that arrive later change nothing about a packet already complete. */
  lemma FrameExtends(raw: Octets, more: Octets)
    ensures Frame(raw) == Undefined ==> Frame(raw + more) == Undefined
    ensures Frame(raw).Parsed? ==> Frame(raw + more) == Parsed(Frame(raw).msg, Frame(raw).rest + more)
    ensures |raw| >= HEADER ==> FrameSize(raw + more) == FrameSize(raw)
  {
    hide Read16, Read32, Read64;
    var all := raw + more;
    if |raw| >= HEADER {
      assert all[2..4] == raw[2..4] && all[6..8] == raw[6..8] && all[8..12] == raw[8..12];
      assert all[12..16] == raw[12..16] && all[16..24] == raw[16..24];
      if |raw| >= FrameSize(raw) && WellFormed(raw) {
        assert KeyOf(all) == KeyOf(raw);
        assert ValueOf(all) == ValueOf(raw);
        forall i: nat | 4 * (i + 1) <= ExtraLength(raw)
          ensures ExtraWord(all, i) == ExtraWord(raw, i)
        {
          assert all[HEADER + 4 * i..HEADER + 4 * i + 4] == raw[HEADER + 4 * i..HEADER + 4 * i + 4];
        }
        assert all[FrameSize(raw)..] == raw[FrameSize(raw)..] + more;
      }
    }
  }
}
