/** Byte strings, machine words and the byte-order functions of the wire layer.

    The program runs on a little-endian host: an integer in memory is its
    little-endian byte sequence, `htons`/`htonl` reverse the bytes of a word, and
    the 64-bit conversion is put together from two 32-bit ones. */
module Bytes {

  type byte = b: int | 0 <= b < 0x100
  type uint16 = x: int | 0 <= x < 0x1_0000
  type uint32 = x: int | 0 <= x < 0x1_0000_0000
  type uint64 = x: int | 0 <= x < 0x1_0000_0000_0000_0000

  /** A `std::string`: any sequence of bytes. */
  type Octets = seq<byte>

  datatype Option<+T> = None | Some(value: T)

  function Pow256(w: nat): (p: nat)
    ensures p > 0
  {
    if w == 0 then 1 else 256 * Pow256(w - 1)
  }

  /** The memory image of an integer of `w` bytes (higher bytes are cut off). */
  function LittleEndian(n: nat, w: nat): (bs: Octets)
    ensures |bs| == w
    decreases w, n
  {
    if w == 0 then [] else [n % 256] + LittleEndian(n / 256, w - 1)
  }

  /** The integer held in a memory image. */
  function FromLittleEndian(bs: Octets): nat {
    if bs == [] then 0 else bs[0] + 256 * FromLittleEndian(bs[1..])
  }

  function Reverse(bs: Octets): (r: Octets)
    ensures |r| == |bs|
    ensures forall i :: 0 <= i < |bs| ==> r[i] == bs[|bs| - 1 - i]
  {
    if bs == [] then [] else Reverse(bs[1..]) + [bs[0]]
  }

  /** Network order: most significant byte first. */
  function BigEndian(n: nat, w: nat): (bs: Octets)
    ensures |bs| == w
  {
    Reverse(LittleEndian(n, w))
  }

  /** `htons`/`htonl`: the integer whose memory image is the reversed image of `n`. */
  function Swap(n: nat, w: nat): nat {
    FromLittleEndian(Reverse(LittleEndian(n, w)))
  }

  /** The 64-bit conversion: each half is swapped on its own and moved to the
      other side. The halves do not overlap, so the source's `|` is a sum. */
  function HostToNetwork64(v: uint64): nat {
    var low := Swap(v / 0x1_0000_0000, 4);
    var high := Swap(v % 0x1_0000_0000, 4);
    low + high * 0x1_0000_0000
  }

  // `Utils::write`: the bytes appended for a word of each width.

  function Write16(v: uint16): (bs: Octets)
    ensures |bs| == 2
  {
    LittleEndian(Swap(v, 2), 2)
  }

  function Write32(v: uint32): (bs: Octets)
    ensures |bs| == 4
  {
    LittleEndian(Swap(v, 4), 4)
  }

  function Write64(v: uint64): (bs: Octets)
    ensures |bs| == 8
  {
    LittleEndian(HostToNetwork64(v), 8)
  }

  // `network_to_host` of a word overlaid on the buffer.

  function Read16(bs: Octets): (v: uint16)
    requires |bs| == 2
  {
    SwapRange(FromLittleEndian(bs), 2);
    Swap(FromLittleEndian(bs), 2)
  }

  function Read32(bs: Octets): (v: uint32)
    requires |bs| == 4
  {
    SwapRange(FromLittleEndian(bs), 4);
    Swap(FromLittleEndian(bs), 4)
  }

  function Read64(bs: Octets): (v: uint64)
    requires |bs| == 8
  {
    ImageValue(bs);
    var v: uint64 := FromLittleEndian(bs);
    SwapRange(v / 0x1_0000_0000, 4);
    SwapRange(v % 0x1_0000_0000, 4);
    HostToNetwork64(v)
  }

  lemma {:induction false} ValueImage(n: nat, w: nat)
    requires n < Pow256(w)
    ensures FromLittleEndian(LittleEndian(n, w)) == n
  {
    if w > 0 {
      ValueImage(n / 256, w - 1);
      assert LittleEndian(n, w)[1..] == LittleEndian(n / 256, w - 1);
    }
  }

  lemma {:induction false} ImageValue(bs: Octets)
    ensures FromLittleEndian(bs) < Pow256(|bs|)
    ensures LittleEndian(FromLittleEndian(bs), |bs|) == bs
  {
    if bs != [] {
      ImageValue(bs[1..]);
      var n := FromLittleEndian(bs);
      assert n % 256 == bs[0] && n / 256 == FromLittleEndian(bs[1..]);
      assert [bs[0]] + bs[1..] == bs;
    }
  }

  lemma SwapRange(n: nat, w: nat)
    ensures Swap(n, w) < Pow256(w)
  {
    ImageValue(Reverse(LittleEndian(n, w)));
  }

  lemma ReverseTwice(bs: Octets)
    ensures Reverse(Reverse(bs)) == bs
  {
  }

  /** The split 64-bit swap is the plain reversal of all eight bytes. */
  lemma HostToNetwork64IsSwap(v: uint64)
    ensures HostToNetwork64(v) == Swap(v, 8) < 0x1_0000_0000_0000_0000
    ensures Write64(v) == BigEndian(v, 8)
  {
    hide Reverse, FromLittleEndian, Pow256;
    var bs := LittleEndian(v, 8);
    var a, b := bs[..4], bs[4..];
    assert bs == a + b;
    Powers();
    HalvesOf(v);
    ReverseHalves(a, b);
    FromConcat4(Reverse(b), Reverse(a));
    ImageValue(Reverse(bs));
  }

  lemma Powers()
    ensures Pow256(4) == 0x1_0000_0000 && Pow256(8) == 0x1_0000_0000_0000_0000
  {
  }

  lemma ReverseHalves(a: Octets, b: Octets)
    ensures Reverse(a + b) == Reverse(b) + Reverse(a)
  {
  }

  /** The two halves of the image are the images of the two halves. */
  lemma HalvesOf(v: uint64)
    ensures LittleEndian(v, 8)[..4] == LittleEndian(v % 0x1_0000_0000, 4)
    ensures LittleEndian(v, 8)[4..] == LittleEndian(v / 0x1_0000_0000, 4)
  {
    hide FromLittleEndian, LittleEndian, Pow256;
    var bs := LittleEndian(v, 8);
    var a, b := bs[..4], bs[4..];
    Powers();
    ValueImage(v, 8);
    ImageValue(a);
    ImageValue(b);
    assert bs == a + b;
    FromConcat4(a, b);
  }

  lemma FromConcat4(a: Octets, b: Octets)
    requires |a| == 4
    ensures FromLittleEndian(a + b) == FromLittleEndian(a) + 0x1_0000_0000 * FromLittleEndian(b)
  {
    FromCons(a + b);
    FromCons((a + b)[1..]);
    FromCons((a + b)[2..]);
    FromCons((a + b)[3..]);
    assert (a + b)[4..] == b;
    FromCons(a);
    FromCons(a[1..]);
    FromCons(a[2..]);
    FromCons(a[3..]);
  }

  lemma FromCons(bs: Octets)
    requires bs != []
    ensures FromLittleEndian(bs) == bs[0] + 256 * FromLittleEndian(bs[1..])
    ensures |bs| >= 2 ==> bs[1..][1..] == bs[2..]
    ensures |bs| >= 3 ==> bs[2..][1..] == bs[3..]
    ensures |bs| >= 4 ==> bs[3..][1..] == bs[4..]
  {
  }

  lemma SwapTwice(n: nat, w: nat)
    requires n < Pow256(w)
    ensures Swap(Swap(n, w), w) == n
  {
    var image := Reverse(LittleEndian(n, w));
    ImageValue(image);
    ReverseTwice(LittleEndian(n, w));
    ValueImage(n, w);
  }

  /** What is written in each width is the big-endian image, and reading it back
      gives the word. */
  lemma WordRoundTrip16(v: uint16)
    ensures Write16(v) == BigEndian(v, 2) && Read16(Write16(v)) == v
  {
    assert Pow256(2) == 0x1_0000;
    SwapRange(v, 2);
    ImageValue(Reverse(LittleEndian(v, 2)));
    ValueImage(Swap(v, 2), 2);
    SwapTwice(v, 2);
  }

  lemma WordRoundTrip32(v: uint32)
    ensures Write32(v) == BigEndian(v, 4) && Read32(Write32(v)) == v
  {
    assert Pow256(4) == 0x1_0000_0000;
    SwapRange(v, 4);
    ImageValue(Reverse(LittleEndian(v, 4)));
    ValueImage(Swap(v, 4), 4);
    SwapTwice(v, 4);
  }

  lemma WordRoundTrip64(v: uint64)
    ensures Write64(v) == BigEndian(v, 8) && Read64(Write64(v)) == v
  {
    assert Pow256(8) == 0x1_0000_0000_0000_0000;
    HostToNetwork64IsSwap(v);
    var n: uint64 := HostToNetwork64(v);
    HostToNetwork64IsSwap(n);
    ValueImage(n, 8);
    SwapTwice(v, 8);
  }

  // --------------------------------------------------- bytes read as a number

  /** The number that bytes spell, the most significant first. */
  function Spelled(bs: Octets): nat {
    if bs == [] then 0 else Spelled(bs[..|bs| - 1]) * 256 + bs[|bs| - 1]
  }

  lemma {:induction false} SpelledBackwards(bs: Octets)
    ensures Spelled(bs) == FromLittleEndian(Reverse(bs))
  {
    if bs != [] {
      var n := |bs| - 1;
      SpelledBackwards(bs[..n]);
      assert Reverse(bs)[1..] == Reverse(bs[..n]);
    }
  }

  /** Words are read as the numbers their bytes spell. */
  lemma ReadSpells16(bs: Octets)
    requires |bs| == 2
    ensures Read16(bs) == Spelled(bs)
  {
    hide Spelled;
    ImageValue(bs);
    SpelledBackwards(bs);
  }

  lemma ReadSpells32(bs: Octets)
    requires |bs| == 4
    ensures Read32(bs) == Spelled(bs)
  {
    hide Spelled;
    ImageValue(bs);
    SpelledBackwards(bs);
  }

  lemma ReadSpells64(bs: Octets)
    requires |bs| == 8
    ensures Read64(bs) == Spelled(bs)
  {
    hide Spelled, HostToNetwork64;
    Powers();
    ImageValue(bs);
    HostToNetwork64IsSwap(FromLittleEndian(bs));
    SpelledBackwards(bs);
  }

  /** What is written for a word spells it. */
  lemma WriteSpells(a: uint16, b: uint32, c: uint64)
    ensures Spelled(Write16(a)) == a && Spelled(Write32(b)) == b && Spelled(Write64(c)) == c
  {
    hide Spelled, Write16, Write32, Write64, Read16, Read32, Read64;
    WordRoundTrip16(a);
    WordRoundTrip32(b);
    WordRoundTrip64(c);
    ReadSpells16(Write16(a));
    ReadSpells32(Write32(b));
    ReadSpells64(Write64(c));
  }
}
