/** Which bits of a key's hash make its bucket. */
module Buckets {
  import opened Memcached

  /** Bit `i` of a number in two's complement: what is left of it after halving it so
      often is odd. */
  function Bit(h: int, i: nat): nat
    decreases i
  {
    if i == 0 then h % 2 else Bit(h / 2, i - 1)
  }

  /** The number that the bits from `i` up to `n` make. */
  function Bits(h: int, i: nat, n: nat): nat
    decreases n - i
  {
    if i >= n then 0 else Bit(h, i) + 2 * Bits(h, i + 1, n)
  }

  lemma {:induction false} BitsOfHalf(h: int, i: nat, n: nat)
    ensures Bits(h, i + 1, n + 1) == Bits(h / 2, i, n)
    decreases n - i
  {
    if i < n {
      BitsOfHalf(h, i + 1, n);
    }
  }

  lemma RemainderIs(h: int, d: nat, q: int, r: nat)
    requires r < d && h == d * q + r
    ensures h % d == r
  {
    var e := q - h / d;
    assert d * e == h % d - r by { assert d * q == d * (h / d) + d * e; }
    Multiples(d, e);
  }

  lemma Multiples(d: nat, e: int)
    ensures e >= 1 ==> d * e >= d
    ensures e <= -1 ==> d * e <= 0 - d
  {
  }

  /** A remainder, bit by bit. */
  lemma HalfRemainder(h: int, d: nat)
    requires d > 0
    ensures h % (2 * d) == h % 2 + 2 * (h / 2 % d)
  {
    var q, r := h / 2 / d, h / 2 % d;
    assert h / 2 == d * q + r;
    assert h == (2 * d) * q + (h % 2 + 2 * r);
    RemainderIs(h, 2 * d, q, h % 2 + 2 * r);
  }

  lemma {:induction false} BitsCons(h: int, n: nat)
    requires n > 0
    ensures Bits(h, 0, n) == h % 2 + 2 * Bits(h / 2, 0, n - 1)
  {
    BitsOfHalf(h, 0, n - 1);
  }

  function Pow2(n: nat): (p: nat)
    ensures p > 0
  {
    if n == 0 then 1 else 2 * Pow2(n - 1)
  }

  /** The low bits of a number are its remainder by a power of two. */
  lemma {:induction false} LowBits(h: int, n: nat)
    ensures h % Pow2(n) == Bits(h, 0, n)
    decreases n
  {
    hide Bits;
    if n == 0 {
      NoBits(h);
    } else {
      LowBits(h / 2, n - 1);
      BitsCons(h, n);
      HalfRemainder(h, Pow2(n - 1));
    }
  }

  /** A key's bucket is made of the low seven bits of its hash. */
  lemma LowSevenBits(hash: Key -> int, k: Key)
    ensures VBucketForKey(hash, k) == Bits(hash(k), 0, 7)
  {
    hide Bits;
    LowBits(hash(k), 7);
    assert Pow2(7) == 128;
  }

  lemma NoBits(h: int)
    ensures Bits(h, 0, 0) == 0
  {
  }
}
