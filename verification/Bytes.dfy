/**
 Bytes, little-endian words and unsigned bit masks, all over unbounded integers.
 The bit operators are defined one bit at a time, so that a statement about a
 32-bit word can be split into statements about its four bytes.
 */
module Bytes {

  type byte = x: int | 0 <= x < 256

  /** One more than the largest `std::uint64_t`. */
  const U64: nat := 0x1_0000_0000_0000_0000

  datatype Option<+T> = None | Some(value: T)

  /** Unsigned value of a little-endian byte string. */
  function FromLE(s: seq<byte>): nat
  {
    if s == [] then 0 else s[0] + 256 * FromLE(s[1..])
  }

  /** The `width` low-order bytes of `n`, least significant first. */
  function ToLE(n: nat, width: nat): (s: seq<byte>)
    ensures |s| == width
    decreases width
  {
    if width == 0 then [] else [n % 256] + ToLE(n / 256, width - 1)
  }

  function Pow256(k: nat): (p: nat)
    ensures p >= 1
  {
    if k == 0 then 1 else 256 * Pow256(k - 1)
  }

  lemma {:induction false} LERoundTrip(n: nat, width: nat)
    requires n < Pow256(width)
    ensures FromLE(ToLE(n, width)) == n
    decreases width
  {
    if width > 0 {
      LERoundTrip(n / 256, width - 1);
      assert ToLE(n, width)[1..] == ToLE(n / 256, width - 1);
    }
  }

  lemma {:induction false} LEUnique(s: seq<byte>)
    ensures FromLE(s) < Pow256(|s|)
    ensures ToLE(FromLE(s), |s|) == s
  {
    if s != [] {
      LEUnique(s[1..]);
      assert FromLE(s) % 256 == s[0] && FromLE(s) / 256 == FromLE(s[1..]);
    }
  }

  lemma Pow256Values()
    ensures Pow256(0) == 1 && Pow256(1) == 0x100 && Pow256(2) == 0x1_0000
    ensures Pow256(3) == 0x100_0000 && Pow256(4) == 0x1_0000_0000
    ensures Pow256(8) == 0x1_0000_0000_0000_0000
  {
  }

  // ---------------------------------------------------------------- bit masks

  /** Bit `k` of `v`, counted from the least significant one. */
  predicate Bit(v: nat, k: nat)
    decreases k
  {
    if k == 0 then v % 2 == 1 else Bit(v / 2, k - 1)
  }

  /** `v & m`. */
  function And(v: nat, m: nat): nat
    decreases v
  {
    if v == 0 then 0
    else 2 * And(v / 2, m / 2) + (if v % 2 == 1 && m % 2 == 1 then 1 else 0)
  }

  /** `v & ~m`. */
  function AndNot(v: nat, m: nat): nat
    decreases v
  {
    if v == 0 then 0
    else 2 * AndNot(v / 2, m / 2) + (if v % 2 == 1 && m % 2 == 0 then 1 else 0)
  }

  lemma {:induction false} AndNotBound(v: nat, m: nat)
    ensures AndNot(v, m) <= v
    decreases v
  {
    if v != 0 { AndNotBound(v / 2, m / 2); }
  }

  /** `AndNot` clears exactly the bits of the mask. */
  lemma {:induction false} AndNotBit(v: nat, m: nat, k: nat)
    ensures Bit(AndNot(v, m), k) <==> Bit(v, k) && !Bit(m, k)
    decreases k
  {
    var r := AndNot(v, m);
    if v == 0 {
      ZeroHasNoBits(k);
    } else {
      assert r / 2 == AndNot(v / 2, m / 2);
      if k > 0 { AndNotBit(v / 2, m / 2, k - 1); }
    }
  }

  lemma {:induction false} ZeroHasNoBits(k: nat)
    ensures !Bit(0, k)
  {
    if k > 0 { ZeroHasNoBits(k - 1); }
  }

  lemma {:induction false} AndNotIdempotent(v: nat, m: nat)
    ensures AndNot(AndNot(v, m), m) == AndNot(v, m)
    decreases v
  {
    if v != 0 {
      AndNotIdempotent(v / 2, m / 2);
      assert AndNot(v, m) / 2 == AndNot(v / 2, m / 2);
    }
  }

  lemma {:induction false} AndNotZero(v: nat)
    ensures AndNot(v, 0) == v
  {
    if v != 0 { AndNotZero(v / 2); }
  }

  function Pow2(k: nat): (p: nat)
    ensures p >= 1
  {
    if k == 0 then 1 else 2 * Pow2(k - 1)
  }

  lemma HalvesSum(lo: nat, x: nat)
    ensures (lo + 2 * x) / 2 == lo / 2 + x && (lo + 2 * x) % 2 == lo % 2
  {
  }

  lemma SplitHalf(lo: nat, hi: nat, k: nat)
    requires k > 0
    ensures (lo + Pow2(k) * hi) / 2 == lo / 2 + Pow2(k - 1) * hi
    ensures (lo + Pow2(k) * hi) % 2 == lo % 2
  {
    HalvesSum(lo, Pow2(k - 1) * hi);
    assert Pow2(k) * hi == 2 * (Pow2(k - 1) * hi);
  }

  lemma ProductZero(k: nat, lo: nat, hi: nat)
    requires lo + Pow2(k) * hi == 0
    ensures lo == 0 && hi == 0
  {
  }

  /** Masking a word masks its low `k` bits and its remaining bits separately. */
  lemma {:induction false} AndNotSplit(lo: nat, hi: nat, mlo: nat, mhi: nat, k: nat)
    requires lo < Pow2(k) && mlo < Pow2(k)
    ensures AndNot(lo + Pow2(k) * hi, mlo + Pow2(k) * mhi) == AndNot(lo, mlo) + Pow2(k) * AndNot(hi, mhi)
    decreases k
  {
    if lo + Pow2(k) * hi == 0 {
      ProductZero(k, lo, hi);
    } else if k > 0 {
      AndNotSplit(lo / 2, hi, mlo / 2, mhi, k - 1);
      SplitHalf(lo, hi, k);
      SplitHalf(mlo, mhi, k);
      SplitHalf(AndNot(lo, mlo), AndNot(hi, mhi), k);
    }
  }

  lemma {:induction false} AndSplit(lo: nat, hi: nat, mlo: nat, mhi: nat, k: nat)
    requires lo < Pow2(k) && mlo < Pow2(k)
    ensures And(lo + Pow2(k) * hi, mlo + Pow2(k) * mhi) == And(lo, mlo) + Pow2(k) * And(hi, mhi)
    decreases k
  {
    if lo + Pow2(k) * hi == 0 {
      ProductZero(k, lo, hi);
    } else if k > 0 {
      AndSplit(lo / 2, hi, mlo / 2, mhi, k - 1);
      SplitHalf(lo, hi, k);
      SplitHalf(mlo, mhi, k);
      SplitHalf(And(lo, mlo), And(hi, mhi), k);
    }
  }
}
