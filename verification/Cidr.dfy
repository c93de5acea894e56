/**
 IPv4 block matching (`ip_in_cidr`, `src/policy/policy_engine.cpp`): masks are applied to addresses
 in network byte order, on a host of either byte order. The meaning is that of RFC 4632 section 3.1.
 */
module Cidr {
  import opened Bytes

  /** An address as `inet_pton` stores it, most significant octet first in memory. */
  datatype Ipv4 = Ipv4(a: byte, b: byte, c: byte, d: byte)

  const WORD: nat := 0x1_0000_0000

  /** The address as a number. */
  function Big(ip: Ipv4): (n: nat)
    ensures n < WORD
  {
    ip.d as nat + 256 * (ip.c as nat + 256 * (ip.b as nat + 256 * ip.a as nat))
  }

  /** The same four bytes of memory loaded by a little-endian host. */
  function Little(ip: Ipv4): (n: nat)
    ensures n < WORD
  {
    ip.a as nat + 256 * (ip.b as nat + 256 * (ip.c as nat + 256 * ip.d as nat))
  }

  /** `s_addr` as the host sees it. */
  function Load(ip: Ipv4, littleEndian: bool): nat {
    if littleEndian then Little(ip) else Big(ip)
  }

  /** The bytes of a word, most significant first. */
  function Octets(n: nat): Ipv4
    requires n < WORD
  {
    Ipv4(n / 256 / 256 / 256, n / 256 / 256 % 256, n / 256 % 256, n % 256)
  }

  /** `htonl`: lay the word out most significant byte first and load it back. */
  function Htonl(n: nat, littleEndian: bool): nat
    requires n < WORD
  {
    Load(Octets(n), littleEndian)
  }

  /** `~0U << (32 - prefix)` in 32 bits. */
  function HostMask(prefix: nat): (m: nat)
    requires 0 < prefix <= 32
    ensures m < WORD
  {
    Pow2Mono(32 - prefix, 32);
    assert Pow2(32) == WORD by { Pow2Values(); }
    WORD - Pow2(32 - prefix)
  }

  /** The test at the end of `ip_in_cidr`. */
  predicate InBlock(ip: Ipv4, net: Ipv4, prefix: nat, littleEndian: bool)
    requires prefix <= 32
  {
    var mask := if prefix == 0 then 0 else Htonl(HostMask(prefix), littleEndian);
    And(Load(ip, littleEndian), mask) == And(Load(net, littleEndian), mask)
  }

  // -------------------------------------------------------------------- lemmas

  lemma Pow2Values()
    ensures Pow2(8) == 0x100 && Pow2(16) == 0x1_0000 && Pow2(32) == WORD
  {
    assert Pow2(4) == 16;
    Pow2Sum(4, 4);
    Pow2Sum(8, 8);
    Pow2Sum(16, 16);
  }

  lemma {:induction false} Pow2Sum(a: nat, b: nat)
    ensures Pow2(a + b) == Pow2(a) * Pow2(b)
  {
    if a > 0 { Pow2Sum(a - 1, b); }
  }

  lemma {:induction false} Pow2Mono(a: nat, b: nat)
    requires a <= b
    ensures Pow2(a) <= Pow2(b)
    decreases b
  {
    if a < b { Pow2Mono(a, b - 1); }
  }

  lemma OctetsOfBig(n: nat)
    requires n < WORD
    ensures Big(Octets(n)) == n
  {
  }

  /** Masking two words byte by byte, in either layout. */
  function AndBytes(x: Ipv4, m: Ipv4): Ipv4 {
    AndBound(x.a, m.a);
    AndBound(x.b, m.b);
    AndBound(x.c, m.c);
    AndBound(x.d, m.d);
    Ipv4(And(x.a, m.a), And(x.b, m.b), And(x.c, m.c), And(x.d, m.d))
  }

  lemma {:induction false} AndBound(v: nat, m: nat)
    ensures And(v, m) <= v
    decreases v
  {
    if v != 0 { AndBound(v / 2, m / 2); }
  }

  lemma SplitByte(lo: byte, hi: nat, mlo: byte, mhi: nat)
    ensures And(lo as nat + 256 * hi, mlo as nat + 256 * mhi) == And(lo, mlo) + 256 * And(hi, mhi)
  {
    Pow2Values();
    AndSplit(lo, hi, mlo, mhi, 8);
  }

  lemma BytewiseBig(x: Ipv4, m: Ipv4)
    ensures And(Big(x), Big(m)) == Big(AndBytes(x, m))
  {
    hide And;
    SplitByte(x.d, x.c as nat + 256 * (x.b as nat + 256 * x.a as nat),
              m.d, m.c as nat + 256 * (m.b as nat + 256 * m.a as nat));
    SplitByte(x.c, x.b as nat + 256 * x.a as nat, m.c, m.b as nat + 256 * m.a as nat);
    SplitByte(x.b, x.a as nat, m.b, m.a as nat);
  }

  lemma BytewiseLittle(x: Ipv4, m: Ipv4)
    ensures And(Little(x), Little(m)) == Little(AndBytes(x, m))
  {
    hide And;
    SplitByte(x.a, x.b as nat + 256 * (x.c as nat + 256 * x.d as nat),
              m.a, m.b as nat + 256 * (m.c as nat + 256 * m.d as nat));
    SplitByte(x.b, x.c as nat + 256 * x.d as nat, m.b, m.c as nat + 256 * m.d as nat);
    SplitByte(x.c, x.d as nat, m.c, m.d as nat);
  }

  lemma DigitInjective(a: byte, x: nat, b: byte, y: nat)
    ensures a as nat + 256 * x == b as nat + 256 * y <==> a == b && x == y
  {
  }

  lemma BigInjective(x: Ipv4, y: Ipv4)
    ensures Big(x) == Big(y) <==> x == y
  {
    var hx, hy := x.b as nat + 256 * x.a as nat, y.b as nat + 256 * y.a as nat;
    DigitInjective(x.d, x.c as nat + 256 * hx, y.d, y.c as nat + 256 * hy);
    DigitInjective(x.c, hx, y.c, hy);
    DigitInjective(x.b, x.a as nat, y.b, y.a as nat);
  }

  lemma LittleInjective(x: Ipv4, y: Ipv4)
    ensures Little(x) == Little(y) <==> x == y
  {
    var hx, hy := x.c as nat + 256 * x.d as nat, y.c as nat + 256 * y.d as nat;
    DigitInjective(x.a, x.b as nat + 256 * hx, y.a, y.b as nat + 256 * hy);
    DigitInjective(x.b, hx, y.b, hy);
    DigitInjective(x.c, x.d as nat, y.c, y.d as nat);
  }

  /** `v` with everything below `m` cleared. */
  function Cleared(v: nat, m: nat): int
    requires m >= 1
  {
    v - v % m
  }

  lemma AndHalves(v: nat, m: nat)
    ensures And(v, 2 * m) == 2 * And(v / 2, m)
    ensures And(v, 2 * m + 1) == 2 * And(v / 2, m) + v % 2
  {
    assert (2 * m) / 2 == m && (2 * m) % 2 == 0 && (2 * m + 1) / 2 == m && (2 * m + 1) % 2 == 1;
  }

  lemma Pow2Step(n: nat)
    ensures Pow2(0) == 1 && Pow2(n + 1) == 2 * Pow2(n) && Pow2(n) >= 1
  {
  }

  /** Masking with a run of leading ones clears the remaining low bits. */
  lemma {:induction false} AndHighBits(v: nat, n: nat, k: nat)
    requires v < Pow2(n) && k <= n
    ensures Pow2(k) <= Pow2(n) && And(v, Pow2(n) - Pow2(k)) == Cleared(v, Pow2(k))
    decreases n
  {
    hide And, Pow2, Cleared;
    Pow2Step(0);
    Pow2Mono(k, n);
    ClearedByOne(v);
    ClearedByOne(v / 2);
    if n == 0 {
      AndNothing(v);
    } else {
      Pow2Step(n - 1);
      var high := Pow2(n - 1);
      if k > 0 {
        AndHighBits(v / 2, n - 1, k - 1);
        Pow2Step(k - 1);
        var low := Pow2(k - 1);
        AndHalves(v, high - low);
        assert Pow2(n) - Pow2(k) == 2 * (high - low);
        ModHalf(v, low);
      } else {
        AndHighBits(v / 2, n - 1, 0);
        AndHalves(v, high - 1);
        assert Pow2(n) - 1 == 2 * (high - 1) + 1;
      }
    }
  }

  lemma ClearedByOne(v: nat)
    ensures Cleared(v, 1) == v
  {
  }

  lemma ModHalf(v: nat, p: nat)
    requires p >= 1
    ensures Cleared(v, 2 * p) == 2 * Cleared(v / 2, p)
  {
    var h := v / 2;
    assert h == p * (h / p) + h % p;
    var r := 2 * (h % p) + v % 2;
    assert v == (2 * p) * (h / p) + r;
    DivModUnique(v, 2 * p, h / p, r);
  }

  lemma DivModUnique(v: nat, m: nat, q: nat, r: nat)
    requires v == m * q + r && r < m
    ensures v / m == q && v % m == r
  {
    assert v == m * (v / m) + v % m;
    MulGap(m, v / m, q);
    MulGap(m, q, v / m);
  }

  lemma MulGap(m: nat, x: nat, y: nat)
    ensures x < y ==> m * x + m <= m * y
  {
    assert x < y ==> m * (x + 1) <= m * y;
  }

  lemma SameQuotient(x: nat, y: nat, m: nat)
    requires m >= 1
    ensures Cleared(x, m) == Cleared(y, m) <==> x / m == y / m
  {
    assert x - x % m == m * (x / m) && y - y % m == m * (y / m);
    MulGap(m, x / m, y / m);
    MulGap(m, y / m, x / m);
  }

  /** The addresses agree in their leading `prefix` bits. */
  predicate SameNetwork(ip: Ipv4, net: Ipv4, prefix: nat)
    requires prefix <= 32
  {
    Big(ip) / Pow2(32 - prefix) == Big(net) / Pow2(32 - prefix)
  }

  /** The network-order mask test, on either kind of host, is equality of the leading `prefix` bits. */
  lemma BlockMeaning(ip: Ipv4, net: Ipv4, prefix: nat, littleEndian: bool)
    requires prefix <= 32
    ensures InBlock(ip, net, prefix, littleEndian) <==> SameNetwork(ip, net, prefix)
  {
    hide And, Load, Htonl, SameNetwork, HostMask;
    if prefix == 0 {
      AndNothing(Load(ip, littleEndian));
      AndNothing(Load(net, littleEndian));
      OneNetwork(ip, net);
    } else {
      OrderIrrelevant(ip, net, HostMask(prefix), littleEndian);
      LeadingBits(ip, net, prefix);
    }
  }

  /** Two words agree under a mask in one byte order exactly when they agree under it in the other. */
  lemma OrderIrrelevant(ip: Ipv4, net: Ipv4, mask: nat, littleEndian: bool)
    requires mask < WORD
    ensures var m := Htonl(mask, littleEndian);
      And(Load(ip, littleEndian), m) == And(Load(net, littleEndian), m)
      <==> And(Big(ip), mask) == And(Big(net), mask)
  {
    hide And, Big, Little, AndBytes, Octets;
    var bytes := Octets(mask);
    OctetsOfBig(mask);
    BytewiseBig(ip, bytes);
    BytewiseBig(net, bytes);
    BytewiseLittle(ip, bytes);
    BytewiseLittle(net, bytes);
    BigInjective(AndBytes(ip, bytes), AndBytes(net, bytes));
    LittleInjective(AndBytes(ip, bytes), AndBytes(net, bytes));
  }

  /** In network byte order the masked words are equal exactly when the leading bits are. */
  lemma LeadingBits(ip: Ipv4, net: Ipv4, prefix: nat)
    requires 0 < prefix <= 32
    ensures And(Big(ip), HostMask(prefix)) == And(Big(net), HostMask(prefix)) <==> SameNetwork(ip, net, prefix)
  {
    hide And, Pow2, Big, Cleared, SameNetwork;
    Pow2Values();
    AndHighBits(Big(ip), 32, 32 - prefix);
    AndHighBits(Big(net), 32, 32 - prefix);
    ClearedNetwork(ip, net, prefix);
  }

  lemma ClearedNetwork(ip: Ipv4, net: Ipv4, prefix: nat)
    requires prefix <= 32
    ensures Cleared(Big(ip), Pow2(32 - prefix)) == Cleared(Big(net), Pow2(32 - prefix))
       <==> SameNetwork(ip, net, prefix)
  {
    hide Pow2, Big, Cleared;
    SameQuotient(Big(ip), Big(net), Pow2(32 - prefix));
  }

  /** All addresses lie in one block of prefix 0. */
  lemma OneNetwork(ip: Ipv4, net: Ipv4)
    ensures SameNetwork(ip, net, 0)
  {
    hide Pow2, Big;
    Pow2Values();
    DivModUnique(Big(ip), WORD, 0, Big(ip));
    DivModUnique(Big(net), WORD, 0, Big(net));
  }

  lemma {:induction false} AndNothing(v: nat)
    ensures And(v, 0) == 0
  {
    if v != 0 { AndNothing(v / 2); }
  }

  /** A match on a longer prefix is a match on every shorter one. */
  lemma ShorterPrefixMatches(ip: Ipv4, net: Ipv4, longer: nat, shorter: nat, littleEndian: bool)
    requires shorter <= longer <= 32 && InBlock(ip, net, longer, littleEndian)
    ensures InBlock(ip, net, shorter, littleEndian)
  {
    BlockMeaning(ip, net, longer, littleEndian);
    BlockMeaning(ip, net, shorter, littleEndian);
    CoarserQuotient(Big(ip), Big(net), 32 - longer, 32 - shorter);
  }

  /** Numbers that agree from bit `k` up agree from any higher bit up. */
  lemma {:induction false} CoarserQuotient(x: nat, y: nat, k: nat, n: nat)
    requires k <= n && x / Pow2(k) == y / Pow2(k)
    ensures x / Pow2(n) == y / Pow2(n)
    decreases n
  {
    if k < n {
      CoarserQuotient(x, y, k, n - 1);
      HalfQuotient(x, Pow2(n - 1));
      HalfQuotient(y, Pow2(n - 1));
    }
  }

  lemma Distribute(m: nat, h: nat, t: nat)
    ensures m * (2 * h + t) == 2 * m * h + m * t
  {
  }

  lemma HalfQuotient(v: nat, m: nat)
    requires m >= 1
    ensures v / (2 * m) == v / m / 2
  {
    var q, r := v / m, v % m;
    var h := q / 2;
    var t := q - 2 * h;
    Distribute(m, h, t);
    DivModUnique(v, 2 * m, h, m * t + r);
  }
}
