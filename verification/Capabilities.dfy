/**
 Capability stripping on both sides of the handshake (`src/protocol/handshake.cpp`): the proxy
 removes CLIENT_SSL, CLIENT_DEPRECATE_EOF and CLIENT_QUERY_ATTRIBUTES from the server greeting
 (page Protocol::HandshakeV10) and from the client response (page HandshakeResponse41).
 */
module Capabilities {
  import opened Bytes
  import opened MysqlPacket

  /** CLIENT_SSL (bit 11), CLIENT_DEPRECATE_EOF (bit 24) and CLIENT_QUERY_ATTRIBUTES (bit 27). */
  const STRIPPED: nat := 0x0900_0800

  /** The first NUL at or after `from`, or the length if there is none. */
  function NulAt(s: seq<byte>, from: nat): (i: nat)
    requires from <= |s|
    ensures from <= i <= |s|
    ensures forall k :: from <= k < i ==> s[k] != 0
    ensures i < |s| ==> s[i] == 0
    decreases |s| - from
  {
    if from == |s| || s[from] == 0 then from else NulAt(s, from + 1)
  }

  // ----------------------------------------------------------- server greeting

  /** The fields of a greeting up to the upper capability half; `caps` is the whole 32-bit word. */
  datatype Greeting = Greeting(protocol: byte, version: seq<byte>, idAndSalt: seq<byte>, caps: nat,
                               charsetAndStatus: seq<byte>, rest: seq<byte>)

  predicate ValidGreeting(g: Greeting) {
    && 0 !in g.version && |g.idAndSalt| == 13 && g.caps < 0x1_0000_0000
    && |g.charsetAndStatus| == 3
  }

  function EncodeGreeting(g: Greeting): seq<byte>
    requires ValidGreeting(g)
  {
    [g.protocol] + g.version + [0] + g.idAndSalt
    + ToLE(g.caps % 0x1_0000, 2) + g.charsetAndStatus + ToLE(g.caps / 0x1_0000, 2) + g.rest
  }

  /** Where the lower capability half starts, if the payload is long enough to hold both halves. */
  function CapsAt(payload: seq<byte>): (r: Option<nat>)
    ensures r.Some? ==> 15 <= r.value && r.value + 7 <= |payload|
  {
    if |payload| < 2 then None
    else
      var nul := NulAt(payload, 1);
      if nul == |payload| || nul + 14 + 7 > |payload| then None else Some(nul + 14)
  }

  /** The greeting payload the client is shown. */
  function StripGreeting(payload: seq<byte>): (r: seq<byte>)
    ensures |r| == |payload|
  {
    match CapsAt(payload)
    case None => payload
    case Some(at) =>
      AndNotBound(payload[at + 1], 8);
      AndNotBound(payload[at + 6], 9);
      payload[at + 1 := AndNot(payload[at + 1], 8)][at + 6 := AndNot(payload[at + 6], 9)]
  }

  /** `strip_unsupported_capabilities`: edits the serialized packet in place. */
  method StripUnsupportedCapabilities(p: Packet) returns (bytes: seq<byte>)
    requires Framable(p)
    ensures bytes == Serialized(Packet(p.seqId, StripGreeting(p.payload)))
  {
    bytes := Serialize(p);
    ghost var head := ToLE(|p.payload|, 3) + [p.seqId];
    var payload := p.payload;
    if |payload| < 2 {
      return;
    }
    var pos := 1;
    while pos < |payload| && payload[pos] != 0
      invariant 1 <= pos <= |payload|
      invariant NulAt(payload, 1) == NulAt(payload, pos)
    {
      pos := pos + 1;
    }
    if pos >= |payload| {
      return;
    }
    pos := pos + 1;
    pos := pos + 13;
    if pos + 7 > |payload| {
      return;
    }
    var cap1 := 4 + pos;
    var cap2 := cap1 + 5;
    AndNotBound(bytes[cap1 + 1], 8);
    bytes := bytes[cap1 + 1 := AndNot(bytes[cap1 + 1], 8)];
    if cap2 + 1 < |bytes| {
      AndNotBound(bytes[cap2 + 1], 9);
      bytes := bytes[cap2 + 1 := AndNot(bytes[cap2 + 1], 9)];
    }
    assert bytes == head + StripGreeting(payload);
  }

  // ----------------------------------------------------------- client response

  /** The response payload the server is shown. */
  function StripResponse(payload: seq<byte>): (r: seq<byte>)
    ensures |r| == |payload|
  {
    if |payload| < 4 then payload
    else ToLE(AndNot(FromLE(payload[..4]), STRIPPED), 4) + payload[4..]
  }

  /** `strip_unsupported_client_capabilities` */
  method StripUnsupportedClientCapabilities(p: Packet) returns (bytes: seq<byte>)
    requires Framable(p)
    ensures bytes == Serialized(Packet(p.seqId, StripResponse(p.payload)))
  {
    bytes := Serialize(p);
    ghost var head := ToLE(|p.payload|, 3) + [p.seqId];
    assert bytes == head + p.payload;
    if |p.payload| < 4 || |bytes| < 8 {
      return;
    }
    assert bytes[4..8] == p.payload[..4];
    var caps := FromLE(bytes[4..8]);
    caps := AndNot(caps, STRIPPED);
    bytes := bytes[..4] + ToLE(caps, 4) + bytes[8..];
    assert bytes == head + StripResponse(p.payload);
  }

  // -------------------------------------------------------------------- lemmas

  lemma NulFound(s: seq<byte>, from: nat, at: nat)
    requires from <= at < |s| && s[at] == 0 && forall k :: from <= k < at ==> s[k] != 0
    ensures NulAt(s, from) == at
  {
  }

  /** The word mask acts on the two bytes that hold the three bits, and on no other. */
  lemma MaskByte(lo: byte, hi: nat, mlo: byte, mhi: nat)
    ensures AndNot(lo as nat + 256 * hi, mlo as nat + 256 * mhi) == AndNot(lo, mlo) + 256 * AndNot(hi, mhi)
  {
    hide AndNot;
    assert Pow2(8) == 256 by { assert Pow2(4) == 16; assert Pow2(8) == 16 * Pow2(4); }
    AndNotSplit(lo, hi, mlo, mhi, 8);
  }

  lemma MaskByBytes(b0: byte, b1: byte, b2: byte, b3: byte)
    ensures AndNot(b0 as nat + 0x100 * b1 as nat + 0x1_0000 * b2 as nat + 0x100_0000 * b3 as nat, STRIPPED)
         == b0 as nat + 0x100 * AndNot(b1, 8) + 0x1_0000 * b2 as nat + 0x100_0000 * AndNot(b3, 9)
  {
    hide AndNot;
    var v2 := b2 as nat + 256 * b3 as nat;
    var v1 := b1 as nat + 256 * v2;
    MaskByte(b0, v1, 0, 0x09_0008);
    MaskByte(b1, v2, 8, 0x0900);
    MaskByte(b2, b3, 0, 9);
    AndNotZero(b0);
    AndNotZero(b2);
  }

  /** Byte `i` of a capability word. */
  function ByteOf(v: nat, i: nat): byte {
    if i == 0 then v % 256 else ByteOf(v / 256, i - 1)
  }

  lemma Quotients(v: nat)
    ensures var q1 := v / 256; var q2 := q1 / 256; var q3 := q2 / 256;
      && ByteOf(v, 0) == v % 256 && ByteOf(v, 1) == q1 % 256 && ByteOf(v, 2) == q2 % 256 && ByteOf(v, 3) == q3 % 256
      && v == v % 256 + 256 * q1 && q1 == q1 % 256 + 256 * q2 && q2 == q2 % 256 + 256 * q3
  {
  }

  lemma TwoBytes(n: nat)
    ensures ToLE(n, 2) == [n % 256, n / 256 % 256]
  {
  }

  lemma WordHalves(v: nat)
    ensures v % 0x1_0000 == v % 256 + 256 * (v / 256 % 256) && v / 0x1_0000 == v / 256 / 256
  {
  }

  lemma LowBytes(a: byte, b: byte)
    ensures (a as nat + 256 * b as nat) % 256 == a && (a as nat + 256 * b as nat) / 256 % 256 == b
  {
  }

  lemma Halves(v: nat)
    requires v < 0x1_0000_0000
    ensures ToLE(v % 0x1_0000, 2) == [ByteOf(v, 0), ByteOf(v, 1)]
    ensures ToLE(v / 0x1_0000, 2) == [ByteOf(v, 2), ByteOf(v, 3)]
    ensures v == ByteOf(v, 0) as nat + 0x100 * ByteOf(v, 1) as nat + 0x1_0000 * ByteOf(v, 2) as nat
                 + 0x100_0000 * ByteOf(v, 3) as nat
  {
    hide ByteOf, ToLE;
    Quotients(v);
    WordHalves(v);
    LowBytes(v % 256, v / 256 % 256);
    TwoBytes(v % 0x1_0000);
    TwoBytes(v / 0x1_0000);
  }

  lemma BytesOfSum(b0: byte, b1: byte, b2: byte, b3: byte)
    ensures var v := b0 as nat + 0x100 * b1 as nat + 0x1_0000 * b2 as nat + 0x100_0000 * b3 as nat;
      v < 0x1_0000_0000 && ByteOf(v, 0) == b0 && ByteOf(v, 1) == b1 && ByteOf(v, 2) == b2 && ByteOf(v, 3) == b3
  {
    var q2 := b2 as nat + 0x100 * b3 as nat;
    var q1 := b1 as nat + 0x100 * q2;
    var v := b0 as nat + 0x100 * q1;
    assert v / 256 == q1 && q1 / 256 == q2 && q2 / 256 == b3;
    Quotients(v);
  }

  /** Bytes of a stripped capability word. */
  lemma StrippedBytes(v: nat)
    requires v < 0x1_0000_0000
    ensures var m := AndNot(v, STRIPPED);
      && m < 0x1_0000_0000
      && ByteOf(m, 0) == ByteOf(v, 0) && ByteOf(m, 1) == AndNot(ByteOf(v, 1), 8)
      && ByteOf(m, 2) == ByteOf(v, 2) && ByteOf(m, 3) == AndNot(ByteOf(v, 3), 9)
  {
    hide ByteOf, AndNot;
    var b0, b1, b2, b3 := ByteOf(v, 0), ByteOf(v, 1), ByteOf(v, 2), ByteOf(v, 3);
    Halves(v);
    MaskByBytes(b0, b1, b2, b3);
    AndNotBound(b1, 8);
    AndNotBound(b3, 9);
    BytesOfSum(b0, AndNot(b1, 8), b2, AndNot(b3, 9));
  }

  lemma GreetingLayout(g: Greeting)
    requires ValidGreeting(g)
    ensures var e, head := EncodeGreeting(g), GreetingHead(g);
      && |head| == |g.version| + 15 && CapsAt(e) == Some(|head|)
      && e == head + [ByteOf(g.caps, 0), ByteOf(g.caps, 1)] + g.charsetAndStatus
              + [ByteOf(g.caps, 2), ByteOf(g.caps, 3)] + g.rest
  {
    hide ByteOf, ToLE, NulAt;
    var e := EncodeGreeting(g);
    Halves(g.caps);
    assert forall k :: 1 <= k < 1 + |g.version| ==> e[k] == g.version[k - 1];
    NulFound(e, 1, 1 + |g.version|);
  }

  /** Everything before the lower capability bytes. */
  function GreetingHead(g: Greeting): seq<byte> {
    [g.protocol] + g.version + [0] + g.idAndSalt
  }

  lemma EditTwo(head: seq<byte>, lower: seq<byte>, mid: seq<byte>, upper: seq<byte>, rest: seq<byte>,
                x: byte, y: byte)
    requires |lower| == 2 && |mid| == 3 && |upper| == 2
    ensures var e := head + lower + mid + upper + rest;
      && e[|head| + 1] == lower[1] && e[|head| + 6] == upper[1]
      && e[|head| + 1 := x][|head| + 6 := y] == head + [lower[0], x] + mid + [upper[0], y] + rest
  {
  }

  /** A greeting with the full layout keeps every field and loses the mask from its capabilities. */
  lemma GreetingStripped(g: Greeting)
    requires ValidGreeting(g)
    ensures ValidGreeting(g.(caps := AndNot(g.caps, STRIPPED)))
    ensures StripGreeting(EncodeGreeting(g)) == EncodeGreeting(g.(caps := AndNot(g.caps, STRIPPED)))
  {
    hide ByteOf, AndNot, EncodeGreeting, CapsAt;
    StrippedBytes(g.caps);
    var h := g.(caps := AndNot(g.caps, STRIPPED));
    GreetingLayout(g);
    GreetingLayout(h);
    var lower, upper := [ByteOf(g.caps, 0), ByteOf(g.caps, 1)], [ByteOf(g.caps, 2), ByteOf(g.caps, 3)];
    EditTwo(GreetingHead(g), lower, g.charsetAndStatus, upper, g.rest, ByteOf(h.caps, 1), ByteOf(h.caps, 3));
  }

  lemma JoinedHalves(lo: nat, hi: nat)
    requires lo < 0x1_0000 && hi < 0x1_0000
    ensures var v := lo + 0x1_0000 * hi; v < 0x1_0000_0000 && v % 0x1_0000 == lo && v / 0x1_0000 == hi
  {
  }

  /** The greeting a payload with both capability halves was encoded from. */
  lemma GreetingOf(payload: seq<byte>) returns (g: Greeting)
    requires CapsAt(payload).Some?
    ensures ValidGreeting(g) && EncodeGreeting(g) == payload
  {
    hide FromLE, ToLE, NulAt, Pow256;
    var at := CapsAt(payload).value;
    var nul := NulAt(payload, 1);
    var lo, hi := FromLE(payload[at..at + 2]), FromLE(payload[at + 5..at + 7]);
    Pow256Values();
    LEUnique(payload[at..at + 2]);
    LEUnique(payload[at + 5..at + 7]);
    JoinedHalves(lo, hi);
    g := Greeting(payload[0], payload[1..nul], payload[nul + 1..at], lo + 0x1_0000 * hi,
                  payload[at + 2..at + 5], payload[at + 7..]);
    Pieces(payload, nul, at);
  }

  lemma Pieces(s: seq<byte>, nul: nat, at: nat)
    requires 1 <= nul && nul + 14 == at && at + 7 <= |s| && s[nul] == 0
    ensures s == [s[0]] + s[1..nul] + [0] + s[nul + 1..at]
                 + s[at..at + 2] + s[at + 2..at + 5] + s[at + 5..at + 7] + s[at + 7..]
  {
  }

  /** Any other greeting is passed on unchanged. */
  lemma GreetingUnchanged(payload: seq<byte>)
    ensures (exists g :: ValidGreeting(g) && EncodeGreeting(g) == payload) || StripGreeting(payload) == payload
  {
    if CapsAt(payload).Some? {
      var g := GreetingOf(payload);
    }
  }

  /** The server sees the client's capabilities less the same three, and the rest of the response unchanged. */
  lemma ResponseStripped(payload: seq<byte>)
    requires |payload| >= 4
    ensures FromLE(StripResponse(payload)[..4]) == AndNot(FromLE(payload[..4]), STRIPPED)
    ensures StripResponse(payload)[4..] == payload[4..]
  {
    var caps := FromLE(payload[..4]);
    Pow256Values();
    LEUnique(payload[..4]);
    AndNotBound(caps, STRIPPED);
    LERoundTrip(AndNot(caps, STRIPPED), 4);
    assert StripResponse(payload)[..4] == ToLE(AndNot(caps, STRIPPED), 4);
  }

  lemma StrippingIdempotent(payload: seq<byte>)
    ensures StripResponse(StripResponse(payload)) == StripResponse(payload)
    ensures StripGreeting(StripGreeting(payload)) == StripGreeting(payload)
  {
    hide FromLE, ToLE, AndNot, StripGreeting, CapsAt;
    if |payload| >= 4 {
      ResponseStripped(payload);
      AndNotIdempotent(FromLE(payload[..4]), STRIPPED);
    }
    if CapsAt(payload).Some? {
      GreetingTwice(payload);
    } else {
      GreetingWithout(payload);
    }
  }

  lemma GreetingWithout(payload: seq<byte>)
    requires CapsAt(payload).None?
    ensures StripGreeting(payload) == payload
  {
    hide CapsAt;
  }

  lemma GreetingTwice(payload: seq<byte>)
    requires CapsAt(payload).Some?
    ensures StripGreeting(StripGreeting(payload)) == StripGreeting(payload)
  {
    hide AndNot, NulAt;
    var at, stripped := CapsAt(payload).value, StripGreeting(payload);
    NulFound(stripped, 1, at - 14);
    AndNotIdempotent(payload[at + 1], 8);
    AndNotIdempotent(payload[at + 6], 9);
  }

  /** A client response, once stripped, claims none of the three capabilities, and every other one as before. */
  lemma ResponseBits(payload: seq<byte>, k: nat)
    requires |payload| >= 4
    ensures Bit(FromLE(StripResponse(payload)[..4]), k) <==> Bit(FromLE(payload[..4]), k) && k !in {11, 24, 27}
  {
    hide Bit, AndNot, FromLE, StripResponse;
    ResponseStripped(payload);
    AndNotBit(FromLE(payload[..4]), STRIPPED, k);
    StrippedHasBit(k);
  }

  lemma StrippedHasBit(k: nat)
    ensures Bit(STRIPPED, k) <==> k in {11, 24, 27}
  {
    hide Bit;
    NibbleBits(STRIPPED, k);
    NibbleBits(0x90_0080, k - 4);
    NibbleBits(0x9_0008, k - 8);
    NibbleBits(0x9000, k - 12);
    NibbleBits(0x900, k - 16);
    NibbleBits(0x90, k - 20);
    NibbleBits(0x9, k - 24);
    if k >= 28 { ZeroHasNoBits(k - 28); }
  }

  /** The four low bits of `v`, and the rest one hexadecimal digit further. */
  lemma NibbleBits(v: nat, k: int)
    ensures k == 0 ==> Bit(v, k) == (v % 2 == 1)
    ensures k == 1 ==> Bit(v, k) == (v / 2 % 2 == 1)
    ensures k == 2 ==> Bit(v, k) == (v / 4 % 2 == 1)
    ensures k == 3 ==> Bit(v, k) == (v / 8 % 2 == 1)
    ensures k >= 4 ==> Bit(v, k) == Bit(v / 16, k - 4)
  {
    if k >= 1 { assert Bit(v, k) == Bit(v / 2, k - 1); }
    if k >= 2 { assert Bit(v / 2, k - 1) == Bit(v / 4, k - 2); }
    if k >= 3 { assert Bit(v / 4, k - 2) == Bit(v / 8, k - 3); }
    if k >= 4 { assert Bit(v / 8, k - 3) == Bit(v / 16, k - 4); }
  }
}
