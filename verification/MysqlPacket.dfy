/**
 The MySQL wire frame (`src/protocol/mysql_packet.cpp`): a three-byte
 little-endian payload length, a sequence id and the payload.
 */
module MysqlPacket {
  import opened Bytes

  const MAX_PAYLOAD := 0xFF_FFFF

  datatype Packet = Packet(seqId: byte, payload: seq<byte>)

  /** A packet whose length fits the three-byte length field. */
  predicate Framable(p: Packet) {
    |p.payload| <= MAX_PAYLOAD
  }

  predicate AllFramable(ps: seq<Packet>) {
    forall i :: 0 <= i < |ps| ==> Framable(ps[i])
  }

  /** End-of-file marker of the text protocol; 0xFE is also a row prefix, so the length decides. */
  predicate IsEof(payload: seq<byte>) {
    payload != [] && payload[0] == 0xFE && |payload| < 9
  }

  /** The wire image of a packet; an oversized one serializes to nothing. */
  function Serialized(p: Packet): seq<byte> {
    if Framable(p) then ToLE(|p.payload|, 3) + [p.seqId] + p.payload else []
  }

  /** The wire image of a packet sequence. */
  function Frame(ps: seq<Packet>): seq<byte> {
    if ps == [] then [] else Serialized(ps[0]) + Frame(ps[1..])
  }

  /** Parses one packet; `None` for a short header or a payload shorter than declared. */
  function Parse(data: seq<byte>): Option<Packet> {
    if |data| < 4 then None
    else
      var length := FromLE(data[..3]);
      if |data| < 4 + length then None
      else Some(Packet(data[3], data[4..4 + length]))
  }

  /** The packets that can be read from a byte stream, up to the first incomplete one. */
  function Packets(data: seq<byte>): seq<Packet>
    decreases |data|
  {
    match Parse(data)
    case None => []
    case Some(p) => [p] + Packets(data[4 + |p.payload|..])
  }

  /** The bytes left after reading `n` packets. */
  function AfterPackets(data: seq<byte>, n: nat): seq<byte>
    requires n <= |Packets(data)|
    decreases n
  {
    if n == 0 then data
    else AfterPackets(data[4 + |Parse(data).value.payload|..], n - 1)
  }

  // ------------------------------------------------------------ framing laws

  /** Parsing is the left inverse of serializing, whatever follows on the stream. */
  lemma ParseSerialized(p: Packet, tail: seq<byte>)
    requires Framable(p)
    ensures Parse(Serialized(p) + tail) == Some(p)
    ensures |Serialized(p)| == 4 + |p.payload|
    ensures (Serialized(p) + tail)[4 + |p.payload|..] == tail
  {
    var data := Serialized(p) + tail;
    assert data[..3] == ToLE(|p.payload|, 3);
    Pow256Values();
    LERoundTrip(|p.payload|, 3);
    assert data[4..4 + |p.payload|] == p.payload;
  }

  /** And the right inverse: a parsed packet serializes to exactly the bytes it was read from. */
  lemma SerializedParse(data: seq<byte>)
    requires Parse(data).Some?
    ensures var p := Parse(data).value;
      Framable(p) && Serialized(p) == data[..4 + |p.payload|]
  {
    var p := Parse(data).value;
    Pow256Values();
    LEUnique(data[..3]);
    assert data[..4 + |p.payload|] == data[..3] + [data[3]] + data[4..4 + |p.payload|];
  }

  lemma PacketsStep(p: Packet, more: seq<byte>)
    requires Framable(p)
    ensures Packets(Serialized(p) + more) == [p] + Packets(more)
    ensures forall n: nat | n <= |Packets(more)| ::
      AfterPackets(Serialized(p) + more, n + 1) == AfterPackets(more, n)
  {
    ParseSerialized(p, more);
    hide Parse, Serialized;
  }

  /** Reading a framed sequence followed by anything returns the sequence first. */
  lemma {:induction false} PacketsOfFrame(ps: seq<Packet>, tail: seq<byte>)
    requires AllFramable(ps)
    ensures Packets(Frame(ps) + tail) == ps + Packets(tail)
    ensures AfterPackets(Frame(ps) + tail, |ps|) == tail
    decreases |ps|
  {
    hide Serialized, Packets;
    if ps == [] {
      assert Frame(ps) + tail == tail;
    } else {
      var more := Frame(ps[1..]) + tail;
      assert Frame(ps) + tail == Serialized(ps[0]) + more;
      PacketsStep(ps[0], more);
      PacketsOfFrame(ps[1..], tail);
      assert ps == [ps[0]] + ps[1..];
    }
  }

  lemma {:induction false} PacketsFramable(data: seq<byte>)
    ensures AllFramable(Packets(data))
    decreases |data|
  {
    if Parse(data).Some? {
      SerializedParse(data);
      PacketsFramable(data[4 + |Parse(data).value.payload|..]);
    }
  }

  lemma PacketsHead(data: seq<byte>) returns (p: Packet, rest: seq<byte>)
    requires Packets(data) != []
    ensures Framable(p) && data == Serialized(p) + rest && Packets(data) == [p] + Packets(rest)
  {
    SerializedParse(data);
    p := Parse(data).value;
    rest := data[4 + |p.payload|..];
  }

  /** The bytes of the first `n` packets are their wire images, in order. */
  lemma {:induction false} FrameOfPackets(data: seq<byte>, n: nat)
    requires n <= |Packets(data)|
    ensures data == Frame(Packets(data)[..n]) + AfterPackets(data, n)
    ensures Packets(AfterPackets(data, n)) == Packets(data)[n..]
    decreases n
  {
    hide Serialized, Packets;
    if n == 0 {
      assert Packets(data)[..0] == [] && Packets(data)[0..] == Packets(data);
    } else {
      var p, rest := PacketsHead(data);
      PacketsStep(p, rest);
      FrameOfPackets(rest, n - 1);
      var first := Packets(data)[..n];
      assert first[0] == p && first[1..] == Packets(rest)[..n - 1];
    }
  }

  lemma FrameStep(ps: seq<Packet>)
    ensures Frame(ps) == if ps == [] then [] else Serialized(ps[0]) + Frame(ps[1..])
  {
    hide Serialized;
  }

  lemma TailOfSum(a: seq<Packet>, b: seq<Packet>)
    requires a != []
    ensures (a + b)[0] == a[0] && (a + b)[1..] == a[1..] + b
  {
  }

  lemma Regrouped(x: seq<byte>, y: seq<byte>, z: seq<byte>)
    ensures (x + y) + z == x + (y + z)
  {
  }

  lemma {:induction false} FrameAppend(a: seq<Packet>, b: seq<Packet>)
    ensures Frame(a + b) == Frame(a) + Frame(b)
  {
    hide Serialized, Frame;
    FrameStep(a);
    if a == [] {
      assert a + b == b;
    } else {
      FrameStep(a + b);
      TailOfSum(a, b);
      FrameAppend(a[1..], b);
      Regrouped(Serialized(a[0]), Frame(a[1..]), Frame(b));
    }
  }

  lemma FrameOne(p: Packet)
    ensures Frame([p]) == Serialized(p)
  {
  }

  /** Two framable sequences with the same wire image are the same sequence. */
  lemma FrameInjective(a: seq<Packet>, b: seq<Packet>)
    requires AllFramable(a) && AllFramable(b) && Frame(a) == Frame(b)
    ensures a == b
  {
    PacketsOfFrame(a, []);
    PacketsOfFrame(b, []);
    assert Frame(a) + [] == Frame(a) && Frame(b) + [] == Frame(b);
    assert a == a + Packets([]) && b == b + Packets([]);
  }

  // ---------------------------------------------------------- serialization

  /** Fills header and payload of one wire packet in place. */
  method Serialize(p: Packet) returns (bytes: seq<byte>)
    ensures bytes == Serialized(p)
  {
    var len := |p.payload|;
    if len > MAX_PAYLOAD {
      return [];
    }
    var result := new byte[4 + len];
    result[0] := len % 256;
    result[1] := len / 256 % 256;
    result[2] := len / 0x1_0000 % 256;
    result[3] := p.seqId;
    for i := 0 to len
      invariant forall k :: 0 <= k < i ==> result[4 + k] == p.payload[k]
      invariant result[0] == len % 256 && result[1] == len / 256 % 256
      invariant result[2] == len / 0x1_0000 % 256 && result[3] == p.seqId
    {
      result[4 + i] := p.payload[i];
    }
    bytes := result[..];
    HeaderBytes(len);
    assert bytes[4..] == p.payload;
    assert bytes == bytes[..3] + [bytes[3]] + bytes[4..];
  }

  lemma HeaderBytes(len: nat)
    requires len <= MAX_PAYLOAD
    ensures ToLE(len, 3) == [len % 256, len / 256 % 256, len / 0x1_0000 % 256]
  {
  }

  const SQL_STATE: seq<byte> := [72, 89, 48, 48, 48]  // "HY000"
  const HASH: byte := 35

  /** The ERR payload the proxy sends, with the message cut so that the packet always frames. */
  function ErrorPayload(code: nat, message: seq<byte>): seq<byte>
    requires code < 0x1_0000
  {
    var kept := if |message| > MAX_PAYLOAD - 9 then message[..MAX_PAYLOAD - 9] else message;
    [0xFF] + ToLE(code, 2) + [HASH] + SQL_STATE + kept
  }

  method MakeError(code: nat, message: seq<byte>, seqId: byte) returns (p: Packet)
    requires code < 0x1_0000
    ensures p == Packet(seqId, ErrorPayload(code, message))
    ensures Framable(p) && p.payload[0] == 0xFF
    ensures p.payload[1] as nat + 256 * p.payload[2] as nat == code && p.payload[3..9] == [35, 72, 89, 48, 48, 48]
    ensures p.payload[9..] == if |message| <= MAX_PAYLOAD - 9 then message else message[..MAX_PAYLOAD - 9]
  {
    hide ToLE, FromLE;
    var safe := if |message| > MAX_PAYLOAD - 9 then message[..MAX_PAYLOAD - 9] else message;
    var payload := new byte[9 + |safe|];
    payload[0] := 0xFF;
    payload[1] := code % 256;
    payload[2] := code / 256 % 256;
    payload[3] := HASH;
    var pos := 4;
    for i := 0 to 5
      invariant pos == 4 + i
      invariant payload[0] == 0xFF && payload[1] == code % 256 && payload[2] == code / 256 % 256
      invariant payload[3] == HASH
      invariant forall k :: 0 <= k < i ==> payload[4 + k] == SQL_STATE[k]
    {
      payload[pos] := SQL_STATE[i];
      pos := pos + 1;
    }
    ghost var head := payload[..9];
    CodeBytes(code);
    assert head == [0xFF] + ToLE(code, 2) + [HASH] + SQL_STATE;
    for i := 0 to |safe|
      invariant pos == 9 + i
      invariant payload[..9] == head
      invariant forall k :: 0 <= k < i ==> payload[9 + k] == safe[k]
    {
      payload[pos] := safe[i];
      pos := pos + 1;
    }
    assert payload[9..] == safe;
    assert payload[..] == payload[..9] + payload[9..];
    p := Packet(seqId, payload[..]);
    ErrorShape(code, message);
  }

  lemma ErrorShape(code: nat, message: seq<byte>)
    requires code < 0x1_0000
    ensures var e := ErrorPayload(code, message);
      && 9 <= |e| <= MAX_PAYLOAD && e[0] == 0xFF
      && e[1] as nat + 256 * e[2] as nat == code && e[3..9] == [35, 72, 89, 48, 48, 48]
      && e[9..] == if |message| <= MAX_PAYLOAD - 9 then message else message[..MAX_PAYLOAD - 9]
  {
    hide ToLE, FromLE;
    CodeBytes(code);
    var e := ErrorPayload(code, message);
    assert e[1..3] == ToLE(code, 2);
    assert e[1] == e[1..3][0] && e[2] == e[1..3][1];
  }

  lemma CodeBytes(code: nat)
    requires code < 0x1_0000
    ensures ToLE(code, 2) == [code % 256, code / 256 % 256]
    ensures FromLE(ToLE(code, 2)) == code
  {
    assert ToLE(code, 2) == [code % 256] + ToLE(code / 256, 1);
    assert ToLE(code / 256, 1) == [code / 256 % 256] + ToLE(code / 256 / 256, 0);
    Pow256Values();
    LERoundTrip(code, 2);
  }

  // ---------------------------------------------------------------- streams

  /** One blocking read of exactly `n` bytes at `pos`; a short stream is drained and the read fails. */
  method ReadExactly(data: seq<byte>, pos0: nat, n: nat) returns (chunk: Option<seq<byte>>, pos: nat)
    requires pos0 <= |data|
    ensures pos0 + n <= |data| ==> chunk == Some(data[pos0..pos0 + n]) && pos == pos0 + n
    ensures pos0 + n > |data| ==> chunk == None && pos == |data|
  {
    if pos0 + n <= |data| {
      return Some(data[pos0..pos0 + n]), pos0 + n;
    }
    return None, |data|;
  }

  /** `read_one_packet`: header first, then the declared payload, then the parser. */
  method ReadOnePacket(data: seq<byte>, pos0: nat) returns (r: Option<Packet>, pos: nat)
    requires pos0 <= |data|
    ensures pos <= |data|
    ensures Packets(data[pos0..]) == [] ==> r == None && pos == |data|
    ensures Packets(data[pos0..]) != [] ==>
      && r == Some(Packets(data[pos0..])[0])
      && data[pos..] == AfterPackets(data[pos0..], 1)
      && Packets(data[pos..]) == Packets(data[pos0..])[1..]
  {
    hide Parse, FromLE, ToLE;
    ghost var before := data[pos0..];
    ShortOrWhole(before);
    var header;
    header, pos := ReadExactly(data, pos0, 4);
    if header.None? {
      return None, pos;
    }
    var length := FromLE(header.value[..3]);
    assert before[..3] == header.value[..3];
    var body;
    body, pos := ReadExactly(data, pos, length);
    if body.None? {
      return None, pos;
    }
    var buf := header.value + body.value;
    Joined(data, pos0, 4, length);
    r := Parse(buf);
    assert AfterPackets(before, 1) == AfterPackets(before[4 + length..], 0);
  }

  lemma Joined(data: seq<byte>, pos: nat, m: nat, n: nat)
    requires pos + m + n <= |data|
    ensures data[pos..pos + m] + data[pos + m..pos + m + n] == data[pos..][..m + n]
    ensures data[pos + m + n..] == data[pos..][m + n..]
  {
  }

  /** The parser takes exactly the bytes that the header announces, or finds them missing. */
  lemma ShortOrWhole(data: seq<byte>)
    ensures |data| < 4 ==> Parse(data) == None
    ensures |data| >= 4 ==>
      var n := FromLE(data[..3]);
      if |data| < 4 + n then Parse(data) == None
      else Parse(data).Some? && Parse(data) == Parse(data[..4 + n]) && |Parse(data).value.payload| == n
  {
    hide FromLE;
    if |data| >= 4 {
      var n := FromLE(data[..3]);
      if 4 + n <= |data| {
        var whole := data[..4 + n];
        assert whole[..3] == data[..3] && whole[4..4 + n] == data[4..4 + n];
      }
    }
  }
}
