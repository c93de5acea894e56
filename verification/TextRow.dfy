/**
 Length-encoded integers and text-protocol rows as the response relay reads them
 (`src/proxy/session.cpp`), against the encoding of rows by the
 MySQL Client/Server Protocol (pages Length-Encoded Integer and Text Resultset Row).
 */
module TextRow {
  import opened Bytes
  import opened Slices

  // ------------------------------------------------------------ protocol side

  /** The prefix that announces a length: none, 0xFC, 0xFD or 0xFE. */
  datatype Prefix = Bare | Two | Three | Eight

  datatype Cell = Null | Text(prefix: Prefix, bytes: seq<byte>)

  function Width(p: Prefix): nat {
    match p case Bare => 1 case Two => 2 case Three => 3 case Eight => 8
  }

  function Marker(p: Prefix): seq<byte> {
    match p case Bare => [] case Two => [0xFC] case Three => [0xFD] case Eight => [0xFE]
  }

  /** The length fits the chosen prefix; a wider prefix than needed is allowed. */
  predicate Encodable(c: Cell) {
    match c
    case Null => true
    case Text(Bare, bytes) => |bytes| < 0xFB
    case Text(p, bytes) => |bytes| < Pow256(Width(p))
  }

  predicate AllEncodable(cells: seq<Cell>) {
    forall i :: 0 <= i < |cells| ==> Encodable(cells[i])
  }

  function EncodeCell(c: Cell): seq<byte> {
    match c
    case Null => [0xFB]
    case Text(p, bytes) => Marker(p) + ToLE(|bytes|, Width(p)) + bytes
  }

  function EncodeRow(cells: seq<Cell>): seq<byte> {
    if cells == [] then [] else EncodeCell(cells[0]) + EncodeRow(cells[1..])
  }

  /** `payload` is a row of `n` text cells. */
  ghost predicate IsRow(payload: seq<byte>, n: nat) {
    exists cells :: |cells| == n && AllEncodable(cells) && EncodeRow(cells) == payload
  }

  // --------------------------------------------------------- what the code does

  datatype Lenenc = Lenenc(value: nat, next: nat)

  /** A length-encoded integer at `offset`: its value and the offset behind it. */
  function ReadInt(payload: seq<byte>, offset: nat): (r: Option<Lenenc>)
    ensures r.Some? ==> offset < r.value.next <= |payload| && r.value.value < U64
  {
    if offset >= |payload| then None
    else
      var first := payload[offset];
      if first < 0xFB then Some(Lenenc(first, offset + 1))
      else if first == 0xFB || first == 0xFF then None
      else
        var next := offset + 1 + (if first == 0xFC then 2 else if first == 0xFD then 3 else 8);
        if next > |payload| then None
        else
          Pow256Values();
          LEUnique(payload[offset + 1..next]);
          Some(Lenenc(FromLE(payload[offset + 1..next]), next))
  }

  /** The cell at `offset`; `offset + len` is computed modulo 2^64. */
  function SkipCell(payload: seq<byte>, offset: nat): (r: Option<nat>)
    ensures r.Some? ==> r.value <= |payload|
  {
    if offset >= |payload| then None
    else if payload[offset] == 0xFB then Some(offset + 1)
    else
      match ReadInt(payload, offset)
      case None => None
      case Some(l) =>
        var end := (l.next + l.value) % U64;
        if end > |payload| then None else Some(end)
  }

  function SkipCells(payload: seq<byte>, offset: nat, n: nat): Option<nat>
    decreases n
  {
    if n == 0 then Some(offset)
    else
      match SkipCell(payload, offset)
      case None => None
      case Some(next) => SkipCells(payload, next, n - 1)
  }

  predicate AcceptsRow(payload: seq<byte>, n: nat) {
    SkipCells(payload, 0, n) == Some(|payload|)
  }

  /** None of the `n` cells declares a length that wraps the 64-bit offset. */
  predicate NoWrap(payload: seq<byte>, offset: nat, n: nat)
    decreases n
  {
    n == 0 ||
    match SkipCell(payload, offset)
    case None => true
    case Some(next) =>
      && (payload[offset] == 0xFB ||
          var l := ReadInt(payload, offset).value; l.next + l.value < U64)
      && NoWrap(payload, next, n - 1)
  }

  /** The OK packet that may close a result set: two integers and four more bytes. */
  predicate IsFinalOk(payload: seq<byte>) {
    && payload != [] && payload[0] == 0
    && var a := ReadInt(payload, 1);
       a.Some? &&
       var b := ReadInt(payload, a.value.next);
       b.Some? && b.value.next + 4 <= |payload|
  }

  // ------------------------------------------------------------------ methods

  /** `parse_lenenc_integer`: advances `offset` past the integer it returns. */
  method ParseLenencInteger(payload: seq<byte>, offset0: nat) returns (ok: bool, offset: nat, value: nat)
    ensures ok == ReadInt(payload, offset0).Some?
    ensures ok ==> ReadInt(payload, offset0) == Some(Lenenc(value, offset))
  {
    offset, value := offset0, 0;
    if offset >= |payload| {
      return false, offset, value;
    }
    var first := payload[offset];
    offset := offset + 1;
    if first < 0xFB {
      return true, offset, first;
    }
    if first == 0xFC {
      if offset + 2 > |payload| {
        return false, offset, value;
      }
      value := payload[offset] as nat + 0x100 * (payload[offset + 1] as nat);
      LE2(payload[offset..offset + 2]);
      return true, offset + 2, value;
    }
    if first == 0xFD {
      if offset + 3 > |payload| {
        return false, offset, value;
      }
      value := payload[offset] as nat + 0x100 * (payload[offset + 1] as nat)
               + 0x1_0000 * (payload[offset + 2] as nat);
      LE3(payload[offset..offset + 3]);
      return true, offset + 3, value;
    }
    if first == 0xFE {
      if offset + 8 > |payload| {
        return false, offset, value;
      }
      for i := 0 to 8
        invariant value == FromLE(payload[offset..offset + i])
      {
        assert payload[offset..offset + i + 1] == payload[offset..offset + i] + [payload[offset + i]];
        LEAppend(payload[offset..offset + i], payload[offset + i]);
        value := value + payload[offset + i] * Pow256(i);
      }
      return true, offset + 8, value;
    }
    return false, offset, value;
  }

  /** `consume_lenenc_text_cell` */
  method ConsumeTextCell(payload: seq<byte>, offset0: nat) returns (ok: bool, offset: nat)
    ensures ok == SkipCell(payload, offset0).Some?
    ensures ok ==> SkipCell(payload, offset0) == Some(offset)
  {
    offset := offset0;
    if offset >= |payload| {
      return false, offset;
    }
    if payload[offset] == 0xFB {
      return true, offset + 1;
    }
    var len;
    ok, offset, len := ParseLenencInteger(payload, offset);
    if !ok {
      return;
    }
    if (offset + len) % U64 > |payload| {
      return false, offset;
    }
    offset := (offset + len) % U64;
  }

  /** `is_text_row_packet` */
  method IsTextRowPacket(payload: seq<byte>, columns: byte) returns (r: bool)
    ensures r == AcceptsRow(payload, columns)
  {
    var offset := 0;
    var i := 0;
    while i < columns
      invariant 0 <= i <= columns
      invariant SkipCells(payload, 0, columns) == SkipCells(payload, offset, columns - i)
    {
      var ok;
      ok, offset := ConsumeTextCell(payload, offset);
      if !ok {
        return false;
      }
      i := i + 1;
    }
    return offset == |payload|;
  }

  /** `is_resultset_final_ok_packet` */
  method IsResultsetFinalOk(payload: seq<byte>) returns (r: bool)
    ensures r == IsFinalOk(payload)
  {
    if payload == [] || payload[0] != 0 {
      return false;
    }
    var ok, offset, ignored := ParseLenencInteger(payload, 1);
    if !ok {
      return false;
    }
    ok, offset, ignored := ParseLenencInteger(payload, offset);
    if !ok {
      return false;
    }
    return offset + 4 <= |payload|;
  }

  // ------------------------------------------------------------------- lemmas

  lemma LE2(s: seq<byte>)
    requires |s| == 2
    ensures FromLE(s) == s[0] as nat + 0x100 * (s[1] as nat)
  {
    assert FromLE(s) == s[0] + 256 * FromLE(s[1..]);
    assert FromLE(s[1..]) == s[1] + 256 * FromLE(s[1..][1..]);
  }

  lemma LE3(s: seq<byte>)
    requires |s| == 3
    ensures FromLE(s) == s[0] as nat + 0x100 * (s[1] as nat) + 0x1_0000 * (s[2] as nat)
  {
    assert FromLE(s) == s[0] + 256 * FromLE(s[1..]);
    LE2(s[1..]);
  }

  lemma {:induction false} LEAppend(s: seq<byte>, b: byte)
    ensures FromLE(s + [b]) == FromLE(s) + b * Pow256(|s|)
  {
    if s == [] {
      assert s + [b] == [b] && FromLE([b][1..]) == 0;
    } else {
      LEAppend(s[1..], b);
      assert (s + [b])[1..] == s[1..] + [b];
      assert 256 * (b * Pow256(|s| - 1)) == b * Pow256(|s|);
    }
  }

  lemma FirstByte(payload: seq<byte>, offset: nat, part: seq<byte>)
    requires At(payload, offset, part) && part != []
    ensures payload[offset] == part[0]
  {
    assert payload[offset..offset + |part|][0] == payload[offset];
  }

  lemma OneByte(n: nat)
    requires n < 256
    ensures ToLE(n, 1) == [n]
  {
    assert ToLE(n, 1) == [n % 256] + ToLE(n / 256, 0);
  }

  lemma BehindMarker(payload: seq<byte>, offset: nat, marker: byte, tail: seq<byte>)
    requires At(payload, offset, [marker] + tail)
    ensures payload[offset + 1..offset + 1 + |tail|] == tail
  {
    assert payload[offset + 1..offset + 1 + |tail|] == payload[offset..offset + |[marker] + tail|][1..] == tail;
  }

  /** An encoded length is read back wherever it stands. */
  lemma ReadsLength(payload: seq<byte>, offset: nat, p: Prefix, n: nat)
    requires if p == Bare then n < 0xFB else n < Pow256(Width(p))
    requires At(payload, offset, Marker(p) + ToLE(n, Width(p)))
    ensures ReadInt(payload, offset) == Some(Lenenc(n, offset + |Marker(p)| + Width(p)))
    ensures payload[offset] == (if p == Bare then n else Marker(p)[0])
  {
    hide ToLE, FromLE, Pow256, At;
    FirstByte(payload, offset, Marker(p) + ToLE(n, Width(p)));
    if p == Bare {
      OneByte(n);
    } else {
      BehindMarker(payload, offset, Marker(p)[0], ToLE(n, Width(p)));
      LERoundTrip(n, Width(p));
    }
    InBounds(payload, offset, Marker(p) + ToLE(n, Width(p)));
  }

  lemma InBounds(payload: seq<byte>, offset: nat, part: seq<byte>)
    requires At(payload, offset, part)
    ensures offset + |part| <= |payload|
  {
  }

  lemma CellShape(c: Cell)
    requires Encodable(c)
    ensures var e := EncodeCell(c);
      e != [] && (e[0] == 0xFB <==> c.Null?) && e[0] != 0xFF && (e[0] == 0xFE ==> |e| >= 9)
  {
  }

  lemma AtPrefix(payload: seq<byte>, offset: nat, a: seq<byte>, b: seq<byte>)
    requires At(payload, offset, a + b)
    ensures At(payload, offset, a)
  {
    assert payload[offset..offset + |a|] == payload[offset..offset + |a + b|][..|a|] == a;
  }

  /** The length in front of a text cell is read back, and its end does not wrap. */
  lemma SkipsText(payload: seq<byte>, offset: nat, c: Cell)
    requires c.Text? && Encodable(c) && At(payload, offset, EncodeCell(c))
    ensures var l := ReadInt(payload, offset);
      l.Some? && l.value.value == |c.bytes| && l.value.next + |c.bytes| == offset + |EncodeCell(c)|
    ensures payload[offset] == 0xFE ==> c.prefix == Eight
  {
    hide ReadInt, ToLE, Pow256, At;
    var part := Marker(c.prefix) + ToLE(|c.bytes|, Width(c.prefix));
    AtPrefix(payload, offset, part, c.bytes);
    ReadsLength(payload, offset, c.prefix, |c.bytes|);
  }

  /** An encoded cell of a packet shorter than 2^64 bytes is skipped exactly. */
  lemma SkipsCell(payload: seq<byte>, offset: nat, c: Cell)
    requires Encodable(c) && At(payload, offset, EncodeCell(c)) && |payload| < U64
    ensures SkipCell(payload, offset) == Some(offset + |EncodeCell(c)|)
    ensures NoWrap(payload, offset, 1)
  {
    hide ReadInt, ToLE, Pow256, Encodable, Marker, Width;
    CellShape(c);
    FirstByte(payload, offset, EncodeCell(c));
    if c.Text? {
      SkipsText(payload, offset, c);
    }
    assert NoWrap(payload, offset + |EncodeCell(c)|, 0);
  }

  lemma {:induction false} SkipsRow(payload: seq<byte>, offset: nat, cells: seq<Cell>)
    requires AllEncodable(cells) && offset <= |payload| < U64 && payload[offset..] == EncodeRow(cells)
    ensures SkipCells(payload, offset, |cells|) == Some(|payload|)
    ensures NoWrap(payload, offset, |cells|)
    decreases |cells|
  {
    hide EncodeCell, Encodable, ReadInt;
    if cells != [] {
      var e := EncodeCell(cells[0]);
      var next := offset + |e|;
      assert payload[offset..] == e + EncodeRow(cells[1..]);
      assert payload[offset..next] == payload[offset..][..|e|] == e;
      assert payload[next..] == payload[offset..][|e|..] == EncodeRow(cells[1..]);
      SkipsCell(payload, offset, cells[0]);
      SkipsRow(payload, next, cells[1..]);
    }
  }

  /** A length that was read is the encoding of that length under one of the prefixes. */
  lemma PrefixOf(payload: seq<byte>, offset: nat) returns (p: Prefix)
    requires ReadInt(payload, offset).Some?
    ensures var l := ReadInt(payload, offset).value;
      && payload[offset..l.next] == Marker(p) + ToLE(l.value, Width(p))
      && (if p == Bare then l.value < 0xFB else l.value < Pow256(Width(p)))
  {
    var first := payload[offset];
    var l := ReadInt(payload, offset).value;
    p := if first < 0xFB then Bare else if first == 0xFC then Two else if first == 0xFD then Three else Eight;
    if p == Bare {
      assert ToLE(first, 1) == [first] + ToLE(first / 256, 0);
      assert payload[offset..l.next] == [] + [first];
    } else {
      LEUnique(payload[offset + 1..l.next]);
      assert payload[offset..l.next] == [first] + payload[offset + 1..l.next];
    }
  }

  /** A skipped cell that does not wrap is the encoding of some cell. */
  lemma CellOf(payload: seq<byte>, offset: nat) returns (c: Cell)
    requires NoWrap(payload, offset, 1) && SkipCell(payload, offset).Some?
    ensures var end := SkipCell(payload, offset).value;
      Encodable(c) && offset < end && payload[offset..end] == EncodeCell(c)
  {
    hide ReadInt, ToLE, Pow256, SkipCell, NoWrap;
    SkipsTo(payload, offset);
    var end := SkipCell(payload, offset).value;
    if payload[offset] == 0xFB {
      c := Null;
      assert payload[offset..end] == [0xFB];
    } else {
      var l := ReadInt(payload, offset).value;
      var p := PrefixOf(payload, offset);
      c := Text(p, payload[l.next..end]);
      Halved(payload, offset, l.next, end);
    }
  }

  lemma Halved(s: seq<byte>, i: nat, j: nat, k: nat)
    requires i <= j <= k <= |s|
    ensures s[i..k] == s[i..j] + s[j..k]
  {
  }

  lemma SkipsTo(payload: seq<byte>, offset: nat)
    requires NoWrap(payload, offset, 1) && SkipCell(payload, offset).Some?
    ensures offset < |payload|
    ensures var end := SkipCell(payload, offset).value;
      if payload[offset] == 0xFB then end == offset + 1
      else
        && ReadInt(payload, offset).Some?
        && var l := ReadInt(payload, offset).value; end == l.next + l.value <= |payload|
  {
    hide ReadInt;
  }

  lemma NoWrapTail(payload: seq<byte>, offset: nat, n: nat)
    requires n > 0 && NoWrap(payload, offset, n) && SkipCells(payload, offset, n).Some?
    ensures NoWrap(payload, offset, 1) && SkipCell(payload, offset).Some?
    ensures var end := SkipCell(payload, offset).value;
      NoWrap(payload, end, n - 1) && SkipCells(payload, end, n - 1) == SkipCells(payload, offset, n)
  {
  }

  lemma ConsRow(payload: seq<byte>, offset: nat, end: nat, c: Cell, more: seq<Cell>)
    requires offset <= end <= |payload| && Encodable(c) && AllEncodable(more)
    requires EncodeCell(c) == payload[offset..end] && EncodeRow(more) == payload[end..]
    ensures AllEncodable([c] + more) && EncodeRow([c] + more) == payload[offset..]
  {
    hide EncodeCell, Encodable;
    assert ([c] + more)[1..] == more;
    assert payload[offset..] == payload[offset..end] + payload[end..];
  }

  lemma {:induction false} CellsOf(payload: seq<byte>, offset: nat, n: nat) returns (cells: seq<Cell>)
    requires offset <= |payload| && NoWrap(payload, offset, n)
    requires SkipCells(payload, offset, n) == Some(|payload|)
    ensures |cells| == n && AllEncodable(cells) && EncodeRow(cells) == payload[offset..]
    decreases n
  {
    if n == 0 {
      cells := [];
    } else {
      var end := SkipCell(payload, offset).value;
      NoWrapTail(payload, offset, n);
      hide *;
      var c := CellOf(payload, offset);
      var more := CellsOf(payload, end, n - 1);
      cells := [c] + more;
      ConsRow(payload, offset, end, c, more);
    }
  }

  /** The relay's row test accepts exactly the rows of the protocol, wrapping lengths aside. */
  lemma RowTestExact(payload: seq<byte>, n: nat)
    requires |payload| < U64
    ensures IsRow(payload, n) <==> AcceptsRow(payload, n) && NoWrap(payload, 0, n)
  {
    if AcceptsRow(payload, n) && NoWrap(payload, 0, n) {
      var cells := CellsOf(payload, 0, n);
      assert payload[0..] == payload;
    }
    if IsRow(payload, n) {
      var cells :| |cells| == n && AllEncodable(cells) && EncodeRow(cells) == payload;
      assert payload[0..] == payload;
      SkipsRow(payload, 0, cells);
    }
  }

  const LENGTH: seq<byte> := [0xF8, 0xFF, 0xFF, 0xFF, 0xFF, 0xFF, 0xFF, 0xFF]

  lemma NearlyWrapping()
    ensures FromLE(LENGTH) == U64 - 8
  {
    hide FromLE;
    Shift(LENGTH, 0);
    Shift(LENGTH, 1);
    Shift(LENGTH, 2);
    Shift(LENGTH, 3);
    Shift(LENGTH, 4);
    LE3(LENGTH[5..]);
    assert LENGTH[0..] == LENGTH;
  }

  lemma Shift(s: seq<byte>, i: nat)
    requires i < |s|
    ensures FromLE(s[i..]) == s[i] + 256 * FromLE(s[i + 1..])
  {
    assert s[i..][1..] == s[i + 1..];
  }

  lemma WrappingCell(filler: seq<byte>)
    requires |filler| == 241
    ensures var payload := [0xFE] + LENGTH + filler;
      ReadInt(payload, 0) == Some(Lenenc(U64 - 8, 9)) && SkipCell(payload, 0) == Some(1)
  {
    hide FromLE;
    var payload := [0xFE] + LENGTH + filler;
    assert payload[1..9] == LENGTH;
    NearlyWrapping();
  }

  /** A wrapping length: 250 bytes that pass as two cells although no two cells encode to them. */
  lemma WrappingRowAccepted(filler: seq<byte>)
    requires |filler| == 241
    ensures var payload := [0xFE] + LENGTH + filler;
      AcceptsRow(payload, 2) && !IsRow(payload, 2)
  {
    hide FromLE, IsRow;
    var payload := [0xFE] + LENGTH + filler;
    WrappingCell(filler);
    assert SkipCell(payload, 1) == Some(250) by { assert payload[1] == 0xF8; }
    hide ReadInt, SkipCell;
    assert SkipCells(payload, 0, 2) == SkipCells(payload, 1, 1) == SkipCells(payload, 250, 0);
    assert !NoWrap(payload, 0, 2);
    RowTestExact(payload, 2);
  }
}
