/**
 The response relay of a session (`Session::relay_server_response`,
 `src/proxy/session.cpp`): copy server packets to the client and find the end of the
 response from packet bytes alone.
 */
module Relay {
  import opened Bytes
  import opened MysqlPacket
  import opened TextRow

  /** The commands whose replies the relay tells apart. */
  datatype Request = ForQuery | ForOther

  /** The relay's position inside a response, after the packets copied so far. */
  datatype Phase =
    | First
    | ColumnDefs(columns: byte, read: byte, prev: byte)
    | Rows(columns: byte, prev: byte)
    | Done
    | Refused

  /** The phase after copying `p`. */
  function Next(request: Request, phase: Phase, p: Packet): Phase
    requires !phase.Done? && !phase.Refused?
  {
    if p.payload == [] then Done
    else
      var first := p.payload[0];
      if phase.First? then
        if first == 0xFF || first == 0x00 || IsEof(p.payload) then Done
        else if first == 0xFB then Refused
        else if first > 0xFC then Done
        else ColumnDefs(first, 0, p.seqId)
      else if first == 0xFF || (p.seqId < phase.prev && phase.prev != 0xFF) then Done
      else if phase.ColumnDefs? then
        if IsEof(p.payload) then Rows(phase.columns, p.seqId)
        else
          var read := (phase.read + 1) % 256;
          if read > phase.columns + 1 then Done else ColumnDefs(phase.columns, read, p.seqId)
      else if IsEof(p.payload) then Done
      else if request == ForQuery && first == 0x00
              && !AcceptsRow(p.payload, phase.columns) && IsFinalOk(p.payload) then Done
      else Rows(phase.columns, p.seqId)
  }

  /** Packets taken from the server, packets the client got, and whether the relay reported success. */
  datatype Outcome = Outcome(read: nat, copied: nat, ok: bool)

  /** A relay over `ps` from index `i` on; the client connection fails the write attempts in `failing`. */
  function Run(request: Request, phase: Phase, ps: seq<Packet>, i: nat, failing: set<nat>, attempt: nat): (o: Outcome)
    requires i <= |ps|
    ensures o.copied <= o.read <= |ps| - i && o.read <= o.copied + 1
    ensures o.ok ==> o.copied == o.read
    decreases |ps| - i
  {
    if phase.Done? then Outcome(0, 0, true)
    else if phase.Refused? || i == |ps| then Outcome(0, 0, false)
    else if attempt in failing then Outcome(1, 0, false)
    else
      var o := Run(request, Next(request, phase, ps[i]), ps, i + 1, failing, attempt + 1);
      Outcome(o.read + 1, o.copied + 1, o.ok)
  }

  /** The packets `from..to` of a stream. */
  function Span(ps: seq<Packet>, from: nat, to: nat): seq<Packet>
    requires from <= to <= |ps|
  {
    ps[from..to]
  }

  lemma SpanStep(ps: seq<Packet>, from: nat, to: nat)
    requires from <= to <= |ps|
    ensures Span(ps, from, from) == []
    ensures to < |ps| ==> Span(ps, from, to + 1) == Span(ps, from, to) + [ps[to]]
  {
  }

  // ------------------------------------------------------------------- method

  /**
   Reads packets of the server stream `ps` from `start` on and copies each to the client until the
   response ends. Whatever the server sends, the client receives a prefix of it.
   */
  method RelayServerResponse(request: Request, ps: seq<Packet>, start: nat, failing: set<nat>, attempt: nat)
    returns (ok: bool, next: nat, sent: seq<Packet>)
    requires start <= |ps|
    ensures var o := Run(request, First, ps, start, failing, attempt);
      ok == o.ok && next == start + o.read <= |ps| && sent == Span(ps, start, start + o.copied)
  {
    hide Next, Span, Run, Ahead;
    next, sent := start, [];
    var phase := First;
    SpanStep(ps, start, start);
    Start(request, ps, start, failing, attempt);
    while !phase.Done?
      invariant start <= next <= |ps| && sent == Span(ps, start, next)
      invariant !phase.Refused?
      invariant Ahead(request, phase, ps, start, next, failing, attempt)
      decreases |ps| - next
    {
      Progress(request, phase, ps, start, next, failing, attempt);
      if next == |ps| {
        return false, next, sent;  // the server stream has ended
      }
      var pkt := ps[next];
      next := next + 1;
      if attempt + next - 1 - start in failing {
        return false, next, sent;
      }
      SpanStep(ps, start, next - 1);
      sent := sent + [pkt];
      phase := Inspect(request, phase, pkt);
      if phase.Refused? {
        Progress(request, phase, ps, start, next, failing, attempt);
        return false, next, sent;
      }
    }
    Progress(request, phase, ps, start, next, failing, attempt);
    return true, next, sent;
  }

  /** The relay that started at `start` is in `phase` with the next packet at `next`. */
  predicate Ahead(request: Request, phase: Phase, ps: seq<Packet>, start: nat, next: nat, failing: set<nat>,
                  attempt: nat)
    requires start <= next <= |ps|
  {
    var all := Run(request, First, ps, start, failing, attempt);
    var o := Run(request, phase, ps, next, failing, attempt + next - start);
    && all.read == next - start + o.read && all.copied == next - start + o.copied && all.ok == o.ok
  }

  lemma Start(request: Request, ps: seq<Packet>, start: nat, failing: set<nat>, attempt: nat)
    requires start <= |ps|
    ensures Ahead(request, First, ps, start, start, failing, attempt)
  {
  }

  lemma Progress(request: Request, phase: Phase, ps: seq<Packet>, start: nat, next: nat, failing: set<nat>,
                 attempt: nat)
    requires start <= next <= |ps| && Ahead(request, phase, ps, start, next, failing, attempt)
    ensures var all := Run(request, First, ps, start, failing, attempt);
      if phase.Done? then all.ok && all.read == next - start && all.copied == next - start
      else if phase.Refused? || next == |ps| then !all.ok && all.read == next - start && all.copied == next - start
      else if attempt + next - start in failing
      then !all.ok && all.read == next + 1 - start && all.copied == next - start
      else Ahead(request, Next(request, phase, ps[next]), ps, start, next + 1, failing, attempt)
  {
  }

  /** The relay's switch over the packet just copied. */
  method Inspect(request: Request, phase: Phase, pkt: Packet) returns (next: Phase)
    requires !phase.Done? && !phase.Refused?
    ensures next == Next(request, phase, pkt)
  {
    var payload := pkt.payload;
    if payload == [] {
      return Done;
    }
    var byte0 := payload[0];
    if phase.First? {
      if byte0 == 0xFF {
        return Done;
      }
      if byte0 == 0x00 {
        return Done;
      }
      if byte0 == 0xFE && |payload| < 9 {
        return Done;
      }
      if byte0 == 0xFB {
        return Refused;
      }
      if byte0 < 0x01 || byte0 > 0xFC {
        return Done;
      }
      return ColumnDefs(byte0, 0, pkt.seqId);
    }
    if byte0 == 0xFF {
      return Done;
    }
    if pkt.seqId < phase.prev && phase.prev != 0xFF {
      return Done;
    }
    match phase {
      case ColumnDefs(columns, read, _) =>
        if byte0 == 0xFE && |payload| < 9 {
          return Rows(columns, pkt.seqId);
        }
        var count := (read + 1) % 256;
        if count > columns + 1 {
          return Done;
        }
        return ColumnDefs(columns, count, pkt.seqId);
      case Rows(columns, _) =>
        var eofOrErr := (byte0 == 0xFE && |payload| < 9) || byte0 == 0xFF;
        var isRow := IsTextRowPacket(payload, columns);
        var isOk := IsResultsetFinalOk(payload);
        var finalOk := request == ForQuery && byte0 == 0x00 && !isRow && isOk;
        if eofOrErr || finalOk {
          return Done;
        }
        return Rows(columns, pkt.seqId);
    }
  }


  // ------------------------------------------------- replies of the protocol

  /** A reply is one packet, or a text result set with some number of rows. */
  datatype Shape = Single | ResultSet(columns: byte, rows: nat)

  function Length(shape: Shape): nat {
    match shape
    case Single => 1
    case ResultSet(columns, rows) => 1 + columns + 1 + rows + 1
  }

  predicate Consecutive(ps: seq<Packet>, from: nat, to: nat)
    requires to <= |ps|
  {
    forall i :: from < i < to ==> ps[i].seqId == (ps[i - 1].seqId + 1) % 256
  }

  /** A column definition opens with a length-encoded catalog name. */
  ghost predicate IsColumnDef(payload: seq<byte>) {
    exists c: Cell :: c.Text? && Encodable(c) && EncodeCell(c) <= payload
  }

  predicate IsErr(payload: seq<byte>) {
    payload != [] && payload[0] == 0xFF
  }

  /** The packets from `start` on are a COM_QUERY reply of the given shape (page Text Resultset). */
  ghost predicate IsReply(ps: seq<Packet>, start: nat, shape: Shape) {
    && start + Length(shape) <= |ps|
    && match shape
       case Single => ps[start].payload != [] && ps[start].payload[0] in {0x00, 0xFF}
       case ResultSet(columns, rows) =>
         var last := ps[start + 2 + columns + rows].payload;
         HasRows(ps, start, columns, rows) && (IsEof(last) || IsErr(last))
  }

  /** A result set but for its last packet: header, definitions, EOF and rows, numbered consecutively. */
  ghost predicate HasRows(ps: seq<Packet>, start: nat, columns: byte, rows: nat) {
    var defs, rowsAt := start + 1, start + 1 + columns + 1;
    && rowsAt + rows < |ps| && Consecutive(ps, start, rowsAt + rows + 1)
    && 1 <= columns <= 250
    && ps[start].payload == [columns]
    && (forall i :: defs <= i < defs + columns ==> IsColumnDef(ps[i].payload))
    && IsEof(ps[rowsAt - 1].payload)
    && (forall i :: rowsAt <= i < rowsAt + rows ==> IsRow(ps[i].payload, columns) && Framable(ps[i]))
  }

  /** A column definition is never an end-of-file or error packet. */
  lemma ColumnDefShape(payload: seq<byte>)
    requires IsColumnDef(payload)
    ensures payload != [] && payload[0] != 0xFF && !IsEof(payload)
  {
  }

  /** Neither is a row, whatever its first byte: 0xFE announces eight length bytes, 0x00 an empty cell. */
  lemma RowShape(payload: seq<byte>, columns: nat)
    requires IsRow(payload, columns) && columns >= 1 && |payload| < U64
    ensures payload != [] && payload[0] != 0xFF && !IsEof(payload)
    ensures AcceptsRow(payload, columns)
  {
    RowTestExact(payload, columns);
    var cells :| |cells| == columns && AllEncodable(cells) && EncodeRow(cells) == payload;
    CellShape(cells[0]);
    assert payload == EncodeCell(cells[0]) + EncodeRow(cells[1..]);
  }

  /** One step of `Run` while the client connection works. */
  lemma RunStep(request: Request, phase: Phase, ps: seq<Packet>, i: nat, failing: set<nat>, attempt: nat)
    requires i < |ps| && attempt !in failing && !phase.Done? && !phase.Refused?
    ensures var o := Run(request, phase, ps, i, failing, attempt);
      var r := Run(request, Next(request, phase, ps[i]), ps, i + 1, failing, attempt + 1);
      o.read == 1 + r.read && o.copied == 1 + r.copied && o.ok == r.ok
  {
  }

  lemma AfterDef(request: Request, columns: byte, read: byte, prev: byte, p: Packet)
    requires IsColumnDef(p.payload) && p.seqId == (prev + 1) % 256 && read <= columns <= 250
    ensures Next(request, ColumnDefs(columns, read, prev), p) == ColumnDefs(columns, read + 1, p.seqId)
  {
  }

  lemma AfterRow(request: Request, columns: byte, prev: byte, p: Packet)
    requires IsRow(p.payload, columns) && Framable(p) && p.seqId == (prev + 1) % 256 && columns >= 1
    ensures Next(request, Rows(columns, prev), p) == Rows(columns, p.seqId)
  {
    RowShape(p.payload, columns);
  }

  predicate Working(failing: set<nat>, attempt: nat, n: nat) {
    forall a :: attempt <= a < attempt + n ==> a !in failing
  }

  lemma {:induction false} ThroughDefs(request: Request, ps: seq<Packet>, i: nat, m: nat, columns: byte, read: byte,
                                       failing: set<nat>, attempt: nat)
    requires 0 < i <= i + m <= |ps| && Consecutive(ps, i - 1, i + m)
    requires read + m <= columns + 1 <= 251
    requires forall j :: i <= j < i + m ==> IsColumnDef(ps[j].payload)
    requires Working(failing, attempt, m)
    ensures var o := Run(request, ColumnDefs(columns, read, ps[i - 1].seqId), ps, i, failing, attempt);
      var r := Run(request, ColumnDefs(columns, read + m, ps[i + m - 1].seqId), ps, i + m, failing, attempt + m);
      o.read == m + r.read && o.copied == m + r.copied && o.ok == r.ok
    decreases m
  {
    hide Run, Next, IsColumnDef;
    if m > 0 {
      AfterDef(request, columns, read, ps[i - 1].seqId, ps[i]);
      RunStep(request, ColumnDefs(columns, read, ps[i - 1].seqId), ps, i, failing, attempt);
      ThroughDefs(request, ps, i + 1, m - 1, columns, read + 1, failing, attempt + 1);
    }
  }

  lemma {:induction false} ThroughRows(request: Request, ps: seq<Packet>, i: nat, m: nat, columns: byte,
                                       failing: set<nat>, attempt: nat)
    requires 0 < i <= i + m <= |ps| && Consecutive(ps, i - 1, i + m)
    requires columns >= 1
    requires forall j :: i <= j < i + m ==> IsRow(ps[j].payload, columns) && Framable(ps[j])
    requires Working(failing, attempt, m)
    ensures var o := Run(request, Rows(columns, ps[i - 1].seqId), ps, i, failing, attempt);
      var r := Run(request, Rows(columns, ps[i + m - 1].seqId), ps, i + m, failing, attempt + m);
      o.read == m + r.read && o.copied == m + r.copied && o.ok == r.ok
    decreases m
  {
    hide Run, Next, IsRow;
    if m > 0 {
      AfterRow(request, columns, ps[i - 1].seqId, ps[i]);
      RunStep(request, Rows(columns, ps[i - 1].seqId), ps, i, failing, attempt);
      ThroughRows(request, ps, i + 1, m - 1, columns, failing, attempt + 1);
    }
  }

  /**
   Main theorem of the relay: from the first packet of a reply it reads exactly that reply and
   copies all of it, whatever follows on the stream and whatever bytes the rows start with.
   */
  lemma RelayReadsExactly(request: Request, ps: seq<Packet>, start: nat, shape: Shape, failing: set<nat>, attempt: nat)
    requires IsReply(ps, start, shape) && Working(failing, attempt, Length(shape))
    ensures Run(request, First, ps, start, failing, attempt) == Outcome(Length(shape), Length(shape), true)
  {
    match shape
    case Single =>
      assert Next(request, First, ps[start]) == Done;
    case ResultSet(columns, rows) =>
      var last := start + 2 + columns + rows;
      AfterLast(request, columns, ps[last - 1].seqId, ps[last]);
      ResultSetRead(request, ps, start, columns, rows, failing, attempt);
  }

  /**
   The same on the wire: reading the bytes of a reply followed by anything, the relay sends the client
   exactly the bytes of the reply and leaves the rest unread.
   */
  lemma RelayOnTheWire(request: Request, reply: seq<Packet>, shape: Shape, tail: seq<byte>)
    requires AllFramable(reply) && |reply| == Length(shape) && IsReply(reply, 0, shape)
    ensures var bytes := Frame(reply) + tail;
      && Run(request, First, Packets(bytes), 0, {}, 0) == Outcome(|reply|, |reply|, true)
      && Frame(Span(Packets(bytes), 0, |reply|)) == Frame(reply)
      && AfterPackets(bytes, |reply|) == tail
  {
    hide Packets, Frame, AfterPackets, Run;
    var ps := Packets(Frame(reply) + tail);
    PacketsOfFrame(reply, tail);
    assert Span(ps, 0, |reply|) == reply;
    ReplyExtends(reply, Packets(tail), shape);
    RelayReadsExactly(request, ps, 0, shape, {}, 0);
  }

  lemma ReplyExtends(reply: seq<Packet>, more: seq<Packet>, shape: Shape)
    requires |reply| == Length(shape) && IsReply(reply, 0, shape)
    ensures IsReply(reply + more, 0, shape)
  {
  }

  lemma ResultSetRead(request: Request, ps: seq<Packet>, start: nat, columns: byte, rows: nat,
                      failing: set<nat>, attempt: nat)
    requires HasRows(ps, start, columns, rows) && Working(failing, attempt, columns + rows + 3)
    requires var last := start + 2 + columns + rows;
      Next(request, Rows(columns, ps[last - 1].seqId), ps[last]) == Done
    ensures var o := Run(request, First, ps, start, failing, attempt);
      o.read == columns + rows + 3 && o.copied == o.read && o.ok
  {
    hide Run, Next, IsColumnDef, IsRow, IsEof, IsErr, Framable;
    var defs, rowsAt := start + 1, start + columns + 2;
    var last := rowsAt + rows;
    var p0, p1 := ColumnDefs(columns, columns, ps[rowsAt - 2].seqId), Rows(columns, ps[last - 1].seqId);
    AfterHeader(request, ps[start]);
    AfterMetadata(request, columns, ps[rowsAt - 2].seqId, ps[rowsAt - 1]);
    RunDone(request, ps, last + 1, failing, attempt + columns + rows + 3);
    RunStep(request, First, ps, start, failing, attempt);
    ThroughDefs(request, ps, defs, columns, columns, 0, failing, attempt + 1);
    RunStep(request, p0, ps, rowsAt - 1, failing, attempt + columns + 1);
    ThroughRows(request, ps, rowsAt, rows, columns, failing, attempt + columns + 2);
    RunStep(request, p1, ps, last, failing, attempt + columns + rows + 2);
  }

  lemma AfterHeader(request: Request, p: Packet)
    requires |p.payload| == 1 && 1 <= p.payload[0] <= 250
    ensures Next(request, First, p) == ColumnDefs(p.payload[0], 0, p.seqId)
  {
  }

  lemma AfterMetadata(request: Request, columns: byte, prev: byte, p: Packet)
    requires IsEof(p.payload) && p.seqId == (prev + 1) % 256
    ensures Next(request, ColumnDefs(columns, columns, prev), p) == Rows(columns, p.seqId)
  {
  }

  lemma AfterLast(request: Request, columns: byte, prev: byte, p: Packet)
    requires IsEof(p.payload) || IsErr(p.payload)
    ensures Next(request, Rows(columns, prev), p) == Done
  {
  }

  lemma RunDone(request: Request, ps: seq<Packet>, i: nat, failing: set<nat>, attempt: nat)
    requires i <= |ps|
    ensures Run(request, Done, ps, i, failing, attempt) == Outcome(0, 0, true)
  {
  }

  // ------------------------------------------------------------------ other replies

  /** A result set for a query may also end in an OK packet, one that is no row. */
  lemma FinalOkEnds(ps: seq<Packet>, start: nat, columns: byte, rows: nat, failing: set<nat>, attempt: nat)
    requires HasRows(ps, start, columns, rows) && Working(failing, attempt, columns + rows + 3)
    requires var last := ps[start + 2 + columns + rows].payload;
      IsFinalOk(last) && |last| < U64 && !AcceptsRow(last, columns)
    ensures Run(ForQuery, First, ps, start, failing, attempt) == Outcome(columns + rows + 3, columns + rows + 3, true)
  {
    hide AcceptsRow, IsColumnDef, IsRow, Run, Framable;
    var last := start + 2 + columns + rows;
    assert ps[last].seqId == (ps[last - 1].seqId + 1) % 256;
    ResultSetRead(ForQuery, ps, start, columns, rows, failing, attempt);
  }

  /** Replies of one packet: empty, OK, ERR, EOF, and first bytes above 0xFC. A request for a local file, 0xFB, is shown
      to the client and then fails the relay. */
  lemma SinglePackets(request: Request, ps: seq<Packet>, start: nat, failing: set<nat>, attempt: nat)
    requires start < |ps| && attempt !in failing
    ensures var p := ps[start].payload;
      && (p == [] || p[0] == 0x00 || p[0] >= 0xFD ==>
            Run(request, First, ps, start, failing, attempt) == Outcome(1, 1, true))
      && (p != [] && p[0] == 0xFB ==> Run(request, First, ps, start, failing, attempt) == Outcome(1, 1, false))
  {
  }

  /** A server that breaks off in the middle of a reply fails the relay; what came is with the client. */
  lemma {:induction false} BrokenOff(request: Request, phase: Phase, ps: seq<Packet>, i: nat, m: nat, attempt: nat)
    requires i + m <= |ps| && m < Run(request, phase, ps, i, {}, attempt).read
    ensures Run(request, phase, ps[..i + m], i, {}, attempt) == Outcome(m, m, false)
    decreases m
  {
    hide Next;
    if m > 0 {
      BrokenOff(request, Next(request, phase, ps[i]), ps, i + 1, m - 1, attempt + 1);
    }
  }

  /** One definition more than the header announces is let pass; the next one ends the relay. */
  lemma TooManyDefinitions(request: Request, ps: seq<Packet>, start: nat, columns: byte, failing: set<nat>,
                           attempt: nat)
    requires 1 <= columns <= 250 && start + columns + 3 <= |ps| && ps[start].payload == [columns]
    requires Consecutive(ps, start, start + columns + 3) && Working(failing, attempt, columns + 3)
    requires forall i :: start < i < start + columns + 3 ==> IsColumnDef(ps[i].payload)
    ensures Run(request, First, ps, start, failing, attempt) == Outcome(columns + 3, columns + 3, true)
  {
    hide Run, IsColumnDef;
    var last := start + columns + 2;
    ColumnDefShape(ps[last].payload);
    assert Next(request, ColumnDefs(columns, columns + 1, ps[last - 1].seqId), ps[last]) == Done;
    AfterHeader(request, ps[start]);
    hide Next;
    RunStep(request, First, ps, start, failing, attempt);
    ThroughDefs(request, ps, start + 1, columns + 1, columns, 0, failing, attempt + 1);
    RunStep(request, ColumnDefs(columns, columns + 1, ps[last - 1].seqId), ps, last, failing, attempt + columns + 2);
    RunDone(request, ps, last + 1, failing, attempt + columns + 3);
  }

  /** A packet numbered below its predecessor ends a result set, the wrap from 255 excepted. */
  lemma ReversedEnds(request: Request, phase: Phase, ps: seq<Packet>, i: nat, failing: set<nat>, attempt: nat)
    requires phase.ColumnDefs? || phase.Rows?
    requires i < |ps| && attempt !in failing && ps[i].seqId < phase.prev && phase.prev < 255
    ensures Run(request, phase, ps, i, failing, attempt) == Outcome(1, 1, true)
  {
  }
}
