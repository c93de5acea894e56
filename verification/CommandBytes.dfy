/**
 The command loop told by bytes alone (`src/protocol/command.cpp`, `src/proxy/session.cpp`): what the first byte of each
 client packet does to it.
 */
module CommandBytes {
  import opened Bytes
  import opened MysqlPacket
  import opened CommandLoop

  /** COM_STMT_PREPARE, COM_STMT_EXECUTE and COM_STMT_RESET. */
  predicate Statement(p: Packet) {
    p.payload != [] && (p.payload[0] == 0x16 || p.payload[0] == 0x17 || p.payload[0] == 0x1A)
  }

  /** COM_QUERY */
  predicate IsQuery(p: Packet) {
    p.payload != [] && p.payload[0] == 0x03
  }

  /** COM_QUIT */
  predicate IsQuit(p: Packet) {
    p.payload != [] && p.payload[0] == 0x01
  }

  /** COM_INIT_DB, the commands 0x04 to 0x07 and 0x09 to 0x0C, COM_PING and COM_STMT_CLOSE. */
  predicate Harmless(p: Packet) {
    && p.payload != []
    && var b := p.payload[0];
       b == 0x02 || 0x04 <= b <= 0x07 || 0x09 <= b <= 0x0C || b == 0x0E || b == 0x19
  }

  /** The packet is a command that the loop knows. */
  predicate Known(p: Packet) {
    Statement(p) || IsQuery(p) || IsQuit(p) || Harmless(p)
  }

  /** The packet goes to the server, given the verdict on it if it is a query. */
  predicate Passes(p: Packet, block: bool) {
    Harmless(p) || (IsQuery(p) && !block)
  }

  /** The first byte settles the command, and every byte is some command or none. */
  lemma ByteOfCommand(p: Packet)
    ensures CommandOf(p) == Quit <==> IsQuit(p)
    ensures CommandOf(p) == Query <==> IsQuery(p)
    ensures CommandOf(p) == Prepared <==> Statement(p)
    ensures CommandOf(p) == Passed <==> Harmless(p)
    ensures CommandOf(p) == Malformed <==> !Known(p)
  {
  }

  /** An ERR packet, byte by byte. */
  predicate IsErrorPacket(p: Packet, seqId: byte, low: byte, high: byte, text: string) {
    && p.seqId == seqId && |p.payload| == 9 + |text|
    && p.payload[..9] == [0xFF, low, high, 35, 72, 89, 48, 48, 48]
    && forall k :: 0 <= k < |text| ==> p.payload[9 + k] == text[k] as int % 256
  }

  /** A refused query is denied with code 1045, a statement command with code 1235, numbered one above the request. */
  lemma DenialBytes(p: Packet)
    ensures IsQuery(p) ==> IsErrorPacket(Denial(p), (p.seqId + 1) % 256, 0x15, 0x04, "Access denied by policy")
    ensures Statement(p) ==> IsErrorPacket(Denial(p), (p.seqId + 1) % 256, 0xD3, 0x04,
                               "Prepared statements are not supported by proxy policy enforcement")
  {
    hide ErrorPayload;
    ByteOfCommand(p);
    ErrorBytes(1045, 0x15, 0x04, "Access denied by policy");
    ErrorBytes(1235, 0xD3, 0x04, "Prepared statements are not supported by proxy policy enforcement");
  }

  lemma ErrorBytes(code: nat, low: byte, high: byte, text: string)
    requires code == low as nat + 256 * high as nat && |text| < 1000
    ensures forall id: byte :: IsErrorPacket(Packet(id, ErrorPayload(code, Ascii(text))), id, low, high, text)
  {
    hide ErrorPayload;
    ErrorShape(code, Ascii(text));
    var e := ErrorPayload(code, Ascii(text));
    assert e[..9] == [e[0], e[1], e[2]] + e[3..9];
    forall k | 0 <= k < |text| ensures e[9 + k] == text[k] as int % 256 {
      assert e[9..][k] == Ascii(text)[k];
    }
  }

  /** How a session ended at command `k`, by bytes. */
  predicate EndsAt(w: World, k: nat, stop: Stop)
    requires WellFormed(w) && k <= |w.client|
  {
    if k >= w.closedFrom then stop == Closing
    else if k == |w.client| then stop == Disconnected
    else
      var p, block := w.client[k], w.verdicts[k].block;
      && (stop == BadCommand <==> !Known(p))
      && (stop == QuitSent || stop == QuitLost <==> IsQuit(p))
      && (stop == ClientLost <==> Statement(p))
      && (stop == ServerLost || stop == RelayFailed <==> Passes(p, block))
      && stop != Closing && stop != Disconnected
  }

  lemma EndByBytes(w: World, k: nat, stop: Stop)
    requires WellFormed(w) && k <= |w.client| && StopsWith(w, k, stop)
    ensures EndsAt(w, k, stop)
  {
    hide CommandOf, RelayOf, ServerTries, ClientTries;
    if k < |w.client| {
      ByteOfCommand(w.client[k]);
    }
  }

  lemma CompletedByBytes(w: World, i: nat)
    requires WellFormed(w) && i < |w.client|
    ensures Forwarded(w, i) <==> Passes(w.client[i], w.verdicts[i].block)
    ensures Refused(w, i) <==> Statement(w.client[i]) || (IsQuery(w.client[i]) && w.verdicts[i].block)
    ensures Completes(w, i) ==> Known(w.client[i]) && !IsQuit(w.client[i])
  {
    hide CommandOf, RelayOf, ServerTries, ClientTries;
    ByteOfCommand(w.client[i]);
  }

  /** The client packets below `n` that go to the server. */
  predicate PassingBelow(w: World, n: nat, i: nat)
    requires WellFormed(w) && n <= |w.client|
  {
    i < n && Passes(w.client[i], w.verdicts[i].block)
  }

  /**
   Every session, by bytes: the server was sent exactly the known commands that are no statement commands and no
   blocked queries, in order, and a final COM_QUIT; every command before the last is known and no COM_QUIT, and why the
   session ended follows from the first byte of the last one.
   */
  lemma SessionByBytes(w: World, k: nat, stop: Stop, log: Log) returns (idx: seq<nat>)
    requires WellFormed(w) && k <= |w.client| && (forall i :: 0 <= i < k ==> Completes(w, i))
    requires StopsWith(w, k, stop) && Closed(w, k, stop, log)
    ensures Increasing(idx) && |idx| == |log.toServer|
    ensures forall j :: 0 <= j < |idx| ==> idx[j] < |w.client| && log.toServer[j] == w.client[idx[j]]
    ensures forall i :: i in idx <==>
      PassingBelow(w, k, i) || (i == k && (stop == QuitSent || stop == RelayFailed))
    ensures forall i :: 0 <= i < k ==> Known(w.client[i]) && !IsQuit(w.client[i])
    ensures EndsAt(w, k, stop)
  {
    hide Completes, StopsWith, Forwarded, Passes, Known, IsQuit, EndsAt;
    EndByBytes(w, k, stop);
    idx := ServerSeesExactlyForwarded(w, k);
    forall i | 0 <= i < k
      ensures Forwarded(w, i) <==> Passes(w.client[i], w.verdicts[i].block)
      ensures Known(w.client[i]) && !IsQuit(w.client[i])
    {
      CompletedByBytes(w, i);
    }
    LastInside(w, k, stop);
    var handed := idx;
    assert forall i :: i in handed <==> PassingBelow(w, k, i);
    if stop == QuitSent || stop == RelayFailed {
      idx := handed + [k];
      assert forall i :: i in idx <==> i in handed || i == k;
    }
  }

  lemma LastInside(w: World, k: nat, stop: Stop)
    requires WellFormed(w) && k <= |w.client| && StopsWith(w, k, stop)
    ensures stop == QuitSent || stop == RelayFailed ==> k < |w.client|
  {
    hide CommandOf, RelayOf;
  }

  /** What the client gets for a refused command is its denial and nothing else, if the write succeeds. */
  lemma RefusalByBytes(w: World, i: nat)
    requires WellFormed(w) && i < |w.client|
    requires Statement(w.client[i]) || (IsQuery(w.client[i]) && w.verdicts[i].block)
    ensures if ClientTries(w, i) in w.clientFails then ReplyTo(w, i) == []
      else
        && |ReplyTo(w, i)| == 1
        && var p, e := w.client[i], ReplyTo(w, i)[0];
           if IsQuery(p) then IsErrorPacket(e, (p.seqId + 1) % 256, 0x15, 0x04, "Access denied by policy")
           else IsErrorPacket(e, (p.seqId + 1) % 256, 0xD3, 0x04,
                              "Prepared statements are not supported by proxy policy enforcement")
  {
    hide CommandOf, RelayOf, ClientTries, Denial, IsErrorPacket;
    ByteOfCommand(w.client[i]);
    DenialBytes(w.client[i]);
  }

  /** The queries counted as blocked are the refused ones. */
  lemma {:induction false} RefusedByBytes(w: World, k: nat)
    requires WellFormed(w) && k <= |w.client|
    ensures RefusedQueries(w, k) == |set i | 0 <= i < k && IsQuery(w.client[i]) && w.verdicts[i].block|
  {
    hide CommandOf, IsQuery;
    if k > 0 {
      RefusedByBytes(w, k - 1);
      ByteOfCommand(w.client[k - 1]);
      var v := w.verdicts[k - 1];
      var before := set i | 0 <= i < k - 1 && IsQuery(w.client[i]) && w.verdicts[i].block;
      assert (set i | 0 <= i < k && IsQuery(w.client[i]) && w.verdicts[i].block)
          == if IsQuery(w.client[k - 1]) && v.block then before + {k - 1} else before;
    }
  }

  /** The other queries counted are those relayed. */
  lemma {:induction false} RelayedByBytes(w: World, k: nat)
    requires WellFormed(w) && k <= |w.client|
    ensures RelayedQueries(w, k) == |set i | 0 <= i < k && IsQuery(w.client[i]) && !w.verdicts[i].block|
  {
    hide CommandOf, IsQuery;
    if k > 0 {
      RelayedByBytes(w, k - 1);
      ByteOfCommand(w.client[k - 1]);
      var v := w.verdicts[k - 1];
      var before := set i | 0 <= i < k - 1 && IsQuery(w.client[i]) && !w.verdicts[i].block;
      assert (set i | 0 <= i < k && IsQuery(w.client[i]) && !w.verdicts[i].block)
          == if IsQuery(w.client[k - 1]) && !v.block then before + {k - 1} else before;
    }
  }

  /** The monitored ones are those of them that a rule in monitor mode let through. */
  lemma {:induction false} MonitoredByBytes(w: World, k: nat)
    requires WellFormed(w) && k <= |w.client|
    ensures MonitoredQueries(w, k)
         == |set i | 0 <= i < k && IsQuery(w.client[i]) && !w.verdicts[i].block && w.verdicts[i].monitored|
  {
    hide CommandOf, IsQuery;
    if k > 0 {
      MonitoredByBytes(w, k - 1);
      ByteOfCommand(w.client[k - 1]);
      var v := w.verdicts[k - 1];
      var before := set i | 0 <= i < k - 1 && IsQuery(w.client[i]) && !w.verdicts[i].block && w.verdicts[i].monitored;
      assert (set i | 0 <= i < k && IsQuery(w.client[i]) && !w.verdicts[i].block && w.verdicts[i].monitored)
          == if IsQuery(w.client[k - 1]) && !v.block && v.monitored then before + {k - 1} else before;
    }
  }

  /** The client gets the replies one behind the other, in the order of the commands. */
  lemma {:induction false} RepliesInOrder(w: World, i: nat, k: nat)
    requires WellFormed(w) && i < k <= |w.client|
    ensures |ToClient(w, i)| + |ReplyTo(w, i)| == |ToClient(w, i + 1)| <= |ToClient(w, k)|
    ensures ToClient(w, k)[|ToClient(w, i)|..|ToClient(w, i + 1)|] == ReplyTo(w, i)
    decreases k
  {
    hide ReplyTo;
    if i + 1 < k {
      RepliesInOrder(w, i, k - 1);
    }
  }
}
