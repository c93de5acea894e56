/**
 The command loop of a session after the handshake (`Session::run`,
 `src/proxy/session.cpp`): which client packets reach the server, what the client gets back,
 and what is counted.
 */
module CommandLoop {
  import opened Bytes
  import opened MysqlPacket
  import opened Relay

  /** What the policy engine answers for one query (`PolicyResult` as far as the loop reads it). */
  datatype Verdict = Verdict(block: bool, monitored: bool)

  /**
   Everything outside the loop: the packets either peer will ever send, the write attempts each
   connection fails, the verdict for each client packet if it is a query, and the iteration from
   which on the session's closing flag is seen set.
   */
  datatype World = World(
    client: seq<Packet>,
    server: seq<Packet>,
    clientFails: set<nat>,
    serverFails: set<nat>,
    verdicts: seq<Verdict>,
    closedFrom: nat)

  predicate WellFormed(w: World) {
    |w.verdicts| == |w.client|
  }

  // ------------------------------------------------------ command extraction

  datatype Command = Malformed | Quit | Query | Prepared | Passed

  /** `extract_command`: the command byte, or malformed for an empty payload or an unknown byte. */
  function CommandOf(p: Packet): Command {
    if p.payload == [] then Malformed
    else
      var b := p.payload[0];
      if b == 0x01 then Quit
      else if b == 0x03 then Query
      else if b in {0x16, 0x17, 0x1A} then Prepared
      else if b in {0x02, 0x04, 0x05, 0x06, 0x07, 0x09, 0x0A, 0x0B, 0x0C, 0x0E, 0x19} then Passed
      else Malformed
  }

  const DENIED: seq<byte> := Ascii("Access denied by policy")
  const UNSUPPORTED: seq<byte> := Ascii("Prepared statements are not supported by proxy policy enforcement")

  function Ascii(s: string): (b: seq<byte>)
    ensures |b| == |s|
  {
    seq(|s|, i requires 0 <= i < |s| => s[i] as int % 256)
  }

  // ------------------------------------------------- what each command is due

  /** Client packet `i` is handed to the server and its reply relayed. */
  predicate Forwarded(w: World, i: nat)
    requires WellFormed(w) && i < |w.client|
  {
    var c := CommandOf(w.client[i]);
    c == Passed || (c == Query && !w.verdicts[i].block)
  }

  predicate RefusedQuery(w: World, i: nat)
    requires WellFormed(w) && i < |w.client|
  {
    CommandOf(w.client[i]) == Query && w.verdicts[i].block
  }

  /** A query that passes only because the rule it breaks is in monitor mode. */
  predicate MonitoredQuery(w: World, i: nat)
    requires WellFormed(w) && i < |w.client|
  {
    CommandOf(w.client[i]) == Query && !w.verdicts[i].block && w.verdicts[i].monitored
  }

  predicate Refused(w: World, i: nat)
    requires WellFormed(w) && i < |w.client|
  {
    RefusedQuery(w, i) || CommandOf(w.client[i]) == Prepared
  }

  function RequestOf(p: Packet): Request {
    if CommandOf(p) == Query then ForQuery else ForOther
  }

  /** The ERR packet a refused command is answered with. */
  function Denial(p: Packet): Packet {
    var id := (p.seqId + 1) % 256;
    if CommandOf(p) == Query then Packet(id, ErrorPayload(1045, DENIED))
    else Packet(id, ErrorPayload(1235, UNSUPPORTED))
  }

  // ------------------------------ the effect of the first `k` commands, each done

  /** Write attempts made to the server. */
  function ServerTries(w: World, k: nat): nat
    requires WellFormed(w) && k <= |w.client|
  {
    if k == 0 then 0 else ServerTries(w, k - 1) + (if Forwarded(w, k - 1) then 1 else 0)
  }

  /** Server packets read. */
  function ServerRead(w: World, k: nat): (n: nat)
    requires WellFormed(w) && k <= |w.client|
    ensures n <= |w.server|
    decreases k, 0
  {
    if k == 0 then 0
    else if Forwarded(w, k - 1) then ServerRead(w, k - 1) + RelayOf(w, k - 1).read
    else ServerRead(w, k - 1)
  }

  /** Write attempts made to the client. */
  function ClientTries(w: World, k: nat): nat
    requires WellFormed(w) && k <= |w.client|
    decreases k, 0
  {
    if k == 0 then 0
    else if Forwarded(w, k - 1) then ClientTries(w, k - 1) + RelayOf(w, k - 1).read
    else if Refused(w, k - 1) then ClientTries(w, k - 1) + 1
    else ClientTries(w, k - 1)
  }

  /** The relay of the reply to client packet `i`, once the commands before it are done. */
  function RelayOf(w: World, i: nat): (o: Outcome)
    requires WellFormed(w) && i < |w.client|
    ensures ServerRead(w, i) + o.read <= |w.server| && o.copied <= o.read
    decreases i, 1
  {
    Run(RequestOf(w.client[i]), First, w.server, ServerRead(w, i), w.clientFails, ClientTries(w, i))
  }

  /** Command `i` ends without ending the session. */
  predicate Completes(w: World, i: nat)
    requires WellFormed(w) && i < |w.client|
  {
    if Forwarded(w, i) then ServerTries(w, i) !in w.serverFails && RelayOf(w, i).ok
    else if CommandOf(w.client[i]) == Prepared then ClientTries(w, i) !in w.clientFails
    else RefusedQuery(w, i)
  }

  /** The packets handed to the server. */
  function ToServer(w: World, k: nat): seq<Packet>
    requires WellFormed(w) && k <= |w.client|
  {
    if k == 0 then []
    else if Forwarded(w, k - 1) then ToServer(w, k - 1) + [w.client[k - 1]]
    else ToServer(w, k - 1)
  }

  /** What the client gets for command `i`. */
  function ReplyTo(w: World, i: nat): seq<Packet>
    requires WellFormed(w) && i < |w.client|
  {
    if Forwarded(w, i) then
      Span(w.server, ServerRead(w, i), ServerRead(w, i) + RelayOf(w, i).copied)
    else if Refused(w, i) && ClientTries(w, i) !in w.clientFails then [Denial(w.client[i])]
    else []
  }

  function ToClient(w: World, k: nat): seq<Packet>
    requires WellFormed(w) && k <= |w.client|
  {
    if k == 0 then [] else ToClient(w, k - 1) + ReplyTo(w, k - 1)
  }

  function RefusedQueries(w: World, k: nat): nat
    requires WellFormed(w) && k <= |w.client|
  {
    if k == 0 then 0 else RefusedQueries(w, k - 1) + (if RefusedQuery(w, k - 1) then 1 else 0)
  }

  function RelayedQueries(w: World, k: nat): nat
    requires WellFormed(w) && k <= |w.client|
  {
    if k == 0 then 0
    else RelayedQueries(w, k - 1)
         + (if CommandOf(w.client[k - 1]) == Query && Forwarded(w, k - 1) then 1 else 0)
  }

  function MonitoredQueries(w: World, k: nat): nat
    requires WellFormed(w) && k <= |w.client|
  {
    if k == 0 then 0
    else MonitoredQueries(w, k - 1)
         + (if MonitoredQuery(w, k - 1) then 1 else 0)
  }

  // ------------------------------------------------------------------ the loop

  datatype Stop = Closing | Disconnected | BadCommand | QuitSent | QuitLost | ServerLost | RelayFailed | ClientLost

  /** Why the loop stops at command `k`, given that all earlier ones are done. */
  predicate StopsWith(w: World, k: nat, stop: Stop)
    requires WellFormed(w) && k <= |w.client|
  {
    if k >= w.closedFrom then stop == Closing
    else if k == |w.client| then stop == Disconnected
    else match CommandOf(w.client[k])
      case Malformed => stop == BadCommand
      case Quit => stop == if ServerTries(w, k) in w.serverFails then QuitLost else QuitSent
      case Prepared => stop == ClientLost && ClientTries(w, k) in w.clientFails
      case _ =>
        && Forwarded(w, k)
        && if ServerTries(w, k) in w.serverFails then stop == ServerLost
           else stop == RelayFailed && !RelayOf(w, k).ok
  }

  /** Cursors and write counts before a command, as plain numbers. */
  predicate Before(w: World, i: nat, serverNext: nat, serverTries: nat, clientTries: nat)
    requires WellFormed(w) && i <= |w.client|
  {
    serverNext == ServerRead(w, i) && serverTries == ServerTries(w, i) && clientTries == ClientTries(w, i)
  }

  /** Answers a refused command with its ERR packet; only a prepared statement minds a lost client. */
  method Refuse(w: World, i: nat, clientTries: nat) returns (stop: Option<Stop>, replies: seq<Packet>)
    requires WellFormed(w) && i < |w.client| && i < w.closedFrom
    requires Refused(w, i) && clientTries == ClientTries(w, i)
    ensures stop.None? <==> Completes(w, i)
    ensures stop.Some? ==> StopsWith(w, i, stop.value) && stop.value == ClientLost
    ensures replies == ReplyTo(w, i) && ClientTries(w, i + 1) == clientTries + 1
  {
    hide RelayOf;
    var pkt := w.client[i];
    var err;
    if CommandOf(pkt) == Query {
      err := MakeError(1045, DENIED, (pkt.seqId + 1) % 256);
    } else {
      err := MakeError(1235, UNSUPPORTED, (pkt.seqId + 1) % 256);
    }
    if clientTries !in w.clientFails {
      return None, [err];
    }
    return if CommandOf(pkt) == Prepared then Some(ClientLost) else None, [];
  }

  /** Hands a command to the server and relays the reply. */
  method Forward(w: World, i: nat, serverNext: nat, serverTries: nat, clientTries: nat)
    returns (stop: Option<Stop>, replies: seq<Packet>, next: nat)
    requires WellFormed(w) && i < |w.client| && i < w.closedFrom
    requires Forwarded(w, i) && Before(w, i, serverNext, serverTries, clientTries)
    ensures stop.None? <==> Completes(w, i)
    ensures stop.Some? ==> StopsWith(w, i, stop.value) && stop.value in {ServerLost, RelayFailed}
    ensures replies == if stop == Some(ServerLost) then [] else ReplyTo(w, i)
    ensures serverNext <= next
    ensures stop.None? ==> Before(w, i + 1, next, serverTries + 1, clientTries + next - serverNext)
  {
    hide Run, Span;
    if serverTries in w.serverFails {
      return Some(ServerLost), [], serverNext;
    }
    var ok, n, sent := RelayServerResponse(RequestOf(w.client[i]), w.server, serverNext, w.clientFails, clientTries);
    return if ok then None else Some(RelayFailed), sent, n;
  }

  /** `extract_command` and the dispatch on it, for client packet `i`. */
  method Serve(w: World, i: nat, serverNext: nat, serverTries: nat, clientTries: nat)
    returns (stop: Option<Stop>, handed: bool, replies: seq<Packet>, next: nat, tries: nat)
    requires WellFormed(w) && i < |w.client| && i < w.closedFrom
    requires Before(w, i, serverNext, serverTries, clientTries)
    ensures stop.None? <==> Completes(w, i)
    ensures stop.None? ==>
      && handed == Forwarded(w, i) && replies == ReplyTo(w, i)
      && Before(w, i + 1, next, serverTries + (if handed then 1 else 0), tries)
    ensures stop.Some? ==>
      && StopsWith(w, i, stop.value) && handed == (stop.value in {QuitSent, RelayFailed})
      && replies == if stop.value == RelayFailed then ReplyTo(w, i) else []
  {
    hide ReplyTo, RelayOf;
    handed, replies, next, tries := false, [], serverNext, clientTries;
    match CommandOf(w.client[i]) {
      case Malformed =>
        stop := Some(BadCommand);
      case Quit =>
        handed := serverTries !in w.serverFails;
        stop := Some(if handed then QuitSent else QuitLost);
      case Prepared =>
        stop, replies := Refuse(w, i, clientTries);
        tries := clientTries + 1;
        if stop.Some? { LostClient(w, i); }
      case Query =>
        if w.verdicts[i].block {
          stop, replies := Refuse(w, i, clientTries);
          tries := clientTries + 1;
        } else {
          stop, replies, next := Forward(w, i, serverNext, serverTries, clientTries);
          tries := clientTries + next - serverNext;
          handed := stop != Some(ServerLost);
        }
      case Passed =>
        stop, replies, next := Forward(w, i, serverNext, serverTries, clientTries);
        tries := clientTries + next - serverNext;
        handed := stop != Some(ServerLost);
    }
  }

  lemma LostClient(w: World, i: nat)
    requires WellFormed(w) && i < |w.client| && Refused(w, i) && ClientTries(w, i) in w.clientFails
    ensures ReplyTo(w, i) == []
  {
  }

  /** What a session has sent and counted. */
  datatype Log = Log(toServer: seq<Packet>, toClient: seq<Packet>, total: nat, blocked: nat, monitored: nat)

  /** The log after the first `k` commands. */
  predicate Tallied(w: World, k: nat, log: Log)
    requires WellFormed(w) && k <= |w.client|
  {
    && log.toServer == ToServer(w, k) && log.toClient == ToClient(w, k)
    && log.blocked == RefusedQueries(w, k)
    && log.total == RefusedQueries(w, k) + RelayedQueries(w, k)
    && log.monitored == MonitoredQueries(w, k)
  }

  /** The log of a session that stopped at command `k`: at most that command and the start of a reply more. */
  predicate Closed(w: World, k: nat, stop: Stop, log: Log)
    requires WellFormed(w) && k <= |w.client| && StopsWith(w, k, stop)
  {
    && log.toServer == ToServer(w, k) + (if stop in {QuitSent, RelayFailed} then [w.client[k]] else [])
    && log.toClient == ToClient(w, k) + (if stop == RelayFailed then ReplyTo(w, k) else [])
    && log.blocked == RefusedQueries(w, k)
    && log.total == RefusedQueries(w, k) + RelayedQueries(w, k)
    && log.monitored == MonitoredQueries(w, k)
       + (if stop in {ServerLost, RelayFailed} && MonitoredQuery(w, k) then 1 else 0)
  }

  /** `StatsCollector` updates and packets of one command. */
  method Record(w: World, i: nat, log0: Log, stop: Option<Stop>, handed: bool, replies: seq<Packet>) returns (log: Log)
    requires WellFormed(w) && i < |w.client| && i < w.closedFrom && Tallied(w, i, log0)
    requires stop.None? <==> Completes(w, i)
    requires stop.None? ==> handed == Forwarded(w, i) && replies == ReplyTo(w, i)
    requires stop.Some? ==>
      && StopsWith(w, i, stop.value) && handed == (stop.value in {QuitSent, RelayFailed})
      && replies == if stop.value == RelayFailed then ReplyTo(w, i) else []
    ensures stop.None? ==> Tallied(w, i + 1, log)
    ensures stop.Some? ==> Closed(w, i, stop.value, log)
  {
    hide ReplyTo, RelayOf;
    var toServer := if handed then log0.toServer + [w.client[i]] else log0.toServer;
    var toClient := if replies == [] then log0.toClient else log0.toClient + replies;
    var total, blocked, monitored := log0.total, log0.blocked, log0.monitored;
    if CommandOf(w.client[i]) == Query {
      if w.verdicts[i].block {
        total, blocked := total + 1, blocked + 1;
      } else {
        if w.verdicts[i].monitored { monitored := monitored + 1; }
        if stop.None? { total := total + 1; }
      }
    }
    log := Log(toServer, toClient, total, blocked, monitored);
  }

  /**
   The loop. `done` commands were served in full; the command that stopped the loop, if any,
   adds at most itself to the server's input and the start of a reply to the client's.
   */
  method RunCommands(w: World) returns (done: nat, stop: Stop, log: Log)
    requires WellFormed(w)
    ensures done <= |w.client| && done <= w.closedFrom
    ensures forall i :: 0 <= i < done ==> Completes(w, i)
    ensures StopsWith(w, done, stop) && Closed(w, done, stop, log)
  {
    hide Tallied, Before, Completes, CommandOf, ReplyTo, Forwarded, StopsWith, Closed;
    done, log := 0, Log([], [], 0, 0, 0);
    var serverNext, serverTries, clientTries := 0, 0, 0;
    NothingDone(w);
    while true
      invariant done <= |w.client| && done <= w.closedFrom
      invariant forall i :: 0 <= i < done ==> Completes(w, i)
      invariant Before(w, done, serverNext, serverTries, clientTries)
      invariant Tallied(w, done, log)
      decreases |w.client| - done
    {
      if done >= w.closedFrom {
        stop := Closing;
        StopsEarly(w, done, stop, log);
        break;
      }
      if done == |w.client| {
        stop := Disconnected;
        StopsEarly(w, done, stop, log);
        break;
      }
      var ended, handed, replies, next, tries := Serve(w, done, serverNext, serverTries, clientTries);
      log := Record(w, done, log, ended, handed, replies);
      if ended.Some? {
        stop := ended.value;
        break;
      }
      serverNext, serverTries, clientTries := next, serverTries + (if handed then 1 else 0), tries;
      done := done + 1;
    }
  }

  lemma NothingDone(w: World)
    requires WellFormed(w)
    ensures Tallied(w, 0, Log([], [], 0, 0, 0)) && Before(w, 0, 0, 0, 0)
  {
  }

  lemma StopsEarly(w: World, k: nat, stop: Stop, log: Log)
    requires WellFormed(w) && k <= |w.client| && Tallied(w, k, log)
    requires stop == if k >= w.closedFrom then Closing else Disconnected
    requires k >= w.closedFrom || k == |w.client|
    ensures StopsWith(w, k, stop) && Closed(w, k, stop, log)
  {
  }

  // ------------------------------------------------------------ run theorems

  predicate Increasing(idx: seq<nat>) {
    forall a, b :: 0 <= a < b < |idx| ==> idx[a] < idx[b]
  }

  /** `idx` lists, in order, exactly the forwarded ones among the first `k` client packets. */
  predicate ListsForwarded(w: World, k: nat, idx: seq<nat>)
    requires WellFormed(w) && k <= |w.client|
  {
    && Increasing(idx)
    && (forall j :: 0 <= j < |idx| ==> idx[j] < k && Forwarded(w, idx[j]))
    && (forall i :: 0 <= i < k && Forwarded(w, i) ==> i in idx)
  }

  /** The server sees the forwarded client packets, all of them, unchanged and in order, and nothing else. */
  lemma {:induction false} ServerSeesExactlyForwarded(w: World, k: nat) returns (idx: seq<nat>)
    requires WellFormed(w) && k <= |w.client|
    ensures ListsForwarded(w, k, idx) && |idx| == |ToServer(w, k)|
    ensures forall j :: 0 <= j < |idx| ==> ToServer(w, k)[j] == w.client[idx[j]]
    decreases k
  {
    hide Forwarded;
    if k == 0 {
      idx := [];
    } else {
      idx := ServerSeesExactlyForwarded(w, k - 1);
      if Forwarded(w, k - 1) {
        var before := idx;
        idx := idx + [k - 1];
        assert forall i :: i in idx <==> i in before || i == k - 1;
      }
    }
  }

  function Refusals(w: World, k: nat): nat
    requires WellFormed(w) && k <= |w.client|
  {
    if k == 0 then 0 else Refusals(w, k - 1) + (if Refused(w, k - 1) then 1 else 0)
  }

  /** Every completed command was either handed to the server or refused, never both; queries likewise. */
  lemma {:induction false} CommandsAccounted(w: World, k: nat)
    requires WellFormed(w) && k <= |w.client|
    requires forall i :: 0 <= i < k ==> Completes(w, i)
    ensures |ToServer(w, k)| + Refusals(w, k) == k
    ensures |ToServer(w, k)| == ServerTries(w, k)
    ensures RefusedQueries(w, k) <= Refusals(w, k) && RelayedQueries(w, k) <= |ToServer(w, k)|
    ensures MonitoredQueries(w, k) <= RelayedQueries(w, k)
    decreases k
  {
    hide RelayOf;
    if k > 0 {
      CommandsAccounted(w, k - 1);
      assert Completes(w, k - 1);
    }
  }

  /** Packets the server will have sent before it answers client packet `i`, if replies have these shapes. */
  function Offset(w: World, shapes: seq<Shape>, i: nat): nat
    requires WellFormed(w) && i <= |w.client| <= |shapes|
  {
    if i == 0 then 0
    else Offset(w, shapes, i - 1) + (if Forwarded(w, i - 1) then Length(shapes[i - 1]) else 0)
  }

  /** The server answers each of the first `n` forwarded packets with one reply, and no write fails. */
  ghost predicate Answered(w: World, shapes: seq<Shape>, n: nat)
    requires WellFormed(w) && n <= |w.client| <= |shapes|
  {
    && w.clientFails == {} && w.serverFails == {}
    && forall i :: 0 <= i < n ==>
       && CommandOf(w.client[i]) !in {Malformed, Quit}
       && (Forwarded(w, i) ==> IsReply(w.server, Offset(w, shapes, i), shapes[i]))
  }

  /**
   The session stays in step: over any run of commands, whatever the client sends ahead and
   whatever the rows contain, each forwarded command gets exactly its own reply and each refused one
   exactly one ERR packet numbered one above the request.
   */
  lemma {:induction false} SessionStaysInStep(w: World, shapes: seq<Shape>, n: nat)
    requires WellFormed(w) && n <= |w.client| <= |shapes| && Answered(w, shapes, n)
    ensures ServerRead(w, n) == Offset(w, shapes, n)
    ensures forall i :: 0 <= i < n ==> Completes(w, i) && InStep(w, shapes, i)
    decreases n
  {
    hide ServerRead, Offset, Completes, InStep, Answered, Forwarded, CommandOf;
    if n == 0 {
      NothingRead(w, shapes);
    } else {
      AnsweredLess(w, shapes, n);
      SessionStaysInStep(w, shapes, n - 1);
      StepInStep(w, shapes, n - 1);
    }
  }

  lemma NothingRead(w: World, shapes: seq<Shape>)
    requires WellFormed(w) && |w.client| <= |shapes|
    ensures ServerRead(w, 0) == Offset(w, shapes, 0)
  {
  }

  lemma AnsweredLess(w: World, shapes: seq<Shape>, n: nat)
    requires WellFormed(w) && 0 < n <= |w.client| <= |shapes| && Answered(w, shapes, n)
    ensures Answered(w, shapes, n - 1)
  {
    hide Forwarded, CommandOf, IsReply, Offset;
  }

  /** Command `i` got its own answer. */
  predicate InStep(w: World, shapes: seq<Shape>, i: nat)
    requires WellFormed(w) && i < |w.client| <= |shapes|
  {
    var at := Offset(w, shapes, i);
    if Forwarded(w, i) then
      at + Length(shapes[i]) <= |w.server| && ReplyTo(w, i) == w.server[at..at + Length(shapes[i])]
    else ReplyTo(w, i) == [Denial(w.client[i])]
  }

  lemma StepInStep(w: World, shapes: seq<Shape>, i: nat)
    requires WellFormed(w) && i < |w.client| <= |shapes| && Answered(w, shapes, i + 1)
    requires ServerRead(w, i) == Offset(w, shapes, i)
    ensures Completes(w, i) && InStep(w, shapes, i)
    ensures ServerRead(w, i + 1) == Offset(w, shapes, i + 1)
  {
    hide Run, IsReply;
    if Forwarded(w, i) {
      RelayReadsExactly(RequestOf(w.client[i]), w.server, ServerRead(w, i), shapes[i], {}, ClientTries(w, i));
      ReplyFits(w.server, Offset(w, shapes, i), shapes[i]);
    }
  }

  lemma ReplyFits(ps: seq<Packet>, start: nat, shape: Shape)
    requires IsReply(ps, start, shape)
    ensures start + Length(shape) <= |ps|
  {
  }
}
