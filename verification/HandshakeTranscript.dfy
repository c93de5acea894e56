/**
 The handshake told by the bytes of its packets (`src/protocol/handshake.cpp`): which conversations succeed, and what
 becomes of the others.
 */
module HandshakeTranscript {
  import opened Bytes
  import opened MysqlPacket
  import opened HandshakeResponse
  import opened H = Handshake

  // ------------------------------------------------------------- packets by bytes

  predicate IsOk(p: seq<byte>) {
    p != [] && p[0] == 0x00
  }

  /** ERR, or the short EOF packet */
  predicate IsRefusal(p: seq<byte>) {
    p != [] && (p[0] == 0xFF || (p[0] == 0xFE && |p| < 9))
  }

  /** AuthSwitchRequest */
  predicate IsSwitch(p: seq<byte>) {
    p != [] && p[0] == 0xFE && |p| >= 9
  }

  /** AuthMoreData */
  predicate IsMore(p: seq<byte>) {
    p != [] && p[0] == 0x01
  }

  /** Anything else, such as a bare public key; an empty packet too. */
  predicate IsOther(p: seq<byte>) {
    p == [] || (p[0] != 0x00 && p[0] != 0x01 && p[0] != 0xFE && p[0] != 0xFF)
  }

  // ------------------------------------------------------- conversations by position

  /** Server packet `i` answers the client's answer to an AuthSwitchRequest, which can only be packet 1. */
  predicate AfterSwitch(server: seq<Packet>, i: nat)
    requires i < |server|
  {
    i == 2 && IsSwitch(server[1].payload)
  }

  /** Server packet `i` goes on with the exchange: more data anywhere, a switch only at once, and anything else only
      when more data has come before. */
  predicate GoesOn(server: seq<Packet>, i: nat)
    requires 1 <= i < |server|
  {
    var p := server[i].payload;
    IsMore(p) || (IsSwitch(p) && i == 1) || (IsOther(p) && i >= 2 && !AfterSwitch(server, i))
  }

  /** Server packet `i`, which goes on, leaves the turn with the server: a fast-auth packet that is no answer to a
      switch. */
  predicate KeepsTurn(server: seq<Packet>, i: nat)
    requires 1 <= i < |server|
  {
    var p := server[i].payload;
    IsMore(p) && |p| >= 2 && p[1] == 0x03 && !AfterSwitch(server, i)
  }

  /** How often the client was asked by server packets 1 to `i - 1`. */
  function Asked(server: seq<Packet>, i: nat): nat
    requires i <= |server|
  {
    if i <= 1 then 0 else Asked(server, i - 1) + (if KeepsTurn(server, i - 1) then 0 else 1)
  }

  /** Server packet `i` is relayed, and the client's answer to it, if one is due, is there and relayed too. No packet is
      let through that comes after ten answers. */
  predicate Exchanged(w: World, i: nat)
    requires 1 <= i < |w.server|
  {
    && GoesOn(w.server, i) && Asked(w.server, i) < 10 && i !in w.clientFails
    && (KeepsTurn(w.server, i) ||
        var c := 1 + Asked(w.server, i); c < |w.client| && c !in w.serverFails)
  }

  /** The greeting and the client's response are there, well-formed and relayed. */
  predicate Opened(w: World) {
    && |w.server| >= 1 && w.server[0].payload != [] && 0 !in w.clientFails
    && |w.client| >= 1 && Extract(w.client[0].payload).Some? && 0 !in w.serverFails
  }

  /** The conversation up to server packet `n`. */
  predicate Reached(w: World, n: nat) {
    Opened(w) && 1 <= n <= |w.server| && forall i :: 1 <= i < n ==> Exchanged(w, i)
  }

  /** Server packet `n` ends it well. */
  predicate Concluded(w: World, n: nat) {
    Reached(w, n) && n < |w.server| && IsOk(w.server[n].payload) && n !in w.clientFails
  }

  // ------------------------------------------------------------------- the relay

  /** The relay's state when it waits for server packet `n`. */
  function Waits(server: seq<Packet>, n: nat): State
    requires n <= |server|
  {
    if n == 1 then ServerAuth else if n == 2 && 1 < |server| && IsSwitch(server[1].payload) then ServerAuthSwitch
    else ServerMoreData
  }

  lemma Kinds(p: seq<byte>)
    ensures Classify(p) == Ok <==> IsOk(p)
    ensures Classify(p) == Error || Classify(p) == Eof <==> IsRefusal(p)
    ensures Classify(p) == AuthSwitch <==> IsSwitch(p)
    ensures Classify(p) == AuthMoreData <==> IsMore(p)
    ensures Classify(p) == Unknown <==> IsOther(p)
  {
  }

  /** One server packet, by bytes: what the relay makes of it when it waits for packet `n` after `trips` answers. */
  lemma ServerPacket(server: seq<Packet>, n: nat, trips: nat)
    requires 1 <= n < |server| && (n == 1 ==> trips == 0)
    ensures var t := Process(Waits(server, n), server[n].payload, trips);
      var p := server[n].payload;
      if IsOk(p) then t == Some(Transition(Done, Complete))
      else if IsRefusal(p) then t == Some(Transition(Failed, Terminate))
      else if GoesOn(server, n) && trips < 10 then
        && t.Some? && t.value.action == RelayToClient
        && if KeepsTurn(server, n) then t.value.next == ServerMoreData
           else t.value.next == if IsSwitch(p) then ClientAuthSwitch else ClientMoreData
      else t.None? || t.value.action == TerminateNoRelay
  {
    Kinds(server[n].payload);
    hide Classify;
  }

  /** An exchanged packet takes the relay to the next one. */
  lemma ExchangeStep(w: World, n: nat)
    requires 1 <= n < |w.server| && 1 + Asked(w.server, n) <= |w.client| && Exchanged(w, n)
    ensures 1 + Asked(w.server, n + 1) <= |w.client|
    ensures Run(w, Waits(w.server, n), Asked(w.server, n), n, 1 + Asked(w.server, n))
         == Run(w, Waits(w.server, n + 1), Asked(w.server, n + 1), n + 1, 1 + Asked(w.server, n + 1))
  {
    hide Run, Extract, Classify, IsOther, IsMore, IsSwitch;
    var trips := Asked(w.server, n);
    NotBoth(w.server[n].payload);
    ServerPacket(w.server, n, trips);
    RunStep(w, Waits(w.server, n), trips, n, 1 + trips);
    if !KeepsTurn(w.server, n) {
      var next := if IsSwitch(w.server[n].payload) then ClientAuthSwitch else ClientMoreData;
      RunStep(w, next, trips + 1, n + 1, 1 + trips);
      ClientMoves(next, w.client[1 + trips].payload, trips + 1);
    }
  }

  lemma NotBoth(p: seq<byte>)
    ensures IsMore(p) || IsSwitch(p) || IsOther(p) ==> !IsOk(p) && !IsRefusal(p)
    ensures !(IsMore(p) && IsSwitch(p))
  {
  }

  /** A conversation that reached packet `n` has brought the relay there. */
  lemma {:induction false} RelayReaches(w: World, n: nat)
    requires Reached(w, n)
    ensures 1 + Asked(w.server, n) <= |w.client|
    ensures Handshake(w) == Run(w, Waits(w.server, n), Asked(w.server, n), n, 1 + Asked(w.server, n))
    decreases n
  {
    hide Run, Extract, Process, Exchanged, Waits;
    if n == 1 {
      Opening(w);
    } else {
      RelayReaches(w, n - 1);
      ExchangeStep(w, n - 1);
    }
  }

  lemma Opening(w: World)
    requires Opened(w)
    ensures Handshake(w) == Run(w, Waits(w.server, 1), 0, 1, 1)
  {
    hide Run, Extract;
    RunStep(w, ServerGreeting, 0, 0, 0);
    RunStep(w, ClientResponse, 0, 1, 0);
  }

  /** A conversation that is concluded succeeds, having read exactly its packets. */
  lemma ConcludedSucceeds(w: World, n: nat)
    requires Concluded(w, n)
    ensures var e := Handshake(w);
      && e.ok && e.serverRead == e.toClient == n + 1
      && e.clientRead == e.toServer == 1 + Asked(w.server, n)
  {
    hide Run, Extract, Process, Waits, Exchanged;
    RelayReaches(w, n);
    ServerPacket(w.server, n, Asked(w.server, n));
    ServerWaits(w.server, n);
    RunStep(w, Waits(w.server, n), Asked(w.server, n), n, 1 + Asked(w.server, n));
  }

  lemma ServerWaits(server: seq<Packet>, n: nat)
    requires 1 <= n <= |server|
    ensures ReadsServer(Waits(server, n)) && !Waits(server, n).ServerGreeting?
  {
  }

  /** Where a conversation stops being one, the relay fails. */
  lemma BrokenFails(w: World, n: nat)
    requires Reached(w, n) && !Concluded(w, n) && (n < |w.server| ==> !Exchanged(w, n))
    ensures !Handshake(w).ok
  {
    hide Run, Extract, Process, Waits, Classify;
    RelayReaches(w, n);
    ServerWaits(w.server, n);
    var trips := Asked(w.server, n);
    RunStep(w, Waits(w.server, n), trips, n, 1 + trips);
    if n < |w.server| {
      ServerPacket(w.server, n, trips);
      if GoesOn(w.server, n) && trips < 10 && n !in w.clientFails && !IsOk(w.server[n].payload)
         && !IsRefusal(w.server[n].payload) && !KeepsTurn(w.server, n) {
        var next := if IsSwitch(w.server[n].payload) then ClientAuthSwitch else ClientMoreData;
        RunStep(w, next, trips + 1, n + 1, 1 + trips);
      }
    }
  }

  /** How far a conversation gets. */
  lemma {:induction false} StopsSomewhere(w: World, from: nat) returns (n: nat)
    requires Reached(w, from)
    ensures from <= n && Reached(w, n) && (n < |w.server| ==> !Exchanged(w, n))
    decreases |w.server| - from
  {
    hide Exchanged, Opened;
    if from < |w.server| && Exchanged(w, from) {
      n := StopsSomewhere(w, from + 1);
    } else {
      n := from;
    }
  }

  lemma UnopenedFails(w: World)
    requires !Opened(w)
    ensures !Handshake(w).ok
  {
    hide Run, Extract;
    RunStep(w, ServerGreeting, 0, 0, 0);
    if |w.server| >= 1 {
      RunStep(w, ClientResponse, 0, 1, 0);
    }
  }

  /**
   Which handshakes succeed, over every transcript: exactly those in which greeting and response are relayed, then every
   server packet goes on with the exchange and gets the answer it asks for, none of them after ten answers, up to an OK.
   */
  lemma SucceedsExactly(w: World)
    ensures Handshake(w).ok <==> exists n: nat :: Concluded(w, n)
  {
    hide Handshake, Concluded, Reached, Opened;
    if n: nat :| Concluded(w, n) {
      ConcludedSucceeds(w, n);
    } else if Opened(w) {
      assert Reached(w, 1) by { ReachedFirst(w); }
      var n := StopsSomewhere(w, 1);
      BrokenFails(w, n);
    } else {
      UnopenedFails(w);
    }
  }

  lemma ReachedFirst(w: World)
    requires Opened(w)
    ensures Reached(w, 1)
  {
  }

  /** The handshakes everyone knows: an OK at once; a switch, its answer and an OK; a fast-auth packet and an OK. */
  lemma CommonHandshakes(w: World)
    requires Opened(w) && w.clientFails == {} && w.serverFails == {} && |w.server| >= 2
    ensures IsOk(w.server[1].payload) ==> Handshake(w).ok
    ensures |w.server| >= 3 && |w.client| >= 2 && IsSwitch(w.server[1].payload) && IsOk(w.server[2].payload) ==>
      Handshake(w).ok
    ensures |w.server| >= 3 && KeepsTurn(w.server, 1) && IsOk(w.server[2].payload) ==> Handshake(w).ok
  {
    hide Handshake, Opened, IsOk, IsSwitch, IsMore;
    if IsOk(w.server[1].payload) {
      ConcludedSucceeds(w, 1);
    }
    if |w.server| >= 3 && IsOk(w.server[2].payload) && (Exchanged(w, 1)) {
      ConcludedSucceeds(w, 2);
    }
  }

  /** A server that refuses is heard by the client before the relay fails. */
  lemma RefusalRelayed(w: World, n: nat)
    requires Reached(w, n) && n < |w.server| && IsRefusal(w.server[n].payload)
    ensures var e := Handshake(w);
      !e.ok && e.serverRead == n + 1 && e.toClient == if n in w.clientFails then n else n + 1
  {
    hide Run, Extract, Process, Waits, Exchanged;
    RelayReaches(w, n);
    ServerWaits(w.server, n);
    NotOk(w.server[n].payload);
    ServerPacket(w.server, n, Asked(w.server, n));
    RunStep(w, Waits(w.server, n), Asked(w.server, n), n, 1 + Asked(w.server, n));
  }

  lemma NotOk(p: seq<byte>)
    requires IsRefusal(p)
    ensures !IsOk(p)
  {
  }

  /** A packet out of place, or one too many, is not: an unknown one where no more data came before, a switch that is
      not the first answer, and any that goes on after ten answers. */
  lemma MisplacedNotRelayed(w: World, n: nat)
    requires Reached(w, n) && n < |w.server| && !IsOk(w.server[n].payload) && !IsRefusal(w.server[n].payload)
    requires !GoesOn(w.server, n) || Asked(w.server, n) >= 10
    ensures var e := Handshake(w);
      !e.ok && e.serverRead == n + 1 && e.toClient == n
  {
    hide Run, Extract, Process, Waits, Exchanged;
    RelayReaches(w, n);
    ServerWaits(w.server, n);
    ServerPacket(w.server, n, Asked(w.server, n));
    RunStep(w, Waits(w.server, n), Asked(w.server, n), n, 1 + Asked(w.server, n));
  }
}
