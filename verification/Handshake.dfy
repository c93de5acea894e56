/**
 The handshake relay (`src/protocol/handshake.cpp`): a nine-state machine that decides, packet by
 packet, which side to read next and whether to relay, finish or give up.
 */
module Handshake {
  import opened Bytes
  import opened MysqlPacket
  import opened Capabilities
  import opened HandshakeResponse

  const MAX_ROUND_TRIPS := 10

  datatype AuthResponse = Ok | Error | Eof | AuthSwitch | AuthMoreData | Unknown

  /** `classify_auth_response` */
  function Classify(payload: seq<byte>): AuthResponse {
    if payload == [] then Unknown
    else if payload[0] == 0x00 then Ok
    else if payload[0] == 0xFF then Error
    else if payload[0] == 0xFE then (if |payload| < 9 then Eof else AuthSwitch)
    else if payload[0] == 0x01 then AuthMoreData
    else Unknown
  }

  datatype State =
    | ServerGreeting
    | ClientResponse
    | ServerAuth
    | ClientAuthSwitch
    | ServerAuthSwitch
    | ClientMoreData
    | ServerMoreData
    | Done
    | Failed

  datatype Action = RelayToClient | RelayToServer | Complete | Terminate | TerminateNoRelay

  datatype Transition = Transition(next: State, action: Action)

  predicate ReadsServer(s: State) {
    s.ServerGreeting? || s.ServerAuth? || s.ServerAuthSwitch? || s.ServerMoreData?
  }

  predicate ReadsClient(s: State) {
    s.ClientResponse? || s.ClientAuthSwitch? || s.ClientMoreData?
  }

  /** caching_sha2_password: the server has verified the password from its cache. */
  predicate FastAuthOk(payload: seq<byte>) {
    |payload| >= 2 && payload[0] == 0x01 && payload[1] == 0x03
  }

  /** `process_handshake_packet`; `None` is the error return. */
  function Process(state: State, payload: seq<byte>, roundTrips: nat): Option<Transition> {
    match state
    case ServerGreeting =>
      if payload == [] then None else Some(Transition(ClientResponse, RelayToClient))
    case ClientResponse => Some(Transition(ServerAuth, RelayToServer))
    case ServerAuth => (
      match Classify(payload)
      case Ok => Some(Transition(Done, Complete))
      case Error => Some(Transition(Failed, Terminate))
      case Eof => Some(Transition(Failed, Terminate))
      case AuthSwitch => Some(Transition(ClientAuthSwitch, RelayToClient))
      case AuthMoreData =>
        Some(Transition(if FastAuthOk(payload) then ServerMoreData else ClientMoreData, RelayToClient))
      case Unknown => Some(Transition(Failed, TerminateNoRelay)))
    case ClientAuthSwitch => Some(Transition(ServerAuthSwitch, RelayToServer))
    case ServerAuthSwitch => (
      match Classify(payload)
      case Ok => Some(Transition(Done, Complete))
      case Error => Some(Transition(Failed, Terminate))
      case Eof => Some(Transition(Failed, Terminate))
      case AuthMoreData =>
        if roundTrips >= MAX_ROUND_TRIPS then None else Some(Transition(ClientMoreData, RelayToClient))
      case AuthSwitch => None
      case Unknown => Some(Transition(Failed, TerminateNoRelay)))
    case ClientMoreData => Some(Transition(ServerMoreData, RelayToServer))
    case ServerMoreData => (
      match Classify(payload)
      case Ok => Some(Transition(Done, Complete))
      case Error => Some(Transition(Failed, Terminate))
      case Eof => Some(Transition(Failed, Terminate))
      case AuthMoreData =>
        if roundTrips >= MAX_ROUND_TRIPS then None
        else Some(Transition(if FastAuthOk(payload) then ServerMoreData else ClientMoreData, RelayToClient))
      case AuthSwitch => None
      case Unknown =>
        if roundTrips >= MAX_ROUND_TRIPS then None else Some(Transition(ClientMoreData, RelayToClient)))
    case Done => None
    case Failed => None
  }

  /** The counter after a transition: only asking the client again counts. */
  function Counted(roundTrips: nat, next: State): nat {
    if next.ClientMoreData? || next.ClientAuthSwitch? then roundTrips + 1 else roundTrips
  }

  // ------------------------------------------------------------------ whole runs

  /** The packets either peer will ever send and the write attempts each connection fails. */
  datatype World = World(server: seq<Packet>, client: seq<Packet>, clientFails: set<nat>, serverFails: set<nat>)

  /** Packets read from and written to each side, the round-trip counter, and whether the handshake succeeded. */
  datatype End = End(serverRead: nat, clientRead: nat, toClient: nat, toServer: nat, trips: nat, ok: bool)

  /** The relay from a loop head at which `s` server and `c` client packets have been read and relayed. */
  function Run(w: World, state: State, roundTrips: nat, s: nat, c: nat): End
    requires s <= |w.server| && c <= |w.client|
    decreases |w.server| - s + |w.client| - c
  {
    if ReadsServer(state) then
      if s == |w.server| then End(s, c, s, c, roundTrips, false)
      else match Process(state, w.server[s].payload, roundTrips)
        case None => End(s + 1, c, s, c, roundTrips, false)
        case Some(t) => (
          match t.action
          case RelayToClient =>
            if s in w.clientFails then End(s + 1, c, s, c, roundTrips, false)
            else Run(w, t.next, Counted(roundTrips, t.next), s + 1, c)
          case Complete =>
            if s in w.clientFails then End(s + 1, c, s, c, roundTrips, false)
            else End(s + 1, c, s + 1, c, roundTrips, true)
          case Terminate => End(s + 1, c, if s in w.clientFails then s else s + 1, c, roundTrips, false)
          case _ => End(s + 1, c, s, c, roundTrips, false))
    else if ReadsClient(state) then
      if c == |w.client| then End(s, c, s, c, roundTrips, false)
      else if state.ClientResponse? && Extract(w.client[c].payload).None? then End(s, c + 1, s, c, roundTrips, false)
      else if c in w.serverFails then End(s, c + 1, s, c, roundTrips, false)
      else Run(w, Process(state, w.client[c].payload, roundTrips).value.next, roundTrips, s, c + 1)
    else End(s, c, s, c, roundTrips, false)
  }

  function Handshake(w: World): End {
    Run(w, ServerGreeting, 0, 0, 0)
  }

  /** What the client is sent for the first `n` server packets: the greeting stripped, the rest unchanged. */
  function ShownToClient(server: seq<Packet>, n: nat): seq<Packet>
    requires n <= |server|
  {
    if n == 0 then []
    else [Packet(server[0].seqId, StripGreeting(server[0].payload))] + server[1..n]
  }

  /** What the server is sent for the first `n` client packets: the response stripped, the rest unchanged. */
  function ShownToServer(client: seq<Packet>, n: nat): seq<Packet>
    requires n <= |client|
  {
    if n == 0 then []
    else [Packet(client[0].seqId, StripResponse(client[0].payload))] + client[1..n]
  }

  datatype Context = Context(user: seq<byte>, db: seq<byte>, handshakeDone: bool)

  predicate Framed(w: World) {
    AllFramable(w.server) && AllFramable(w.client)
  }

  /** Loop-head facts: what has gone over the wire, and which packets came first. */
  predicate Relayed(w: World, state: State, s: nat, c: nat, toClient: seq<byte>, toServer: seq<byte>,
                    fields: Option<Fields>)
    requires s <= |w.server| && c <= |w.client|
  {
    && toClient == Frame(ShownToClient(w.server, s)) && toServer == Frame(ShownToServer(w.client, c))
    && (s == 0 <==> state.ServerGreeting?) && (c == 0 <==> state.ServerGreeting? || state.ClientResponse?)
    && fields == (if c == 0 then None else Extract(w.client[0].payload))
    && (c == 0 || fields.Some?)
  }

  /** Writes a server packet to the client, the greeting with its capabilities stripped. */
  method WriteToClient(w: World, state: State, s: nat, sent: seq<byte>) returns (out: seq<byte>)
    requires Framed(w) && s < |w.server| && sent == Frame(ShownToClient(w.server, s))
    requires s == 0 <==> state.ServerGreeting?
    ensures out == Frame(ShownToClient(w.server, s + 1))
  {
    var bytes;
    if state.ServerGreeting? {
      bytes := StripUnsupportedCapabilities(w.server[s]);
    } else {
      bytes := Serialize(w.server[s]);
    }
    ShownNext(w.server, s);
    hide Serialized, StripGreeting, ShownToClient, Frame;
    out := sent + bytes;
  }

  /** Writes a client packet to the server, the response with its capabilities stripped. */
  method WriteToServer(w: World, state: State, c: nat, sent: seq<byte>) returns (out: seq<byte>)
    requires Framed(w) && c < |w.client| && sent == Frame(ShownToServer(w.client, c))
    requires c == 0 <==> state.ClientResponse?
    ensures out == Frame(ShownToServer(w.client, c + 1))
  {
    var bytes;
    if state.ClientResponse? {
      bytes := StripUnsupportedClientCapabilities(w.client[c]);
    } else {
      bytes := Serialize(w.client[c]);
    }
    ShownNext(w.client, c);
    hide Serialized, StripResponse, ShownToServer, Frame;
    out := sent + bytes;
  }

  lemma ShownNext(ps: seq<Packet>, n: nat)
    requires n < |ps|
    ensures Frame(ShownToClient(ps, n + 1)) == Frame(ShownToClient(ps, n))
      + Serialized(if n == 0 then Packet(ps[0].seqId, StripGreeting(ps[0].payload)) else ps[n])
    ensures Frame(ShownToServer(ps, n + 1)) == Frame(ShownToServer(ps, n))
      + Serialized(if n == 0 then Packet(ps[0].seqId, StripResponse(ps[0].payload)) else ps[n])
  {
    hide Serialized, StripGreeting, StripResponse, Frame;
    var p := if n == 0 then Packet(ps[0].seqId, StripGreeting(ps[0].payload)) else ps[n];
    var q := if n == 0 then Packet(ps[0].seqId, StripResponse(ps[0].payload)) else ps[n];
    assert n > 0 ==> ps[1..n + 1] == ps[1..n] + [ps[n]];
    assert ShownToClient(ps, n + 1) == ShownToClient(ps, n) + [p];
    assert ShownToServer(ps, n + 1) == ShownToServer(ps, n) + [q];
    FrameAppend(ShownToClient(ps, n), [p]);
    FrameAppend(ShownToServer(ps, n), [q]);
    FrameOne(p);
    FrameOne(q);
  }

  /** The state, counter and outputs left by a run that ends as `e`. */
  predicate Left(w: World, e: End, ctx0: Context, ok: bool, toClient: seq<byte>, toServer: seq<byte>, ctx: Context)
  {
    && e.toClient <= e.serverRead <= |w.server| && e.toServer <= e.clientRead <= |w.client|
    && ok == e.ok
    && toClient == Frame(ShownToClient(w.server, e.toClient))
    && toServer == Frame(ShownToServer(w.client, e.toServer))
    && (if ok then
          && e.clientRead > 0 && Extract(w.client[0].payload).Some?
          && var f := Extract(w.client[0].payload).value; ctx == Context(f.user, f.db, true)
        else ctx == ctx0)
  }

  /** A turn of the loop in a state that waits for the server; `stop` is a return from the relay. */
  method ServerTurn(w: World, state: State, roundTrips: nat, s: nat, c: nat, sent: seq<byte>, toServer: seq<byte>,
                    fields: Option<Fields>, ctx0: Context)
    returns (stop: bool, ok: bool, next: State, trips: nat, toClient: seq<byte>, ctx: Context)
    requires Framed(w) && ReadsServer(state) && s <= |w.server| && c <= |w.client|
    requires Relayed(w, state, s, c, sent, toServer, fields)
    ensures stop ==> Left(w, Run(w, state, roundTrips, s, c), ctx0, ok, toClient, toServer, ctx)
    ensures stop && ok ==>
      Run(w, state, roundTrips, s, c).serverRead == s + 1 && Run(w, state, roundTrips, s, c).clientRead == c
    ensures !stop ==>
      && s < |w.server| && !next.Done? && !next.Failed?
      && Run(w, state, roundTrips, s, c) == Run(w, next, trips, s + 1, c)
      && Relayed(w, next, s + 1, c, toClient, toServer, fields)
  {
    hide Run, Process, Extract, Frame, ShownToClient, ShownToServer, Classify;
    RunStep(w, state, roundTrips, s, c);
    stop, ok, next, trips, toClient, ctx := true, false, state, roundTrips, sent, ctx0;
    if s == |w.server| {
      return;
    }
    var t := Process(state, w.server[s].payload, roundTrips);
    ServerMoves(state, w.server[s].payload, roundTrips);
    if t.None? || t.value.action == TerminateNoRelay || s in w.clientFails {
      return;
    }
    toClient := WriteToClient(w, state, s, sent);
    if t.value.action == Complete {
      ctx := Context(fields.value.user, fields.value.db, true);
      ok := true;
      return;
    }
    if t.value.action == Terminate {
      return;
    }
    stop, next, trips := false, t.value.next, Counted(roundTrips, t.value.next);
  }

  /** A turn in a state that waits for the client. */
  method ClientTurn(w: World, state: State, roundTrips: nat, s: nat, c: nat, toClient: seq<byte>, sent: seq<byte>,
                    fields0: Option<Fields>, ctx0: Context)
    returns (stop: bool, next: State, toServer: seq<byte>, fields: Option<Fields>)
    requires Framed(w) && ReadsClient(state) && s <= |w.server| && c <= |w.client|
    requires Relayed(w, state, s, c, toClient, sent, fields0)
    ensures stop ==> Left(w, Run(w, state, roundTrips, s, c), ctx0, false, toClient, toServer, ctx0)
    ensures !stop ==>
      && c < |w.client| && !next.Done? && !next.Failed?
      && Run(w, state, roundTrips, s, c) == Run(w, next, roundTrips, s, c + 1)
      && Relayed(w, next, s, c + 1, toClient, toServer, fields)
  {
    hide Run, Process, Extract, Frame, ShownToClient, ShownToServer;
    RunStep(w, state, roundTrips, s, c);
    stop, next, toServer, fields := true, state, sent, fields0;
    if c == |w.client| {
      return;
    }
    if state.ClientResponse? && fields.None? {
      fields := ExtractHandshakeResponseFields(w.client[c].payload);
      if fields.None? {
        return;
      }
    }
    var t := Process(state, w.client[c].payload, roundTrips);
    ClientMoves(state, w.client[c].payload, roundTrips);
    if c in w.serverFails {
      return;
    }
    toServer := WriteToServer(w, state, c, sent);
    stop, next := false, t.value.next;
  }

  /** `relay_handshake`: one packet is read, judged and written per iteration. */
  method RelayHandshake(w: World, ctx0: Context)
    returns (ok: bool, toClient: seq<byte>, toServer: seq<byte>, ctx: Context, s: nat, c: nat)
    requires Framed(w)
    ensures Left(w, Handshake(w), ctx0, ok, toClient, toServer, ctx)
    ensures ok ==> s == Handshake(w).serverRead && c == Handshake(w).clientRead
  {
    var state := ServerGreeting;
    var roundTrips := 0;
    s, c := 0, 0;
    var fields: Option<Fields> := None;
    ok, toClient, toServer, ctx := false, [], [], ctx0;
    assert Relayed(w, state, 0, 0, [], [], fields) by { Nothing(w); }
    assert Handshake(w) == Run(w, state, 0, 0, 0);
    hide Run, Relayed, Left, Handshake;
    while !state.Done? && !state.Failed?
      invariant s <= |w.server| && c <= |w.client|
      invariant !state.Done? && !state.Failed?
      invariant Relayed(w, state, s, c, toClient, toServer, fields)
      invariant Handshake(w) == Run(w, state, roundTrips, s, c)
      decreases |w.server| - s + |w.client| - c
    {
      var stop;
      if ReadsServer(state) {
        stop, ok, state, roundTrips, toClient, ctx :=
          ServerTurn(w, state, roundTrips, s, c, toClient, toServer, fields, ctx0);
        s := s + 1;
        if stop {
          return;
        }
      } else {
        stop, state, toServer, fields :=
          ClientTurn(w, state, roundTrips, s, c, toClient, toServer, fields, ctx0);
        if stop {
          return false, toClient, toServer, ctx0, s, c;
        }
        c := c + 1;
      }
    }
  }

  /** What a side is sent, given the bytes `data` of the other: the first packet replaced by `first`, and the bytes of
      the next packets, up to the `n`th, just as they came. */
  predicate Mirrors(out: seq<byte>, data: seq<byte>, n: nat, first: seq<byte>) {
    && n <= |Packets(data)|
    && var end := |data| - |AfterPackets(data, n)|;
       if n == 0 then out == []
       else
         && 4 + |first| <= end <= |data| && |out| == end
         && out == Serialized(Packet(Packets(data)[0].seqId, first)) + data[4 + |first|..end]
  }

  /** `relay_handshake` on the bytes of two connections: apart from the stripped words, what each side gets is byte for
      byte what the other sent. */
  method RelayHandshakeOnTheWire(server: seq<byte>, client: seq<byte>, clientFails: set<nat>, serverFails: set<nat>,
                                 ctx0: Context)
    returns (ok: bool, toClient: seq<byte>, toServer: seq<byte>, ctx: Context, s: nat, c: nat)
    ensures var w := World(Packets(server), Packets(client), clientFails, serverFails);
      && (ok ==> s == Handshake(w).serverRead && c == Handshake(w).clientRead)
      && Left(w, Handshake(w), ctx0, ok, toClient, toServer, ctx)
      && Mirrors(toClient, server, Handshake(w).toClient,
                 if w.server == [] then [] else StripGreeting(w.server[0].payload))
      && Mirrors(toServer, client, Handshake(w).toServer,
                 if w.client == [] then [] else StripResponse(w.client[0].payload))
  {
    hide Run, Handshake, Packets, Frame, Mirrors, StripGreeting, StripResponse, ShownToClient, ShownToServer, Extract;
    var w := World(Packets(server), Packets(client), clientFails, serverFails);
    PacketsFramable(server);
    PacketsFramable(client);
    ok, toClient, toServer, ctx, s, c := RelayHandshake(w, ctx0);
    MirrorsClient(server, Handshake(w).toClient);
    MirrorsServer(client, Handshake(w).toServer);
  }

  lemma MirrorsClient(data: seq<byte>, n: nat)
    requires n <= |Packets(data)|
    ensures Mirrors(Frame(ShownToClient(Packets(data), n)), data, n,
                    if Packets(data) == [] then [] else StripGreeting(Packets(data)[0].payload))
  {
    hide Packets, AfterPackets, Serialized, StripGreeting;
    if n > 0 {
      MirrorOf(data, n, StripGreeting(Packets(data)[0].payload));
    }
  }

  lemma MirrorsServer(data: seq<byte>, n: nat)
    requires n <= |Packets(data)|
    ensures Mirrors(Frame(ShownToServer(Packets(data), n)), data, n,
                    if Packets(data) == [] then [] else StripResponse(Packets(data)[0].payload))
  {
    hide Packets, AfterPackets, Serialized, StripResponse;
    if n > 0 {
      MirrorOf(data, n, StripResponse(Packets(data)[0].payload));
    }
  }

  lemma MirrorOf(data: seq<byte>, n: nat, first: seq<byte>)
    requires 1 <= n <= |Packets(data)| && |first| == |Packets(data)[0].payload|
    ensures Mirrors(Frame([Packet(Packets(data)[0].seqId, first)] + Packets(data)[1..n]), data, n, first)
  {
    hide Packets, AfterPackets, Frame, Serialized;
    var ps := Packets(data);
    var p := Packet(ps[0].seqId, first);
    var rest := ps[1..n];
    PacketsFramable(data);
    FrameOfPackets(data, n);
    FrameStep(ps[..n]);
    FrameStep([p] + rest);
    assert ps[..n][1..] == rest && ([p] + rest)[1..] == rest;
    SerializedLength(ps[0]);
    SerializedLength(p);
    assert data == (Serialized(ps[0]) + Frame(rest)) + AfterPackets(data, n);
    assert data[4 + |first|..|data| - |AfterPackets(data, n)|] == Frame(rest);
  }

  lemma SerializedLength(p: Packet)
    requires Framable(p)
    ensures |Serialized(p)| == 4 + |p.payload|
  {
  }

  lemma Nothing(w: World)
    ensures Frame(ShownToClient(w.server, 0)) == [] && Frame(ShownToServer(w.client, 0)) == []
  {
  }

  /** One unfolding of `Run`. */
  lemma RunStep(w: World, state: State, roundTrips: nat, s: nat, c: nat)
    requires s <= |w.server| && c <= |w.client| && !state.Done? && !state.Failed?
    ensures var e := Run(w, state, roundTrips, s, c);
      if ReadsServer(state) then
        if s == |w.server| then e == End(s, c, s, c, roundTrips, false)
        else
          var t := Process(state, w.server[s].payload, roundTrips);
          if t.None? || t.value.action == TerminateNoRelay then e == End(s + 1, c, s, c, roundTrips, false)
          else if s in w.clientFails then e == End(s + 1, c, s, c, roundTrips, false)
          else if t.value.action == Complete then e == End(s + 1, c, s + 1, c, roundTrips, true)
          else if t.value.action == Terminate then e == End(s + 1, c, s + 1, c, roundTrips, false)
          else t.value.action == RelayToClient ==>
            e == Run(w, t.value.next, Counted(roundTrips, t.value.next), s + 1, c)
      else if c == |w.client| then e == End(s, c, s, c, roundTrips, false)
      else if state.ClientResponse? && Extract(w.client[c].payload).None?
      then e == End(s, c + 1, s, c, roundTrips, false)
      else if c in w.serverFails then e == End(s, c + 1, s, c, roundTrips, false)
      else
        var t := Process(state, w.client[c].payload, roundTrips);
        t.Some? && e == Run(w, t.value.next, roundTrips, s, c + 1)
  {
  }

  /** Which moves a server packet allows. */
  lemma ServerMoves(state: State, payload: seq<byte>, roundTrips: nat)
    requires ReadsServer(state)
    ensures var t := Process(state, payload, roundTrips);
      && (state.ServerGreeting? ==> t.None? || t.value == Transition(ClientResponse, RelayToClient))
      && (!state.ServerGreeting? && t.Some? ==>
            match t.value.action
            case RelayToClient => t.value.next in {ClientAuthSwitch, ClientMoreData, ServerMoreData}
            case Complete => t.value.next == Done && Classify(payload) == Ok
            case Terminate => t.value.next == Failed && Classify(payload) in {Error, Eof}
            case TerminateNoRelay => t.value.next == Failed
            case RelayToServer => false)
  {
  }

  lemma ClientMoves(state: State, payload: seq<byte>, roundTrips: nat)
    requires ReadsClient(state)
    ensures var t := Process(state, payload, roundTrips);
      t.Some? && t.value.action == RelayToServer
      && t.value.next ==
         match state
         case ClientResponse => ServerAuth
         case ClientAuthSwitch => ServerAuthSwitch
         case _ => ServerMoreData
  {
  }

  // ------------------------------------------------------------- run theorems

  /** Fast-auth packets among server packets 1..n (the greeting does not count). */
  function FastAuths(server: seq<Packet>, n: nat): nat
    requires n <= |server|
  {
    if n <= 1 then 0 else FastAuths(server, n - 1) + (if FastAuthOk(server[n - 1].payload) then 1 else 0)
  }

  /** AuthSwitchRequests among server packets 1..n. */
  function AuthSwitches(server: seq<Packet>, n: nat): nat
    requires n <= |server|
  {
    if n <= 1 then 0 else AuthSwitches(server, n - 1) + (if Classify(server[n - 1].payload) == AuthSwitch then 1 else 0)
  }

  /** A fast-auth packet that the relay passes on without counting: any but one that answers an AuthSwitchRequest. */
  predicate Skipped(server: seq<Packet>, i: nat)
    requires 1 <= i < |server|
  {
    FastAuthOk(server[i].payload) && (i == 1 || Classify(server[i - 1].payload) != AuthSwitch)
  }

  /** Uncounted packets among server packets 1..n. */
  function Uncounted(server: seq<Packet>, n: nat): nat
    requires n <= |server|
  {
    if n <= 1 then 0 else Uncounted(server, n - 1) + (if Skipped(server, n - 1) then 1 else 0)
  }

  lemma {:induction false} UncountedAreFastAuths(server: seq<Packet>, n: nat)
    requires n <= |server|
    ensures Uncounted(server, n) <= FastAuths(server, n)
  {
    if n > 1 { UncountedAreFastAuths(server, n - 1); }
  }

  /** What holds at every loop head of every run. */
  predicate Reachable(w: World, state: State, roundTrips: nat, s: nat, c: nat)
    requires s <= |w.server| && c <= |w.client|
  {
    && roundTrips <= MAX_ROUND_TRIPS
    && match state
       case ServerGreeting => s == 0 && c == 0 && roundTrips == 0
       case ClientResponse => s == 1 && c == 0 && roundTrips == 0
       case ServerAuth => s == 1 && c == 1 && roundTrips == 0
       case Done => false
       case Failed => false
       case _ =>
         var waiting := if ReadsClient(state) then 1 else 0;
         && s >= 2 && 1 <= c == 1 + roundTrips - waiting
         && s == 1 + roundTrips + Uncounted(w.server, s)
         && (Classify(w.server[s - 1].payload) == AuthSwitch <==> state.ClientAuthSwitch? || state.ServerAuthSwitch?)
         && AuthSwitches(w.server, s) <= 1
  }

  /** The bounds on a run that ends as `e`. */
  predicate WithinBounds(w: World, e: End) {
    && e.toClient <= e.serverRead <= |w.server| && e.toServer <= e.clientRead <= |w.client|
    && e.serverRead <= e.toClient + 1 && e.clientRead <= e.toServer + 1
    && e.trips <= MAX_ROUND_TRIPS
    && e.trips <= e.clientRead <= e.trips + 1
    && e.trips + Uncounted(w.server, e.serverRead) <= e.serverRead <= e.trips + Uncounted(w.server, e.serverRead) + 2
    && AuthSwitches(w.server, e.toClient) <= 1
  }

  /** Success means the last packet read is a server OK, relayed like every packet before it. */
  predicate SoundSuccess(w: World, e: End) {
    e.ok ==>
      && 2 <= e.serverRead <= |w.server| && 1 <= e.clientRead <= |w.client|
      && e.clientRead == 1 + e.trips && e.serverRead == 2 + e.trips + Uncounted(w.server, e.serverRead)
      && e.toClient == e.serverRead && e.toServer == e.clientRead
      && Classify(w.server[e.serverRead - 1].payload) == Ok
      && Extract(w.client[0].payload).Some?
  }

  lemma {:induction false} RunBounded(w: World, state: State, roundTrips: nat, s: nat, c: nat)
    requires s <= |w.server| && c <= |w.client| && Reachable(w, state, roundTrips, s, c)
    requires c > 0 ==> Extract(w.client[0].payload).Some?
    ensures WithinBounds(w, Run(w, state, roundTrips, s, c))
    ensures SoundSuccess(w, Run(w, state, roundTrips, s, c))
    decreases |w.server| - s + |w.client| - c
  {
    hide Run, Extract, Process, Reachable, WithinBounds, SoundSuccess;
    Waiting(w, state, roundTrips, s, c);
    RunStep(w, state, roundTrips, s, c);
    if ReadsServer(state) {
      if s < |w.server| {
        var t := Process(state, w.server[s].payload, roundTrips);
        ServerMoves(state, w.server[s].payload, roundTrips);
        ServerReaches(w, state, roundTrips, s, c);
        if t.Some? && t.value.action == RelayToClient && s !in w.clientFails {
          RunBounded(w, t.value.next, Counted(roundTrips, t.value.next), s + 1, c);
        }
      }
    } else if c < |w.client| {
      ClientMoves(state, w.client[c].payload, roundTrips);
      ClientReaches(w, state, roundTrips, s, c);
      var t := Process(state, w.client[c].payload, roundTrips);
      if (state.ClientResponse? ==> Extract(w.client[c].payload).Some?) && c !in w.serverFails {
        RunBounded(w, t.value.next, roundTrips, s, c + 1);
      }
    }
  }

  /** A run may stop at any loop head for want of a packet. */
  lemma Waiting(w: World, state: State, roundTrips: nat, s: nat, c: nat)
    requires s <= |w.server| && c <= |w.client| && Reachable(w, state, roundTrips, s, c)
    ensures !state.Done? && !state.Failed? && (ReadsClient(state) && c == 0 ==> state.ClientResponse?)
    ensures WithinBounds(w, End(s, c, s, c, roundTrips, false)) && SoundSuccess(w, End(s, c, s, c, roundTrips, false))
  {
    hide Classify, FastAuthOk;
  }

  /** Reading a server packet keeps the loop-head facts if it is relayed, and the bounds if the run ends with it. */
  lemma ServerReaches(w: World, state: State, roundTrips: nat, s: nat, c: nat)
    requires s < |w.server| && c <= |w.client| && Reachable(w, state, roundTrips, s, c) && ReadsServer(state)
    requires c > 0 ==> Extract(w.client[0].payload).Some?
    ensures var t := Process(state, w.server[s].payload, roundTrips);
      && (t.Some? && t.value.action == RelayToClient ==>
            Reachable(w, t.value.next, Counted(roundTrips, t.value.next), s + 1, c))
      && (t.Some? && t.value.action == Terminate ==> WithinBounds(w, End(s + 1, c, s + 1, c, roundTrips, false)))
      && (t.Some? && t.value.action == Complete ==>
            && WithinBounds(w, End(s + 1, c, s + 1, c, roundTrips, true))
            && SoundSuccess(w, End(s + 1, c, s + 1, c, roundTrips, true)))
    ensures WithinBounds(w, End(s + 1, c, s, c, roundTrips, false))
    ensures SoundSuccess(w, End(s + 1, c, s, c, roundTrips, false))
    ensures SoundSuccess(w, End(s + 1, c, s + 1, c, roundTrips, false))
  {
    hide Extract;
  }

  lemma ClientReaches(w: World, state: State, roundTrips: nat, s: nat, c: nat)
    requires s <= |w.server| && c < |w.client| && Reachable(w, state, roundTrips, s, c) && ReadsClient(state)
    ensures Reachable(w, Process(state, w.client[c].payload, roundTrips).value.next, roundTrips, s, c + 1)
    ensures WithinBounds(w, End(s, c + 1, s, c, roundTrips, false))
    ensures SoundSuccess(w, End(s, c + 1, s, c, roundTrips, false))
  {
    hide Classify, FastAuthOk, Extract;
    ClientMoves(state, w.client[c].payload, roundTrips);
  }

  /**
   Every handshake: at most one AuthSwitchRequest is relayed, at most ten round trips are counted, the client is
   asked for at most one packet per counted trip after its response, and the server packets read are the trips, the
   uncounted fast-auth packets and at most two more. Success is only reported after a server OK that was relayed, and
   then both counts are exact.
   */
  lemma HandshakeBounded(w: World)
    ensures WithinBounds(w, Handshake(w)) && SoundSuccess(w, Handshake(w))
  {
    hide Run;
    RunBounded(w, ServerGreeting, 0, 0, 0);
  }

  /** So no run asks the client for more than ten packets after its response, or reads more than 23 packets and the
      fast-auth ones. */
  lemma HandshakeLength(w: World)
    ensures var e := Handshake(w);
      && e.serverRead <= |w.server| && e.clientRead <= 1 + MAX_ROUND_TRIPS
      && e.serverRead + e.clientRead <= 3 + 2 * MAX_ROUND_TRIPS + FastAuths(w.server, e.serverRead)
  {
    hide Handshake, FastAuths, Uncounted, AuthSwitches;
    HandshakeBounded(w);
    UncountedAreFastAuths(w.server, Handshake(w).serverRead);
  }

  /** In a handshake that succeeds, the response shown to the server claims none of the three stripped capabilities,
      and the user and database in it are those the session goes on with. */
  lemma ServerSeesSessionUser(w: World, ctx0: Context, toClient: seq<byte>, toServer: seq<byte>, ctx: Context, k: nat)
    requires Left(w, Handshake(w), ctx0, true, toClient, toServer, ctx) && k in {11, 24, 27}
    ensures var e := Handshake(w);
      && 1 <= e.toServer <= |w.client| && toServer == Frame(ShownToServer(w.client, e.toServer))
      && var shown := ShownToServer(w.client, e.toServer)[0].payload;
         && |shown| >= 4 && !Bit(FromLE(shown[..4]), k)
         && Extract(shown) == Some(Fields(ctx.user, ctx.db))
  {
    hide Handshake, Bit, FromLE, StripResponse, Frame, Uncounted;
    HandshakeBounded(w);
    var response := w.client[0].payload;
    ExtractUnaffected(response);
    assert |response| >= 33;
    ResponseBits(response, k);
  }

  /** A server packet, inside the exchange, that needs another answer from the client. */
  predicate Asks(payload: seq<byte>) {
    (Classify(payload) == AuthMoreData && !FastAuthOk(payload)) || Classify(payload) == Unknown
  }

  lemma {:induction false} ExchangeEnds(w: World, roundTrips: nat, s: nat, c: nat, n: nat)
    requires s + n < |w.server| && c + n <= |w.client| && w.clientFails == {} && w.serverFails == {}
    requires forall i :: s <= i < s + n ==> Asks(w.server[i].payload)
    requires Classify(w.server[s + n].payload) == Ok && roundTrips <= MAX_ROUND_TRIPS
    ensures var e := Run(w, ServerMoreData, roundTrips, s, c);
      && (e.ok <==> roundTrips + n <= MAX_ROUND_TRIPS)
      && (e.ok ==> e.serverRead == s + n + 1 && e.clientRead == c + n)
    decreases n
  {
    hide Run, Extract;
    RunStep(w, ServerMoreData, roundTrips, s, c);
    if n > 0 && roundTrips < MAX_ROUND_TRIPS {
      RunStep(w, ClientMoreData, roundTrips + 1, s + 1, c);
      ExchangeEnds(w, roundTrips + 1, s + 1, c + 1, n - 1);
    }
  }

  /** A password exchange of `n` server questions, the server then content, succeeds exactly up to ten questions. */
  lemma ExchangeLimit(w: World, n: nat)
    requires n >= 1 && |w.server| >= n + 2 && |w.client| >= n + 1 && w.clientFails == {} && w.serverFails == {}
    requires w.server[0].payload != [] && Extract(w.client[0].payload).Some?
    requires Classify(w.server[1].payload) == AuthMoreData
    requires forall i :: 1 <= i <= n ==> Asks(w.server[i].payload)
    requires Classify(w.server[n + 1].payload) == Ok
    ensures Handshake(w).ok <==> n <= MAX_ROUND_TRIPS
    ensures Handshake(w).ok ==> Handshake(w).serverRead == n + 2 && Handshake(w).clientRead == n + 1
  {
    hide Run, Extract;
    RunStep(w, ServerGreeting, 0, 0, 0);
    RunStep(w, ClientResponse, 0, 1, 0);
    RunStep(w, ServerAuth, 0, 1, 1);
    RunStep(w, ClientMoreData, 1, 2, 1);
    ExchangeEnds(w, 1, 2, 2, n - 1);
  }

  lemma {:induction false} FastAuthLoop(w: World, s: nat, c: nat, n: nat)
    requires s + n < |w.server| && c <= |w.client| && w.clientFails == {}
    requires forall i :: s <= i < s + n ==> FastAuthOk(w.server[i].payload)
    requires Classify(w.server[s + n].payload) == Ok
    ensures var e := Run(w, ServerMoreData, 0, s, c);
      e.ok && e.serverRead == s + n + 1 && e.clientRead == c
    decreases n
  {
    hide Run, Extract;
    RunStep(w, ServerMoreData, 0, s, c);
    if n > 0 {
      FastAuthLoop(w, s + 1, c, n - 1);
    }
  }

  /** Fast-auth packets are not counted, so no constant bounds the length of every run. */
  lemma FastAuthUncounted(w: World, n: nat)
    requires n >= 1 && |w.server| >= n + 2 && |w.client| >= 1 && w.clientFails == {} && w.serverFails == {}
    requires w.server[0].payload != [] && Extract(w.client[0].payload).Some?
    requires forall i :: 1 <= i <= n ==> FastAuthOk(w.server[i].payload)
    requires Classify(w.server[n + 1].payload) == Ok
    ensures Handshake(w).ok && Handshake(w).serverRead == n + 2 && Handshake(w).clientRead == 1
  {
    hide Run, Extract;
    RunStep(w, ServerGreeting, 0, 0, 0);
    RunStep(w, ClientResponse, 0, 1, 0);
    RunStep(w, ServerAuth, 0, 1, 1);
    FastAuthLoop(w, 2, 1, n - 1);
  }
}
