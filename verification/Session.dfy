/**
 A whole session on the bytes of its two connections (`Session::run`, `src/proxy/session.cpp`): the handshake relay,
 and the command loop on what the handshake left unread.
 */
module Session {
  import opened Bytes
  import opened MysqlPacket
  import Handshake
  import HandshakeResponse
  import opened CommandLoop
  import Enforcement

  /** All a session depends on: the bytes either peer will ever send, the writes that fail in each of the two phases,
      the verdict on each command packet if it is a query, and the iteration from which on the closing flag is set. */
  datatype Wire = Wire(server: seq<byte>, client: seq<byte>, shaking: Faults, running: Faults,
                       verdicts: nat -> Verdict, closedFrom: nat)

  datatype Faults = Faults(toClient: set<nat>, toServer: set<nat>)

  function Shaking(w: Wire): Handshake.World {
    Handshake.World(Packets(w.server), Packets(w.client), w.shaking.toClient, w.shaking.toServer)
  }

  /** The command loop's world once the handshake has read that many packets of each side. */
  function Running(w: Wire, serverRead: nat, clientRead: nat): World
    requires serverRead <= |Packets(w.server)| && clientRead <= |Packets(w.client)|
  {
    var client := Packets(AfterPackets(w.client, clientRead));
    World(client, Packets(AfterPackets(w.server, serverRead)), w.running.toClient, w.running.toServer,
          seq(|client|, w.verdicts), w.closedFrom)
  }

  /** What a session that got past the handshake has written: the handshake's bytes and the commands' packets behind. */
  predicate Wrote(w: Wire, k: nat, stop: Stop, log: Log, toClient: seq<byte>, toServer: seq<byte>) {
    var h, e := Shaking(w), Handshake.Handshake(Shaking(w));
    && e.toClient <= e.serverRead <= |h.server| && e.toServer <= e.clientRead <= |h.client|
    && var world := Running(w, e.serverRead, e.clientRead);
       && k <= |world.client| && StopsWith(world, k, stop) && Closed(world, k, stop, log)
       && toClient == Frame(Handshake.ShownToClient(h.server, e.toClient)) + Frame(log.toClient)
       && toServer == Frame(Handshake.ShownToServer(h.client, e.toServer)) + Frame(log.toServer)
  }

  /** `Session::run` from the handshake on; a failed handshake ends it. */
  method RunSession(w: Wire, ctx0: Handshake.Context)
    returns (ok: bool, toClient: seq<byte>, toServer: seq<byte>, ctx: Handshake.Context, k: nat, stop: Stop, log: Log)
    ensures !ok ==> Handshake.Left(Shaking(w), Handshake.Handshake(Shaking(w)), ctx0, false, toClient, toServer, ctx)
    ensures ok ==>
      var h, e := Shaking(w), Handshake.Handshake(Shaking(w));
      && e.ok && Wrote(w, k, stop, log, toClient, toServer)
      && Handshake.Left(h, e, ctx0, true, Frame(Handshake.ShownToClient(h.server, e.toClient)),
                        Frame(Handshake.ShownToServer(h.client, e.toServer)), ctx)
  {
    hide Packets, Handshake.Handshake, Handshake.ShownToClient, Handshake.ShownToServer, Frame, StopsWith, Closed;
    hide Handshake.Mirrors, AfterPackets, HandshakeResponse.Extract;
    k, stop, log := 0, Closing, Log([], [], 0, 0, 0);
    var serverRead, clientRead;
    ok, toClient, toServer, ctx, serverRead, clientRead :=
      Handshake.RelayHandshakeOnTheWire(w.server, w.client, w.shaking.toClient, w.shaking.toServer, ctx0);
    if ok {
      k, stop, log := RunCommands(Running(w, serverRead, clientRead));
      toClient, toServer := toClient + Frame(log.toClient), toServer + Frame(log.toServer);
    }
  }

  /** The packets of `ps` with these numbers. */
  function Picked(ps: seq<Packet>, idx: seq<nat>): seq<Packet>
    requires forall j :: 0 <= j < |idx| ==> idx[j] < |ps|
  {
    seq(|idx|, j requires 0 <= j < |idx| => ps[idx[j]])
  }

  lemma Shifted(ps: seq<Packet>, n: nat, rel: seq<nat>, out: seq<Packet>) returns (idx: seq<nat>)
    requires n <= |ps| && |out| == |rel| && Increasing(rel)
    requires forall j :: 0 <= j < |rel| ==> rel[j] < |ps[n..]| && out[j] == ps[n..][rel[j]]
    ensures |idx| == |rel| && Increasing(idx) && forall j :: 0 <= j < |idx| ==> idx[j] == n + rel[j] < |ps|
    ensures Picked(ps, idx) == out
  {
    idx := seq(|rel|, j requires 0 <= j < |rel| => rel[j] + n);
  }

  /** Every byte the server ever gets in a session: the client's handshake packets, the first one stripped, and then, in
      order and unchanged, packets of the client that may reach it. */
  lemma ServerBytes(w: Wire, at: seq<Enforcement.Situation>, k: nat, stop: Stop, log: Log, toClient: seq<byte>,
                    toServer: seq<byte>) returns (idx: seq<nat>)
    requires Wrote(w, k, stop, log, toClient, toServer)
    requires var e := Handshake.Handshake(Shaking(w)); Enforcement.Inspected(Running(w, e.serverRead, e.clientRead), at)
    ensures var h, e := Shaking(w), Handshake.Handshake(Shaking(w));
      var world := Running(w, e.serverRead, e.clientRead);
      && Increasing(idx)
      && (forall j :: 0 <= j < |idx| ==>
            && e.clientRead <= idx[j] < |h.client| && idx[j] - e.clientRead < |world.client|
            && Enforcement.MayReachServer(world, at, idx[j] - e.clientRead))
      && toServer == Frame(Handshake.ShownToServer(h.client, e.toServer)) + Frame(Picked(h.client, idx))
  {
    hide Packets, Handshake.Handshake, Handshake.ShownToServer, Frame, StopsWith, Closed;
    hide Enforcement.Inspected, Enforcement.MayReachServer, AfterPackets;
    var h, e := Shaking(w), Handshake.Handshake(Shaking(w));
    var world := Running(w, e.serverRead, e.clientRead);
    var rel := Enforcement.NothingElseReachesServer(world, at, k, stop, log);
    FrameOfPackets(w.client, e.clientRead);
    idx := Shifted(h.client, e.clientRead, rel, log.toServer);
  }
}
