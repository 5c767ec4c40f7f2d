/**
 * One WebSocket connection (src/services/ws_session.rs): a small state
 * machine holding the time of the client's last heartbeat and whether the
 * connection has been stopped. What it sends is recorded in two logs: frames
 * written to the client and messages posted to the session registry. The
 * clock is an integer number of seconds.
 */
module WsSession {
  import opened Wrappers
  import opened ApiModels

  /** A session id (a random UUID in the system, here any number). */
  type Uuid = nat

  /** The mailbox address of a session actor. */
  type Addr = nat

  type Bytes = seq<bv8>

  /** Seconds of client silence after which the connection is dropped. */
  const ClientTimeout: int := 10

  /** Seconds between two heartbeat ticks. */
  const HeartbeatInterval: int := 1

  /** The payload of every heartbeat ping: the bytes of "Ping". */
  const PingPayload: Bytes := [0x50, 0x69, 0x6e, 0x67]

  /** A copy of a session's fields, as carried inside messages to the registry. */
  datatype SessionInfo = SessionInfo(id: Uuid, hb: int, user: string, team: string, crossword: string)

  /** The registration of a session: its fields and its mailbox. */
  datatype Connect = Connect(session: SessionInfo, addr: Addr)

  /** A batch of edits from one session. */
  datatype Move = Move(solutionItems: seq<SolutionItemDto>, sender: SessionInfo)

  /** The messages a session posts to the registry. */
  datatype ServerMessage = ConnectMessage(connect: Connect) | DisconnectMessage(id: Uuid) | MoveMessage(move: Move)

  /** A frame received from the client. */
  datatype Frame =
    | Text(text: string)
    | Binary(data: Bytes)
    | Continuation(data: Bytes)
    | Ping(data: Bytes)
    | Pong(data: Bytes)
    | Close(reason: Option<string>)
    | Nop

  /** A frame written to the client. */
  datatype Outgoing = TextOut(text: string) | BinaryOut(data: Bytes) | PingOut(data: Bytes) | PongOut(data: Bytes)

  /** The heartbeat check: the client has been silent for strictly more than the timeout. */
  predicate TimedOut(now: int, hb: int): (r: bool)
    ensures r <==> now >= hb + ClientTimeout + 1
  {
    now - hb > ClientTimeout
  }

  /** Silence of exactly the timeout is tolerated; one second more is not. */
  lemma TimeoutBoundary(hb: int)
    ensures !TimedOut(hb + ClientTimeout, hb)
    ensures TimedOut(hb + ClientTimeout + HeartbeatInterval, hb)
  {
  }

  /** A heartbeat received at `seen` keeps every later tick up to `seen + 10` from timing out. */
  lemma HeartbeatKeepsAlive(seen: int, now: int)
    requires seen <= now <= seen + ClientTimeout
    ensures !TimedOut(now, seen)
  {
  }

  /**
   * A stopped session's actor is no longer polled: no frame, tick or registry
   * message reaches it afterwards, so every event handler requires `!stopped`.
   */
  class Session {
    const id: Uuid
    const addr: Addr
    const user: string
    const team: string
    const crossword: string
    /** When the client was last heard from. */
    var hb: int
    var stopped: bool
    /** Frames written to the client, oldest first. */
    var toClient: seq<Outgoing>
    /** Messages posted to the registry, oldest first. */
    var toServer: seq<ServerMessage>

    function Info(): (info: SessionInfo)
      reads this
      ensures info.id == id && info.hb == hb
      ensures info.user == user && info.team == team && info.crossword == crossword
    {
      SessionInfo(id, hb, user, team, crossword)
    }

    /** `WsSession::new`: `id` is the fresh UUID and `now` the creation time. */
    constructor (id: Uuid, addr: Addr, user: string, team: string, crossword: string, now: int)
      ensures this.id == id && this.addr == addr
      ensures this.user == user && this.team == team && this.crossword == crossword
      ensures hb == now && !stopped
      ensures toClient == [] && toServer == []
    {
      this.id := id;
      this.addr := addr;
      this.user := user;
      this.team := team;
      this.crossword := crossword;
      hb := now;
      stopped := false;
      toClient := [];
      toServer := [];
    }

    /**
     * `ctx.stop()` followed by `stopping`: the first stop tells the registry
     * that this session is gone; stopping again does nothing.
     */
    method Stop()
      modifies this
      ensures stopped
      ensures toServer == old(toServer) + (if old(stopped) then [] else [DisconnectMessage(id)])
      ensures hb == old(hb) && toClient == old(toClient)
    {
      if !stopped {
        stopped := true;
        toServer := toServer + [DisconnectMessage(id)];
      }
    }

    /**
     * `started`: register with the registry; `reply` is its answer, or None
     * when the request could not be delivered. An answer is written to the
     * client; a failed request stops the session.
     */
    method Started(reply: Option<string>)
      requires !stopped
      modifies this
      ensures hb == old(hb)
      ensures reply.Some? ==> toClient == old(toClient) + [TextOut(reply.value)]
      ensures reply.Some? ==> !stopped && toServer == old(toServer) + [ConnectMessage(Connect(Info(), addr))]
      ensures reply.None? ==> toClient == old(toClient) && stopped
      ensures reply.None? ==>
                toServer == old(toServer) + [ConnectMessage(Connect(Info(), addr)), DisconnectMessage(id)]
    {
      toServer := toServer + [ConnectMessage(Connect(Info(), addr))];
      match reply {
        case Some(text) =>
          toClient := toClient + [TextOut(text)];
        case None =>
          Stop();
      }
    }

    /**
     * The stream handler. `msg` is a frame or a protocol error, `now` the
     * arrival time, `decode` the JSON decoder for a batch of edits.
     */
    method HandleFrame(msg: Result<Frame, string>, now: int, decode: string -> Option<seq<SolutionItemDto>>)
      requires !stopped
      modifies this
      ensures msg.Ok? && (msg.value.Ping? || msg.value.Pong?) ==> hb == now
      ensures !(msg.Ok? && (msg.value.Ping? || msg.value.Pong?)) ==> hb == old(hb)
      ensures msg.Ok? && msg.value.Ping? ==> toClient == old(toClient) + [PongOut(msg.value.data)]
      ensures msg.Ok? && msg.value.Binary? ==> toClient == old(toClient) + [BinaryOut(msg.value.data)]
      ensures !(msg.Ok? && (msg.value.Ping? || msg.value.Binary?)) ==> toClient == old(toClient)
      ensures msg.Ok? && (msg.value.Close? || msg.value.Continuation?) ==>
                stopped && toServer == old(toServer) + [DisconnectMessage(id)]
      ensures msg.Ok? && msg.value.Text? && decode(msg.value.text).Some? ==>
                !stopped
                && toServer == old(toServer) + [MoveMessage(Move(decode(msg.value.text).value, Info()))]
      ensures msg.Err? || msg.value.Nop? || msg.value.Ping? || msg.value.Pong? || msg.value.Binary?
              || (msg.value.Text? && decode(msg.value.text).None?) ==>
                !stopped && toServer == old(toServer)
    {
      match msg {
        case Ok(frame) =>
          match frame {
            case Ping(data) =>
              hb := now;
              toClient := toClient + [PongOut(data)];
            case Pong(_) =>
              hb := now;
            case Binary(data) =>
              toClient := toClient + [BinaryOut(data)];
            case Close(_) =>
              Stop();
            case Continuation(_) =>
              Stop();
            case Nop =>
            case Text(s) =>
              match decode(s) {
                case Some(solutionItems) =>
                  toServer := toServer + [MoveMessage(Move(solutionItems, Info()))];
                case None =>
              }
          }
        case Err(_) =>
      }
    }

    /**
     * One run of the heartbeat interval at time `now`: after more than ten
     * silent seconds the session tells the registry it is gone and stops
     * (whose own notice makes a second one); a ping goes out in any case.
     */
    method Tick(now: int)
      requires !stopped
      modifies this
      ensures hb == old(hb)
      ensures toClient == old(toClient) + [PingOut(PingPayload)]
      ensures TimedOut(now, old(hb)) ==>
                stopped
                && toServer == old(toServer) + [DisconnectMessage(id), DisconnectMessage(id)]
      ensures !TimedOut(now, old(hb)) ==> !stopped && toServer == old(toServer)
    {
      if now - hb > ClientTimeout {
        toServer := toServer + [DisconnectMessage(id)];
        Stop();
      }
      toClient := toClient + [PingOut(PingPayload)];
    }

    /** The `Message` handler: text from the registry is written to the client. */
    method Deliver(text: string)
      requires !stopped
      modifies this
      ensures toClient == old(toClient) + [TextOut(text)]
      ensures hb == old(hb) && !stopped && toServer == old(toServer)
    {
      toClient := toClient + [TextOut(text)];
    }
  }
}
