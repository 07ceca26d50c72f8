/** Wire vocabulary shared by the browser sync agent and the relay.
    JSON frames are modelled as records; a field that a frame leaves out is
    represented by its "falsy" value ("" for strings, 0 for numbers, false
    for flags), which is how both programs read a missing field. */
module Protocol {

  datatype Option<+T> = None | Some(value: T) {
    function GetOr(default: T): T {
      match this
      case Some(v) => v
      case None => default
    }
  }

  /** One instant of a peer's player, the `state` object of an event frame.
      `currentTime` stays optional because the agent distinguishes a missing
      value (`??`) from a zero one. */
  datatype PlaybackState = PlaybackState(
    videoId: string,
    url: string,
    currentTime: Option<real>,
    paused: bool,
    playbackRate: real,
    duration: real,
    title: string)

  /** The empty object `{}` that the relay forwards when a frame has no state. */
  const EmptyState := PlaybackState("", "", None, false, 0.0, 0.0, "")

  /** A parsed JSON object sent by an agent to the relay (`join`, `event`,
      `heartbeat`, `ping` or anything else in `kind`, the frame's `type`). */
  datatype Frame = Frame(
    kind: string,
    room: string,
    clientId: string,
    nickname: string,
    action: string,
    state: PlaybackState,
    sentAt: Option<int>)

  /** What the relay's socket handler receives: a parsed object, or text that
      is not JSON. */
  datatype Inbound = Unparsable | Parsed(frame: Frame)

  /** One roster entry. */
  datatype Member = Member(clientId: string, nickname: string)

  /** An event or heartbeat after the relay has stamped it. */
  datatype Relayed = Relayed(
    kind: string,
    action: string,
    state: PlaybackState,
    room: string,
    clientId: string,
    nickname: string,
    sentAt: int,
    serverTime: int)

  datatype PresenceAction = Joined | Left

  datatype ErrorCode = MissingRoom | NotJoined | BadJson | UnknownType

  /** Everything the relay writes to a socket. `Ping` is the WebSocket ping
      control frame of the liveness sweep, not a JSON message. */
  datatype ServerMsg =
    | Ack(room: string, clientId: string, nickname: string, clients: seq<Member>, serverTime: int)
    | Presence(action: PresenceAction, clientId: string, nickname: string, clients: seq<Member>, serverTime: int)
    | Forward(event: Relayed)
    | Error(code: ErrorCode, message: string)
    | Pong(serverTime: int)
    | Ping
}
