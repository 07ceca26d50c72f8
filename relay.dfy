/** The relay of server/index.js: rooms of WebSocket connections, join and
    leave with presence notices, fan-out of events to the rest of a room,
    and the liveness sweep. A socket is a `ConnId`; what the relay writes to
    it is appended to that socket's outbox. */
module Relay {
  import opened Protocol
  import opened RoomSets

  type ConnId = nat

  /** The properties the relay keeps on a socket object. `open` is the
      socket's `readyState === OPEN`; `terminated` records `ws.terminate()`. */
  datatype Conn = Conn(
    roomId: Option<string>,
    clientId: string,
    nickname: string,
    isAlive: bool,
    open: bool,
    terminated: bool)

  /** Period of the liveness sweep. */
  const HeartbeatIntervalMs: int := 30000

  const MissingRoomError := Error(MissingRoom, "room is required")
  const NotJoinedError := Error(NotJoined, "join a room first")
  const BadJsonError := Error(BadJson, "invalid JSON payload")

  function UnknownTypeError(kind: string): ServerMsg {
    Error(UnknownType, "unsupported message type: " + kind)
  }

  function MemberOf(c: Conn): Member {
    Member(c.clientId, c.nickname)
  }

  /** The roster entry of a socket. Every room member is a known socket
      (`Consistent`); an unknown one would read as an empty entry. */
  function MemberAt(conns: map<ConnId, Conn>, c: ConnId): Member {
    if c in conns then MemberOf(conns[c]) else Member("", "")
  }

  /** The roster of a room: one entry per member socket, in joining order. */
  function Roster(ids: seq<ConnId>, conns: map<ConnId, Conn>): (r: seq<Member>)
    ensures |r| == |ids|
    ensures forall i | 0 <= i < |ids| :: r[i] == MemberAt(conns, ids[i])
  {
    if ids == [] then []
    else Roster(ids[..|ids| - 1], conns) + [MemberAt(conns, ids[|ids| - 1])]
  }

  /** The roster reads only the identities of the members: changing anything
      else about any socket, or anything at all about a non-member, leaves
      it alone. */
  lemma {:induction false} RosterFrame(ids: seq<ConnId>, a: map<ConnId, Conn>, b: map<ConnId, Conn>)
    requires forall c | c in ids :: MemberAt(a, c) == MemberAt(b, c)
    ensures Roster(ids, a) == Roster(ids, b)
  {
    if ids != [] {
      RosterFrame(ids[..|ids| - 1], a, b);
    }
  }

  /** The identity a join claims: the trimmed `clientId`, or a fresh one. */
  function JoinClientId(f: Frame, freshId: string): (r: string)
    ensures Trim(f.clientId) != [] ==> r == Trim(f.clientId)
    ensures Trim(f.clientId) == [] ==> r == freshId
  {
    var id := Trim(f.clientId);
    if id == "" then freshId else id
  }

  /** The trimmed nickname, or "anonymous". */
  function JoinNickname(f: Frame): (r: string)
    ensures r != []
    ensures Trim(f.nickname) != [] ==> r == Trim(f.nickname)
    ensures Trim(f.nickname) == [] ==> r == "anonymous"
  {
    var nick := Trim(f.nickname);
    if nick == "" then "anonymous" else nick
  }

  /** The event the relay forwards: identity and room come from the sending
      socket, the frame contributes only kind, action, state and `sentAt`. */
  function Stamp(f: Frame, sender: Conn, room: string, now: int): (r: Relayed)
    ensures r.kind == "heartbeat" || r.kind == "event"
    ensures r.kind == "heartbeat" <==> f.kind == "heartbeat"
    ensures r.clientId == sender.clientId && r.nickname == sender.nickname && r.room == room
    ensures r.action == f.action && r.state == f.state && r.serverTime == now
    ensures f.sentAt.None? ==> r.sentAt == now
    ensures f.sentAt.Some? ==> r.sentAt == f.sentAt.value
  {
    Relayed(
      if f.kind == "heartbeat" then "heartbeat" else "event",
      f.action, f.state, room, sender.clientId, sender.nickname,
      f.sentAt.GetOr(now), now)
  }

  /** A peer cannot speak for someone else: whatever identity or room a frame
      claims, the forwarded event is the same. */
  lemma StampIgnoresClaimedIdentity(f: Frame, sender: Conn, room: string, now: int, id: string, nick: string, claimed: string)
    ensures Stamp(f.(clientId := id, nickname := nick, room := claimed), sender, room, now) == Stamp(f, sender, room, now)
  {
  }

  /** The rooms after `c` leaves room `prior`: the room loses `c` and is
      dropped once empty. */
  function LeaveRooms(rooms: map<string, seq<ConnId>>, prior: Option<string>, c: ConnId): map<string, seq<ConnId>> {
    match prior
    case None => rooms
    case Some(r) =>
      if r !in rooms then rooms
      else
        var rest := SetDelete(rooms[r], c);
        if rest == [] then rooms - {r} else rooms[r := rest]
  }

  /** The rooms after `c` enters room `r`, created if missing. */
  function JoinRooms(rooms: map<string, seq<ConnId>>, r: string, c: ConnId): map<string, seq<ConnId>> {
    rooms[r := SetAdd(if r in rooms then rooms[r] else [], c)]
  }

  /** Leaving room `prior` removes no room but that one, changes no other
      room, and keeps every other member of `prior`; if that room survives
      it is non-empty and no longer holds `c`. */
  lemma LeaveRoomsShape(rooms: map<string, seq<ConnId>>, prior: Option<string>, c: ConnId)
    ensures var r := LeaveRooms(rooms, prior, c);
      && r.Keys <= rooms.Keys
      && (forall x | x in rooms && prior != Some(x) :: x in r && r[x] == rooms[x])
      && (forall x | x in r && prior == Some(x) :: c !in r[x] && r[x] != [])
      && (forall x, d | x in rooms && prior == Some(x) && d in rooms[x] && d != c :: x in r && d in r[x])
  {
  }

  /** Entering room `r` creates it if missing, changes no other room, and
      its members are the old ones plus `c`. */
  lemma JoinRoomsShape(rooms: map<string, seq<ConnId>>, r: string, c: ConnId)
    ensures var res := JoinRooms(rooms, r, c);
      && res.Keys == rooms.Keys + {r}
      && (forall x | x in rooms && x != r :: res[x] == rooms[x])
      && (forall d :: d in res[r] <==> d == c || (r in rooms && d in rooms[r]))
  {
  }

  ghost predicate MembersKnown(rooms: map<string, seq<ConnId>>, conns: map<ConnId, Conn>) {
    forall r, c | r in rooms && c in rooms[r] :: c in conns
  }

  ghost predicate RoomsDistinct(rooms: map<string, seq<ConnId>>) {
    forall r | r in rooms :: Distinct(rooms[r])
  }

  /** Rooms and sockets agree: a socket is in the room its `roomId` names
      and in no other, rooms are never empty, and an empty room id is never
      stored. */
  ghost predicate Consistent(rooms: map<string, seq<ConnId>>, conns: map<ConnId, Conn>) {
    && MembersKnown(rooms, conns)
    && RoomsDistinct(rooms)
    && (forall r | r in rooms :: r != "" && rooms[r] != [])
    && (forall r, c | r in rooms && c in rooms[r] :: conns[c].roomId == Some(r))
    && (forall c | c in conns && conns[c].roomId.Some? ::
          conns[c].roomId.value in rooms && c in rooms[conns[c].roomId.value])
  }

  /** A socket belongs to at most one room. */
  lemma OneRoomPerSocket(rooms: map<string, seq<ConnId>>, conns: map<ConnId, Conn>, r1: string, r2: string, c: ConnId)
    requires Consistent(rooms, conns)
    requires r1 in rooms && r2 in rooms && c in rooms[r1] && c in rooms[r2]
    ensures r1 == r2
  {
    assert conns[c].roomId == Some(r1);
  }

  /** Leaving keeps rooms and sockets consistent. */
  lemma LeaveKeepsConsistent(rooms: map<string, seq<ConnId>>, conns: map<ConnId, Conn>, c: ConnId)
    requires Consistent(rooms, conns) && c in conns
    ensures Consistent(LeaveRooms(rooms, conns[c].roomId, c), conns[c := conns[c].(roomId := None)])
  {
    var rooms2 := LeaveRooms(rooms, conns[c].roomId, c);
    var conns2 := conns[c := conns[c].(roomId := None)];
    forall r, d | r in rooms2 && d in rooms2[r]
      ensures d in conns2 && conns2[d].roomId == Some(r)
    {
      assert d in rooms[r];
      if d == c {
        assert conns[c].roomId == Some(r);
      }
    }
    forall d | d in conns2 && conns2[d].roomId.Some?
      ensures conns2[d].roomId.value in rooms2 && d in rooms2[conns2[d].roomId.value]
    {
      var r := conns2[d].roomId.value;
      assert d != c;
      if conns[c].roomId == Some(r) {
        assert d in SetDelete(rooms[r], c);
      }
    }
  }

  /** Entering a room from no room keeps rooms and sockets consistent, and
      the socket is appended last to the room. */
  lemma JoinKeepsConsistent(rooms: map<string, seq<ConnId>>, conns: map<ConnId, Conn>, c: ConnId, r: string, id: string, nick: string)
    requires Consistent(rooms, conns) && c in conns && conns[c].roomId.None? && r != ""
    ensures Consistent(JoinRooms(rooms, r, c), conns[c := conns[c].(roomId := Some(r), clientId := id, nickname := nick)])
    ensures r in rooms ==> JoinRooms(rooms, r, c)[r] == rooms[r] + [c]
  {
    var rooms2 := JoinRooms(rooms, r, c);
    var conns2 := conns[c := conns[c].(roomId := Some(r), clientId := id, nickname := nick)];
    forall r2, d | r2 in rooms2 && d in rooms2[r2]
      ensures d in conns2 && conns2[d].roomId == Some(r2)
    {
      if d != c {
        assert d in rooms[r2];
      }
    }
  }

  /** Changing anything but the room of a socket keeps them consistent. */
  lemma RelabelKeepsConsistent(rooms: map<string, seq<ConnId>>, conns: map<ConnId, Conn>, c: ConnId, x: Conn)
    requires Consistent(rooms, conns) && c in conns && x.roomId == conns[c].roomId
    ensures Consistent(rooms, conns[c := x])
  {
  }

  /** Everything written to socket `d` so far; nothing for a socket that was
      never written to. */
  function Sent(out: map<ConnId, seq<ServerMsg>>, d: ConnId): seq<ServerMsg> {
    if d in out then out[d] else []
  }

  /** One write of `msg` to socket `d`: it goes out only while the socket is
      open, and nothing else is written. */
  function Write(out: map<ConnId, seq<ServerMsg>>, d: ConnId, conns: map<ConnId, Conn>, msg: ServerMsg): (r: map<ConnId, seq<ServerMsg>>)
    ensures forall e :: Sent(r, e) == Sent(out, e) + (if e == d && d in conns && conns[d].open then [msg] else [])
  {
    if d in conns && conns[d].open then out[d := Sent(out, d) + [msg]] else out
  }

  /** The room's members as `broadcast` iterates them, none for a room that
      does not exist. */
  function MembersOf(rooms: map<string, seq<ConnId>>, roomId: string): seq<ConnId> {
    if roomId in rooms then rooms[roomId] else []
  }

  /** The outboxes after `payload` is written, member by member, to every
      socket of `members` other than `exclude`. */
  function FanOut(out: map<ConnId, seq<ServerMsg>>, members: seq<ConnId>, exclude: ConnId,
                  conns: map<ConnId, Conn>, payload: ServerMsg): map<ConnId, seq<ServerMsg>>
  {
    if members == [] then out
    else
      var prev := FanOut(out, members[..|members| - 1], exclude, conns, payload);
      var d := members[|members| - 1];
      if d == exclude then prev else Write(prev, d, conns, payload)
  }

  /** Broadcasting to a set of members gives each open member but the
      excluded one exactly one copy and nobody else anything. */
  lemma FanOutDelivers(out: map<ConnId, seq<ServerMsg>>, members: seq<ConnId>, exclude: ConnId,
                       conns: map<ConnId, Conn>, payload: ServerMsg)
    requires Distinct(members)
    ensures forall d :: Sent(FanOut(out, members, exclude, conns, payload), d)
                        == Sent(out, d) + (if d in members && d != exclude && d in conns && conns[d].open then [payload] else [])
  {
    forall d
      ensures Sent(FanOut(out, members, exclude, conns, payload), d)
              == Sent(out, d) + (if d in members && d != exclude && d in conns && conns[d].open then [payload] else [])
    {
      FanOutAt(out, members, exclude, conns, payload, d);
    }
  }

  lemma {:induction false} FanOutAt(out: map<ConnId, seq<ServerMsg>>, members: seq<ConnId>, exclude: ConnId,
                                    conns: map<ConnId, Conn>, payload: ServerMsg, d: ConnId)
    requires Distinct(members)
    ensures Sent(FanOut(out, members, exclude, conns, payload), d)
            == Sent(out, d) + (if d in members && d != exclude && d in conns && conns[d].open then [payload] else [])
  {
    if members != [] {
      var init := members[..|members| - 1];
      var last := members[|members| - 1];
      assert Distinct(init);
      FanOutAt(out, init, exclude, conns, payload, d);
      assert d in members <==> d in init || d == last by {
        assert members == init + [last];
      }
      NotBefore(members, |members| - 1);
    }
  }

  /** Broadcasting only appends, whatever the members: nothing already
      written to any socket is lost. */
  lemma {:induction false} FanOutGrows(out: map<ConnId, seq<ServerMsg>>, members: seq<ConnId>, exclude: ConnId,
                                       conns: map<ConnId, Conn>, payload: ServerMsg, d: ConnId)
    ensures Sent(out, d) <= Sent(FanOut(out, members, exclude, conns, payload), d)
  {
    if members != [] {
      FanOutGrows(out, members[..|members| - 1], exclude, conns, payload, d);
    }
  }

  /** What a socket `d` hears when `c` leaves its room: one leave notice
      with the remaining roster if `d` stays behind in it and is open. */
  function LeaveNotice(rooms: map<string, seq<ConnId>>, conns: map<ConnId, Conn>, c: ConnId, d: ConnId, now: int): seq<ServerMsg>
    requires c in conns
  {
    match conns[c].roomId
    case None => []
    case Some(r) =>
      if r !in rooms then []
      else
        var rest := SetDelete(rooms[r], c);
        if d in rest && d in conns && conns[d].open
        then [Presence(Left, conns[c].clientId, conns[c].nickname, Roster(rest, conns), now)]
        else []
  }

  /** The outboxes after `c` leaves its room: with members left behind,
      the leave notice fans out to them. */
  function LeaveOutbox(out: map<ConnId, seq<ServerMsg>>, rooms: map<string, seq<ConnId>>,
                       conns: map<ConnId, Conn>, c: ConnId, now: int): map<ConnId, seq<ServerMsg>>
    requires c in conns
  {
    match conns[c].roomId
    case None => out
    case Some(r) =>
      if r !in rooms then out
      else
        var rest := SetDelete(rooms[r], c);
        if rest == [] then out
        else FanOut(out, rest, c, conns, Presence(Left, conns[c].clientId, conns[c].nickname, Roster(rest, conns), now))
  }

  /** Leaving a room writes exactly one leave notice to each open member
      left behind, and nothing to anyone else, the leaver included. */
  lemma LeaveOutboxDelivers(out: map<ConnId, seq<ServerMsg>>, rooms: map<string, seq<ConnId>>,
                            conns: map<ConnId, Conn>, c: ConnId, now: int)
    requires RoomsDistinct(rooms) && c in conns
    ensures forall d :: Sent(LeaveOutbox(out, rooms, conns, c, now), d) == Sent(out, d) + LeaveNotice(rooms, conns, c, d, now)
    ensures Sent(LeaveOutbox(out, rooms, conns, c, now), c) == Sent(out, c)
  {
    match conns[c].roomId
    case None =>
      forall d ensures Sent(out, d) == Sent(out, d) + [] { }
    case Some(r) =>
      if r !in rooms {
        forall d ensures Sent(out, d) == Sent(out, d) + [] { }
      } else {
        var rest := SetDelete(rooms[r], c);
        if rest == [] {
          forall d ensures Sent(out, d) == Sent(out, d) + [] { }
        } else {
          FanOutDelivers(out, rest, c, conns, Presence(Left, conns[c].clientId, conns[c].nickname, Roster(rest, conns), now));
        }
      }
  }

  /** Leaving only appends to outboxes. */
  lemma LeaveOutboxGrows(out: map<ConnId, seq<ServerMsg>>, rooms: map<string, seq<ConnId>>,
                         conns: map<ConnId, Conn>, c: ConnId, now: int)
    requires c in conns
    ensures forall d :: Sent(out, d) <= Sent(LeaveOutbox(out, rooms, conns, c, now), d)
  {
    forall d ensures Sent(out, d) <= Sent(LeaveOutbox(out, rooms, conns, c, now), d) {
      match conns[c].roomId
      case None =>
      case Some(r) =>
        if r in rooms && SetDelete(rooms[r], c) != [] {
          var rest := SetDelete(rooms[r], c);
          FanOutGrows(out, rest, c, conns, Presence(Left, conns[c].clientId, conns[c].nickname, Roster(rest, conns), now), d);
        }
    }
  }

  /** The rooms, sockets and roster after `handleJoin` moves `c` into room
      `r` under the identity `id`, `nick`. */
  function JoinedRooms(rooms: map<string, seq<ConnId>>, conns: map<ConnId, Conn>, c: ConnId, r: string): map<string, seq<ConnId>>
    requires c in conns
  {
    JoinRooms(LeaveRooms(rooms, conns[c].roomId, c), r, c)
  }

  function JoinedConns(conns: map<ConnId, Conn>, c: ConnId, r: string, id: string, nick: string): map<ConnId, Conn>
    requires c in conns
  {
    conns[c := conns[c].(roomId := Some(r), clientId := id, nickname := nick)]
  }

  /** Joining from anywhere keeps rooms and sockets consistent. */
  lemma JoinedConsistent(rooms: map<string, seq<ConnId>>, conns: map<ConnId, Conn>, c: ConnId, r: string, id: string, nick: string)
    requires Consistent(rooms, conns) && c in conns && r != ""
    ensures Consistent(JoinedRooms(rooms, conns, c, r), JoinedConns(conns, c, r, id, nick))
    ensures r in JoinedRooms(rooms, conns, c, r) && c in JoinedRooms(rooms, conns, c, r)[r]
  {
    LeaveKeepsConsistent(rooms, conns, c);
    var conns1 := conns[c := conns[c].(roomId := None)];
    JoinKeepsConsistent(LeaveRooms(rooms, conns[c].roomId, c), conns1, c, r, id, nick);
    assert JoinedConns(conns, c, r, id, nick) == conns1[c := conns1[c].(roomId := Some(r), clientId := id, nickname := nick)];
  }

  lemma JoinedRoomDistinct(rooms: map<string, seq<ConnId>>, conns: map<ConnId, Conn>, c: ConnId, r: string)
    requires RoomsDistinct(rooms) && c in conns
    ensures RoomsDistinct(LeaveRooms(rooms, conns[c].roomId, c))
    ensures Distinct(JoinedRooms(rooms, conns, c, r)[r])
  {
  }

  /** The roster of room `r` after `c` joined it. */
  function JoinedRoster(rooms: map<string, seq<ConnId>>, conns: map<ConnId, Conn>, c: ConnId, r: string, id: string, nick: string): seq<Member>
    requires c in conns
  {
    Roster(JoinedRooms(rooms, conns, c, r)[r], JoinedConns(conns, c, r, id, nick))
  }

  /** After leaving, the socket is in no room; its room survives exactly
      when members are left behind, and every other room is untouched. */
  lemma LeaveRoomsEffect(rooms: map<string, seq<ConnId>>, conns: map<ConnId, Conn>, c: ConnId, r: string)
    requires Consistent(rooms, conns) && c in conns && conns[c].roomId == Some(r)
    ensures var after := LeaveRooms(rooms, conns[c].roomId, c);
      && (forall r2 | r2 in after :: c !in after[r2])
      && (r in after <==> |rooms[r]| > 1)
      && (forall r2 | r2 != r :: r2 in after <==> r2 in rooms)
      && (forall r2 | r2 != r && r2 in rooms :: after[r2] == rooms[r2])
  {
    var after := LeaveRooms(rooms, conns[c].roomId, c);
    forall r2 | r2 in after ensures c !in after[r2] {
      if r2 != r && c in after[r2] {
        OneRoomPerSocket(rooms, conns, r, r2, c);
      }
    }
  }

  /** The roster of the room just joined ends with the joiner, under the
      identity it joined with. */
  lemma JoinerLastInRoster(rooms: map<string, seq<ConnId>>, conns: map<ConnId, Conn>, c: ConnId, r: string, id: string, nick: string)
    requires Consistent(rooms, conns) && c in conns
    ensures var roster := JoinedRoster(rooms, conns, c, r, id, nick);
      roster != [] && roster[|roster| - 1] == Member(id, nick)
  {
    var left := LeaveRooms(rooms, conns[c].roomId, c);
    if conns[c].roomId.Some? {
      LeaveRoomsEffect(rooms, conns, c, conns[c].roomId.value);
    } else {
      assert forall r2 | r2 in rooms :: c !in rooms[r2];
    }
    assert c !in (if r in left then left[r] else []);
  }

  /** `c`, just added to room `r`, is acknowledged with the roster, and the
      rest of the room hears the same roster in a join notice. */
  function AckThenNotice(out: map<ConnId, seq<ServerMsg>>, rooms: map<string, seq<ConnId>>,
                         conns: map<ConnId, Conn>, c: ConnId, r: string, id: string, nick: string, now: int): map<ConnId, seq<ServerMsg>>
    requires r in rooms
  {
    var roster := Roster(rooms[r], conns);
    FanOut(Write(out, c, conns, Ack(r, id, nick, roster, now)), rooms[r], c, conns, Presence(Joined, id, nick, roster, now))
  }

  lemma AckThenNoticeDelivers(out: map<ConnId, seq<ServerMsg>>, rooms: map<string, seq<ConnId>>,
                              conns: map<ConnId, Conn>, c: ConnId, r: string, id: string, nick: string, now: int)
    requires r in rooms && Distinct(rooms[r])
    ensures
      var roster := Roster(rooms[r], conns);
      var res := AckThenNotice(out, rooms, conns, c, r, id, nick, now);
      && Sent(res, c) == Sent(out, c) + (if c in conns && conns[c].open then [Ack(r, id, nick, roster, now)] else [])
      && forall d | d != c ::
           Sent(res, d) == Sent(out, d) + (if d in rooms[r] && d in conns && conns[d].open then [Presence(Joined, id, nick, roster, now)] else [])
  {
    var roster := Roster(rooms[r], conns);
    FanOutDelivers(Write(out, c, conns, Ack(r, id, nick, roster, now)), rooms[r], c, conns, Presence(Joined, id, nick, roster, now));
  }

  /** The outboxes after `handleJoin` moves `c` into room `r`: the leave of
      the previous room, then the acknowledgement and the join notice. */
  function JoinOutbox(out: map<ConnId, seq<ServerMsg>>, rooms: map<string, seq<ConnId>>,
                      conns: map<ConnId, Conn>, c: ConnId, r: string, id: string, nick: string, now: int): map<ConnId, seq<ServerMsg>>
    requires c in conns
  {
    AckThenNotice(LeaveOutbox(out, rooms, conns, c, now), JoinedRooms(rooms, conns, c, r),
                  JoinedConns(conns, c, r, id, nick), c, r, id, nick, now)
  }

  /** What a join writes: the joiner gets only its acknowledgement; every
      other socket gets the leave notice of the joiner's previous room, if
      it stays there, then the join notice, if it shares the new room. */
  lemma JoinOutboxDelivers(out: map<ConnId, seq<ServerMsg>>, rooms: map<string, seq<ConnId>>,
                           conns: map<ConnId, Conn>, c: ConnId, r: string, id: string, nick: string, now: int)
    requires RoomsDistinct(rooms) && c in conns
    ensures
      var roster := JoinedRoster(rooms, conns, c, r, id, nick);
      var res := JoinOutbox(out, rooms, conns, c, r, id, nick, now);
      && Sent(res, c) == Sent(out, c) + (if conns[c].open then [Ack(r, id, nick, roster, now)] else [])
      && forall d | d != c ::
           Sent(res, d) == Sent(out, d) + LeaveNotice(rooms, conns, c, d, now)
                           + (if d in JoinedRooms(rooms, conns, c, r)[r] && d in conns && conns[d].open
                              then [Presence(Joined, id, nick, roster, now)] else [])
  {
    JoinedRoomDistinct(rooms, conns, c, r);
    LeaveOutboxDelivers(out, rooms, conns, c, now);
    var left := LeaveOutbox(out, rooms, conns, c, now);
    AckThenNoticeDelivers(left, JoinedRooms(rooms, conns, c, r), JoinedConns(conns, c, r, id, nick), c, r, id, nick, now);
    forall d | d != c
      ensures Sent(JoinOutbox(out, rooms, conns, c, r, id, nick, now), d)
        == Sent(out, d) + LeaveNotice(rooms, conns, c, d, now)
           + (if d in JoinedRooms(rooms, conns, c, r)[r] && d in conns && conns[d].open
              then [Presence(Joined, id, nick, JoinedRoster(rooms, conns, c, r, id, nick), now)] else [])
    {
      JoinOutboxAt(out, rooms, conns, c, r, id, nick, now, d);
    }
  }

  lemma JoinOutboxAt(out: map<ConnId, seq<ServerMsg>>, rooms: map<string, seq<ConnId>>,
                     conns: map<ConnId, Conn>, c: ConnId, r: string, id: string, nick: string, now: int, d: ConnId)
    requires RoomsDistinct(rooms) && c in conns && d != c
    ensures Sent(JoinOutbox(out, rooms, conns, c, r, id, nick, now), d)
      == Sent(out, d) + LeaveNotice(rooms, conns, c, d, now)
         + (if d in JoinedRooms(rooms, conns, c, r)[r] && d in conns && conns[d].open
            then [Presence(Joined, id, nick, JoinedRoster(rooms, conns, c, r, id, nick), now)] else [])
  {
    JoinedRoomDistinct(rooms, conns, c, r);
    var left := LeaveOutbox(out, rooms, conns, c, now);
    var rooms2 := JoinedRooms(rooms, conns, c, r);
    var conns2 := JoinedConns(conns, c, r, id, nick);
    LeaveOutboxDelivers(out, rooms, conns, c, now);
    AckThenNoticeDelivers(left, rooms2, conns2, c, r, id, nick, now);
    assert d in conns2 <==> d in conns;
    assert d in conns ==> conns2[d] == conns[d];
  }

  class RoomServer {
    /** `rooms`: room id to the member sockets, in joining order. */
    var rooms: map<string, seq<ConnId>>
    /** The properties of every socket the server has seen. */
    var conns: map<ConnId, Conn>
    /** What has been written to each socket, in order (see `Sent`). */
    var outbox: map<ConnId, seq<ServerMsg>>

    ghost predicate Valid()
      reads this
    {
      Consistent(rooms, conns)
    }

    constructor ()
      ensures Valid()
      ensures rooms == map[] && conns == map[] && outbox == map[]
    {
      rooms := map[];
      conns := map[];
      outbox := map[];
    }

    /** `getRoomSnapshot`: the roster of a room, empty for an unknown one. */
    function Snapshot(roomId: string): (r: seq<Member>)
      reads this
      ensures roomId !in rooms ==> r == []
      ensures roomId in rooms ==> |r| == |rooms[roomId]|
      ensures roomId in rooms ==> forall i | 0 <= i < |r| :: r[i] == MemberAt(conns, rooms[roomId][i])
    {
      if roomId in rooms then Roster(rooms[roomId], conns) else []
    }

    /** A new connection: a fresh id, nickname "anonymous", alive, in no room. */
    method Connect(c: ConnId, freshId: string)
      requires Valid() && c !in conns
      modifies this`conns
      ensures Valid()
      ensures conns == old(conns)[c := Conn(None, freshId, "anonymous", true, true, false)]
    {
      conns := conns[c := Conn(None, freshId, "anonymous", true, true, false)];
    }

    /** `ensureRoom`: the room, created empty if missing. */
    method EnsureRoom(roomId: string) returns (room: seq<ConnId>)
      modifies this`rooms
      ensures room == (if roomId in old(rooms) then old(rooms)[roomId] else [])
      ensures rooms == old(rooms)[roomId := room]
    {
      if roomId !in rooms {
        rooms := rooms[roomId := []];
      } else {
        assert rooms == rooms[roomId := rooms[roomId]];
      }
      room := rooms[roomId];
    }

    /** `safeSend`: written only to an open socket. */
    method SafeSend(c: ConnId, msg: ServerMsg)
      requires c in conns
      modifies this`outbox
      ensures outbox == Write(old(outbox), c, conns, msg)
    {
      if conns[c].open {
        outbox := outbox[c := Sent(outbox, c) + [msg]];
      }
    }

    /** `broadcast`: `payload` written, in room order, to every open member
        of the room but `exclude` (see `FanOutDelivers`). */
    method Broadcast(roomId: string, payload: ServerMsg, exclude: ConnId)
      requires MembersKnown(rooms, conns)
      modifies this`outbox
      ensures outbox == FanOut(old(outbox), MembersOf(rooms, roomId), exclude, conns, payload)
    {
      if roomId !in rooms {
        return;
      }
      var room := rooms[roomId];
      var i := 0;
      while i < |room|
        invariant 0 <= i <= |room|
        invariant outbox == FanOut(old(outbox), room[..i], exclude, conns, payload)
      {
        var client := room[i];
        assert room[..i + 1][..i] == room[..i];
        if client != exclude && conns[client].open {
          outbox := outbox[client := Sent(outbox, client) + [payload]];
        }
        i := i + 1;
      }
      assert room[..i] == room;
    }

    /** `removeFromRoom`: the socket leaves its room; an emptied room is
        dropped, otherwise the members left behind get one leave notice. */
    method RemoveFromRoom(c: ConnId, now: int)
      requires Valid() && c in conns
      modifies this`rooms, this`conns, this`outbox
      ensures Valid()
      ensures rooms == LeaveRooms(old(rooms), old(conns[c].roomId), c)
      ensures conns == old(conns)[c := old(conns[c]).(roomId := None)]
      ensures outbox == LeaveOutbox(old(outbox), old(rooms), old(conns), c, now)
    {
      LeaveKeepsConsistent(rooms, conns, c);
      var prior := conns[c].roomId;
      // The socket's room always exists and its id is never empty, so the
      // two early returns of the source for a missing room cannot happen.
      if prior.None? {
        assert conns[c := conns[c].(roomId := None)] == conns;
        return;
      }
      var r := prior.value;
      var rest := SetDelete(rooms[r], c);
      if rest == [] {
        rooms := rooms - {r};
      } else {
        rooms := rooms[r := rest];
        var snapshot := Snapshot(r);
        Broadcast(r, Presence(Left, conns[c].clientId, conns[c].nickname, snapshot, now), c);
      }
      conns := conns[c := conns[c].(roomId := None)];
    }

    /** `handleJoin`. A blank room is refused with `missing_room` and nothing
        else changes. Otherwise the socket leaves its previous room, takes the
        trimmed room, id and nickname and is appended to the room; what it
        and the others hear is `JoinOutbox` (see `JoinOutboxDelivers`). */
    method HandleJoin(c: ConnId, f: Frame, now: int, freshId: string)
      requires Valid() && c in conns
      modifies this`rooms, this`conns, this`outbox
      ensures Valid()
      ensures Trim(f.room) == [] ==>
        && rooms == old(rooms) && conns == old(conns)
        && outbox == Write(old(outbox), c, conns, MissingRoomError)
      ensures Trim(f.room) != [] ==>
        var r := Trim(f.room);
        var id := JoinClientId(f, freshId);
        var nick := JoinNickname(f);
        && rooms == JoinedRooms(old(rooms), old(conns), c, r)
        && conns == JoinedConns(old(conns), c, r, id, nick)
        && outbox == JoinOutbox(old(outbox), old(rooms), old(conns), c, r, id, nick, now)
    {
      var roomId := Trim(f.room);
      var clientId := JoinClientId(f, freshId);
      var nickname := JoinNickname(f);
      if roomId == "" {
        SafeSend(c, MissingRoomError);
        return;
      }
      ghost var conns0 := conns;
      RemoveFromRoom(c, now);
      UpdateTwice(conns0, c, conns0[c].(roomId := None),
                  conns[c].(roomId := Some(roomId), clientId := clientId, nickname := nickname));
      EnterRoom(c, roomId, clientId, nickname, now);
    }

    /** The second half of `handleJoin`, once the socket is in no room: it
        takes its new room and identity, is appended to the room, and is
        acknowledged; the rest of the room gets the join notice. */
    method EnterRoom(c: ConnId, roomId: string, clientId: string, nickname: string, now: int)
      requires Valid() && c in conns && conns[c].roomId.None? && roomId != ""
      modifies this`rooms, this`conns, this`outbox
      ensures Valid()
      ensures rooms == JoinRooms(old(rooms), roomId, c)
      ensures conns == old(conns)[c := old(conns[c]).(roomId := Some(roomId), clientId := clientId, nickname := nickname)]
      ensures outbox == AckThenNotice(old(outbox), rooms, conns, c, roomId, clientId, nickname, now)
    {
      JoinKeepsConsistent(rooms, conns, c, roomId, clientId, nickname);
      ghost var joined := JoinRooms(rooms, roomId, c);
      conns := conns[c := conns[c].(roomId := Some(roomId), clientId := clientId, nickname := nickname)];
      var room := EnsureRoom(roomId);
      UpdateTwice(old(rooms), roomId, room, SetAdd(room, c));
      rooms := rooms[roomId := SetAdd(room, c)];
      var snapshot := Snapshot(roomId);
      SafeSend(c, Ack(roomId, clientId, nickname, snapshot, now));
      Broadcast(roomId, Presence(Joined, clientId, nickname, snapshot, now), c);
    }

    /** `handleEvent`: refused with `not_joined` outside a room, dropped
        without an action, otherwise stamped and written to every other
        open member of the sender's room. */
    method HandleEvent(c: ConnId, f: Frame, now: int)
      requires Valid() && c in conns
      modifies this`outbox
      ensures conns[c].roomId.None? ==> outbox == Write(old(outbox), c, conns, NotJoinedError)
      ensures conns[c].roomId.Some? && f.action == "" ==> outbox == old(outbox)
      ensures conns[c].roomId.Some? && f.action != "" ==>
        var r := conns[c].roomId.value;
        outbox == FanOut(old(outbox), rooms[r], c, conns, Forward(Stamp(f, conns[c], r, now)))
    {
      if conns[c].roomId.None? {
        SafeSend(c, NotJoinedError);
        return;
      }
      if f.action == "" {
        return;
      }
      var r := conns[c].roomId.value;
      Broadcast(r, Forward(Stamp(f, conns[c], r, now)), c);
    }

    /** An event reaches every other open member of the sender's room once,
        and nobody else. */
    lemma EventReachesRoomOnce(before: map<ConnId, seq<ServerMsg>>, c: ConnId, payload: ServerMsg)
      requires Valid() && c in conns && conns[c].roomId.Some?
      ensures forall d :: Sent(FanOut(before, rooms[conns[c].roomId.value], c, conns, payload), d)
                          == Sent(before, d) + (if d != c && d in conns && conns[d].open && conns[d].roomId == conns[c].roomId then [payload] else [])
    {
      var r := conns[c].roomId.value;
      FanOutDelivers(before, rooms[r], c, conns, payload);
      forall d ensures d in rooms[r] <==> d in conns && conns[d].roomId == Some(r) {
      }
    }

    /** `handleMessage`: dispatch on the frame's type. Text that is not JSON
        gets `bad_json`, `ping` a pong, an unknown type `unknown_type`; none
        of these touch rooms or sockets. */
    method HandleMessage(c: ConnId, input: Inbound, now: int, freshId: string)
      requires Valid() && c in conns
      modifies this`rooms, this`conns, this`outbox
      ensures Valid()
      ensures input.Unparsable? ==>
        && rooms == old(rooms) && conns == old(conns)
        && outbox == Write(old(outbox), c, conns, BadJsonError)
      ensures input.Parsed? && input.frame.kind == "ping" ==>
        && rooms == old(rooms) && conns == old(conns)
        && outbox == Write(old(outbox), c, conns, Pong(now))
      ensures input.Parsed? && input.frame.kind !in {"join", "event", "heartbeat", "ping"} ==>
        && rooms == old(rooms) && conns == old(conns)
        && outbox == Write(old(outbox), c, conns, UnknownTypeError(input.frame.kind))
      ensures input.Parsed? && input.frame.kind == "join" && Trim(input.frame.room) == [] ==>
        && rooms == old(rooms) && conns == old(conns)
        && outbox == Write(old(outbox), c, conns, MissingRoomError)
      ensures input.Parsed? && input.frame.kind == "join" && Trim(input.frame.room) != [] ==>
        var f := input.frame;
        var r := Trim(f.room);
        && rooms == JoinedRooms(old(rooms), old(conns), c, r)
        && conns == JoinedConns(old(conns), c, r, JoinClientId(f, freshId), JoinNickname(f))
        && outbox == JoinOutbox(old(outbox), old(rooms), old(conns), c, r, JoinClientId(f, freshId), JoinNickname(f), now)
      ensures input.Parsed? && input.frame.kind in {"event", "heartbeat"} ==>
        && rooms == old(rooms) && conns == old(conns)
        && (conns[c].roomId.None? ==> outbox == Write(old(outbox), c, conns, NotJoinedError))
        && (conns[c].roomId.Some? && input.frame.action == "" ==> outbox == old(outbox))
        && (conns[c].roomId.Some? && input.frame.action != "" ==>
              var r := conns[c].roomId.value;
              outbox == FanOut(old(outbox), rooms[r], c, conns, Forward(Stamp(input.frame, conns[c], r, now))))
    {
      if input.Unparsable? {
        SafeSend(c, BadJsonError);
        return;
      }
      var f := input.frame;
      if f.kind == "join" {
        HandleJoin(c, f, now, freshId);
      } else if f.kind == "event" || f.kind == "heartbeat" {
        HandleEvent(c, f, now);
      } else if f.kind == "ping" {
        SafeSend(c, Pong(now));
      } else {
        SafeSend(c, UnknownTypeError(f.kind));
      }
    }

    /** A pong from the peer marks the socket alive. */
    method ReceivePong(c: ConnId)
      requires Valid() && c in conns
      modifies this`conns
      ensures Valid()
      ensures conns == old(conns)[c := old(conns[c]).(isAlive := true)]
    {
      RelabelKeepsConsistent(rooms, conns, c, conns[c].(isAlive := true));
      conns := conns[c := conns[c].(isAlive := true)];
    }

    /** The socket closed: it leaves its room. */
    method Close(c: ConnId, now: int)
      requires Valid() && c in conns
      modifies this`rooms, this`conns, this`outbox
      ensures Valid()
      ensures rooms == LeaveRooms(old(rooms), old(conns[c].roomId), c)
      ensures conns == old(conns)[c := old(conns[c]).(roomId := None, open := false)]
      ensures outbox == LeaveOutbox(old(outbox), old(rooms), old(conns), c, now)
    {
      RemoveFromRoom(c, now);
      RelabelKeepsConsistent(rooms, conns, c, conns[c].(open := false));
      assert conns[c := conns[c].(open := false)] == old(conns)[c := old(conns[c]).(roomId := None, open := false)];
      conns := conns[c := conns[c].(open := false)];
    }

    /** A socket that missed its pong: out of its room, then terminated. */
    method Evict(c: ConnId, now: int)
      requires Valid() && c in conns
      modifies this`rooms, this`conns, this`outbox
      ensures Valid()
      ensures rooms == LeaveRooms(old(rooms), old(conns[c].roomId), c)
      ensures conns == old(conns)[c := old(conns[c]).(roomId := None, open := false, terminated := true)]
      ensures outbox == LeaveOutbox(old(outbox), old(rooms), old(conns), c, now)
    {
      RemoveFromRoom(c, now);
      RelabelKeepsConsistent(rooms, conns, c, conns[c].(open := false, terminated := true));
      assert conns[c := conns[c].(open := false, terminated := true)]
        == old(conns)[c := old(conns[c]).(roomId := None, open := false, terminated := true)];
      conns := conns[c := conns[c].(open := false, terminated := true)];
    }

    /** A live socket at sweep time: marked not alive and pinged. */
    method MarkAndPing(c: ConnId)
      requires Valid() && c in conns
      modifies this`conns, this`outbox
      ensures Valid()
      ensures conns == old(conns)[c := old(conns[c]).(isAlive := false)]
      ensures outbox == Write(old(outbox), c, conns, Ping)
    {
      RelabelKeepsConsistent(rooms, conns, c, conns[c].(isAlive := false));
      conns := conns[c := conns[c].(isAlive := false)];
      SafeSend(c, Ping);
    }

    /** The liveness sweep run every `HeartbeatIntervalMs`: a socket that has
        not answered the previous ping is evicted, every other one is marked
        not alive and pinged (`SweepConn`); outboxes only grow. `clients` is
        `wss.clients`, the sockets as the WebSocket library lists them. */
    method Sweep(clients: seq<ConnId>, now: int)
      requires Valid() && Distinct(clients) && forall c | c in clients :: c in conns
      modifies this`rooms, this`conns, this`outbox
      ensures Valid()
      ensures SweptUpTo(old(conns), conns, clients)
      ensures Grown(old(outbox), outbox)
      ensures PingedUpTo(old(conns), old(outbox), outbox, clients)
      ensures RelayState(rooms, conns, outbox) == SweepAll(RelayState(old(rooms), old(conns), old(outbox)), clients, now)
    {
      ghost var start := RelayState(rooms, conns, outbox);
      var i := 0;
      while i < |clients|
        invariant 0 <= i <= |clients|
        invariant Valid()
        invariant RelayState(rooms, conns, outbox) == SweepAll(start, clients[..i], now)
      {
        var c := clients[i];
        ghost var pre := RelayState(rooms, conns, outbox);
        if !conns[c].isAlive {
          Evict(c, now);
        } else {
          MarkAndPing(c);
        }
        SweepAllStep(start, clients, i, pre, RelayState(rooms, conns, outbox), now);
        i := i + 1;
      }
      assert clients[..i] == clients;
      SweepAllSweeps(start, clients, now);
    }
  }

  /** The relay's whole state: rooms, sockets and outboxes. */
  datatype RelayState = RelayState(rooms: map<string, seq<ConnId>>, conns: map<ConnId, Conn>,
                                   outbox: map<ConnId, seq<ServerMsg>>)

  /** The sweep's visit to socket `c`: one that missed its pong leaves its
      room (with the leave notice to those who stay) and is terminated; any
      other is marked not alive and sent a ping. */
  function SweepOne(s: RelayState, c: ConnId, now: int): (r: RelayState)
    requires c in s.conns
    ensures r.conns == s.conns[c := SweepConn(s.conns[c])]
    ensures forall d :: Sent(s.outbox, d) <= Sent(r.outbox, d)
    ensures s.conns[c].isAlive ==> r.rooms == s.rooms && forall d :: Sent(r.outbox, d) == Sent(s.outbox, d) + (if d == c && s.conns[c].open then [Ping] else [])
  {
    if !s.conns[c].isAlive then
      LeaveOutboxGrows(s.outbox, s.rooms, s.conns, c, now);
      RelayState(LeaveRooms(s.rooms, s.conns[c].roomId, c), s.conns[c := SweepConn(s.conns[c])],
                 LeaveOutbox(s.outbox, s.rooms, s.conns, c, now))
    else
      var conns := s.conns[c := SweepConn(s.conns[c])];
      RelayState(s.rooms, conns, Write(s.outbox, c, conns, Ping))
  }

  /** The state after the sweep has visited `clients` in order. */
  function SweepAll(s: RelayState, clients: seq<ConnId>, now: int): (r: RelayState)
    requires forall c | c in clients :: c in s.conns
    ensures r.conns.Keys == s.conns.Keys
    decreases |clients|
  {
    if clients == [] then s
    else
      var prev := SweepAll(s, clients[..|clients| - 1], now);
      SweepOne(prev, clients[|clients| - 1], now)
  }

  /** Visiting the next socket extends the fold by one step. */
  lemma SweepAllStep(start: RelayState, clients: seq<ConnId>, i: nat, pre: RelayState, post: RelayState, now: int)
    requires i < |clients| && forall c | c in clients :: c in start.conns
    requires pre == SweepAll(start, clients[..i], now)
    requires clients[i] in pre.conns
    requires !pre.conns[clients[i]].isAlive ==>
      && post.rooms == LeaveRooms(pre.rooms, pre.conns[clients[i]].roomId, clients[i])
      && post.conns == pre.conns[clients[i] := SweepConn(pre.conns[clients[i]])]
      && post.outbox == LeaveOutbox(pre.outbox, pre.rooms, pre.conns, clients[i], now)
    requires pre.conns[clients[i]].isAlive ==>
      && post.rooms == pre.rooms
      && post.conns == pre.conns[clients[i] := SweepConn(pre.conns[clients[i]])]
      && post.outbox == Write(pre.outbox, clients[i], post.conns, Ping)
    ensures post == SweepAll(start, clients[..i + 1], now)
  {
    assert clients[..i + 1][..i] == clients[..i];
  }

  /** The fold's meaning: every visited socket is swept and no other one
      changes, no outbox loses anything, and every visited socket that was
      alive and open has been pinged. */
  lemma {:induction false} SweepAllSweeps(s: RelayState, clients: seq<ConnId>, now: int)
    requires Distinct(clients) && forall c | c in clients :: c in s.conns
    ensures SweptUpTo(s.conns, SweepAll(s, clients, now).conns, clients)
    ensures Grown(s.outbox, SweepAll(s, clients, now).outbox)
    ensures PingedUpTo(s.conns, s.outbox, SweepAll(s, clients, now).outbox, clients)
  {
    if clients == [] {
      forall d ensures Sent(s.outbox, d) <= Sent(s.outbox, d) { }
    } else {
      var n := |clients| - 1;
      DistinctPrefix(clients, n);
      SweepAllSweeps(s, clients[..n], now);
      NotBefore(clients, n);
      SweepLast(s, clients, now);
      assert clients[..n + 1] == clients;
    }
  }

  /** The last visit of the fold, in the form `SweepStep` takes. */
  lemma SweepLast(s: RelayState, clients: seq<ConnId>, now: int)
    requires clients != [] && forall c | c in clients :: c in s.conns
    requires clients[|clients| - 1] !in clients[..|clients| - 1]
    requires SweptUpTo(s.conns, SweepAll(s, clients[..|clients| - 1], now).conns, clients[..|clients| - 1])
    requires Grown(s.outbox, SweepAll(s, clients[..|clients| - 1], now).outbox)
    requires PingedUpTo(s.conns, s.outbox, SweepAll(s, clients[..|clients| - 1], now).outbox, clients[..|clients| - 1])
    ensures SweptUpTo(s.conns, SweepAll(s, clients, now).conns, clients[..|clients|])
    ensures Grown(s.outbox, SweepAll(s, clients, now).outbox)
    ensures PingedUpTo(s.conns, s.outbox, SweepAll(s, clients, now).outbox, clients[..|clients|])
  {
    var n := |clients| - 1;
    var prev := SweepAll(s, clients[..n], now);
    var r := SweepOne(prev, clients[n], now);
    assert r == SweepAll(s, clients, now);
    SweepStep(s.conns, prev.conns, r.conns, s.outbox, prev.outbox, r.outbox, clients, n);
  }

  /** What the sweep does to one socket: one that missed its pong leaves its
      room and is terminated; any other one is marked not alive. */
  function SweepConn(x: Conn): (r: Conn)
    ensures !x.isAlive ==> r.roomId.None? && !r.open && r.terminated
    ensures x.isAlive ==> !r.isAlive && r.open == x.open && r.roomId == x.roomId && r.terminated == x.terminated
    ensures r.clientId == x.clientId && r.nickname == x.nickname
  {
    if !x.isAlive then x.(roomId := None, open := false, terminated := true)
    else x.(isAlive := false)
  }

  /** The sockets of `done` have been swept and no other socket changed. */
  ghost predicate SweptUpTo(conns0: map<ConnId, Conn>, conns: map<ConnId, Conn>, done: seq<ConnId>) {
    && (forall c | c in conns0 :: c in conns && conns[c] == (if c in done then SweepConn(conns0[c]) else conns0[c]))
    && (forall c | c in conns :: c in conns0)
  }

  /** No outbox lost anything. */
  ghost predicate Grown(out0: map<ConnId, seq<ServerMsg>>, out: map<ConnId, seq<ServerMsg>>) {
    forall c :: Sent(out0, c) <= Sent(out, c)
  }

  /** Every socket of `done` that was alive and open has been pinged since. */
  ghost predicate PingedUpTo(conns0: map<ConnId, Conn>, out0: map<ConnId, seq<ServerMsg>>,
                             out: map<ConnId, seq<ServerMsg>>, done: seq<ConnId>) {
    forall c | c in done && c in conns0 && conns0[c].isAlive && conns0[c].open ::
      |Sent(out0, c)| <= |Sent(out, c)| && Ping in Sent(out, c)[|Sent(out0, c)|..]
  }

  lemma DistinctPrefix(s: seq<ConnId>, n: nat)
    requires Distinct(s) && n <= |s|
    ensures Distinct(s[..n])
  {
    forall a, b | 0 <= a < b < n ensures s[..n][a] != s[..n][b] {
      assert s[..n][a] == s[a] && s[..n][b] == s[b];
    }
  }

  /** In a sequence without duplicates, no element occurs before its own
      position. */
  lemma NotBefore(s: seq<ConnId>, i: nat)
    requires Distinct(s) && i < |s|
    ensures s[i] !in s[..i]
  {
    assert forall j | 0 <= j < i :: s[..i][j] != s[i];
  }

  /** One step of the sweep keeps its loop invariant. */
  lemma SweepStep(conns0: map<ConnId, Conn>, conns1: map<ConnId, Conn>, conns2: map<ConnId, Conn>,
                  out0: map<ConnId, seq<ServerMsg>>, out1: map<ConnId, seq<ServerMsg>>, out2: map<ConnId, seq<ServerMsg>>,
                  clients: seq<ConnId>, i: nat)
    requires i < |clients| && clients[i] !in clients[..i] && clients[i] in conns0
    requires SweptUpTo(conns0, conns1, clients[..i])
    requires conns2 == conns1[clients[i] := SweepConn(conns1[clients[i]])]
    requires Grown(out0, out1) && PingedUpTo(conns0, out0, out1, clients[..i])
    requires forall d :: Sent(out1, d) <= Sent(out2, d)
    requires conns1[clients[i]].isAlive && conns1[clients[i]].open ==>
      Sent(out2, clients[i]) == Sent(out1, clients[i]) + [Ping]
    ensures SweptUpTo(conns0, conns2, clients[..i + 1])
    ensures Grown(out0, out2)
    ensures PingedUpTo(conns0, out0, out2, clients[..i + 1])
  {
    var c := clients[i];
    assert clients[..i + 1] == clients[..i] + [c];
    forall d ensures Sent(out0, d) <= Sent(out2, d) {
      assert Sent(out0, d) <= Sent(out1, d) <= Sent(out2, d);
    }
    forall d | d in clients[..i + 1] && d in conns0 && conns0[d].isAlive && conns0[d].open
      ensures |Sent(out0, d)| <= |Sent(out2, d)| && Ping in Sent(out2, d)[|Sent(out0, d)|..]
    {
      if d == c {
        assert Sent(out2, d)[|Sent(out1, d)|] == Ping;
      } else {
        ExtendKeepsSuffix(Sent(out0, d), Sent(out1, d), Sent(out2, d));
      }
    }
  }

  lemma UpdateTwice<K, V>(m: map<K, V>, k: K, a: V, b: V)
    ensures m[k := a][k := b] == m[k := b]
  {
  }

  lemma ExtendKeepsSuffix(a: seq<ServerMsg>, b: seq<ServerMsg>, b2: seq<ServerMsg>)
    requires a <= b && b <= b2
    ensures a <= b2
    ensures forall m | m in b[|a|..] :: m in b2[|a|..]
  {
    forall m | m in b[|a|..] ensures m in b2[|a|..] {
      var k :| 0 <= k < |b| - |a| && b[|a|..][k] == m;
      assert b2[|a|..][k] == m;
    }
  }
}
