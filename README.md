# Bilibili watch-party sync, modelled in Dafny

Two programs keep the players of several browsers on the same Bilibili
video in step:

- **the sync agent** (`bili-sync.user.js`): a user script that watches the
  page's `<video>` element. It announces local play, pause, seek, rate
  changes and periodic heartbeats to a relay. It applies the events of the
  other participants, with a latency estimate, a dead-zone and a
  correction cooldown. A suppression window keeps it from echoing changes
  it made itself.
- **the relay** (`server/index.js`): a WebSocket server that groups sockets
  into rooms. It acknowledges joins with the room roster and tells the
  rest of the room about joins and leaves. It stamps each event with the
  sender's identity and the server clock and forwards it to every other
  open socket of the room. A liveness sweep evicts sockets that stopped
  answering pings.

The project has five modules:

- `Protocol` (`protocol.dfy`) holds the frames both sides exchange.
- `SyncRules` (`sync_rules.dfy`) holds the agent's pure rules as functions:
  - latency and target time;
  - the resync policy;
  - the video id of a page;
  - what one remote event does to the player;
  - the release of suppression timers;
  - the outbound throttle.
- `SyncClient` (`sync_client.dfy`) is the agent as a class `Agent`. Its
  fields are the script's `state` object, and each handler is a method.
  Every method is proved to move the state exactly as the matching
  `SyncRules` function says. The invariant that every counted suppression
  entry has exactly one pending release is kept throughout.
- `RoomSets` (`room_sets.dfy`) holds JavaScript's insertion-ordered `Set`
  on sequences, and `String.prototype.trim`.
- `Relay` (`relay.dfy`) is the relay as a class `RoomServer`, with the
  rooms, the sockets and one outbox per socket. Its invariant
  `Consistent` says three things:
  - each socket is in exactly the room its `roomId` names;
  - rooms are never empty;
  - rooms hold no duplicates.

Clocks are explicit `now` parameters in integer milliseconds, and playback
positions are real seconds. Timers become methods that the environment
calls:
- `FireSuppressionTimers` releases suppression entries;
- `HeartbeatTimerFired` is one tick of the heartbeat interval;
- `Sweep` is the relay's liveness interval.

Calls on the player are recorded as `effects`. Frames written to sockets
are recorded as `sent` (agent) or `outbox` (relay).

## Model

| member | source | states |
|---|---|---|
| SyncRules.LatencyMs | bili-sync.user.js:478-484 | Transit is never negative. With a relay stamp it is the time since that stamp (0 if the stamp lies ahead). Otherwise it is the time since the sender's stamp, clamped to 0..300 ms (0 when the sender's stamp lies ahead). With neither stamp it is 0. |
| SyncRules.ResolveTargetTime | bili-sync.user.js:475-487 | The target is the reported position (0 when absent) plus the transit `LatencyMs` in seconds, floored at 0. Hence it is never negative and never behind the reported position. Without a relay stamp it is at most 0.3 s ahead. With a past relay stamp it is exactly the reported position plus the elapsed seconds. |
| SyncRules.ResyncAccepted | bili-sync.user.js:465-472 | An accepted correction is outside the 1500 ms cooldown with a gap above the smallest dead-zone (0.40 s). Outside the cooldown, a gap above the largest dead-zone (0.90 s) is always accepted. |
| SyncRules.Corrected | bili-sync.user.js:465-472 | A seek to the given target is recorded iff the policy accepts, and then the cooldown restarts at `now`. On refusal the control state is unchanged. The heartbeat timer and the suppression state never change. |
| SyncRules.CooldownBlocksSecondCorrection | bili-sync.user.js:465-472 | Once a correction is accepted at t1, no correction of any kind is accepted before t1 + 1500 ms. |
| SyncRules.SegmentAt | bili-sync.user.js:412 | The `[^/]+` capture is the longest slash-free prefix; it ends at a `/` or at the end. |
| SyncRules.FindMatch | bili-sync.user.js:412 | Returns the leftmost position at or after `from` where the pattern matches; no earlier position matches. |
| SyncRules.Capture | bili-sync.user.js:411-415 | Capture fails exactly when the pattern matches nowhere. A capture is the non-empty, slash-free segment right after the leftmost match of the prefix. |
| SyncRules.VideoIdOf | bili-sync.user.js:410-417 | If `/video/` matches, the id is its capture. Otherwise, if `/bangumi/play/` matches, it is that capture. Otherwise it is the whole path. |
| SyncRules.SegmentOfIdThenRest | bili-sync.user.js:412 | A slash-free id followed by nothing or by `/...` captures exactly the id. |
| SyncRules.WatchPageVideoId | bili-sync.user.js:410-417 | On `/video/<id>[/...]` the agent's video id is `<id>`. |
| SyncRules.BangumiPageVideoId | bili-sync.user.js:410-417 | On `/bangumi/play/<id>[/...]` without `/video/` anywhere, the video id is `<id>`. |
| SyncRules.RatePrelude | bili-sync.user.js:499-501 | The rate is aligned first iff the sender's rate is positive and differs from the local one by more than 0.001. The aligned rate is the sender's. |
| SyncRules.ActOn | bili-sync.user.js:502-541 | The per-action decision table never touches the suppression counter or its release deadlines. |
| SyncRules.HeartbeatAct | bili-sync.user.js:523-538 | A heartbeat from a playing peer seeks to the target iff the heartbeat policy accepts the gap: with rewinding on, the gap in either direction; with it off, only a positive lag of the local player. It then plays with the heartbeat timer set, and the cooldown restarts iff it seeked. One from a paused peer only pauses a playing local player, leaving the timer and the cooldown. Suppression is untouched. |
| SyncRules.ApplyRemote | bili-sync.user.js:489-544 | An event for another video changes nothing. One for this video adds exactly one suppression entry, released at `now + 900`. |
| SyncRules.SuppressedAct | bili-sync.user.js:453-462 | `withSuppression` around an action adds exactly one suppression entry and schedules exactly its release 900 ms later. |
| SyncRules.ForeignVideoIgnored | bili-sync.user.js:490-491 | An event naming another video leaves the whole control state unchanged. |
| SyncRules.PauseSeeksToReportedTime | bili-sync.user.js:509-514 | A remote pause aligns the rate, then seeks iff the policy accepts the gap to the latency-adjusted target. The seek goes to the reported position when there is one, else to the target. It then pauses and stops the heartbeat timer; the cooldown restarts iff it seeked. |
| SyncRules.PlaySeeksToTarget | bili-sync.user.js:503-508 | A remote play aligns the rate, seeks to the latency-adjusted target iff the policy accepts, then plays and sets the heartbeat timer. The cooldown restarts iff it seeked. |
| SyncRules.SeekFollowsTarget | bili-sync.user.js:515-518 | A remote seek aligns the rate and seeks to the target iff the seek policy accepts. The heartbeat timer is left as it was. |
| SyncRules.RateChangeAppliesRate | bili-sync.user.js:519-522 | A remote rate change aligns the rate and then applies the sender's rate, or 1 when it is 0. Timer and cooldown are untouched. |
| SyncRules.OtherActionOnlyAlignsRate | bili-sync.user.js:498-541 | An unknown action only aligns the rate, but still takes one suppression entry. |
| SyncRules.PlayingHeartbeatPullsAlong | bili-sync.user.js:524-533 | A remote heartbeat from a playing peer aligns the rate, seeks to the compensated target iff accepted (either direction when rewinding, only forward otherwise), then plays with the heartbeat timer set; the cooldown restarts iff it seeked. |
| SyncRules.PausedHeartbeatNeverSeeks | bili-sync.user.js:535-537 | A heartbeat from a paused peer never seeks, never restarts the cooldown, never changes the heartbeat timer. It pauses the local player only if that is playing. |
| SyncRules.ForwardOnlyHeartbeatNeverRewinds | bili-sync.user.js:527-531 | In forward-only mode every seek a heartbeat causes moves strictly ahead of the local position. |
| SyncRules.HeartbeatModesOnLocalAhead | bili-sync.user.js:524-534 | With the local player ahead by more than the heartbeat dead-zone and outside the cooldown, the rewinding mode seeks back to the target and plays. The forward-only mode only plays. |
| SyncRules.CorrectedIsSeekStep | bili-sync.user.js:465-472 | One policy consultation adds at most one seek. A seek happens only outside the cooldown, and then the cooldown restarts at `now`. Without a seek the cooldown clock is unchanged. |
| SyncRules.ActOnIsSeekStep | bili-sync.user.js:502-541 | Each action adds at most one seek, only when the cooldown allows it, and keeps the earlier effects as a prefix. |
| SyncRules.ApplyRemoteIsSeekStep | bili-sync.user.js:489-544 | A remote event adds at most one seek under the cooldown rule. Either it is ignored entirely, or it adds exactly one suppression entry with its release. |
| SyncRules.ApplyAll | bili-sync.user.js:654-658 | A queue of n events adds between 0 and n suppression entries, each with exactly one pending release. |
| SyncRules.ApplyAllSnoc | bili-sync.user.js:654-658 | Applying a queue one more message long is applying the shorter queue, then that message (arrival order). |
| SyncRules.BurstCorrectsAtMostOnce | bili-sync.user.js:654-658 | A flushed queue applied at one instant seeks at most once. Inside the cooldown it does not seek at all. |
| SyncRules.ApplyAllKeepsSuppressionBalanced | bili-sync.user.js:453-462 | Applying any queue keeps counter = number of pending releases. Deadlines and effects only grow, and every new deadline is `now + 900`. |
| SyncRules.Pending | bili-sync.user.js:458-460 | The releases still pending after the clock reaches `now` are exactly those due later, with their multiplicities. None remain iff all were due. |
| SyncRules.CollectState | bili-sync.user.js:399-407 | The announced state carries this page's video id, URL and title, the local position, paused flag and duration, and the local rate, or 1 when that is 0. |
| SyncRules.SendStep | bili-sync.user.js:367-384 | At most one frame is appended and earlier frames are kept. One is appended iff socket and video are ready and the action is not throttled. It carries the action, state and send time. Only the clock of the sent kind moves, to `now`. |
| SyncRules.HeartbeatAfter | bili-sync.user.js:423-434 | Local play starts the heartbeat timer, pause stops it, other events leave it. |
| SyncRules.Throttled | bili-sync.user.js:370-371 | Only seeks and heartbeats are throttled: a seek exactly when it comes within 100 ms of the last one sent, a heartbeat exactly when within 2000 ms of the last one sent. |
| SyncRules.OutboundAction | bili-sync.user.js:433-448 | Play, pause, seeked and rate change are announced as `play`, `pause`, `seek`, `ratechange`. A time update is a `heartbeat` while playing, and nothing is announced iff it is a time update of a paused video. |
| SyncRules.SeekBurstSendsOnce | bili-sync.user.js:370 | Two seeks less than 100 ms apart put at most one frame on the wire. |
| SyncRules.HeartbeatBurstSendsOnce | bili-sync.user.js:371 | Two heartbeats less than 2000 ms apart put at most one frame on the wire. |
| SyncClient.Agent.constructor | bili-sync.user.js:35-48 | Fresh agent: not connected, no video, no suppression, zero clocks, empty queue. |
| SyncClient.Agent.ShouldResync | bili-sync.user.js:465-472 | Refused inside the cooldown. Outside it, accepted iff the gap strictly exceeds the kind's dead-zone. The cooldown clock moves to `now` exactly on acceptance. |
| SyncClient.Agent.EnterSuppression | bili-sync.user.js:453-454 | Entering `withSuppression` increments the counter. |
| SyncClient.Agent.ScheduleRelease | bili-sync.user.js:457-461 | Leaving `withSuppression` schedules one release at `now + 900`. |
| SyncClient.Agent.FireSuppressionTimers | bili-sync.user.js:458-460 | Due releases run their saturating decrement. The invariant is kept, and the counter never grows. It is zero afterwards iff every scheduled release was due. |
| SyncClient.Agent.SeekTo | bili-sync.user.js:583-600 | One seek call to the given time is recorded. |
| SyncClient.Agent.PlayVideo | bili-sync.user.js:546-564 | One play call is recorded. |
| SyncClient.Agent.PauseVideo | bili-sync.user.js:566-581 | One pause call is recorded. |
| SyncClient.Agent.SetPlaybackRate | bili-sync.user.js:602-607 | A positive rate is applied; a non-positive one is ignored. |
| SyncClient.Agent.EnableHeartbeat | bili-sync.user.js:609-616 | The heartbeat timer is set afterwards (idempotent). |
| SyncClient.Agent.DisableHeartbeat | bili-sync.user.js:618-623 | The heartbeat timer is cleared afterwards. |
| SyncClient.Agent.SendRaw | bili-sync.user.js:358-365 | A frame is written iff the socket is open. |
| SyncClient.Agent.SendEvent | bili-sync.user.js:367-384 | The outbound state moves exactly as `SendStep` says. |
| SyncClient.Agent.HandleVideoEvent | bili-sync.user.js:419-451 | Without an open socket and a video nothing happens. While suppressed, only the heartbeat timer follows play/pause and nothing is sent (no echo). Otherwise the timer follows and the event is announced through `SendStep`. |
| SyncClient.Agent.HeartbeatTimerFired | bili-sync.user.js:611-615 | A tick offers a heartbeat only while the timer is set, the socket open and the video playing. |
| SyncClient.Agent.HandleSocketOpen | bili-sync.user.js:295-304 | The first frame on a fresh socket is the join with room, persisted id and nickname. |
| SyncClient.Agent.Disconnect | bili-sync.user.js:279-293 | Afterwards the socket is gone and the heartbeat timer is cleared. |
| SyncClient.Agent.ApplyRemoteAction | bili-sync.user.js:489-544 | With a video attached the control state moves as `ApplyRemote`; without one it is unchanged. The suppression invariant is kept. |
| SyncClient.Agent.WithSuppression | bili-sync.user.js:498-542 | Entry, rate alignment, action and release scheduling together move the control state exactly as `SuppressedAct`. |
| SyncClient.Agent.Act | bili-sync.user.js:502-541 | The action switch moves the control state exactly as `ActOn`. |
| SyncClient.Agent.ActOnHeartbeat | bili-sync.user.js:523-538 | The heartbeat case moves the control state exactly as `HeartbeatAct`. |
| SyncClient.Agent.ReceiveRelayed | bili-sync.user.js:328-336 | Own echoes are dropped. Others are applied with a video attached, else queued at the end; nothing else changes. |
| SyncClient.Agent.HandleSocketMessage | bili-sync.user.js:306-347 | An acknowledgement triggers one heartbeat offer. Relayed events go through `ReceiveRelayed`. Presence, error and pong change nothing. |
| SyncClient.Agent.FlushPendingMessages | bili-sync.user.js:654-658 | With a video attached the queue is emptied and its messages applied in arrival order (`ApplyAll`); without one nothing changes. |
| SyncClient.Agent.AttachVideo | bili-sync.user.js:635-644 | A new element replaces the old one and the queue is flushed into it. Nothing or the same element again changes nothing. |
| SyncClient.Agent.DetachVideo | bili-sync.user.js:646-652 | No element is attached afterwards. |
| RoomSets.SetAdd | server/index.js:97 | `Set.add`: membership gains the element, no duplicates appear, and a new element goes at the end. |
| RoomSets.SetDelete | server/index.js:66 | `Set.delete`: membership loses exactly the element and the size drops by one if it was there. |
| RoomSets.SetDeleteAt | server/index.js:66 | Deleting an element of a duplicate-free sequence cuts it out at its position; the others keep their order. |
| RoomSets.Trim | server/index.js:85-87 | `trim()` is empty iff the string is all blank; otherwise it starts and ends with a non-blank character. |
| RoomSets.TrimIsSlice | server/index.js:85-87 | `trim()` is the slice of the input preceded only by blanks and followed only by blanks. |
| Relay.Roster | server/index.js:33-40 | The roster has one entry per member socket, in joining order, with its id and nickname. |
| Relay.RosterFrame | server/index.js:33-40 | The roster depends only on the members' identities. |
| Relay.JoinClientId | server/index.js:86 | A join keeps the trimmed claimed id, or a fresh one when that is blank. |
| Relay.JoinNickname | server/index.js:87 | The nickname is the trimmed claim, or "anonymous" exactly when that is blank. |
| Relay.Stamp | server/index.js:132-141 | The forwarded event takes identity and room from the socket. Its kind is heartbeat iff the frame's is, and it keeps action, state and `sentAt` (or `now` when absent). The server time is `now`. |
| Relay.OneRoomPerSocket | server/index.js:63-124 | Under the invariant a socket is in at most one room. |
| Relay.LeaveKeepsConsistent | server/index.js:63-82 | Leaving a room keeps rooms and sockets consistent. |
| Relay.JoinKeepsConsistent | server/index.js:94-101 | Entering a room keeps them consistent and appends the joiner to an existing room. |
| Relay.RelabelKeepsConsistent | server/index.js:204-206 | Changing a socket's flags without moving it keeps them consistent. |
| Relay.LeaveRoomsShape | server/index.js:63-82 | Leaving room `prior` removes no other room and changes no other room. Every other member of `prior` stays; if it survives it is non-empty and no longer holds the leaver. |
| Relay.JoinRoomsShape | server/index.js:96-101 | Entering a room creates it if missing and changes no other room. Its members are the old ones plus the joiner. |
| Relay.LeaveRoomsEffect | server/index.js:63-82 | After leaving, the socket is in no room. Its room survives iff others remain, and every other room is untouched. |
| Relay.JoinedConsistent | server/index.js:84-124 | A full join keeps the invariant, and the joiner ends up in the named room. |
| Relay.JoinerLastInRoster | server/index.js:94-103 | The roster of a join ends with the joiner's own entry. |
| Relay.Write | server/index.js:42-49 | `safeSend` writes the message only to that socket and only if it is open. |
| Relay.FanOutDelivers | server/index.js:51-61 | `broadcast` writes exactly one copy to each open member other than the excluded one, and nothing to anyone else. |
| Relay.FanOutGrows | server/index.js:51-61 | `broadcast` only appends: nothing already written to any socket is lost. |
| Relay.LeaveOutboxDelivers | server/index.js:63-82 | Leaving writes one leave notice with the remaining roster to each open member left behind. Nothing goes to anyone else, the leaver included. |
| Relay.AckThenNoticeDelivers | server/index.js:103-121 | The joiner gets the acknowledgement with the roster. Every other open member of the room gets one join notice with the same roster. |
| Relay.JoinOutboxDelivers | server/index.js:84-124 | A full join sends the joiner only the acknowledgement. Others get the leave notice of the old room, then the join notice of the new one. |
| Relay.RoomServer.constructor | server/index.js:17 | The relay starts with no rooms, sockets or output. |
| Relay.RoomServer.Snapshot | server/index.js:33-40 | A missing room has an empty roster; otherwise one entry per member in order. |
| Relay.RoomServer.Connect | server/index.js:199-202 | A new socket gets a fresh id, nickname "anonymous", is alive, open and in no room. |
| Relay.RoomServer.EnsureRoom | server/index.js:24-31 | The room's members are returned, and a missing room is created empty. |
| Relay.RoomServer.SafeSend | server/index.js:42-49 | The outbox moves exactly as `Write`. |
| Relay.RoomServer.Broadcast | server/index.js:51-61 | The outbox moves exactly as `FanOut` over the room's members. |
| Relay.RoomServer.RemoveFromRoom | server/index.js:63-82 | The socket leaves its room (the room is dropped if empty) and its room id is cleared. The leave notices are written, and the invariant is kept. |
| Relay.RoomServer.HandleJoin | server/index.js:84-124 | A blank room gets `missing_room` and nothing else changes. Otherwise the socket leaves its old room and enters the trimmed room under the chosen id and nickname, with the notices of `JoinOutbox`. The invariant is kept. |
| Relay.RoomServer.EnterRoom | server/index.js:94-121 | A socket in no room is appended to the room (created if missing), takes its identity, and is acknowledged; the rest of the room is notified. |
| Relay.RoomServer.HandleEvent | server/index.js:126-145 | Outside a room the sender gets `not_joined`. Without an action nothing is sent. Otherwise the stamped event fans out to the rest of the room. |
| Relay.RoomServer.EventReachesRoomOnce | server/index.js:126-145 | A forwarded event reaches every other open socket of the sender's room exactly once, and no other socket. |
| Relay.RoomServer.HandleMessage | server/index.js:147-170 | Not JSON gets `bad_json`, `ping` a pong, an unknown type `unknown_type`; none of these change rooms or sockets. `join` and `event`/`heartbeat` act as `HandleJoin` and `HandleEvent`. The invariant is kept. |
| Relay.RoomServer.ReceivePong | server/index.js:204-206 | A pong marks the socket alive and changes nothing else. |
| Relay.RoomServer.Close | server/index.js:212-214 | A closed socket leaves its room with leave notices and is no longer open. |
| Relay.RoomServer.Evict | server/index.js:223-227 | A socket that missed its pong leaves its room with leave notices and is terminated. |
| Relay.RoomServer.MarkAndPing | server/index.js:228-229 | A live socket is marked not alive and pinged. |
| Relay.RoomServer.Sweep | server/index.js:221-231 | The rooms, sockets and outboxes end exactly as `SweepAll` over the listed sockets in order. Every listed socket is swept (`SweepConn`) and no other changes. Outboxes only grow, every alive open socket received a ping, and the invariant is kept. |
| Relay.SweepOne | server/index.js:222-230 | One visit sweeps that socket's flags and only appends to outboxes. A live socket keeps its room and receives exactly one ping if open, and no other socket receives anything. |
| Relay.SweepAllSweeps | server/index.js:221-231 | After the fold over distinct sockets every visited socket is swept and no other one changes. No outbox loses anything, and every visited socket that was alive and open has a ping among its new frames. |
| Relay.SweepConn | server/index.js:222-230 | A socket that missed its pong ends out of any room, closed and terminated. Any other one is only marked not alive. Identity is kept. |

## Left out

- The user interface, the configuration panel and `localStorage`: the
  persisted client id is the `clientId` constant of `Agent`.
- Locating the player and the mutation observer (`findVideo`,
  `locatePlayer`, `setupMutationObserver`). `AttachVideo` receives the
  element, an abstract identity.
- Opening the socket in `connect` (URL normalisation, `new WebSocket`).
  The model starts at `HandleSocketOpen`. `handleSocketClose` is
  `Disconnect`.
- Invalid JSON arriving at the agent only writes a log line. The agent's
  inbound messages are already-parsed `ServerMsg` values.
- The player's own behaviour. `play()`, `pause()`, seeking and rate
  changes are recorded as effects. The local position, paused flag and
  rate are an input (`VideoState`) to each call and are not fed back from
  the effects. The fallback between the Bilibili player API and the
  `<video>` element is not modelled.
- Floating point: positions and rates are exact reals, and
  `Number.isFinite` checks are left out, since every modelled value is
  finite. JavaScript's `String()` and `Number()` coercion of fields of the
  wrong type is left out: a missing field is its empty value.
- Real timers and the clock: every time is a `now` parameter. The
  `setTimeout` of `withSuppression` is a deadline list that
  `FireSuppressionTimers` releases. `setInterval` ticks are calls to
  `HeartbeatTimerFired` and `Sweep`.
- `makeId` randomness: the fresh id is a parameter (`freshId`).
- The relay's HTTP/TLS server, the process start-up, logging, and
  `clearInterval` when the server closes.
- Sweep: `wss.clients` is supplied by the WebSocket library and is the
  `clients` parameter, required to list known sockets without duplicates.
  The WebSocket ping is an entry `Ping` written to the socket's outbox.
- Relay.RoomServer.Broadcast: `client.send` is treated as never throwing,
  and the serialised payload is the message value itself.
- Relay.RoomServer.RemoveFromRoom: the source returns early, keeping the
  room id, when the id names no room. That cannot happen under
  `Consistent`, which every method requires. The model clears the id in
  that case as well.
- Relay.RoomServer.HandleMessage: text that parses as JSON but is not an
  object (`null`, a number) makes `message.type` throw outside the
  `try` that guards parsing (server/index.js:149-156). The model's
  inbound frames are either unparsable or a parsed object, so this input
  and its effect on the relay process are not modelled.
- SyncRules.CollectState: the branch for a page without a video
  (bili-sync.user.js:387-398) is not modelled. Its only caller, `sendEvent`,
  has already returned when no video is attached. `Number(x || 0)` turning
  a missing or NaN duration into 0 is left out with the rest of floating
  point.
- Relay.MemberAt: an unknown socket reads as an empty roster entry. This
  never happens under `Consistent`, where every member is a known socket.
- SyncClient.Agent.Disconnect: a disconnect keeps the suppression,
  cooldown and queue state. Only the socket and the heartbeat timer are
  dropped.
- SyncClient.Agent.HandleSocketMessage: the display updates for `ack` and
  `presence` (status text, roster list, log) are not modelled.
