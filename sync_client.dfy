/** The browser sync agent of bili-sync.user.js as an object: the shared
    `state` record becomes the fields of `Agent`, and each handler becomes a
    method that updates them. Timers become explicit calls: the release of
    suppression entries (`FireSuppressionTimers`) and the heartbeat interval
    (`HeartbeatTimerFired`); the clock is the `now` parameter. Calls on the
    player are appended to `effects`, frames written to the socket to
    `sent`. */
module SyncClient {
  import opened Protocol
  import opened SyncRules

  class Agent {
    /** The persisted participant id. */
    const clientId: string
    /** Whether heartbeats may also pull a local player that is ahead back
        (the shipped configuration sets this). */
    const rewindOnHeartbeat: bool

    /** The socket exists and is OPEN. */
    var connected: bool
    /** Identity of the attached media element, if any. */
    var video: Option<nat>
    var suppressCount: nat
    /** One release deadline per pending suppression timer, in scheduling order. */
    var suppressDeadlines: seq<int>
    var lastCorrectionAt: int
    var lastSeekSentAt: int
    var lastHeartbeatSentAt: int
    /** The heartbeat interval timer is set. */
    var heartbeatOn: bool
    var pendingMessages: seq<Relayed>
    var effects: seq<Effect>
    var sent: seq<Frame>

    /** Every suppression entry still counted has exactly one pending
        release, so the counter is the number of pending timers. */
    ghost predicate Valid()
      reads this
    {
      suppressCount == |suppressDeadlines|
    }

    function ControlState(): Control
      reads this
    {
      Control(lastCorrectionAt, heartbeatOn, suppressCount, suppressDeadlines, effects)
    }

    function OutboundState(): Outbound
      reads this
    {
      Outbound(lastSeekSentAt, lastHeartbeatSentAt, sent)
    }

    constructor (clientId: string, rewindOnHeartbeat: bool)
      ensures Valid()
      ensures this.clientId == clientId && this.rewindOnHeartbeat == rewindOnHeartbeat
      ensures !connected && video.None? && !heartbeatOn
      ensures suppressCount == 0 && suppressDeadlines == []
      ensures lastCorrectionAt == 0 && lastSeekSentAt == 0 && lastHeartbeatSentAt == 0
      ensures pendingMessages == [] && effects == [] && sent == []
    {
      this.clientId := clientId;
      this.rewindOnHeartbeat := rewindOnHeartbeat;
      connected := false;
      video := None;
      suppressCount := 0;
      suppressDeadlines := [];
      lastCorrectionAt := 0;
      lastSeekSentAt := 0;
      lastHeartbeatSentAt := 0;
      heartbeatOn := false;
      pendingMessages := [];
      effects := [];
      sent := [];
    }

    // -------------------------------------------------------------------
    // Correction policy and suppression gate
    // -------------------------------------------------------------------

    /** `shouldResync`: refuse inside the cooldown or inside the dead-zone;
        otherwise accept and restart the cooldown. */
    method ShouldResync(kind: Kind, diff: real, now: int) returns (ok: bool)
      modifies this`lastCorrectionAt
      ensures ok == ResyncAccepted(kind, diff, now, old(lastCorrectionAt))
      ensures now - old(lastCorrectionAt) < CooldownMs ==> !ok
      ensures now - old(lastCorrectionAt) >= CooldownMs ==> (ok <==> diff > DeadZone(kind))
      ensures lastCorrectionAt == if ok then now else old(lastCorrectionAt)
    {
      if now - lastCorrectionAt < CooldownMs {
        return false;
      }
      var limit := DeadZone(kind);
      if diff <= limit {
        return false;
      }
      lastCorrectionAt := now;
      return true;
    }

    /** Entry into `withSuppression`: the counter goes up before the wrapped
        block runs. */
    method EnterSuppression()
      modifies this`suppressCount
      ensures suppressCount == old(suppressCount) + 1
    {
      suppressCount := suppressCount + 1;
    }

    /** Exit from `withSuppression`: the entry's own release is scheduled
        SuppressMs after it. */
    method ScheduleRelease(now: int)
      modifies this`suppressDeadlines
      ensures suppressDeadlines == old(suppressDeadlines) + [now + SuppressMs]
    {
      suppressDeadlines := suppressDeadlines + [now + SuppressMs];
    }

    /** The clock reaches `now`: every release timer due by then runs its
        saturating decrement. The counter is zero afterwards exactly when no
        deadline lies beyond `now`. */
    method FireSuppressionTimers(now: int)
      requires Valid()
      modifies this`suppressCount, this`suppressDeadlines
      ensures Valid()
      ensures suppressDeadlines == Pending(old(suppressDeadlines), now)
      ensures suppressCount == 0 <==> forall i | 0 <= i < |old(suppressDeadlines)| :: old(suppressDeadlines)[i] <= now
      ensures suppressCount <= old(suppressCount)
    {
      var timers := suppressDeadlines;
      var kept: seq<int> := [];
      var i := 0;
      while i < |timers|
        invariant 0 <= i <= |timers|
        invariant kept == Pending(timers[..i], now)
        invariant suppressCount == |kept| + (|timers| - i)
      {
        PendingSnoc(timers, i, now);
        if timers[i] <= now {
          suppressCount := SaturatingDecrement(suppressCount);
        } else {
          kept := kept + [timers[i]];
        }
        i := i + 1;
      }
      assert timers[..i] == timers;
      suppressDeadlines := kept;
    }

    // -------------------------------------------------------------------
    // Player calls
    // -------------------------------------------------------------------

    method SeekTo(time: real)
      modifies this`effects
      ensures effects == old(effects) + [Effect.SeekTo(time)]
    {
      effects := effects + [Effect.SeekTo(time)];
    }

    method PlayVideo()
      modifies this`effects
      ensures effects == old(effects) + [Effect.PlayVideo]
    {
      effects := effects + [Effect.PlayVideo];
    }

    method PauseVideo()
      modifies this`effects
      ensures effects == old(effects) + [Effect.PauseVideo]
    {
      effects := effects + [Effect.PauseVideo];
    }

    /** A non-positive rate is not applied. */
    method SetPlaybackRate(rate: real)
      modifies this`effects
      ensures effects == old(effects) + RateEffects(rate)
    {
      if rate <= 0.0 {
        return;
      }
      effects := effects + [Effect.SetPlaybackRate(rate)];
    }

    /** Starting the heartbeat timer is idempotent. */
    method EnableHeartbeat()
      modifies this`heartbeatOn
      ensures heartbeatOn
    {
      if heartbeatOn {
        return;
      }
      heartbeatOn := true;
    }

    method DisableHeartbeat()
      modifies this`heartbeatOn
      ensures !heartbeatOn
    {
      if heartbeatOn {
        heartbeatOn := false;
      }
    }

    // -------------------------------------------------------------------
    // Outbound
    // -------------------------------------------------------------------

    /** `sendRaw`: a frame is written only to an open socket. */
    method SendRaw(f: Frame)
      modifies this`sent
      ensures sent == old(sent) + (if connected then [f] else [])
    {
      if !connected {
        return;
      }
      sent := sent + [f];
    }

    /** `sendEvent`: see `SendStep`. */
    method SendEvent(action: string, now: int, page: Page, v: VideoState)
      modifies this`lastSeekSentAt, this`lastHeartbeatSentAt, this`sent
      ensures OutboundState() == SendStep(old(OutboundState()), connected && video.Some?, action, CollectState(page, v), now)
    {
      if !connected || video.None? {
        return;
      }
      if action == "seek" && now - lastSeekSentAt < SeekSendGapMs {
        return;
      }
      if action == "heartbeat" && now - lastHeartbeatSentAt < HeartbeatMs / 2 {
        return;
      }
      var payload := EventFrame(action, CollectState(page, v), now);
      if action == "seek" {
        lastSeekSentAt := now;
      }
      if action == "heartbeat" {
        lastHeartbeatSentAt := now;
      }
      SendRaw(payload);
    }

    /** `handleVideoEvent`: nothing without an open socket and a video;
        while suppressed only the heartbeat timer follows play/pause and
        nothing is sent; otherwise the timer follows and the event is
        announced. */
    method HandleVideoEvent(ev: LocalEvent, now: int, page: Page, v: VideoState)
      modifies this`heartbeatOn, this`lastSeekSentAt, this`lastHeartbeatSentAt, this`sent
      ensures !connected || video.None? ==> heartbeatOn == old(heartbeatOn) && OutboundState() == old(OutboundState())
      ensures connected && video.Some? ==> heartbeatOn == HeartbeatAfter(ev, old(heartbeatOn))
      ensures connected && video.Some? && suppressCount > 0 ==> OutboundState() == old(OutboundState())
      ensures connected && video.Some? && suppressCount == 0 ==>
                OutboundState() == match OutboundAction(ev, v.paused)
                                   case None => old(OutboundState())
                                   case Some(a) => SendStep(old(OutboundState()), true, a, CollectState(page, v), now)
    {
      if !connected {
        return;
      }
      if video.None? {
        return;
      }
      if suppressCount > 0 {
        if ev == PlayEvent {
          EnableHeartbeat();
        }
        if ev == PauseEvent {
          DisableHeartbeat();
        }
        return;
      }
      match ev {
        case PlayEvent =>
          EnableHeartbeat();
          SendEvent("play", now, page, v);
        case PauseEvent =>
          DisableHeartbeat();
          SendEvent("pause", now, page, v);
        case SeekedEvent =>
          SendEvent("seek", now, page, v);
        case RateChangeEvent =>
          SendEvent("ratechange", now, page, v);
        case TimeUpdateEvent =>
          if !v.paused {
            SendEvent("heartbeat", now, page, v);
          }
      }
    }

    /** One tick of the heartbeat interval: a heartbeat is offered only while
        the timer is set, the socket open and the video playing. */
    method HeartbeatTimerFired(now: int, page: Page, v: VideoState)
      modifies this`lastSeekSentAt, this`lastHeartbeatSentAt, this`sent
      ensures OutboundState() == if heartbeatOn && connected && video.Some? && !v.paused
                                 then SendStep(old(OutboundState()), true, "heartbeat", CollectState(page, v), now)
                                 else old(OutboundState())
    {
      if !heartbeatOn {
        return;
      }
      if !connected {
        return;
      }
      if video.None? || v.paused {
        return;
      }
      SendEvent("heartbeat", now, page, v);
    }

    /** `handleSocketOpen`: the socket is now open and the join request goes
        out first. */
    method HandleSocketOpen(room: string, nickname: string)
      modifies this`connected, this`sent
      ensures connected
      ensures sent == old(sent) + [Frame("join", room, clientId, nickname, "", EmptyState, None)]
    {
      connected := true;
      SendRaw(Frame("join", room, clientId, nickname, "", EmptyState, None));
    }

    /** `disconnect`, state parts: the socket is gone and the heartbeat timer
        stops. Suppression, cooldown and queued messages are kept. */
    method Disconnect()
      modifies this`connected, this`heartbeatOn
      ensures !connected && !heartbeatOn
    {
      connected := false;
      DisableHeartbeat();
    }

    // -------------------------------------------------------------------
    // Inbound
    // -------------------------------------------------------------------

    /** `applyRemoteAction`: see `ApplyRemote`. */
    method ApplyRemoteAction(m: Relayed, now: int, page: Page, v: VideoState)
      requires Valid()
      modifies this`suppressCount, this`suppressDeadlines, this`lastCorrectionAt, this`heartbeatOn, this`effects
      ensures Valid()
      ensures ControlState() == if video.Some? then ApplyRemote(old(ControlState()), m, page.path, v, now, rewindOnHeartbeat)
                                else old(ControlState())
    {
      var st := m.state;
      if !(st.videoId == "" || st.videoId == VideoIdOf(page.path)) {
        ForeignVideoIgnored(ControlState(), m, page.path, v, now, rewindOnHeartbeat);
        return;
      }
      var targetTime := ResolveTargetTime(st, m.serverTime, m.sentAt, now);
      if video.None? {
        return;
      }
      var current := v.currentTime;
      var diff := Abs(current - targetTime);
      WithSuppression(m, v, targetTime, diff, now);
    }

    /** `withSuppression` and the closure `applyRemoteAction` runs in it:
        see `SuppressedAct`. */
    method WithSuppression(m: Relayed, v: VideoState, targetTime: real, diff: real, now: int)
      modifies this`suppressCount, this`suppressDeadlines, this`lastCorrectionAt, this`heartbeatOn, this`effects
      ensures ControlState() == SuppressedAct(old(ControlState()), m, v, targetTime, diff, now, rewindOnHeartbeat)
    {
      var st := m.state;
      ghost var c0 := ControlState();
      EnterSuppression();
      if st.playbackRate != 0.0 && Abs(v.playbackRate - st.playbackRate) > 0.001 {
        SetPlaybackRate(st.playbackRate);
      }
      ghost var c1 := ControlState();
      assert c1 == c0.(suppressCount := c0.suppressCount + 1, effects := c0.effects + RatePrelude(st, v));
      Act(m.action, st, v, targetTime, diff, now);
      ghost var c2 := ControlState();
      assert c2 == ActOn(c1, m.action, m.state, v, targetTime, diff, now, rewindOnHeartbeat);
      assert SuppressedAct(c0, m, v, targetTime, diff, now, rewindOnHeartbeat)
        == c2.(suppressDeadlines := c2.suppressDeadlines + [now + SuppressMs]);
      ScheduleRelease(now);
      assert ControlState() == c2.(suppressDeadlines := c2.suppressDeadlines + [now + SuppressMs]);
    }

    /** The `switch` of `applyRemoteAction`: see `ActOn`. */
    method Act(action: string, st: PlaybackState, v: VideoState, targetTime: real, diff: real, now: int)
      modifies this`lastCorrectionAt, this`heartbeatOn, this`effects
      ensures ControlState() == ActOn(old(ControlState()), action, st, v, targetTime, diff, now, rewindOnHeartbeat)
    {
      if action == "play" {
        var ok := ShouldResync(PlayPause, diff, now);
        if ok {
          SeekTo(targetTime);
        }
        PlayVideo();
        EnableHeartbeat();
      } else if action == "pause" {
        var ok := ShouldResync(PlayPause, diff, now);
        if ok {
          SeekTo(st.currentTime.GetOr(targetTime));
        }
        PauseVideo();
        DisableHeartbeat();
      } else if action == "seek" {
        var ok := ShouldResync(Seek, diff, now);
        if ok {
          SeekTo(targetTime);
        }
      } else if action == "ratechange" {
        SetPlaybackRate(if st.playbackRate != 0.0 then st.playbackRate else 1.0);
      } else if action == "heartbeat" {
        ActOnHeartbeat(st, v, targetTime, diff, now);
      }
    }

    /** The `heartbeat` case: see `HeartbeatAct`. */
    method ActOnHeartbeat(st: PlaybackState, v: VideoState, targetTime: real, diff: real, now: int)
      modifies this`lastCorrectionAt, this`heartbeatOn, this`effects
      ensures ControlState() == HeartbeatAct(old(ControlState()), st, v, targetTime, diff, now, rewindOnHeartbeat)
    {
      if !st.paused {
        if rewindOnHeartbeat {
          var ok := ShouldResync(Heartbeat, diff, now);
          if ok {
            SeekTo(targetTime);
          }
        } else {
          var ahead := targetTime - v.currentTime;
          if ahead > 0.0 {
            var ok := ShouldResync(Heartbeat, ahead, now);
            if ok {
              SeekTo(targetTime);
            }
          }
        }
        EnableHeartbeat();
        PlayVideo();
      } else if !v.paused {
        PauseVideo();
      }
    }

    /** The event/heartbeat branch of `handleSocketMessage`: our own echoes
        are dropped, others are applied when a video is attached and queued
        in arrival order when not. */
    method ReceiveRelayed(m: Relayed, now: int, page: Page, v: VideoState)
      requires Valid()
      modifies this`pendingMessages, this`suppressCount, this`suppressDeadlines, this`lastCorrectionAt, this`heartbeatOn, this`effects
      ensures Valid()
      ensures m.clientId == clientId ==> pendingMessages == old(pendingMessages) && ControlState() == old(ControlState())
      ensures m.clientId != clientId && video.None? ==>
                pendingMessages == old(pendingMessages) + [m] && ControlState() == old(ControlState())
      ensures m.clientId != clientId && video.Some? ==>
                pendingMessages == old(pendingMessages)
                && ControlState() == ApplyRemote(old(ControlState()), m, page.path, v, now, rewindOnHeartbeat)
    {
      if m.clientId == clientId {
        return;
      }
      if video.Some? {
        ApplyRemoteAction(m, now, page, v);
      } else {
        pendingMessages := pendingMessages + [m];
      }
    }

    /** `handleSocketMessage`: an acknowledgement announces our state with a
        heartbeat, relayed events go to `ReceiveRelayed`, everything else
        only updates the display. */
    method HandleSocketMessage(msg: ServerMsg, now: int, page: Page, v: VideoState)
      requires Valid()
      modifies this`pendingMessages, this`suppressCount, this`suppressDeadlines, this`lastCorrectionAt, this`heartbeatOn, this`effects
      modifies this`lastSeekSentAt, this`lastHeartbeatSentAt, this`sent
      ensures Valid()
      ensures msg.Ack? ==>
                OutboundState() == SendStep(old(OutboundState()), connected && video.Some?, "heartbeat", CollectState(page, v), now)
                && ControlState() == old(ControlState()) && pendingMessages == old(pendingMessages)
      ensures msg.Forward? && msg.event.clientId != clientId && video.Some? ==>
                OutboundState() == old(OutboundState()) && pendingMessages == old(pendingMessages)
                && ControlState() == ApplyRemote(old(ControlState()), msg.event, page.path, v, now, rewindOnHeartbeat)
      ensures msg.Forward? && msg.event.clientId != clientId && video.None? ==>
                OutboundState() == old(OutboundState()) && ControlState() == old(ControlState())
                && pendingMessages == old(pendingMessages) + [msg.event]
      ensures !msg.Ack? && !(msg.Forward? && msg.event.clientId != clientId) ==>
                OutboundState() == old(OutboundState()) && ControlState() == old(ControlState())
                && pendingMessages == old(pendingMessages)
    {
      match msg {
        case Ack(_, _, _, _, _) =>
          SendEvent("heartbeat", now, page, v);
        case Forward(e) =>
          ReceiveRelayed(e, now, page, v);
        case _ =>
      }
    }

    /** `flushPendingMessages`: with a video attached the queue is emptied
        first and its messages are applied in arrival order. */
    method FlushPendingMessages(now: int, page: Page, v: VideoState)
      requires Valid()
      modifies this`pendingMessages, this`suppressCount, this`suppressDeadlines, this`lastCorrectionAt, this`heartbeatOn, this`effects
      ensures Valid()
      ensures video.None? ==> pendingMessages == old(pendingMessages) && ControlState() == old(ControlState())
      ensures video.Some? ==>
                pendingMessages == []
                && ControlState() == ApplyAll(old(ControlState()), old(pendingMessages), page.path, v, now, rewindOnHeartbeat)
    {
      if video.None? || |pendingMessages| == 0 {
        return;
      }
      var queue := pendingMessages;
      pendingMessages := [];
      var i := 0;
      while i < |queue|
        invariant 0 <= i <= |queue|
        invariant Valid() && video.Some? && pendingMessages == []
        invariant ControlState() == ApplyAll(old(ControlState()), queue[..i], page.path, v, now, rewindOnHeartbeat)
      {
        ApplyAllSnoc(old(ControlState()), queue, i, page.path, v, now, rewindOnHeartbeat);
        ghost var before := ControlState();
        ApplyRemoteAction(queue[i], now, page, v);
        assert ControlState() == ApplyRemote(before, queue[i], page.path, v, now, rewindOnHeartbeat);
        i := i + 1;
      }
      assert queue[..i] == queue;
    }

    /** `attachVideo`: a new element replaces the old one and the queue is
        flushed; attaching nothing or the same element again does nothing. */
    method AttachVideo(element: Option<nat>, now: int, page: Page, v: VideoState)
      requires Valid()
      modifies this`video, this`pendingMessages, this`suppressCount, this`suppressDeadlines, this`lastCorrectionAt, this`heartbeatOn, this`effects
      ensures Valid()
      ensures element.None? || element == old(video) ==>
                video == old(video) && pendingMessages == old(pendingMessages) && ControlState() == old(ControlState())
      ensures element.Some? && element != old(video) ==>
                video == element && pendingMessages == []
                && ControlState() == ApplyAll(old(ControlState()), old(pendingMessages), page.path, v, now, rewindOnHeartbeat)
    {
      if element.None? || element == video {
        return;
      }
      DetachVideo();
      video := element;
      FlushPendingMessages(now, page, v);
    }

    method DetachVideo()
      modifies this`video
      ensures video.None?
    {
      video := None;
    }
  }
}
