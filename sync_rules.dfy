/** The decision rules of the browser sync agent (bili-sync.user.js), as pure
    functions: latency estimation, the correction policy, the video id of a
    page path, what one inbound event does to the player, the release of
    suppression timers and the outbound throttle. Times are integer
    milliseconds, playback positions are real seconds. */
module SyncRules {
  import opened Protocol

  const HeartbeatMs: int := 4000
  const SuppressMs: int := 900
  const CooldownMs: int := 1500
  const MaxLatencyMs: int := 300
  const SeekSendGapMs: int := 100

  function Abs(x: real): real {
    if x < 0.0 then -x else x
  }

  // ---------------------------------------------------------------------
  // Latency estimator
  // ---------------------------------------------------------------------

  /** Milliseconds of transit to add to a remote position: the relay's
      stamp when there is one, else the sender's stamp clamped to
      [0, MaxLatencyMs], else nothing. */
  function LatencyMs(serverTime: int, sentAt: int, now: int): (r: int)
    ensures 0 <= r
    ensures serverTime > 0 && now >= serverTime ==> r == now - serverTime
    ensures serverTime > 0 && now < serverTime ==> r == 0
    ensures serverTime <= 0 ==> r <= MaxLatencyMs
    ensures serverTime <= 0 && sentAt > 0 && 0 <= now - sentAt <= MaxLatencyMs ==> r == now - sentAt
    ensures serverTime <= 0 && sentAt > 0 && now - sentAt >= MaxLatencyMs ==> r == MaxLatencyMs
    ensures serverTime <= 0 && sentAt > 0 && now < sentAt ==> r == 0
    ensures serverTime <= 0 && sentAt <= 0 ==> r == 0
  {
    if serverTime > 0 then
      (if now - serverTime > 0 then now - serverTime else 0)
    else if sentAt > 0 then
      var capped := if now - sentAt < MaxLatencyMs then now - sentAt else MaxLatencyMs;
      if capped > 0 then capped else 0
    else
      0
  }

  /** The estimated current remote position: the reported position (0 when
      missing) plus the latency, floored at 0. */
  function ResolveTargetTime(st: PlaybackState, serverTime: int, sentAt: int, now: int): (r: real)
    ensures r >= 0.0
    ensures st.currentTime.GetOr(0.0) >= 0.0 ==> r >= st.currentTime.GetOr(0.0)
    ensures serverTime <= 0 ==> r <= (if st.currentTime.GetOr(0.0) > 0.0 then st.currentTime.GetOr(0.0) else 0.0) + 0.3
    ensures serverTime > 0 && now >= serverTime && st.currentTime.GetOr(0.0) >= 0.0 ==>
              r == st.currentTime.GetOr(0.0) + (now - serverTime) as real / 1000.0
    ensures var t := st.currentTime.GetOr(0.0) + LatencyMs(serverTime, sentAt, now) as real / 1000.0;
            r == if t < 0.0 then 0.0 else t
  {
    var target := st.currentTime.GetOr(0.0) + LatencyMs(serverTime, sentAt, now) as real / 1000.0;
    if target < 0.0 then 0.0 else target
  }

  // ---------------------------------------------------------------------
  // Correction policy
  // ---------------------------------------------------------------------

  /** The kinds of correction; `Unknown` stands for any other key, which
      falls back to the heartbeat dead-zone. */
  datatype Kind = PlayPause | Seek | Heartbeat | Unknown

  /** Dead-zone in seconds below which no corrective seek is made. */
  function DeadZone(k: Kind): real {
    match k
    case PlayPause => 0.70
    case Seek => 0.40
    case Heartbeat => 0.90
    case Unknown => 0.90
  }

  /** A correction is accepted outside the global cooldown when the gap
      strictly exceeds the kind's dead-zone. */
  predicate ResyncAccepted(k: Kind, diff: real, now: int, lastCorrectionAt: int): (ok: bool)
    ensures ok ==> now - lastCorrectionAt >= CooldownMs && diff > 0.40
    ensures now - lastCorrectionAt >= CooldownMs && diff > 0.90 ==> ok
  {
    now - lastCorrectionAt >= CooldownMs && diff > DeadZone(k)
  }

  /** Once a correction is accepted at `t1`, no correction of any kind is
      accepted before `t1 + CooldownMs`. */
  lemma CooldownBlocksSecondCorrection(k1: Kind, d1: real, t1: int, last: int, k2: Kind, d2: real, t2: int)
    requires ResyncAccepted(k1, d1, t1, last)
    requires t2 - t1 < CooldownMs
    ensures !ResyncAccepted(k2, d2, t2, t1)
  {
  }

  // ---------------------------------------------------------------------
  // Video id of a page path
  // ---------------------------------------------------------------------

  /** The longest run of non-'/' characters at the head of `s` (the greedy
      group `[^/]+`, possibly empty here). */
  function SegmentAt(s: string): (r: string)
    ensures |r| <= |s| && r == s[..|r|]
    ensures '/' !in r
    ensures |r| < |s| ==> s[|r|] == '/'
  {
    if s == [] || s[0] == '/' then [] else [s[0]] + SegmentAt(s[1..])
  }

  /** The pattern `prefix([^/]+)` matches `s` starting at index `j`. */
  predicate MatchesAt(prefix: string, s: string, j: nat) {
    j + |prefix| < |s| && s[j..j + |prefix|] == prefix && s[j + |prefix|] != '/'
  }

  /** Leftmost start position, at or after `from`, where the pattern matches. */
  function FindMatch(prefix: string, s: string, from: nat): (r: Option<nat>)
    decreases |s| - from
    ensures r.Some? ==> from <= r.value && MatchesAt(prefix, s, r.value)
    ensures forall j: nat | from <= j && (r.None? || j < r.value) :: !MatchesAt(prefix, s, j)
  {
    if from + |prefix| >= |s| then None
    else if MatchesAt(prefix, s, from) then Some(from)
    else FindMatch(prefix, s, from + 1)
  }

  /** The capture group of the leftmost match of `prefix([^/]+)`. */
  function Capture(prefix: string, s: string): (r: Option<string>)
    ensures r.Some? ==> r.value != [] && '/' !in r.value
    ensures r.None? <==> forall j: nat :: !MatchesAt(prefix, s, j)
    ensures r.Some? ==> FindMatch(prefix, s, 0).Some?
                        && r.value == SegmentAt(s[FindMatch(prefix, s, 0).value + |prefix|..])
  {
    match FindMatch(prefix, s, 0)
    case None => None
    case Some(j) => Some(SegmentAt(s[j + |prefix|..]))
  }

  /** The video id of a page: the segment after `/video/`, else the segment
      after `/bangumi/play/`, else the whole path. */
  function VideoIdOf(path: string): (r: string)
    ensures r == path || (r != [] && '/' !in r)
    ensures Capture("/video/", path).Some? ==> r == Capture("/video/", path).value
    ensures Capture("/video/", path).None? && Capture("/bangumi/play/", path).Some? ==>
              r == Capture("/bangumi/play/", path).value
    ensures Capture("/video/", path).None? && Capture("/bangumi/play/", path).None? ==> r == path
  {
    match Capture("/video/", path)
    case Some(id) => id
    case None =>
      match Capture("/bangumi/play/", path)
      case Some(id) => id
      case None => path
  }

  lemma {:induction false} SegmentOfIdThenRest(id: string, rest: string)
    requires '/' !in id
    requires rest == [] || rest[0] == '/'
    ensures SegmentAt(id + rest) == id
  {
    if id != [] {
      assert (id + rest)[1..] == id[1..] + rest;
      SegmentOfIdThenRest(id[1..], rest);
    }
  }

  /** On a watch page `/video/<id>` (optionally followed by more path
      segments) the video id is `<id>`. */
  lemma WatchPageVideoId(id: string, rest: string)
    requires id != [] && '/' !in id
    requires rest == [] || rest[0] == '/'
    ensures VideoIdOf("/video/" + id + rest) == id
  {
    var p := "/video/" + id + rest;
    assert p[0..7] == "/video/";
    assert p[7] == id[0];
    assert MatchesAt("/video/", p, 0);
    assert FindMatch("/video/", p, 0) == Some(0);
    assert p[7..] == id + rest;
    SegmentOfIdThenRest(id, rest);
  }

  /** On a bangumi page `/bangumi/play/<id>` (optionally followed by more
      path segments) whose path has no `/video/<x>` segment, the video id
      is `<id>`. */
  lemma BangumiPageVideoId(id: string, rest: string)
    requires id != [] && '/' !in id
    requires rest == [] || rest[0] == '/'
    requires forall j: nat :: !MatchesAt("/video/", "/bangumi/play/" + id + rest, j)
    ensures VideoIdOf("/bangumi/play/" + id + rest) == id
  {
    var p := "/bangumi/play/" + id + rest;
    assert p[0..14] == "/bangumi/play/";
    assert p[14] == id[0];
    assert MatchesAt("/bangumi/play/", p, 0);
    assert FindMatch("/bangumi/play/", p, 0) == Some(0);
    assert p[14..] == id + rest;
    SegmentOfIdThenRest(id, rest);
  }

  // ---------------------------------------------------------------------
  // Applying one inbound event to the local player
  // ---------------------------------------------------------------------

  /** Calls made on the local player, in order. */
  datatype Effect = SeekTo(time: real) | PlayVideo | PauseVideo | SetPlaybackRate(rate: real)

  /** What the agent reads from the local media element. */
  datatype VideoState = VideoState(currentTime: real, paused: bool, playbackRate: real, duration: real)

  /** The part of the agent's state that inbound events change: the
      correction clock, the heartbeat timer, the suppression counter with
      its pending release deadlines, and the player calls made so far. */
  datatype Control = Control(
    lastCorrectionAt: int,
    heartbeatOn: bool,
    suppressCount: nat,
    suppressDeadlines: seq<int>,
    effects: seq<Effect>)

  /** A rate change reaches the player only for a positive rate. */
  function RateEffects(rate: real): seq<Effect> {
    if rate > 0.0 then [SetPlaybackRate(rate)] else []
  }

  /** The rate alignment done before any action: a present remote rate that
      differs from the local one by more than 0.001. */
  function RatePrelude(st: PlaybackState, v: VideoState): (r: seq<Effect>)
    ensures r == [] || (st.playbackRate > 0.0 && r == [SetPlaybackRate(st.playbackRate)])
    ensures r != [] <==> st.playbackRate > 0.0 && Abs(v.playbackRate - st.playbackRate) > 0.001
  {
    if st.playbackRate != 0.0 && Abs(v.playbackRate - st.playbackRate) > 0.001 then RateEffects(st.playbackRate) else []
  }

  /** An event is for this page when it names no video or names ours. */
  predicate SameVideo(st: PlaybackState, path: string) {
    st.videoId == "" || st.videoId == VideoIdOf(path)
  }

  /** Ask the correction policy; on acceptance record the time and seek. */
  function Corrected(c: Control, k: Kind, diff: real, now: int, seekTarget: real): (r: Control)
    ensures ResyncAccepted(k, diff, now, c.lastCorrectionAt) <==> r.effects == c.effects + [SeekTo(seekTarget)]
    ensures ResyncAccepted(k, diff, now, c.lastCorrectionAt) ==> r.lastCorrectionAt == now
    ensures !ResyncAccepted(k, diff, now, c.lastCorrectionAt) ==> r == c
    ensures r.heartbeatOn == c.heartbeatOn && r.suppressCount == c.suppressCount
            && r.suppressDeadlines == c.suppressDeadlines
  {
    if ResyncAccepted(k, diff, now, c.lastCorrectionAt) then
      c.(lastCorrectionAt := now, effects := c.effects + [SeekTo(seekTarget)])
    else c
  }

  /** The per-action decision table, run inside the suppression window. */
  function ActOn(c: Control, action: string, st: PlaybackState, v: VideoState,
                 target: real, diff: real, now: int, rewindOnHeartbeat: bool): (r: Control)
    ensures r.suppressCount == c.suppressCount && r.suppressDeadlines == c.suppressDeadlines
  {
    if action == "play" then
      var c1 := Corrected(c, PlayPause, diff, now, target);
      c1.(effects := c1.effects + [PlayVideo], heartbeatOn := true)
    else if action == "pause" then
      var c1 := Corrected(c, PlayPause, diff, now, st.currentTime.GetOr(target));
      c1.(effects := c1.effects + [PauseVideo], heartbeatOn := false)
    else if action == "seek" then
      Corrected(c, Seek, diff, now, target)
    else if action == "ratechange" then
      c.(effects := c.effects + RateEffects(if st.playbackRate != 0.0 then st.playbackRate else 1.0))
    else if action == "heartbeat" then
      HeartbeatAct(c, st, v, target, diff, now, rewindOnHeartbeat)
    else c
  }

  /** The heartbeat row of the decision table: a playing peer may pull the
      local position (both directions, or only forward) and keeps the local
      player playing; a paused peer pauses a playing local player. */
  function HeartbeatAct(c: Control, st: PlaybackState, v: VideoState,
                        target: real, diff: real, now: int, rewindOnHeartbeat: bool): (r: Control)
    ensures r.suppressCount == c.suppressCount && r.suppressDeadlines == c.suppressDeadlines
    ensures !st.paused ==> r.heartbeatOn && |r.effects| > 0 && r.effects[|r.effects| - 1] == PlayVideo
    ensures !st.paused ==>
              var accepted := if rewindOnHeartbeat then ResyncAccepted(Heartbeat, diff, now, c.lastCorrectionAt)
                              else target - v.currentTime > 0.0
                                   && ResyncAccepted(Heartbeat, target - v.currentTime, now, c.lastCorrectionAt);
              && r.effects == c.effects + (if accepted then [SeekTo(target)] else []) + [PlayVideo]
              && r.lastCorrectionAt == (if accepted then now else c.lastCorrectionAt)
    ensures st.paused ==> r.heartbeatOn == c.heartbeatOn && r.lastCorrectionAt == c.lastCorrectionAt
                          && r.effects == c.effects + (if v.paused then [] else [PauseVideo])
  {
    if !st.paused then
      var c1 :=
        if rewindOnHeartbeat then Corrected(c, Heartbeat, diff, now, target)
        else if target - v.currentTime > 0.0 then Corrected(c, Heartbeat, target - v.currentTime, now, target)
        else c;
      c1.(heartbeatOn := true, effects := c1.effects + [PlayVideo])
    else if !v.paused then
      c.(effects := c.effects + [PauseVideo])
    else c
  }

  /** `Math.max(0, n - 1)`. */
  function SaturatingDecrement(n: nat): nat {
    if n > 0 then n - 1 else 0
  }

  /** What one inbound event does, given the page path, the local video and
      the clock: ignored when it is for another video; otherwise the
      suppression counter goes up, the rate is aligned, the action is
      applied, and the counter's release is scheduled SuppressMs later. */
  function ApplyRemote(c: Control, m: Relayed, path: string, v: VideoState, now: int, rewindOnHeartbeat: bool): (r: Control)
    ensures !SameVideo(m.state, path) ==> r == c
    ensures SameVideo(m.state, path) ==>
              r.suppressCount == c.suppressCount + 1 && r.suppressDeadlines == c.suppressDeadlines + [now + SuppressMs]
  {
    if !SameVideo(m.state, path) then c
    else
      var target := ResolveTargetTime(m.state, m.serverTime, m.sentAt, now);
      SuppressedAct(c, m, v, target, Abs(v.currentTime - target), now, rewindOnHeartbeat)
  }

  /** `withSuppression` around the decision table: one more suppression
      entry, the rate prelude and the action, then that entry's own release
      deadline. The counter and the deadlines grow together. */
  function SuppressedAct(c: Control, m: Relayed, v: VideoState, target: real, diff: real, now: int,
                         rewindOnHeartbeat: bool): (r: Control)
    ensures r.suppressCount == c.suppressCount + 1
    ensures r.suppressDeadlines == c.suppressDeadlines + [now + SuppressMs]
  {
    var c1 := c.(suppressCount := c.suppressCount + 1, effects := c.effects + RatePrelude(m.state, v));
    var c2 := ActOn(c1, m.action, m.state, v, target, diff, now, rewindOnHeartbeat);
    c2.(suppressDeadlines := c2.suppressDeadlines + [now + SuppressMs])
  }

  /** Events applied one after another, in arrival order. */
  function ApplyAll(c: Control, q: seq<Relayed>, path: string, v: VideoState, now: int, rewindOnHeartbeat: bool): (r: Control)
    decreases |q|
    ensures c.suppressCount <= r.suppressCount <= c.suppressCount + |q|
    ensures r.suppressCount - c.suppressCount == |r.suppressDeadlines| - |c.suppressDeadlines|
  {
    if q == [] then c
    else ApplyRemote(ApplyAll(c, q[..|q| - 1], path, v, now, rewindOnHeartbeat), q[|q| - 1], path, v, now, rewindOnHeartbeat)
  }

  lemma ApplyAllSnoc(c: Control, q: seq<Relayed>, i: nat, path: string, v: VideoState, now: int, rewindOnHeartbeat: bool)
    requires i < |q|
    ensures ApplyAll(c, q[..i + 1], path, v, now, rewindOnHeartbeat)
            == ApplyRemote(ApplyAll(c, q[..i], path, v, now, rewindOnHeartbeat), q[i], path, v, now, rewindOnHeartbeat)
  {
    assert q[..i + 1][..i] == q[..i];
  }

  /** An event for another video changes nothing. */
  lemma ForeignVideoIgnored(c: Control, m: Relayed, path: string, v: VideoState, now: int, rewindOnHeartbeat: bool)
    requires !SameVideo(m.state, path)
    ensures ApplyRemote(c, m, path, v, now, rewindOnHeartbeat) == c
  {
  }

  /** A pause correction seeks to the reported, uncompensated position. */
  lemma PauseSeeksToReportedTime(c: Control, m: Relayed, path: string, v: VideoState, now: int, rewindOnHeartbeat: bool)
    requires m.action == "pause" && SameVideo(m.state, path)
    ensures var target := ResolveTargetTime(m.state, m.serverTime, m.sentAt, now);
            var accepted := ResyncAccepted(PlayPause, Abs(v.currentTime - target), now, c.lastCorrectionAt);
            var r := ApplyRemote(c, m, path, v, now, rewindOnHeartbeat);
            && r.effects == c.effects + RatePrelude(m.state, v)
                            + (if accepted then [SeekTo(m.state.currentTime.GetOr(target))] else []) + [PauseVideo]
            && !r.heartbeatOn
            && r.lastCorrectionAt == (if accepted then now else c.lastCorrectionAt)
  {
  }

  /** A remote play seeks to the compensated target when the play/pause
      dead-zone and the cooldown allow it, then plays and starts the
      heartbeat timer. */
  lemma PlaySeeksToTarget(c: Control, m: Relayed, path: string, v: VideoState, now: int, rewindOnHeartbeat: bool)
    requires m.action == "play" && SameVideo(m.state, path)
    ensures var target := ResolveTargetTime(m.state, m.serverTime, m.sentAt, now);
            var accepted := ResyncAccepted(PlayPause, Abs(v.currentTime - target), now, c.lastCorrectionAt);
            var r := ApplyRemote(c, m, path, v, now, rewindOnHeartbeat);
            && r.effects == c.effects + RatePrelude(m.state, v)
                            + (if accepted then [SeekTo(target)] else []) + [PlayVideo]
            && r.heartbeatOn
            && r.lastCorrectionAt == (if accepted then now else c.lastCorrectionAt)
  {
  }

  /** A heartbeat from a playing peer pulls the local player to the
      compensated target when the heartbeat dead-zone and the cooldown allow
      it: in either direction when rewinding is on, only when the local
      player lags behind when it is off. It then keeps the player playing
      with the heartbeat timer set. */
  lemma PlayingHeartbeatPullsAlong(c: Control, m: Relayed, path: string, v: VideoState, now: int, rewindOnHeartbeat: bool)
    requires m.action == "heartbeat" && SameVideo(m.state, path) && !m.state.paused
    ensures var target := ResolveTargetTime(m.state, m.serverTime, m.sentAt, now);
            var accepted := if rewindOnHeartbeat
                            then ResyncAccepted(Heartbeat, Abs(v.currentTime - target), now, c.lastCorrectionAt)
                            else target - v.currentTime > 0.0
                                 && ResyncAccepted(Heartbeat, target - v.currentTime, now, c.lastCorrectionAt);
            var r := ApplyRemote(c, m, path, v, now, rewindOnHeartbeat);
            && r.effects == c.effects + RatePrelude(m.state, v)
                            + (if accepted then [SeekTo(target)] else []) + [PlayVideo]
            && r.heartbeatOn
            && r.lastCorrectionAt == (if accepted then now else c.lastCorrectionAt)
  {
  }

  /** A remote seek seeks to the compensated target when the seek dead-zone
      and the cooldown allow it, and does nothing else. */
  lemma SeekFollowsTarget(c: Control, m: Relayed, path: string, v: VideoState, now: int, rewindOnHeartbeat: bool)
    requires m.action == "seek" && SameVideo(m.state, path)
    ensures var target := ResolveTargetTime(m.state, m.serverTime, m.sentAt, now);
            var accepted := ResyncAccepted(Seek, Abs(v.currentTime - target), now, c.lastCorrectionAt);
            var r := ApplyRemote(c, m, path, v, now, rewindOnHeartbeat);
            && r.effects == c.effects + RatePrelude(m.state, v) + (if accepted then [SeekTo(target)] else [])
            && r.heartbeatOn == c.heartbeatOn
            && r.lastCorrectionAt == (if accepted then now else c.lastCorrectionAt)
  {
  }

  /** A remote rate change applies the reported rate, or 1 when none is
      reported, and never seeks. */
  lemma RateChangeAppliesRate(c: Control, m: Relayed, path: string, v: VideoState, now: int, rewindOnHeartbeat: bool)
    requires m.action == "ratechange" && SameVideo(m.state, path)
    ensures var r := ApplyRemote(c, m, path, v, now, rewindOnHeartbeat);
            && r.effects == c.effects + RatePrelude(m.state, v)
                            + RateEffects(if m.state.playbackRate != 0.0 then m.state.playbackRate else 1.0)
            && r.heartbeatOn == c.heartbeatOn
            && r.lastCorrectionAt == c.lastCorrectionAt
  {
  }

  /** Any other action only aligns the rate, though it still opens a
      suppression window. */
  lemma OtherActionOnlyAlignsRate(c: Control, m: Relayed, path: string, v: VideoState, now: int, rewindOnHeartbeat: bool)
    requires m.action !in {"play", "pause", "seek", "ratechange", "heartbeat"} && SameVideo(m.state, path)
    ensures var r := ApplyRemote(c, m, path, v, now, rewindOnHeartbeat);
            && r.effects == c.effects + RatePrelude(m.state, v)
            && r.heartbeatOn == c.heartbeatOn
            && r.lastCorrectionAt == c.lastCorrectionAt
            && r.suppressCount == c.suppressCount + 1
  {
  }

  /** A heartbeat from a paused peer pauses a playing local video and never
      seeks or touches the correction clock. */
  lemma PausedHeartbeatNeverSeeks(c: Control, m: Relayed, path: string, v: VideoState, now: int, rewindOnHeartbeat: bool)
    requires m.action == "heartbeat" && SameVideo(m.state, path) && m.state.paused
    ensures var r := ApplyRemote(c, m, path, v, now, rewindOnHeartbeat);
            && r.effects == c.effects + RatePrelude(m.state, v) + (if v.paused then [] else [PauseVideo])
            && r.lastCorrectionAt == c.lastCorrectionAt
            && r.heartbeatOn == c.heartbeatOn
  {
  }

  /** With rewinding disabled a heartbeat only ever seeks forward. */
  lemma ForwardOnlyHeartbeatNeverRewinds(c: Control, m: Relayed, path: string, v: VideoState, now: int)
    requires m.action == "heartbeat"
    ensures var r := ApplyRemote(c, m, path, v, now, false);
            && |c.effects| <= |r.effects|
            && forall e | e in r.effects[|c.effects|..] && e.SeekTo? :: e.time > v.currentTime
  {
    var r := ApplyRemote(c, m, path, v, now, false);
    if SameVideo(m.state, path) {
      var target := ResolveTargetTime(m.state, m.serverTime, m.sentAt, now);
      var added := r.effects[|c.effects|..];
      if !m.state.paused && target - v.currentTime > 0.0
         && ResyncAccepted(Heartbeat, target - v.currentTime, now, c.lastCorrectionAt) {
        assert added == RatePrelude(m.state, v) + [SeekTo(target), PlayVideo];
      } else if !m.state.paused {
        assert added == RatePrelude(m.state, v) + [PlayVideo];
      }
    }
  }

  /** The two heartbeat modes disagree exactly on a local player that is
      ahead: with rewinding on (the shipped setting) it is pulled back,
      with rewinding off it is left alone. */
  lemma HeartbeatModesOnLocalAhead(c: Control, m: Relayed, path: string, v: VideoState, now: int)
    requires m.action == "heartbeat" && SameVideo(m.state, path) && !m.state.paused
    requires now - c.lastCorrectionAt >= CooldownMs
    requires v.currentTime - ResolveTargetTime(m.state, m.serverTime, m.sentAt, now) > DeadZone(Heartbeat)
    ensures var target := ResolveTargetTime(m.state, m.serverTime, m.sentAt, now);
            && ApplyRemote(c, m, path, v, now, true).effects
               == c.effects + RatePrelude(m.state, v) + [SeekTo(target), PlayVideo]
            && ApplyRemote(c, m, path, v, now, false).effects
               == c.effects + RatePrelude(m.state, v) + [PlayVideo]
  {
  }

  // ---------------------------------------------------------------------
  // Corrections in a burst
  // ---------------------------------------------------------------------

  /** Number of corrective seeks among the player calls. */
  function SeekCount(es: seq<Effect>): nat {
    if es == [] then 0 else (if es[0].SeekTo? then 1 else 0) + SeekCount(es[1..])
  }

  lemma {:induction false} SeekCountAppend(a: seq<Effect>, b: seq<Effect>)
    ensures SeekCount(a + b) == SeekCount(a) + SeekCount(b)
  {
    if a == [] {
      assert a + b == b;
    } else {
      assert (a + b)[0] == a[0];
      assert (a + b)[1..] == a[1..] + b;
      SeekCountAppend(a[1..], b);
    }
  }

  lemma {:induction false} SeekCountNoSeeks(es: seq<Effect>)
    requires forall e | e in es :: !e.SeekTo?
    ensures SeekCount(es) == 0
  {
    if es != [] {
      assert es[0] in es;
      SeekCountNoSeeks(es[1..]);
    }
  }

  /** From `c` to `r` the player calls were only appended to, at most one of
      them a seek, and a seek was added exactly when the correction clock
      moved to `now`, which the cooldown allowed. */
  predicate SeekStep(c: Control, r: Control, now: int) {
    && c.effects <= r.effects
    && SeekCount(c.effects) <= SeekCount(r.effects) <= SeekCount(c.effects) + 1
    && (SeekCount(r.effects) == SeekCount(c.effects) + 1 ==>
          r.lastCorrectionAt == now && now - c.lastCorrectionAt >= CooldownMs)
    && (SeekCount(r.effects) == SeekCount(c.effects) ==> r.lastCorrectionAt == c.lastCorrectionAt)
  }

  /** Appending calls that are not seeks keeps a seek step a seek step. */
  lemma PlainCallsKeepSeekStep(c: Control, c1: Control, r: Control, es: seq<Effect>, now: int)
    requires SeekStep(c, c1, now)
    requires forall e | e in es :: !e.SeekTo?
    requires r.effects == c1.effects + es && r.lastCorrectionAt == c1.lastCorrectionAt
    ensures SeekStep(c, r, now)
  {
    SeekCountAppend(c1.effects, es);
    SeekCountNoSeeks(es);
  }

  lemma CorrectedIsSeekStep(c: Control, k: Kind, diff: real, now: int, seekTarget: real)
    ensures var r := Corrected(c, k, diff, now, seekTarget);
            && SeekStep(c, r, now)
            && r.heartbeatOn == c.heartbeatOn
            && r.suppressCount == c.suppressCount && r.suppressDeadlines == c.suppressDeadlines
  {
    if ResyncAccepted(k, diff, now, c.lastCorrectionAt) {
      SeekCountAppend(c.effects, [SeekTo(seekTarget)]);
      assert SeekCount([SeekTo(seekTarget)]) == 1;
    }
  }

  /** Every branch of the decision table is a seek step and leaves the
      suppression bookkeeping alone. */
  lemma ActOnIsSeekStep(c: Control, action: string, st: PlaybackState, v: VideoState,
                        target: real, diff: real, now: int, rewindOnHeartbeat: bool)
    ensures var r := ActOn(c, action, st, v, target, diff, now, rewindOnHeartbeat);
            && SeekStep(c, r, now)
            && r.suppressCount == c.suppressCount && r.suppressDeadlines == c.suppressDeadlines
  {
    var r := ActOn(c, action, st, v, target, diff, now, rewindOnHeartbeat);
    assert SeekStep(c, c, now);
    if action == "play" {
      CorrectedIsSeekStep(c, PlayPause, diff, now, target);
      PlainCallsKeepSeekStep(c, Corrected(c, PlayPause, diff, now, target), r, [PlayVideo], now);
    } else if action == "pause" {
      var s := st.currentTime.GetOr(target);
      CorrectedIsSeekStep(c, PlayPause, diff, now, s);
      PlainCallsKeepSeekStep(c, Corrected(c, PlayPause, diff, now, s), r, [PauseVideo], now);
    } else if action == "seek" {
      CorrectedIsSeekStep(c, Seek, diff, now, target);
    } else if action == "ratechange" {
      PlainCallsKeepSeekStep(c, c, r, RateEffects(if st.playbackRate != 0.0 then st.playbackRate else 1.0), now);
    } else if action == "heartbeat" {
      if !st.paused {
        var c1 :=
          if rewindOnHeartbeat then Corrected(c, Heartbeat, diff, now, target)
          else if target - v.currentTime > 0.0 then Corrected(c, Heartbeat, target - v.currentTime, now, target)
          else c;
        CorrectedIsSeekStep(c, Heartbeat, diff, now, target);
        CorrectedIsSeekStep(c, Heartbeat, target - v.currentTime, now, target);
        PlainCallsKeepSeekStep(c, c1, r, [PlayVideo], now);
      } else if !v.paused {
        PlainCallsKeepSeekStep(c, c, r, [PauseVideo], now);
      }
    }
  }

  /** One event seeks at most once, and it seeks exactly when it moves the
      correction clock to `now`, which needs the cooldown to have passed;
      it adds one suppression entry with its one release deadline, or
      nothing at all. */
  lemma ApplyRemoteIsSeekStep(c: Control, m: Relayed, path: string, v: VideoState, now: int, rewindOnHeartbeat: bool)
    ensures var r := ApplyRemote(c, m, path, v, now, rewindOnHeartbeat);
            && SeekStep(c, r, now)
            && ((r.suppressCount == c.suppressCount + 1 && r.suppressDeadlines == c.suppressDeadlines + [now + SuppressMs])
                || r == c)
  {
    if SameVideo(m.state, path) {
      var target := ResolveTargetTime(m.state, m.serverTime, m.sentAt, now);
      var diff := Abs(v.currentTime - target);
      var c1 := c.(suppressCount := c.suppressCount + 1, effects := c.effects + RatePrelude(m.state, v));
      assert SeekStep(c, c, now);
      PlainCallsKeepSeekStep(c, c, c1, RatePrelude(m.state, v), now);
      SeekCountAppend(c.effects, RatePrelude(m.state, v));
      SeekCountNoSeeks(RatePrelude(m.state, v));
      var c2 := ActOn(c1, m.action, m.state, v, target, diff, now, rewindOnHeartbeat);
      ActOnIsSeekStep(c1, m.action, m.state, v, target, diff, now, rewindOnHeartbeat);
      assert SeekCount(c1.effects) == SeekCount(c.effects);
      assert SeekStep(c1, c2, now);
      assert ApplyRemote(c, m, path, v, now, rewindOnHeartbeat) == c2.(suppressDeadlines := c2.suppressDeadlines + [now + SuppressMs]);
    }
  }

  /** Events applied at one instant (a queue flushed on attach) produce at
      most one corrective seek, and none while the cooldown is running. */
  lemma {:induction false} BurstCorrectsAtMostOnce(c: Control, q: seq<Relayed>, path: string, v: VideoState, now: int, rewindOnHeartbeat: bool)
    ensures var r := ApplyAll(c, q, path, v, now, rewindOnHeartbeat);
            && SeekStep(c, r, now)
            && (now - c.lastCorrectionAt < CooldownMs ==> SeekCount(r.effects) == SeekCount(c.effects))
  {
    if q != [] {
      var p := ApplyAll(c, q[..|q| - 1], path, v, now, rewindOnHeartbeat);
      BurstCorrectsAtMostOnce(c, q[..|q| - 1], path, v, now, rewindOnHeartbeat);
      ApplyRemoteIsSeekStep(p, q[|q| - 1], path, v, now, rewindOnHeartbeat);
    }
  }

  /** Applying events only appends player calls and suppression deadlines,
      and keeps exactly one pending release per suppression entry. */
  lemma {:induction false} ApplyAllKeepsSuppressionBalanced(c: Control, q: seq<Relayed>, path: string, v: VideoState, now: int, rewindOnHeartbeat: bool)
    requires c.suppressCount == |c.suppressDeadlines|
    ensures var r := ApplyAll(c, q, path, v, now, rewindOnHeartbeat);
            && r.suppressCount == |r.suppressDeadlines|
            && c.suppressDeadlines <= r.suppressDeadlines
            && c.effects <= r.effects
            && (forall i | |c.suppressDeadlines| <= i < |r.suppressDeadlines| :: r.suppressDeadlines[i] == now + SuppressMs)
  {
    if q != [] {
      var p := ApplyAll(c, q[..|q| - 1], path, v, now, rewindOnHeartbeat);
      ApplyAllKeepsSuppressionBalanced(c, q[..|q| - 1], path, v, now, rewindOnHeartbeat);
      ApplyRemoteIsSeekStep(p, q[|q| - 1], path, v, now, rewindOnHeartbeat);
    }
  }

  // ---------------------------------------------------------------------
  // Suppression release timers
  // ---------------------------------------------------------------------

  /** The release deadlines still in the future at `now`, in order. */
  function Pending(ds: seq<int>, now: int): (r: seq<int>)
    ensures |r| <= |ds|
    ensures forall x :: x in r <==> x in ds && x > now
    ensures r == [] <==> forall i | 0 <= i < |ds| :: ds[i] <= now
    ensures forall x :: multiset(r)[x] == if x > now then multiset(ds)[x] else 0
  {
    if ds == [] then []
    else
      var init := Pending(ds[..|ds| - 1], now);
      var last := ds[|ds| - 1];
      assert ds == ds[..|ds| - 1] + [last];
      if last > now then init + [last] else init
  }

  lemma PendingSnoc(ds: seq<int>, i: nat, now: int)
    requires i < |ds|
    ensures Pending(ds[..i + 1], now) == Pending(ds[..i], now) + (if ds[i] > now then [ds[i]] else [])
  {
    assert ds[..i + 1][..i] == ds[..i];
  }

  // ---------------------------------------------------------------------
  // Outbound events
  // ---------------------------------------------------------------------

  /** The page the agent runs on. */
  datatype Page = Page(path: string, href: string, title: string)

  /** The `state` object the agent sends about its own player. */
  function CollectState(page: Page, v: VideoState): (r: PlaybackState)
    ensures r.videoId == VideoIdOf(page.path) && r.currentTime == Some(v.currentTime)
    ensures r.playbackRate != 0.0
    ensures r.paused == v.paused
    ensures r.url == page.href && r.duration == v.duration && r.title == page.title
    ensures v.playbackRate != 0.0 ==> r.playbackRate == v.playbackRate
    ensures v.playbackRate == 0.0 ==> r.playbackRate == 1.0
  {
    PlaybackState(VideoIdOf(page.path), page.href, Some(v.currentTime), v.paused,
                  if v.playbackRate != 0.0 then v.playbackRate else 1.0, v.duration, page.title)
  }

  /** An outbound event frame; heartbeats travel as type `heartbeat`. */
  function EventFrame(action: string, st: PlaybackState, now: int): Frame {
    Frame(if action == "heartbeat" then "heartbeat" else "event", "", "", "", action, st, Some(now))
  }

  /** The outbound half of the agent's state: the two throttle clocks and the
      frames written to the socket so far. */
  datatype Outbound = Outbound(lastSeekSentAt: int, lastHeartbeatSentAt: int, sent: seq<Frame>)

  /** A seek within 100 ms of the last one, or a heartbeat within half the
      heartbeat period of the last one, is dropped. */
  predicate Throttled(action: string, now: int, o: Outbound): (t: bool)
    ensures action != "seek" && action != "heartbeat" ==> !t
    ensures action == "seek" ==> (t <==> now - o.lastSeekSentAt < 100)
    ensures action == "heartbeat" ==> (t <==> now - o.lastHeartbeatSentAt < 2000)
  {
    || (action == "seek" && now - o.lastSeekSentAt < SeekSendGapMs)
    || (action == "heartbeat" && now - o.lastHeartbeatSentAt < HeartbeatMs / 2)
  }

  /** `sendEvent`: nothing without an open socket and a video, nothing when
      throttled; otherwise one frame, and only the sent kind's clock moves. */
  function SendStep(o: Outbound, ready: bool, action: string, st: PlaybackState, now: int): (r: Outbound)
    ensures |o.sent| <= |r.sent| <= |o.sent| + 1 && r.sent[..|o.sent|] == o.sent
    ensures |r.sent| == |o.sent| + 1 <==> ready && !Throttled(action, now, o)
    ensures |r.sent| == |o.sent| + 1 ==> r.sent[|o.sent|] == EventFrame(action, st, now)
    ensures r.lastSeekSentAt == (if |r.sent| > |o.sent| && action == "seek" then now else o.lastSeekSentAt)
    ensures r.lastHeartbeatSentAt == (if |r.sent| > |o.sent| && action == "heartbeat" then now else o.lastHeartbeatSentAt)
  {
    if !ready || Throttled(action, now, o) then o
    else Outbound(if action == "seek" then now else o.lastSeekSentAt,
                  if action == "heartbeat" then now else o.lastHeartbeatSentAt,
                  o.sent + [EventFrame(action, st, now)])
  }

  /** Notifications from the local media element. */
  datatype LocalEvent = PlayEvent | PauseEvent | SeekedEvent | RateChangeEvent | TimeUpdateEvent

  /** The heartbeat timer after a local event: play starts it, pause stops
      it, muted or not. */
  function HeartbeatAfter(ev: LocalEvent, on: bool): (r: bool)
    ensures ev.PlayEvent? ==> r
    ensures ev.PauseEvent? ==> !r
    ensures !ev.PlayEvent? && !ev.PauseEvent? ==> r == on
  {
    match ev
    case PlayEvent => true
    case PauseEvent => false
    case _ => on
  }

  /** The action an unmuted local event announces; progress ticks announce
      a heartbeat only while the video plays. */
  function OutboundAction(ev: LocalEvent, paused: bool): (r: Option<string>)
    ensures r.None? <==> ev.TimeUpdateEvent? && paused
    ensures ev.PlayEvent? ==> r == Some("play")
    ensures ev.PauseEvent? ==> r == Some("pause")
    ensures ev.SeekedEvent? ==> r == Some("seek")
    ensures ev.RateChangeEvent? ==> r == Some("ratechange")
    ensures ev.TimeUpdateEvent? && !paused ==> r == Some("heartbeat")
  {
    match ev
    case PlayEvent => Some("play")
    case PauseEvent => Some("pause")
    case SeekedEvent => Some("seek")
    case RateChangeEvent => Some("ratechange")
    case TimeUpdateEvent => if paused then None else Some("heartbeat")
  }

  /** Two seeks less than 100 ms apart put at most one frame on the wire. */
  lemma SeekBurstSendsOnce(o: Outbound, ready: bool, s1: PlaybackState, t1: int, s2: PlaybackState, t2: int)
    requires t1 <= t2 < t1 + SeekSendGapMs
    ensures |SendStep(SendStep(o, ready, "seek", s1, t1), ready, "seek", s2, t2).sent| <= |o.sent| + 1
  {
  }

  /** Two heartbeats less than 2000 ms apart put at most one frame on the wire. */
  lemma HeartbeatBurstSendsOnce(o: Outbound, ready: bool, s1: PlaybackState, t1: int, s2: PlaybackState, t2: int)
    requires t1 <= t2 < t1 + HeartbeatMs / 2
    ensures |SendStep(SendStep(o, ready, "heartbeat", s1, t1), ready, "heartbeat", s2, t2).sent| <= |o.sent| + 1
  {
  }
}
