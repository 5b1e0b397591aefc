/** The player screen as a state machine: at most one decoder, a current file
    path, and the seek-bar poll ticks queued on the UI handler. The platform
    decoder is reduced to an abstract record; picker results, decoder
    callbacks and handler ticks arrive as events. */
module Session {
  import opened JavaInt
  import opened Wrappers
  import Transport

  /** Request code the file picker is started with. */
  const FileSelectCode: int := 1
  /** The platform's `Activity.RESULT_OK`. */
  const ResultOk: int := -1
  /** What a decoder reports as its duration before it is prepared. */
  const UnknownDuration: Int32 := -1

  /** A live decoder instance. `id` tells instances apart, so that a decoder
      that was never released can be seen. `preparing` is true between a
      successful `prepareAsync` request and its readiness callback. */
  datatype Player = Player(
    id: nat,
    source: string,
    display: bool,
    preparing: bool,
    playing: bool,
    position: Int32,
    duration: Int32)

  /** The screen's fields: the current decoder (null when released), the last
      resolved path, the number of poll-tick messages queued on the handler,
      the ids of decoders constructed and not yet released, and the id the
      next decoder gets. */
  datatype Screen = Screen(
    player: Option<Player>,
    currentPath: Option<string>,
    pendingTicks: nat,
    live: set<nat>,
    nextId: nat)

  datatype Event =
    | ActivityResult(requestCode: int, resultCode: int, hasData: bool, resolved: Option<string>, loadFails: bool)
    | Prepared(duration: Int32)
    | Completed
    | TogglePlayPause
    | SeekRelative(delta: Int32)
    | PollTick
    | Destroy

  const Initial: Screen := Screen(None, None, 0, {}, 0)

  /** The screen invariant: the only unreleased decoder is the current one,
      and no poll tick is queued while there is no decoder, so a late tick
      never reaches a released decoder. */
  ghost predicate Inv(s: Screen) {
    && s.live == (if s.player.Some? then {s.player.value.id} else {})
    && (s.player.Some? ==> s.player.value.id < s.nextId && s.player.value.position >= 0)
    && (s.player.None? ==> s.pendingTicks == 0)
  }

  /** releaseMediaPlayer: release the decoder, drop the field and remove the
      queued poll ticks, all only when there is a decoder. */
  function Release(s: Screen): (r: Screen)
    ensures r.player.None?
    ensures s.player.Some? ==> r.pendingTicks == 0 && r.live == s.live - {s.player.value.id}
    ensures s.player.None? ==> r == s
    ensures Inv(s) ==> Inv(r) && r.live == {}
  {
    match s.player
    case None => s
    case Some(p) => s.(player := None, live := s.live - {p.id}, pendingTicks := 0)
  }

  /** playMedia: release any decoder, construct a new one and give it the
      path; if that throws an I/O error the new, unprepared decoder stays in
      the field. Otherwise a display is attached for video paths and
      preparation is requested. */
  function PlayMedia(s: Screen, path: string, loadFails: bool): (r: Screen)
    ensures r.player.Some? && r.player.value.id == s.nextId && r.nextId == s.nextId + 1
    ensures r.player.value.source == path
    ensures r.player.value.display <==> !loadFails && Transport.IsVideoPath(path)
    ensures r.player.value.preparing <==> !loadFails
    ensures !r.player.value.playing
    ensures Inv(s) && s.player.Some? ==> s.player.value.id !in r.live
    ensures r.player.value.position == 0 && r.player.value.duration == UnknownDuration
    ensures Inv(s) ==> Inv(r) && r.live == {s.nextId} && r.pendingTicks == 0
    ensures r.currentPath == s.currentPath
  {
    var released := Release(s);
    var p := Player(
      id := s.nextId,
      source := path,
      display := !loadFails && Transport.IsVideoPath(path),
      preparing := !loadFails,
      playing := false,
      position := 0,
      duration := UnknownDuration);
    released.(player := Some(p), live := released.live + {p.id}, nextId := s.nextId + 1)
  }

  /** onActivityResult: only a picker result with the right request code, an
      OK result and data is acted on; the resolved path is stored even when
      it is null, and playback starts only for a non-null path. */
  function OnActivityResult(s: Screen, requestCode: int, resultCode: int, hasData: bool,
                            resolved: Option<string>, loadFails: bool): (r: Screen)
    ensures !(requestCode == FileSelectCode && resultCode == ResultOk && hasData) ==> r == s
    ensures requestCode == FileSelectCode && resultCode == ResultOk && hasData ==> r.currentPath == resolved
    ensures r.nextId != s.nextId <==>
      requestCode == FileSelectCode && resultCode == ResultOk && hasData && resolved.Some?
    ensures r.nextId != s.nextId ==> r.player.Some? && r.player.value.source == resolved.value
    ensures resolved.None? ==> r.player == s.player
  {
    if requestCode == FileSelectCode && resultCode == ResultOk && hasData then
      var s1 := s.(currentPath := resolved);
      if resolved.Some? then PlayMedia(s1, resolved.value, loadFails) else s1
    else s
  }

  /** setupSeekBar, as far as state goes: with a decoder, queue one poll tick. */
  function ArmPolling(s: Screen): Screen {
    if s.player.Some? then s.(pendingTicks := s.pendingTicks + 1) else s
  }

  /** The prepared callback of the current decoder: start it and arm polling. */
  function OnPrepared(s: Screen, duration: Int32): (r: Screen)
    ensures s.player.None? || !s.player.value.preparing ==> r == s
    ensures s.player.Some? && s.player.value.preparing ==>
      && r.player.Some? && r.player.value.playing && !r.player.value.preparing
      && r.player.value == s.player.value.(preparing := false, playing := true, duration := duration)
      && r.pendingTicks == s.pendingTicks + 1
      && r.live == s.live
    ensures r.currentPath == s.currentPath && r.nextId == s.nextId
  {
    match s.player
    case None => s
    case Some(p) =>
      if p.preparing then
        ArmPolling(s.(player := Some(p.(preparing := false, playing := true, duration := duration))))
      else s
  }

  /** End of media: the decoder stops playing; the listener only updates the
      button and shows a message, so queued ticks stay queued. */
  function OnCompleted(s: Screen): (r: Screen)
    ensures r.pendingTicks == s.pendingTicks && r.live == s.live
    ensures r.player.Some? <==> s.player.Some?
    ensures s.player.Some? ==> r.player.value == s.player.value.(playing := false)
    ensures r.currentPath == s.currentPath && r.nextId == s.nextId
  {
    match s.player
    case None => s
    case Some(p) => s.(player := Some(p.(playing := false)))
  }

  /** togglePlayPause: pause a playing decoder; start a paused one and arm
      polling again; nothing without a decoder. */
  function Toggle(s: Screen): (r: Screen)
    ensures s.player.None? ==> r == s
    ensures s.player.Some? ==> r.player.Some? && r.player.value == s.player.value.(playing := !s.player.value.playing)
    ensures s.player.Some? && s.player.value.playing ==> r.pendingTicks == s.pendingTicks
    ensures s.player.Some? && !s.player.value.playing ==> r.pendingTicks == s.pendingTicks + 1
    ensures r.live == s.live && r.nextId == s.nextId && r.currentPath == s.currentPath
  {
    match s.player
    case None => s
    case Some(p) =>
      if p.playing then s.(player := Some(p.(playing := false)))
      else ArmPolling(s.(player := Some(p.(playing := true))))
  }

  /** seekRelative: seek the decoder to the clamped target; nothing without a
      decoder. */
  function Seek(s: Screen, delta: Int32): (r: Screen)
    ensures s.player.None? ==> r == s
    ensures s.player.Some? ==>
      && r.player.Some?
      && r.player.value == s.player.value.(position := r.player.value.position)
      && r.player.value.position == Transport.SeekTarget(s.player.value.position, s.player.value.duration, delta)
      && 0 <= r.player.value.position
      && (s.player.value.duration >= 0 ==> r.player.value.position <= s.player.value.duration)
    ensures r.pendingTicks == s.pendingTicks && r.live == s.live
    ensures r.currentPath == s.currentPath && r.nextId == s.nextId
  {
    match s.player
    case None => s
    case Some(p) =>
      s.(player := Some(p.(position := Transport.SeekTarget(p.position, p.duration, delta))))
  }

  /** One queued poll tick runs: it is consumed, and it queues itself again
      only while a decoder exists and is playing. */
  function Tick(s: Screen): (r: Screen)
    ensures s.pendingTicks == 0 ==> r == s
    ensures s.pendingTicks > 0 && s.player.Some? && s.player.value.playing ==> r.pendingTicks == s.pendingTicks
    ensures s.pendingTicks > 0 && !(s.player.Some? && s.player.value.playing) ==> r.pendingTicks == s.pendingTicks - 1
    ensures r.player == s.player && r.live == s.live
  {
    if s.pendingTicks == 0 then s
    else
      var s1 := s.(pendingTicks := s.pendingTicks - 1);
      if s.player.Some? && s.player.value.playing then s1.(pendingTicks := s1.pendingTicks + 1) else s1
  }

  /** onDestroy: release the decoder and then remove every queued message,
      whatever the state. */
  function OnDestroy(s: Screen): (r: Screen)
    ensures r.player.None? && r.pendingTicks == 0
    ensures Inv(s) ==> r.live == {}
  {
    Release(s).(pendingTicks := 0)
  }

  function Step(s: Screen, e: Event): Screen {
    match e
    case ActivityResult(code, result, hasData, resolved, loadFails) =>
      OnActivityResult(s, code, result, hasData, resolved, loadFails)
    case Prepared(duration) => OnPrepared(s, duration)
    case Completed => OnCompleted(s)
    case TogglePlayPause => Toggle(s)
    case SeekRelative(delta) => Seek(s, delta)
    case PollTick => Tick(s)
    case Destroy => OnDestroy(s)
  }

  function Run(s: Screen, events: seq<Event>): Screen
    decreases |events|
  {
    if events == [] then s else Run(Step(s, events[0]), events[1..])
  }

  /** Every event keeps the screen invariant. */
  lemma StepKeepsInv(s: Screen, e: Event)
    requires Inv(s)
    ensures Inv(Step(s, e))
  {
  }

  /** From the initial screen, after any sequence of picker results, decoder
      callbacks, button presses and poll ticks: at most one decoder is alive,
      it is the current one, and no tick is queued without one. */
  lemma {:induction false} RunKeepsInv(s: Screen, events: seq<Event>)
    requires Inv(s)
    ensures var r := Run(s, events);
      Inv(r) && |r.live| <= 1 && (r.player.None? ==> r.live == {} && r.pendingTicks == 0)
    decreases |events|
  {
    if events != [] {
      StepKeepsInv(s, events[0]);
      RunKeepsInv(Step(s, events[0]), events[1..]);
    }
  }

  /** Picking file B while file A's decoder is still preparing leaves only
      B's decoder alive. */
  lemma SwitchBeforeReady(s: Screen, pathA: string, pathB: string)
    requires Inv(s)
    ensures var a := PlayMedia(s, pathA, false);
      var b := Step(a, ActivityResult(FileSelectCode, ResultOk, true, Some(pathB), false));
      b.live == {b.player.value.id} && a.player.value.id !in b.live && b.player.value.source == pathB
  {
  }

  /** After teardown a tick that was queued before it does nothing: it finds
      no message to run. */
  lemma NoTickAfterDestroy(s: Screen)
    ensures Step(OnDestroy(s), PollTick) == OnDestroy(s)
  {
  }

  /** Pausing and resuming a playing decoder queues a second tick while the
      first is still queued; since each tick re-queues itself while playing,
      the two polling chains both keep running. */
  lemma PauseResumeAddsPollingChain(s: Screen)
    requires s.player.Some? && s.player.value.playing
    ensures var r := Toggle(Toggle(s));
      r.player == s.player && r.pendingTicks == s.pendingTicks + 1 && Tick(r).pendingTicks == r.pendingTicks
  {
  }
}
