/**
  The playback flags of both desktop applications as sequential
  transitions. raio.py keeps `is_playing` and `stop_requested`;
  audio_analyzer.py keeps only `is_playing`. The playing thread, the mixer
  and the polling loop are abstracted away: a thread's end is the
  `Finished` transition its `finally` block performs.
 */
module Playback {

  datatype PlayState = PlayState(isPlaying: bool, stopRequested: bool)

  const Idle: PlayState := PlayState(false, false)

  /** `start_playback`: nothing without audio or while playing; otherwise
      playing, with no stop requested. */
  function Start(hasAudio: bool, st: PlayState): PlayState
  {
    if !hasAudio || st.isPlaying then st else PlayState(true, false)
  }

  /** `stop_playback`: only while playing, asks the thread to stop and
      clears the flag. */
  function Stop(st: PlayState): PlayState
  {
    if st.isPlaying then PlayState(false, true) else st
  }

  /** The `finally` block of `play_audio`. */
  function Finished(st: PlayState): PlayState
  {
    st.(isPlaying := false)
  }

  /** `toggle_playback`. */
  function Toggle(hasAudio: bool, st: PlayState): PlayState
  {
    if st.isPlaying then Stop(st) else Start(hasAudio, st)
  }

  /** `play_segment`: with audio, the current playback is stopped first;
      the segment then plays without touching the flags. */
  function PlaySegment(hasAudio: bool, st: PlayState): PlayState
  {
    if hasAudio then Stop(st) else st
  }

  /** Starting changes the state exactly when there is audio and nothing is
      playing, and then playback is on with no pending stop request. */
  lemma StartMeaning(hasAudio: bool, st: PlayState)
    ensures Start(hasAudio, st) != st <==> hasAudio && !st.isPlaying
    ensures hasAudio ==> Start(hasAudio, st).isPlaying
    ensures Start(hasAudio, st).isPlaying && !st.isPlaying ==> !Start(hasAudio, st).stopRequested
    ensures Start(hasAudio, Start(hasAudio, st)) == Start(hasAudio, st)
  {
  }

  /** After a stop nothing plays; a stop while idle changes nothing, and a
      second stop changes nothing either. */
  lemma StopMeaning(st: PlayState)
    ensures !Stop(st).isPlaying
    ensures Stop(st) == st <==> !st.isPlaying
    ensures st.isPlaying ==> Stop(st).stopRequested
    ensures Stop(Stop(st)) == Stop(st)
  {
  }

  /** The stop and the thread's `finally` may happen in either order: both
      leave playback off, the `finally` after a stop changes nothing, and a
      stop after the `finally` changes nothing. */
  lemma StopAndFinishCommute(st: PlayState)
    ensures Finished(Stop(st)) == Stop(st)
    ensures Stop(Finished(st)) == Finished(st)
    ensures !Finished(Stop(st)).isPlaying && !Stop(Finished(st)).isPlaying
    ensures Finished(Stop(st)).stopRequested == (st.isPlaying || st.stopRequested)
  {
  }

  /** With audio, toggling flips `is_playing`; toggling twice from idle plays
      and then stops with a stop request. Without audio, toggling can only
      stop. */
  lemma ToggleMeaning(hasAudio: bool, st: PlayState)
    ensures hasAudio ==> Toggle(hasAudio, st).isPlaying == !st.isPlaying
    ensures !hasAudio ==> !Toggle(hasAudio, st).isPlaying
    ensures !hasAudio && !st.isPlaying ==> Toggle(hasAudio, st) == st
    ensures hasAudio && !st.isPlaying ==> Toggle(hasAudio, Toggle(hasAudio, st)) == PlayState(false, true)
  {
  }

  /** Playing a segment always leaves `is_playing` off when there is audio. */
  lemma PlaySegmentStops(hasAudio: bool, st: PlayState)
    ensures hasAudio ==> !PlaySegment(hasAudio, st).isPlaying
    ensures !st.isPlaying ==> PlaySegment(hasAudio, st) == st
  {
  }

  // ---------------------------------------------------------------------
  // audio_analyzer.py

  /** `toggle_play`: nothing without audio; otherwise the flag flips (a
      thread is started when it turns on). */
  function TogglePlay(hasAudio: bool, isPlaying: bool): bool
  {
    if !hasAudio then isPlaying else !isPlaying
  }

  lemma TogglePlayMeaning(hasAudio: bool, isPlaying: bool)
    ensures hasAudio ==> TogglePlay(hasAudio, isPlaying) != isPlaying
    ensures !hasAudio ==> TogglePlay(hasAudio, isPlaying) == isPlaying
    ensures TogglePlay(hasAudio, TogglePlay(hasAudio, isPlaying)) == isPlaying
  {
  }
}
