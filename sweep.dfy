/**
 * The decisions behind ThermalUtils.onSleepChange, on values: which active
 * media session, if any, keeps a flagged package alive when the screen goes
 * off, how the stop set splits into packages stopped at once and packages
 * given a watcher, and what a watcher does when the playback state changes.
 */
module Sweep {
  import opened Wrappers

  /** android.media.session.PlaybackState.STATE_STOPPED. */
  const STATE_STOPPED := 1
  /** android.media.session.PlaybackState.STATE_PAUSED. */
  const STATE_PAUSED := 2

  /** android.content.Intent.ACTION_SCREEN_ON. */
  const ACTION_SCREEN_ON := "android.intent.action.SCREEN_ON"
  /** android.content.Intent.ACTION_SCREEN_OFF. */
  const ACTION_SCREEN_OFF := "android.intent.action.SCREEN_OFF"

  /**
   * An active media session as the sweep sees it: its controller (an
   * identity), the package it belongs to and its current playback state.
   */
  datatype MediaSession = MediaSession(controller: nat, packageName: string, state: int)

  /** A playback state that is neither paused nor stopped. */
  predicate KeepsPlaying(state: int) {
    state != STATE_PAUSED && state != STATE_STOPPED
  }

  /** The session belongs to `pkg` and is still playing: it spares `pkg` from the sweep. */
  predicate Spares(pkg: string, session: MediaSession) {
    pkg == session.packageName && KeepsPlaying(session.state)
  }

  /**
   * The index of the first session that spares `pkg`: the session the sweep
   * registers its watcher on before it breaks out of the session loop.
   */
  function FirstSparingSession(pkg: string, sessions: seq<MediaSession>): Option<nat> {
    if sessions == [] then None
    else if Spares(pkg, sessions[0]) then Some(0)
    else match FirstSparingSession(pkg, sessions[1..])
      case None => None
      case Some(i) => Some(i + 1)
  }

  /**
   * The index found is that of a session sparing `pkg` with none before it,
   * and nothing is found exactly when no session spares `pkg`.
   */
  lemma {:induction false} FirstSparingSessionIsFirst(pkg: string, sessions: seq<MediaSession>)
    ensures var r := FirstSparingSession(pkg, sessions);
      && (r.Some? ==>
            && r.value < |sessions|
            && Spares(pkg, sessions[r.value])
            && forall j :: 0 <= j < r.value ==> !Spares(pkg, sessions[j]))
      && (r.None? <==> forall j :: 0 <= j < |sessions| ==> !Spares(pkg, sessions[j]))
    decreases |sessions|
  {
    if sessions != [] && !Spares(pkg, sessions[0]) {
      FirstSparingSessionIsFirst(pkg, sessions[1..]);
      assert forall j :: 1 <= j < |sessions| ==> sessions[j] == sessions[1..][j - 1];
    }
  }

  /** The flagged packages the sweep force-stops at once. */
  function StoppedNow(flagged: set<string>, sessions: seq<MediaSession>): set<string> {
    set p | p in flagged && FirstSparingSession(p, sessions).None?
  }

  /** The flagged packages the sweep leaves running under a watcher. */
  function Watched(flagged: set<string>, sessions: seq<MediaSession>): set<string> {
    set p | p in flagged && FirstSparingSession(p, sessions).Some?
  }

  /** Every flagged package is either stopped at once or watched, never both. */
  lemma SweepPartitionsStopSet(flagged: set<string>, sessions: seq<MediaSession>)
    ensures StoppedNow(flagged, sessions) + Watched(flagged, sessions) == flagged
    ensures StoppedNow(flagged, sessions) * Watched(flagged, sessions) == {}
  {
  }

  /** A package is stopped at once exactly when none of its sessions is still playing. */
  lemma StoppedNowIff(flagged: set<string>, sessions: seq<MediaSession>, p: string)
    ensures p in StoppedNow(flagged, sessions) <==>
      p in flagged && forall j :: 0 <= j < |sessions| ==> !Spares(p, sessions[j])
  {
    FirstSparingSessionIsFirst(p, sessions);
  }

  /** Taking one more package into the sweep adds it to exactly one of the two groups. */
  lemma SweepStep(done: set<string>, pkg: string, sessions: seq<MediaSession>)
    requires pkg !in done
    ensures FirstSparingSession(pkg, sessions).None? ==>
      && multiset(StoppedNow(done + {pkg}, sessions)) == multiset(StoppedNow(done, sessions)) + multiset{pkg}
      && Watched(done + {pkg}, sessions) == Watched(done, sessions)
    ensures FirstSparingSession(pkg, sessions).Some? ==>
      && StoppedNow(done + {pkg}, sessions) == StoppedNow(done, sessions)
      && Watched(done + {pkg}, sessions) == Watched(done, sessions) + {pkg}
  {
    if FirstSparingSession(pkg, sessions).None? {
      assert StoppedNow(done + {pkg}, sessions) == StoppedNow(done, sessions) + {pkg};
    }
  }

  /** Moving one package from the packages still to sweep to those swept keeps them a partition. */
  lemma SweepProgress(flagged: set<string>, remaining: set<string>, done: set<string>, pkg: string)
    requires remaining + done == flagged && remaining * done == {} && pkg in remaining
    ensures pkg !in done
    ensures (remaining - {pkg}) + (done + {pkg}) == flagged
    ensures (remaining - {pkg}) * (done + {pkg}) == {}
  {
    assert pkg !in remaining * done;
  }

  /** `stopped` lists each of the stopped-now packages among `done` exactly once. */
  predicate StopsEachOnce(stopped: seq<string>, done: set<string>, sessions: seq<MediaSession>) {
    multiset(stopped) == multiset(StoppedNow(done, sessions))
  }

  /** Sweeping one more package keeps the list of stops exact. */
  lemma StoppedStep(stopped: seq<string>, done: set<string>, pkg: string, sessions: seq<MediaSession>)
    requires pkg !in done
    requires StopsEachOnce(stopped, done, sessions)
    ensures FirstSparingSession(pkg, sessions).None? ==> StopsEachOnce(stopped + [pkg], done + {pkg}, sessions)
    ensures FirstSparingSession(pkg, sessions).Some? ==> StopsEachOnce(stopped, done + {pkg}, sessions)
  {
    SweepStep(done, pkg, sessions);
  }

  /** A flagged package with one session still playing is watched, and nothing is stopped at once. */
  lemma OnePlayingSession(p: string, state: int)
    requires KeepsPlaying(state)
    ensures Watched({p}, [MediaSession(0, p, state)]) == {p}
    ensures StoppedNow({p}, [MediaSession(0, p, state)]) == {}
  {
    assert Spares(p, [MediaSession(0, p, state)][0]);
  }

  /** With nothing to stop at once, the sweep stops nothing. */
  lemma NothingStopped(stopped: seq<string>, done: set<string>, sessions: seq<MediaSession>)
    requires StopsEachOnce(stopped, done, sessions)
    requires StoppedNow(done, sessions) == {}
    ensures stopped == []
  {
    assert |multiset(stopped)| == 0;
  }

  /** What a watcher does when its session reports a new playback state. */
  datatype Reaction =
    | Cancel        // the screen is on: unregister, leave the package running
    | StopPackage   // paused or stopped with the screen off: unregister and force-stop
    | KeepWatching  // still playing: stay registered, do nothing

  /**
   * The watcher's decision, from the power action recorded last (not
   * whether the screen came on since registration) and the new state.
   */
  function WatcherReaction(currentPower: string, playState: int): (r: Reaction)
    ensures r == Cancel <==> currentPower == ACTION_SCREEN_ON
    ensures r == StopPackage <==> currentPower != ACTION_SCREEN_ON && !KeepsPlaying(playState)
    ensures r == KeepWatching <==> currentPower != ACTION_SCREEN_ON && KeepsPlaying(playState)
  {
    if currentPower == ACTION_SCREEN_ON then Cancel
    else if playState == STATE_PAUSED || playState == STATE_STOPPED then StopPackage
    else KeepWatching
  }
}
