/**
 * ThermalUtils and the objects it works on. The Android services it calls
 * are stood in for by small classes that record what was done to them:
 * the app's default SharedPreferences (the two keys ThermalUtils uses), the
 * static force-stop set shared by every instance, and the media-controller
 * and activity-manager side of the screen-off sweep (callbacks registered,
 * packages force-stopped). The sysfs write of a thermal code is returned
 * to the caller instead of performed.
 */
module Thermal {
  import opened Wrappers
  import opened JavaText
  import opened ProfileStore
  import opened ForceStop
  import opened Sweep

  const FORCESTOP_CONTROL := "forcestop_control"
  const THERMAL_CONTROL := "thermal_control"

  /** The two preferences ThermalUtils keeps; None is a key never written. */
  class SharedPreferences {
    /** The string under "thermal_control". */
    var thermalControl: Option<string>
    /** The string set under "forcestop_control". */
    var forceStopControl: Option<set<string>>

    constructor (thermalControl: Option<string>, forceStopControl: Option<set<string>>)
      ensures this.thermalControl == thermalControl && this.forceStopControl == forceStopControl
    {
      this.thermalControl := thermalControl;
      this.forceStopControl := forceStopControl;
    }
  }

  /** The static field sStopSet: one per process, None until the first instance loads it. */
  class StopSetHolder {
    var stopSet: Option<set<string>>

    constructor ()
      ensures stopSet == None
    {
      stopSet := None;
    }
  }

  /**
   * The system side of the sweep: the callbacks currently registered on media
   * controllers, and every package passed to ActivityManager.forceStopPackage,
   * in order.
   */
  class SystemServices {
    var registered: set<PlaybackCallback>
    var forceStopped: seq<string>

    constructor ()
      ensures registered == {} && forceStopped == []
    {
      registered := {};
      forceStopped := [];
    }

    /** MediaController.registerCallback. */
    method RegisterCallback(callback: PlaybackCallback)
      modifies this
      ensures registered == old(registered) + {callback} && forceStopped == old(forceStopped)
    {
      registered := registered + {callback};
    }

    /** MediaController.unregisterCallback. */
    method UnregisterCallback(callback: PlaybackCallback)
      modifies this
      ensures registered == old(registered) - {callback} && forceStopped == old(forceStopped)
    {
      registered := registered - {callback};
    }

    /** ActivityManager.forceStopPackage. */
    method ForceStopPackage(packageName: string)
      modifies this
      ensures forceStopped == old(forceStopped) + [packageName] && registered == old(registered)
    {
      forceStopped := forceStopped + [packageName];
    }
  }

  class ThermalUtils {
    const prefs: SharedPreferences
    const statics: StopSetHolder
    /** mCurrentPower: the action of the last screen broadcast, None before the first. */
    var currentPower: Option<string>

    /** Once an instance exists the static stop set is loaded. */
    predicate Valid()
      reads statics
    {
      statics.stopSet.Some?
    }

    /**
     * Loads the static stop set from "forcestop_control" (empty when the key
     * is missing), unless an earlier instance already did.
     */
    constructor (prefs: SharedPreferences, statics: StopSetHolder)
      modifies statics
      ensures this.prefs == prefs && this.statics == statics && currentPower == None
      ensures statics.stopSet ==
        if old(statics.stopSet).Some? then old(statics.stopSet) else Some(prefs.forceStopControl.GetOr({}))
      ensures Valid()
    {
      this.prefs := prefs;
      this.statics := statics;
      currentPower := None;
      new;
      if statics.stopSet.None? {
        var stringSet := prefs.forceStopControl;
        if stringSet.None? {
          statics.stopSet := Some({});
        } else {
          statics.stopSet := Some(stringSet.value);
        }
      }
    }

    // -------------------------------------------------------------------
    // The force-stop set

    /** Whether `packageName` is flagged to be stopped when the screen goes off. */
    function GetForceStopStateForPackage(packageName: string): (flagged: bool)
      reads statics
      ensures flagged ==> statics.stopSet.Some?
      ensures statics.stopSet.Some? ==> (flagged <==> packageName in statics.stopSet.value)
    {
      statics.stopSet != None && packageName in statics.stopSet.value
    }

    /**
     * Flags or unflags one package and persists the whole set: afterwards
     * the package's state is `enabled`, every other package keeps its state,
     * and the stored set equals the one in memory.
     */
    method WriteForceStopPackage(packageName: string, enabled: bool)
      requires Valid()
      modifies statics, prefs`forceStopControl
      ensures Valid()
      ensures statics.stopSet == Some(Toggled(old(statics.stopSet.value), packageName, enabled))
      ensures prefs.forceStopControl == statics.stopSet
      ensures GetForceStopStateForPackage(packageName) == enabled
      ensures forall q :: q != packageName ==>
        GetForceStopStateForPackage(q) == old(GetForceStopStateForPackage(q))
    {
      var stopSet := statics.stopSet.value;
      if enabled {
        stopSet := stopSet + {packageName};
      } else {
        stopSet := stopSet - {packageName};
      }
      statics.stopSet := Some(stopSet);
      prefs.forceStopControl := Some(stopSet);
    }

    /** Flags `pkg` when it is installed (getPackageInfo finds it); otherwise nothing happens. */
    method CheckFSPackage(installed: set<string>, pkg: string)
      requires Valid()
      modifies statics, prefs`forceStopControl
      ensures Valid()
      ensures pkg in installed ==>
        && statics.stopSet == Some(old(statics.stopSet.value) + {pkg})
        && prefs.forceStopControl == statics.stopSet
      ensures pkg !in installed ==>
        statics.stopSet == old(statics.stopSet) && prefs.forceStopControl == old(prefs.forceStopControl)
    {
      if pkg in installed {
        WriteForceStopPackage(pkg, true);
      }
    }

    /**
     * On first use (nothing persisted under "forcestop_control") flags those
     * of the three seed packages that are installed; once a set has been
     * persisted, changes nothing. The set stays unpersisted when none of the
     * seed packages is installed.
     */
    method InitialStopSet(installed: set<string>)
      requires Valid()
      modifies statics, prefs`forceStopControl
      ensures Valid()
      ensures old(prefs.forceStopControl).Some? ==>
        statics.stopSet == old(statics.stopSet) && prefs.forceStopControl == old(prefs.forceStopControl)
      ensures old(prefs.forceStopControl).None? ==>
        && statics.stopSet == Some(old(statics.stopSet.value) + Seeded(installed))
        && prefs.forceStopControl == if Seeded(installed) == {} then None else statics.stopSet
    {
      var stringSet := prefs.forceStopControl;
      if stringSet.None? {
        ghost var start := statics.stopSet.value;
        CheckFSPackage(installed, FORCESTOP_PACKAGE_BILIBILI);
        assert statics.stopSet.value == start + IfInstalled(installed, FORCESTOP_PACKAGE_BILIBILI);
        CheckFSPackage(installed, FORCESTOP_PACKAGE_BILIBILI_HD);
        assert statics.stopSet.value == start + IfInstalled(installed, FORCESTOP_PACKAGE_BILIBILI)
                                             + IfInstalled(installed, FORCESTOP_PACKAGE_BILIBILI_HD);
        CheckFSPackage(installed, FORCESTOP_PACKAGE_BILIBILI_IN);
        SeededOneByOne(installed);
        assert statics.stopSet.value == start + Seeded(installed);
      }
    }

    // -------------------------------------------------------------------
    // The thermal profile table

    /** Stores the profile table string under "thermal_control". */
    method WriteValue(profiles: string)
      modifies prefs`thermalControl
      ensures prefs.thermalControl == Some(profiles)
    {
      prefs.thermalControl := Some(profiles);
    }

    /**
     * The profile table string: the stored one when it is present, non-empty
     * and has at least five ':'-fields, otherwise the default, which is then
     * written back.
     */
    method GetValue() returns (value: string)
      modifies prefs`thermalControl
      ensures value == CheckedValue(old(prefs.thermalControl))
      ensures prefs.thermalControl ==
        if Accepted(old(prefs.thermalControl)) then old(prefs.thermalControl) else Some(DefaultValue())
    {
      var stored := prefs.thermalControl;
      if stored.Some? {
        var modes := Split(stored.value, ':');
        if |modes| < 5 {
          stored := None;
        }
      }
      if stored.None? || stored.value == [] {
        value := THERMAL_BENCHMARK + ":" + THERMAL_BROWSER + ":" + THERMAL_CAMERA + ":" +
                 THERMAL_DIALER + ":" + THERMAL_GAMING + ":" + THERMAL_STREAMING;
        WriteValue(value);
      } else {
        value := stored.value;
      }
    }

    /**
     * Moves `packageName` to the bucket of `mode` (1..6; any other mode only
     * removes it) and stores the first six fields. A value with fewer than
     * six fields after removal makes the source throw; the exception is
     * returned, and nothing beyond getValue's own write-back is stored.
     */
    method WritePackage(packageName: string, mode: int) returns (thrown: Option<Failure>)
      modifies prefs`thermalControl
      ensures var w := WritePackageValue(CheckedValue(old(prefs.thermalControl)), packageName, mode);
        && (w.Ok? ==> thrown == None && prefs.thermalControl == Some(w.value))
        && (w.Err? ==>
              && thrown == Some(w.error)
              && prefs.thermalControl ==
                   if Accepted(old(prefs.thermalControl)) then old(prefs.thermalControl) else Some(DefaultValue()))
    {
      var value := GetValue();
      value := RemoveAll(value, Key(packageName));
      var modes := Split(value, ':');
      var outcome := UpdateModes(modes, packageName, mode);
      if outcome.Err? {
        return Some(outcome.error);
      }
      WriteValue(outcome.value);
      return None;
    }

    /**
     * The switch and the final concatenation of writePackage, on the array
     * of split fields: the key is appended in place to element `mode - 1`,
     * then elements 0 to 5 are joined. An index past the end is returned as
     * the exception the source throws.
     */
    method UpdateModes(fields: seq<string>, packageName: string, mode: int) returns (outcome: Result<string, Failure>)
      ensures outcome == UpdateFields(fields, packageName, mode)
    {
      var modes := new string[|fields|](i requires 0 <= i < |fields| => fields[i]);
      assert modes[..] == fields;
      if STATE_BENCHMARK <= mode <= STATE_STREAMING {
        if modes.Length <= mode - 1 {
          return Err(IndexOutOfBounds(mode - 1));
        }
        modes[mode - 1] := modes[mode - 1] + packageName + ",";
        assert modes[..] == fields[mode - 1 := fields[mode - 1] + packageName + ","];
      }
      if modes.Length < 6 {
        return Err(IndexOutOfBounds(modes.Length));
      }
      var finalString := modes[0] + ":" + modes[1] + ":" + modes[2] + ":" + modes[3] + ":" +
                         modes[4] + ":" + modes[5];
      WritePackageJoin(fields, packageName, mode, modes[..]);
      return Ok(finalString);
    }

    /**
     * The profile state of `packageName`: the first bucket whose text
     * contains its key, or STATE_DEFAULT; getValue's write-back happens
     * first.
     */
    method GetStateForPackage(packageName: string) returns (state: Result<int, Failure>)
      modifies prefs`thermalControl
      ensures state == StateForModes(Split(CheckedValue(old(prefs.thermalControl)), ':'), packageName)
      ensures prefs.thermalControl ==
        if Accepted(old(prefs.thermalControl)) then old(prefs.thermalControl) else Some(DefaultValue())
    {
      var value := GetValue();
      var modes := Split(value, ':');
      state := StateForModes(modes, packageName);
    }

    /** The code setDefaultThermalProfile writes to the thermal control file. */
    method SetDefaultThermalProfile() returns (code: string)
      ensures code == THERMAL_STATE_DEFAULT && code == ThermalCode(STATE_DEFAULT)
    {
      code := THERMAL_STATE_DEFAULT;
    }

    /**
     * The code setThermalProfile writes to the thermal control file for
     * `packageName`: the code of the profile getStateForPackage reports.
     */
    method SetThermalProfile(packageName: string) returns (code: Result<string, Failure>)
      modifies prefs`thermalControl
      ensures var s := StateForModes(Split(CheckedValue(old(prefs.thermalControl)), ':'), packageName);
        && (s.Ok? ==> code == Ok(ThermalCode(s.value)))
        && (s.Err? ==> code == Err(s.error))
      ensures prefs.thermalControl ==
        if Accepted(old(prefs.thermalControl)) then old(prefs.thermalControl) else Some(DefaultValue())
    {
      var value := GetValue();
      var modes := Split(value, ':');
      code := ThermalCodeForModes(modes, packageName);
    }

    // -------------------------------------------------------------------
    // The screen-off sweep

    /**
     * `callback` is the watcher the sweep registers for `p`: on the first
     * session still playing for `p`, calling back into this instance.
     */
    predicate WatchesFirstSparing(callback: PlaybackCallback, p: string, sessions: seq<MediaSession>, services: SystemServices) {
      && FirstSparingSession(p, sessions).Some?
      && FirstSparingSession(p, sessions).value < |sessions|
      && callback.session == sessions[FirstSparingSession(p, sessions).value]
      && callback.pkg == p
      && callback.outer == this
      && callback.services == services
    }

    /**
     * Records the broadcast action; on SCREEN_OFF, goes through the stop
     * set: a package with a session still playing gets one watcher, on the
     * first such session, and every other package is force-stopped now.
     * `watchers` names the callback registered for each watched package.
     * The stop set is a hash set, so the order of the stops is not fixed;
     * each stopped package is stopped exactly once.
     */
    method OnSleepChange(action: string, sessions: seq<MediaSession>, services: SystemServices)
      returns (watchers: map<string, PlaybackCallback>)
      requires Valid()
      modifies this, services
      ensures Valid() && currentPower == Some(action)
      ensures action != ACTION_SCREEN_OFF ==>
        && watchers == map[]
        && services.registered == old(services.registered)
        && services.forceStopped == old(services.forceStopped)
      ensures action == ACTION_SCREEN_OFF ==>
        var flagged := statics.stopSet.value;
        && watchers.Keys == Watched(flagged, sessions)
        && services.registered == old(services.registered) + watchers.Values
        && |old(services.forceStopped)| <= |services.forceStopped|
        && services.forceStopped[..|old(services.forceStopped)|] == old(services.forceStopped)
        && StopsEachOnce(services.forceStopped[|old(services.forceStopped)|..], flagged, sessions)
      ensures fresh(watchers.Values) && AllWatchFirstSparing(watchers, sessions, services)
    {
      currentPower := Some(action);
      watchers := map[];
      if action == ACTION_SCREEN_OFF {
        watchers := SweepStopSet(statics.stopSet.value, sessions, services);
      }
    }

    /**
     * The loop over the stop set, taken in whatever order the hash set
     * yields: each package is handed to SweepPackage once.
     */
    method SweepStopSet(flagged: set<string>, sessions: seq<MediaSession>, services: SystemServices)
      returns (watchers: map<string, PlaybackCallback>)
      modifies services
      ensures watchers.Keys == Watched(flagged, sessions)
      ensures services.registered == old(services.registered) + watchers.Values
      ensures |old(services.forceStopped)| <= |services.forceStopped|
      ensures services.forceStopped[..|old(services.forceStopped)|] == old(services.forceStopped)
      ensures StopsEachOnce(services.forceStopped[|old(services.forceStopped)|..], flagged, sessions)
      ensures fresh(watchers.Values) && AllWatchFirstSparing(watchers, sessions, services)
    {
      watchers := map[];
      var remaining := flagged;
      ghost var done: set<string> := {};
      ghost var stopped: seq<string> := [];
      ghost var before := services.forceStopped;
      while remaining != {}
        invariant SweptSoFar(flagged, remaining, done, watchers, old(services.registered), services.registered,
                             stopped, sessions, services)
        invariant services.forceStopped == before + stopped
        invariant fresh(watchers.Values)
        decreases remaining
      {
        var pkg :| pkg in remaining;
        ghost var registered := services.registered;
        var watcher := SweepPackage(pkg, sessions, services);
        SweptOneMore(flagged, remaining, done, watchers, old(services.registered), registered, stopped,
                     sessions, services, pkg, watcher, services.registered);
        if watcher.Some? {
          watchers := watchers[pkg := watcher.value];
        } else {
          stopped := stopped + [pkg];
        }
        remaining := remaining - {pkg};
        done := done + {pkg};
      }
      SweptAll(flagged, done, watchers, old(services.registered), services.registered, stopped, sessions, services);
      assert services.forceStopped[|before|..] == stopped;
    }

    /** Every watcher in `watchers` is the one the sweep registers for its package. */
    predicate AllWatchFirstSparing(watchers: map<string, PlaybackCallback>, sessions: seq<MediaSession>, services: SystemServices) {
      forall p :: p in watchers ==> WatchesFirstSparing(watchers[p], p, sessions, services)
    }

    /**
     * The state of the sweep after the packages in `done`: `remaining` are
     * still to do, the watched ones among `done` have their watcher in
     * `watchers`, registered on top of `registered0`, and `stopped` lists the
     * others once each.
     */
    predicate SweptSoFar(flagged: set<string>, remaining: set<string>, done: set<string>,
                         watchers: map<string, PlaybackCallback>, registered0: set<PlaybackCallback>,
                         registered: set<PlaybackCallback>, stopped: seq<string>,
                         sessions: seq<MediaSession>, services: SystemServices) {
      && remaining + done == flagged && remaining * done == {}
      && watchers.Keys == Watched(done, sessions)
      && registered == registered0 + watchers.Values
      && StopsEachOnce(stopped, done, sessions)
      && AllWatchFirstSparing(watchers, sessions, services)
    }

    /** Sweeping one more package, with the outcome SweepPackage promises, keeps SweptSoFar. */
    lemma SweptOneMore(flagged: set<string>, remaining: set<string>, done: set<string>,
                       watchers: map<string, PlaybackCallback>, registered0: set<PlaybackCallback>,
                       registered: set<PlaybackCallback>, stopped: seq<string>,
                       sessions: seq<MediaSession>, services: SystemServices,
                       pkg: string, watcher: Option<PlaybackCallback>, registered': set<PlaybackCallback>)
      requires SweptSoFar(flagged, remaining, done, watchers, registered0, registered, stopped, sessions, services)
      requires pkg in remaining
      requires watcher.None? <==> FirstSparingSession(pkg, sessions).None?
      requires watcher.None? ==> registered' == registered
      requires watcher.Some? ==>
        WatchesFirstSparing(watcher.value, pkg, sessions, services) && registered' == registered + {watcher.value}
      ensures watcher.Some? ==> watchers[pkg := watcher.value].Values == watchers.Values + {watcher.value}
      ensures SweptSoFar(flagged, remaining - {pkg}, done + {pkg},
                         if watcher.Some? then watchers[pkg := watcher.value] else watchers,
                         registered0, registered',
                         if watcher.Some? then stopped else stopped + [pkg],
                         sessions, services)
    {
      SweepProgress(flagged, remaining, done, pkg);
      SweepStep(done, pkg, sessions);
      StoppedStep(stopped, done, pkg, sessions);
      if watcher.Some? {
        AddWatcher(watchers, pkg, watcher.value, sessions, services);
      }
    }

    /** Once nothing remains, every flagged package has been swept. */
    lemma SweptAll(flagged: set<string>, done: set<string>,
                   watchers: map<string, PlaybackCallback>, registered0: set<PlaybackCallback>,
                   registered: set<PlaybackCallback>, stopped: seq<string>,
                   sessions: seq<MediaSession>, services: SystemServices)
      requires SweptSoFar(flagged, {}, done, watchers, registered0, registered, stopped, sessions, services)
      ensures watchers.Keys == Watched(flagged, sessions)
      ensures registered == registered0 + watchers.Values
      ensures StopsEachOnce(stopped, flagged, sessions)
      ensures AllWatchFirstSparing(watchers, sessions, services)
    {
      assert {} + done == done;
    }

    /** Registering a watcher for a package not yet watched adds it to the keys and the values. */
    lemma AddWatcher(watchers: map<string, PlaybackCallback>, pkg: string, callback: PlaybackCallback,
                     sessions: seq<MediaSession>, services: SystemServices)
      requires pkg !in watchers
      requires AllWatchFirstSparing(watchers, sessions, services)
      requires WatchesFirstSparing(callback, pkg, sessions, services)
      ensures watchers[pkg := callback].Keys == watchers.Keys + {pkg}
      ensures watchers[pkg := callback].Values == watchers.Values + {callback}
      ensures AllWatchFirstSparing(watchers[pkg := callback], sessions, services)
    {
      var m := watchers[pkg := callback];
      forall v | v in watchers.Values
        ensures v in m.Values
      {
        var k :| k in watchers && watchers[k] == v;
        assert m[k] == v;
      }
      assert m[pkg] == callback;
    }

    /**
     * One package of the sweep: scans the sessions in order and, on the first
     * one still playing for `pkg`, registers a watcher and stops scanning;
     * when there is none, force-stops `pkg`.
     */
    method SweepPackage(pkg: string, sessions: seq<MediaSession>, services: SystemServices)
      returns (watcher: Option<PlaybackCallback>)
      modifies services
      ensures watcher.None? <==> FirstSparingSession(pkg, sessions).None?
      ensures watcher.None? ==>
        services.registered == old(services.registered) && services.forceStopped == old(services.forceStopped) + [pkg]
      ensures watcher.Some? ==>
        && fresh(watcher.value)
        && WatchesFirstSparing(watcher.value, pkg, sessions, services)
        && services.registered == old(services.registered) + {watcher.value}
        && services.forceStopped == old(services.forceStopped)
    {
      FirstSparingSessionIsFirst(pkg, sessions);
      var toBeStopped := true;
      watcher := None;
      var i := 0;
      while i < |sessions|
        invariant 0 <= i <= |sessions|
        invariant forall j :: 0 <= j < i ==> !Spares(pkg, sessions[j])
        invariant toBeStopped && watcher.None?
        invariant services.registered == old(services.registered) && services.forceStopped == old(services.forceStopped)
      {
        var controller := sessions[i];
        var state := controller.state;
        if pkg == controller.packageName && state != STATE_PAUSED && state != STATE_STOPPED {
          toBeStopped := false;
          var callback := new PlaybackCallback(this, controller, pkg, services);
          services.RegisterCallback(callback);
          watcher := Some(callback);
          break;
        }
        i := i + 1;
      }
      if toBeStopped {
        services.ForceStopPackage(pkg);
      }
    }
  }

  /**
   * The six fields writePackage concatenates, once the key has been appended
   * to field `mode - 1`, are the value UpdateFields gives.
   */
  lemma WritePackageJoin(fields: seq<string>, packageName: string, mode: int, modes: seq<string>)
    requires |fields| == |modes| >= 6
    requires STATE_BENCHMARK <= mode <= STATE_STREAMING ==>
      modes == fields[mode - 1 := fields[mode - 1] + packageName + ","]
    requires !(STATE_BENCHMARK <= mode <= STATE_STREAMING) ==> modes == fields
    ensures modes[0] + ":" + modes[1] + ":" + modes[2] + ":" + modes[3] + ":" + modes[4] + ":" + modes[5]
            == Join((if STATE_BENCHMARK <= mode <= STATE_STREAMING
                     then fields[mode - 1 := fields[mode - 1] + Key(packageName)] else fields)[..6], ':')
  {
    if STATE_BENCHMARK <= mode <= STATE_STREAMING {
      assert fields[mode - 1] + packageName + "," == fields[mode - 1] + Key(packageName);
    }
    JoinSix(modes[0], modes[1], modes[2], modes[3], modes[4], modes[5], ':');
    assert modes[..6] == [modes[0], modes[1], modes[2], modes[3], modes[4], modes[5]];
  }

  /**
   * A watcher registered during one screen-off, fired after the screen came
   * on and went off again, still force-stops its package: the callback
   * looks only at the action recorded last. Package `p` is flagged and has
   * one session still playing; over the three broadcasts nothing is stopped
   * until that first watcher sees playback pause.
   */
  method StaleWatcherStillStops(p: string) returns (stopped: seq<string>)
    ensures stopped == [p]
  {
    var prefs := new SharedPreferences(None, Some({p}));
    var statics := new StopSetHolder();
    var utils := new ThermalUtils(prefs, statics);
    var services := new SystemServices();
    var sessions := [MediaSession(0, p, 3)];

    var stale := ScreenOffWithOnePlaying(utils, p, sessions, services);
    var _ := utils.OnSleepChange(ACTION_SCREEN_ON, sessions, services);
    var _ := ScreenOffWithOnePlaying(utils, p, sessions, services);

    stale.OnPlaybackStateChanged(STATE_PAUSED);
    stopped := services.forceStopped;
  }

  /**
   * A screen-off broadcast when only `p` is flagged and its one session is
   * still playing: nothing is stopped, and the watcher returned belongs to
   * `utils` and watches `p`.
   */
  method ScreenOffWithOnePlaying(utils: ThermalUtils, p: string, sessions: seq<MediaSession>, services: SystemServices)
    returns (watcher: PlaybackCallback)
    requires utils.Valid() && utils.statics.stopSet == Some({p})
    requires sessions == [MediaSession(0, p, 3)] && services.forceStopped == []
    modifies utils, services
    ensures utils.Valid() && utils.statics.stopSet == Some({p})
    ensures utils.currentPower == Some(ACTION_SCREEN_OFF) && services.forceStopped == []
    ensures watcher.outer == utils && watcher.pkg == p && watcher.services == services
  {
    OnePlayingSession(p, 3);
    var watchers := utils.OnSleepChange(ACTION_SCREEN_OFF, sessions, services);
    watcher := watchers[p];
    NothingStopped(services.forceStopped[0..], {p}, sessions);
    assert services.forceStopped == services.forceStopped[0..];
  }

  /**
   * The anonymous MediaController.Callback the sweep registers for a package
   * that is still playing when the screen goes off.
   */
  class PlaybackCallback {
    const outer: ThermalUtils
    const session: MediaSession
    const pkg: string
    const services: SystemServices

    constructor (outer: ThermalUtils, session: MediaSession, pkg: string, services: SystemServices)
      ensures this.outer == outer && this.session == session && this.pkg == pkg && this.services == services
    {
      this.outer := outer;
      this.session := session;
      this.pkg := pkg;
      this.services := services;
    }

    /**
     * onPlaybackStateChanged: with the screen on (as last recorded), the
     * watcher unregisters and leaves the package alone; with the state
     * paused or stopped, it unregisters and force-stops the package;
     * otherwise it stays registered and does nothing.
     */
    method OnPlaybackStateChanged(playState: int)
      requires outer.currentPower.Some?
      modifies services
      ensures var reaction := WatcherReaction(outer.currentPower.value, playState);
        && (reaction == Cancel ==>
              services.registered == old(services.registered) - {this}
              && services.forceStopped == old(services.forceStopped))
        && (reaction == StopPackage ==>
              services.registered == old(services.registered) - {this}
              && services.forceStopped == old(services.forceStopped) + [pkg])
        && (reaction == KeepWatching ==>
              services.registered == old(services.registered)
              && services.forceStopped == old(services.forceStopped))
    {
      if outer.currentPower.value == ACTION_SCREEN_ON {
        services.UnregisterCallback(this);
        return;
      }
      if playState == STATE_PAUSED || playState == STATE_STOPPED {
        services.UnregisterCallback(this);
        services.ForceStopPackage(pkg);
      }
    }
  }
}
