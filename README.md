# Per-application thermal profiles and the screen-off force-stop sweep

This project models `ThermalUtils`, the helper behind the device's
per-application thermal profiles and its screen-off force-stop list. It has
two parts.

- **The profile table.** It is kept as a single string under the preference
  `thermal_control`. The string holds six buckets separated by `:`:
  benchmark, browser, camera, dialer, gaming and streaming. Each bucket is a
  fixed prefix such as `thermal.benchmark=` followed by package names, each
  name terminated by `,`. `getValue` validates the stored string, or writes
  the default back. `writePackage` moves a package into one bucket.
  `getStateForPackage` and `setThermalProfile` find the first bucket that
  lists a package. `setThermalProfile` also returns the code written to
  the kernel's thermal control file (`"10"`, `"11"`, … or `"0"`).
- **The force-stop set.** This is a static set of package names, persisted
  under `forcestop_control`. `writeForceStopPackage` toggles one name.
  `initialStopSet` seeds the set with the three bilibili packages when they
  are installed. When the screen goes off, `onSleepChange` goes through the
  set. A package with an active media session that is still playing gets a
  playback callback on the first such session. Every other package is
  force-stopped at once. The callback later force-stops the package when
  playback pauses or stops, unless the screen was last reported on.

Modules:

- `Wrappers` holds `Option` and `Result`.
- `JavaText` models the Java string operations the code relies on:
  `split(":")` with trailing empty fields dropped, `replace(t, "")`,
  `contains`, and the `":"` join. It proves that splitting undoes joining.
- `ProfileStore` holds the pure logic of the profile table. It gives the
  stored string a reading as a six-bucket table and proves write-then-read
  round trips against that reading.
- `ForceStop` holds the force-stop set on values.
- `Sweep` holds the decisions of the screen-off sweep and of its callback,
  on values.
- `Thermal` holds the classes. `ThermalUtils` has its preferences, its
  shared static set and `mCurrentPower`. `PlaybackCallback` is the
  anonymous callback. `SharedPreferences`, `StopSetHolder` and
  `SystemServices` are the Android objects it mutates: the registered
  callbacks and the packages force-stopped.

All source paths below are relative to the repository root. `TU` stands for
`parts/src/org/lineageos/settings/thermal/ThermalUtils.java`. The table
spells the path out in full.

## Model

| member | source | states |
|---|---|---|
| JavaText.Split | parts/src/org/lineageos/settings/thermal/ThermalUtils.java:126 | `value.split(":")`: no field contains `:`. A string without `:` comes back whole. Otherwise the result is a prefix of the raw fields, every field dropped from the end is empty, and the last field kept is non-empty. |
| JavaText.RawSplitJoin | parts/src/org/lineageos/settings/thermal/ThermalUtils.java:141 | Splitting a `:`-join of separator-free fields gives back exactly those fields. |
| JavaText.SplitJoin | parts/src/org/lineageos/settings/thermal/ThermalUtils.java:165-166 | The same holds for Java's `split` when the last field is non-empty. |
| JavaText.JoinRawSplit | parts/src/org/lineageos/settings/thermal/ThermalUtils.java:141 | Joining the raw fields of any string gives back that string. |
| JavaText.ContainsIffOccurs | parts/src/org/lineageos/settings/thermal/ThermalUtils.java:175 | `contains(t)` holds exactly when `t` occurs at some position. |
| JavaText.RemoveAllShrinks | parts/src/org/lineageos/settings/thermal/ThermalUtils.java:140 | `replace(t, "")` never makes the string longer, and leaves a string that does not contain `t` unchanged. |
| ProfileStore.CheckedValue | parts/src/org/lineageos/settings/thermal/ThermalUtils.java:122-136 | getValue returns the stored string exactly when it is present, non-empty and has at least five `:`-fields. Otherwise it returns the six-bucket default. The result always has at least five fields. |
| ProfileStore.DefaultIsEmptyTable | parts/src/org/lineageos/settings/thermal/ThermalUtils.java:131-132 | The default string is the text of the table with six empty buckets. |
| ProfileStore.WritePackageValue | parts/src/org/lineageos/settings/thermal/ThermalUtils.java:138-169 | writePackage succeeds exactly when the value after removal has at least six fields. Otherwise it reports the index the source's `ArrayIndexOutOfBoundsException` is raised at: `mode - 1` in the switch, or the first missing field of the final concatenation. |
| ProfileStore.UpdateFields | parts/src/org/lineageos/settings/thermal/ThermalUtils.java:144-166 | The switch and the concatenation on the split fields succeed exactly when there are at least six fields, and otherwise fail at the same index as the source. |
| ProfileStore.WritesSixFields | parts/src/org/lineageos/settings/thermal/ThermalUtils.java:144-166 | For a package name without `:`, a successful write stores exactly six fields: the first six fields after removal, with the key appended to field `mode - 1` only. |
| ProfileStore.StateForModes | parts/src/org/lineageos/settings/thermal/ThermalUtils.java:171-190 | The result is the first bucket, in order, whose text contains `packageName + ","`, with every earlier bucket not containing it. STATE_DEFAULT means six fields and no match. The out-of-bounds failure occurs exactly when there are fewer than six fields and none of them matches. |
| ProfileStore.ThermalCode | parts/src/org/lineageos/settings/thermal/ThermalUtils.java:61-67 | Each profile state maps to its thermal code. The code is `"0"` exactly for a state outside 1..6. |
| ProfileStore.ThermalCodeInjective | parts/src/org/lineageos/settings/thermal/ThermalUtils.java:61-67 | Distinct profile states give distinct codes. |
| ProfileStore.ThermalCodeForModes | parts/src/org/lineageos/settings/thermal/ThermalUtils.java:196-219 | setThermalProfile's own lookup chain always gives the code of the state getStateForPackage reports, and fails with the same exception where that one fails. |
| ProfileStore.Without | parts/src/org/lineageos/settings/thermal/ThermalUtils.java:140 | Removing a package from a bucket keeps exactly the other names. |
| ProfileStore.Assign | parts/src/org/lineageos/settings/thermal/ThermalUtils.java:138-169 | The intended table after writePackage: the package appears in bucket `mode - 1` only, and every other name stays in the bucket it was in. |
| ProfileStore.SplitSerialized | parts/src/org/lineageos/settings/thermal/ThermalUtils.java:126 | Splitting the text of a well-formed table gives its six fields. |
| ProfileStore.RemoveFromFields | parts/src/org/lineageos/settings/thermal/ThermalUtils.java:140 | On the text of a well-formed table, removing `p + ","` is the same as removing `p` from every bucket. |
| ProfileStore.WritePackageOnTable | parts/src/org/lineageos/settings/thermal/ThermalUtils.java:138-169 | On the text of a well-formed table, writePackage succeeds and stores the text of `Assign(table, p, mode)`. |
| ProfileStore.FieldLacksKey | parts/src/org/lineageos/settings/thermal/ThermalUtils.java:175 | A bucket that does not list `p` does not contain `p + ","`, provided no other stored name in it ends with `p`. |
| ProfileStore.StateForUniqueMatch | parts/src/org/lineageos/settings/thermal/ThermalUtils.java:171-190 | When exactly field `mode - 1` of six contains the key, getStateForPackage reports `mode`. With no match it reports STATE_DEFAULT. |
| ProfileStore.AssignedBucketHasKey | parts/src/org/lineageos/settings/thermal/ThermalUtils.java:175-186 | After the write, bucket `k` contains `p + ","` exactly when `k == mode - 1`. |
| ProfileStore.SerializedIsAccepted | parts/src/org/lineageos/settings/thermal/ThermalUtils.java:125-128 | getValue accepts the text of a well-formed table unchanged. |
| ProfileStore.ReadAfterWrite | parts/src/org/lineageos/settings/thermal/ThermalUtils.java:138-190 | After writePackage(p, mode) on a well-formed table, getValue accepts what was written, and getStateForPackage(p) returns `mode` (STATE_DEFAULT for a mode outside 1..6). |
| ProfileStore.RoundTrip | parts/src/org/lineageos/settings/thermal/ThermalUtils.java:122-190 | The same round trip, starting from any stored preference that getValue reads as a well-formed table. |
| ProfileStore.RoundTripFromEmptyStore | parts/src/org/lineageos/settings/thermal/ThermalUtils.java:122-190 | The same round trip, starting from a missing preference. |
| ProfileStore.FiveFieldsPassValidationButBreakWrite | parts/src/org/lineageos/settings/thermal/ThermalUtils.java:127 | getValue accepts the five-field value `"a:b:c:d:e"`, and writePackage on it then fails at index 5, for every mode. |
| ProfileStore.FiveAfterRemovalFails | parts/src/org/lineageos/settings/thermal/ThermalUtils.java:144-166 | Any value left with five fields after removal makes writePackage fail at index 5, for every mode. |
| ForceStop.Toggled | parts/src/org/lineageos/settings/thermal/ThermalUtils.java:221-222 | After the toggle, the package is in the set exactly when `enabled`, and every other package keeps its membership. |
| ForceStop.ToggledIdempotent | parts/src/org/lineageos/settings/thermal/ThermalUtils.java:221-222 | Repeating a toggle changes nothing. |
| ForceStop.ToggledNoOp | parts/src/org/lineageos/settings/thermal/ThermalUtils.java:221-222 | Flagging a flagged package, or unflagging an unflagged one, leaves the set as it was. |
| ForceStop.Seeded | parts/src/org/lineageos/settings/thermal/ThermalUtils.java:47-49 | The seeded packages are exactly the installed ones among the three bilibili packages. |
| ForceStop.SeededOneByOne | parts/src/org/lineageos/settings/thermal/ThermalUtils.java:97-99 | Checking the three packages one after another adds exactly the seeded set. |
| Sweep.FirstSparingSessionIsFirst | parts/src/org/lineageos/settings/thermal/ThermalUtils.java:238-266 | The session the watcher goes on is one still playing for the package, with none before it. There is no such session exactly when no session of the package is still playing. |
| Sweep.SweepPartitionsStopSet | parts/src/org/lineageos/settings/thermal/ThermalUtils.java:235-273 | Every flagged package is either stopped at once or watched, never both. |
| Sweep.StoppedNowIff | parts/src/org/lineageos/settings/thermal/ThermalUtils.java:236-272 | A flagged package is stopped at once exactly when none of its sessions is still playing. |
| Sweep.SweepStep | parts/src/org/lineageos/settings/thermal/ThermalUtils.java:235-273 | Sweeping one more package adds it to exactly one of the two groups. |
| Sweep.StoppedStep | parts/src/org/lineageos/settings/thermal/ThermalUtils.java:269-272 | Each package the sweep stops at once is stopped exactly once. |
| Sweep.WatcherReaction | parts/src/org/lineageos/settings/thermal/ThermalUtils.java:246-261 | The callback cancels exactly when the last screen action was SCREEN_ON. It stops the package exactly when the screen was not last reported on and the state is paused or stopped. It keeps watching otherwise. |
| Sweep.OnePlayingSession | parts/src/org/lineageos/settings/thermal/ThermalUtils.java:238-243 | A flagged package with one session still playing is watched, and nothing is stopped at once. |
| Sweep.NothingStopped | parts/src/org/lineageos/settings/thermal/ThermalUtils.java:269-272 | When no flagged package lacks a playing session, the sweep force-stops nothing. |
| Thermal.ThermalUtils.constructor | parts/src/org/lineageos/settings/thermal/ThermalUtils.java:80-88 | The first instance loads the static set from `forcestop_control`, or starts it empty when nothing is stored. Later instances leave it alone. |
| Thermal.ThermalUtils.GetForceStopStateForPackage | parts/src/org/lineageos/settings/thermal/ThermalUtils.java:226-228 | True exactly when the set is loaded and lists the package. |
| Thermal.ThermalUtils.WriteForceStopPackage | parts/src/org/lineageos/settings/thermal/ThermalUtils.java:221-224 | The set becomes the toggled set and is persisted as is. The package's state becomes `enabled`, and every other package's state is unchanged. |
| Thermal.ThermalUtils.CheckFSPackage | parts/src/org/lineageos/settings/thermal/ThermalUtils.java:103-109 | An installed package is flagged and the set persisted. Otherwise nothing changes. |
| Thermal.ThermalUtils.InitialStopSet | parts/src/org/lineageos/settings/thermal/ThermalUtils.java:91-101 | With nothing persisted, the installed seed packages are added. With a set persisted, nothing changes. |
| Thermal.ThermalUtils.WriteValue | parts/src/org/lineageos/settings/thermal/ThermalUtils.java:118-120 | The string is stored under `thermal_control`. |
| Thermal.ThermalUtils.GetValue | parts/src/org/lineageos/settings/thermal/ThermalUtils.java:122-136 | Returns `CheckedValue` of what was stored, and writes the default back exactly when the stored value is rejected. |
| Thermal.ThermalUtils.WritePackage | parts/src/org/lineageos/settings/thermal/ThermalUtils.java:138-169 | On success it stores `WritePackageValue` of the value getValue returned. Otherwise it returns the exception and leaves only getValue's write-back. |
| Thermal.ThermalUtils.UpdateModes | parts/src/org/lineageos/settings/thermal/ThermalUtils.java:141-166 | Works in place on an array of the split fields: it appends the key to element `mode - 1` and joins elements 0 to 5. The outcome is `UpdateFields`, with the exception when an index is missing. |
| Thermal.WritePackageJoin | parts/src/org/lineageos/settings/thermal/ThermalUtils.java:165-166 | The concatenation of the six array fields is the `:`-join of the updated fields. |
| Thermal.ThermalUtils.GetStateForPackage | parts/src/org/lineageos/settings/thermal/ThermalUtils.java:171-190 | Returns `StateForModes` of the split checked value, after getValue's write-back. |
| Thermal.ThermalUtils.SetDefaultThermalProfile | parts/src/org/lineageos/settings/thermal/ThermalUtils.java:192-194 | The code written is `"0"`, the code of STATE_DEFAULT. |
| Thermal.ThermalUtils.SetThermalProfile | parts/src/org/lineageos/settings/thermal/ThermalUtils.java:196-219 | The code written is the code of the state getStateForPackage reports for the same stored value. It fails with the same exception where that one fails. |
| Thermal.ThermalUtils.OnSleepChange | parts/src/org/lineageos/settings/thermal/ThermalUtils.java:230-275 | Records the action. Any action other than SCREEN_OFF does nothing else. On SCREEN_OFF, the watched packages are exactly the flagged ones with a session still playing, each with one new callback on its first such session. The new force-stops list each of the other flagged packages exactly once. |
| Thermal.ThermalUtils.SweepStopSet | parts/src/org/lineageos/settings/thermal/ThermalUtils.java:235-273 | The loop over the stop set, in hash-set order, leaves the same outcome as OnSleepChange. |
| Thermal.ThermalUtils.SweptOneMore | parts/src/org/lineageos/settings/thermal/ThermalUtils.java:235-273 | One iteration of the stop-set loop keeps the sweep invariant. |
| Thermal.ThermalUtils.SweepPackage | parts/src/org/lineageos/settings/thermal/ThermalUtils.java:236-272 | The session loop registers a fresh callback on the first session still playing for the package and breaks. When there is none, it force-stops the package. |
| Thermal.StaleWatcherStillStops | parts/src/org/lineageos/settings/thermal/ThermalUtils.java:230-275 | Only `p` is flagged, with one session playing. After screen-off, screen-on and screen-off again, the callback registered at the first screen-off sees playback pause. It force-stops `p`, and that is the only stop over the whole sequence. |
| Thermal.ScreenOffWithOnePlaying | parts/src/org/lineageos/settings/thermal/ThermalUtils.java:230-275 | A screen-off with only `p` flagged and playing stops nothing, and returns this instance's watcher for `p`. |
| Thermal.PlaybackCallback.OnPlaybackStateChanged | parts/src/org/lineageos/settings/thermal/ThermalUtils.java:246-261 | Follows `WatcherReaction`. Cancel unregisters the callback. Stopping unregisters it and force-stops the package. Keep watching changes nothing. |

## Left out

- The settings fragments, the thermal service, the power-mode HAL and the
  init code are not part of this model. Only `ThermalUtils` is modelled.
- `startService` (TU:111-116) is left out. It checks a sysfs file and
  starts a service; both are I/O.
- The sysfs write of `FileUtils.writeLine` is not performed. The code that
  would be written is returned from `SetDefaultThermalProfile` and
  `SetThermalProfile` instead.
- SharedPreferences is modelled as two fields that change at once. The
  asynchronous `apply()` and the synchronous `commit()` are not
  distinguished, and a write that fails to reach disk is not modelled.
- `PackageManager.getPackageInfo` is modelled as a set of installed
  package names passed in. `NameNotFoundException` is the name not being
  in that set.
- `MediaSessionManager.getActiveSessions` is modelled as a sequence of
  sessions passed in. Each session has its controller, its package and its
  playback state as read during the sweep.
- The static `sStopSet` is modelled as an object shared by all instances
  (`StopSetHolder`).
- The iteration order of the Java `HashSet` is unspecified. The model picks
  any remaining element, so every order is covered.
- Concurrency is not modelled. This covers callbacks that run on another
  thread while the sweep runs, and a sweep interleaved with a write.
- Logging is left out.
- A null intent action and a null playback state are not modelled. In the
  source both throw `NullPointerException`.
- `Thermal.PlaybackCallback.OnPlaybackStateChanged` requires that a screen
  action has been recorded. This is always so once a callback exists,
  except after a null action, which is not modelled.
- `MediaController.Callback` carries other behaviour of its own (the
  `super` call), and it is not modelled.
- A table has six buckets, yet getValue accepts any value with at least
  five `:`-fields (TU:127). The model follows the code.
  `ProfileStore.FiveFieldsPassValidationButBreakWrite` shows that
  writePackage then fails on such a value, for every mode.
- A callback does not check whether the screen came on after it was
  registered. It checks the last action recorded (TU:249). The model
  follows the code. `Thermal.StaleWatcherStillStops` shows that a callback
  from an earlier screen-off still stops its package after the screen went
  on and off again.
- Bucket membership is substring matching (`contains`), as in the source.
  The round-trip lemmas therefore assume three things. The package name
  holds no `,`, `:` or `=` (`IsPackageName`). Stored names hold no `,` or
  `:` (`CleanNames`). No stored name other than the package itself ends
  with the package name (`NoProperSuffix`). Outside those bounds the
  source's own lookups can misreport a package, and the model reproduces
  that.
