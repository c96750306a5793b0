# thinq-notifier: the per-poll decision logic, in Dafny

This is a model of the core of the laundry notifier. A scheduled function reads
the washer and dryer from the appliance API. It compares them with a small record
kept in a parameter store and decides whether to remind someone to unload the
washer or to clean its tub. Each invocation does the following:

- Classifies the device list into one washer and one dryer (`findLaundry`).
- Copies the tub-clean counter into the record and sets `tclDue` and `washerRunning`.
- Returns early, writing and sending nothing, when the stored course is a tub clean.
- If the washer is running, records its end time, start time and course.
- If the washer is idle, sends an unload reminder when three things hold: the dryer is off, the threshold after the wash end has passed, and the repeat throttle lets it through. During quiet hours the reminder is a message. Otherwise it is the webhook announcement.
- Sends a tub-clean reminder when the counter is past 30, a multiple of 3 and not yet notified, and records that counter. Over consecutive invocations that read the same counter, at most one is sent (`AtMostOneReminderPerCount`).
- Writes the record, unless an exception was thrown. An exception is reported as a message instead.

Files:

- `wrappers.dfy`: `Option` and `Result`.
- `util.dfy` (module `Util`, from `lambda/util.ts`):
  - the stored record `ThinQState`, the device snapshot and the status constants;
  - the classifiers and the classification fold `FindLaundry`;
  - the tub-clean guard;
  - the repeat throttle. It is stated as written, on hours as exact rationals with JavaScript's truncating `%`, and proved equal to an integer test on milliseconds.
- `datetime_util.dfy` (module `DateTimeUtil`, from `lambda/datetime-util.ts`): the threshold on epoch milliseconds and the test for whether it has passed.
- `index.dfy` (module `Index`, from `lambda/index.ts`):
  - `Step`, a function that gives the outcome of one invocation (the record written, if any, and the notifications sent);
  - the class `Notifier`, whose fields are the stored record and the notifications sent. Its method `Handler` builds the new record step by step, as the handler does, and is proved to give `Step`'s outcome;
  - `Run`, which chains invocations, and the lemmas about one step and about runs of steps.

Inputs that the handler reads from the environment are parameters here:

- the clock (`Poll.nowMs`);
- the quiet-hours flag (`Poll.quietHours`);
- the device list, with its snapshots (`Poll.devices`);
- `NOTIFICATION_THRESHOLD_HRS`, `NOTIFICATION_FREQ_HRS` and `MAX_NOTIFICATIONS`, and the webhook URL (`Config`);
- the numeric device types (`DeviceKinds`). They come from the vendor library, which is not part of this model.

## Behaviour of the code worth knowing

- The early return at `lambda/index.ts:41-45` happens whenever the stored course is TUB CLEAN, in any case, whether or not the washer is running. Nothing clears that course afterwards. From such a record, every later invocation writes nothing and sends no reminder of either kind (`BlockedRunStuck`).
- `dryerStartTime` is never assigned; it is only copied forward (`UntouchedFieldsCopied`). While the washer runs, every poll recomputes the end time, the start time and the course (`lambda/index.ts:46-53`).
- A stored record without `washCourse` makes line 41 throw. The invocation reports the error and writes nothing (`MissingCourseFails`), so an empty store is never written (`ColdStartNeverPersists`). The running branch copies the snapshot's course, which may be absent, so such a record can also arise later (`RunningBranch`). After that, the store is stuck as after a tub clean (`BlockedRunStuck`).
- In the idle branch, a missing `washEndTime` makes formatting the invalid date throw a range error. That error is reported and nothing is written (`IdleBranchFailures`).
- The unload cap holds only when polls are at least 15 minutes apart. The 15-minute schedule rate (`lib/thinq-notifier-stack.ts:65`) does not guarantee that spacing. With a cap of one, polls 1 and 14 minutes after the threshold both send a reminder (`CapNeedsSpacing`).
- The tub-clean guard does not re-arm after the counter is reset. The "`tclDue` changed" clause (`lambda/util.ts:203-205`) fires when the counter first exceeds 30, at 31, which is not a multiple of 3. So after a reset, with the stored notified counter still 33, the reminder at 33 is not sent again when a written invocation reads 31 or 32 in between (`ResetDoesNotReArm`).
- Conversely, a counter that drops to 30 or less and comes straight back re-sends. A missing `TCLCount` reads as 0 (`lambda/index.ts:29`), which flips the stored `tclDue`. The flip counts as "not yet notified" (`lambda/util.ts:203-205`). From a record that is due and notified at 33, a written invocation reading 0 followed by one reading 33 sends the reminder for 33 a second time (`DipReSends`).
- The throttle test at `test/util.test.ts:10-21` expects a repeat 3 h 20 min after the threshold, with frequency 3 h. In the code, 20 minutes past a period is outside the 15-minute window (`lambda/util.ts:183`), so the answer is no. `ThrottleTestScenarios` proves the code's answer.

## Model

| member | source | states |
|---|---|---|
| `Util.ToUpper` | lambda/util.ts:211 | upper-casing keeps the length and upper-cases each character in place |
| `Util.UpperEqualsIffEqualIgnoringCase` | lambda/index.ts:38 | comparing an upper-cased string with an upper-case literal is a case-insensitive comparison, letter by letter |
| `Util.IsRunningIgnoresCase` | lambda/util.ts:210-212 | `isRunning` holds for a present state exactly when the state is not POWEROFF in any mix of cases; upper-casing the state first changes nothing |
| `Util.IsRunning` | lambda/util.ts:210-212 | running exactly when a state is present and is not POWEROFF in any mix of cases |
| `Util.IsRunningExamples` | lambda/util.ts:210-212 | an absent state is not running; `PowerOff` and `POWEROFF` are not running; `RUNNING` and `PAUSE` are |
| `Util.IsDryerOff` | lambda/util.ts:167-172 | off exactly when there is no dryer, or when its state is one of the listed statuses; throws exactly when a dryer is present without a snapshot section |
| `Util.IsDryerOffIsCaseSensitive` | lambda/util.ts:264-274 | `POWEROFF` is off, but `poweroff` and an absent state are not: membership is exact |
| `Util.DryerNotOffIsRunning` | lambda/util.ts:167-172 | a dryer that is not off and reports an upper-case state is running in the sense of `isRunning` |
| `Util.IsWasherCycleFinished` | lambda/util.ts:141-149 | true exactly when the code is present and starts with four zeros and the numeric type is a washer type |
| `Util.NewestEventValid` | lambda/util.ts:24-26 | false for an empty list; otherwise true exactly when the first event has a non-empty send date |
| `Util.LaundryPicksLast` | lambda/util.ts:89-97 | the fold keeps the last washer-type device as the washer and the last dryer-type device as the dryer, and leaves each absent when there is none |
| `Util.Classify` | lambda/util.ts:89-97 | one step of the reduce; with `Laundry`, `LaundryPicksLast` shows that it keeps the last device of each kind |
| `Util.Laundry` | lambda/util.ts:86-98 | the reduce over the device list; characterised by `LaundryPicksLast` and computed in place by `FindLaundry` |
| `Util.FindLaundry` | lambda/util.ts:86-98 | the reduce, updating the accumulator device by device, yields the fold's result: the last washer-type and the last dryer-type device |
| `Util.HasNotAlreadyNotifiedCases` | lambda/util.ts:197-208 | the guard is true when the stored notified counter differs from the current one; when they are equal, it is true only if `tclDue` was stored and has changed |
| `Util.HasNotAlreadyNotifiedThisCycle` | lambda/util.ts:197-208 | the guard itself; its two cases are stated by `HasNotAlreadyNotifiedCases`, and its use by `TubCleanReminderRule` and `ResetDoesNotReArm` |
| `Util.Trunc` | lambda/util.ts:183 | truncation toward zero, as the `%` operator uses it, for both signs |
| `Util.JsRem` | lambda/util.ts:183 | JavaScript's `%` on numbers; `JsRemSignAndBound` states that the remainder takes the dividend's sign and is below the divisor in magnitude |
| `Util.JsRemSignAndBound` | lambda/util.ts:183 | the remainder is ≥ 0 for a dividend ≥ 0, ≤ 0 for a dividend ≤ 0, and strictly smaller than the divisor in magnitude |
| `Util.ShouldSendRepeatNotification` | lambda/util.ts:174-186 | a zero frequency never sends (the comparisons with NaN are false); at or after the threshold it sends only when the cap is at least one; its full meaning is `ThrottleIntegerForm` and `ThrottleWindows` |
| `Util.ThrottleIntegerForm` | lambda/util.ts:174-186 | for e ≥ 0 ms since the threshold and F = freq·3600000, a repeat is due exactly when e mod F < 900000 and e div F < max |
| `Util.ThrottleOpenBeforeThreshold` | lambda/util.ts:178-185 | before the threshold the throttle alone says yes, so the threshold test is what holds a reminder back |
| `Util.ThrottleCap` | lambda/util.ts:184 | from freq·max hours after the threshold on, no repeat is due |
| `Util.ThrottleWindows` | lambda/util.ts:182-185 | a repeat is due exactly in the first quarter hour of one of the first `max` periods after the threshold |
| `Util.ThrottleTestScenarios` | test/util.test.ts:10-60 | with frequency 3 and max 2: 3h20, 4h20, 6h20 and 7h20 after the threshold give no repeat, and 3h10 gives one |
| `Util.AtMostMaxRepeats` | lambda/util.ts:174-186 | over polls at least 15 minutes apart, at most `max` polls find the threshold passed and a repeat due |
| `Util.CapNeedsSpacing` | lambda/util.ts:174-186 | without the spacing the cap fails: with a cap of one, polls 1 and 14 minutes after the threshold both find a repeat due |
| `DateTimeUtil.MinToMs` | lambda/index.ts:49-52 | minutes to milliseconds: a whole number of minutes, and never negative for a non-negative count |
| `DateTimeUtil.DetermineThresholdDatetime` | lambda/datetime-util.ts:14-19 | the threshold lies a whole number of hours after the event, and not before it when the hours are non-negative |
| `DateTimeUtil.ThresholdExample` | test/datetime-util.test.ts:4-14 | 2021-11-01T12:00Z with 3 hours gives 15:00Z |
| `DateTimeUtil.ThresholdMonotone` | lambda/datetime-util.ts:14-19 | a later event never gives an earlier threshold; the threshold shifts by exactly the shift of the event |
| `DateTimeUtil.PassedIffHoursElapsed` | lambda/datetime-util.ts:14-23 | the threshold has passed exactly when more than the configured hours have elapsed since the event |
| `DateTimeUtil.PassedIsStrictAndStays` | lambda/datetime-util.ts:21-23 | not passed at the threshold instant itself; once passed, passed at every later time |
| `DateTimeUtil.HasThresholdTimePassed` | lambda/datetime-util.ts:21-23 | strictly after the threshold; its properties are `PassedIsStrictAndStays` and `PassedIffHoursElapsed` |
| `Index.Notifier.Handler` | lambda/index.ts:11-97 | the store and the notifications sent end up as `Step` gives them: the record is written only at the end of the try block, and an exception adds only its report |
| `Index.Evaluate` | lambda/index.ts:13-89 | the body of the try block: the exception it throws, the early return, or the record to write with the notifications; its branches are stated by the branch lemmas below |
| `Index.Step` | lambda/index.ts:13-96 | the whole invocation, with the catch; `Notifier.Handler` is proved to compute it, and `ErrorsPersistNothing` states how errors end |
| `Index.ErrorsPersistNothing` | lambda/index.ts:89-96 | an invocation either writes the record and reports no error, or writes nothing and sends at most one message, the error report |
| `Index.MissingDeviceFails` | lambda/index.ts:19-27 | with no washer-type device, with no dryer-type device, or with the last washer-type device lacking its `washerDryer` section: the unexpected-response error is reported and nothing is written |
| `Index.ColdStartNeverPersists` | lambda/index.ts:41 | from an empty store, nothing is written and one error is reported |
| `Index.MissingWasherStateFails` | lambda/index.ts:38 | a washer section without `state` gives the error report for the missing state, and nothing is written |
| `Index.MissingCourseFails` | lambda/index.ts:41 | a stored record without `washCourse`, with the snapshot and its state present, gives the error report for the missing course, and nothing is written |
| `Index.PersistedFlags` | lambda/index.ts:29-39 | a written record has `tclDue` = (counter > 30), with the counter 0 when missing, and `washerRunning` = (the washer state equals RUNNING ignoring case) |
| `Index.UntouchedFieldsCopied` | lambda/index.ts:35-36 | a written record carries the unassigned `dryerStartTime` forward |
| `Index.TubCleanBypass` | lambda/index.ts:41-45 | when the stored course is TUB CLEAN in any case, nothing is sent and nothing is written |
| `Index.RunningBranch` | lambda/index.ts:46-53 | running: end = now + remaining·60000, start = end − initial·60000, course = snapshot course; start ≤ end when initial ≥ 0; no unload reminder |
| `Index.IdleBranchFailures` | lambda/index.ts:54-63 | idle with no stored end time, or with a dryer lacking its snapshot section: that error is reported and nothing is written |
| `Index.IdleBranch` | lambda/index.ts:54-70 | idle: end, start and course are kept; an unload reminder goes out exactly when the dryer is off, now > end + threshold hours and the throttle agrees; as a message with the end time during quiet hours, otherwise as the webhook call if one is configured, never both |
| `Index.TubCleanReminderRule` | lambda/index.ts:73-87 | a tub-clean reminder for the counter goes out exactly when the counter is > 30, a multiple of 3, and the guard holds; only then is the counter recorded as notified |
| `Index.StepSettles` | lambda/index.ts:73-89 | every written record is settled for the counter it read: `tclDue` matches it, and either it is recorded as notified or no reminder is due for it |
| `Index.SettledStepSilent` | lambda/index.ts:73-87 | from a settled record, an invocation that reads the same counter sends no tub-clean reminder |
| `Index.StepAtMostOneReminder` | lambda/index.ts:73-87 | one invocation sends at most one tub-clean reminder |
| `Index.SecondStepSendsNoReminder` | lambda/index.ts:82 | when an invocation that reads the counter the last one read starts from the record that one wrote, it sends no tub-clean reminder |
| `Index.AtMostOneReminderPerCount` | lambda/index.ts:73-89 | over any run of invocations that all read the same counter, at most one tub-clean reminder is sent |
| `Index.IdleStepUnloads` | lambda/index.ts:54-71 | while the washer is idle, an invocation sends an unload reminder only when the threshold has passed and a repeat is due, and it keeps the stored end time |
| `Index.ResetDoesNotReArm` | lambda/util.ts:197-208 | from a record notified at 33, a written invocation at 31 sends no reminder and the next invocation at 33 sends none either |
| `Index.DipReSends` | lambda/util.ts:197-208 | from a record due and notified at 33, a written invocation reading 0 and then a written one reading 33 send the reminder for 33 again |
| `Index.BlockedStepWritesNothing` | lambda/index.ts:41-45 | from a record whose course is absent or TUB CLEAN, an invocation writes nothing and sends neither reminder |
| `Index.BlockedRunStuck` | lambda/index.ts:41-45 | from such a record, every run of invocations leaves the store unchanged and sends neither reminder |
| `Index.IdleRunUnloadCap` | lambda/index.ts:62-70 | while the washer stays idle, and with polls at least 15 minutes apart, at most `MAX_NOTIFICATIONS` unload reminders are sent for the stored end time |

## Left out

- Parameter-store reads and writes, message publishing, the webhook call and the appliance API calls (`getAppSecrets`, `initApi`, `getListDevices`, `getThinQState`, `setThinQState`, `getThinqApi`, `getRecentEvents`, `wasLatestWashTubClean`) are foreign I/O. The store is the field `Notifier.store`, and messages and webhook calls are `Intent`s appended to `Notifier.outbox`. If one of these calls fails, the handler catches and reports the failure, but the model does not include that case.
- `eventWasAWashCycle` depends on a network call and is not modelled. Its pure half is `IsWasherCycleFinished`.
- `formatDate` (time-zone formatting) is not modelled. `UnloadMessage` carries the end time rather than its formatted text. The one effect of formatting that the handler depends on, that formatting an invalid date throws, is modelled as `InvalidWashEndTime`.
- `isQuietHours` and `wasOneHourOrLessAgo` are not part of this model: lambda/datetime-util.ts does not define them, and quiet hours is an input. `minToMs` is not defined there either; it is modelled as m·60000 (`MinToMs`).
- DetermineThresholdDatetime: adds whole hours exactly. It does not model how `setHours` works in local time across a daylight-saving change, or hours read as fractions from the environment.
- ShouldSendRepeatNotification: computes on exact rationals rather than IEEE doubles, so rounding right at a window edge is not modelled. The frequency and the cap are integers. A non-numeric setting (NaN) is modelled only as a frequency of zero, which gives false.
- ToUpper: upper-cases ASCII letters only. Unicode case mappings that change length or map to ASCII (`ß`, dotless `ı`) are not modelled.
- CyclesSinceTubClean: `TCLCount` is an optional integer. A non-numeric counter (NaN) and a non-numeric device type are not modelled.
- NewestEventValid: returns a boolean. The source returns the number 0 for an empty list, which is falsy, and the model keeps only that truthiness.
- Exception texts: `ErrorReport` carries the kind of failure. The engine's message for a TypeError or RangeError, and the fallback text used when a message is empty, are not modelled.
- A missing snapshot and a missing `washerDryer` section are one case (`Device.washerDryer` is `None`), because the code treats them the same way. The snapshot's minute fields are assumed to be present numbers.
- Logging, `lambda/api.ts` (a subclass of a vendor client), and the infrastructure stack in `lib/` and `bin/` are not modelled. Overlapping invocations that race on the store are also not modelled.
- The handler reads the clock three times: in the handler, in the throttle and in the threshold test. The model uses one `Poll.nowMs` for all three, so the milliseconds between these reads are not modelled.
- A non-numeric `NOTIFICATION_THRESHOLD_HRS` makes the threshold an invalid date, and formatting it at `lambda/index.ts:60` throws. Settings are integers here, so that error is not modelled.
