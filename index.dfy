/**
 * One invocation of the laundry notifier: from the stored record, the device
 * list, the clock and the quiet-hours flag, the next stored record and the
 * notifications to send. `Step` states the outcome as a function;
 * `Notifier.Handler` computes it step by step on the store, as the handler does.
 */
module Index {
  import opened Wrappers
  import opened DateTimeUtil
  import opened Util

  /** The environment constants and secrets the invocation reads. */
  datatype Config = Config(
    kinds: DeviceKinds,
    thresholdHours: int,     // NOTIFICATION_THRESHOLD_HRS
    freqHrs: int,            // NOTIFICATION_FREQ_HRS
    maxNotifications: int,   // MAX_NOTIFICATIONS
    webhookUrl: string)      // the announcement webhook; "" when not configured

  /** What one invocation observes: the device list, the clock, and whether it is quiet hours. */
  datatype Poll = Poll(devices: seq<Device>, nowMs: int, quietHours: bool)

  /** A message published or an announcement triggered. */
  datatype Intent =
    | UnloadMessage(washEndTime: int)    // names the formatted wash end time
    | Announcement(url: string)          // the webhook call
    | TubCleanReminder(cycles: int)      // "<cycles> washer cycles have run since the last tub clean"
    | ErrorReport(failure: Failure)      // the message of the caught exception

  /** How an invocation that threw nothing ends: the early return, or the write of the record. */
  datatype Decision = Bypass | Persist(state: ThinQState, intents: seq<Intent>)

  /** The record written to the store, if any, and the notifications sent. */
  datatype StepOutcome = StepOutcome(persisted: Option<ThinQState>, intents: seq<Intent>)

  /** Tub cleaning is due once the counter exceeds this. */
  const TCL_DUE_AFTER := 30
  /** Past that, a reminder is sent at every multiple of this. */
  const TCL_REMIND_EVERY := 3

  // ---------------------------------------------------------------------------
  // The step as a function
  // ---------------------------------------------------------------------------

  /** `Number(TCLCount || 0)`. */
  function CyclesSinceTubClean(ws: WasherDryer): int {
    ws.tclCount.GetOr(0)
  }

  /** The washer's snapshot section, when a washer, a dryer and that section are all present. */
  function WasherSnapshot(poll: Poll, cfg: Config): Option<WasherDryer> {
    var laundry := Laundry(poll.devices, cfg.kinds);
    if laundry.washer.None? || laundry.dryer.None? || laundry.washer.value.washerDryer.None? then None
    else laundry.washer.value.washerDryer
  }

  /** The counter the invocation reads (0 when it fails before reading one). */
  function PollCycles(poll: Poll, cfg: Config): int {
    match WasherSnapshot(poll, cfg)
    case Some(ws) => CyclesSinceTubClean(ws)
    case None => 0
  }

  /** The unload condition: dryer off, threshold passed, and a repeat due. */
  predicate UnloadDue(dryerOff: bool, washEndMs: int, nowMs: int, cfg: Config) {
    var thresholdMs := DetermineThresholdDatetime(washEndMs, cfg.thresholdHours);
    dryerOff && RepeatDue(nowMs, thresholdMs, cfg.freqHrs, cfg.maxNotifications)
  }

  /** The unload reminder on its channel: a message during quiet hours, else the webhook if there is one. */
  function UnloadIntents(washEndMs: int, quietHours: bool, cfg: Config): seq<Intent> {
    if quietHours then [UnloadMessage(washEndMs)]
    else if cfg.webhookUrl != "" then [Announcement(cfg.webhookUrl)]
    else []
  }

  predicate TubCleanDue(prior: ThinQState, next: ThinQState, cycles: int) {
    next.tclDue == Some(true) && cycles % TCL_REMIND_EVERY == 0
    && HasNotAlreadyNotifiedThisCycle(prior, next, cycles)
  }

  /** The tub-clean stage, run after either wash branch. */
  function RemindTubClean(prior: ThinQState, next: ThinQState, cycles: int, intents: seq<Intent>): Decision {
    if TubCleanDue(prior, next, cycles) then
      Persist(next.(tclNotifiedAtCycle := Some(cycles)), intents + [TubCleanReminder(cycles)])
    else Persist(next, intents)
  }

  /** The body of the `try` block: the exception it throws, or how it ends. */
  function Evaluate(prior: ThinQState, poll: Poll, cfg: Config): Result<Decision, Failure> {
    var snapshot := WasherSnapshot(poll, cfg);
    if snapshot.None? then Err(UnexpectedResponse)
    else
      var ws := snapshot.value;
      var cycles := CyclesSinceTubClean(ws);
      if ws.state.None? then Err(MissingWasherState)
      else
        var running := ToUpper(ws.state.value) == "RUNNING";
        var next := prior.(tclDue := Some(cycles > TCL_DUE_AFTER), washerRunning := Some(running));
        if prior.washCourse.None? then Err(MissingWashCourse)
        else if ToUpper(prior.washCourse.value) == "TUB CLEAN" then Ok(Bypass)
        else if running then
          var endMs := poll.nowMs + MinToMs(ws.remainTimeMinute);
          var started := next.(washEndTime := Some(endMs),
                               washStartTime := Some(endMs - MinToMs(ws.initialTimeMinute)),
                               washCourse := ws.course);
          Ok(RemindTubClean(prior, started, cycles, []))
        else if prior.washEndTime.None? then Err(InvalidWashEndTime)
        else
          var dryerOff := IsDryerOff(Laundry(poll.devices, cfg.kinds).dryer);
          if dryerOff.Err? then Err(dryerOff.error)
          else
            var endMs := prior.washEndTime.value;
            var unload := if UnloadDue(dryerOff.value, endMs, poll.nowMs, cfg)
                          then UnloadIntents(endMs, poll.quietHours, cfg) else [];
            Ok(RemindTubClean(prior, next, cycles, unload))
  }

  /** The whole invocation: an exception is reported and nothing is written. */
  function Step(prior: ThinQState, poll: Poll, cfg: Config): StepOutcome {
    match Evaluate(prior, poll, cfg)
    case Err(f) => StepOutcome(None, [ErrorReport(f)])
    case Ok(Bypass) => StepOutcome(None, [])
    case Ok(Persist(s, intents)) => StepOutcome(Some(s), intents)
  }

  // ---------------------------------------------------------------------------
  // The step on the store
  // ---------------------------------------------------------------------------

  class Notifier {
    /** The record in the state store. */
    var store: ThinQState
    /** Every message published and announcement triggered so far, in order. */
    var outbox: seq<Intent>
    const cfg: Config

    constructor (initial: ThinQState, cfg: Config)
      ensures store == initial && outbox == [] && this.cfg == cfg
    {
      store := initial;
      outbox := [];
      this.cfg := cfg;
    }

    /** Publishes a message or triggers the announcement. */
    method Send(intent: Intent)
      modifies this`outbox
      ensures outbox == old(outbox) + [intent]
    {
      outbox := outbox + [intent];
    }

    /** `handler`: one scheduled invocation. */
    method Handler(poll: Poll)
      modifies this`store, this`outbox
      ensures outbox == old(outbox) + Step(old(store), poll, cfg).intents
      ensures store == Step(old(store), poll, cfg).persisted.GetOr(old(store))
    {
      var laundry := FindLaundry(poll.devices, cfg.kinds);
      var washer, dryer := laundry.washer, laundry.dryer;
      if washer.None? || dryer.None? || washer.value.washerDryer.None? {
        Send(ErrorReport(UnexpectedResponse));
        return;
      }
      var washerSnapshot := washer.value.washerDryer.value;
      var cyclesSinceTubClean := CyclesSinceTubClean(washerSnapshot);
      var thinqState := store;
      if washerSnapshot.state.None? {
        Send(ErrorReport(MissingWasherState));
        return;
      }
      var newThinqState := thinqState.(tclDue := Some(cyclesSinceTubClean > TCL_DUE_AFTER),
                                       washerRunning := Some(ToUpper(washerSnapshot.state.value) == "RUNNING"));
      if thinqState.washCourse.None? {
        Send(ErrorReport(MissingWashCourse));
        return;
      }
      if ToUpper(thinqState.washCourse.value) == "TUB CLEAN" {
        return;
      } else if newThinqState.washerRunning == Some(true) {
        var washEndTime := poll.nowMs + MinToMs(washerSnapshot.remainTimeMinute);
        newThinqState := newThinqState.(washEndTime := Some(washEndTime));
        newThinqState := newThinqState.(washStartTime := Some(washEndTime - MinToMs(washerSnapshot.initialTimeMinute)));
        newThinqState := newThinqState.(washCourse := washerSnapshot.course);
      } else {
        if thinqState.washEndTime.None? {
          Send(ErrorReport(InvalidWashEndTime));
          return;
        }
        var washEndTime := thinqState.washEndTime.value;
        var thresholdDatetime := DetermineThresholdDatetime(washEndTime, cfg.thresholdHours);
        var dryerOff := IsDryerOff(dryer);
        if dryerOff.Err? {
          Send(ErrorReport(dryerOff.error));
          return;
        }
        if dryerOff.value && HasThresholdTimePassed(poll.nowMs, thresholdDatetime)
           && ShouldSendRepeatNotification(poll.nowMs, thresholdDatetime, cfg.freqHrs, cfg.maxNotifications)
        {
          if poll.quietHours {
            Send(UnloadMessage(washEndTime));
          } else if cfg.webhookUrl != "" {
            Send(Announcement(cfg.webhookUrl));
          }
        }
      }
      if newThinqState.tclDue == Some(true) && cyclesSinceTubClean % TCL_REMIND_EVERY == 0
         && HasNotAlreadyNotifiedThisCycle(thinqState, newThinqState, cyclesSinceTubClean)
      {
        newThinqState := newThinqState.(tclNotifiedAtCycle := Some(cyclesSinceTubClean));
        Send(TubCleanReminder(cyclesSinceTubClean));
      }
      store := newThinqState;
    }
  }

  // ---------------------------------------------------------------------------
  // Properties of one step
  // ---------------------------------------------------------------------------

  /** An invocation either writes the record and reports no error, or writes nothing and sends at most the error report. */
  lemma ErrorsPersistNothing(prior: ThinQState, poll: Poll, cfg: Config)
    ensures var o := Step(prior, poll, cfg);
      (o.persisted.Some? ==> forall i :: i in o.intents ==> !i.ErrorReport?)
      && (o.persisted.None? ==> |o.intents| <= 1 && forall i :: i in o.intents ==> i.ErrorReport?)
  {
    var o := Step(prior, poll, cfg);
    match Evaluate(prior, poll, cfg)
    case Err(f) =>
    case Ok(Bypass) =>
    case Ok(Persist(s, intents)) =>
      if !(forall i :: i in o.intents ==> !i.ErrorReport?) {
        PersistedIntentsAreNotErrors(prior, poll, cfg);
      }
  }

  lemma PersistedIntentsAreNotErrors(prior: ThinQState, poll: Poll, cfg: Config)
    requires Evaluate(prior, poll, cfg).Ok? && Evaluate(prior, poll, cfg).value.Persist?
    ensures forall i :: i in Evaluate(prior, poll, cfg).value.intents ==> !i.ErrorReport?
  {
  }

  /**
   * Without a washer-type device, without a dryer-type device, or when the
   * last washer-type device has no `washerDryer` section, the invocation
   * reports the unexpected response.
   */
  lemma MissingDeviceFails(prior: ThinQState, poll: Poll, cfg: Config)
    requires (forall i :: 0 <= i < |poll.devices| ==> !OfKind(poll.devices[i], WasherKind, cfg.kinds))
          || (forall i :: 0 <= i < |poll.devices| ==> !OfKind(poll.devices[i], DryerKind, cfg.kinds))
          || (exists i :: 0 <= i < |poll.devices| && OfKind(poll.devices[i], WasherKind, cfg.kinds)
                          && poll.devices[i].washerDryer.None?
                          && forall j :: i < j < |poll.devices| ==> !OfKind(poll.devices[j], WasherKind, cfg.kinds))
    ensures Step(prior, poll, cfg) == StepOutcome(None, [ErrorReport(UnexpectedResponse)])
  {
    LaundryPicksLast(poll.devices, cfg.kinds);
  }

  /** A washer section without `state` makes the upper-casing throw: reported, nothing written. */
  lemma MissingWasherStateFails(prior: ThinQState, poll: Poll, cfg: Config)
    requires WasherSnapshot(poll, cfg).Some? && WasherSnapshot(poll, cfg).value.state.None?
    ensures Step(prior, poll, cfg) == StepOutcome(None, [ErrorReport(MissingWasherState)])
  {
  }

  /** A stored record without `washCourse` makes the upper-casing of the course throw: reported, nothing written. */
  lemma MissingCourseFails(prior: ThinQState, poll: Poll, cfg: Config)
    requires WasherSnapshot(poll, cfg).Some? && WasherSnapshot(poll, cfg).value.state.Some?
    requires prior.washCourse.None?
    ensures Step(prior, poll, cfg) == StepOutcome(None, [ErrorReport(MissingWashCourse)])
  {
  }

  /** An empty store never gets written: the absent course throws, if nothing before it did. */
  lemma ColdStartNeverPersists(poll: Poll, cfg: Config)
    ensures var o := Step(EmptyState, poll, cfg);
      o.persisted.None? && |o.intents| == 1 && o.intents[0].ErrorReport?
  {
  }

  /** The written record's maintenance flag and running flag. */
  lemma PersistedFlags(prior: ThinQState, poll: Poll, cfg: Config)
    requires Step(prior, poll, cfg).persisted.Some?
    ensures WasherSnapshot(poll, cfg).Some? && WasherSnapshot(poll, cfg).value.state.Some?
    ensures var s := Step(prior, poll, cfg).persisted.value;
            var ws := WasherSnapshot(poll, cfg).value;
      s.tclDue == Some(CyclesSinceTubClean(ws) > 30)
      && s.washerRunning == Some(EqualIgnoringCase(ws.state.value, "RUNNING"))
  {
    var ws := WasherSnapshot(poll, cfg).value;
    UpperEqualsIffEqualIgnoringCase(ws.state.value, "RUNNING");
  }

  /** A written record carries the unassigned fields forward unchanged. */
  lemma UntouchedFieldsCopied(prior: ThinQState, poll: Poll, cfg: Config)
    requires Step(prior, poll, cfg).persisted.Some?
    ensures Step(prior, poll, cfg).persisted.value.dryerStartTime == prior.dryerStartTime
  {
  }

  /** After a tub-clean course nothing is sent and nothing is written, even if the washer runs again. */
  lemma TubCleanBypass(prior: ThinQState, poll: Poll, cfg: Config)
    requires WasherSnapshot(poll, cfg).Some? && WasherSnapshot(poll, cfg).value.state.Some?
    requires prior.washCourse.Some? && EqualIgnoringCase(prior.washCourse.value, "TUB CLEAN")
    ensures Step(prior, poll, cfg) == StepOutcome(None, [])
  {
    UpperEqualsIffEqualIgnoringCase(prior.washCourse.value, "TUB CLEAN");
  }

  /**
   * Running: the end time is now plus the remaining minutes, the start time
   * the end time less the initial minutes, the course the snapshot's; no
   * unload reminder.
   */
  lemma RunningBranch(prior: ThinQState, poll: Poll, cfg: Config)
    requires WasherSnapshot(poll, cfg).Some? && WasherSnapshot(poll, cfg).value.state.Some?
    requires EqualIgnoringCase(WasherSnapshot(poll, cfg).value.state.value, "RUNNING")
    requires prior.washCourse.Some? && !EqualIgnoringCase(prior.washCourse.value, "TUB CLEAN")
    ensures var o := Step(prior, poll, cfg);
            var ws := WasherSnapshot(poll, cfg).value;
            var endMs := poll.nowMs + ws.remainTimeMinute * 60000;
      o.persisted.Some?
      && o.persisted.value.washEndTime == Some(endMs)
      && o.persisted.value.washStartTime == Some(endMs - ws.initialTimeMinute * 60000)
      && o.persisted.value.washCourse == ws.course
      && (ws.initialTimeMinute >= 0 ==> o.persisted.value.washStartTime.value <= endMs)
      && forall i :: i in o.intents ==> i.TubCleanReminder?
  {
    var ws := WasherSnapshot(poll, cfg).value;
    UpperEqualsIffEqualIgnoringCase(ws.state.value, "RUNNING");
    UpperEqualsIffEqualIgnoringCase(prior.washCourse.value, "TUB CLEAN");
  }

  /** The idle branch throws when there is no stored end time, or when the dryer has no snapshot section. */
  lemma IdleBranchFailures(prior: ThinQState, poll: Poll, cfg: Config)
    requires WasherSnapshot(poll, cfg).Some? && WasherSnapshot(poll, cfg).value.state.Some?
    requires !EqualIgnoringCase(WasherSnapshot(poll, cfg).value.state.value, "RUNNING")
    requires prior.washCourse.Some? && !EqualIgnoringCase(prior.washCourse.value, "TUB CLEAN")
    ensures prior.washEndTime.None? ==>
      Step(prior, poll, cfg) == StepOutcome(None, [ErrorReport(InvalidWashEndTime)])
    ensures prior.washEndTime.Some? && Laundry(poll.devices, cfg.kinds).dryer.value.washerDryer.None? ==>
      Step(prior, poll, cfg) == StepOutcome(None, [ErrorReport(MissingDryerSnapshot)])
  {
    UpperEqualsIffEqualIgnoringCase(WasherSnapshot(poll, cfg).value.state.value, "RUNNING");
    UpperEqualsIffEqualIgnoringCase(prior.washCourse.value, "TUB CLEAN");
  }

  /**
   * Idle: end time, start time and course stay as stored; an unload reminder
   * goes out exactly when the dryer is off, the threshold has passed and a
   * repeat is due, as a message during quiet hours and otherwise as the
   * announcement.
   */
  lemma IdleBranch(prior: ThinQState, poll: Poll, cfg: Config)
    requires WasherSnapshot(poll, cfg).Some? && WasherSnapshot(poll, cfg).value.state.Some?
    requires !EqualIgnoringCase(WasherSnapshot(poll, cfg).value.state.value, "RUNNING")
    requires prior.washCourse.Some? && !EqualIgnoringCase(prior.washCourse.value, "TUB CLEAN")
    requires prior.washEndTime.Some? && Laundry(poll.devices, cfg.kinds).dryer.value.washerDryer.Some?
    ensures var o := Step(prior, poll, cfg);
            var endMs := prior.washEndTime.value;
            var off := IsDryerOff(Laundry(poll.devices, cfg.kinds).dryer).value;
            var thresholdMs := endMs + cfg.thresholdHours * 3600000;
            var due := off && poll.nowMs > thresholdMs
                       && ShouldSendRepeatNotification(poll.nowMs, thresholdMs, cfg.freqHrs, cfg.maxNotifications);
      o.persisted.Some?
      && o.persisted.value.washEndTime == prior.washEndTime
      && o.persisted.value.washStartTime == prior.washStartTime
      && o.persisted.value.washCourse == prior.washCourse
      && (UnloadMessage(endMs) in o.intents <==> due && poll.quietHours)
      && (Announcement(cfg.webhookUrl) in o.intents <==> due && !poll.quietHours && cfg.webhookUrl != "")
      && (forall i :: i in o.intents ==> i.TubCleanReminder? || i == UnloadMessage(endMs) || i == Announcement(cfg.webhookUrl))
      && !(UnloadMessage(endMs) in o.intents && Announcement(cfg.webhookUrl) in o.intents)
  {
    UpperEqualsIffEqualIgnoringCase(WasherSnapshot(poll, cfg).value.state.value, "RUNNING");
    UpperEqualsIffEqualIgnoringCase(prior.washCourse.value, "TUB CLEAN");
  }

  /**
   * A written record: the tub-clean reminder goes out exactly when the counter
   * is past 30, a multiple of 3, and the guard holds, and only then is the
   * counter recorded as notified.
   */
  lemma TubCleanReminderRule(prior: ThinQState, poll: Poll, cfg: Config)
    requires Step(prior, poll, cfg).persisted.Some?
    ensures var o := Step(prior, poll, cfg);
            var c := PollCycles(poll, cfg);
            var fires := c > 30 && c % 3 == 0
                         && ((prior.tclDue.Some? && prior.tclNotifiedAtCycle.Some? && prior.tclDue != Some(c > 30))
                             || prior.tclNotifiedAtCycle != Some(c));
      (TubCleanReminder(c) in o.intents <==> fires)
      && (forall i :: i in o.intents && i.TubCleanReminder? ==> i.cycles == c)
      && o.persisted.value.tclNotifiedAtCycle == (if fires then Some(c) else prior.tclNotifiedAtCycle)
  {
  }

  // ---------------------------------------------------------------------------
  // Properties of successive invocations
  // ---------------------------------------------------------------------------

  /** The outcome of invocations one after another, each reading what the last one wrote. */
  datatype RunOutcome = RunOutcome(store: ThinQState, intents: seq<Intent>)

  function Run(store: ThinQState, polls: seq<Poll>, cfg: Config): RunOutcome
    decreases |polls|
  {
    if polls == [] then RunOutcome(store, [])
    else
      var o := Step(store, polls[0], cfg);
      var rest := Run(o.persisted.GetOr(store), polls[1..], cfg);
      RunOutcome(rest.store, o.intents + rest.intents)
  }

  function ReminderCount(intents: seq<Intent>): nat {
    if intents == [] then 0
    else (if intents[0].TubCleanReminder? then 1 else 0) + ReminderCount(intents[1..])
  }

  function UnloadCount(intents: seq<Intent>): nat {
    if intents == [] then 0
    else (if intents[0].UnloadMessage? || intents[0].Announcement? then 1 else 0) + UnloadCount(intents[1..])
  }

  lemma {:induction false} CountsAppend(a: seq<Intent>, b: seq<Intent>)
    ensures ReminderCount(a + b) == ReminderCount(a) + ReminderCount(b)
    ensures UnloadCount(a + b) == UnloadCount(a) + UnloadCount(b)
    decreases |a|
  {
    if a == [] {
      assert a + b == b;
    } else {
      assert (a + b)[1..] == a[1..] + b;
      CountsAppend(a[1..], b);
    }
  }

  /** The record after a reminder for `c`, or one for which no reminder for `c` can be due. */
  predicate Settled(s: ThinQState, c: int) {
    s.tclDue == Some(c > 30) && (s.tclNotifiedAtCycle == Some(c) || !(c > 30 && c % 3 == 0))
  }

  /** Every written record is settled for the counter it read. */
  lemma StepSettles(prior: ThinQState, poll: Poll, cfg: Config)
    requires Step(prior, poll, cfg).persisted.Some?
    ensures Settled(Step(prior, poll, cfg).persisted.value, PollCycles(poll, cfg))
  {
    TubCleanReminderRule(prior, poll, cfg);
    PersistedFlags(prior, poll, cfg);
  }

  /** From a settled record, an invocation reading the same counter sends no reminder. */
  lemma SettledStepSilent(prior: ThinQState, poll: Poll, cfg: Config)
    requires Settled(prior, PollCycles(poll, cfg))
    ensures ReminderCount(Step(prior, poll, cfg).intents) == 0
  {
    var o := Step(prior, poll, cfg);
    if o.persisted.Some? {
      TubCleanReminderRule(prior, poll, cfg);
      NoReminderInside(o.intents);
    } else {
      ErrorsPersistNothing(prior, poll, cfg);
      NoReminderInside(o.intents);
    }
  }

  lemma {:induction false} NoReminderInside(intents: seq<Intent>)
    ensures (forall i :: i in intents ==> !i.TubCleanReminder?) ==> ReminderCount(intents) == 0
    decreases |intents|
  {
    if intents != [] {
      NoReminderInside(intents[1..]);
    }
  }

  lemma {:induction false} AtMostOneReminderInside(intents: seq<Intent>, c: int)
    requires forall i :: i in intents && i.TubCleanReminder? ==> i.cycles == c
    requires TubCleanReminder(c) in intents ==>
               intents[|intents| - 1] == TubCleanReminder(c) && TubCleanReminder(c) !in intents[..|intents| - 1]
    ensures ReminderCount(intents) <= 1
  {
    if TubCleanReminder(c) in intents {
      var n := |intents| - 1;
      assert intents == intents[..n] + [intents[n]];
      CountsAppend(intents[..n], [intents[n]]);
      NoReminderInside(intents[..n]);
      assert ReminderCount([intents[n]]) == 1;
    } else {
      NoReminderInside(intents);
    }
  }

  /** One invocation sends at most one tub-clean reminder. */
  lemma StepAtMostOneReminder(prior: ThinQState, poll: Poll, cfg: Config)
    ensures ReminderCount(Step(prior, poll, cfg).intents) <= 1
  {
    var o := Step(prior, poll, cfg);
    if o.persisted.Some? {
      var c := PollCycles(poll, cfg);
      TubCleanReminderRule(prior, poll, cfg);
      if TubCleanReminder(c) in o.intents {
        ReminderIsLast(prior, poll, cfg);
      }
      AtMostOneReminderInside(o.intents, c);
    } else {
      ErrorsPersistNothing(prior, poll, cfg);
      NoReminderInside(o.intents);
    }
  }

  lemma ReminderIsLast(prior: ThinQState, poll: Poll, cfg: Config)
    requires Step(prior, poll, cfg).persisted.Some?
    requires TubCleanReminder(PollCycles(poll, cfg)) in Step(prior, poll, cfg).intents
    ensures var sent := Step(prior, poll, cfg).intents;
      sent[|sent| - 1] == TubCleanReminder(PollCycles(poll, cfg))
      && TubCleanReminder(PollCycles(poll, cfg)) !in sent[..|sent| - 1]
  {
  }

  /** From a settled record, invocations reading the same counter send no reminder. */
  lemma {:induction false} SettledRunSilent(s: ThinQState, polls: seq<Poll>, cfg: Config, c: int)
    requires Settled(s, c)
    requires forall i :: 0 <= i < |polls| ==> PollCycles(polls[i], cfg) == c
    ensures ReminderCount(Run(s, polls, cfg).intents) == 0
    decreases |polls|
  {
    if polls != [] {
      var o := Step(s, polls[0], cfg);
      SettledStepSilent(s, polls[0], cfg);
      if o.persisted.Some? {
        StepSettles(s, polls[0], cfg);
      }
      SettledRunSilent(o.persisted.GetOr(s), polls[1..], cfg, c);
      CountsAppend(o.intents, Run(o.persisted.GetOr(s), polls[1..], cfg).intents);
    }
  }

  /**
   * Idempotence of the maintenance reminder: over any run of invocations that
   * all read the same counter, at most one tub-clean reminder is sent.
   */
  lemma {:induction false} AtMostOneReminderPerCount(s: ThinQState, polls: seq<Poll>, cfg: Config, c: int)
    requires forall i :: 0 <= i < |polls| ==> PollCycles(polls[i], cfg) == c
    ensures ReminderCount(Run(s, polls, cfg).intents) <= 1
    decreases |polls|
  {
    if polls != [] {
      var o := Step(s, polls[0], cfg);
      var next := o.persisted.GetOr(s);
      var rest := Run(next, polls[1..], cfg);
      CountsAppend(o.intents, rest.intents);
      if o.persisted.Some? {
        StepSettles(s, polls[0], cfg);
        SettledRunSilent(next, polls[1..], cfg, c);
        StepAtMostOneReminder(s, polls[0], cfg);
      } else {
        ErrorsPersistNothing(s, polls[0], cfg);
        NoReminderInside(o.intents);
        AtMostOneReminderPerCount(s, polls[1..], cfg, c);
      }
    }
  }

  /** The second of two invocations reading the same counter sends no tub-clean reminder. */
  lemma SecondStepSendsNoReminder(prior: ThinQState, p1: Poll, p2: Poll, cfg: Config)
    requires Step(prior, p1, cfg).persisted.Some?
    requires PollCycles(p2, cfg) == PollCycles(p1, cfg)
    ensures ReminderCount(Step(Step(prior, p1, cfg).persisted.value, p2, cfg).intents) == 0
  {
    StepSettles(prior, p1, cfg);
    SettledStepSilent(Step(prior, p1, cfg).persisted.value, p2, cfg);
  }

  /**
   * Tub-clean reminders do not re-arm after the counter is reset: from a
   * record that last notified at 33, a written invocation at 31 (the first
   * past 30, where `tclDue` changes) leaves the record settled for 33, so
   * the next reminder at 33 is never sent.
   */
  lemma ResetDoesNotReArm(s: ThinQState, p31: Poll, p33: Poll, cfg: Config)
    requires s.tclNotifiedAtCycle == Some(33)
    requires PollCycles(p31, cfg) == 31 && PollCycles(p33, cfg) == 33
    requires Step(s, p31, cfg).persisted.Some?
    ensures ReminderCount(Step(s, p31, cfg).intents) == 0
    ensures ReminderCount(Step(Step(s, p31, cfg).persisted.value, p33, cfg).intents) == 0
  {
    var s1 := Step(s, p31, cfg).persisted.value;
    TubCleanReminderRule(s, p31, cfg);
    PersistedFlags(s, p31, cfg);
    NoReminderInside(Step(s, p31, cfg).intents);
    assert Settled(s1, 33);
    SettledStepSilent(s1, p33, cfg);
  }

  /**
   * A dip of the counter re-sends: from a record that is due and notified at
   * 33, a written invocation reading 0 (a missing `TCLCount` reads as 0)
   * flips `tclDue`, and the next written invocation at 33 sends the reminder
   * for 33 again.
   */
  lemma DipReSends(s: ThinQState, p0: Poll, p33: Poll, cfg: Config)
    requires s.tclDue == Some(true) && s.tclNotifiedAtCycle == Some(33)
    requires PollCycles(p0, cfg) == 0 && PollCycles(p33, cfg) == 33
    requires Step(s, p0, cfg).persisted.Some?
    requires Step(Step(s, p0, cfg).persisted.value, p33, cfg).persisted.Some?
    ensures TubCleanReminder(33) in Step(Step(s, p0, cfg).persisted.value, p33, cfg).intents
  {
    var s1 := Step(s, p0, cfg).persisted.value;
    TubCleanReminderRule(s, p0, cfg);
    PersistedFlags(s, p0, cfg);
    assert s1.tclDue == Some(false) && s1.tclNotifiedAtCycle == Some(33);
    TubCleanReminderRule(s1, p33, cfg);
  }

  /** The stored course cannot be used: it is absent, or it is TUB CLEAN in some case. */
  predicate CourseBlocks(s: ThinQState) {
    s.washCourse.None? || EqualIgnoringCase(s.washCourse.value, "TUB CLEAN")
  }

  /** From such a record, an invocation writes nothing and sends at most an error report. */
  lemma BlockedStepWritesNothing(s: ThinQState, poll: Poll, cfg: Config)
    requires CourseBlocks(s)
    ensures Step(s, poll, cfg).persisted.None?
    ensures ReminderCount(Step(s, poll, cfg).intents) == 0 && UnloadCount(Step(s, poll, cfg).intents) == 0
  {
    if s.washCourse.Some? {
      UpperEqualsIffEqualIgnoringCase(s.washCourse.value, "TUB CLEAN");
    }
    ErrorsPersistNothing(s, poll, cfg);
    var sent := Step(s, poll, cfg).intents;
    if sent != [] {
      assert sent[1..] == [];
    }
  }

  /**
   * Stuck after a tub clean or a course-less record: every later run leaves
   * the store as it is and sends no reminder of either kind.
   */
  lemma {:induction false} BlockedRunStuck(s: ThinQState, polls: seq<Poll>, cfg: Config)
    requires CourseBlocks(s)
    ensures Run(s, polls, cfg).store == s
    ensures ReminderCount(Run(s, polls, cfg).intents) == 0 && UnloadCount(Run(s, polls, cfg).intents) == 0
    decreases |polls|
  {
    if polls != [] {
      var o := Step(s, polls[0], cfg);
      BlockedStepWritesNothing(s, polls[0], cfg);
      BlockedRunStuck(s, polls[1..], cfg);
      CountsAppend(o.intents, Run(s, polls[1..], cfg).intents);
    }
  }

  /** The washer is not reported running (or the invocation fails before it matters). */
  predicate WasherIdle(poll: Poll, cfg: Config) {
    match WasherSnapshot(poll, cfg)
    case None => true
    case Some(ws) => ws.state.None? || ToUpper(ws.state.value) != "RUNNING"
  }

  function PollTimes(polls: seq<Poll>): (times: seq<int>)
    ensures |times| == |polls| && forall i :: 0 <= i < |polls| ==> times[i] == polls[i].nowMs
  {
    if polls == [] then [] else [polls[0].nowMs] + PollTimes(polls[1..])
  }

  /** While the washer stays idle, an invocation sends an unload reminder only when a repeat is due, and keeps the end time. */
  lemma IdleStepUnloads(prior: ThinQState, poll: Poll, cfg: Config)
    requires WasherIdle(poll, cfg) && prior.washEndTime.Some?
    ensures var o := Step(prior, poll, cfg);
            var thresholdMs := DetermineThresholdDatetime(prior.washEndTime.value, cfg.thresholdHours);
      UnloadCount(o.intents) <= (if RepeatDue(poll.nowMs, thresholdMs, cfg.freqHrs, cfg.maxNotifications) then 1 else 0)
      && (o.persisted.Some? ==> o.persisted.value.washEndTime == prior.washEndTime)
  {
    var o := Step(prior, poll, cfg);
    match Evaluate(prior, poll, cfg)
    case Err(f) =>
    case Ok(Bypass) =>
    case Ok(Persist(s, intents)) =>
      var unload := UnloadIntents(prior.washEndTime.value, poll.quietHours, cfg);
      assert UnloadCount(unload) <= 1;
      if intents == unload + [TubCleanReminder(PollCycles(poll, cfg))] {
        CountsAppend(unload, [TubCleanReminder(PollCycles(poll, cfg))]);
      }
  }

  /**
   * The cap over an idle episode: while the washer stays idle and the polls
   * are at least a quarter hour apart, at most `maxNotifications` unload
   * reminders are sent for the stored end time.
   */
  lemma IdleRunUnloadCap(s: ThinQState, polls: seq<Poll>, cfg: Config)
    requires cfg.freqHrs > 0 && cfg.maxNotifications >= 0
    requires s.washEndTime.Some?
    requires forall i :: 0 <= i < |polls| ==> WasherIdle(polls[i], cfg)
    requires SpacedPolls(PollTimes(polls))
    ensures UnloadCount(Run(s, polls, cfg).intents) <= cfg.maxNotifications
  {
    var thresholdMs := DetermineThresholdDatetime(s.washEndTime.value, cfg.thresholdHours);
    IdleRunUnloads(s, polls, cfg);
    AtMostMaxRepeats(PollTimes(polls), thresholdMs, cfg.freqHrs, cfg.maxNotifications);
  }

  lemma {:induction false} IdleRunUnloads(s: ThinQState, polls: seq<Poll>, cfg: Config)
    requires s.washEndTime.Some?
    requires forall i :: 0 <= i < |polls| ==> WasherIdle(polls[i], cfg)
    ensures var thresholdMs := DetermineThresholdDatetime(s.washEndTime.value, cfg.thresholdHours);
      UnloadCount(Run(s, polls, cfg).intents) <= RepeatCount(PollTimes(polls), thresholdMs, cfg.freqHrs, cfg.maxNotifications)
    decreases |polls|
  {
    if polls != [] {
      var o := Step(s, polls[0], cfg);
      var next := o.persisted.GetOr(s);
      IdleStepUnloads(s, polls[0], cfg);
      IdleRunUnloads(next, polls[1..], cfg);
      CountsAppend(o.intents, Run(next, polls[1..], cfg).intents);
      assert PollTimes(polls)[1..] == PollTimes(polls[1..]);
    }
  }
}
