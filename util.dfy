/**
 * The predicates, the device classification and the repeat-notification
 * throttle of the laundry notifier, together with the persisted record and
 * the device snapshot they read.
 */
module Util {
  import opened Wrappers
  import opened DateTimeUtil

  // ---------------------------------------------------------------------------
  // Data model
  // ---------------------------------------------------------------------------

  /** The persisted record. Every field may be absent from the stored JSON. */
  datatype ThinQState = ThinQState(
    washCourse: Option<string>,
    washerRunning: Option<bool>,
    washStartTime: Option<int>,
    dryerStartTime: Option<int>,
    washEndTime: Option<int>,
    tclDue: Option<bool>,
    tclNotifiedAtCycle: Option<int>)

  /** What the state store returns when nothing has been stored yet. */
  const EmptyState := ThinQState(None, None, None, None, None, None, None)

  /** The `washerDryer` section of a device snapshot. Times are in minutes. */
  datatype WasherDryer = WasherDryer(
    state: Option<string>,
    remainTimeMinute: int,
    initialTimeMinute: int,
    course: Option<string>,
    tclCount: Option<int>)

  /**
   * A device from the device list: its numeric type and the `washerDryer`
   * section of its snapshot, absent when the snapshot or the section is.
   */
  datatype Device = Device(deviceType: int, washerDryer: Option<WasherDryer>)

  /** The numeric device types that count as a washer, and the dryer type. */
  datatype DeviceKinds = DeviceKinds(washerTypes: seq<int>, dryerType: int)

  /** The accumulator of the classification fold. */
  datatype LaundryDevices = LaundryDevices(washer: Option<Device>, dryer: Option<Device>)

  /** A push event: its code and its device type as a number (absent when not numeric). */
  datatype EventMessage = EventMessage(code: Option<string>, deviceType: Option<int>)

  /** An entry of the event history. */
  datatype Event = Event(message: string, sendDate: string)

  /** The exceptions one invocation can raise before it persists anything. */
  datatype Failure =
    | UnexpectedResponse     // washer, dryer or the washer's snapshot missing
    | MissingWasherState     // the washer snapshot has no `state` to upper-case
    | MissingWashCourse      // the stored record has no `washCourse` to upper-case
    | InvalidWashEndTime     // formatting the date of an absent `washEndTime`
    | MissingDryerSnapshot   // the dryer has no snapshot section to read `state` from

  const SUCCESSFUL_WASH_PREFIX: string := "0000"

  const NOT_RUNNING_STATUS: seq<string> := [
    "COOLDOWN",
    "POWEROFF",
    "POWERFAIL",
    "INITIAL",
    "PAUSE",
    "AUDIBLE_DIAGNOSIS",
    "FIRMWARE",
    "COURSE_DOWNLOAD",
    "ERROR"
  ]

  /** The quarter hour, in milliseconds, within which a repeat is due. */
  const REPEAT_WINDOW_MS := 900000

  // ---------------------------------------------------------------------------
  // Upper-casing (ASCII letters)
  // ---------------------------------------------------------------------------

  predicate IsLowerLetter(c: char) {
    'a' <= c <= 'z'
  }

  function UpperChar(c: char): (u: char)
    ensures !IsLowerLetter(u)
    ensures IsLowerLetter(c) ==> u as int == c as int - 32
    ensures !IsLowerLetter(c) ==> u == c
  {
    if IsLowerLetter(c) then (c as int - 32) as char else c
  }

  /** `toUpperCase`: each character upper-cased in place. */
  function ToUpper(s: string): (r: string)
    ensures |r| == |s|
    ensures forall i :: 0 <= i < |s| ==> r[i] == UpperChar(s[i])
  {
    if s == [] then [] else [UpperChar(s[0])] + ToUpper(s[1..])
  }

  /** No character of `s` is a lower-case letter. */
  predicate NoLowerLetters(s: string) {
    forall i :: 0 <= i < |s| ==> !IsLowerLetter(s[i])
  }

  /** Two characters are the same letter up to case, or the same character. */
  predicate SameIgnoringCase(c: char, d: char) {
    c == d
    || (IsLowerLetter(c) && d as int == c as int - 32)
    || (IsLowerLetter(d) && c as int == d as int - 32)
  }

  predicate EqualIgnoringCase(a: string, b: string) {
    |a| == |b| && forall i :: 0 <= i < |a| ==> SameIgnoringCase(a[i], b[i])
  }

  lemma ToUpperIdempotent(s: string)
    ensures ToUpper(ToUpper(s)) == ToUpper(s)
  {
  }

  /**
   * Comparing the upper-cased `s` with an upper-case literal `t` is comparing
   * `s` with `t` ignoring case.
   */
  lemma UpperEqualsIffEqualIgnoringCase(s: string, t: string)
    requires NoLowerLetters(t)
    ensures ToUpper(s) == t <==> EqualIgnoringCase(s, t)
  {
    if ToUpper(s) == t {
      forall i | 0 <= i < |s| ensures SameIgnoringCase(s[i], t[i]) {
        assert t[i] == UpperChar(s[i]);
      }
    }
    if EqualIgnoringCase(s, t) {
      forall i | 0 <= i < |s| ensures ToUpper(s)[i] == t[i] {
        assert !IsLowerLetter(t[i]);
      }
    }
  }

  // ---------------------------------------------------------------------------
  // State classifiers
  // ---------------------------------------------------------------------------

  /** `isRunning`: a state is present and is not POWEROFF in any case. */
  predicate IsRunning(state: Option<string>)
    ensures IsRunning(state) <==> state.Some? && !EqualIgnoringCase(state.value, "POWEROFF")
  {
    state.Some? && (UpperEqualsIffEqualIgnoringCase(state.value, "POWEROFF");
                    ToUpper(state.value) != "POWEROFF")
  }

  lemma IsRunningIgnoresCase(s: string)
    ensures IsRunning(Some(s)) <==> !EqualIgnoringCase(s, "POWEROFF")
    ensures IsRunning(Some(s)) == IsRunning(Some(ToUpper(s)))
  {
    UpperEqualsIffEqualIgnoringCase(s, "POWEROFF");
    ToUpperIdempotent(s);
  }

  lemma IsRunningExamples()
    ensures !IsRunning(None)
    ensures !IsRunning(Some("PowerOff")) && !IsRunning(Some("POWEROFF"))
    ensures IsRunning(Some("RUNNING")) && IsRunning(Some("PAUSE"))
  {
    IsRunningIgnoresCase("PowerOff");
    IsRunningIgnoresCase("POWEROFF");
    IsRunningIgnoresCase("RUNNING");
    IsRunningIgnoresCase("PAUSE");
  }

  /**
   * `isDryerOff`: no dryer, or its state is one of the not-running statuses
   * (exact, case-sensitive membership). Reading the state of a dryer that has
   * no snapshot section throws.
   */
  function IsDryerOff(dryer: Option<Device>): (r: Result<bool, Failure>)
    ensures r.Err? <==> dryer.Some? && dryer.value.washerDryer.None?
    ensures r.Err? ==> r.error == MissingDryerSnapshot
    ensures r == Ok(true) <==>
      dryer.None? || (dryer.value.washerDryer.Some? && dryer.value.washerDryer.value.state.Some?
                      && exists k :: 0 <= k < |NOT_RUNNING_STATUS| && NOT_RUNNING_STATUS[k] == dryer.value.washerDryer.value.state.value)
  {
    match dryer
    case None => Ok(true)
    case Some(d) =>
      if d.washerDryer.None? then Err(MissingDryerSnapshot)
      else
        var state := d.washerDryer.value.state;
        Ok(state.Some? && state.value in NOT_RUNNING_STATUS)
  }

  /** Membership in the status list is case-sensitive. */
  lemma IsDryerOffIsCaseSensitive(t: int, ws: WasherDryer)
    ensures IsDryerOff(Some(Device(t, Some(ws.(state := Some("POWEROFF")))))) == Ok(true)
    ensures IsDryerOff(Some(Device(t, Some(ws.(state := Some("poweroff")))))) == Ok(false)
    ensures IsDryerOff(Some(Device(t, Some(ws.(state := None))))) == Ok(false)
  {
    assert NOT_RUNNING_STATUS[1] == "POWEROFF";
    assert "poweroff" !in NOT_RUNNING_STATUS;
  }

  /** A dryer that is not off, and reports an upper-case state, is running. */
  lemma DryerNotOffIsRunning(d: Device)
    requires IsDryerOff(Some(d)) == Ok(false)
    requires d.washerDryer.Some? && d.washerDryer.value.state.Some?
    requires ToUpper(d.washerDryer.value.state.value) == d.washerDryer.value.state.value
    ensures IsRunning(d.washerDryer.value.state)
  {
    assert NOT_RUNNING_STATUS[1] == "POWEROFF";
  }

  predicate IsWasherType(t: int, kinds: DeviceKinds) {
    t in kinds.washerTypes
  }

  predicate StartsWith(s: string, prefix: string) {
    |prefix| <= |s| && s[..|prefix|] == prefix
  }

  /** `isWasherCycleFinished`: a successful-wash code from a washer-type device. */
  function IsWasherCycleFinished(event: EventMessage, kinds: DeviceKinds): (r: bool)
    ensures r ==> event.code.Some? && |event.code.value| >= 4
                  && forall i :: 0 <= i < 4 ==> event.code.value[i] == '0'
    ensures r ==> event.deviceType.Some? && IsWasherType(event.deviceType.value, kinds)
    ensures (event.code.Some? && event.deviceType.Some? && IsWasherType(event.deviceType.value, kinds)
             && |event.code.value| >= 4 && forall i :: 0 <= i < 4 ==> event.code.value[i] == '0') ==> r
  {
    event.code.Some? && StartsWith(event.code.value, SUCCESSFUL_WASH_PREFIX)
    && event.deviceType.Some? && IsWasherType(event.deviceType.value, kinds)
  }

  /** `newestEventValid`: the list is non-empty and its first event has a send date. */
  function NewestEventValid(events: seq<Event>): (r: bool)
    ensures events == [] ==> !r
    ensures events != [] ==> (r <==> |events[0].sendDate| > 0)
  {
    |events| > 0 && events[0].sendDate != ""
  }

  // ---------------------------------------------------------------------------
  // Classification fold of findLaundry
  // ---------------------------------------------------------------------------

  /** One step of the fold: a washer type overrides the washer, else the dryer type the dryer. */
  function Classify(accum: LaundryDevices, device: Device, kinds: DeviceKinds): LaundryDevices {
    if IsWasherType(device.deviceType, kinds) then accum.(washer := Some(device))
    else if device.deviceType == kinds.dryerType then accum.(dryer := Some(device))
    else accum
  }

  /** The fold over the device list, from an empty accumulator. */
  function Laundry(devices: seq<Device>, kinds: DeviceKinds): LaundryDevices
    decreases |devices|
  {
    if devices == [] then LaundryDevices(None, None)
    else Classify(Laundry(devices[..|devices| - 1], kinds), devices[|devices| - 1], kinds)
  }

  datatype Kind = WasherKind | DryerKind

  /** The branch of the fold that a device takes. */
  predicate OfKind(d: Device, k: Kind, kinds: DeviceKinds) {
    match k
    case WasherKind => IsWasherType(d.deviceType, kinds)
    case DryerKind => !IsWasherType(d.deviceType, kinds) && d.deviceType == kinds.dryerType
  }

  /** `pick` is the last device of kind `k` in `devices`, or absent when there is none. */
  ghost predicate LastOfKind(devices: seq<Device>, pick: Option<Device>, k: Kind, kinds: DeviceKinds) {
    match pick
    case None => forall i :: 0 <= i < |devices| ==> !OfKind(devices[i], k, kinds)
    case Some(d) =>
      exists i :: 0 <= i < |devices| && devices[i] == d && OfKind(d, k, kinds)
                  && forall j :: i < j < |devices| ==> !OfKind(devices[j], k, kinds)
  }

  lemma LastOfKindExtend(init: seq<Device>, d: Device, pick: Option<Device>, k: Kind, kinds: DeviceKinds)
    requires LastOfKind(init, pick, k, kinds)
    ensures LastOfKind(init + [d], if OfKind(d, k, kinds) then Some(d) else pick, k, kinds)
  {
    var s := init + [d];
    if OfKind(d, k, kinds) {
      assert s[|init|] == d;
    } else if pick.Some? {
      var i :| 0 <= i < |init| && init[i] == pick.value && OfKind(pick.value, k, kinds)
               && forall j :: i < j < |init| ==> !OfKind(init[j], k, kinds);
      assert s[i] == pick.value;
      assert forall j :: i < j < |s| ==> !OfKind(s[j], k, kinds) by {
        forall j | i < j < |s| ensures !OfKind(s[j], k, kinds) {
          if j < |init| { assert s[j] == init[j]; }
        }
      }
    } else {
      forall j | 0 <= j < |s| ensures !OfKind(s[j], k, kinds) {
        if j < |init| { assert s[j] == init[j]; }
      }
    }
  }

  /** The fold keeps the last washer-type device and the last dryer-type device. */
  lemma {:induction false} LaundryPicksLast(devices: seq<Device>, kinds: DeviceKinds)
    ensures LastOfKind(devices, Laundry(devices, kinds).washer, WasherKind, kinds)
    ensures LastOfKind(devices, Laundry(devices, kinds).dryer, DryerKind, kinds)
    decreases |devices|
  {
    if devices != [] {
      var n := |devices| - 1;
      var init, d := devices[..n], devices[n];
      assert devices == init + [d];
      var acc := Laundry(init, kinds);
      LaundryPicksLast(init, kinds);
      LastOfKindExtend(init, d, acc.washer, WasherKind, kinds);
      LastOfKindExtend(init, d, acc.dryer, DryerKind, kinds);
    }
  }

  /** `findLaundry`: the reduce over the device list, updating the accumulator in place. */
  method FindLaundry(devices: seq<Device>, kinds: DeviceKinds) returns (accum: LaundryDevices)
    ensures accum == Laundry(devices, kinds)
    ensures LastOfKind(devices, accum.washer, WasherKind, kinds)
    ensures LastOfKind(devices, accum.dryer, DryerKind, kinds)
  {
    accum := LaundryDevices(None, None);
    for i := 0 to |devices|
      invariant accum == Laundry(devices[..i], kinds)
    {
      var device := devices[i];
      assert devices[..i + 1][..i] == devices[..i];
      if IsWasherType(device.deviceType, kinds) {
        accum := accum.(washer := Some(device));
      } else if device.deviceType == kinds.dryerType {
        accum := accum.(dryer := Some(device));
      }
    }
    assert devices[..|devices|] == devices;
    LaundryPicksLast(devices, kinds);
  }

  // ---------------------------------------------------------------------------
  // Tub-clean guard
  // ---------------------------------------------------------------------------

  /**
   * `hasNotAlreadyNotifiedThisCycle`: the counter differs from the one last
   * notified, or the stored record has both fields and `tclDue` has flipped.
   */
  predicate HasNotAlreadyNotifiedThisCycle(prior: ThinQState, next: ThinQState, cycles: int) {
    (prior.tclDue.Some? && prior.tclNotifiedAtCycle.Some? && prior.tclDue != next.tclDue)
    || prior.tclNotifiedAtCycle != Some(cycles)
  }

  lemma HasNotAlreadyNotifiedCases(prior: ThinQState, next: ThinQState, cycles: int)
    ensures prior.tclNotifiedAtCycle != Some(cycles) ==> HasNotAlreadyNotifiedThisCycle(prior, next, cycles)
    ensures prior.tclNotifiedAtCycle == Some(cycles) ==>
      (HasNotAlreadyNotifiedThisCycle(prior, next, cycles) <==> prior.tclDue.Some? && prior.tclDue != next.tclDue)
    ensures prior.tclNotifiedAtCycle == Some(cycles) && prior.tclDue == next.tclDue ==>
      !HasNotAlreadyNotifiedThisCycle(prior, next, cycles)
  {
  }

  // ---------------------------------------------------------------------------
  // Repeat-notification throttle
  // ---------------------------------------------------------------------------

  /** Truncation toward zero, as JavaScript's `%` uses it. */
  function Trunc(q: real): (n: int)
    ensures q >= 0.0 ==> n as real <= q < n as real + 1.0
    ensures q < 0.0 ==> n as real - 1.0 < q <= n as real
  {
    if q >= 0.0 then q.Floor else -((-q).Floor)
  }

  /** JavaScript's `x % y` on numbers: the remainder of the truncated quotient. */
  function JsRem(x: real, y: real): real
    requires y != 0.0
  {
    x - y * Trunc(x / y) as real
  }

  /** The remainder takes the sign of the dividend and is smaller than the divisor in magnitude. */
  lemma JsRemSignAndBound(x: real, y: real)
    requires y != 0.0
    ensures x >= 0.0 ==> JsRem(x, y) >= 0.0
    ensures x <= 0.0 ==> JsRem(x, y) <= 0.0
    ensures -Abs(y) < JsRem(x, y) < Abs(y)
  {
    var q := x / y;
    var t := Trunc(q) as real;
    assert x == y * q;
    assert JsRem(x, y) == y * (q - t);
    var d := q - t;
    assert q >= 0.0 ==> 0.0 <= d < 1.0;
    assert q < 0.0 ==> -1.0 < d <= 0.0;
    ScaleBound(y, d);
  }

  /** A fraction of magnitude below one, scaled by `y`, stays below `y` in magnitude, with the sign of the product. */
  lemma ScaleBound(y: real, d: real)
    requires y != 0.0 && -1.0 < d < 1.0
    ensures -Abs(y) < y * d < Abs(y)
    ensures (y > 0.0) == (d >= 0.0) ==> y * d >= 0.0
    ensures (y > 0.0) != (d >= 0.0) ==> y * d <= 0.0
  {
    var m := Abs(y);
    var p := m * d;
    var lo, hi := d + 1.0, 1.0 - d;
    PositiveProduct(m, hi);
    PositiveProduct(m, lo);
    assert m * hi == m - p;
    assert m * lo == p + m;
    assert -m < p < m;
    if d > 0.0 {
      PositiveProduct(m, d);
    } else if d < 0.0 {
      PositiveProduct(m, -d);
      assert m * -d == -p;
    }
    if y > 0.0 {
      assert y * d == p;
    } else {
      assert y * d == -p;
    }
  }

  lemma PositiveProduct(a: real, b: real)
    requires a > 0.0 && b > 0.0
    ensures a * b > 0.0
  {
  }

  function Abs(y: real): real {
    if y < 0.0 then -y else y
  }

  /**
   * `shouldSendRepeatNotification`: with `hours` elapsed since the threshold,
   * `hours % freq < 0.25 && floor(hours / freq) < max`. A zero frequency makes
   * both sides NaN, and every comparison with NaN is false.
   */
  function ShouldSendRepeatNotification(nowMs: int, thresholdMs: int, freqHrs: int, maxNotifications: int): (r: bool)
    ensures freqHrs == 0 ==> !r
    ensures r && nowMs >= thresholdMs && freqHrs > 0 ==> maxNotifications >= 1
  {
    var hours := (nowMs - thresholdMs) as real / MS_PER_HOUR as real;
    if freqHrs == 0 then false
    else
      JsRem(hours, freqHrs as real) < 0.25 && (hours / freqHrs as real).Floor < maxNotifications
  }

  /** Real quotient of integers, split into the integer quotient and the remainder. */
  lemma RealQuotient(e: int, f: int)
    requires e >= 0 && f > 0
    ensures (e as real / f as real).Floor == e / f
    ensures e as real / f as real - (e / f) as real == (e % f) as real / f as real
  {
    var q, r := e / f, e % f;
    assert e == q * f + r;
    assert e as real == q as real * f as real + r as real;
    assert e as real / f as real == q as real + r as real / f as real;
    assert 0.0 <= r as real / f as real < 1.0;
  }

  /**
   * For a non-negative elapsed time and a positive frequency, the throttle is
   * the integer test on milliseconds: within the first quarter hour of a
   * frequency period, and in one of the first `maxNotifications` periods.
   */
  lemma ThrottleIntegerForm(nowMs: int, thresholdMs: int, freqHrs: int, maxNotifications: int)
    requires nowMs - thresholdMs >= 0 && freqHrs > 0
    ensures var e, f := nowMs - thresholdMs, freqHrs * MS_PER_HOUR;
      ShouldSendRepeatNotification(nowMs, thresholdMs, freqHrs, maxNotifications)
      <==> e % f < REPEAT_WINDOW_MS && e / f < maxNotifications
  {
    var e, f := nowMs - thresholdMs, freqHrs * MS_PER_HOUR;
    var hours := e as real / MS_PER_HOUR as real;
    var fr := freqHrs as real;
    assert hours / fr == e as real / f as real by {
      assert f as real == MS_PER_HOUR as real * fr;
    }
    RealQuotient(e, f);
    var q := e / f;
    assert Trunc(hours / fr) == q;
    assert JsRem(hours, fr) == (e % f) as real / MS_PER_HOUR as real by {
      assert JsRem(hours, fr) == hours - fr * q as real;
      assert fr * (hours / fr - q as real) == fr * ((e % f) as real / f as real);
      assert fr * ((e % f) as real / f as real) == (e % f) as real / MS_PER_HOUR as real;
    }
  }

  /** Before the threshold the throttle alone does not hold anything back. */
  lemma ThrottleOpenBeforeThreshold(nowMs: int, thresholdMs: int, freqHrs: int, maxNotifications: int)
    requires nowMs < thresholdMs && freqHrs > 0 && maxNotifications >= 0
    ensures ShouldSendRepeatNotification(nowMs, thresholdMs, freqHrs, maxNotifications)
  {
    var hours := (nowMs - thresholdMs) as real / MS_PER_HOUR as real;
    var fr := freqHrs as real;
    assert hours / fr < 0.0;
    assert (hours / fr).Floor < 0;
    var t := Trunc(hours / fr);
    assert JsRem(hours, fr) == fr * (hours / fr - t as real);
    assert hours / fr - t as real <= 0.0;
  }

  /** The cap: from `freqHrs * maxNotifications` hours on, no repeat is due. */
  lemma ThrottleCap(nowMs: int, thresholdMs: int, freqHrs: int, maxNotifications: int)
    requires freqHrs > 0 && maxNotifications >= 0
    requires nowMs - thresholdMs >= freqHrs * maxNotifications * MS_PER_HOUR
    ensures !ShouldSendRepeatNotification(nowMs, thresholdMs, freqHrs, maxNotifications)
  {
    var e, f := nowMs - thresholdMs, freqHrs * MS_PER_HOUR;
    assert f * maxNotifications == freqHrs * maxNotifications * MS_PER_HOUR;
    ThrottleIntegerForm(nowMs, thresholdMs, freqHrs, maxNotifications);
  }

  /**
   * Every repeat falls in the first quarter hour of one of the first
   * `maxNotifications` frequency periods after the threshold.
   */
  lemma ThrottleWindows(nowMs: int, thresholdMs: int, freqHrs: int, maxNotifications: int)
    requires nowMs - thresholdMs >= 0 && freqHrs > 0
    ensures var e, f := nowMs - thresholdMs, freqHrs * MS_PER_HOUR;
      ShouldSendRepeatNotification(nowMs, thresholdMs, freqHrs, maxNotifications)
      <==> exists k :: 0 <= k < maxNotifications && k * f <= e < k * f + REPEAT_WINDOW_MS
  {
    var e, f := nowMs - thresholdMs, freqHrs * MS_PER_HOUR;
    ThrottleIntegerForm(nowMs, thresholdMs, freqHrs, maxNotifications);
    if ShouldSendRepeatNotification(nowMs, thresholdMs, freqHrs, maxNotifications) {
      var k := e / f;
      assert e == k * f + e % f;
      assert k * f <= e < k * f + REPEAT_WINDOW_MS;
    }
    if exists k :: 0 <= k < maxNotifications && k * f <= e < k * f + REPEAT_WINDOW_MS {
      var k :| 0 <= k < maxNotifications && k * f <= e < k * f + REPEAT_WINDOW_MS;
      WindowQuotient(e, f, k);
    }
  }

  lemma WindowQuotient(e: int, f: int, k: int)
    requires f >= MS_PER_HOUR && k >= 0 && k * f <= e < k * f + REPEAT_WINDOW_MS
    ensures e / f == k && e % f == e - k * f
  {
    DivUnique(e, f, k, e - k * f);
  }

  /** The quotient and remainder of Euclidean division are the only ones. */
  lemma DivUnique(e: int, f: int, q: int, r: int)
    requires f > 0 && e == q * f + r && 0 <= r < f
    ensures e / f == q && e % f == r
  {
    var q', r' := e / f, e % f;
    assert e == q' * f + r';
    if q > q' {
      MulLe(q' + 1, q, f);
      assert false;
    } else if q < q' {
      MulLe(q + 1, q', f);
      assert false;
    }
  }

  lemma MulLe(x: int, y: int, f: int)
    requires x <= y && f >= 0
    ensures x * f <= y * f
  {
    assert y * f - x * f == (y - x) * f;
  }

  /** With frequency 3 h and at most 2 repeats (the tests' configuration). */
  lemma ThrottleTestScenarios(thresholdMs: int)
    ensures !ShouldSendRepeatNotification(thresholdMs + 3 * MS_PER_HOUR + 20 * 60000, thresholdMs, 3, 2)
    ensures !ShouldSendRepeatNotification(thresholdMs + 4 * MS_PER_HOUR + 20 * 60000, thresholdMs, 3, 2)
    ensures !ShouldSendRepeatNotification(thresholdMs + 6 * MS_PER_HOUR + 20 * 60000, thresholdMs, 3, 2)
    ensures !ShouldSendRepeatNotification(thresholdMs + 7 * MS_PER_HOUR + 20 * 60000, thresholdMs, 3, 2)
    ensures ShouldSendRepeatNotification(thresholdMs + 3 * MS_PER_HOUR + 10 * 60000, thresholdMs, 3, 2)
  {
    ThrottleIntegerForm(thresholdMs + 3 * MS_PER_HOUR + 20 * 60000, thresholdMs, 3, 2);
    ThrottleIntegerForm(thresholdMs + 4 * MS_PER_HOUR + 20 * 60000, thresholdMs, 3, 2);
    ThrottleIntegerForm(thresholdMs + 6 * MS_PER_HOUR + 20 * 60000, thresholdMs, 3, 2);
    ThrottleIntegerForm(thresholdMs + 7 * MS_PER_HOUR + 20 * 60000, thresholdMs, 3, 2);
    ThrottleIntegerForm(thresholdMs + 3 * MS_PER_HOUR + 10 * 60000, thresholdMs, 3, 2);
  }

  /** Poll times, increasing, each at least a quarter hour after the one before. */
  ghost predicate SpacedPolls(times: seq<int>) {
    forall i, j :: 0 <= i < j < |times| ==> times[j] - times[i] >= REPEAT_WINDOW_MS
  }

  /** A poll at `nowMs` finds the threshold passed and a repeat due. */
  predicate RepeatDue(nowMs: int, thresholdMs: int, freqHrs: int, maxNotifications: int) {
    HasThresholdTimePassed(nowMs, thresholdMs) && ShouldSendRepeatNotification(nowMs, thresholdMs, freqHrs, maxNotifications)
  }

  /** How many of the poll times find a repeat due. */
  function RepeatCount(times: seq<int>, thresholdMs: int, freqHrs: int, maxNotifications: int): nat {
    if times == [] then 0
    else (if RepeatDue(times[0], thresholdMs, freqHrs, maxNotifications) then 1 else 0)
         + RepeatCount(times[1..], thresholdMs, freqHrs, maxNotifications)
  }

  /**
   * Polled at least a quarter hour apart, the threshold test and the throttle
   * together let through at most `maxNotifications` repeats.
   */
  lemma AtMostMaxRepeats(times: seq<int>, thresholdMs: int, freqHrs: int, maxNotifications: int)
    requires freqHrs > 0 && maxNotifications >= 0
    requires SpacedPolls(times)
    ensures RepeatCount(times, thresholdMs, freqHrs, maxNotifications) <= maxNotifications
  {
    forall i | 0 <= i < |times| && RepeatDue(times[i], thresholdMs, freqHrs, maxNotifications)
      ensures (times[i] - thresholdMs) / (freqHrs * MS_PER_HOUR) >= 0
    {
      DivMonotone(0, times[i] - thresholdMs, freqHrs * MS_PER_HOUR);
    }
    RepeatsFromPeriod(times, thresholdMs, freqHrs, maxNotifications, 0);
  }

  /**
   * The cap needs the spacing: with a cap of one, polls 1 and 14 minutes
   * after the threshold both find a repeat due.
   */
  lemma CapNeedsSpacing(thresholdMs: int)
    ensures !SpacedPolls([thresholdMs + 60000, thresholdMs + 14 * 60000])
    ensures RepeatCount([thresholdMs + 60000, thresholdMs + 14 * 60000], thresholdMs, 3, 1) == 2
  {
    var times := [thresholdMs + 60000, thresholdMs + 14 * 60000];
    ThrottleIntegerForm(times[0], thresholdMs, 3, 1);
    ThrottleIntegerForm(times[1], thresholdMs, 3, 1);
    assert 60000 % (3 * MS_PER_HOUR) == 60000 && 60000 / (3 * MS_PER_HOUR) == 0;
    assert (14 * 60000) % (3 * MS_PER_HOUR) == 14 * 60000 && (14 * 60000) / (3 * MS_PER_HOUR) == 0;
    assert RepeatDue(times[0], thresholdMs, 3, 1) && RepeatDue(times[1], thresholdMs, 3, 1);
    assert times[1..] == [times[1]];
    assert RepeatCount([times[1]], thresholdMs, 3, 1) == 1;
  }

  lemma {:induction false} RepeatsFromPeriod(times: seq<int>, thresholdMs: int, freqHrs: int, maxNotifications: int, lo: int)
    requires freqHrs > 0 && 0 <= lo
    requires SpacedPolls(times)
    requires forall i :: 0 <= i < |times| && RepeatDue(times[i], thresholdMs, freqHrs, maxNotifications)
               ==> (times[i] - thresholdMs) / (freqHrs * MS_PER_HOUR) >= lo
    ensures RepeatCount(times, thresholdMs, freqHrs, maxNotifications) <= if lo >= maxNotifications then 0 else maxNotifications - lo
    decreases |times|
  {
    if times != [] {
      var f := freqHrs * MS_PER_HOUR;
      var rest := times[1..];
      assert SpacedPolls(rest) by {
        forall i, j | 0 <= i < j < |rest| ensures rest[j] - rest[i] >= REPEAT_WINDOW_MS {
          assert rest[i] == times[i + 1] && rest[j] == times[j + 1];
        }
      }
      if RepeatDue(times[0], thresholdMs, freqHrs, maxNotifications) {
        var e := times[0] - thresholdMs;
        ThrottleIntegerForm(times[0], thresholdMs, freqHrs, maxNotifications);
        var k := e / f;
        assert lo <= k < maxNotifications;
        assert e - k * f < REPEAT_WINDOW_MS by {
          assert e == k * f + e % f;
        }
        forall i | 0 <= i < |rest| && RepeatDue(rest[i], thresholdMs, freqHrs, maxNotifications)
          ensures (rest[i] - thresholdMs) / f >= k + 1
        {
          assert rest[i] == times[i + 1];
          assert times[i + 1] - times[0] >= REPEAT_WINDOW_MS;
          var ei := rest[i] - thresholdMs;
          ThrottleIntegerForm(rest[i], thresholdMs, freqHrs, maxNotifications);
          var ki := ei / f;
          assert ei == ki * f + ei % f;
          assert ki >= k by {
            DivMonotone(e, ei, f);
          }
          assert ki != k;
        }
        RepeatsFromPeriod(rest, thresholdMs, freqHrs, maxNotifications, k + 1);
      } else {
        forall i | 0 <= i < |rest| && RepeatDue(rest[i], thresholdMs, freqHrs, maxNotifications)
          ensures (rest[i] - thresholdMs) / f >= lo
        {
          assert rest[i] == times[i + 1];
        }
        RepeatsFromPeriod(rest, thresholdMs, freqHrs, maxNotifications, lo);
      }
    }
  }

  lemma DivMonotone(a: int, b: int, f: int)
    requires 0 <= a <= b && f > 0
    ensures a / f <= b / f
  {
    var qa, qb := a / f, b / f;
    assert a == qa * f + a % f && b == qb * f + b % f;
    if qa > qb {
      MulLe(qb + 1, qa, f);
      assert false;
    }
  }
}
