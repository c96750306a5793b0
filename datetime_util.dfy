/**
 * Threshold arithmetic on epoch milliseconds: the unload-reminder threshold
 * a whole number of hours after an event, and whether it has passed.
 */
module DateTimeUtil {

  const MS_PER_MINUTE := 60000
  const MS_PER_HOUR := 3600000

  /** Minutes to milliseconds. */
  function MinToMs(minutes: int): (ms: int)
    ensures minutes >= 0 ==> ms >= 0
    ensures ms % MS_PER_MINUTE == 0
  {
    minutes * MS_PER_MINUTE
  }

  /**
   * `determineThresholdDatetime`: a copy of the event time moved forward by
   * `thresholdHours` hours; the event time itself is a value and stays as it is.
   */
  function DetermineThresholdDatetime(eventMs: int, thresholdHours: int): (thresholdMs: int)
    ensures (thresholdMs - eventMs) % MS_PER_HOUR == 0
    ensures thresholdHours >= 0 ==> thresholdMs >= eventMs
    ensures thresholdHours > 0 ==> thresholdMs > eventMs
  {
    eventMs + thresholdHours * MS_PER_HOUR
  }

  /** `hasThresholdTimePassed`: strictly after the threshold. */
  predicate HasThresholdTimePassed(nowMs: int, thresholdMs: int) {
    nowMs > thresholdMs
  }

  /** 2021-11-01T12:00Z (1635768000000 ms) with a 3-hour threshold gives 15:00Z. */
  lemma ThresholdExample()
    ensures DetermineThresholdDatetime(1635768000000, 3) == 1635778800000
  {
  }

  /** A later event never gives an earlier threshold; the threshold moves with the event. */
  lemma ThresholdMonotone(e1: int, e2: int, thresholdHours: int)
    requires e1 <= e2
    ensures DetermineThresholdDatetime(e1, thresholdHours) <= DetermineThresholdDatetime(e2, thresholdHours)
    ensures DetermineThresholdDatetime(e2, thresholdHours) - DetermineThresholdDatetime(e1, thresholdHours) == e2 - e1
  {
  }

  /** The threshold has passed exactly when more than `thresholdHours` hours have gone by since the event. */
  lemma PassedIffHoursElapsed(nowMs: int, eventMs: int, thresholdHours: int)
    ensures HasThresholdTimePassed(nowMs, DetermineThresholdDatetime(eventMs, thresholdHours))
            <==> nowMs - eventMs > thresholdHours * MS_PER_HOUR
  {
  }

  /** Not at the threshold instant itself; and once passed, passed at every later time. */
  lemma PassedIsStrictAndStays(nowMs: int, laterMs: int, thresholdMs: int)
    requires nowMs <= laterMs
    ensures !HasThresholdTimePassed(thresholdMs, thresholdMs)
    ensures HasThresholdTimePassed(nowMs, thresholdMs) ==> HasThresholdTimePassed(laterMs, thresholdMs)
  {
  }
}
