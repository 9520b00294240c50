/** The polling back-off of oci2c_wait: while the controller reports a
    transfer in progress, how long to sleep given the microseconds elapsed
    since the wait began, and when to give up. */
module OcoresPoll {

  /** Give up once this many microseconds have elapsed. */
  const TIMEOUT_US: int := 2000

  /** Status reads one wait performs at most (see ReadBudget). */
  const MAX_POLLS: nat := 23

  /** The tier chosen for one poll: sleep for lo..hi microseconds, or time out. */
  datatype Backoff = SleepFor(lo: nat, hi: nat) | TimedOut

  /** The tier choice: about 100us first, about 20us in the window where a
      byte usually completes, then about 250us until the timeout. */
  function BackoffFor(elapsed: int): (b: Backoff)
    ensures b.TimedOut? <==> elapsed >= TIMEOUT_US
    ensures b.SleepFor? ==> 10 <= b.lo <= b.hi
    ensures b.SleepFor? ==> elapsed + b.lo <= TIMEOUT_US + 200
    ensures elapsed < 80 ==> b == SleepFor(80, 100)
    ensures 80 <= elapsed < 200 ==> b == SleepFor(10, 20)
    ensures 200 <= elapsed < TIMEOUT_US ==> b == SleepFor(200, 250)
  {
    if elapsed < 80 then SleepFor(80, 100)
    else if elapsed < 200 then SleepFor(10, 20)
    else if elapsed < TIMEOUT_US then SleepFor(200, 250)
    else TimedOut
  }

  /** An upper bound on the sleeps still to come when `elapsed` microseconds
      have passed, whatever the scheduler adds to each sleep. */
  function ReadBudget(elapsed: int): nat
  {
    if elapsed >= TIMEOUT_US then 0
    else if elapsed >= 200 then (TIMEOUT_US - elapsed + 199) / 200
    else if elapsed >= 80 then (209 - elapsed) / 10 + 9
    else 22
  }

  /** Every sleep the back-off chooses spends at least one unit of the
      budget, however long the sleep overran; and the budget never grows as
      time passes. Together: a wait reads STATUS at most MAX_POLLS times. */
  lemma SleepSpendsBudget(elapsed: int, later: int)
    requires elapsed >= 0 && BackoffFor(elapsed).SleepFor?
    requires later >= elapsed + BackoffFor(elapsed).lo
    ensures ReadBudget(later) + 1 <= ReadBudget(elapsed)
    ensures ReadBudget(elapsed) + 1 <= MAX_POLLS
  {
  }
}
