/**
 * The state record of the Pomodoro timer (`pomodoroState`) and the split of
 * the seconds left into what the timer display shows.
 */
module Pomodoro {

  /** `{isRunning, isPaused, timeLeft, isBreak, workDuration, breakDuration}`; durations in minutes. */
  datatype PomodoroState = PomodoroState(
    isRunning: bool,
    isPaused: bool,
    timeLeft: int,
    isBreak: bool,
    workDuration: int,
    breakDuration: int)

  /** The state a planner starts with and `clearAllData` restores: idle, work phase, 25 and 5 minutes. */
  const Default: PomodoroState := PomodoroState(false, false, 25 * 60, false, 25, 5)

  /** The length in seconds of the phase the timer is in. */
  function PhaseSeconds(s: PomodoroState): int {
    (if s.isBreak then s.breakDuration else s.workDuration) * 60
  }

  /** `n % d` in JavaScript: the remainder takes the sign of the dividend. */
  function JsRem(n: int, d: nat): int
    requires d > 0
  {
    if n >= 0 then n % d else -((-n) % d)
  }

  /**
   * `Math.floor(timeLeft / 60)` and `timeLeft % 60`. For a non-negative time
   * they are minutes and seconds that add up to it; for a negative time both
   * come out non-positive and the pair no longer adds up.
   */
  function Display(timeLeft: int): (r: (int, int))
    ensures timeLeft >= 0 ==> 0 <= r.1 < 60 && r.0 >= 0 && r.0 * 60 + r.1 == timeLeft
    ensures timeLeft < 0 ==> r.0 < 0 && -60 < r.1 <= 0
  {
    (timeLeft / 60, JsRem(timeLeft, 60))
  }

  /** One second before zero the display is -1:-1 rather than a valid time. */
  lemma DisplayOfMinusOne()
    ensures Display(-1) == (-1, -1)
  {
  }
}
