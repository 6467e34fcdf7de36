# pomo — a verified model of the Pomodoro timer's logic

`pomo.py` is a terminal Pomodoro timer. It asks for a study length in
minutes, a break length and a number of cycles. It then counts every study
phase down second by second, drawing `mm:ss` and a 20-cell progress bar on
each tick. After each study phase it shows the break messages. At the end it
asks whether to run again, and it keeps asking until the answer is `yes` or
`no` in any letter case.

This project models that logic with the terminal taken away. Each screen the
program draws becomes one entry in a sequence that the methods return, and
the terminal's input becomes finite sequences of values and lines.

- `progress.dfy` (module `Progress`): the per-tick arithmetic. This is the
  `divmod` split into minutes and seconds, the filled width of the bar and the
  bar string. Each is a pure function.
- `timer.dfy` (module `Timer`): `run_pomodoro`. The method `RunPomodoro` has
  the loop over the cycles. The inner countdown loop, which decrements
  `seconds` once per drawn frame, is the method `StudyCountdown`. Both are
  proved equal to the specification functions `Session` and `StudyPhase`, and
  the lemmas state what those traces contain.
- `confirmation.dfy` (module `Confirmation`): `get_user_confirmation`. It is a
  retry loop over the lines typed at the prompt, with ASCII lower-casing. It
  returns the first valid answer and the number of "Invalid input" messages
  shown before it.
- `driver.dfy` (module `Driver`): the restart loop of `main`. `RunSessions`
  runs the timer for each round's settings and then asks for confirmation. It
  stops on `no`, repeats on `yes`, and stops when the timer fails or the input
  runs out. It is proved equal to the function `Drive`, and `DriveOutcome`
  characterises how the loop ends.

Behaviour of the code that the model keeps:

- The three settings are not range-checked. A study length of zero or less
  draws no tick. A cycle count of zero or less runs no cycle and only clears
  the screen.
- A negative break length makes `time.sleep(break_time * 60)` raise
  `ValueError` (pomo.py:86). The first cycle then ends after its "Time's up"
  screen, the exception leaves `main`, and the program stops. The model
  returns `completed == false` (`Completes`) and the driver stops with
  `Crashed`.
- The filled width is computed with exact integer floor division. That is
  `(total - seconds) * 20 / total`, which always lies in `[0, 19]`.
- An input stream that holds no further valid answer, or no further round of
  settings, stands for a prompt that would block forever. The model stops
  there with `OutOfInput`.

## Model

| member | source | states |
|---|---|---|
| Progress.SplitTime | pomo.py:63 | `divmod(seconds, 60)` gives minutes and seconds with `m * 60 + s == seconds` and `0 <= s < 60`, and `m >= 0` for a non-negative count |
| Progress.FilledWidth | pomo.py:66-68 | needs `0 < seconds <= total`, so the divisor `minutes * 60` is positive; the filled width lies in `[0, 19]` and is 0 when no time has elapsed |
| Progress.FilledWidthFloor | pomo.py:66-68 | the filled width is `floor(elapsed / total * 20)`: `w * total <= elapsed * 20 < (w + 1) * total` |
| Progress.FilledWidthMonotone | pomo.py:66-68 | fewer seconds left never gives fewer filled cells |
| Progress.Repeat | pomo.py:70 | Python's `n * c`: `n` copies of `c`, and the empty string when `n <= 0` |
| Progress.Bar | pomo.py:67-70 | for a width in `[0, 20]` the bar is 22 characters: `[`, then `#` in cells `1..filled`, spaces up to cell 20, then `]` |
| Progress.FilledOfBar | pomo.py:68-70 | counting the `#` in a drawn bar gives back the filled width (a round trip) |
| Progress.BarMonotone | pomo.py:70 | every cell filled in a narrower bar is filled in a wider one |
| Timer.TickAt | pomo.py:63-75 | a tick frame carries the cycle header, an `mm:ss` that adds up to the remaining seconds, a filled width in `[0, 19]`, and exactly the bar `Bar(filled)` that pomo.py:70 builds, 22 characters with that many `#` |
| Timer.Countdown | pomo.py:62-81 | counting down from `seconds` draws exactly `seconds` frames, and none when `seconds <= 0` |
| Timer.StudyCountdown | pomo.py:60-81 | the inner while loop, with `seconds` starting at `minutes * 60` and decremented once per frame, draws exactly `StudyPhase` |
| Timer.RunPomodoro | pomo.py:57-95 | the cycle loop draws exactly `Session(minutes, break, count)` and completes unless a cycle is run with a negative break |
| Timer.CountdownAt | pomo.py:62-81 | frame `t` of a countdown from `seconds` is the frame for `seconds - t` remaining |
| Timer.StudyPhaseTick | pomo.py:60-81 | a study phase has `minutes * 60` frames; frame `t` shows `minutes * 60 - t` seconds left (with `0 <= sec < 60`), a filled width of `floor(t * 20 / (minutes * 60))` with the bar `Bar(filled)` of 22 characters laid out as `Progress.Bar` states, and its cycle header |
| Timer.StudyPhaseProgress | pomo.py:60-81 | the bar is empty on the first tick and never shrinks, and the remaining time drops by exactly one second per tick |
| Timer.NoTicksWithoutStudyTime | pomo.py:60-66 | a study length of 0 or less draws no tick, so the bar's division is never reached |
| Timer.CyclesLength | pomo.py:59-92 | `n` cycles draw `n` blocks of `StudySeconds + 2` screens |
| Timer.CyclesInOrder | pomo.py:59-92 | cycle `j + 1` directly follows the first `j` cycles: the cycles run in order 1..n, and each header shows its own number and the total |
| Timer.SessionLength | pomo.py:59-95 | a run draws `count * (ticks + 2) + 1` screens; with no cycle it draws only the blank screen; with a negative break it draws one study phase and its "Time's up" screen |
| Timer.CountdownTicks | pomo.py:62-81 | a countdown from `seconds` contains exactly `max(seconds, 0)` tick frames |
| Timer.CycleTicks | pomo.py:60-92 | one completed cycle contains exactly one study phase of tick frames; its two break screens are not ticks |
| Timer.CyclesTicks | pomo.py:59-92 | `n` cycles contain `n * StudySeconds(minutes)` tick frames |
| Timer.SessionTicks | pomo.py:59-95 | a completed run draws `max(count, 0) * max(minutes * 60, 0)` ticks; a failed run draws one study phase of ticks |
| Confirmation.LowerChar | pomo.py:39 | maps `A..Z` onto `a..z` letter for letter and leaves every other character alone |
| Confirmation.Lower | pomo.py:39 | lower-casing keeps the length and lower-cases each character |
| Confirmation.LowerIsYes | pomo.py:39-40 | a line is accepted as `yes` exactly when it spells y-e-s in any letter case; `y`, the empty line and longer lines are rejected |
| Confirmation.LowerIsNo | pomo.py:39-40 | a line is accepted as `no` exactly when it spells n-o in any letter case |
| Confirmation.GetUserConfirmation | pomo.py:36-45 | returns the lower-cased first valid line, which is `yes` or `no`; every earlier line was invalid and produced exactly one invalid-input message; with no valid line it reads everything and returns nothing |
| Confirmation.Answers | pomo.py:36-45 | the answers that successive prompts obtain are all `yes` or `no`, and there are no more of them than lines |
| Confirmation.AnswersAfterPrompt | pomo.py:36-41 | a prompt that accepts line `n`, after rejecting all lines before it, takes the first answer and leaves the rest of the stream to the next prompt |
| Confirmation.AnswersOfInvalid | pomo.py:36-45 | a stream without a valid line yields no answer |
| Driver.RunSessions | pomo.py:108-127 | the restart loop ends as `Drive` says, and its screen is the timer runs of the rounds it started, in order |
| Driver.NextAnswer | pomo.py:123 | one confirmation prompt on the remaining lines takes the next answer of the stream and strictly consumes lines, or finds that no answer is left |
| Driver.DriveNext | pomo.py:123-127 | after a round that completes, the answer `no` ends the loop with that round, and any other answer leaves the rest of the run to the remaining settings and answers |
| Driver.DriveOutcome | pomo.py:108-127 | every round but the last finished and was answered `yes`; the loop ends `Declined` exactly when the last round was answered `no`, and `Crashed` exactly when the last round's timer failed; otherwise the settings or the answers ran out |

## Left out

- The curses calls (`initscr`, `echo`, `curs_set`, `clear`, `addstr`, `refresh`, `doupdate`, `getstr`) are left out. Each drawn screen is a `Screen` value instead, one per `screen.clear()`. The prompt screens of the input functions are not in the trace. `GetUserConfirmation` counts the confirmation prompt's invalid-input messages at the point where the code shows them, instead of drawing them.
- The `finally` block of `main` (pomo.py:133-138) is left out. It restores the terminal after every round, including a round answered `yes`. It is foreign library state.
- The `time.sleep` pacing (1 s per tick, the break, 3 s, 2 s) is left out. The one exception is the `ValueError` that a negative break length raises, which is modelled.
- A break length so large that `time.sleep` overflows is not modelled.
- The percentage text `{progress * 100:.1f}` (pomo.py:76) is left out because it is floating point.
- Progress.FilledWidth: computed with exact integer floor division, not through a Python float. The model claims no bit-exact agreement with `int(progress * 20)` where float rounding could differ.
- Parsing the three settings with `int(...decode())` (pomo.py:15-24) is not modelled. `get_user_input` is not part of this model. Its values arrive as `Params`, and the `ValueError` on non-numeric text is not modelled.
- `KeyboardInterrupt` handling (pomo.py:129-131) is left out because it is driven by a signal.
- Confirmation.Lower: lower-cases ASCII letters only. Python's `str.lower` is full Unicode. The model and the source agree on which lines are accepted for ASCII input.
- Driver.RunSessions: the input is finite, so a prompt that would block forever becomes the `OutOfInput` outcome.
- The code does not validate the settings and restores the terminal after every round; the model follows the code.
