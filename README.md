# Shutdown timer: the countdown controller

A Dafny model of the controller of the shutdown-timer window (`ShutdownApp` in
`src/shutdown_timer.py`). The user sets a duration in a time-edit widget:
with preset buttons, by resetting it to 00:00, or by typing into it or
stepping it with its arrows, which the widget handles by itself and which
can also set the seconds. **Start** turns the
hours and minutes into seconds, refuses zero with a warning, and otherwise
schedules an operating-system shutdown (`shutdown -s -t N`). It shows the
first value on an LCD and arms a one-second timer. Each **tick** shows the
remaining seconds as `HH:MM:SS` and counts one down. At zero the tick stops
the timer and shows `00:00:00`. **Stop** cancels the shutdown
(`shutdown -a`) whatever the state. It also stops the timer and resets the
count and the display.

Files:

- `wrappers.dfy`: the `Option` type that stands for the keyword arguments
  that may be omitted (`hours=None`, `minutes=None`).
- `clock.dfy` (module `Clock`): the `HH:MM:SS` formatting as pure functions.
  It is the two `divmod` steps and the `{:02}` field format. A parser reads
  the text back; the round trip is proved.
- `shutdown_timer.dfy` (module `ShutdownTimer`): the controller state
  `AppState`. One pure step function per operation is its specification:
  `Preset`, `StartStep`, `TickStep`, `StopStep`. The lemmas about sequences
  of steps sit beside them. The class `ShutdownApp` has the same fields
  (time-edit value, `remaining`, timer `active` flag, LCD text, command log)
  and updates them in place. Each method is proved to take exactly its step
  and to keep the invariant `Inv`: the time-edit holds a valid time, the
  remaining count stays between 0 and the largest duration, and a stopped
  timer has nothing left to count.

How the environment is represented:

- The Qt timer becomes the `active` flag plus an explicit `UpdateLcd` call
  for each timeout.
- The warning message box becomes the `warned` result of `StartTimer`.
- The two shell commands become `Schedule(n)` and `Cancel` entries appended
  to `log`.
- The initial time-edit value and LCD text come from the designer file,
  which is not part of this model. They are parameters of the constructor.
- A direct edit of the time-edit by the user runs no code of the window; it
  is the `EditTime` method, which accepts any valid time of day.
- `lcd` is the whole string handed to the LCD widget. How many of its
  rightmost characters the widget shows depends on the digit count set in
  the designer file.

Behaviour kept as the code has it:

- Start ignores the seconds of the time-edit (`StartIgnoresSeconds`).
- Nothing guards against starting while the timer runs. A second start
  issues a second `Schedule(n)` command without a `Cancel`; what the
  operating system does with it is not modelled.
- A refused zero start still sets `remaining_seconds` to 0. If the timer was
  running, the next tick ends the display countdown while the shutdown
  scheduled earlier stays pending (`RejectedStartAbandonsCountdown`). The
  timer being still armed describes the state right after the count is
  overwritten: the warning box is modal and runs its own event loop, so the
  stopping tick usually fires before the start handler returns, which is
  the same start step followed by the same tick. When
  the timer is idle, the refused start changes nothing
  (`RejectedStartWhenIdle`).
- The preset buttons set the hour or the minute field to 15, 30 or 45
  minutes or to 1, 2 or 3 hours; they do not add to it (`PresetSets`,
  `PresetIdempotent`).
- `update_lcd` does not check whether the timer is running. Under the
  invariant a stopped timer has 0 remaining, so a stray tick only shows
  `00:00:00`.
- Stop leaves the time-edit as it is.

`set_timeedit` builds `QTime(h, m)`, whose seconds are 0. If `(h, m)` is not
a valid time of day, that QTime is invalid. The model takes it that the
time-edit then keeps its value, as Qt's `QTimeEdit.setTime` ignores invalid
times. The buttons in the source only pass values in range.

## Model

| member | source | states |
|---|---|---|
| `Clock.Decimal` | src/shutdown_timer.py:81 | decimal printing of a field; its digits, their value and the absence of a leading zero are stated by `Clock.DecimalDigits` |
| `Clock.Pad2` | src/shutdown_timer.py:81 | the `{:02}` field format gives at least two characters; that they are digits reading back as the number, exactly two below 100, is stated by `Clock.Pad2Digits` |
| `Clock.Format` | src/shutdown_timer.py:79-81 | the `HH:MM:SS` text has at least 8 characters; its shape and round trip are stated by `Clock.FormatShape` and `Clock.ParseFormat` |
| `Clock.Split` | src/shutdown_timer.py:79-80 | the two `divmod` steps give hours, minutes and seconds with `h*3600 + m*60 + s == r` and minutes and seconds below 60 |
| `Clock.SplitUnique` | src/shutdown_timer.py:79-80 | that decomposition is the only one with minutes and seconds below 60 |
| `Clock.DecimalDigits` | src/shutdown_timer.py:81 | decimal printing of a field gives digits that read back as the number, one digit below 10, at most two below 100, and no leading zero from 10 on |
| `Clock.Pad2Digits` | src/shutdown_timer.py:81 | the `{:02}` field format gives at least two digits that read back as the number, exactly two below 100 |
| `Clock.ParseFormat` | src/shutdown_timer.py:79-81 | parsing the displayed `HH:MM:SS` text gives back the remaining seconds, for every count |
| `Clock.FormatInjective` | src/shutdown_timer.py:79-81 | two different counts never show the same text |
| `Clock.FormatShape` | src/shutdown_timer.py:79-81 | the display has at least 8 characters; exactly 8 iff the count is below 100 hours, and then it has the form `DD:DD:DD` |
| `Clock.FormatZero` | src/shutdown_timer.py:74-81 | formatting 0 gives `00:00:00`, the text the stop and the last tick show |
| `ShutdownTimer.Preset` | src/shutdown_timer.py:40-47 | an omitted hour or minute keeps its previous value, and a valid time-edit stays valid |
| `ShutdownTimer.PresetSets` | src/shutdown_timer.py:40-47 | a preset in range sets its field to exactly the given value and clears the seconds |
| `ShutdownTimer.PresetIdempotent` | src/shutdown_timer.py:40-47 | applying the same preset twice gives the same time-edit as applying it once |
| `ShutdownTimer.PresetsCommute` | src/shutdown_timer.py:40-47 | an hour preset and a minute preset give the same time in either order |
| `ShutdownTimer.Duration` | src/shutdown_timer.py:51-52 | for a valid time-edit the duration is a multiple of 60 between 0 and 86340, and is zero iff hour and minute are both zero |
| `ShutdownTimer.StartIgnoresSeconds` | src/shutdown_timer.py:51-52 | two time-edit values that differ only in their seconds start identically |
| `ShutdownTimer.TickStep` | src/shutdown_timer.py:72-83 | with seconds remaining a tick shows them formatted and decreases them by exactly 1; otherwise it stops the timer and shows `00:00:00`, the count unchanged; the invariant is kept and no command is issued |
| `ShutdownTimer.StartStep` | src/shutdown_timer.py:49-63 | warns iff the duration is 0; then it only sets the remaining count to 0: no command, the timer flag and display unchanged. Otherwise it appends exactly `Schedule(N)`, shows the formatting of N, leaves `N-1` remaining and the timer running. The invariant is kept |
| `ShutdownTimer.StopStep` | src/shutdown_timer.py:65-70 | always appends `Cancel`; afterwards the timer is stopped, 0 remains and the display is `00:00:00`; the invariant is kept |
| `ShutdownTimer.Ticks` | src/shutdown_timer.py:72-83 | repeated firings of the timer connected and started at lines 20 and 63, each an `update_lcd`, never change the time-edit and never issue a command; what they do to the count and the display is stated by `TicksCountDown`, `TicksShowCount`, `TicksRunOut` and `StartThenTicks` |
| `ShutdownTimer.TicksKeepInv` | src/shutdown_timer.py:72-83 | the invariant holds after any number of ticks, so the remaining count never goes negative |
| `ShutdownTimer.TicksCountDown` | src/shutdown_timer.py:79-83 | while seconds remain, `k` ticks leave exactly `k` fewer, the timer running and the log unchanged |
| `ShutdownTimer.TicksShowCount` | src/shutdown_timer.py:79-83 | during the countdown the display shows the count each tick started from |
| `ShutdownTimer.TicksWhenStopped` | src/shutdown_timer.py:74-77 | once stopped with nothing left and `00:00:00` shown, further ticks change nothing |
| `ShutdownTimer.TicksRunOut` | src/shutdown_timer.py:72-83 | a running countdown with `m` seconds left is stopped after `m + 1` ticks, with 0 left, `00:00:00` shown and no command issued |
| `ShutdownTimer.StartThenTicks` | src/shutdown_timer.py:49-83 | after a positive start of N seconds the timer is running after `k` further ticks iff `k < N`; from the N-th tick on it shows `00:00:00`; the log holds only the one `Schedule(N)` |
| `ShutdownTimer.RejectedStartAbandonsCountdown` | src/shutdown_timer.py:52-56 | a refused zero start while running leaves the timer armed with 0 left; the next tick stops it and clears the display, and no `Cancel` is issued |
| `ShutdownTimer.RejectedStartWhenIdle` | src/shutdown_timer.py:52-56 | with the timer stopped, a refused zero start changes nothing |
| `ShutdownTimer.StopTwice` | src/shutdown_timer.py:65-70 | stopping twice gives the state of stopping once apart from a second `Cancel` in the log |
| `ShutdownTimer.TicksAfterStop` | src/shutdown_timer.py:65-77 | no tick after a stop changes anything |
| `ShutdownTimer.ShutdownApp.constructor` | src/shutdown_timer.py:19-21 | the window starts with the timer stopped, 0 remaining and no command issued |
| `ShutdownTimer.ShutdownApp.ResetTimeEdit` | src/shutdown_timer.py:37-38 | the time-edit becomes 00:00:00 and nothing else changes |
| `ShutdownTimer.ShutdownApp.EditTime` | src/shutdown_timer.py:44-51 | the user's own edit of the time-edit, whose value `set_timeedit` and `start_timer` read: the time-edit becomes the given valid time, seconds included, and nothing else changes |
| `ShutdownTimer.ShutdownApp.SetTimeEdit` | src/shutdown_timer.py:40-47 | the time-edit becomes `Preset` of its old value and nothing else changes |
| `ShutdownTimer.ShutdownApp.UpdateLcd` | src/shutdown_timer.py:72-83 | the fields become `TickStep` of the old state; a valid object stays valid |
| `ShutdownTimer.ShutdownApp.StartTimer` | src/shutdown_timer.py:49-63 | the fields and the warning become `StartStep` of the old state; the object stays valid |
| `ShutdownTimer.ShutdownApp.StopTimer` | src/shutdown_timer.py:65-70 | the fields become `StopStep` of the old state; the object stays valid |

## Left out

- Widget construction, window title and icon, the wiring of the buttons to
  their handlers, and the application's event loop
  (src/shutdown_timer.py:11-35, 86-90). They are user-interface plumbing.
  The presets appear only as calls of `SetTimeEdit`.
- The shell commands themselves (src/shutdown_timer.py:59, 67). They are
  calls into the operating system, and their success is never checked. They
  are recorded as `Schedule(n)` and `Cancel` log entries.
- The warning message box (src/shutdown_timer.py:55). It is user interface;
  `StartTimer` returns `warned` instead.
- Wall-clock timing of the one-second timer (src/shutdown_timer.py:19-20,
  63). Real time is not modelled; ticks are explicit `UpdateLcd` calls.
  Whether the operating-system deadline and the display stay in step is
  therefore not modelled, nor what the operating system does with a second
  `Schedule(n)` while a shutdown is already pending (it may refuse it, in
  which case the display restarts from the new count while the deadline
  stays at the first).
- The milliseconds of the time-edit value. No operation reads them.
- `src/tempCodeRunnerFile.py`. It is a stray fragment of another version of
  `stop_timer` that refers to a timer thread, a blink state and an LCD
  colour that the modelled code does not have.
- The colour ramp near zero, the blinking alert at zero, a countdown
  computed from elapsed wall-clock time, and a switch that disables the real
  shutdown. The modelled code has none of these.
