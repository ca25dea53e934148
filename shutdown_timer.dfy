/** The countdown controller of the shutdown timer window: a time-edit value
    the user fills in with presets, a start that schedules an operating-system
    shutdown and arms a one-second timer, a tick that counts the LCD display
    down, and a stop that cancels the shutdown.

    The pure functions over `AppState` are the specification of one step each;
    the class `ShutdownApp` holds the same fields and updates them in place,
    each method proved to make exactly that step. The shutdown and cancel
    commands handed to the operating system are recorded in a log. */
module ShutdownTimer {
  import opened Wrappers
  import Clock

  /** The longest duration the time-edit can produce: 23 hours 59 minutes. */
  const MaxDuration := 23 * 3600 + 59 * 60

  /** What the LCD shows once the countdown is over or stopped. */
  const ZeroDisplay := "00:00:00"

  /** The value of the time-edit widget (milliseconds are not modelled). */
  datatype Time = Time(hour: int, minute: int, second: int)

  /** The range of a valid time of day, the only values the widget holds. */
  predicate ValidTime(t: Time) {
    0 <= t.hour < 24 && 0 <= t.minute < 60 && 0 <= t.second < 60
  }

  /** A command handed to the operating system: `shutdown -s -t <seconds>`
      or `shutdown -a`. */
  datatype Command = Schedule(seconds: int) | Cancel

  /** The controller's state: the time-edit value, `remaining_seconds`,
      whether the one-second timer is running, the LCD text and every
      command issued so far. `lcd` is the whole string handed to the LCD
      widget; how many of its rightmost characters the widget shows depends
      on the digit count set in the designer file, which is not part of
      this model. */
  datatype AppState = AppState(time: Time, remaining: int, active: bool, lcd: string, log: seq<Command>)

  /** What every operation keeps: the time-edit holds a valid time, the
      remaining count never goes negative and stays below the largest
      duration, and a stopped timer has nothing left to count. */
  predicate Inv(s: AppState) {
    ValidTime(s.time) && 0 <= s.remaining < MaxDuration && (!s.active ==> s.remaining == 0)
  }

  /** `set_timeedit(hours, minutes)`: an omitted argument keeps the current
      field; the new value is `QTime(h, m)`, whose seconds are zero. A pair
      that is not a valid time of day makes an invalid QTime, which the
      widget refuses, so the value stays as it was. */
  function Preset(t: Time, hours: Option<int>, minutes: Option<int>): (r: Time)
    ensures ValidTime(t) ==> ValidTime(r)
    ensures hours.None? ==> r.hour == t.hour
    ensures minutes.None? ==> r.minute == t.minute
  {
    var h := hours.GetOr(t.hour);
    var m := minutes.GetOr(t.minute);
    if 0 <= h < 24 && 0 <= m < 60 then Time(h, m, 0) else t
  }

  /** A preset in range sets its field to exactly the given value (it does
      not add to it) and clears the seconds. */
  lemma PresetSets(t: Time, hours: Option<int>, minutes: Option<int>)
    requires ValidTime(t)
    requires hours.Some? ==> 0 <= hours.value < 24
    requires minutes.Some? ==> 0 <= minutes.value < 60
    ensures hours.Some? ==> Preset(t, hours, minutes).hour == hours.value
    ensures minutes.Some? ==> Preset(t, hours, minutes).minute == minutes.value
    ensures Preset(t, hours, minutes).second == 0
  {
  }

  /** Pressing the same preset button twice leaves the time-edit as pressing
      it once does. */
  lemma PresetIdempotent(t: Time, hours: Option<int>, minutes: Option<int>)
    ensures Preset(Preset(t, hours, minutes), hours, minutes) == Preset(t, hours, minutes)
  {
  }

  /** An hour preset and a minute preset give the same time in either order. */
  lemma PresetsCommute(t: Time, h: int, m: int)
    requires ValidTime(t) && 0 <= h < 24 && 0 <= m < 60
    ensures Preset(Preset(t, Some(h), None), None, Some(m))
         == Preset(Preset(t, None, Some(m)), Some(h), None)
         == Time(h, m, 0)
  {
  }

  /** The seconds `start_timer` reads off the time-edit; the seconds field
      of the time is not used. */
  function Duration(t: Time): (d: int)
    ensures ValidTime(t) ==> 0 <= d <= MaxDuration && d % 60 == 0
    ensures ValidTime(t) ==> (d == 0 <==> t.hour == 0 && t.minute == 0)
  {
    t.hour * Clock.SecondsPerHour + t.minute * Clock.SecondsPerMinute
  }

  /** `update_lcd`, one tick of the timer: while seconds remain, show them
      and count one down; otherwise stop the timer and show zero. */
  function TickStep(s: AppState): (r: AppState)
    ensures Inv(s) ==> Inv(r)
    ensures s.remaining > 0 ==>
      r.lcd == Clock.Format(s.remaining) && r.remaining == s.remaining - 1 && r.active == s.active
    ensures s.remaining <= 0 ==>
      !r.active && r.lcd == ZeroDisplay && r.remaining == s.remaining
    ensures r.time == s.time && r.log == s.log
  {
    if s.remaining <= 0 then s.(active := false, lcd := ZeroDisplay)
    else s.(lcd := Clock.Format(s.remaining), remaining := s.remaining - 1)
  }

  /** `start_timer`: the result's second component is whether the "set a
      time above zero" warning is shown. A zero duration still overwrites
      the remaining count, and nothing guards against starting again while
      the timer runs. */
  function StartStep(s: AppState): (r: (AppState, bool))
    ensures Inv(s) ==> Inv(r.0)
    ensures r.1 <==> Duration(s.time) == 0
    ensures r.0.time == s.time
    ensures r.1 ==> r.0 == s.(remaining := 0)
    ensures ValidTime(s.time) && !r.1 ==>
      var n := Duration(s.time);
      && r.0.log == s.log + [Schedule(n)]
      && r.0.lcd == Clock.Format(n)
      && r.0.remaining == n - 1
      && r.0.active
  {
    var n := Duration(s.time);
    if n == 0 then (s.(remaining := 0), true)
    else (TickStep(s.(remaining := n, log := s.log + [Schedule(n)])).(active := true), false)
  }

  /** The seconds of the time-edit play no part in a start: two values that
      differ only there start identically. */
  lemma StartIgnoresSeconds(s: AppState, second: int)
    ensures var s' := s.(time := s.time.(second := second));
      StartStep(s') == (StartStep(s).0.(time := s'.time), StartStep(s).1)
  {
  }

  /** `stop_timer`: cancel whatever shutdown is pending, whatever the state,
      stop the timer and show zero. */
  function StopStep(s: AppState): (r: AppState)
    ensures ValidTime(s.time) ==> Inv(r)
    ensures r.log == s.log + [Cancel]
    ensures !r.active && r.remaining == 0 && r.lcd == ZeroDisplay && r.time == s.time
  {
    s.(log := s.log + [Cancel], active := false, remaining := 0, lcd := ZeroDisplay)
  }

  /** The state after `k` ticks. */
  function Ticks(s: AppState, k: nat): (r: AppState)
    decreases k
    ensures r.time == s.time && r.log == s.log
  {
    if k == 0 then s else Ticks(TickStep(s), k - 1)
  }

  /** The invariant holds however many ticks are taken. */
  lemma {:induction false} TicksKeepInv(s: AppState, k: nat)
    decreases k
    requires Inv(s)
    ensures Inv(Ticks(s, k))
  {
    if k > 0 {
      TicksKeepInv(TickStep(s), k - 1);
    }
  }

  /** While seconds remain, each tick counts exactly one down; the timer
      keeps running and no command is issued. */
  lemma {:induction false} TicksCountDown(s: AppState, k: nat)
    decreases k
    requires s.active && k <= s.remaining
    ensures var e := Ticks(s, k);
      && e.active && e.remaining == s.remaining - k
      && e.time == s.time && e.log == s.log
  {
    if k > 0 {
      var t := TickStep(s);
      assert t.active && t.remaining == s.remaining - 1;
      assert Ticks(s, k) == Ticks(t, k - 1);
      TicksCountDown(t, k - 1);
    }
  }

  /** During the countdown the LCD shows the count each tick started from,
      one more than is left after it. */
  lemma {:induction false} TicksShowCount(s: AppState, k: nat)
    decreases k
    requires s.active && 0 < k <= s.remaining
    ensures Ticks(s, k).remaining >= 0
    ensures Ticks(s, k).lcd == Clock.Format(Ticks(s, k).remaining + 1)
  {
    var t := TickStep(s);
    assert t.active && t.remaining == s.remaining - 1;
    var e := Ticks(t, k - 1);
    assert Ticks(s, k) == e;
    if k == 1 {
      assert e == t;
      var v := Ticks(s, k).remaining + 1;
      assert v == s.remaining;
      assert Ticks(s, k).lcd == Clock.Format(s.remaining) == Clock.Format(v);
    } else {
      TicksShowCount(t, k - 1);
    }
  }

  /** Once the timer is stopped with nothing left, further ticks change
      nothing: the LCD stays at zero and no command is issued. */
  lemma {:induction false} TicksWhenStopped(s: AppState, k: nat)
    decreases k
    requires !s.active && s.remaining == 0 && s.lcd == ZeroDisplay
    ensures Ticks(s, k) == s
  {
    if k > 0 {
      assert TickStep(s) == s;
      TicksWhenStopped(s, k - 1);
    }
  }

  /** After a start with a positive duration `n`, the timer is running after
      exactly the first `n - 1` further ticks and stopped from the `n`-th on,
      at which point the LCD shows zero; the only command issued is the one
      `Schedule(n)`. */
  lemma StartThenTicks(s: AppState, k: nat)
    requires Inv(s) && Duration(s.time) > 0
    ensures var n := Duration(s.time);
      var e := Ticks(StartStep(s).0, k);
      && (e.active <==> k < n)
      && (k >= n ==> e.remaining == 0 && e.lcd == ZeroDisplay)
      && e.log == s.log + [Schedule(n)]
  {
    var n := Duration(s.time);
    var p := StartStep(s).0;
    assert p.active && p.remaining == n - 1 && p.log == s.log + [Schedule(n)];
    if k < n {
      TicksCountDown(p, k);
    } else {
      TicksRunOut(p, k);
    }
  }

  /** A running countdown with `m` seconds left is over after `m + 1` ticks
      and stays over: the timer is stopped, nothing remains, the LCD shows
      zero, and the ticks issued no command. */
  lemma {:induction false} TicksRunOut(s: AppState, k: nat)
    decreases k
    requires s.active && 0 <= s.remaining < k
    ensures var e := Ticks(s, k);
      && !e.active && e.remaining == 0 && e.lcd == ZeroDisplay
      && e.time == s.time && e.log == s.log
  {
    var t := TickStep(s);
    assert Ticks(s, k) == Ticks(t, k - 1);
    if s.remaining == 0 {
      TicksWhenStopped(t, k - 1);
    } else {
      TicksRunOut(t, k - 1);
    }
  }

  /** Rejecting a zero start while a countdown runs leaves the timer armed
      with nothing left, so the next tick stops the countdown and clears the
      display, yet no `Cancel` is issued: a shutdown scheduled earlier stays
      pending. "Armed" is the state right after the count is overwritten; the
      modal warning runs its own event loop, so in practice that next tick
      usually fires before the start handler returns, which is this same
      start step followed by this same tick. */
  lemma RejectedStartAbandonsCountdown(s: AppState)
    requires Inv(s) && s.active && Duration(s.time) == 0
    ensures var p := StartStep(s).0;
      var q := TickStep(p);
      && StartStep(s).1
      && p.active && p.remaining == 0
      && !q.active && q.lcd == ZeroDisplay
      && q.log == s.log
  {
  }

  /** When the timer is not running, a rejected zero start changes nothing. */
  lemma RejectedStartWhenIdle(s: AppState)
    requires Inv(s) && !s.active && Duration(s.time) == 0
    ensures StartStep(s) == (s, true)
  {
  }

  /** Stopping twice gives the state of stopping once, apart from a second
      `Cancel` in the log. */
  lemma StopTwice(s: AppState)
    ensures StopStep(StopStep(s)) == StopStep(s).(log := s.log + [Cancel, Cancel])
  {
  }

  /** No tick after a stop changes anything. */
  lemma {:induction false} TicksAfterStop(s: AppState, k: nat)
    ensures Ticks(StopStep(s), k) == StopStep(s)
  {
    TicksWhenStopped(StopStep(s), k);
  }

  /** The window's controller, its fields updated in place by the button
      handlers and by the timer. */
  class ShutdownApp {
    var time: Time
    var remaining: int
    var active: bool
    var lcd: string
    var log: seq<Command>

    function Snapshot(): AppState
      reads this
    {
      AppState(time, remaining, active, lcd, log)
    }

    ghost predicate Valid()
      reads this
    {
      Inv(Snapshot())
    }

    /** The window as built: the time-edit and LCD start from their designed
        values, nothing remains and the timer is not running. */
    constructor (initialTime: Time, initialLcd: string)
      requires ValidTime(initialTime)
      ensures Valid()
      ensures Snapshot() == AppState(initialTime, 0, false, initialLcd, [])
    {
      time := initialTime;
      remaining := 0;
      active := false;
      lcd := initialLcd;
      log := [];
    }

    /** `reset_timeedit`: the time-edit becomes 00:00. */
    method ResetTimeEdit()
      requires Valid()
      modifies this
      ensures Valid()
      ensures Snapshot() == old(Snapshot()).(time := Time(0, 0, 0))
    {
      time := Time(0, 0, 0);
    }

    /** The user typing into the time-edit or stepping it with its arrows:
        the widget takes any valid time of day, seconds included, without
        any code of the window running. */
    method EditTime(t: Time)
      requires Valid() && ValidTime(t)
      modifies this
      ensures Valid()
      ensures Snapshot() == old(Snapshot()).(time := t)
    {
      time := t;
    }

    /** `set_timeedit`, the handler of the preset buttons. */
    method SetTimeEdit(hours: Option<int>, minutes: Option<int>)
      requires Valid()
      modifies this
      ensures Valid()
      ensures Snapshot() == old(Snapshot()).(time := Preset(old(time), hours, minutes))
    {
      var h := if hours.None? then time.hour else hours.value;
      var m := if minutes.None? then time.minute else minutes.value;
      if 0 <= h < 24 && 0 <= m < 60 {
        time := Time(h, m, 0);
      }
    }

    /** `update_lcd`, called by the timer once a second and once by
        `StartTimer`, where it meets a fresh count that may still equal the
        longest duration and a timer that may not be running yet. */
    method UpdateLcd()
      modifies this
      ensures old(Valid()) ==> Valid()
      ensures Snapshot() == TickStep(old(Snapshot()))
    {
      if remaining <= 0 {
        active := false;
        lcd := ZeroDisplay;
        return;
      }
      lcd := Clock.Format(remaining);
      remaining := remaining - 1;
    }

    /** `start_timer`; `warned` stands for the warning message box. */
    method StartTimer() returns (warned: bool)
      requires Valid()
      modifies this
      ensures Valid()
      ensures (Snapshot(), warned) == StartStep(old(Snapshot()))
    {
      remaining := time.hour * 3600 + time.minute * 60;
      if remaining == 0 {
        warned := true;
        return;
      }
      warned := false;
      log := log + [Schedule(remaining)];
      UpdateLcd();
      active := true;
    }

    /** `stop_timer`. */
    method StopTimer()
      requires Valid()
      modifies this
      ensures Valid()
      ensures Snapshot() == StopStep(old(Snapshot()))
    {
      log := log + [Cancel];
      active := false;
      remaining := 0;
      lcd := ZeroDisplay;
    }
  }
}
