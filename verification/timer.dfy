/** run_pomodoro (pomo.py): `breakCount` study/break cycles, each a countdown
    of `minutes * 60` one-second ticks. The curses screen is replaced by the
    sequence of screens the function draws, one entry per screen.clear(). */
module Timer {
  import opened Progress

  /** One screen drawn by run_pomodoro. */
  datatype Screen =
    | Tick(cycle: int, cycles: int, remMin: int, remSec: int, filled: int, bar: string)
      // "Pomodoro <cycle> of <cycles>", "Time remaining: mm:ss", the bar
    | TimesUp(breakMinutes: int)       // "Time's up! Take a break for ... minutes."
    | BreakOver(cycle: int, cycles: int) // "Pomodoro <cycle> of <cycles>", "Break's over."
    | Blank                            // the screen cleared after the last cycle

  /** The frame of one countdown tick with `seconds` of `total` remaining. */
  function TickAt(cycle: int, cycles: int, total: int, seconds: int): (f: Screen)
    requires 0 < seconds <= total
    ensures f.Tick? && f.cycle == cycle && f.cycles == cycles
    ensures f.remMin * 60 + f.remSec == seconds && 0 <= f.remSec < 60 && 0 <= f.remMin
    ensures 0 <= f.filled < BarWidth && f.filled == FilledWidth(total, seconds)
    ensures f.bar == Bar(f.filled)
    ensures |f.bar| == BarWidth + 2 && Count(FilledCell, f.bar) == f.filled
  {
    var (remMin, remSec) := SplitTime(seconds);
    var filled := FilledWidth(total, seconds);
    FilledOfBar(filled);
    Tick(cycle, cycles, remMin, remSec, filled, Bar(filled))
  }

  /** The frames the inner while loop draws while the counter runs from
      `seconds` down to 1. */
  function Countdown(cycle: int, cycles: int, total: int, seconds: int): (frames: seq<Screen>)
    requires seconds <= total
    ensures |frames| == if seconds > 0 then seconds else 0
    decreases seconds
  {
    if seconds <= 0 then []
    else [TickAt(cycle, cycles, total, seconds)] + Countdown(cycle, cycles, total, seconds - 1)
  }

  /** The study phase of a cycle: the countdown from minutes * 60. */
  function StudyPhase(cycle: int, cycles: int, minutes: int): seq<Screen>
  {
    Countdown(cycle, cycles, minutes * 60, minutes * 60)
  }

  /** Ticks rendered per cycle: minutes * 60, or none when that is not positive. */
  function StudySeconds(minutes: int): nat
  {
    if minutes > 0 then minutes * 60 else 0
  }

  /** Everything one completed cycle draws. */
  function Cycle(cycle: int, cycles: int, minutes: int, breakMinutes: int): seq<Screen>
  {
    StudyPhase(cycle, cycles, minutes) + [TimesUp(breakMinutes), BreakOver(cycle, cycles)]
  }

  /** The first n completed cycles, numbered 1..n. */
  function Cycles(cycles: int, minutes: int, breakMinutes: int, n: nat): seq<Screen>
  {
    if n == 0 then []
    else Cycles(cycles, minutes, breakMinutes, n - 1) + Cycle(n, cycles, minutes, breakMinutes)
  }

  /** time.sleep raises ValueError on a negative length, so a negative break
      ends the run inside the first cycle; otherwise the run completes. */
  predicate Completes(minutes: int, breakMinutes: int, cycles: int)
  {
    cycles <= 0 || breakMinutes >= 0
  }

  /** Everything run_pomodoro(minutes, breakMinutes, cycles) draws. */
  function Session(minutes: int, breakMinutes: int, cycles: int): seq<Screen>
  {
    if cycles <= 0 then [Blank]
    else if breakMinutes < 0 then StudyPhase(1, cycles, minutes) + [TimesUp(breakMinutes)]
    else Cycles(cycles, minutes, breakMinutes, cycles) + [Blank]
  }

  /** The timer itself: a loop over the cycles, each running the study
      countdown and then the break screens. */
  method RunPomodoro(minutes: int, breakMinutes: int, cycles: int)
    returns (screen: seq<Screen>, completed: bool)
    ensures completed == Completes(minutes, breakMinutes, cycles)
    ensures screen == Session(minutes, breakMinutes, cycles)
  {
    screen := [];
    var i := 0;
    while i < cycles
      invariant 0 <= i <= if cycles > 0 then cycles else 0
      invariant i > 0 ==> breakMinutes >= 0
      invariant screen == Cycles(cycles, minutes, breakMinutes, i)
    {
      var frames := StudyCountdown(i + 1, cycles, minutes);
      screen := screen + frames + [TimesUp(breakMinutes)];
      if breakMinutes < 0 {
        // time.sleep(break_time * 60) raises ValueError
        assert i == 0;
        completed := false;
        return;
      }
      screen := screen + [BreakOver(i + 1, cycles)];
      i := i + 1;
    }
    if cycles <= 0 {
      assert screen == [];
    } else {
      assert i == cycles && breakMinutes >= 0;
    }
    screen := screen + [Blank];
    completed := true;
  }

  /** The inner while loop of one cycle: `seconds` starts at minutes * 60 and
      drops by one per frame until it is no longer positive. */
  method StudyCountdown(cycle: int, cycles: int, minutes: int) returns (frames: seq<Screen>)
    ensures frames == StudyPhase(cycle, cycles, minutes)
  {
    frames := [];
    var total := minutes * 60;
    var seconds := total;
    while seconds > 0
      invariant seconds <= total
      invariant frames + Countdown(cycle, cycles, total, seconds) == Countdown(cycle, cycles, total, total)
    {
      var (remMin, remSec) := SplitTime(seconds);
      var filled := FilledWidth(total, seconds);
      var bar := Bar(filled);
      var frame := Tick(cycle, cycles, remMin, remSec, filled, bar);
      CountdownStep(cycle, cycles, total, seconds);
      assert (frames + [frame]) + Countdown(cycle, cycles, total, seconds - 1)
          == frames + Countdown(cycle, cycles, total, seconds);
      frames := frames + [frame];
      seconds := seconds - 1;
    }
    assert Countdown(cycle, cycles, total, seconds) == [];
  }

  /** One turn of the countdown loop draws the frame built from divmod, the
      filled width and the bar, and leaves the rest of the countdown. */
  lemma CountdownStep(cycle: int, cycles: int, total: int, seconds: int)
    requires 0 < seconds <= total
    ensures var w := FilledWidth(total, seconds);
      Countdown(cycle, cycles, total, seconds)
      == [Tick(cycle, cycles, SplitTime(seconds).0, SplitTime(seconds).1, w, Bar(w))]
         + Countdown(cycle, cycles, total, seconds - 1)
  {
  }

  /** Tick t of a study phase (counting from 0) shows total - t seconds left
      and a bar filled to floor(t * BarWidth / total). */
  lemma {:induction false} CountdownAt(cycle: int, cycles: int, total: int, seconds: int, t: int)
    requires 0 <= t < seconds <= total
    ensures Countdown(cycle, cycles, total, seconds)[t] == TickAt(cycle, cycles, total, seconds - t)
    decreases seconds
  {
    if t > 0 {
      CountdownAt(cycle, cycles, total, seconds - 1, t - 1);
    }
  }

  /** What the study phase shows at tick t: the remaining time total - t as
      mm:ss, the bar filled to floor(t * 20 / total), the cycle header. */
  lemma StudyPhaseTick(cycle: int, cycles: int, minutes: int, t: int)
    requires 0 <= t < minutes * 60
    ensures |StudyPhase(cycle, cycles, minutes)| == minutes * 60
    ensures var f := StudyPhase(cycle, cycles, minutes)[t];
      && f.Tick? && f.cycle == cycle && f.cycles == cycles
      && f.remMin * 60 + f.remSec == minutes * 60 - t && 0 <= f.remSec < 60
      && f.filled == t * BarWidth / (minutes * 60)
      && f.bar == Bar(f.filled) && |f.bar| == BarWidth + 2
  {
    var total := minutes * 60;
    CountdownAt(cycle, cycles, total, total, t);
    var f := TickAt(cycle, cycles, total, total - t);
    FilledWidthFloor(total, total - t);
    assert f.filled * total <= t * BarWidth < (f.filled + 1) * total;
    FloorUnique(t * BarWidth, total, f.filled);
  }

  /** The only q with q * d <= x < (q + 1) * d is x / d. */
  lemma FloorUnique(x: int, d: int, q: int)
    requires 0 < d && q * d <= x < (q + 1) * d
    ensures q == x / d
  {
    var r := x / d;
    assert r * d <= x < r * d + d;
    if q < r {
      MulLeft(q + 1, r, d);
    } else if q > r {
      MulLeft(r + 1, q, d);
    }
  }

  /** Within a study phase the bar starts empty and never shrinks, while the
      remaining time drops by exactly one second per tick. */
  lemma StudyPhaseProgress(cycle: int, cycles: int, minutes: int, t1: int, t2: int)
    requires 0 <= t1 <= t2 < minutes * 60
    ensures var s := StudyPhase(cycle, cycles, minutes);
      && s[0].Tick? && s[t1].Tick? && s[t2].Tick?
      && s[0].filled == 0
      && s[t1].filled <= s[t2].filled
      && (s[t1].remMin * 60 + s[t1].remSec) - (s[t2].remMin * 60 + s[t2].remSec) == t2 - t1
  {
    var total := minutes * 60;
    CountdownAt(cycle, cycles, total, total, 0);
    CountdownAt(cycle, cycles, total, total, t1);
    CountdownAt(cycle, cycles, total, total, t2);
    FilledWidthMonotone(total, total - t1, total - t2);
  }

  /** A non-positive study length draws no tick at all, so the divisor
      minutes * 60 of FilledWidth is never evaluated as zero or negative. */
  lemma NoTicksWithoutStudyTime(cycle: int, cycles: int, minutes: int)
    requires minutes <= 0
    ensures StudyPhase(cycle, cycles, minutes) == []
  {
  }

  lemma MulSucc(n: int, k: int)
    ensures n * k == (n - 1) * k + k
  {
  }

  /** n cycles draw n blocks of StudySeconds(minutes) + 2 screens. */
  lemma {:induction false} CyclesLength(cycles: int, minutes: int, breakMinutes: int, n: nat)
    ensures |Cycles(cycles, minutes, breakMinutes, n)| == n * (StudySeconds(minutes) + 2)
  {
    if n > 0 {
      CyclesLength(cycles, minutes, breakMinutes, n - 1);
      var len := StudySeconds(minutes) + 2;
      assert |Cycle(n, cycles, minutes, breakMinutes)| == len;
      MulSucc(n, len);
    }
  }

  /** The trace of n cycles starts with the first j cycles followed by cycle
      j + 1: the cycles are drawn in order 1..n, each header carrying its own
      number. */
  lemma {:induction false} CyclesInOrder(cycles: int, minutes: int, breakMinutes: int, n: nat, j: nat)
    requires j < n
    ensures Cycles(cycles, minutes, breakMinutes, j) + Cycle(j + 1, cycles, minutes, breakMinutes)
            <= Cycles(cycles, minutes, breakMinutes, n)
    decreases n
  {
    if j < n - 1 {
      CyclesInOrder(cycles, minutes, breakMinutes, n - 1, j);
      var prefix := Cycles(cycles, minutes, breakMinutes, n - 1);
      assert Cycles(cycles, minutes, breakMinutes, n) == prefix + Cycle(n, cycles, minutes, breakMinutes);
    }
  }

  /** The run draws one block of StudySeconds(minutes) + 2 screens per cycle
      and the final blank screen; with no cycle only the blank screen; a run
      that fails on a negative break stops after the first study phase and
      its "Time's up" screen. */
  lemma SessionLength(minutes: int, breakMinutes: int, cycles: int)
    ensures |Session(minutes, breakMinutes, cycles)| ==
      if cycles <= 0 then 1
      else if breakMinutes < 0 then StudySeconds(minutes) + 1
      else cycles * (StudySeconds(minutes) + 2) + 1
  {
    if cycles > 0 && breakMinutes >= 0 {
      CyclesLength(cycles, minutes, breakMinutes, cycles);
    }
  }

  /** A countdown frame. */
  predicate IsTick(s: Screen)
  {
    s.Tick?
  }

  lemma {:induction false} CountdownTicks(cycle: int, cycles: int, total: int, seconds: int)
    requires seconds <= total
    ensures Count(IsTick, Countdown(cycle, cycles, total, seconds)) == if seconds > 0 then seconds else 0
    decreases seconds
  {
    if seconds > 0 {
      var s := Countdown(cycle, cycles, total, seconds);
      CountdownTicks(cycle, cycles, total, seconds - 1);
      assert s[1..] == Countdown(cycle, cycles, total, seconds - 1);
    }
  }

  /** One completed cycle draws one study phase of ticks. */
  lemma CycleTicks(cycle: int, cycles: int, minutes: int, breakMinutes: int)
    ensures Count(IsTick, Cycle(cycle, cycles, minutes, breakMinutes)) == StudySeconds(minutes)
  {
    CountConcat(IsTick, StudyPhase(cycle, cycles, minutes), [TimesUp(breakMinutes), BreakOver(cycle, cycles)]);
    CountdownTicks(cycle, cycles, minutes * 60, minutes * 60);
    assert Count(IsTick, [TimesUp(breakMinutes), BreakOver(cycle, cycles)]) == 0;
  }

  lemma {:induction false} CyclesTicks(cycles: int, minutes: int, breakMinutes: int, n: nat)
    ensures Count(IsTick, Cycles(cycles, minutes, breakMinutes, n)) == n * StudySeconds(minutes)
  {
    if n > 0 {
      CyclesTicks(cycles, minutes, breakMinutes, n - 1);
      CountConcat(IsTick, Cycles(cycles, minutes, breakMinutes, n - 1), Cycle(n, cycles, minutes, breakMinutes));
      CycleTicks(n, cycles, minutes, breakMinutes);
      MulSucc(n, StudySeconds(minutes));
    }
  }


  /** A completed run draws exactly cycles * minutes * 60 countdown frames
      (none when either is not positive); a run that fails on a negative
      break draws one study phase. */
  lemma SessionTicks(minutes: int, breakMinutes: int, cycles: int)
    ensures Completes(minutes, breakMinutes, cycles) ==>
      Count(IsTick, Session(minutes, breakMinutes, cycles)) == (if cycles > 0 then cycles else 0) * StudySeconds(minutes)
    ensures !Completes(minutes, breakMinutes, cycles) ==>
      Count(IsTick, Session(minutes, breakMinutes, cycles)) == StudySeconds(minutes)
  {
    if cycles <= 0 {
      assert Count(IsTick, [Blank]) == 0;
    } else if breakMinutes < 0 {
      CountConcat(IsTick, StudyPhase(1, cycles, minutes), [TimesUp(breakMinutes)]);
      CountdownTicks(1, cycles, minutes * 60, minutes * 60);
      assert Count(IsTick, [TimesUp(breakMinutes)]) == 0;
    } else {
      CountConcat(IsTick, Cycles(cycles, minutes, breakMinutes, cycles), [Blank]);
      CyclesTicks(cycles, minutes, breakMinutes, cycles);
      assert Count(IsTick, [Blank]) == 0;
    }
  }
}
