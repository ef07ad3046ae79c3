/** The due check of MainWindow.schedule_notification (gui.py), as values:
    which strings a timer tick compares, what one tick does to the
    `pushed_today` guard, and what a sequence of ticks does. The class that
    owns the guard is Engine.Notifier. */
module DueClock {
  import opened Text
  import opened Calendar

  /** A wall-clock reading at minute resolution: weekday 0 = Monday. Qt's
      "dddd" gives the same English day names as Calendar.WeekdayNames. */
  datatype Moment = Moment(weekday: int, hour: int, minute: int)

  predicate ValidMoment(m: Moment) {
    0 <= m.weekday < 7 && 0 <= m.hour < 24 && 0 <= m.minute < 60
  }

  /** The stored schedule: the frequency column (a day name, "" when unset)
      and the "HH:MM" time column. */
  datatype Setting = Setting(frequency: string, time: string)

  /** "hh:mm" as Qt formats the current time, and also as the scheduler page
      builds the stored time from its two-digit hour and minute boxes. */
  function ClockText(hour: int, minute: int): (r: string)
    requires 0 <= hour < 24 && 0 <= minute < 60
    ensures |r| == 5 && r[2] == ':'
  {
    TwoDigits(hour) + ":" + TwoDigits(minute)
  }

  /** The tick's reading of the clock: `toString("dddd,hh:mm").lower().split(",")`
      gives exactly the lowercase day name and the "hh:mm" text. */
  function NowFields(m: Moment): (fields: seq<string>)
    requires ValidMoment(m)
    ensures fields == [Lower(WeekdayNames[m.weekday]), ClockText(m.hour, m.minute)]
  {
    var day, clock := WeekdayNames[m.weekday], ClockText(m.hour, m.minute);
    assert Lower(day + "," + clock) == Lower(day) + "," + clock by {
      LowerAppend(day, "," + clock);
      LowerAppend(",", clock);
      LowerClockText(m.hour, m.minute);
      assert day + "," + clock == day + ("," + clock);
    }
    WeekdayNameShape(m.weekday);
    SplitAtComma(Lower(day), clock);
    Split(Lower(day + "," + clock), ",")
  }

  /** The clock text names the minute it was made from, so it reads "00:00"
      exactly at midnight, and a stored "HH:MM" matches exactly one minute
      of the day. */
  lemma ClockTextInjective(h: int, m: int, h': int, m': int)
    requires 0 <= h < 24 && 0 <= m < 60 && 0 <= h' < 24 && 0 <= m' < 60
    ensures ClockText(h, m) == ClockText(h', m') <==> h == h' && m == m'
    ensures ClockText(h, m) == "00:00" <==> h == 0 && m == 0
  {
    if ClockText(h, m) == ClockText(h', m') {
      assert ClockText(h, m)[..2] == TwoDigits(h) && ClockText(h', m')[..2] == TwoDigits(h');
      assert ClockText(h, m)[3..] == TwoDigits(m) && ClockText(h', m')[3..] == TwoDigits(m');
      TwoDigitsInjective(h, h');
      TwoDigitsInjective(m, m');
    }
    assert ClockText(0, 0) == "00:00";
    if ClockText(h, m) == "00:00" {
      assert ClockText(h, m)[..2] == TwoDigits(h) && ClockText(h, m)[3..] == TwoDigits(m);
      assert TwoDigits(h) == TwoDigits(0) && TwoDigits(m) == TwoDigits(0);
      TwoDigitsInjective(h, 0);
      TwoDigitsInjective(m, 0);
    }
  }

  lemma LowerClockText(h: int, m: int)
    requires 0 <= h < 24 && 0 <= m < 60
    ensures Lower(ClockText(h, m)) == ClockText(h, m)
  {
  }

  lemma WeekdayNameShape(d: int)
    requires 0 <= d < 7
    ensures |WeekdayNames[d]| >= 6
    ensures forall i :: 0 <= i < |WeekdayNames[d]| ==> 'a' <= LowerChar(WeekdayNames[d][i]) <= 'z'
  {
  }

  /** Lowercase day names tell the seven days apart. */
  lemma WeekdayNamesDistinct(a: int, b: int)
    requires 0 <= a < 7 && 0 <= b < 7
    ensures Lower(WeekdayNames[a]) == Lower(WeekdayNames[b]) <==> a == b
  {
    if Lower(WeekdayNames[a]) == Lower(WeekdayNames[b]) {
      assert Lower(WeekdayNames[a])[0] == Lower(WeekdayNames[b])[0];
      assert Lower(WeekdayNames[a])[1] == Lower(WeekdayNames[b])[1];
      assert Lower(WeekdayNames[a])[2] == Lower(WeekdayNames[b])[2];
    }
  }

  /** What one tick decides, given the guard before it. */
  datatype TickResult = TickResult(fires: bool, pushedAfter: bool)

  /** One run of schedule_notification on the strings it compares: the guard
      is cleared first on a "00:00" tick; then, with the guard clear and a
      frequency stored, the tick fires when the lowered frequency is today's
      lowercase name and the stored time is the current "hh:mm"; firing sets
      the guard. */
  function Tick(pushed: bool, dayNow: string, timeNow: string, s: Setting): (r: TickResult)
    ensures r.fires <==>
      && (!pushed || timeNow == "00:00")
      && s.frequency != ""
      && Lower(s.frequency) == dayNow
      && s.time == timeNow
    ensures r.pushedAfter <==> r.fires || (pushed && timeNow != "00:00")
  {
    var guard := if pushed && timeNow == "00:00" then false else pushed;
    if guard then TickResult(false, true)
    else if s.frequency == "" then TickResult(false, false)
    else if Lower(s.frequency) == dayNow && s.time == timeNow then TickResult(true, true)
    else TickResult(false, false)
  }

  /** One tick at wall-clock moment m: it compares the stored schedule with
      today's lowercase day name and the current "hh:mm", and the guard is
      cleared only at midnight. */
  function TickAt(pushed: bool, m: Moment, s: Setting): (r: TickResult)
    requires ValidMoment(m)
    ensures r == Tick(pushed, Lower(WeekdayNames[m.weekday]), ClockText(m.hour, m.minute), s)
    ensures r.fires <==>
      && (!pushed || (m.hour == 0 && m.minute == 0))
      && s.frequency != ""
      && Lower(s.frequency) == Lower(WeekdayNames[m.weekday])
      && s.time == ClockText(m.hour, m.minute)
  {
    ClockTextInjective(m.hour, m.minute, 0, 0);
    var fields := NowFields(m);
    Tick(pushed, fields[0], fields[1], s)
  }

  /** A schedule stored by the scheduler page fires, from a clear guard,
      exactly at its own weekday, hour and minute: Monday 09:00 fires at
      Monday 09:00 and not at Monday 09:01. */
  lemma FiresExactlyOnSchedule(m: Moment, day: int, hour: int, minute: int)
    requires ValidMoment(m) && 0 <= day < 7 && 0 <= hour < 24 && 0 <= minute < 60
    ensures TickAt(false, m, Setting(WeekdayNames[day], ClockText(hour, minute))).fires
      <==> m.weekday == day && m.hour == hour && m.minute == minute
  {
    WeekdayNamesDistinct(day, m.weekday);
    ClockTextInjective(hour, minute, m.hour, m.minute);
  }

  /** With the guard set, a tick at any minute but midnight fires nothing and
      keeps the guard set. */
  lemma GuardBlocks(m: Moment, s: Setting)
    requires ValidMoment(m) && !(m.hour == 0 && m.minute == 0)
    ensures TickAt(true, m, s) == TickResult(false, true)
  {
    ClockTextInjective(m.hour, m.minute, 0, 0);
  }

  /** Result of a sequence of ticks: the final guard and how many ticks fired. */
  datatype RunResult = RunResult(pushedAfter: bool, fires: nat)

  predicate AllValid(ticks: seq<Moment>) {
    forall i :: 0 <= i < |ticks| ==> ValidMoment(ticks[i])
  }

  function Run(pushed: bool, ticks: seq<Moment>, s: Setting): RunResult
    requires AllValid(ticks)
    decreases |ticks|
  {
    if ticks == [] then RunResult(pushed, 0)
    else
      var t := TickAt(pushed, ticks[0], s);
      var rest := Run(t.pushedAfter, ticks[1..], s);
      RunResult(rest.pushedAfter, rest.fires + if t.fires then 1 else 0)
  }

  /** Between two midnights the schedule fires at most once, and not at all
      once it has fired; after a firing the guard stays set. */
  lemma {:induction false} AtMostOnceBetweenMidnights(pushed: bool, ticks: seq<Moment>, s: Setting)
    requires AllValid(ticks)
    requires forall i :: 0 <= i < |ticks| ==> !(ticks[i].hour == 0 && ticks[i].minute == 0)
    ensures Run(pushed, ticks, s).fires <= 1
    ensures pushed ==> Run(pushed, ticks, s) == RunResult(true, 0)
    ensures Run(pushed, ticks, s).fires == 1 ==> Run(pushed, ticks, s).pushedAfter
    decreases |ticks|
  {
    if ticks != [] {
      var t := TickAt(pushed, ticks[0], s);
      if pushed {
        GuardBlocks(ticks[0], s);
      }
      AtMostOnceBetweenMidnights(t.pushedAfter, ticks[1..], s);
      if t.fires {
        assert t.pushedAfter;
      }
    }
  }

  /** The guard is cleared before the due check, so a schedule stored for
      "00:00" fires on every tick during that minute of its day. */
  lemma {:induction false} MidnightScheduleFiresEveryTick(pushed: bool, day: int, ticks: seq<Moment>)
    requires 0 <= day < 7
    requires forall i :: 0 <= i < |ticks| ==> ticks[i] == Moment(day, 0, 0)
    ensures Run(pushed, ticks, Setting(WeekdayNames[day], "00:00")).fires == |ticks|
    decreases |ticks|
  {
    if ticks != [] {
      var s := Setting(WeekdayNames[day], "00:00");
      var t := TickAt(pushed, ticks[0], s);
      assert t.fires && t.pushedAfter by {
        assert ticks[0] == Moment(day, 0, 0);
        assert ClockText(0, 0) == "00:00";
        assert |WeekdayNames[day]| >= 6 by {
          WeekdayNameShape(day);
        }
      }
      MidnightScheduleFiresEveryTick(true, day, ticks[1..]);
      assert Run(pushed, ticks, s).fires == 1 + Run(true, ticks[1..], s).fires;
    }
  }
}
