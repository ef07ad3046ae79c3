/** get_free_time_slots (email_utils.py): the hour-by-hour walk over the next
    seven days that lists the free working hours of each weekday as merged
    "hh:mm AM - hh:mm PM" ranges, keyed by "<Weekday>, <Month> <dd>".
    The calendar's appointments are a parameter. */
module FreeSlots {
  import opened Text
  import opened Calendar

  /** Times are whole microseconds counted from midnight UTC of the day the
      walk runs on ("today"): one hour is 3 600 000 000 of them. */
  const HourLength: int := 3_600_000_000
  const DayLength: int := 86_400_000_000

  /** The first and the closing hour of the working day, and the look-ahead. */
  const OpeningHour: int := 9
  const ClosingHour: int := 17
  const WindowDays: int := 7

  /** The moment the walk starts: today's date, today's weekday (0 = Monday)
      and the time of day. */
  datatype Now = Now(date: Date, weekday: int, time: int)

  /** The date exists, the weekday is a weekday and the time lies within
      the day. */
  predicate ValidNow(now: Now) {
    ValidDate(now.date) && 0 <= now.weekday < 7 && 0 <= now.time < DayLength
  }

  /** A moment Python's datetime can be in: valid, and its weekday is the
      one `weekday()` gives its date. */
  predicate RealNow(now: Now) {
    ValidNow(now) && now.weekday == DayNumber(now.date) % 7
  }

  /** One busy appointment, [start, end). */
  datatype Appointment = Appointment(start: int, end: int)

  /** The start of the hour bucket at `hour` o'clock, `day` days after today:
      `day * DayLength + hour * HourLength`, with the lengths written as
      literals so that the solver's arithmetic stays linear. */
  function BucketStart(day: int, hour: int): int {
    day * 86_400_000_000 + hour * 3_600_000_000
  }

  /** `end_time = now + timedelta(days=7)`: `now.time + WindowDays * DayLength`,
      written with literals as above. */
  function EndTime(now: Now): int {
    now.time + 7 * 86_400_000_000
  }

  /** The weekday of the day `day` days after today. */
  function WeekdayOf(now: Now, day: int): int {
    (now.weekday + day) % 7
  }

  /** Counting weekdays on from today's agrees with the calendar: the
      weekday of the day `day` days ahead is that of its date. */
  lemma WeekdayOfDate(now: Now, day: nat)
    requires RealNow(now)
    ensures WeekdayOf(now, day) == DayNumber(AddDays(now.date, day)) % 7
  {
    AddDaysNumber(now.date, day);
    ModShift(DayNumber(now.date), now.weekday, day);
  }

  /** At a real moment, the key of the day `day` days ahead is the one the
      calendar prints for that day's date. */
  lemma DayKeyAtIsCalendarKey(now: Now, day: nat)
    requires RealNow(now)
    ensures DayKeyAt(now, day) == CalendarKey(AddDays(now.date, day))
  {
    WeekdayOfDate(now, day);
  }

  /** Adding to a number and to its remainder leaves the same remainder. */
  lemma ModShift(n: int, w: int, k: int)
    requires w == n % 7
    ensures (w + k) % 7 == (n + k) % 7
  {
    assert n + k == 7 * (n / 7) + (w + k);
  }

  /** The key of that day: "<Weekday>, <Month> <dd>". */
  function DayKeyAt(now: Now, day: nat): string
    requires ValidNow(now)
  {
    DayKey(WeekdayOf(now, day), AddDays(now.date, day))
  }

  /** No appointment holds instant t: each one either starts after t or has
      ended by t. */
  predicate IsFree(busy: seq<Appointment>, t: int) {
    forall i :: 0 <= i < |busy| ==> !(busy[i].start <= t < busy[i].end)
  }

  /** The bucket counts as free: it lies after today, on Monday to Friday,
      starts before the end of the window, and its start is free. */
  predicate Eligible(now: Now, busy: seq<Appointment>, day: int, hour: int) {
    && day >= 1
    && WeekdayOf(now, day) < 5
    && BucketStart(day, hour) < EndTime(now)
    && IsFree(busy, BucketStart(day, hour))
  }

  /** The free hours of one day before `hour`, rising. */
  function DayHours(now: Now, busy: seq<Appointment>, day: int, hour: int): seq<int>
    requires OpeningHour <= hour <= ClosingHour
    decreases hour
  {
    if hour == OpeningHour then []
    else
      var earlier := DayHours(now, busy, day, hour - 1);
      if Eligible(now, busy, day, hour - 1) then earlier + [hour - 1] else earlier
  }

  predicate Rising(hs: seq<int>) {
    forall a, b :: 0 <= a < b < |hs| ==> hs[a] < hs[b]
  }

  lemma {:induction false} DayHoursShape(now: Now, busy: seq<Appointment>, day: int, hour: int)
    requires OpeningHour <= hour <= ClosingHour
    ensures Rising(DayHours(now, busy, day, hour))
    ensures forall x :: x in DayHours(now, busy, day, hour) <==>
      OpeningHour <= x < hour && Eligible(now, busy, day, x)
    decreases hour
  {
    if hour > OpeningHour {
      DayHoursShape(now, busy, day, hour - 1);
      var pre := DayHours(now, busy, day, hour - 1);
      var hs := DayHours(now, busy, day, hour);
      if Eligible(now, busy, day, hour - 1) {
        assert hs == pre + [hour - 1];
        forall a, b | 0 <= a < b < |hs|
          ensures hs[a] < hs[b]
        {
          assert hs[a] == pre[a];
          if b < |pre| {
            assert hs[b] == pre[b];
          } else {
            assert pre[a] in pre;
          }
        }
      } else {
        assert hs == pre;
      }
    }
  }

  /** A range of whole hours [start, end). */
  datatype Span = Span(start: int, end: int)

  /** Adding the next free hour: it lengthens the last range when that range
      ends where the hour begins, and opens a new range otherwise. */
  function Extend(rs: seq<Span>, h: int): seq<Span> {
    if rs != [] && rs[|rs| - 1].end == h then rs[..|rs| - 1] + [Span(rs[|rs| - 1].start, h + 1)]
    else rs + [Span(h, h + 1)]
  }

  function Runs(hs: seq<int>): seq<Span> {
    if hs == [] then [] else Extend(Runs(hs[..|hs| - 1]), hs[|hs| - 1])
  }

  /** x lies in one of the ranges. */
  predicate Covered(rs: seq<Span>, x: int) {
    exists k :: 0 <= k < |rs| && rs[k].start <= x < rs[k].end
  }

  /** rs are the merged ranges of the rising hours hs: each non-empty, in order and never touching (so no two could have
      been merged), the last one ending after the last hour, and together
      covering exactly the listed hours. */
  ghost predicate RunsOf(hs: seq<int>, rs: seq<Span>) {
    && (rs == [] <==> hs == [])
    && (forall k :: 0 <= k < |rs| ==> rs[k].start < rs[k].end)
    && (forall a, b :: 0 <= a < b < |rs| ==> rs[a].end < rs[b].start)
    && (hs != [] ==> rs[|rs| - 1].end == hs[|hs| - 1] + 1)
    && (forall x :: x in hs <==> Covered(rs, x))
  }

  /** The next hour lengthens the last range. */
  lemma ExtendMerges(hs: seq<int>, rs: seq<Span>, h: int)
    requires RunsOf(hs, rs) && rs != [] && rs[|rs| - 1].end == h
    requires forall x :: x in hs ==> x < h
    ensures RunsOf(hs + [h], Extend(rs, h))
  {
    var last := rs[|rs| - 1];
    var out := rs[..|rs| - 1] + [Span(last.start, h + 1)];
    assert Extend(rs, h) == out;
    forall x | x in hs + [h]
      ensures Covered(out, x)
    {
      if x == h {
        assert out[|out| - 1].start <= x < out[|out| - 1].end;
      } else {
        assert Covered(rs, x);
        var k :| 0 <= k < |rs| && rs[k].start <= x < rs[k].end;
        assert out[k].start <= x < out[k].end;
      }
    }
    forall x | Covered(out, x)
      ensures x in hs + [h]
    {
      var k :| 0 <= k < |out| && out[k].start <= x < out[k].end;
      if k < |out| - 1 {
        assert rs[k] == out[k];
        assert Covered(rs, x);
      } else if x < h {
        assert Covered(rs, x);
      }
    }
  }

  /** The next hour, not adjacent to the last range, opens a new one. */
  lemma ExtendOpens(hs: seq<int>, rs: seq<Span>, h: int)
    requires RunsOf(hs, rs) && !(rs != [] && rs[|rs| - 1].end == h)
    requires forall x :: x in hs ==> x < h
    ensures RunsOf(hs + [h], Extend(rs, h))
  {
    var out := rs + [Span(h, h + 1)];
    assert Extend(rs, h) == out;
    OpenedCovers(hs, rs, h);
    OpenedApart(hs, rs, h, out);
  }

  lemma OpenedCovers(hs: seq<int>, rs: seq<Span>, h: int)
    requires forall x :: x in hs <==> Covered(rs, x)
    ensures forall x :: x in hs + [h] <==> Covered(rs + [Span(h, h + 1)], x)
  {
    var out := rs + [Span(h, h + 1)];
    forall x | x in hs + [h]
      ensures Covered(out, x)
    {
      if x == h {
        assert out[|out| - 1].start <= x < out[|out| - 1].end;
      } else {
        assert Covered(rs, x);
        var k :| 0 <= k < |rs| && rs[k].start <= x < rs[k].end;
        assert out[k].start <= x < out[k].end;
      }
    }
    forall x | Covered(out, x)
      ensures x in hs + [h]
    {
      var k :| 0 <= k < |out| && out[k].start <= x < out[k].end;
      if k < |rs| {
        assert rs[k] == out[k];
        assert Covered(rs, x);
      }
    }
  }

  lemma OpenedApart(hs: seq<int>, rs: seq<Span>, h: int, out: seq<Span>)
    requires RunsOf(hs, rs) && !(rs != [] && rs[|rs| - 1].end == h)
    requires forall x :: x in hs ==> x < h
    requires out == rs + [Span(h, h + 1)]
    ensures forall a, b :: 0 <= a < b < |out| ==> out[a].end < out[b].start
  {
    if rs != [] {
      var last := rs[|rs| - 1];
      assert Covered(rs, last.end - 1) by {
        assert rs[|rs| - 1].start <= last.end - 1 < rs[|rs| - 1].end;
      }
      assert last.end < h;
    }
    forall a, b | 0 <= a < b < |out|
      ensures out[a].end < out[b].start
    {
      assert out[a] == rs[a];
      if b < |rs| {
        assert out[b] == rs[b];
      } else if a < |rs| - 1 {
        assert rs[a].end < rs[|rs| - 1].start;
      }
    }
  }

  /** Ranges of hours in [lo, hi) start and end inside [lo, hi]. */
  lemma RunsBounds(hs: seq<int>, rs: seq<Span>, lo: int, hi: int)
    requires RunsOf(hs, rs)
    requires forall x :: x in hs ==> lo <= x < hi
    ensures forall k :: 0 <= k < |rs| ==> lo <= rs[k].start < rs[k].end <= hi
  {
    forall k | 0 <= k < |rs|
      ensures lo <= rs[k].start < rs[k].end <= hi
    {
      assert Covered(rs, rs[k].start);
      assert Covered(rs, rs[k].end - 1);
    }
  }

  /** Merging rising hours gives their ranges. */
  lemma {:induction false} RunsShape(hs: seq<int>)
    requires Rising(hs)
    ensures RunsOf(hs, Runs(hs))
  {
    if hs != [] {
      var pre, h := hs[..|hs| - 1], hs[|hs| - 1];
      assert Rising(pre);
      RunsShape(pre);
      assert hs == pre + [h];
      forall x | x in pre
        ensures x < h
      {
        var a :| 0 <= a < |pre| && pre[a] == x;
        assert hs[a] == x;
      }
      if Runs(pre) != [] && Runs(pre)[|Runs(pre)| - 1].end == h {
        ExtendMerges(pre, Runs(pre), h);
      } else {
        ExtendOpens(pre, Runs(pre), h);
      }
    }
  }

  /** The merged free ranges of one day, over the hours before `hour`. */
  function DayRanges(now: Now, busy: seq<Appointment>, day: int, hour: int): (rs: seq<Span>)
    requires OpeningHour <= hour <= ClosingHour
    ensures forall k :: 0 <= k < |rs| ==> OpeningHour <= rs[k].start < rs[k].end <= hour
  {
    var hs := DayHours(now, busy, day, hour);
    DayHoursShape(now, busy, day, hour);
    RunsShape(hs);
    RunsBounds(hs, Runs(hs), OpeningHour, hour);
    Runs(hs)
  }

  /** Some working hour of the day is free. */
  ghost predicate HasFreeHour(now: Now, busy: seq<Appointment>, day: int) {
    exists h :: OpeningHour <= h < ClosingHour && Eligible(now, busy, day, h)
  }

  /** The merged free ranges of a day cover exactly its free hours, are in
      order and never touch, and there is one exactly when the day has a free
      hour. */
  lemma DayRangesMeaning(now: Now, busy: seq<Appointment>, day: int)
    ensures forall x :: Covered(DayRanges(now, busy, day, ClosingHour), x) <==>
      OpeningHour <= x < ClosingHour && Eligible(now, busy, day, x)
    ensures forall a, b :: 0 <= a < b < |DayRanges(now, busy, day, ClosingHour)| ==>
      DayRanges(now, busy, day, ClosingHour)[a].end < DayRanges(now, busy, day, ClosingHour)[b].start
    ensures DayRanges(now, busy, day, ClosingHour) != [] <==> HasFreeHour(now, busy, day)
  {
    var hs := DayHours(now, busy, day, ClosingHour);
    DayHoursShape(now, busy, day, ClosingHour);
    RunsShape(hs);
    if HasFreeHour(now, busy, day) {
      var x :| OpeningHour <= x < ClosingHour && Eligible(now, busy, day, x);
      assert x in hs;
    }
  }

  /** `f"{start:%I:%M %p} - {end:%I:%M %p}"`. */
  function RangeText(a: int, b: int): string
    requires 0 <= a < 24 && 0 <= b < 24
  {
    HourLabel(a) + " - " + HourLabel(b)
  }

  /** `split(' - ')` takes a range text apart into its two labels. */
  lemma RangeTextSplit(a: int, b: int)
    requires 0 <= a < 24 && 0 <= b < 24
    ensures Split(RangeText(a, b), " - ") == [HourLabel(a), HourLabel(b)]
  {
    var la, lb := HourLabel(a), HourLabel(b);
    var s := la + " - " + lb;
    forall i | i < 8
      ensures !MatchAt(s, " - ", i)
    {
      if 0 <= i && i + 3 <= |s| {
        assert s[i..i + 3][1] == s[i + 1];
        if i < 7 {
          assert s[i + 1] == la[i + 1];
        } else {
          assert s[i..i + 3][0] == la[7];
        }
      }
    }
    assert s[8..11] == " - ";
    SplitFirstAt(s, " - ", 8);
    assert s[..8] == la && s[11..] == lb;
    forall i | i < |lb|
      ensures !MatchAt(lb, " - ", i)
    {
      if 0 <= i && i + 3 <= |lb| {
        assert lb[i..i + 3][1] == lb[i + 1];
      }
    }
    SplitNoMatch(lb, " - ");
  }

  /** Every range lies within one day's hours. */
  predicate InDay(rs: seq<Span>) {
    forall k :: 0 <= k < |rs| ==> 0 <= rs[k].start < 24 && 0 <= rs[k].end < 24
  }

  function RangeTexts(rs: seq<Span>): (texts: seq<string>)
    requires InDay(rs)
    ensures |texts| == |rs|
    ensures forall k :: 0 <= k < |rs| ==> texts[k] == RangeText(rs[k].start, rs[k].end)
  {
    seq(|rs|, k requires 0 <= k < |rs| => RangeText(rs[k].start, rs[k].end))
  }

  lemma RangeTextsAppend(rs: seq<Span>, a: int, b: int)
    requires InDay(rs) && 0 <= a < 24 && 0 <= b < 24
    ensures InDay(rs + [Span(a, b)])
    ensures RangeTexts(rs + [Span(a, b)]) == RangeTexts(rs) + [RangeText(a, b)]
  {
  }

  lemma RangeTextsPrefix(rs: seq<Span>, k: int)
    requires InDay(rs) && 0 <= k <= |rs|
    ensures InDay(rs[..k])
    ensures RangeTexts(rs[..k]) == RangeTexts(rs)[..k]
  {
  }

  /** One entry of the result dictionary: a day key and its range texts. */
  datatype DaySlots = DaySlots(day: string, ranges: seq<string>)

  /** `key in free_slots`. */
  predicate HasKey(slots: seq<DaySlots>, key: string) {
    exists i :: 0 <= i < |slots| && slots[i].day == key
  }

  /** Where `free_slots[key]` lives: the first entry with that key. */
  function KeyIndex(slots: seq<DaySlots>, key: string): (i: nat)
    requires HasKey(slots, key)
    ensures i < |slots| && slots[i].day == key
    ensures forall j :: 0 <= j < i ==> slots[j].day != key
  {
    if slots[0].day == key then 0
    else
      assert HasKey(slots[1..], key) by {
        var j :| 0 <= j < |slots| && slots[j].day == key;
        assert slots[1..][j - 1].day == key;
      }
      1 + KeyIndex(slots[1..], key)
  }

  /** The dictionary entry for a day once its hours before `hour` are walked:
      none when it has no free hour yet. */
  function Entry(now: Now, busy: seq<Appointment>, day: nat, hour: int): seq<DaySlots>
    requires ValidNow(now) && OpeningHour <= hour <= ClosingHour
  {
    var rs := DayRanges(now, busy, day, hour);
    if rs == [] then [] else [DaySlots(DayKeyAt(now, day), RangeTexts(rs))]
  }

  /** The dictionary after the first `days` days are walked completely. */
  function Completed(now: Now, busy: seq<Appointment>, days: nat): seq<DaySlots>
    requires ValidNow(now)
  {
    if days == 0 then []
    else Completed(now, busy, days - 1) + Entry(now, busy, days - 1, ClosingHour)
  }

  /** The dictionary the walk holds when it stands at bucket (day, hour):
      every earlier day complete and this day up to the hour. */
  ghost predicate WalkedTo(now: Now, busy: seq<Appointment>, slots: seq<DaySlots>, day: nat, hour: int)
    requires ValidNow(now) && OpeningHour <= hour <= ClosingHour
  {
    slots == Completed(now, busy, day) + Entry(now, busy, day, hour)
  }

  /** What get_free_time_slots returns: today and the seven days after it. */
  function FreeSlotsSpec(now: Now, busy: seq<Appointment>): seq<DaySlots>
    requires ValidNow(now)
  {
    Completed(now, busy, WindowDays + 1)
  }

  /** The entry listed for a day with free hours. */
  function DayEntry(now: Now, busy: seq<Appointment>, day: nat): DaySlots
    requires ValidNow(now)
  {
    DaySlots(DayKeyAt(now, day), RangeTexts(DayRanges(now, busy, day, ClosingHour)))
  }

  /** Days 1 to 7 after today fall on seven different weekdays, so their keys differ. */
  lemma DayKeysDiffer(now: Now, d: nat, d': nat)
    requires ValidNow(now) && 1 <= d < d' <= 7
    ensures DayKeyAt(now, d) != DayKeyAt(now, d')
  {
    assert WeekdayOf(now, d) != WeekdayOf(now, d');
  }

  /** The days before `days` that have a free hour, in order. */
  ghost function FreeDays(now: Now, busy: seq<Appointment>, days: nat): seq<nat> {
    if days == 0 then []
    else
      var earlier := FreeDays(now, busy, days - 1);
      if HasFreeHour(now, busy, days - 1) then earlier + [days - 1] else earlier
  }

  lemma {:induction false} FreeDaysShape(now: Now, busy: seq<Appointment>, days: nat)
    ensures Rising(FreeDays(now, busy, days))
    ensures forall d :: d in FreeDays(now, busy, days) <==> 1 <= d < days && HasFreeHour(now, busy, d)
  {
    if days > 0 {
      FreeDaysShape(now, busy, days - 1);
      var pre := FreeDays(now, busy, days - 1);
      var fd := FreeDays(now, busy, days);
      if HasFreeHour(now, busy, days - 1) {
        assert days - 1 != 0;
        assert fd == pre + [days - 1];
        forall a, b | 0 <= a < b < |fd|
          ensures fd[a] < fd[b]
        {
          assert fd[a] == pre[a];
          if b < |pre| {
            assert fd[b] == pre[b];
          } else {
            assert pre[a] in pre;
          }
        }
      }
    }
  }

  lemma FreeDaysStep(now: Now, busy: seq<Appointment>, n: nat)
    ensures FreeDays(now, busy, n + 1) ==
      FreeDays(now, busy, n) + if HasFreeHour(now, busy, n) then [n] else []
  {
  }

  /** A day gets an entry exactly when it has a free hour. */
  lemma EntryOfFreeDay(now: Now, busy: seq<Appointment>, day: nat)
    requires ValidNow(now)
    ensures Entry(now, busy, day, ClosingHour) ==
      if HasFreeHour(now, busy, day) then [DayEntry(now, busy, day)] else []
  {
    DayRangesMeaning(now, busy, day);
  }

  /** After `days` days the dictionary holds exactly the entries of the free
      days before `days`, in order. */
  lemma {:induction false} CompletedIsFreeDays(now: Now, busy: seq<Appointment>, days: nat)
    requires ValidNow(now)
    ensures |Completed(now, busy, days)| == |FreeDays(now, busy, days)|
    ensures forall i :: 0 <= i < |Completed(now, busy, days)| ==>
      Completed(now, busy, days)[i] == DayEntry(now, busy, FreeDays(now, busy, days)[i])
  {
    if days > 0 {
      var n := days - 1;
      CompletedIsFreeDays(now, busy, n);
      EntryOfFreeDay(now, busy, n);
      FreeDaysStep(now, busy, n);
      var pre, fpre := Completed(now, busy, n), FreeDays(now, busy, n);
      var c, fd := Completed(now, busy, days), FreeDays(now, busy, days);
      if HasFreeHour(now, busy, n) {
        assert c == pre + [DayEntry(now, busy, n)];
        assert fd == fpre + [n];
        forall i | 0 <= i < |c|
          ensures c[i] == DayEntry(now, busy, fd[i])
        {
          if i < |pre| {
            assert c[i] == pre[i] && fd[i] == fpre[i];
          }
        }
      } else {
        assert c == pre && fd == fpre;
      }
    }
  }

  /** The result lists, in day order, one entry for each of the seven days
      after today that has a free working hour, and nothing else; each
      entry's key is that day's "<Weekday>, <Month> <dd>" (so no key repeats)
      and its ranges are the day's merged free ranges. */
  lemma FreeSlotsMeaning(now: Now, busy: seq<Appointment>)
    requires ValidNow(now)
    ensures |FreeSlotsSpec(now, busy)| == |FreeDays(now, busy, WindowDays + 1)|
    ensures forall i :: 0 <= i < |FreeSlotsSpec(now, busy)| ==>
      FreeSlotsSpec(now, busy)[i] == DayEntry(now, busy, FreeDays(now, busy, WindowDays + 1)[i])
    ensures forall d :: d in FreeDays(now, busy, WindowDays + 1) <==>
      1 <= d <= WindowDays && HasFreeHour(now, busy, d)
    ensures Rising(FreeDays(now, busy, WindowDays + 1))
    ensures forall a, b :: 0 <= a < b < |FreeSlotsSpec(now, busy)| ==>
      FreeSlotsSpec(now, busy)[a].day != FreeSlotsSpec(now, busy)[b].day
  {
    CompletedIsFreeDays(now, busy, WindowDays + 1);
    FreeDaysShape(now, busy, WindowDays + 1);
    var fd := FreeDays(now, busy, WindowDays + 1);
    forall a, b | 0 <= a < b < |fd|
      ensures DayKeyAt(now, fd[a]) != DayKeyAt(now, fd[b])
    {
      assert fd[a] in fd && fd[b] in fd;
      DayKeysDiffer(now, fd[a], fd[b]);
    }
  }

  /** No hour from `hour` to `later` being free, the day's free hours before
      `later` are those before `hour`. */
  lemma {:induction false} DayHoursFrozen(now: Now, busy: seq<Appointment>, day: int, hour: int, later: int)
    requires OpeningHour <= hour <= later <= ClosingHour
    requires forall h :: hour <= h < later ==> !Eligible(now, busy, day, h)
    ensures DayHours(now, busy, day, later) == DayHours(now, busy, day, hour)
    decreases later
  {
    if later > hour {
      DayHoursFrozen(now, busy, day, hour, later - 1);
    }
  }

  /** Days whose first bucket is past the end of the window add nothing. */
  lemma {:induction false} CompletedFrozen(now: Now, busy: seq<Appointment>, first: nat, stop: nat)
    requires ValidNow(now) && first <= stop
    requires BucketStart(first, OpeningHour) >= EndTime(now)
    ensures Completed(now, busy, stop) == Completed(now, busy, first)
    decreases stop
  {
    if stop > first {
      CompletedFrozen(now, busy, first, stop - 1);
      DayHoursFrozen(now, busy, stop - 1, OpeningHour, ClosingHour);
      assert Entry(now, busy, stop - 1, ClosingHour) == [];
    }
  }

  /** Once the bucket (day, hour) starts at or after the end of the window,
      the walk has built the whole result. */
  lemma WalkEnds(now: Now, busy: seq<Appointment>, day: nat, hour: int)
    requires ValidNow(now) && day <= WindowDays + 1 && OpeningHour <= hour <= ClosingHour
    requires BucketStart(day, hour) >= EndTime(now)
    ensures forall slots :: WalkedTo(now, busy, slots, day, hour) ==> slots == FreeSlotsSpec(now, busy)
  {
    DayHoursFrozen(now, busy, day, hour, ClosingHour);
    if day <= WindowDays {
      assert Completed(now, busy, day + 1) == Completed(now, busy, day) + Entry(now, busy, day, hour);
      CompletedFrozen(now, busy, day + 1, WindowDays + 1);
    } else {
      DayHoursFrozen(now, busy, day, OpeningHour, hour);
      assert Entry(now, busy, day, hour) == [];
    }
  }

  /** Before the walk reaches a day after today, the dictionary has no
      entry for it: earlier days within the week have other weekdays. */
  lemma KeyNotYetListed(now: Now, busy: seq<Appointment>, day: nat)
    requires ValidNow(now) && 1 <= day <= WindowDays
    ensures !HasKey(Completed(now, busy, day), DayKeyAt(now, day))
  {
    var c := Completed(now, busy, day);
    CompletedIsFreeDays(now, busy, day);
    FreeDaysShape(now, busy, day);
    forall i | 0 <= i < |c|
      ensures c[i].day != DayKeyAt(now, day)
    {
      var d := FreeDays(now, busy, day)[i];
      assert d in FreeDays(now, busy, day);
      DayKeysDiffer(now, d, day);
    }
  }

  /** A free bucket adds its hour to the day's ranges. */
  lemma FreeHourExtends(now: Now, busy: seq<Appointment>, day: nat, hour: int)
    requires OpeningHour <= hour < ClosingHour && Eligible(now, busy, day, hour)
    ensures DayRanges(now, busy, day, hour + 1) == Extend(DayRanges(now, busy, day, hour), hour)
  {
    var hs := DayHours(now, busy, day, hour);
    assert DayHours(now, busy, day, hour + 1) == hs + [hour];
    assert (hs + [hour])[..|hs|] == hs;
  }

  /** A bucket that is not free leaves the day's entry as it is. */
  lemma EntryAfterBusyHour(now: Now, busy: seq<Appointment>, day: nat, hour: int)
    requires ValidNow(now) && OpeningHour <= hour < ClosingHour && !Eligible(now, busy, day, hour)
    ensures Entry(now, busy, day, hour + 1) == Entry(now, busy, day, hour)
  {
    assert DayHours(now, busy, day, hour + 1) == DayHours(now, busy, day, hour);
  }

  /** Moving from 17:00 to 09:00 of the next day completes the day. */
  lemma DayCompleted(now: Now, busy: seq<Appointment>, slots: seq<DaySlots>, day: nat)
    requires ValidNow(now) && WalkedTo(now, busy, slots, day, ClosingHour)
    ensures WalkedTo(now, busy, slots, day + 1, OpeningHour)
  {
    assert Entry(now, busy, day + 1, OpeningHour) == [];
  }

  /** After a free bucket the day's entry holds the extended ranges. */
  lemma EntryAfterFreeHour(now: Now, busy: seq<Appointment>, day: nat, hour: int)
    requires ValidNow(now) && OpeningHour <= hour < ClosingHour && Eligible(now, busy, day, hour)
    ensures InDay(Extend(DayRanges(now, busy, day, hour), hour))
    ensures Entry(now, busy, day, hour + 1) ==
      [DaySlots(DayKeyAt(now, day), RangeTexts(Extend(DayRanges(now, busy, day, hour), hour)))]
  {
    FreeHourExtends(now, busy, day, hour);
  }

  /** The update of one day's list for a free bucket at `hour` o'clock: when
      the last range text ends with the bucket's start label, replace it by
      one running to the bucket's end, and otherwise append the bucket's own
      range text. On range texts this is exactly Extend on the ranges they
      print. */
  method ExtendRangeTexts(ranges: seq<string>, hour: int, ghost rs: seq<Span>)
    returns (updated: seq<string>)
    requires 0 <= hour < 23 && InDay(rs) && ranges == RangeTexts(rs)
    requires forall k :: 0 <= k < |rs| ==> rs[k].end <= hour
    ensures InDay(Extend(rs, hour))
    ensures updated == RangeTexts(Extend(rs, hour))
  {
    var nextHour := hour + 1;
    if rs != [] {
      var last := rs[|rs| - 1];
      assert ranges[|ranges| - 1] == RangeText(last.start, last.end);
      RangeTextSplit(last.start, last.end);
      HourLabelInjective(last.end, hour);
    }
    if |ranges| > 0 && Split(ranges[|ranges| - 1], " - ")[1] == HourLabel(hour) {
      updated := ranges[..|ranges| - 1] + [Split(ranges[|ranges| - 1], " - ")[0] + " - " + HourLabel(nextHour)];
      assert Extend(rs, hour) == rs[..|rs| - 1] + [Span(rs[|rs| - 1].start, nextHour)];
      RangeTextsPrefix(rs, |rs| - 1);
      RangeTextsAppend(rs[..|rs| - 1], rs[|rs| - 1].start, nextHour);
    } else {
      updated := ranges + [HourLabel(hour) + " - " + HourLabel(nextHour)];
      assert Extend(rs, hour) == rs + [Span(hour, nextHour)];
      RangeTextsAppend(rs, hour, nextHour);
    }
  }

  /** Recording one free bucket, `hour` o'clock, under `key`: create the
      day's list when the key is new, then update that list. */
  method RecordFreeHour(slots: seq<DaySlots>, key: string, hour: int,
                        ghost done: seq<DaySlots>, ghost rs: seq<Span>)
    returns (updated: seq<DaySlots>)
    requires 0 <= hour < 23 && InDay(rs)
    requires forall k :: 0 <= k < |rs| ==> rs[k].end <= hour
    requires !HasKey(done, key)
    requires slots == done + if rs == [] then [] else [DaySlots(key, RangeTexts(rs))]
    ensures InDay(Extend(rs, hour))
    ensures updated == done + [DaySlots(key, RangeTexts(Extend(rs, hour)))]
  {
    updated := slots;
    if rs == [] {
      assert updated == done;
    } else {
      assert updated[|done|].day == key;
    }
    if !HasKey(updated, key) {
      updated := updated + [DaySlots(key, [])];
    }
    assert |updated| == |done| + 1 && updated[|done|].day == key;
    assert forall j :: 0 <= j < |done| ==> updated[j] == done[j];
    var i := KeyIndex(updated, key);
    assert i == |done|;
    var ranges := ExtendRangeTexts(updated[i].ranges, hour, rs);
    updated := updated[i := DaySlots(key, ranges)];
  }

  /** One pass of the walk's body: record the bucket (day, hour) when it is
      a free hour of a weekday after today. */
  method VisitBucket(now: Now, busy: seq<Appointment>, freeSlots: seq<DaySlots>, day: nat, hour: int)
    returns (updated: seq<DaySlots>)
    requires ValidNow(now) && day <= WindowDays && OpeningHour <= hour < ClosingHour
    requires BucketStart(day, hour) < EndTime(now)
    requires WalkedTo(now, busy, freeSlots, day, hour)
    ensures WalkedTo(now, busy, updated, day, hour + 1)
  {
    ghost var done := Completed(now, busy, day);
    updated := freeSlots;
    if day > 0 && WeekdayOf(now, day) < 5 {
      var key := DayKeyAt(now, day);
      if IsFree(busy, BucketStart(day, hour)) {
        ghost var rs := DayRanges(now, busy, day, hour);
        assert !HasKey(done, key) by {
          KeyNotYetListed(now, busy, day);
        }
        updated := RecordFreeHour(updated, key, hour, done, rs);
        assert Eligible(now, busy, day, hour);
        EntryAfterFreeHour(now, busy, day, hour);
      } else {
        assert !Eligible(now, busy, day, hour);
        EntryAfterBusyHour(now, busy, day, hour);
      }
    } else {
      assert !Eligible(now, busy, day, hour);
      EntryAfterBusyHour(now, busy, day, hour);
    }
  }

  /** The bucket after (day, hour): the next hour, or 09:00 of the next day
      once the hour reaches 17:00. */
  function NextDay(day: nat, hour: int): (d: nat)
    ensures d == day || d == day + 1
  {
    if hour + 1 < ClosingHour then day else day + 1
  }

  function NextHour(hour: int): (h: int)
    requires OpeningHour <= hour < ClosingHour
    ensures OpeningHour <= h < ClosingHour
  {
    if hour + 1 < ClosingHour then hour + 1 else OpeningHour
  }

  /** Having visited (day, hour), the walk has reached the next bucket. */
  lemma HourAdvanced(now: Now, busy: seq<Appointment>, slots: seq<DaySlots>, day: nat, hour: int)
    requires ValidNow(now) && OpeningHour <= hour < ClosingHour
    requires WalkedTo(now, busy, slots, day, hour + 1)
    ensures WalkedTo(now, busy, slots, NextDay(day, hour), NextHour(hour))
  {
    if hour + 1 == ClosingHour {
      DayCompleted(now, busy, slots, day);
    }
  }

  /** The loop body: visit the bucket, then advance the clock by an hour,
      moving from 17:00 to 09:00 of the next day. */
  method WalkStep(now: Now, busy: seq<Appointment>, freeSlots: seq<DaySlots>, day: nat, hour: int)
    returns (updated: seq<DaySlots>, nextDay: nat, nextHour: int)
    requires ValidNow(now) && day <= WindowDays && OpeningHour <= hour < ClosingHour
    requires BucketStart(day, hour) < EndTime(now)
    requires WalkedTo(now, busy, freeSlots, day, hour)
    ensures OpeningHour <= nextHour < ClosingHour && nextDay <= day + 1
    ensures nextDay * 24 + nextHour > day * 24 + hour
    ensures WalkedTo(now, busy, updated, nextDay, nextHour)
  {
    updated := VisitBucket(now, busy, freeSlots, day, hour);
    nextDay, nextHour := NextDay(day, hour), NextHour(hour);
    HourAdvanced(now, busy, updated, day, hour);
  }

  /** get_free_time_slots: walk the hour buckets from 09:00 today, one hour at
      a time and from 17:00 to 09:00 of the next day, while the bucket starts
      before the end of the window; record each free bucket of a weekday after
      today under its day's key, merging it into the day's last range when
      that range ends where the bucket starts. */
  method GetFreeTimeSlots(now: Now, busy: seq<Appointment>) returns (freeSlots: seq<DaySlots>)
    requires ValidNow(now)
    ensures freeSlots == FreeSlotsSpec(now, busy)
  {
    freeSlots := [];
    var day: nat, hour := 0, OpeningHour;
    assert WalkedTo(now, busy, freeSlots, day, hour) by {
      assert Entry(now, busy, 0, OpeningHour) == [];
    }
    while BucketStart(day, hour) < EndTime(now)
      invariant day <= WindowDays + 1 && OpeningHour <= hour < ClosingHour
      invariant WalkedTo(now, busy, freeSlots, day, hour)
      decreases (WindowDays + 2) * 24 - (day * 24 + hour)
    {
      assert day <= WindowDays;
      freeSlots, day, hour := WalkStep(now, busy, freeSlots, day, hour);
    }
    WalkEnds(now, busy, day, hour);
  }
}
