# Rolodex notification engine, in Dafny

This project models the core of a desktop "rolodex" for an investment team.
Contacts (name, position, e-mail, country, contact level) are kept in a
small database. A timer checks once per tick whether the stored weekly
schedule (a weekday and an "HH:MM" time) is due. When it is, the
application picks a contact to reach out to:

1. It draws a country at random, weighting each country by `6 - priority`.
   A country without a stored priority counts as priority 3.
2. Within that country it draws a contact from the first contact level
   present, in the order "First Contact", "Second Contact",
   "Third Contact". When none of those levels is present, it draws from
   every contact of the country.
3. It records a "selected" event.

From the popup, the user can open a meeting e-mail. Its body lists the
user's free working hours for the coming week, merged into ranges and
grouped by day. The Manage Contacts page filters the contact table by
case-insensitive substring match.

The modules follow the program's structure:

- `Text`: the Python string operations the source relies on.
  - `lower`, `in`, `sep.join` and `split(sep)`.
  - `strip`, and two-digit formatting.
- `Contacts`: the contact record and `ManageContactsPage.apply_filters`.
- `Selection`: the contact picker of `MainWindow.show_notification`.
  - Grouping by country, in insertion order.
  - The weights.
  - The weighted draw.
  - The level scan.
- `Calendar`: the strftime labels of days and hours, and the Gregorian
  calendar needed to name the days after today.
- `DueClock`: the due check of `MainWindow.schedule_notification`, as
  functions over clock strings.
  - What one tick does to the `pushed_today` guard.
  - What a sequence of ticks does.
- `FreeSlots`: `get_free_time_slots`. The appointments it reads from
  Outlook are a parameter. Its hour-by-hour loop is a method proved equal
  to a specification function. That function is characterised by lemmas:
  - the listed days are exactly the weekdays after today that have a free
    hour;
  - the ranges cover exactly the free hours and never touch;
  - the day keys are distinct.
- `Email`: the `times_formatted` text, the reformatting of the Outlook user
  name, the default body and the `(to, subject, body)` triple of
  `email_template`.
- `Engine`: the stateful part, as classes.
  - `Store` holds the database tables.
  - The form actions (add contact, save contact, set frequency).
  - `Notifier` holds `pushed_today` and the contact cache, and runs the
    tick, the selection and the e-mail button.

Randomness, the clock and the calendar are inputs.

- `random.choices` is an integer draw `r` in `[0, total weight)`. The
  country whose cumulative-weight interval holds `r` is chosen, so each
  country is chosen by exactly as many draws as its weight.
- `random.choice(xs)` is an index into `xs`.
- Inside `Engine` both draws are chosen nondeterministically within their
  ranges.

As the source is written, a schedule stored for "00:00" fires on every tick
of that minute, because the guard is cleared on any "00:00" tick before the
due check. `DueClock.MidnightScheduleFiresEveryTick` states this. The tick
lemmas treat each tick as running to completion before the next one starts
(see "Left out" for the re-entrant case).

The free-slot walk counts weekdays on from today's; `FreeSlots.RealNow`
says today's weekday is the one the calendar gives today's date, and under
it every day key is the calendar's own "%A, %B %d" label of that date.

## Model

| member | source | states |
|---|---|---|
| Text.Lower | gui.py:191-204 | `lower()` keeps the length and lowers each character. |
| Text.Contains | gui.py:200-204 | `p in s` holds iff p occurs in s at some position. |
| Text.Split | email_utils.py:61 | `s.split(sep)` gives at least one part, and joining the parts with sep gives back s. |
| Text.SplitAtComma | email_utils.py:61 | Two comma-free texts joined by one comma split back into exactly those two. |
| Text.SplitFirstAt | email_utils.py:43-44 | The first occurrence of the separator ends the first part. |
| Text.Strip | email_utils.py:61 | `strip()` gives the slice of s left after cutting white space off both ends, and that slice neither starts nor ends with white space. |
| Text.JoinAppend | email_utils.py:74 | `sep.join` of two non-empty lists is the two joins with one separator between them. |
| Contacts.ApplyFilters | gui.py:189-206 | The filter loop returns `Filtered(all, f)`: a contact is kept iff every lowercased filter text occurs in its lowercased field. |
| Contacts.FilteredMembers | gui.py:198-205 | Exactly the contacts of the list that pass all five filters survive. |
| Contacts.FilteredAppend | gui.py:197-206 | Filtering keeps the original order: filtering a concatenation concatenates the filtered parts. |
| Contacts.EmptyFiltersKeepAll | gui.py:191-206 | With every filter box empty, every contact is shown, in order. |
| Selection.GroupByCountry | gui.py:667-671 | The keys are the distinct countries in order of first occurrence, and each key's group is that country's contacts in order. |
| Selection.CountriesAreGroupKeys | gui.py:667-671 | The group keys are distinct, and a country is a key iff it has a contact. |
| Selection.OfCountryMembers | gui.py:669-671 | A group holds exactly the contacts of its country. |
| Selection.GroupsPartition | gui.py:667-671 | The group sizes add up to the number of contacts, so every contact is in exactly one group. |
| Selection.CountriesNonEmpty | gui.py:661-675 | A non-empty contact list gives a non-empty dict, so the "No contacts available." branch at lines 673-675 cannot run. |
| Selection.CountryWeights | gui.py:680-688 | The weights loop gives `6 - priority` per country, with default priority 3, and every weight lies in 1..5. |
| Selection.WeightRange | gui.py:682-688 | Each weight is in 1..5, an unset country weighs 3, and a lower (more important) priority weighs strictly more. |
| Selection.PickIndex | gui.py:691 | The drawn index's cumulative-weight interval holds the draw. |
| Selection.PickIndexExactly | gui.py:691 | Index i is chosen iff the draw falls in `[Sum(ws[..i]), Sum(ws[..i]) + ws[i])`, so it is chosen by exactly `ws[i]` draws. |
| Selection.SumPrefixMonotone | gui.py:691 | With positive weights the cumulative sums strictly increase, so the intervals do not overlap. |
| Selection.SumPositive | gui.py:684-691 | Positive weights of a non-empty list sum to at least its length, so the draw range is non-empty. |
| Selection.WithLevelMembers | gui.py:699 | `[c for c in candidates if c[5] == level]` holds exactly the candidates of that level. |
| Selection.LevelPoolMeaning | gui.py:693-705 | The pool is non-empty for non-empty candidates and holds candidates only. When a preferred level is present, the pool is exactly the first such level's candidates and no candidate has an earlier level. The fallback pool of all candidates is used iff no candidate has a preferred level. |
| Selection.FirstPresentLevelSkips | gui.py:697-702 | The scan passes over empty levels only and stops at a non-empty one. |
| Selection.PickContact | gui.py:693-705 | The level loop with its `break`, and the fallback, return element k of the pool. |
| Selection.DrawsExist | gui.py:658-705 | For a non-empty contact list, the country draw has a non-empty range and every drawn country has a non-empty pool. |
| Selection.ChooseMeaning | gui.py:665-705 | The selected contact is a stored contact of the drawn country. Its level is that country's first present preferred level, or a non-preferred one when none is present. |
| Selection.ChosenCountryExactly | gui.py:689-691 | Country i is drawn iff the draw lies in its cumulative-weight interval. |
| Calendar.NextDate | email_utils.py:50 | The day after a valid Gregorian date is a valid date. |
| Calendar.NextDateNumber | email_utils.py:50 | The day after a date is the day numbered one more, counting from 1 January of year 1 as Python's `toordinal` does, across month and year ends and leap days. |
| Calendar.AddDays | email_utils.py:50 | Moving a valid date on by n days gives a valid date. |
| Calendar.AddDaysNumber | email_utils.py:50 | The date n days after d is the day numbered n more than d. |
| Calendar.YearLength | email_utils.py:50 | A Gregorian year has 366 days when it is a leap year and 365 otherwise. |
| Calendar.DayNumberInjective | email_utils.py:50 | Two valid dates with the same day number are the same date, so the numbering pins down `NextDate` and `AddDays`. |
| Calendar.DayNumberExample | email_utils.py:30 | 18 October 2026 is day 739906 and a Sunday, weekday 6. |
| Calendar.DayKey | email_utils.py:34-36 | A "%A, %B %d" key starts with its weekday's name, so its first two letters decode to that weekday. |
| Calendar.DaysInMonth | email_utils.py:35 | Every month has 28 to 31 days. |
| Calendar.DayKeyWeekday | email_utils.py:34-36 | Two "%A, %B %d" keys that are equal have the same weekday. |
| Calendar.HourLabel | email_utils.py:43-46 | "%I:%M %p" of a whole hour is 8 characters, has no "-" and ends in "M". |
| Calendar.HourLabelInjective | email_utils.py:43 | Two hours of one day have the same label iff they are the same hour. |
| Calendar.HourLabelExamples | email_utils.py:29-50 | 9, 12 and 17 o'clock print as "09:00 AM", "12:00 PM" and "05:00 PM". |
| DueClock.ClockText | gui.py:368-372 | The two two-digit boxes joined by ":" give a 5-character "HH:MM". |
| DueClock.ClockTextInjective | gui.py:633-653 | A stored "HH:MM" equals the clock text of exactly one minute, and "00:00" is midnight only. |
| DueClock.NowFields | gui.py:633-635 | `toString("dddd,hh:mm").lower().split(",")` gives exactly the lowercase day name and "hh:mm". |
| DueClock.TickAt | gui.py:633-655 | A tick at a wall-clock moment fires iff the guard is clear or the moment is midnight, a day is stored, the stored day lowered is today's lowercase name and the stored time is the moment's "hh:mm". |
| DueClock.WeekdayNamesDistinct | gui.py:650-652 | The seven lowercase day names are pairwise different. |
| DueClock.Tick | gui.py:637-655 | One tick fires iff the guard is clear or cleared by a "00:00" tick, a day is stored, the lowered day is today and the stored time is now. The guard afterwards is set iff the tick fired, or it was set and the tick was not at "00:00". |
| DueClock.FiresExactlyOnSchedule | gui.py:633-655 | From a clear guard, a schedule saved by the scheduler page fires at its own weekday, hour and minute, and at no other moment. |
| DueClock.GuardBlocks | gui.py:637-644 | With the guard set, a tick at any minute but midnight fires nothing and leaves the guard set. |
| DueClock.AtMostOnceBetweenMidnights | gui.py:637-655 | Over any ticks without a "00:00" one there is at most one firing, none once the guard is set, and the guard is set after a firing. |
| DueClock.MidnightScheduleFiresEveryTick | gui.py:637-655 | A schedule stored for "00:00" fires on every tick of that minute of its day. |
| FreeSlots.GetFreeTimeSlots | email_utils.py:28-52 | The hour-by-hour walk returns exactly `FreeSlotsSpec(now, busy)`, the dict built day by day from the merged free ranges. |
| FreeSlots.VisitBucket | email_utils.py:33-46 | Visiting one bucket adds it to its day's entry iff it is an eligible free hour. |
| FreeSlots.WalkStep | email_utils.py:33-50 | One pass of the loop moves to the next bucket, and from 17:00 to 09:00 of the next day, keeping the dict equal to the walk so far. |
| FreeSlots.RecordFreeHour | email_utils.py:40-46 | A free bucket creates its day's list when the key is new, then extends that list, leaving earlier days untouched. |
| FreeSlots.ExtendRangeTexts | email_utils.py:43-46 | The string-level merge matches merging the ranges: the last text is replaced when it ends at the bucket's start label, otherwise a new text is appended. |
| FreeSlots.FreeSlotsMeaning | email_utils.py:8-52 | The dict lists, in date order, exactly the days 1..7 after today that have an eligible free hour. Each day's entry is that day's key with its range texts, and no two entries share a key. |
| FreeSlots.DayRangesMeaning | email_utils.py:38-46 | A day's ranges cover exactly its eligible free hours and never touch. A day has ranges iff it has a free hour. |
| FreeSlots.DayRanges | email_utils.py:43-46 | Every range of a day starts at or after 09:00 and ends by 17:00. |
| FreeSlots.DayHoursShape | email_utils.py:32-50 | The free hours of a day are listed rising, and an hour is listed iff it is an eligible free hour. |
| FreeSlots.RunsShape | email_utils.py:43-46 | Merging rising hours gives ranges in order that never touch and together cover exactly those hours. |
| FreeSlots.ExtendMerges | email_utils.py:43-44 | An hour adjacent to the last range lengthens it, and the ranges still cover exactly the hours. |
| FreeSlots.ExtendOpens | email_utils.py:45-46 | An hour not adjacent to the last range opens a new one, and the ranges still cover exactly the hours. |
| FreeSlots.RangeTextSplit | email_utils.py:43-44 | Splitting a range text at " - " gives back its two hour labels. |
| FreeSlots.WeekdayOfDate | email_utils.py:30-38 | At a real moment, the weekday counted on from today's is the weekday of that day's date. |
| FreeSlots.DayKeyAtIsCalendarKey | email_utils.py:34-36 | At a real moment, each day's key is the calendar's "%A, %B %d" of its date. |
| FreeSlots.HourAdvanced | email_utils.py:48-50 | After the bucket at (day, hour) the walk stands at the next hour, or at 09:00 of the next day once the hour reaches 17:00. |
| FreeSlots.DayKeysDiffer | email_utils.py:34-36 | Days 1 to 7 after today have seven distinct keys. |
| FreeSlots.KeyNotYetListed | email_utils.py:40-41 | When a day is reached, its key is not yet in the dict. |
| FreeSlots.FreeDaysShape | email_utils.py:38-39 | The days with free hours are listed rising, and a day is listed iff it lies after today and has an eligible free hour. |
| FreeSlots.CompletedIsFreeDays | email_utils.py:28-52 | The dict has one entry per free day, in order, each holding that day's ranges. |
| Email.Availability | email_utils.py:74 | With no free days the text is empty. |
| Email.AvailabilityAppend | email_utils.py:74 | Each further day adds a newline and its block: "\n<day>:\n" then "- <range>" lines. |
| Email.AvailabilityListsEverything | email_utils.py:74 | Every day's block, and within it every range as a "- " bullet, occurs in the text. |
| Email.AvailabilityOneRange | email_utils.py:74 | One day with one range reads "\n<day>:\n- <range>". |
| Email.Capitalized | email_utils.py:62 | `p[0].upper() + p[1:].lower()` keeps the length, upper-cases the first letter and lower-cases the rest. |
| Email.ReformatUserName | email_utils.py:61-62 | A name is produced iff splitting at "," gives at least two parts and both stripped parts are non-empty. The result is the second part capitalised, a space, then the first part capitalised. |
| Email.ReformatLastFirst | email_utils.py:61-62 | Outlook's "Last, First" becomes "First Last", each part capitalised. |
| Email.ReformatNeedsComma | email_utils.py:61-62 | A name without a comma cannot be reformatted. |
| Email.DefaultBody | email_utils.py:82 | The default body starts "Dear <recipient>,", contains the country and the availability text, and ends with the sender's name. |
| Email.EmailTemplate | email_utils.py:102-106 | The triple exists iff the user name can be reformatted. It is addressed to the contact's e-mail with the fixed subject. Its body is the formatted template when one is saved. Otherwise it is exactly `DefaultBody` of the contact's name, its country, the availability text of the free slots and the reformatted user name, so it starts "Dear <name>," and contains the country and every free range. |
| Engine.Store.constructor | database.py:132-168 | A fresh database has every table empty. |
| Engine.Store.GetSettings | database.py:206-213 | The stored row, or no day and "13:00" when there is none. |
| Engine.Store.AddContactToDb | database.py:170-179 | The new row is appended with the next id, which exceeds every earlier id. Ids stay unique and increasing, and the other tables are unchanged. |
| Engine.Store.UpdateContactInDb | database.py:189-197 | Exactly the row with the given id is rewritten. The order and the ids are kept, and the other tables are unchanged. |
| Engine.Store.SetSettings | database.py:215-225 | The single settings row becomes the comma-joined days and the time. |
| Engine.Store.SetCountryPriority | database.py:227-235 | The country's priority is inserted or replaced, and the other countries keep theirs. |
| Engine.Store.RecordContactEvent | database.py:249-261 | One analytics row is appended and nothing else changes. |
| Engine.AddContact | gui.py:92-104 | The contact is added iff every field is filled, and then it is the new last row and the id counter moves on by one. Otherwise nothing changes. |
| Engine.SaveContact | gui.py:317-331 | The contact is saved iff every field is filled, and then its row is rewritten. Otherwise nothing changes. |
| Engine.SetFrequency | gui.py:408-412 | Afterwards the stored schedule reads back as the chosen day name and "HH:MM" of the two boxes. |
| Engine.Notifier.constructor | gui.py:570 | The guard starts clear and no contacts are cached. |
| Engine.Notifier.RefreshContacts | gui.py:607-611 | The cache is reloaded from the database. |
| Engine.Notifier.ShowNotificationPopup | gui.py:710-712 | Showing the popup appends one "selected" event for the contact and its country. |
| Engine.Notifier.OnEmailClicked | gui.py:734-753 | The e-mail triple is `EmailTemplate`. An "emailed" event is appended iff building it succeeded, because `email_template` runs outside the `try`. |
| Engine.Notifier.ShowNotification | gui.py:658-708 | The cache is reloaded. With no contacts nothing is recorded. Otherwise the selected contact is `Choose` for some valid pair of draws, and exactly one "selected" event for it is appended. |
| Engine.Notifier.OnTick | gui.py:619-656 | The tick fires and leaves the guard exactly as `DueClock.TickAt` says for the old guard and the stored schedule. A tick that does not fire changes no event and no cache. A firing tick records the selection of some valid draws. |

## Left out

- Qt widgets, dialogs and message boxes are not modelled. Neither are the sidebar, the analytics page (`get_analytics_summary`), `populate_table`, the radio buttons or `delete_selected_contact`. They display data or are outside the notification engine.
- `main.py` and the background scheduler thread are not part of this model. Only the timer-driven due check is modelled; the timer's 10 ms period is not.
- `DueClock.AtMostOnceBetweenMidnights`: each tick is taken to run to completion before the next one starts. In the source `pushed_today` is set only after `show_notification` returns (gui.py:654-655), and that call waits in the modal `popup.exec_()` (gui.py:743) or `QMessageBox.information` (gui.py:662). Their nested event loops keep delivering the 10 ms timer (gui.py:566-568), so further ticks in the same minute can fire again while the first popup is open. Such re-entrant ticks are not modelled, and "at most once" holds only for ticks that do not overlap.
- `FreeSlots.GetFreeTimeSlots`: requires only `ValidNow`, which bounds the weekday but does not tie it to the date; the agreement of keys with the calendar is stated under `RealNow` by `FreeSlots.DayKeyAtIsCalendarKey`.
- `Engine.AddContact` and `Engine.SaveContact` do not model the refresh callback the form calls after writing (gui.py:111, 331), which reloads `MainWindow.contacts` (gui.py:607-611). The cache is left as it was. Nothing is lost, because `show_notification` reloads the cache before reading it (gui.py:660), and `Engine.Notifier.ShowNotification` does the same.
- SQL and SQLite are abstract state in `Engine.Store`. Contacts are kept in rowid order and deletions are not modelled, so ids are handed out by a counter. The analytics timestamp column is not modelled.
- Outlook COM is not modelled. The calendar's appointments are a parameter of `GetFreeTimeSlots` and the user's name is a parameter of `ReformatUserName`. The `Restrict` query that pre-filters appointments is not modelled; any list of appointments is accepted.
- Failures of the Outlook calls inside `send_email`'s `try` are not modelled; they are caught and the event is still recorded.
- pytz and wall-clock time: times are whole microseconds from midnight UTC of "today", so `datetime.now` is a parameter. Year overflow at year 9999 is not modelled.
- `load_email_template`, JSON files and `str.format` are not modelled. The saved template and its formatted result are parameters of `EmailTemplate`. A template that uses a placeholder `str.format` cannot fill raises `KeyError`; that is not modelled either.
- Case mapping and white space are ASCII-only. `strip` removes exactly the ASCII characters Python counts as white space (space, tab, line feed, vertical tab, form feed, carriage return and the separators 0x1C to 0x1F); non-ASCII white space such as U+0085 or U+00A0, and Python's full Unicode `lower` and `upper` (for example "ß".upper() == "SS"), are not modelled.
- Day and month names are the English ones that Qt's "dddd" and strftime give in an English locale.
- `Selection.PickIndex`: `random.choices` draws a float and bisects cumulative float weights; the model uses an exact integer draw over the same intervals. No probability is stated, only which draws pick which country.
- `Engine.Notifier.ShowNotification`: the draws are nondeterministic choices within their ranges. The contract states which contact each pair of draws selects, not how likely it is.
- `Selection.Priority`: priorities are limited to 1..5, the range of the country page's spin box. Values written to the database by other means are not modelled.
