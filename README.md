# Third-next-available appointment report, modelled in Dafny

This project models the core of OSCAR's "3rdNext" plugin. For one provider, the
report measures how many days ahead the third next available appointment is.

- **The scan.** The provider's schedule days are walked in date order. Each day
  has a template string (`timecode`): one character per slot, and the slots
  split the 1440 minutes of the day evenly.
  - A forward-only cursor steps over the day's appointments. It takes every
    appointment that starts exactly at the current slot and keeps the latest
    end seen that day.
  - A slot is free when it starts strictly after that latest end.
  - A free slot whose code equals a listed schedule symbol adds its minutes to
    a run. A run that reaches the requested appointment length counts once and
    is emptied.
  - The scan stops at the third count. The report is -1, or the date of the day
    of the third count minus the requested start date.
- **The helpers beside it.** The `HH:MM` decode of appointment times, the
  argument check and JSON record of `generateReport`, and the `name=value`
  command-line validator.
- **`ReportDate`.** It turns a weekday name into a calendar constant and lists
  that weekday's dates. The list runs from the current week back to an earliest
  date, most recent first.

## Modules

- `Wrappers` holds `Option`.
- `JavaStrings` models the parts of `java.lang.String` and `Integer` the core
  relies on:
  - ASCII `toUpperCase` and `startsWith`;
  - `split` with one separator character, which drops trailing empty pieces;
  - decimal printing and parsing.
- `TimeOfDay` holds clock readings `(hour, minute)`. It has their
  lexicographic order, used by the scan's comparisons, and the fixed-offset
  `HH:MM` decode.
- `ThirdNextSpec` is the reference definition of the scan. Each level is a
  function:
  - one slot (`SlotStep`);
  - the rest of a day (`SlotsFrom`, `DayTally`);
  - the day loop (`ScanFrom`, `ThirdNextDays`).

  The lemmas say what the result means:
  - the slot layout;
  - what the cursor consumes, and the latest end it keeps;
  - the free test;
  - the closed form of run accounting;
  - the -1 / day-difference outcome;
  - an appointment longer than a day's worth of matching slots is never found;
  - a longer appointment finds its third run on the same day or a later one.
- `ThirdNextAppointment` holds `generateReport`'s nested loops as imperative
  methods. Each method is proved equal to its reference function: the cursor
  loop, the symbol loop, the slot loop and the day loop. It also holds
  `GenerateReport`, `MakeClinicianJson` and `IsValidParameter`.
- `ReportDate` holds:
  - `SetWeekDay`;
  - the reference list `WeekdayDates`, with lemmas on its order, weekdays and
    exact membership;
  - the imperative `GetDates`, proved equal to it.

The database rows become inputs:
- schedule days are `(date, timecode, appointments)`;
- dates are day numbers;
- the appointments of a day are in start-time order.

`datediff` becomes subtraction of day numbers. In `getDates`, the clock reading
is a pair of parameters: today's day number, and whether the time of day is
past midnight. The date parse is a parameter of type `string -> Option<int>`.
Day 0 is 1970-01-01, a Thursday, so the weekday of day `d` is `(d + 4) % 7 + 1`
(Sunday = 1 … Saturday = 7, as in `java.util.Calendar`).

### Behaviour as coded

Some behaviours of the code are easy to misread. The model follows the code:

- **Free test.** A slot is free only when its start is strictly after the
  latest booked end (`ThirdNextAppointment.java:182`). It is not free when it
  starts at or after that end. So the 00:00 slot never counts, and neither does
  a slot starting exactly when a booking ends.
- **Run reset.** The free-minutes run is emptied at the start of every day
  (`ThirdNextAppointment.java:149`). It does not carry over across days.
- **Misaligned appointments.** An appointment whose start is on no slot
  boundary is not skipped. It stays under the cursor, so it and every later
  appointment of that day are never consumed.
- **Duplicate symbols.** The symbols are the list the comma split returns, not
  a set of characters. A symbol listed twice adds the slot twice.
- **One clock reading.** `getDates` reads the clock once. The forward search for
  the target weekday steps a copy of that reading.
- **Last date.** The last date `getDates` returns is never before the cutoff.
  Today is the one exception: when today has the target weekday it is always
  first in the list, even if it is before the cutoff.
- **Time of day.** Whether the clock reading is past midnight never changes the
  result of `getDates`. `GetDates`' postcondition does not depend on it.

## Model

| member | source | states |
|---|---|---|
| JavaStrings.ToUpper | oscar/plugins/3rdNext/ReportDate.java:31 | the result keeps the length, turns every lower-case ASCII letter into its upper-case letter, and leaves every other character as it was |
| JavaStrings.StartsWith | oscar/plugins/3rdNext/ReportDate.java:33-43 | holds exactly when the text is the prefix followed by something |
| JavaStrings.Split | oscar/plugins/3rdNext/ThirdNextAppointment.java:236 | no piece contains the separator, and when the separator occurs the last piece is not empty |
| JavaStrings.PiecesJoin | oscar/plugins/3rdNext/ThirdNextAppointment.java:107 | the pieces of a split, joined with the separator, give back the text, and no piece contains the separator |
| JavaStrings.OneNonEmptyPiece | oscar/plugins/3rdNext/ThirdNextAppointment.java:236 | after dropping trailing empty pieces, a split leaves one non-empty piece exactly when the text is a separator-free run followed only by separators |
| JavaStrings.DropTrailingEmptyShape | oscar/plugins/3rdNext/ThirdNextAppointment.java:236 | dropping trailing empty pieces leaves a prefix that ends in a non-empty piece, and everything after it is empty |
| JavaStrings.SplitAtSeparator | oscar/plugins/3rdNext/ThirdNextAppointment.java:236 | a split of a text containing the separator is the piece before the first separator followed by the split of the rest, and is empty when both are empty |
| JavaStrings.IntToString | oscar/plugins/3rdNext/ThirdNextAppointment.java:231 | the text starts with '-' exactly for a negative value, and every other character is a decimal digit |
| JavaStrings.IntToStringRoundTrip | oscar/plugins/3rdNext/ThirdNextAppointment.java:231 | the decimal text of any integer parses back to that integer |
| TimeOfDay.Before | oscar/plugins/3rdNext/ThirdNextAppointment.java:165 | an earlier time differs from the later one and has no later hour; any earlier hour is earlier |
| TimeOfDay.BeforeIsMinutesOrder | oscar/plugins/3rdNext/ThirdNextAppointment.java:165 | with minutes below 60, the lexicographic (hour, minute) order is the order of hour*60+minute |
| TimeOfDay.FromMinutesMeaning | oscar/plugins/3rdNext/ThirdNextAppointment.java:153-154 | the hour and minute taken as t / 60 and t % 60 read back as minute t, with the minute below 60, and within the day for t below 1440 |
| TimeOfDay.ParseTwo | oscar/plugins/3rdNext/ThirdNextAppointment.java:157-158 | Integer.parseInt of a two-character field yields a value in -9..99 or fails |
| TimeOfDay.DecodeClock | oscar/plugins/3rdNext/ThirdNextAppointment.java:156-163 | a decoded time comes from at least five characters and has hour and minute in -9..99 |
| TimeOfDay.DecodeEncode | oscar/plugins/3rdNext/ThirdNextAppointment.java:156-163 | reading hour from characters 0-1 and minute from 3-4 gives back any two-digit time, whatever follows it |
| ThirdNextSpec.SlotDuration | oscar/plugins/3rdNext/ThirdNextAppointment.java:140 | the slot length is positive and the slots exactly fill the day |
| ThirdNextSpec.NumSlots | oscar/plugins/3rdNext/ThirdNextAppointment.java:150 | the number of passes is the least positive n whose n passes of duration minutes cover the 1440-minute day |
| ThirdNextSpec.NumSlotsCounts | oscar/plugins/3rdNext/ThirdNextAppointment.java:150 | the slot loop runs its body exactly ceil(1440/duration) times |
| ThirdNextSpec.SlotCountFits | oscar/plugins/3rdNext/ThirdNextAppointment.java:140-151 | the slot loop stays inside the template exactly when the template length divides 1440 |
| ThirdNextSpec.SlotLayout | oscar/plugins/3rdNext/ThirdNextAppointment.java:150-154 | slot k starts at minute k*duration, inside the day exactly when k indexes the template |
| ThirdNextSpec.SlotClockMeaning | oscar/plugins/3rdNext/ThirdNextAppointment.java:150-154 | the clock of slot k reads k*duration minutes past midnight with the minute below 60, and the slot of a template index is a reading of the day (hour 0 to 23) |
| ThirdNextSpec.Consume | oscar/plugins/3rdNext/ThirdNextAppointment.java:155-173 | the cursor only moves forward, consumes only appointments starting at the slot, stops at the first that does not, and the latest end never decreases and covers every consumed end |
| ThirdNextSpec.ConsumeKeepsLatest | oscar/plugins/3rdNext/ThirdNextAppointment.java:148-168 | the latest end stays the lexicographic maximum of midnight and the ends consumed that day |
| ThirdNextSpec.FreeTestMeaning | oscar/plugins/3rdNext/ThirdNextAppointment.java:182 | "slot after latest end" holds exactly when the slot is after midnight and after every consumed appointment's end |
| ThirdNextSpec.Occurrences | oscar/plugins/3rdNext/ThirdNextAppointment.java:176-180 | each symbol matches the slot code at most once |
| ThirdNextSpec.OccurrencesMultiplicity | oscar/plugins/3rdNext/ThirdNextAppointment.java:177-179 | the number of symbols equal to the slot code is that code's multiplicity in the symbol list, duplicates included |
| ThirdNextSpec.AddRun | oscar/plugins/3rdNext/ThirdNextAppointment.java:183-187 | one addition completes a run exactly when the run reaches the length, and then empties it; otherwise the run grows by the slot's minutes and stays below the length |
| ThirdNextSpec.AddRuns | oscar/plugins/3rdNext/ThirdNextAppointment.java:183-190 | the completed-run count never decreases and never passes three |
| ThirdNextSpec.RunSlotsMeaning | oscar/plugins/3rdNext/ThirdNextAppointment.java:183-185 | k free slots reach the appointment length exactly when k is at least the run's slot count |
| ThirdNextSpec.AddRunsClosedForm | oscar/plugins/3rdNext/ThirdNextAppointment.java:183-191 | after m additions to a run of a slots, the count rises by (a+m) div c and the run holds the remainder, unless three is reached, which ends with an empty run |
| ThirdNextSpec.RunSlotsMonotone | oscar/plugins/3rdNext/ThirdNextAppointment.java:183-185 | a longer appointment needs at least as many slots per run |
| ThirdNextSpec.AddRunsShort | oscar/plugins/3rdNext/ThirdNextAppointment.java:183-190 | additions that stay below the appointment length complete no run; each adds one slot's minutes |
| ThirdNextSpec.RunTallyAdd | oscar/plugins/3rdNext/ThirdNextAppointment.java:183-191 | m more additions to a run of A additions give the run of A + m additions, unless the third run completes |
| ThirdNextSpec.PartialRunBelowLength | oscar/plugins/3rdNext/ThirdNextAppointment.java:185-186 | a partial run is empty or shorter than the appointment length |
| ThirdNextSpec.AddRunsPartial | oscar/plugins/3rdNext/ThirdNextAppointment.java:185-187 | adding to a partial run leaves a partial run: a completed run is always emptied |
| ThirdNextSpec.SlotStep | oscar/plugins/3rdNext/ThirdNextAppointment.java:151-203 | per slot: the cursor moves forward over appointments at the slot; a code matching no symbol empties the run; a matching free slot adds once per matching symbol; a matching booked slot changes nothing |
| ThirdNextSpec.SlotsFromStep | oscar/plugins/3rdNext/ThirdNextAppointment.java:151-203 | one pass in the scan's own order: stop with the tally once the third run completes; otherwise continue from the next slot, with the run emptied when no symbol matched |
| ThirdNextSpec.SlotsFrom | oscar/plugins/3rdNext/ThirdNextAppointment.java:150-205 | over the rest of a day the count never decreases and never passes three |
| ThirdNextSpec.DayTally | oscar/plugins/3rdNext/ThirdNextAppointment.java:147-149 | a day starting from count n ends with a count between n and three |
| ThirdNextSpec.SlotsFromPartial | oscar/plugins/3rdNext/ThirdNextAppointment.java:177-203 | the run stays partial through the slot loop |
| ThirdNextSpec.DayTallyPartial | oscar/plugins/3rdNext/ThirdNextAppointment.java:147-205 | a day starting with an empty run ends with a partial run and a count between its start and three |
| ThirdNextSpec.SlotsFromOverlong | oscar/plugins/3rdNext/ThirdNextAppointment.java:150-205 | with a length above 1440 minutes times the number of symbols, the rest of a day completes no run |
| ThirdNextSpec.DayTallyOverlong | oscar/plugins/3rdNext/ThirdNextAppointment.java:147-205 | with such a length, a whole day completes no run |
| ThirdNextSpec.TallyLengthStep | oscar/plugins/3rdNext/ThirdNextAppointment.java:176-203 | one slot treats two lengths alike; afterwards the shorter length has reached three, or it is still ahead by the same measure |
| ThirdNextSpec.SlotLengthStep | oscar/plugins/3rdNext/ThirdNextAppointment.java:151-203 | in one slot the two lengths move the cursor alike, and the shorter length stays ahead |
| ThirdNextSpec.SlotsFromLengthMonotone | oscar/plugins/3rdNext/ThirdNextAppointment.java:150-205 | over the rest of a day the shorter length ends with at least as many runs |
| ThirdNextSpec.DayTallyLengthMonotone | oscar/plugins/3rdNext/ThirdNextAppointment.java:147-205 | a day that starts with at least as many runs ends with at least as many for the shorter length |
| ThirdNextSpec.CountAfter | oscar/plugins/3rdNext/ThirdNextAppointment.java:137 | the completed-run count after any number of days is between 0 and 3 |
| ThirdNextSpec.CountAfterMonotone | oscar/plugins/3rdNext/ThirdNextAppointment.java:134-137 | the count never decreases from one day to a later one |
| ThirdNextSpec.ScanFrom | oscar/plugins/3rdNext/ThirdNextAppointment.java:137-215 | the day loop from day i yields -1 or the date difference of one of the days from i on |
| ThirdNextSpec.ThirdNextDays | oscar/plugins/3rdNext/ThirdNextAppointment.java:130-215 | the report value is -1 or the date difference of one of the days |
| ThirdNextSpec.ScanFromMeaning | oscar/plugins/3rdNext/ThirdNextAppointment.java:137-215 | the day loop from any day yields -1 when three is never reached, else the day difference of the day it is reached |
| ThirdNextSpec.ThirdNextMeaning | oscar/plugins/3rdNext/ThirdNextAppointment.java:134-137 | the report value is -1 when fewer than three runs complete, otherwise the date of the unique day the count reaches three minus dateFrom; the converse, for days dated from dateFrom on, is ThirdNextSign (a day dated before dateFrom can complete the third run and still give -1) |
| ThirdNextSpec.ThirdNextSign | oscar/plugins/3rdNext/ThirdNextAppointment.java:209-215 | with all dates on or after dateFrom, the value is at least -1 and non-negative exactly when three runs complete |
| ThirdNextSpec.CountAfterOverlong | oscar/plugins/3rdNext/ThirdNextAppointment.java:137-205 | with a length above 1440 minutes times the number of symbols, no run completes on any day |
| ThirdNextSpec.ThirdNextOverlong | oscar/plugins/3rdNext/ThirdNextAppointment.java:130-215 | with such a length the report value is -1 |
| ThirdNextSpec.CountAfterLengthMonotone | oscar/plugins/3rdNext/ThirdNextAppointment.java:137-205 | after every day, the shorter of two lengths has completed at least as many runs |
| ThirdNextSpec.ThirdDay | oscar/plugins/3rdNext/ThirdNextAppointment.java:137-209 | the index of the first day after which three runs are complete, or the number of days when there is none |
| ThirdNextSpec.ScanFromThirdDay | oscar/plugins/3rdNext/ThirdNextAppointment.java:137-215 | the day loop from day i yields the date difference of that first day, or -1 |
| ThirdNextSpec.ThirdNextByDay | oscar/plugins/3rdNext/ThirdNextAppointment.java:130-215 | the report value is the date difference of the first day with three runs, or -1 |
| ThirdNextSpec.ThirdDayLengthMonotone | oscar/plugins/3rdNext/ThirdNextAppointment.java:130-215 | a longer appointment finds its third run on the same day or a later one, never an earlier one |
| ThirdNextAppointment.AdvanceCursor | oscar/plugins/3rdNext/ThirdNextAppointment.java:155-174 | the cursor loop ends where Consume does, with the same latest end |
| ThirdNextAppointment.MatchSymbols | oscar/plugins/3rdNext/ThirdNextAppointment.java:176-195 | codeMatch holds exactly when some symbol equals the code; a free slot adds once per matching symbol and stops at three; a booked slot leaves the run and count unchanged |
| ThirdNextAppointment.ScanSlot | oscar/plugins/3rdNext/ThirdNextAppointment.java:151-195 | one slot's cursor move and symbol match give Consume's cursor, codeMatch exactly when a symbol equals the code, and AddRuns when the slot is free, else an unchanged tally |
| ThirdNextAppointment.ScanDay | oscar/plugins/3rdNext/ThirdNextAppointment.java:147-205 | the slot loop of one day yields the reference day's count |
| ThirdNextAppointment.ScanSchedule | oscar/plugins/3rdNext/ThirdNextAppointment.java:130-215 | the day loop returns exactly ThirdNextDays, -1 or the day difference |
| ThirdNextAppointment.DecodeDays | oscar/plugins/3rdNext/ThirdNextAppointment.java:156-163 | decoding keeps every row's date, template and appointment count, and every appointment is its row read by the fixed-offset decode |
| ThirdNextAppointment.DecodeAppointment | oscar/plugins/3rdNext/ThirdNextAppointment.java:156-163 | start and end fields of a decoded row lie within -9..99, the range two characters can parse to |
| ThirdNextAppointment.DecodeAppointmentRoundTrip | oscar/plugins/3rdNext/ThirdNextAppointment.java:156-163 | a row holding two-digit renderings of a start and an end, whatever follows them, decodes to exactly that start and end |
| ThirdNextAppointment.MakeClinicianJson | oscar/plugins/3rdNext/ThirdNextAppointment.java:230-232 | the record starts with the clinician and provider info, and ends with "3rdnext": then the value's digits, which parse back to the value, then }; its length is exactly those parts together |
| ThirdNextAppointment.GenerateReport | oscar/plugins/3rdNext/ThirdNextAppointment.java:102-112 | a missing dateFrom, provider or symbol list gives the fixed message; otherwise the record of the scan over the comma-split symbols |
| ThirdNextAppointment.SplitAtFirst | oscar/plugins/3rdNext/ThirdNextAppointment.java:235-237 | the validator accepts exactly when the name before the first '=' is non-empty and the rest splits to one non-empty piece |
| ThirdNextAppointment.FormAtFirst | oscar/plugins/3rdNext/ThirdNextAppointment.java:234-242 | in the accepted form, the '=' after the name is the first '=' |
| ThirdNextAppointment.NameValueSplit | oscar/plugins/3rdNext/ThirdNextAppointment.java:237 | the pieces pass exactly when there are two of them and none is empty |
| ThirdNextAppointment.IsValidParameter | oscar/plugins/3rdNext/ThirdNextAppointment.java:234-242 | a parameter is valid exactly when it is a non-empty name, '=', a non-empty value, and then only '=' characters |
| ThirdNextAppointment.ValidParameterAccepts | oscar/plugins/3rdNext/ThirdNextAppointment.java:234-242 | "a=b" is accepted |
| ThirdNextAppointment.ValidParameterAcceptsTrailingSeparator | oscar/plugins/3rdNext/ThirdNextAppointment.java:234-242 | "a=b=" is accepted, because the split drops the trailing empty piece |
| ThirdNextAppointment.ValidParameterRejectsEmptyName | oscar/plugins/3rdNext/ThirdNextAppointment.java:234-242 | "=b" is rejected |
| ThirdNextAppointment.ValidParameterRejectsEmptyValue | oscar/plugins/3rdNext/ThirdNextAppointment.java:234-242 | "a=" is rejected |
| ThirdNextAppointment.ValidParameterRejectsSecondValue | oscar/plugins/3rdNext/ThirdNextAppointment.java:234-242 | "a=b=c" is rejected |
| ReportDate.Weekday | oscar/plugins/3rdNext/ReportDate.java:73 | every day number has a weekday in SUNDAY..SATURDAY |
| ReportDate.SameWeekday | oscar/plugins/3rdNext/ReportDate.java:101-106 | two days share a weekday exactly when they are a whole number of weeks apart |
| ReportDate.WeekdayStep | oscar/plugins/3rdNext/ReportDate.java:89-90 | stepping j days forward, j below a week, advances the weekday by j, wrapping after Saturday |
| ReportDate.SetWeekDay | oscar/plugins/3rdNext/ReportDate.java:31-50 | the result is always in SUNDAY..SATURDAY |
| ReportDate.SetWeekDayByPrefix | oscar/plugins/3rdNext/ReportDate.java:31-50 | names shorter than three letters give SUNDAY, and names with the same upper-cased three-letter prefix give the same day |
| ReportDate.SetWeekDayFallback | oscar/plugins/3rdNext/ReportDate.java:31-50 | the result is SUNDAY exactly when the name is shorter than three letters or its upper-cased prefix is none of MON, TUE, WED, THU, FRI, SAT |
| ReportDate.SetWeekDayNames | oscar/plugins/3rdNext/ReportDate.java:31-50 | every weekday's own name maps to its constant |
| ReportDate.SetWeekDayIgnoresCase | oscar/plugins/3rdNext/ReportDate.java:31 | upper-casing a name first never changes its weekday: the test ignores ASCII case for every name |
| ReportDate.SetWeekDayIgnoresCaseAndSuffix | oscar/plugins/3rdNext/ReportDate.java:31-50 | "TUE", "TUESDAY" and "tuesday" all give TUESDAY |
| ReportDate.DaysUntil | oscar/plugins/3rdNext/ReportDate.java:86-91 | the forward search takes 0 to 6 one-day steps and stops at the first day with the target weekday |
| ReportDate.Anchor | oscar/plugins/3rdNext/ReportDate.java:86-91 | the day the forward search stops on is within six days of today, has the target weekday, and no earlier day from today on has it |
| ReportDate.Back | oscar/plugins/3rdNext/ReportDate.java:101-110 | the backward walk is empty exactly when its start is before the cutoff |
| ReportDate.BackShape | oscar/plugins/3rdNext/ReportDate.java:101-110 | the backward walk from d lists d - 7i for i up to (d - cutoff) div 7 |
| ReportDate.BackMembers | oscar/plugins/3rdNext/ReportDate.java:101-110 | the backward walk lists exactly the days between the cutoff and d that are whole weeks before d |
| ReportDate.WeekdayDates | oscar/plugins/3rdNext/ReportDate.java:86-110 | every listed date is today, or at or after the cutoff and before today |
| ReportDate.WeekdayDatesOrdered | oscar/plugins/3rdNext/ReportDate.java:93-110 | every listed date has the target weekday, and the list is strictly decreasing |
| ReportDate.WeekdayDatesMembers | oscar/plugins/3rdNext/ReportDate.java:86-110 | a day is listed exactly when it has the target weekday and is today or at or after the cutoff and before today; today is first exactly when it has the target weekday |
| ReportDate.WeekdayDatesTodayOnly | oscar/plugins/3rdNext/ReportDate.java:93-110 | with the cutoff at today and today the target weekday, the list is exactly [today] |
| ReportDate.After | oscar/plugins/3rdNext/ReportDate.java:101-107 | Date.after on day-granularity instants is the order of half-days: the day first, and past midnight after midnight |
| ReportDate.GetDates | oscar/plugins/3rdNext/ReportDate.java:58-112 | an unparseable earliest date gives the empty list; otherwise the two loops produce exactly WeekdayDates, whatever the time of day |

## Left out

- The database:
  - connecting, and looking up the provider (`getDBConnection`, `getProviderInfo`); the provider info is a text parameter;
  - building and running the schedule, appointment and `datediff` queries; their rows are inputs, and `datediff` is subtraction of day numbers.
- `main` in both files: configuration loading, command-line handling, report files and timestamps. These are I/O.
- `ReportDate.getLoader` and its class-loader field, which hold no logic.
- Date handling:
  - `SimpleDateFormat` parsing is a parameter, and formatting is left out: `GetDates` returns day numbers, not `yyyy-MM-dd` text.
  - `Calendar` internals, time zones and daylight saving are not modelled.
- `GenerateReport`: it requires every appointment time to decode, which is stronger than the source. The source parses a start time only when the cursor reaches its row, and an end time only when that row starts at the slot. A time shorter than five characters raises an uncaught `StringIndexOutOfBoundsException`. A field `Integer.parseInt` refuses raises a `NumberFormatException`, which is caught, and the record still reports -1. Neither path is modelled.
- `GenerateReport`: it requires every template length to divide 1440, which is stronger than the source. The source reads no row after the day of the third run, and another template fails only if the scan reaches the slot index past its end. An empty template raises an uncaught `ArithmeticException` (division by zero). A shorter template that does not divide 1440 raises an uncaught `StringIndexOutOfBoundsException` at that index. A template longer than 1440 gets zero-minute slots. They all start at 00:00 and are never free, so the index passes the end and the same exception follows. None of these paths is modelled.
- `GenerateReport`: the `SQLException` path and the logging are not modelled.
- `MakeClinicianJson`: the unused request-date and third-date parameters are dropped.
- `ThirdNextSpec.AddRuns`: the integers are unbounded. A 32-bit overflow of the run total, possible only for appointment lengths within 1440 of `Integer.MAX_VALUE`, is not modelled.
- `TimeOfDay.ParseTwo`: only ASCII digits are accepted. `Integer.parseInt` also accepts the other Unicode decimal digits (through `Character.digit`), such as full-width or Arabic-Indic digits; a time written with them decodes in the source but not in the model.
- `JavaStrings.ToUpper`: only ASCII letters are upper-cased, and the JVM's default locale is ignored. `String.toUpperCase()` with no argument follows that locale. Under a Turkish or Azerbaijani locale it maps `'i'` to `'İ'` (U+0130), so a name such as "fri" or "friday" does not start with "FRI" after upper-casing, and `setWeekDay` returns SUNDAY where the model gives FRIDAY.
- Characters: a Dafny `char` is a Unicode scalar value, while Java's `length()`, `substring` and `charAt` count UTF-16 code units. A template or symbol holding a character outside the Basic Multilingual Plane therefore has a different length, slot duration and slot codes in the source than in the model.
- `JavaStrings.ParseDecimal`: only ASCII digits are accepted; it reads back what `IntToString` writes.
