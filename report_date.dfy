/**
 * ReportDate: the dates a report is produced for, namely every occurrence of
 * one weekday from the current week back to an earliest date, most recent
 * first. Dates are day numbers; "now" is a parameter.
 */
module ReportDate {
  import opened Wrappers
  import JavaStrings

  // Calendar.DAY_OF_WEEK numbering.
  const Sunday := 1
  const Monday := 2
  const Tuesday := 3
  const Wednesday := 4
  const Thursday := 5
  const Friday := 6
  const Saturday := 7

  /** The weekday of a day number; day 0 is 1970-01-01, a Thursday. */
  function Weekday(d: int): (w: int)
    ensures Sunday <= w <= Saturday
  {
    (d + 4) % 7 + 1
  }

  /** Two days fall on the same weekday exactly when they are a whole number of weeks apart. */
  lemma SameWeekday(x: int, y: int)
    ensures Weekday(x) == Weekday(y) <==> (x - y) % 7 == 0
  {
    var qx, qy := (x + 4) / 7, (y + 4) / 7;
    assert x + 4 == 7 * qx + (x + 4) % 7;
    assert y + 4 == 7 * qy + (y + 4) % 7;
    assert x - y == 7 * (qx - qy) + ((x + 4) % 7 - (y + 4) % 7);
  }

  /** Calendar constant for a weekday name: its upper-cased first three letters decide, anything else is Sunday. */
  function SetWeekDay(weekDay: string): (r: int)
    ensures Sunday <= r <= Saturday
  {
    var matchDay := JavaStrings.ToUpper(weekDay);
    if JavaStrings.StartsWith(matchDay, "MON") then Monday
    else if JavaStrings.StartsWith(matchDay, "TUE") then Tuesday
    else if JavaStrings.StartsWith(matchDay, "WED") then Wednesday
    else if JavaStrings.StartsWith(matchDay, "THU") then Thursday
    else if JavaStrings.StartsWith(matchDay, "FRI") then Friday
    else if JavaStrings.StartsWith(matchDay, "SAT") then Saturday
    else Sunday
  }

  /** Only the upper-cased three-letter prefix matters; shorter names give Sunday. */
  lemma SetWeekDayByPrefix(a: string, b: string)
    ensures |a| < 3 ==> SetWeekDay(a) == Sunday
    ensures |a| >= 3 && |b| >= 3 && JavaStrings.ToUpper(a[..3]) == JavaStrings.ToUpper(b[..3]) ==>
      SetWeekDay(a) == SetWeekDay(b)
  {
    if |a| >= 3 && |b| >= 3 {
      JavaStrings.ToUpperPrefix(a, 3);
      JavaStrings.ToUpperPrefix(b, 3);
    }
  }

  /** Sunday is the fallback: it is returned exactly when the prefix names none of Monday to Saturday. */
  lemma SetWeekDayFallback(s: string)
    ensures SetWeekDay(s) == Sunday <==>
      |s| < 3 || JavaStrings.ToUpper(s[..3]) !in ["MON", "TUE", "WED", "THU", "FRI", "SAT"]
  {
    if |s| >= 3 {
      JavaStrings.ToUpperPrefix(s, 3);
    }
  }

  /** Upper-casing the name first changes nothing: the test is case-insensitive for every name. */
  lemma SetWeekDayIgnoresCase(s: string)
    ensures SetWeekDay(JavaStrings.ToUpper(s)) == SetWeekDay(s)
  {
    JavaStrings.ToUpperKeepsUpper(JavaStrings.ToUpper(s));
  }

  function DayName(w: int): string
    requires Sunday <= w <= Saturday
  {
    ["SUNDAY", "MONDAY", "TUESDAY", "WEDNESDAY", "THURSDAY", "FRIDAY", "SATURDAY"][w - 1]
  }

  /** Every weekday's own name maps back to its constant. */
  lemma SetWeekDayNames(w: int)
    requires Sunday <= w <= Saturday
    ensures SetWeekDay(DayName(w)) == w
  {
    JavaStrings.ToUpperKeepsUpper(DayName(w));
    assert DayName(w)[..3] == ["SUN", "MON", "TUE", "WED", "THU", "FRI", "SAT"][w - 1];
  }

  /** "TUE", "TUESDAY" and "tuesday" all mean Tuesday. */
  lemma SetWeekDayIgnoresCaseAndSuffix()
    ensures SetWeekDay("TUE") == SetWeekDay("TUESDAY") == SetWeekDay("tuesday") == Tuesday
  {
    SetWeekDayByPrefix("tuesday", "TUE");
    assert JavaStrings.ToUpper("tuesday"[..3]) == "TUE";
    assert "TUE"[..3] == "TUE";
  }

  /** Stepping j days forward, for j below a week, advances the weekday by j, wrapping after Saturday. */
  lemma WeekdayStep(d: int, j: int)
    requires 0 <= j < 7
    ensures Weekday(d + j) == if Weekday(d) + j <= Saturday then Weekday(d) + j else Weekday(d) + j - 7
  {
    var q := (d + 4) / 7;
    assert d + 4 == 7 * q + (d + 4) % 7;
    if Weekday(d) + j <= Saturday {
      assert d + j + 4 == 7 * q + ((d + 4) % 7 + j);
    } else {
      assert d + j + 4 == 7 * (q + 1) + ((d + 4) % 7 + j - 7);
    }
  }

  /** One-day steps from today until the target weekday: between 0 and 6, and the first that fits. */
  function DaysUntil(today: int, target: int): (k: int)
    requires Sunday <= target <= Saturday
    ensures 0 <= k <= 6 && Weekday(today + k) == target
    ensures forall d :: today <= d < today + k ==> Weekday(d) != target
  {
    var w := Weekday(today);
    var k := if w <= target then target - w else target - w + 7;
    WeekdayStep(today, k);
    forall d | today <= d < today + k ensures Weekday(d) != target {
      WeekdayStep(today, d - today);
    }
    k
  }

  /** The first day from today on with the target weekday. */
  function Anchor(today: int, target: int): (a: int)
    requires Sunday <= target <= Saturday
    ensures today <= a <= today + 6 && Weekday(a) == target
    ensures forall d :: today <= d < a ==> Weekday(d) != target
  {
    today + DaysUntil(today, target)
  }

  /** d, d - 7, d - 14, ... as long as they are not before the cutoff. */
  function Back(d: int, cutoff: int): (r: seq<int>)
    ensures r == [] <==> d < cutoff
    decreases d - cutoff + 7
  {
    if d < cutoff then [] else [d] + Back(d - 7, cutoff)
  }

  lemma {:induction false} BackShape(d: int, cutoff: int)
    ensures |Back(d, cutoff)| == if d < cutoff then 0 else (d - cutoff) / 7 + 1
    ensures forall i :: 0 <= i < |Back(d, cutoff)| ==> Back(d, cutoff)[i] == d - 7 * i
    decreases d - cutoff + 7
  {
    if d >= cutoff {
      BackShape(d - 7, cutoff);
      var b := Back(d, cutoff);
      forall i | 0 < i < |b| ensures b[i] == d - 7 * i {
        assert b[i] == Back(d - 7, cutoff)[i - 1];
      }
    }
  }

  /** The walk back meets every day at or after the cutoff a whole number of weeks before d, and no other. */
  lemma BackMembers(d: int, cutoff: int, x: int)
    ensures x in Back(d, cutoff) <==> cutoff <= x <= d && (d - x) % 7 == 0
  {
    BackShape(d, cutoff);
    var b := Back(d, cutoff);
    if cutoff <= x <= d && (d - x) % 7 == 0 {
      var i := (d - x) / 7;
      assert d - x == 7 * i;
      assert b[i] == x;
    }
  }

  /** The report dates: today when it already has the target weekday, then the walk back from the anchor. */
  function WeekdayDates(today: int, cutoff: int, target: int): (r: seq<int>)
    requires Sunday <= target <= Saturday
    ensures forall i :: 0 <= i < |r| ==> r[i] == today || cutoff <= r[i] < today
  {
    BackShape(Anchor(today, target) - 7, cutoff);
    (if DaysUntil(today, target) == 0 then [today] else []) + Back(Anchor(today, target) - 7, cutoff)
  }

  /** Every report date has the target weekday, and the dates run strictly backwards in time. */
  lemma {:induction false} WeekdayDatesOrdered(today: int, cutoff: int, target: int)
    requires Sunday <= target <= Saturday
    ensures forall i :: 0 <= i < |WeekdayDates(today, cutoff, target)| ==>
      Weekday(WeekdayDates(today, cutoff, target)[i]) == target
    ensures forall i, j :: 0 <= i < j < |WeekdayDates(today, cutoff, target)| ==>
      WeekdayDates(today, cutoff, target)[i] > WeekdayDates(today, cutoff, target)[j]
  {
    var r := WeekdayDates(today, cutoff, target);
    var a := Anchor(today, target);
    var head := if DaysUntil(today, target) == 0 then [today] else [];
    var b := Back(a - 7, cutoff);
    BackShape(a - 7, cutoff);
    assert r == head + b;
    forall i | 0 <= i < |r| ensures Weekday(r[i]) == target && (i >= |head| ==> r[i] == a - 7 * (i - |head| + 1)) {
      if i >= |head| {
        assert r[i] == b[i - |head|];
        SameWeekday(r[i], a);
      }
    }
  }

  /**
   * A day is a report date exactly when it has the target weekday and is
   * either today or at or after the cutoff and before today. In particular
   * today leads the list exactly when it has the target weekday.
   */
  lemma WeekdayDatesMembers(today: int, cutoff: int, target: int)
    requires Sunday <= target <= Saturday
    ensures forall x :: x in WeekdayDates(today, cutoff, target) <==>
      Weekday(x) == target && (x == today || cutoff <= x < today)
    ensures |WeekdayDates(today, cutoff, target)| > 0 && WeekdayDates(today, cutoff, target)[0] == today <==>
      Weekday(today) == target
  {
    var r := WeekdayDates(today, cutoff, target);
    var a := Anchor(today, target);
    var b := Back(a - 7, cutoff);
    forall x ensures x in r <==> Weekday(x) == target && (x == today || cutoff <= x < today) {
      BackMembers(a - 7, cutoff, x);
      SameWeekday(x, a);
      SameWeekday(x, a - 7);
    }
    BackShape(a - 7, cutoff);
    if Weekday(today) != target {
      assert r == b;
    }
  }

  /** With the cutoff at today and today the right weekday, the report covers today alone. */
  lemma WeekdayDatesTodayOnly(today: int, target: int)
    requires Sunday <= target <= Saturday && Weekday(today) == target
    ensures WeekdayDates(today, today, target) == [today]
  {
    assert Back(today - 7, today) == [];
  }

  /** A point in time at day granularity: a day's midnight, or some later moment of that day. */
  datatype Instant = Instant(day: int, pastMidnight: bool)

  predicate After(a: Instant, b: Instant)
    ensures After(a, b) <==> 2 * a.day + (if a.pastMidnight then 1 else 0) > 2 * b.day + (if b.pastMidnight then 1 else 0)
  {
    a.day > b.day || (a.day == b.day && a.pastMidnight && !b.pastMidnight)
  }

  /**
   * getDates. parse stands for the date format's parse of earliestDate
   * (None where it throws); today and pastMidnight describe the moment the
   * calendar is read.
   */
  method GetDates(earliestDate: string, weekDay: string, parse: string -> Option<int>,
                  today: int, pastMidnight: bool)
    returns (dates: seq<int>)
    ensures parse(earliestDate).None? ==> dates == []
    ensures parse(earliestDate).Some? ==>
      dates == WeekdayDates(today, parse(earliestDate).value, SetWeekDay(weekDay))
  {
    dates := [];
    var earliest := parse(earliestDate);
    if earliest.None? {
      return;
    }
    var cutoffDate := Instant(earliest.value, false);
    var calendar := today;
    var day := Weekday(calendar);
    var reportDate := Instant(today, pastMidnight);
    var theWeekday := SetWeekDay(weekDay);
    ghost var anchor := Anchor(today, theWeekday);

    var includeToday := true;
    while day != theWeekday
      invariant today <= calendar <= anchor
      invariant day == Weekday(calendar)
      invariant includeToday <==> calendar == today
      decreases anchor - calendar
    {
      includeToday := false;
      calendar := calendar + 1;
      day := Weekday(calendar);
    }
    assert calendar == anchor;

    if includeToday {
      reportDate := Instant(calendar, false);
      dates := dates + [calendar];
    }

    ghost var c := cutoffDate.day;
    ghost var all := WeekdayDates(today, c, theWeekday);
    assert reportDate.day == today;
    assert !After(reportDate, cutoffDate) ==> Back(anchor - 7, c) == [];
    while After(reportDate, cutoffDate)
      invariant reportDate.day <= calendar
      invariant After(reportDate, cutoffDate) ==> dates + Back(calendar - 7, c) == all
      invariant !After(reportDate, cutoffDate) ==> dates == all
      decreases calendar - c + 7
    {
      ghost var before := dates;
      calendar := calendar - 7;
      reportDate := Instant(calendar, false);
      if After(reportDate, cutoffDate) || reportDate == cutoffDate {
        dates := dates + [calendar];
        assert Back(calendar, c) == [calendar] + Back(calendar - 7, c);
        if calendar == c {
          assert Back(calendar - 7, c) == [];
        }
        assert before + Back(calendar, c) == dates + Back(calendar - 7, c);
      } else {
        assert Back(calendar, c) == [];
      }
    }
  }
}
