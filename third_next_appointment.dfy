/**
 * ThirdNextAppointment: the per-provider report. generateReport's nested
 * loops (schedule days, slots, the appointment cursor, the symbol list) as
 * imperative methods proved equal to the reference scan, plus the argument
 * check, the clinician JSON record and the command-line parameter validator.
 */
module ThirdNextAppointment {
  import opened Wrappers
  import opened TimeOfDay
  import opened ThirdNextSpec
  import JavaStrings

  /**
   * The cursor loop: take the appointment rows that start exactly at the
   * slot's reading, keeping the latest end; stop, leaving the row in place,
   * at the first row that starts elsewhere.
   */
  method AdvanceCursor(appts: seq<Appointment>, pos0: nat, latest0: Clock, slot: Clock)
    returns (pos: nat, latest: Clock)
    requires pos0 <= |appts|
    ensures Cursor(pos, latest) == Consume(appts, Cursor(pos0, latest0), slot)
  {
    pos, latest := pos0, latest0;
    while pos < |appts|
      invariant pos0 <= pos <= |appts|
      invariant Consume(appts, Cursor(pos, latest), slot) == Consume(appts, Cursor(pos0, latest0), slot)
    {
      if appts[pos].start == slot {
        if Before(latest, appts[pos].end) {
          latest := appts[pos].end;
        }
        pos := pos + 1;
      } else {
        break;
      }
    }
  }

  /**
   * The symbol loop: every listed symbol equal to the slot's code adds the
   * slot to the run when the slot starts after the latest end; a run that
   * reaches apptLength is counted and emptied; the third count ends the loop.
   */
  method MatchSymbols(schedSymbols: seq<string>, code: char, slot: Clock, latest: Clock,
                      duration: nat, apptLength: int, unbooked0: int, numAppts0: int)
    returns (codeMatch: bool, unbooked: int, numAppts: int)
    requires 0 <= numAppts0 < Third
    ensures codeMatch <==> Occurrences(schedSymbols, code) > 0
    ensures Tally(unbooked, numAppts) ==
      if Before(latest, slot) then AddRuns(Tally(unbooked0, numAppts0), duration, apptLength, Occurrences(schedSymbols, code))
      else Tally(unbooked0, numAppts0)
  {
    codeMatch, unbooked, numAppts := false, unbooked0, numAppts0;
    ghost var free := Before(latest, slot);
    ghost var target := AddRuns(Tally(unbooked0, numAppts0), duration, apptLength, Occurrences(schedSymbols, code));
    var schedIdx := 0;
    assert schedSymbols[schedIdx..] == schedSymbols;
    while schedIdx < |schedSymbols|
      invariant 0 <= schedIdx <= |schedSymbols|
      invariant codeMatch ==> Occurrences(schedSymbols, code) > 0
      invariant !codeMatch ==> Occurrences(schedSymbols[schedIdx..], code) == Occurrences(schedSymbols, code)
      invariant 0 <= numAppts < Third
      invariant free ==>
        AddRuns(Tally(unbooked, numAppts), duration, apptLength, Occurrences(schedSymbols[schedIdx..], code)) == target
      invariant !free ==> unbooked == unbooked0 && numAppts == numAppts0
    {
      ghost var t := Tally(unbooked, numAppts);
      ghost var rest := Occurrences(schedSymbols[schedIdx + 1..], code);
      OccurrencesFrom(schedSymbols, schedIdx, code);
      if [code] == schedSymbols[schedIdx] {
        codeMatch := true;
        if Before(latest, slot) {
          AddRunsStep(t, duration, apptLength, rest);
          unbooked := unbooked + duration;
          if unbooked >= apptLength {
            unbooked := 0;
            numAppts := numAppts + 1;
            if numAppts == Third {
              break;
            }
          }
        }
      }
      schedIdx := schedIdx + 1;
    }
  }

  /**
   * The body of the slot loop up to the stop test: read the slot's code, move
   * the cursor over the appointments starting at the slot, match the symbols.
   */
  method ScanSlot(day: ScheduleDay, schedSymbols: seq<string>, apptLength: int, codePos: nat, iTotalMin: int,
                  pos0: nat, latest0: Clock, unbooked0: int, numAppts0: int)
    returns (pos: nat, latest: Clock, codeMatch: bool, unbooked: int, numAppts: int)
    requires WellFormedCode(day.timecode) && codePos < |day.timecode|
    requires iTotalMin == codePos * SlotDuration(day.timecode)
    requires pos0 <= |day.appointments| && 0 <= numAppts0 < Third
    ensures Cursor(pos, latest) == Consume(day.appointments, Cursor(pos0, latest0), SlotClock(day.timecode, codePos))
    ensures codeMatch <==> Occurrences(schedSymbols, day.timecode[codePos]) > 0
    ensures Tally(unbooked, numAppts) ==
      if Before(latest, SlotClock(day.timecode, codePos))
      then AddRuns(Tally(unbooked0, numAppts0), SlotDuration(day.timecode), apptLength,
                   Occurrences(schedSymbols, day.timecode[codePos]))
      else Tally(unbooked0, numAppts0)
  {
    var code := day.timecode[codePos];
    var slot := FromMinutes(iTotalMin);
    pos, latest := AdvanceCursor(day.appointments, pos0, latest0, slot);
    codeMatch, unbooked, numAppts :=
      MatchSymbols(schedSymbols, code, slot, latest, SlotDuration(day.timecode), apptLength, unbooked0, numAppts0);
  }

  /**
   * The slot loop of one schedule day: slot k starts at minute k * duration
   * and reads template code k; the run, the cursor and the latest end start
   * afresh. Returns the completed-run count after the day.
   */
  method ScanDay(day: ScheduleDay, schedSymbols: seq<string>, apptLength: int, numAppts0: int)
    returns (numAppts: int)
    requires WellFormedCode(day.timecode) && 0 <= numAppts0 < Third
    ensures numAppts == DayTally(day, schedSymbols, apptLength, numAppts0).numAppts
  {
    var duration := DayMinutes / |day.timecode|;
    numAppts := numAppts0;
    var pos: nat := 0;
    var latest := Midnight;
    var unbooked := 0;
    var codePos := 0;
    var iTotalMin := 0;
    while iTotalMin < DayMinutes
      invariant codePos <= |day.timecode| && iTotalMin == codePos * duration
      invariant pos <= |day.appointments| && LatestOf(latest, day.appointments[..pos])
      invariant 0 <= numAppts < Third
      invariant SlotsFrom(day, schedSymbols, apptLength, codePos, SlotState(Cursor(pos, latest), Tally(unbooked, numAppts)))
             == DayTally(day, schedSymbols, apptLength, numAppts0)
      decreases |day.timecode| - codePos
    {
      SlotLayout(day.timecode, codePos);
      ghost var before := SlotState(Cursor(pos, latest), Tally(unbooked, numAppts));
      var codeMatch;
      pos, latest, codeMatch, unbooked, numAppts :=
        ScanSlot(day, schedSymbols, apptLength, codePos, iTotalMin, pos, latest, unbooked, numAppts);
      SlotsFromStep(day, schedSymbols, apptLength, codePos, before, Cursor(pos, latest), codeMatch, Tally(unbooked, numAppts));
      assert (codePos + 1) * duration == codePos * duration + duration;
      codePos := codePos + 1;
      if numAppts == Third {
        break;
      }
      if !codeMatch {
        unbooked := 0;
      }
      iTotalMin := iTotalMin + duration;
    }
    SlotLayout(day.timecode, codePos);
  }

  /**
   * The day loop of generateReport over already-fetched schedule rows, in
   * date order. Returns -1, or the date of the row on which the third run
   * completed minus dateFrom.
   */
  method ScanSchedule(days: seq<ScheduleDay>, dateFrom: int, schedSymbols: seq<string>, apptLength: int)
    returns (numDays: int)
    requires WellFormedDays(days)
    ensures numDays == ThirdNextDays(days, dateFrom, schedSymbols, apptLength)
  {
    numDays := -1;
    var schedDate := 0;
    var numAppts := 0;
    var i := 0;
    while i < |days| && numAppts < Third
      invariant 0 <= i <= |days| && 0 <= numAppts <= Third
      invariant numAppts < Third ==>
        ScanFrom(days, dateFrom, schedSymbols, apptLength, i, numAppts) == ThirdNextDays(days, dateFrom, schedSymbols, apptLength)
      invariant numAppts == Third ==> schedDate - dateFrom == ThirdNextDays(days, dateFrom, schedSymbols, apptLength)
    {
      schedDate := days[i].date;
      numAppts := ScanDay(days[i], schedSymbols, apptLength, numAppts);
      i := i + 1;
    }
    if numAppts == Third {
      numDays := schedDate - dateFrom;
    }
  }

  // ================================================================ the report entry point

  /** An appointment row as fetched: start_time and end_time as "HH:MM[:SS]" text. */
  datatype AppointmentRow = AppointmentRow(startTime: string, endTime: string)

  /** A schedule row as fetched, with the day's appointment rows in start-time order. */
  datatype ScheduleRow = ScheduleRow(sdate: int, timecode: string, appointments: seq<AppointmentRow>)

  predicate RowDecodes(r: AppointmentRow) {
    DecodeClock(r.startTime).Some? && DecodeClock(r.endTime).Some?
  }

  predicate RowsDecode(rows: seq<ScheduleRow>) {
    forall i, j :: 0 <= i < |rows| && 0 <= j < |rows[i].appointments| ==> RowDecodes(rows[i].appointments[j])
  }

  /** One appointment row with its start and end times read by the fixed-offset decode. */
  function DecodeAppointment(r: AppointmentRow): (a: Appointment)
    requires RowDecodes(r)
    ensures -9 <= a.start.hour <= 99 && -9 <= a.start.minute <= 99
    ensures -9 <= a.end.hour <= 99 && -9 <= a.end.minute <= 99
  {
    Appointment(DecodeClock(r.startTime).value, DecodeClock(r.endTime).value)
  }

  /** A row holding the "HH:MM:SS" renderings of two readings decodes to exactly those readings. */
  lemma DecodeAppointmentRoundTrip(start: Clock, end: Clock, startSuffix: string, endSuffix: string)
    requires 0 <= start.hour < 100 && 0 <= start.minute < 100
    requires 0 <= end.hour < 100 && 0 <= end.minute < 100
    ensures RowDecodes(AppointmentRow(EncodeClock(start) + startSuffix, EncodeClock(end) + endSuffix))
    ensures DecodeAppointment(AppointmentRow(EncodeClock(start) + startSuffix, EncodeClock(end) + endSuffix)) == Appointment(start, end)
  {
    DecodeEncode(start, startSuffix);
    DecodeEncode(end, endSuffix);
  }

  /** The schedule rows with every appointment time read by the fixed-offset decode. */
  function DecodeDays(rows: seq<ScheduleRow>): (days: seq<ScheduleDay>)
    requires RowsDecode(rows)
    ensures |days| == |rows|
    ensures forall i :: 0 <= i < |rows| ==>
      days[i].date == rows[i].sdate && days[i].timecode == rows[i].timecode
      && |days[i].appointments| == |rows[i].appointments|
    ensures forall i, j :: 0 <= i < |rows| && 0 <= j < |rows[i].appointments| ==>
      days[i].appointments[j] == DecodeAppointment(rows[i].appointments[j])
  {
    seq(|rows|, i requires 0 <= i < |rows| =>
      ScheduleDay(rows[i].sdate, rows[i].timecode,
        seq(|rows[i].appointments|, j requires 0 <= j < |rows[i].appointments| =>
          DecodeAppointment(rows[i].appointments[j]))))
  }

  const MissingArguments := "dateFrom and provider must be set and at least one schedule symbol must be set"

  /** One clinician's report record; providerInfo is the text the provider lookup returns. */
  function MakeClinicianJson(numDays: int, provider: string, providerInfo: string): (r: string)
    ensures JavaStrings.StartsWith(r, "{\"clinician\":\"" + provider + "\", " + providerInfo + ", ")
    ensures var n := |JavaStrings.IntToString(numDays)|;
      |r| == |"{\"clinician\":\"" + provider + "\", " + providerInfo + ", "| + 10 + n + 1
      && r[|r| - 1] == '}' && r[|r| - 1 - n - 10..|r| - 1 - n] == "\"3rdnext\":"
      && JavaStrings.ParseDecimal(r[|r| - 1 - n..|r| - 1]) == Some(numDays)
  {
    var head := "{\"clinician\":\"" + provider + "\", " + providerInfo + ", ";
    var digits := JavaStrings.IntToString(numDays);
    var r := head + "\"3rdnext\":" + digits + "}";
    JavaStrings.IntToStringRoundTrip(numDays);
    assert r[|r| - 1 - |digits|..|r| - 1] == digits;
    assert r[|r| - 1 - |digits| - 10..|r| - 1 - |digits|] == "\"3rdnext\":";
    assert r[..|head|] == head;
    r
  }

  /**
   * generateReport for one provider, with the database replaced by the rows
   * it would return and the provider lookup by its text. A missing argument
   * (null in the source) gives the fixed message; otherwise the symbols are
   * the comma split of schedSymbolsStr and the record carries the scan's value.
   */
  method GenerateReport(dateFrom: Option<int>, schedSymbolsStr: Option<string>, provider: Option<string>,
                        apptLength: int, rows: seq<ScheduleRow>, providerInfo: string)
    returns (report: string)
    requires forall i :: 0 <= i < |rows| ==> WellFormedCode(rows[i].timecode)
    requires RowsDecode(rows)
    ensures dateFrom.None? || schedSymbolsStr.None? || provider.None? ==> report == MissingArguments
    ensures dateFrom.Some? && schedSymbolsStr.Some? && provider.Some? ==>
      report == MakeClinicianJson(
        ThirdNextDays(DecodeDays(rows), dateFrom.value, JavaStrings.Split(schedSymbolsStr.value, ','), apptLength),
        provider.value, providerInfo)
  {
    var schedSymbols: Option<seq<string>> := None;
    if schedSymbolsStr.Some? {
      schedSymbols := Some(JavaStrings.Split(schedSymbolsStr.value, ','));
    }
    if dateFrom.None? || provider.None? || schedSymbols.None? {
      return MissingArguments;
    }
    var days := DecodeDays(rows);
    var numDays := ScanSchedule(days, dateFrom.value, schedSymbols.value, apptLength);
    report := MakeClinicianJson(numDays, provider.value, providerInfo);
  }

  // ================================================================ command-line parameters

  /** The test on the pieces: exactly two, both non-empty. */
  predicate NameValueSplit(parts: seq<string>)
    ensures NameValueSplit(parts) <==> |parts| == 2 && forall i :: 0 <= i < |parts| ==> parts[i] != []
  {
    |parts| == 2 && |parts[0]| > 0 && |parts[1]| > 0
  }

  /**
   * The shape the validator accepts: a non-empty name without '=', one '=',
   * then a non-empty value without '=' followed by nothing but '=' characters
   * (the trailing empty pieces String.split drops).
   */
  ghost predicate NameValueForm(s: string) {
    exists i :: 0 < i < |s| && s[i] == '=' && '=' !in s[..i] && JavaStrings.RunThenSeparators(s[i + 1..], '=')
  }

  /** A "name=value" command-line argument, judged through String.split("="). */
  predicate IsValidParameter(s: string)
    ensures IsValidParameter(s) <==> NameValueForm(s)
  {
    '=' in s &&
    (SplitAtFirst(s);
     FormAtFirst(s);
     JavaStrings.OneNonEmptyPiece(s[JavaStrings.FirstIndex(s, '=') + 1..], '=');
     NameValueSplit(JavaStrings.Split(s, '=')))
  }

  /** The split of a text containing '=': the name up to the first '=', then the pieces of the rest. */
  lemma SplitAtFirst(s: string)
    requires '=' in s
    ensures var f, r := JavaStrings.FirstIndex(s, '='), s[JavaStrings.FirstIndex(s, '=') + 1..];
      var rest := JavaStrings.DropTrailingEmpty(JavaStrings.Pieces(r, '='));
      NameValueSplit(JavaStrings.Split(s, '=')) <==> f > 0 && |rest| == 1 && rest[0] != []
  {
    var f := JavaStrings.FirstIndex(s, '=');
    var rest := JavaStrings.DropTrailingEmpty(JavaStrings.Pieces(s[f + 1..], '='));
    var parts := JavaStrings.Split(s, '=');
    JavaStrings.SplitAtSeparator(s, '=');
    if f > 0 || rest != [] {
      assert parts == [s[..f]] + rest;
      assert |parts| == 1 + |rest| && |parts[0]| == f;
      if |rest| > 0 {
        assert parts[1] == rest[0];
      }
    }
  }

  /** In NameValueForm the '=' after the name is the first one. */
  lemma FormAtFirst(s: string)
    requires '=' in s
    ensures var f := JavaStrings.FirstIndex(s, '=');
      NameValueForm(s) <==> f > 0 && JavaStrings.RunThenSeparators(s[f + 1..], '=')
  {
    var f := JavaStrings.FirstIndex(s, '=');
    if NameValueForm(s) {
      var i :| 0 < i < |s| && s[i] == '=' && '=' !in s[..i] && JavaStrings.RunThenSeparators(s[i + 1..], '=');
      forall k | 0 <= k < i ensures s[k] != '=' {
        assert s[..i][k] == s[k];
      }
      forall k | 0 <= k < f ensures s[k] != '=' {
        assert s[..f][k] == s[k];
      }
      assert i == f;
    }
  }

  /** A plain name=value pair is accepted. */
  lemma ValidParameterAccepts()
    ensures IsValidParameter("a=b")
  {
    JavaStrings.SplitAtSeparator("a=b", '=');
    assert JavaStrings.FirstIndex("a=b", '=') == 1;
    assert "a=b"[..1] == "a" && "a=b"[2..] == "b";
  }

  /** String.split drops the trailing empty piece, so a value may be followed by '='. */
  lemma ValidParameterAcceptsTrailingSeparator()
    ensures IsValidParameter("a=b=")
  {
    JavaStrings.SplitAtSeparator("a=b=", '=');
    assert JavaStrings.FirstIndex("a=b=", '=') == 1;
    assert "a=b="[..1] == "a" && "a=b="[2..] == "b=";
    JavaStrings.SplitAtSeparator("b=", '=');
    assert JavaStrings.FirstIndex("b=", '=') == 1;
    assert "b="[..1] == "b" && "b="[2..] == "";
  }

  /** An empty name is refused. */
  lemma ValidParameterRejectsEmptyName()
    ensures !IsValidParameter("=b")
  {
  }

  /** An empty value is refused. */
  lemma ValidParameterRejectsEmptyValue()
    ensures !IsValidParameter("a=")
  {
    assert "a="[2..] == "";
  }

  /** A second value is refused. */
  lemma ValidParameterRejectsSecondValue()
    ensures !IsValidParameter("a=b=c")
  {
    var s := "a=b=c";
    var r := s[2..];
    assert r == "b=c";
    assert !JavaStrings.RunThenSeparators(r, '=') by {
      forall j | 0 < j <= |r| && '=' !in r[..j] ensures j == 1 && r[2] != '=' {
        assert r[1] == '=';
      }
    }
    assert JavaStrings.FirstIndex(s, '=') == 1;
    FormAtFirst(s);
    assert !NameValueForm(s);
  }
}
