/**
 * Week and clock arithmetic, the e-mail domain rule, the per-user activity
 * table and the catalogue of bookable time slots.
 */
module Utils {
  import opened Optional
  import opened JsString

  /** The last week number of a year; a step back from week 1 lands here. */
  const MaxWeeksYear: int := 52

  // ---------------------------------------------------------------------------
  // week navigation

  /** A `weekBase` of 0 stands for today's week number. */
  function Base(weekBase: int, today: int): int {
    if weekBase == 0 then today else weekBase
  }

  /**
   * `getNextWeek`: one week forward while the step stays within `nextLimit`
   * weeks of the base, wrapping from 52 to 1; otherwise the same week.
   */
  function NextWeek(week: int, nextLimit: int, weekBase: int, today: int): (r: int)
    ensures nextLimit <= 0 ==> r == week
    ensures r == week || r == week + 1 || r == 1
    ensures r != week ==> week + 1 <= Base(weekBase, today) + nextLimit
    ensures r == week + 1 ==> r <= MaxWeeksYear
    ensures r < week ==> r == 1 && week >= MaxWeeksYear
    ensures 1 <= week <= MaxWeeksYear ==> 1 <= r <= MaxWeeksYear
    ensures nextLimit > 0 && week + 1 <= Base(weekBase, today) + nextLimit ==>
              r == if week + 1 <= MaxWeeksYear then week + 1 else 1
    ensures !(nextLimit > 0 && week + 1 <= Base(weekBase, today) + nextLimit) ==> r == week
  {
    var base := Base(weekBase, today);
    if nextLimit > 0 && week + 1 <= base + nextLimit then
      if week + 1 <= MaxWeeksYear then week + 1 else 1
    else week
  }

  /**
   * `getPreviousWeek`: one week back while the step stays within `prevLimit`
   * weeks of the base, wrapping from 1 to 52; otherwise the same week.
   */
  function PreviousWeek(week: int, prevLimit: int, weekBase: int, today: int): (r: int)
    ensures prevLimit <= 0 ==> r == week
    ensures r == week || r == week - 1 || r == MaxWeeksYear
    ensures r != week ==> week - 1 >= Base(weekBase, today) - prevLimit
    ensures r == week - 1 ==> r >= 1
    ensures r > week ==> r == MaxWeeksYear && week <= 1
    ensures 1 <= week <= MaxWeeksYear ==> 1 <= r <= MaxWeeksYear
    ensures prevLimit > 0 && week - 1 >= Base(weekBase, today) - prevLimit ==>
              r == if week - 1 > 0 then week - 1 else MaxWeeksYear
    ensures !(prevLimit > 0 && week - 1 >= Base(weekBase, today) - prevLimit) ==> r == week
  {
    var base := Base(weekBase, today);
    if prevLimit > 0 && week - 1 >= base - prevLimit then
      if week - 1 > 0 then week - 1 else MaxWeeksYear
    else week
  }

  /** Inside the window and away from the year's ends, a step back undoes a step forward. */
  lemma PreviousUndoesNext(week: int, limit: int, weekBase: int, today: int)
    requires limit > 0 && 1 <= week < MaxWeeksYear
    requires Base(weekBase, today) - limit <= week < Base(weekBase, today) + limit
    ensures PreviousWeek(NextWeek(week, limit, weekBase, today), limit, weekBase, today) == week
  {
  }

  /** Repeated forward steps from the base never pass `base + limit` unless they wrap. */
  lemma NextWeekStaysInWindow(week: int, limit: int, weekBase: int, today: int)
    requires week <= Base(weekBase, today) + limit
    ensures NextWeek(week, limit, weekBase, today) <= Base(weekBase, today) + limit
  {
  }

  // ---------------------------------------------------------------------------
  // clock times "HH:MM"

  /** Hours and minutes as `Number` reads them; `None` is NaN. */
  type Fields = (Option<nat>, Option<nat>)

  /** The two fields of `time.split(":").map(Number)`; a missing field is NaN. */
  function ClockFields(time: string): Fields {
    var parts := Split(time, ':');
    (ToNumber(parts[0]), if |parts| >= 2 then ToNumber(parts[1]) else None)
  }

  /** Fields that are numbers on a 24-hour clock. */
  predicate ValidFields(f: Fields) {
    f.0.Some? && f.1.Some? && f.0.value < 24 && f.1.value < 60
  }

  /** Minutes since midnight of valid fields. */
  function FieldsMinutes(f: Fields): (r: nat)
    requires ValidFields(f)
    ensures r < 1440
  {
    f.0.value * 60 + f.1.value
  }

  /** A time whose hours and minutes are numbers on a 24-hour clock. */
  predicate ValidClock(time: string) {
    ValidFields(ClockFields(time))
  }

  /** Minutes since midnight of a valid clock time. */
  function ClockMinutes(time: string): nat
    requires ValidClock(time)
  {
    FieldsMinutes(ClockFields(time))
  }

  /** `String(n).padStart(2, "0")` of a field, with NaN written out. */
  function FieldText(v: Option<nat>): string {
    match v
    case Some(n) => Pad2(n)
    case None => "NaN"
  }

  /** The text of two fields joined by ':'. */
  function ClockText(f: Fields): string {
    FieldText(f.0) + ":" + FieldText(f.1)
  }

  /** The "HH:MM" text of a minute of the day. */
  function FormatClock(t: nat): string
    requires t < 1440
  {
    ClockText((Some(t / 60), Some(t % 60)))
  }

  /** Two digit strings joined by ':' read back as their values. */
  lemma ClockOfDigits(hh: string, mm: string)
    requires IsDigits(hh) && IsDigits(mm) && hh != [] && mm != []
    ensures ClockFields(hh + ":" + mm) == (Some(DigitsValue(hh)), Some(DigitsValue(mm)))
  {
    assert ':' !in hh && ':' !in mm by {
      assert forall i :: 0 <= i < |hh| ==> IsDigit(hh[i]);
      assert forall i :: 0 <= i < |mm| ==> IsDigit(mm[i]);
    }
    SplitAfterPiece(hh, ':', mm);
    SplitNoSeparator(mm, ':');
    assert hh + ":" + mm == hh + [':'] + mm;
  }

  /** Reading a formatted time gives back its fields. */
  lemma FormatClockRoundTrip(t: nat)
    requires t < 1440
    ensures |FormatClock(t)| == 5
    ensures ClockFields(FormatClock(t)) == (Some(t / 60), Some(t % 60))
  {
    ClockOfDigits(Pad2(t / 60), Pad2(t % 60));
  }

  /** One step of fifteen minutes on the parsed fields, NaN staying NaN. */
  function Advance(f: Fields): Fields {
    var (hours, minutes) := f;
    if minutes.None? then f
    else if minutes.value + 15 < 60 then (hours, Some(minutes.value + 15))
    else (if hours.None? then None else if hours.value + 1 >= 24 then Some(0) else Some(hours.value + 1),
          Some(minutes.value + 15 - 60))
  }

  /** The text `getNextTime` builds from a time. */
  function NextTimeText(time: string): string {
    ClockText(Advance(ClockFields(time)))
  }

  /**
   * `getNextTime`: fifteen minutes later, carrying into the hour at 60 and
   * wrapping hour 24 to 0, both fields zero-padded.
   */
  method NextTime(time: string) returns (r: string)
    ensures r == NextTimeText(time)
  {
    var f := ClockFields(time);
    var hours, minutes := f.0, f.1;
    if minutes.Some? {
      minutes := Some(minutes.value + 15);
      if minutes.value >= 60 {
        minutes := Some(minutes.value - 60);
        if hours.Some? {
          hours := Some(hours.value + 1);
          if hours.value >= 24 {
            hours := Some(0);
          }
        }
      }
    }
    r := FieldText(hours) + ":" + FieldText(minutes);
  }

  /** On valid fields, a step is addition of fifteen minutes modulo a day. */
  lemma AdvanceIsClockStep(f: Fields)
    requires ValidFields(f)
    ensures var t := (FieldsMinutes(f) + 15) % 1440; Advance(f) == (Some(t / 60), Some(t % 60))
  {
    var h, m := f.0.value, f.1.value;
    var t := (h * 60 + m + 15) % 1440;
    if m + 15 >= 60 {
      if h + 1 >= 24 {
        assert t == m + 15 - 60;
      } else {
        assert t == (h + 1) * 60 + (m + 15 - 60);
      }
    } else {
      assert t == h * 60 + m + 15;
    }
  }

  /** On valid fields, the text of a step is the formatted time fifteen minutes later. */
  lemma AdvanceText(f: Fields, t: nat)
    requires ValidFields(f) && FieldsMinutes(f) == t
    ensures ClockText(Advance(f)) == FormatClock((t + 15) % 1440)
  {
    AdvanceIsClockStep(f);
  }

  lemma FieldsOfMinute(t: nat)
    requires t < 1440
    ensures ValidFields((Some(t / 60), Some(t % 60))) && FieldsMinutes((Some(t / 60), Some(t % 60))) == t
  {
  }

  /** On every zero-padded "HH:MM" time, the next time is fifteen minutes later on a 24-hour clock. */
  lemma NextTimeAddsFifteen(t: nat)
    requires t < 1440
    ensures NextTimeText(FormatClock(t)) == FormatClock((t + 15) % 1440)
  {
    var f: Fields := (Some(t / 60), Some(t % 60));
    FieldsOfMinute(t);
    FormatClockRoundTrip(t);
    AdvanceText(f, t);
  }

  /** Without a minutes field the step leaves both fields as they were. */
  lemma AdvanceWithoutMinutes(f: Fields)
    requires f.1.None?
    ensures ClockText(Advance(f)) == FieldText(f.0) + ":NaN"
  {
  }

  /** A time without a minutes field keeps NaN minutes. */
  lemma NextTimeWithoutMinutes(time: string)
    requires ClockFields(time).1.None?
    ensures EndsWith(NextTimeText(time), ":NaN")
  {
    var a := FieldText(ClockFields(time).0);
    AdvanceWithoutMinutes(ClockFields(time));
    assert (a + ":NaN")[|a|..] == ":NaN";
  }

  lemma Split2345()
    ensures "23:45" == "23" + ":" + "45"
  {
  }

  lemma Digits2345()
    ensures IsDigits("23") && DigitsValue("23") == 23 && IsDigits("45") && DigitsValue("45") == 45
  {
  }

  lemma ClockFields2345()
    ensures ClockFields("23:45") == (Some(23), Some(45))
  {
    Split2345();
    Digits2345();
    ClockOfDigits("23", "45");
  }

  lemma MidnightText()
    ensures ClockText((Some(0), Some(0))) == "00:00"
  {
  }

  /** "23:45" is followed by "00:00". */
  lemma MidnightWraps()
    ensures NextTimeText("23:45") == "00:00"
  {
    ClockFields2345();
    AdvanceIsClockStep((Some(23), Some(45)));
    MidnightText();
  }

  // ---------------------------------------------------------------------------
  // e-mail domain and activities

  /** `validateEmail`: any address when no domain is configured, else only that domain's. */
  function ValidateEmail(email: string, allowedDomain: Option<string>): (r: bool)
    ensures allowedDomain.None? || allowedDomain == Some("") ==> r
    ensures allowedDomain.Some? && allowedDomain.value != "" ==>
              (r <==> exists local :: local + "@" + allowedDomain.value == email)
  {
    match allowedDomain
    case None => true
    case Some(d) =>
      if d == "" then true
      else
        var suffix := "@" + d;
        if EndsWith(email, suffix) then
          var local := email[..|email| - |suffix|];
          assert local + "@" + d == email;
          true
        else
          assert !exists local :: local + "@" + d == email;
          false
  }

  /** `getUserActivities`: the table entry for three known addresses, else a default pair. */
  function UserActivities(email: string): (r: seq<string>)
    ensures |r| == 2
    ensures r == ["Aula Livre", "Reunião"] <==>
              email !in {"professor1@instituicao.edu.br", "professor2@instituicao.edu.br",
                         "tecnico1@instituicao.edu.br"}
    ensures email == "professor1@instituicao.edu.br" ==> r == ["Matemática", "Física"]
    ensures email == "professor2@instituicao.edu.br" ==> r == ["Química", "Biologia"]
    ensures email == "tecnico1@instituicao.edu.br" ==> r == ["Manutenção", "Configuração"]
  {
    if email == "professor1@instituicao.edu.br" then ["Matemática", "Física"]
    else if email == "professor2@instituicao.edu.br" then ["Química", "Biologia"]
    else if email == "tecnico1@instituicao.edu.br" then ["Manutenção", "Configuração"]
    else ["Aula Livre", "Reunião"]
  }

  // ---------------------------------------------------------------------------
  // the slot catalogue

  /** A bookable starting time and the period of the day it belongs to. */
  datatype TimeSlotEntry = TimeSlotEntry(time: string, period: string)

  /** The morning run, written in two halves of seven. */
  const MorningSlots: seq<TimeSlotEntry> := MorningSlotsEarly + MorningSlotsLate

  const MorningSlotsEarly: seq<TimeSlotEntry> := [
    TimeSlotEntry("07:45", "morning"), TimeSlotEntry("08:00", "morning"),
    TimeSlotEntry("08:15", "morning"), TimeSlotEntry("08:30", "morning"),
    TimeSlotEntry("08:45", "morning"), TimeSlotEntry("09:00", "morning"),
    TimeSlotEntry("09:15", "morning")]

  const MorningSlotsLate: seq<TimeSlotEntry> := [
    TimeSlotEntry("09:30", "morning"), TimeSlotEntry("09:45", "morning"),
    TimeSlotEntry("10:00", "morning"), TimeSlotEntry("10:15", "morning"),
    TimeSlotEntry("10:30", "morning"), TimeSlotEntry("10:45", "morning"),
    TimeSlotEntry("11:30", "morning")]

  const MorningBreakSlots: seq<TimeSlotEntry> := [
    TimeSlotEntry("11:45", "morning-break"), TimeSlotEntry("12:00", "morning-break"),
    TimeSlotEntry("12:15", "morning-break"), TimeSlotEntry("12:30", "morning-break"),
    TimeSlotEntry("12:45", "morning-break")]

  const AfternoonSlots: seq<TimeSlotEntry> := [
    TimeSlotEntry("13:00", "afternoon"), TimeSlotEntry("13:45", "afternoon"),
    TimeSlotEntry("14:30", "afternoon"), TimeSlotEntry("15:15", "afternoon"),
    TimeSlotEntry("16:00", "afternoon"), TimeSlotEntry("16:45", "afternoon")]

  const AfternoonBreakSlots: seq<TimeSlotEntry> := [
    TimeSlotEntry("17:00", "afternoon-break"), TimeSlotEntry("17:15", "afternoon-break"),
    TimeSlotEntry("17:30", "afternoon-break"), TimeSlotEntry("17:45", "afternoon-break"),
    TimeSlotEntry("18:00", "afternoon-break"), TimeSlotEntry("18:15", "afternoon-break")]

  const EveningSlots: seq<TimeSlotEntry> := [
    TimeSlotEntry("18:30", "evening"), TimeSlotEntry("19:15", "evening"),
    TimeSlotEntry("20:00", "evening"), TimeSlotEntry("20:45", "evening"),
    TimeSlotEntry("21:30", "evening"), TimeSlotEntry("22:15", "evening")]

  /** `timeSlots`: morning, morning break, afternoon, afternoon break and evening, in that order. */
  const TimeSlots: seq<TimeSlotEntry> :=
    MorningSlots + MorningBreakSlots + AfternoonSlots + AfternoonBreakSlots + EveningSlots

  /** Five-character times, each sorting before the next. */
  predicate Increasing(s: seq<TimeSlotEntry>) {
    (forall j :: 0 <= j < |s| ==> |s[j].time| == 5)
    && (forall j :: 0 <= j < |s| - 1 ==> StringLess(s[j].time, s[j + 1].time))
  }

  /** Every entry from `i` on is a five-character time that sorts before the next one. */
  predicate IncreasingFrom(s: seq<TimeSlotEntry>, i: nat)
    decreases |s| - i
  {
    i >= |s| ||
    (|s[i].time| == 5 && (i + 1 < |s| ==> StringLess(s[i].time, s[i + 1].time)) && IncreasingFrom(s, i + 1))
  }

  lemma {:induction false} IncreasingFromSorted(s: seq<TimeSlotEntry>, i: nat, j: nat)
    requires IncreasingFrom(s, i) && i <= j < |s|
    ensures |s[j].time| == 5
    ensures j + 1 < |s| ==> StringLess(s[j].time, s[j + 1].time)
    decreases j - i
  {
    if i < j {
      IncreasingFromSorted(s, i + 1, j);
    }
  }

  lemma IncreasingFromStart(s: seq<TimeSlotEntry>)
    requires IncreasingFrom(s, 0)
    ensures Increasing(s)
  {
    forall j | 0 <= j < |s|
      ensures |s[j].time| == 5
      ensures j + 1 < |s| ==> StringLess(s[j].time, s[j + 1].time)
    {
      IncreasingFromSorted(s, 0, j);
    }
  }

  /** Two increasing runs joined where the first ends before the second begins. */
  lemma IncreasingConcat(a: seq<TimeSlotEntry>, b: seq<TimeSlotEntry>)
    requires Increasing(a) && Increasing(b) && a != [] && b != []
    requires StringLess(a[|a| - 1].time, b[0].time)
    ensures Increasing(a + b)
  {
    var s := a + b;
    forall j | 0 <= j < |s| - 1 ensures StringLess(s[j].time, s[j + 1].time) {
      if j < |a| - 1 {
        assert s[j] == a[j] && s[j + 1] == a[j + 1];
      } else if j == |a| - 1 {
        assert s[j] == a[j] && s[j + 1] == b[0];
      } else {
        assert s[j] == b[j - |a|] && s[j + 1] == b[j - |a| + 1];
      }
    }
  }

  /** One more entry in front of an increasing tail, its time and the next one given as text. */
  lemma IncreasingStep(s: seq<TimeSlotEntry>, i: nat, a: string, b: string)
    requires i + 1 < |s| && s[i].time == a && s[i + 1].time == b
    requires |a| == 5 && StringLess(a, b) && IncreasingFrom(s, i + 1)
    ensures IncreasingFrom(s, i)
  {
  }

  lemma MorningEarlyIncreasing() ensures Increasing(MorningSlotsEarly) {
    assert IncreasingFrom(MorningSlotsEarly, 6);
    IncreasingStep(MorningSlotsEarly, 5, "09:00", "09:15");
    IncreasingStep(MorningSlotsEarly, 4, "08:45", "09:00");
    IncreasingStep(MorningSlotsEarly, 3, "08:30", "08:45");
    IncreasingStep(MorningSlotsEarly, 2, "08:15", "08:30");
    IncreasingStep(MorningSlotsEarly, 1, "08:00", "08:15");
    IncreasingStep(MorningSlotsEarly, 0, "07:45", "08:00");
    IncreasingFromStart(MorningSlotsEarly);
  }

  lemma MorningLateIncreasing() ensures Increasing(MorningSlotsLate) {
    assert IncreasingFrom(MorningSlotsLate, 6);
    IncreasingStep(MorningSlotsLate, 5, "10:45", "11:30");
    IncreasingStep(MorningSlotsLate, 4, "10:30", "10:45");
    IncreasingStep(MorningSlotsLate, 3, "10:15", "10:30");
    IncreasingStep(MorningSlotsLate, 2, "10:00", "10:15");
    IncreasingStep(MorningSlotsLate, 1, "09:45", "10:00");
    IncreasingStep(MorningSlotsLate, 0, "09:30", "09:45");
    IncreasingFromStart(MorningSlotsLate);
  }

  lemma MorningIncreasing() ensures Increasing(MorningSlots) {
    MorningEarlyIncreasing();
    MorningLateIncreasing();
    IncreasingConcat(MorningSlotsEarly, MorningSlotsLate);
  }

  lemma MorningBreakIncreasing() ensures Increasing(MorningBreakSlots) {
    assert IncreasingFrom(MorningBreakSlots, 0);
    IncreasingFromStart(MorningBreakSlots);
  }

  lemma AfternoonIncreasing() ensures Increasing(AfternoonSlots) {
    assert IncreasingFrom(AfternoonSlots, 0);
    IncreasingFromStart(AfternoonSlots);
  }

  lemma AfternoonBreakIncreasing() ensures Increasing(AfternoonBreakSlots) {
    assert IncreasingFrom(AfternoonBreakSlots, 0);
    IncreasingFromStart(AfternoonBreakSlots);
  }

  lemma EveningIncreasing() ensures Increasing(EveningSlots) {
    assert IncreasingFrom(EveningSlots, 0);
    IncreasingFromStart(EveningSlots);
  }

  /** The catalogue holds 37 fixed-width "HH:MM" times, each sorting before the next. */
  lemma TimeSlotsIncreasing()
    ensures |TimeSlots| == 37
    ensures Increasing(TimeSlots)
  {
    MorningIncreasing();
    MorningBreakIncreasing();
    AfternoonIncreasing();
    AfternoonBreakIncreasing();
    EveningIncreasing();
    var m := MorningSlots + MorningBreakSlots;
    IncreasingConcat(MorningSlots, MorningBreakSlots);
    assert m[|m| - 1] == MorningBreakSlots[4];
    IncreasingConcat(m, AfternoonSlots);
    var a := m + AfternoonSlots;
    assert a[|a| - 1] == AfternoonSlots[5];
    IncreasingConcat(a, AfternoonBreakSlots);
    var b := a + AfternoonBreakSlots;
    assert b[|b| - 1] == AfternoonBreakSlots[5];
    IncreasingConcat(b, EveningSlots);
  }

  lemma Split1045()
    ensures "10:45" == "10" + ":" + "45"
  {
  }

  lemma Digits1045()
    ensures IsDigits("10") && DigitsValue("10") == 10 && IsDigits("45") && DigitsValue("45") == 45
  {
  }

  lemma ClockFields1045()
    ensures ClockFields("10:45") == (Some(10), Some(45))
  {
    Split1045();
    Digits1045();
    ClockOfDigits("10", "45");
  }

  lemma ElevenText()
    ensures ClockText((Some(11), Some(0))) == "11:00"
  {
  }

  /** The steps are not uniform: fifteen minutes after "10:45" is "11:00", not the next entry "11:30". */
  lemma TimeSlotStepsNotUniform()
    ensures TimeSlots[12].time == "10:45" && TimeSlots[13].time == "11:30"
    ensures NextTimeText(TimeSlots[12].time) == "11:00"
  {
    assert TimeSlots[12] == MorningSlots[12] && TimeSlots[13] == MorningSlots[13];
    ClockFields1045();
    AdvanceIsClockStep((Some(10), Some(45)));
    ElevenText();
  }
}
