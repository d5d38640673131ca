/**
 * One cell of the weekly grid: who may edit it, its colour, the two lines a
 * commission booking shows, the duration label of a merged cell, its element
 * id and when two renderings of it count as the same.
 */
module TimeSlot {
  import opened Optional
  import opened JsString
  import opened Constants
  import opened ScheduleMap

  /**
   * `hasChangeEvent`: a cell reacts to clicks when it is free and enabled, or
   * when its owner's address is the session's. Both addresses are missing
   * (`None`) for a free cell without a session, which also counts as a match.
   */
  function HasChangeEvent(disabled: bool, slot: Option<Slot>, sessionEmail: Option<string>): (r: bool)
    ensures slot.Some? && sessionEmail.Some? ==> (r <==> slot.value.user.email == sessionEmail.value)
    ensures slot.None? && sessionEmail.Some? ==> (r <==> !disabled)
  {
    var owner := if slot.Some? then Some(slot.value.user.email) else None;
    (!disabled && slot.None?) || owner == sessionEmail
  }

  /** Signed-in users can edit only their own bookings, and never a free disabled cell. */
  lemma EditOnlyOwnBookings(disabled: bool, slot: Option<Slot>, email: string)
    ensures HasChangeEvent(disabled, slot, Some(email)) ==> slot.None? || slot.value.user.email == email
    ensures disabled && slot.None? ==> !HasChangeEvent(disabled, slot, Some(email))
  {
  }

  /** Without a session a free cell stays clickable even when disabled; a booked one does not. */
  lemma NoSessionFreeCell(disabled: bool, slot: Option<Slot>)
    ensures HasChangeEvent(disabled, slot, None) <==> slot.None?
  {
  }

  /** The colour of a free cell. */
  const FreeColor: string := "#f9fafb"
  /** The colour of a commission or ownerless booking. */
  const NeutralColor: string := "#f3f4f6"
  /** The colour of a hovered, enabled cell. */
  const HoverColor: string := "#dcfce7"

  /**
   * `calculateColor`: a free cell is light grey; a booking with an owner
   * other than the commission has the owner's colour (from `getEmailColor`)
   * in lower case; any other booking is grey.
   */
  function CalculateColor(slot: Option<Slot>, getEmailColor: string -> string): (r: string)
    ensures slot.None? ==> r == FreeColor
    ensures slot.Some? && slot.value.user.email != "" && slot.value.user.email != CommissionEmail
            ==> r == AsciiLower(getEmailColor(slot.value.user.email))
    ensures slot.Some? && (slot.value.user.email == "" || slot.value.user.email == CommissionEmail) ==> r == NeutralColor
  {
    if slot.None? then FreeColor
    else
      var email := slot.value.user.email;
      if email != "" && email != CommissionEmail then AsciiLower(getEmailColor(email)) else NeutralColor
  }

  /** No ASCII capital letter. */
  predicate NoUpper(s: string) {
    forall i :: 0 <= i < |s| ==> !('A' <= s[i] <= 'Z')
  }

  /** Every colour a cell can get is free of capitals, whatever case the palette uses. */
  lemma ColorsAreLowerCase(slot: Option<Slot>, getEmailColor: string -> string)
    ensures NoUpper(CalculateColor(slot, getEmailColor))
  {
    var r := CalculateColor(slot, getEmailColor);
    forall i | 0 <= i < |r| ensures !('A' <= r[i] <= 'Z') {
      if slot.Some? && slot.value.user.email != "" && slot.value.user.email != CommissionEmail {
        var c := getEmailColor(slot.value.user.email);
        assert r[i] == LowerChar(c[i]);
      }
    }
  }

  /** The background: hover wins on an enabled cell, then the disabled colour, then the cell's own colour. */
  function Background(hovered: bool, disabled: bool, color: string): (r: string)
    ensures disabled ==> r == ColorDisabledSlot
    ensures !disabled && hovered ==> r == HoverColor
    ensures !disabled && !hovered ==> r == color
  {
    if hovered && !disabled then HoverColor else if disabled then ColorDisabledSlot else color
  }

  // ---------------------------------------------------------------------------
  // commission details "<class> (<teacher>)"

  /**
   * The class and teacher lines: " (" becomes ";", the first ")" is dropped,
   * the text is split on ";" and, when there are at least two pieces, the
   * first two are trimmed.
   */
  function ParseCommissionDetails(details: string): (r: (Option<string>, Option<string>))
    ensures r.0.Some? <==> r.1.Some?
    ensures r.0.Some? ==> |r.0.value| <= |details| && |r.1.value| <= |details|
  {
    var marked := ReplaceFirst(details, " (", ";");
    var cleaned := ReplaceFirst(marked, ")", "");
    var parts := Split(cleaned, ';');
    if |parts| >= 2 then
      ReplaceFirstNotLonger(details, " (", ";");
      ReplaceFirstNotLonger(marked, ")", "");
      SplitPiecesShorter(cleaned, ';');
      assert parts[0] in parts && parts[1] in parts;
      (Some(Trim(parts[0])), Some(Trim(parts[1])))
    else (None, None)
  }

  lemma ReplaceFirstNotLonger(s: string, pat: string, rep: string)
    requires |rep| <= |pat|
    ensures |ReplaceFirst(s, pat, rep)| <= |s|
  {
  }

  lemma {:induction false} SplitPiecesShorter(s: string, sep: char)
    ensures forall p :: p in Split(s, sep) ==> |p| <= |s|
    decreases |s|
  {
    if s != [] {
      SplitPiecesShorter(s[1..], sep);
    }
  }

  /**
   * The lines a cell shows for a booking: for a commission booking with
   * details, the parsed class and teacher; otherwise none.
   */
  function CommissionLines(slot: Slot): (r: (Option<string>, Option<string>))
    ensures slot.user.email != CommissionEmail || slot.details.None? || slot.details.value == "" ==> r == (None, None)
    ensures slot.user.email == CommissionEmail && slot.details.Some? && slot.details.value != "" ==>
              r == ParseCommissionDetails(slot.details.value)
  {
    if slot.details.Some? && slot.details.value != "" && slot.user.email == CommissionEmail
    then ParseCommissionDetails(slot.details.value)
    else (None, None)
  }

  /** With no "(" in the class, the first " (" is the one before the teacher. */
  lemma OpenParenReplaced(cls: string, rest: string)
    requires '(' !in cls
    ensures ReplaceFirst(cls + " (" + rest, " (", ";") == cls + ";" + rest
  {
    var s := cls + " (" + rest;
    forall j | 0 <= j < |cls| ensures !OccursAt(s, " (", j) {
      if j + 1 < |cls| {
        assert s[j + 1] == cls[j + 1] && cls[j + 1] in cls;
      } else {
        assert s[j + 1] == ' ';
      }
    }
    ReplaceFirstAfter(cls, " (", rest, ";");
  }

  /** With no ")" in class or teacher, the first ")" is the closing one. */
  lemma CloseParenDropped(cls: string, teacher: string)
    requires ')' !in cls && ')' !in teacher
    ensures ReplaceFirst(cls + ";" + teacher + ")", ")", "") == cls + ";" + teacher
  {
    var a := cls + ";" + teacher;
    var s := a + ")" + "";
    forall j | 0 <= j < |a| ensures !OccursAt(s, ")", j) {
      assert s[j..j + 1] == [s[j]];
      if j < |cls| {
        assert s[j] == cls[j] && cls[j] in cls;
      } else if j > |cls| {
        assert s[j] == teacher[j - |cls| - 1] && teacher[j - |cls| - 1] in teacher;
      } else {
        assert s[j] == ';';
      }
    }
    ReplaceFirstAfter(a, ")", "", "");
    assert a + ")" + "" == cls + ";" + teacher + ")";
    assert a + "" + "" == a;
  }

  /**
   * Details written as "<class> (<teacher>)" read back as the trimmed class and
   * teacher, when neither contains a parenthesis or ";".
   */
  lemma CommissionDetailsRoundTrip(cls: string, teacher: string)
    requires '(' !in cls && ')' !in cls && ';' !in cls
    requires ')' !in teacher && ';' !in teacher
    ensures ParseCommissionDetails(cls + " (" + teacher + ")") == (Some(Trim(cls)), Some(Trim(teacher)))
  {
    assert cls + " (" + teacher + ")" == cls + " (" + (teacher + ")");
    OpenParenReplaced(cls, teacher + ")");
    assert cls + ";" + (teacher + ")") == cls + ";" + teacher + ")";
    CloseParenDropped(cls, teacher);
    assert cls + ";" + teacher == cls + [';'] + teacher;
    SplitAfterPiece(cls, ';', teacher);
    SplitNoSeparator(teacher, ';');
  }

  // ---------------------------------------------------------------------------
  // the duration label of a merged cell

  /**
   * The label of a cell `groupHeight` slots long. It is well formed, has an
   * hour part exactly from 60 minutes up, and reads back as the cell's
   * length, 15 minutes per slot; by `WellFormedLabelUnique` it is the only
   * well-formed text that does.
   */
  function DurationLabel(groupHeight: nat): (r: string)
    ensures ReadDuration(r) == Some(groupHeight * MinutesPerSlot)
    ensures WellFormedLabel(r)
    ensures 'h' in r <==> groupHeight * MinutesPerSlot >= 60
  {
    MinutesRoundTrip(groupHeight * MinutesPerSlot);
    MinutesLabelWellFormed(groupHeight * MinutesPerSlot);
    MinutesLabel(groupHeight * MinutesPerSlot)
  }

  /** "<h>h<m>min", the hour part only from an hour up. */
  function MinutesLabel(minutes: nat): string {
    (if minutes >= 60 then NatToString(minutes / 60) + "h" else "") + NatToString(minutes % 60) + "min"
  }

  /** Reads a duration label back into minutes. */
  function ReadDuration(text: string): Option<nat> {
    if !EndsWith(text, "min") then None
    else
      var parts := Split(text[..|text| - 3], 'h');
      if |parts| == 1 && parts[0] != [] && IsDigits(parts[0]) then Some(DigitsValue(parts[0]))
      else if |parts| == 2 && parts[0] != [] && parts[1] != [] && IsDigits(parts[0]) && IsDigits(parts[1])
      then Some(60 * DigitsValue(parts[0]) + DigitsValue(parts[1]))
      else None
  }

  lemma DigitsHaveNoLetter(s: string, c: char)
    requires IsDigits(s) && !IsDigit(c)
    ensures c !in s
  {
  }

  /** A label with an hour part reads back as hours and minutes. */
  lemma ReadHoursAndMinutes(hs: string, ms: string)
    requires hs != [] && ms != [] && IsDigits(hs) && IsDigits(ms)
    ensures ReadDuration(hs + "h" + ms + "min") == Some(60 * DigitsValue(hs) + DigitsValue(ms))
  {
    var text := hs + "h" + ms + "min";
    DigitsHaveNoLetter(hs, 'h');
    DigitsHaveNoLetter(ms, 'h');
    SplitNoSeparator(ms, 'h');
    assert text[..|text| - 3] == hs + ['h'] + ms;
    SplitAfterPiece(hs, 'h', ms);
  }

  /** A label without an hour part reads back as its minutes. */
  lemma ReadMinutesOnly(ms: string)
    requires ms != [] && IsDigits(ms)
    ensures ReadDuration(ms + "min") == Some(DigitsValue(ms))
  {
    var text := ms + "min";
    DigitsHaveNoLetter(ms, 'h');
    SplitNoSeparator(ms, 'h');
    assert text[..|text| - 3] == ms;
  }

  /** From an hour up, the label has an hour part and reads back whole. */
  lemma HoursRoundTrip(minutes: nat)
    requires minutes >= 60
    ensures ReadDuration(MinutesLabel(minutes)) == Some(minutes)
  {
    var hs, ms := NatToString(minutes / 60), NatToString(minutes % 60);
    assert MinutesLabel(minutes) == hs + "h" + ms + "min";
    ReadHoursAndMinutes(hs, ms);
  }

  lemma SmallRemainder(n: nat, m: nat)
    requires n < m
    ensures n % m == n
  {
  }

  lemma EmptyPrefix(s: string)
    ensures "" + s == s
  {
  }

  /** Under an hour, the label is the minutes alone. */
  lemma ShortRoundTrip(minutes: nat)
    requires minutes < 60
    ensures ReadDuration(MinutesLabel(minutes)) == Some(minutes)
  {
    SmallRemainder(minutes, 60);
    var ms := NatToString(minutes);
    EmptyPrefix(ms);
    assert MinutesLabel(minutes) == ms + "min";
    ReadMinutesOnly(ms);
  }

  /** Any number of minutes written as a label reads back as itself. */
  lemma MinutesRoundTrip(minutes: nat)
    ensures ReadDuration(MinutesLabel(minutes)) == Some(minutes)
  {
    if minutes >= 60 {
      HoursRoundTrip(minutes);
    } else {
      ShortRoundTrip(minutes);
    }
  }

  /**
   * "<m>min" with m under 60, or "<h>h<m>min" with h at least 1 and m under
   * 60, every number written without leading zeros.
   */
  predicate WellFormedLabel(text: string) {
    EndsWith(text, "min") &&
    var parts := Split(text[..|text| - 3], 'h');
    (|parts| == 1 && CanonicalDigits(parts[0]) && DigitsValue(parts[0]) < 60) ||
    (|parts| == 2 && CanonicalDigits(parts[0]) && DigitsValue(parts[0]) >= 1 &&
     CanonicalDigits(parts[1]) && DigitsValue(parts[1]) < 60)
  }

  lemma HoursAndMinutes(h: nat, m: nat)
    requires m < 60
    ensures (60 * h + m) / 60 == h && (60 * h + m) % 60 == m
  {
  }

  /** "<h>h<m>min" with well-formed numbers is a well-formed label with an hour part. */
  lemma HoursLabelWellFormed(hs: string, ms: string)
    requires CanonicalDigits(hs) && DigitsValue(hs) >= 1 && CanonicalDigits(ms) && DigitsValue(ms) < 60
    ensures WellFormedLabel(hs + "h" + ms + "min") && 'h' in hs + "h" + ms + "min"
  {
    var text := hs + "h" + ms + "min";
    DigitsHaveNoLetter(hs, 'h');
    DigitsHaveNoLetter(ms, 'h');
    SplitNoSeparator(ms, 'h');
    assert text[|text| - 3..] == "min";
    assert text[..|text| - 3] == hs + ['h'] + ms;
    SplitAfterPiece(hs, 'h', ms);
    assert text[|hs|] == 'h';
  }

  /** "<m>min" with a well-formed number under 60 is a well-formed label without an hour part. */
  lemma MinutesOnlyWellFormed(ms: string)
    requires CanonicalDigits(ms) && DigitsValue(ms) < 60
    ensures WellFormedLabel(ms + "min") && 'h' !in ms + "min"
  {
    var text := ms + "min";
    DigitsHaveNoLetter(ms, 'h');
    SplitNoSeparator(ms, 'h');
    assert text[|text| - 3..] == "min";
    assert text[..|text| - 3] == ms;
    assert forall i :: 0 <= i < |text| ==> text[i] != 'h' by {
      forall i | 0 <= i < |text| ensures text[i] != 'h' {
        if i < |ms| {
          assert text[i] == ms[i];
        } else {
          assert text[i] == "min"[i - |ms|];
        }
      }
    }
  }

  /** Every label is well formed, and has an hour part exactly from an hour up. */
  lemma MinutesLabelWellFormed(minutes: nat)
    ensures WellFormedLabel(MinutesLabel(minutes))
    ensures 'h' in MinutesLabel(minutes) <==> minutes >= 60
  {
    var m := minutes % 60;
    var ms := NatToString(m);
    NatToStringCanonical(m);
    if minutes >= 60 {
      var hs := NatToString(minutes / 60);
      NatToStringCanonical(minutes / 60);
      assert MinutesLabel(minutes) == hs + "h" + ms + "min";
      HoursLabelWellFormed(hs, ms);
    } else {
      SmallRemainder(minutes, 60);
      EmptyPrefix(ms);
      assert MinutesLabel(minutes) == ms + "min";
      MinutesOnlyWellFormed(ms);
    }
  }

  /** Minutes under an hour written without leading zeros are their own label. */
  lemma MinutesPieceLabel(ms: string)
    requires CanonicalDigits(ms) && DigitsValue(ms) < 60
    ensures MinutesLabel(DigitsValue(ms)) == ms + "min"
  {
    CanonicalDigitsRoundTrip(ms);
    SmallRemainder(DigitsValue(ms), 60);
    EmptyPrefix(ms);
  }

  /** Hours and minutes written without leading zeros are the label of their total. */
  lemma HoursPiecesLabel(hs: string, ms: string)
    requires CanonicalDigits(hs) && DigitsValue(hs) >= 1 && CanonicalDigits(ms) && DigitsValue(ms) < 60
    ensures MinutesLabel(60 * DigitsValue(hs) + DigitsValue(ms)) == hs + "h" + ms + "min"
  {
    var h, m := DigitsValue(hs), DigitsValue(ms);
    HoursAndMinutes(h, m);
    CanonicalDigitsRoundTrip(hs);
    CanonicalDigitsRoundTrip(ms);
    LabelOfHours(60 * h + m, h, m);
  }

  lemma LabelOfHours(n: nat, h: nat, m: nat)
    requires n >= 60 && n / 60 == h && n % 60 == m
    ensures MinutesLabel(n) == NatToString(h) + "h" + NatToString(m) + "min"
  {
  }

  /** A well-formed text that reads back as a number of minutes is that number's label. */
  lemma WellFormedLabelUnique(text: string, minutes: nat)
    requires WellFormedLabel(text) && ReadDuration(text) == Some(minutes)
    ensures text == MinutesLabel(minutes)
  {
    var body := text[..|text| - 3];
    var parts := Split(body, 'h');
    assert text == body + "min";
    if |parts| == 1 {
      assert body == parts[0] by {
        JoinSplit(body, 'h');
      }
      MinutesPieceLabel(parts[0]);
    } else {
      assert body == parts[0] + ['h'] + parts[1] by {
        JoinSplit(body, 'h');
        assert Join(parts[1..], 'h') == parts[1];
      }
      HoursPiecesLabel(parts[0], parts[1]);
    }
  }

  // ---------------------------------------------------------------------------
  // element id and the re-render test

  /**
   * `slotId`: "<labId>-<English day>-<time>" with its first ":" turned into
   * "-", lower-cased. A day the table lacks prints as "undefined". When the
   * id and the day have no ":", the ":" replaced is the time's.
   */
  function SlotId(labId: string, englishDay: Option<string>, time: string): (r: string)
    ensures ':' !in labId && ':' !in englishDay.GetOr("undefined") ==>
              r == AsciiLower(labId + "-" + englishDay.GetOr("undefined") + "-" + ReplaceFirst(time, ":", "-"))
  {
    var prefix := labId + "-" + englishDay.GetOr("undefined") + "-";
    var id := AsciiLower(ReplaceFirst(prefix + time, ":", "-"));
    if ':' !in prefix then
      ReplaceFirstPastFree(prefix, time, ':', "-");
      id
    else
      id
  }

  /** For an "HH:MM" time and an id and day without ":", the id is "<labid>-<day>-HH-MM" in lower case. */
  lemma SlotIdOfClockTime(labId: string, day: string, hh: string, mm: string)
    requires ':' !in labId && ':' !in day && ':' !in hh
    ensures SlotId(labId, Some(day), hh + ":" + mm) == AsciiLower(labId + "-" + day + "-" + hh + "-" + mm)
  {
    var a := labId + "-" + day + "-" + hh;
    var s := a + ":" + mm;
    forall j | 0 <= j < |a| ensures !OccursAt(s, ":", j) {
      assert s[j] == a[j];
      if j < |labId| {
        assert a[j] == labId[j] && labId[j] in labId;
      } else if j == |labId| {
        assert a[j] == '-';
      } else if j < |labId| + 1 + |day| {
        assert a[j] == day[j - |labId| - 1] && day[j - |labId| - 1] in day;
      } else if j == |labId| + 1 + |day| {
        assert a[j] == '-';
      } else {
        assert a[j] == hh[j - |labId| - |day| - 2] && hh[j - |labId| - |day| - 2] in hh;
      }
    }
    assert labId + "-" + Some(day).GetOr("undefined") + "-" + (hh + ":" + mm) == a + ":" + mm;
    ReplaceFirstAfter(a, ":", mm, "-");
    assert a + "-" + mm == labId + "-" + day + "-" + hh + "-" + mm;
  }

  /** The props the re-render test compares. */
  datatype Props = Props(day: string, time: string, labId: string, week: int, slot: Option<Slot>,
                         mergeTop: bool, mergeBottom: bool, groupHeight: int)

  /**
   * The memo comparator: the cell is not redrawn when both renderings are
   * free at the same place, or when place, merges, height and booking (deep
   * equality) all agree.
   */
  function PropsEqual(prev: Props, next: Props): (r: bool)
    ensures r ==> prev.day == next.day && prev.time == next.time && prev.labId == next.labId && prev.week == next.week
    ensures r ==> prev.slot == next.slot
  {
    (prev.slot.None? && next.slot.None? && prev.day == next.day && prev.time == next.time
     && prev.labId == next.labId && prev.week == next.week)
    || (prev.day == next.day && prev.time == next.time && prev.labId == next.labId && prev.week == next.week
        && prev.mergeTop == next.mergeTop && prev.mergeBottom == next.mergeBottom
        && prev.groupHeight == next.groupHeight && prev.slot == next.slot)
  }

  /** The comparator is reflexive and symmetric; a booked cell is redrawn when its height or merges change. */
  lemma PropsEqualProperties(p: Props, q: Props)
    ensures PropsEqual(p, p)
    ensures PropsEqual(p, q) == PropsEqual(q, p)
    ensures p.slot.Some? && PropsEqual(p, q) ==> p.groupHeight == q.groupHeight && p.mergeTop == q.mergeTop && p.mergeBottom == q.mergeBottom
  {
  }

  /**
   * Two free renderings are equal exactly when they are at the same place,
   * whatever their merges and height; a booked rendering is equal only to an
   * identical one.
   */
  lemma PropsEqualExactly(p: Props, q: Props)
    ensures p.slot.None? && q.slot.None? ==>
              (PropsEqual(p, q) <==> p.day == q.day && p.time == q.time && p.labId == q.labId && p.week == q.week)
    ensures p.slot.Some? ==> (PropsEqual(p, q) <==> p == q)
  {
  }
}
