/**
 * The weekly grid of one environment: adjacent time slots holding the same
 * booking are merged into one taller cell, break periods are disabled, and on
 * a narrow screen one day column is shown at a time, rotated by two buttons.
 */
module TimeTable {
  import opened Optional
  import opened JsString
  import opened ScheduleMap
  import Utils

  /**
   * `isEqualSlot`: two cells hold the same booking when both are booked with
   * the same activity by the same owner address.
   */
  function IsEqualSlot(a: Option<Slot>, b: Option<Slot>): (r: bool)
    ensures r ==> a.Some? && b.Some? && a.value.activity == b.value.activity && a.value.user.email == b.value.user.email
  {
    a.Some? && b.Some? && a.value.activity == b.value.activity && a.value.user.email == b.value.user.email
  }

  /** Only activity and owner address matter: details, owner name, booking time and the sync flag do not. */
  lemma IsEqualSlotIgnoresRest(a: Slot, b: Slot)
    requires a.activity == b.activity && a.user.email == b.user.email
    ensures IsEqualSlot(Some(a), Some(b)) && IsEqualSlot(Some(a), Some(a))
    ensures forall c :: IsEqualSlot(Some(a), c) <==> IsEqualSlot(Some(b), c)
  {
  }

  /** A different activity or a different owner address makes two bookings unequal. */
  lemma DifferentBookingsDiffer(a: Slot, b: Slot)
    requires a.activity != b.activity || a.user.email != b.user.email
    ensures !IsEqualSlot(Some(a), Some(b))
  {
  }

  /** The relation is symmetric and transitive; a free cell equals nothing. */
  lemma IsEqualSlotProperties(a: Option<Slot>, b: Option<Slot>, c: Option<Slot>)
    ensures IsEqualSlot(a, b) == IsEqualSlot(b, a)
    ensures IsEqualSlot(a, b) && IsEqualSlot(b, c) ==> IsEqualSlot(a, c)
    ensures !IsEqualSlot(None, a) && !IsEqualSlot(a, None)
  {
  }

  /** A merged cell: the indices `start..end` of the time-slot list. */
  datatype Group = Group(start: int, end: int)

  /** `groups` covers `0..n-1` in order with non-empty, contiguous groups. */
  predicate Tiling(groups: seq<Group>, n: int) {
    |groups| >= 1 && groups[0].start == 0 && groups[|groups| - 1].end == n - 1
    && (forall k :: 0 <= k < |groups| ==> groups[k].start <= groups[k].end)
    && (forall k :: 0 <= k < |groups| - 1 ==> groups[k + 1].start == groups[k].end + 1)
  }

  /** Every cell in `start + 1..end` holds the same booking as the one before it. */
  predicate SameRun(cells: seq<Option<Slot>>, start: int, end: int)
    requires 0 <= start && end < |cells|
  {
    forall j :: start < j <= end ==> IsEqualSlot(cells[j], cells[j - 1])
  }

  /** Index `i` begins a merged cell: it is the first, or differs from the cell before. */
  predicate Breaks(cells: seq<Option<Slot>>, i: int)
    requires 0 <= i < |cells|
  {
    i == 0 || !IsEqualSlot(cells[i], cells[i - 1])
  }

  /** Each group is a maximal run of equal bookings. */
  predicate MaximalRuns(cells: seq<Option<Slot>>, groups: seq<Group>)
  {
    forall k :: 0 <= k < |groups| ==>
      0 <= groups[k].start <= groups[k].end < |cells|
      && SameRun(cells, groups[k].start, groups[k].end) && Breaks(cells, groups[k].start)
  }

  /** The groups closed so far tile `0..next-1` with maximal runs (none yet when `next` is 0). */
  predicate ClosedGroups(cells: seq<Option<Slot>>, groups: seq<Group>, next: int) {
    (if groups == [] then next == 0 else Tiling(groups, next)) && MaximalRuns(cells, groups)
  }

  /** Closing the run `start..end` that follows the closed groups keeps them a tiling of maximal runs. */
  lemma CloseGroup(cells: seq<Option<Slot>>, groups: seq<Group>, start: int, end: int)
    requires ClosedGroups(cells, groups, start) && 0 <= start <= end < |cells|
    requires SameRun(cells, start, end) && Breaks(cells, start)
    ensures ClosedGroups(cells, groups + [Group(start, end)], end + 1)
  {
    var g := groups + [Group(start, end)];
    assert forall k :: 0 <= k < |groups| ==> g[k] == groups[k];
  }

  /**
   * The state of the scan before index `i`: the closed groups tile
   * `0..current-1`, and `current..i-1` is an open run that begins a group.
   */
  predicate Scanning(cells: seq<Option<Slot>>, groups: seq<Group>, current: int, i: int) {
    0 <= current < i <= |cells| && ClosedGroups(cells, groups, current)
    && SameRun(cells, current, i - 1) && Breaks(cells, current)
  }

  /** One iteration: a differing cell closes the open run and opens a new one; an equal cell extends it. */
  lemma ScanStep(cells: seq<Option<Slot>>, groups: seq<Group>, current: int, i: int)
    requires Scanning(cells, groups, current, i) && i < |cells|
    ensures !IsEqualSlot(cells[i], cells[i - 1]) ==> Scanning(cells, groups + [Group(current, i - 1)], i, i + 1)
    ensures IsEqualSlot(cells[i], cells[i - 1]) ==> Scanning(cells, groups, current, i + 1)
  {
    if !IsEqualSlot(cells[i], cells[i - 1]) {
      CloseGroup(cells, groups, current, i - 1);
    }
  }

  /** After the scan, closing the open run completes the tiling. */
  lemma ScanEnd(cells: seq<Option<Slot>>, groups: seq<Group>, current: int)
    requires Scanning(cells, groups, current, |cells|)
    ensures Tiling(groups + [Group(current, |cells| - 1)], |cells|)
    ensures MaximalRuns(cells, groups + [Group(current, |cells| - 1)])
  {
    CloseGroup(cells, groups, current, |cells| - 1);
  }

  /**
   * `getSlotGroups` on the cells of one day, one per time slot: a new group
   * begins at every index whose cell differs from the one before, and the
   * last group is closed at the final index.
   */
  method GetSlotGroups(cells: seq<Option<Slot>>) returns (groups: seq<Group>)
    requires |cells| >= 1
    ensures Tiling(groups, |cells|)
    ensures MaximalRuns(cells, groups)
  {
    groups := [];
    var currentGroupStart := 0;
    for i := 1 to |cells|
      invariant Scanning(cells, groups, currentGroupStart, i)
    {
      ScanStep(cells, groups, currentGroupStart, i);
      if !IsEqualSlot(cells[i], cells[i - 1]) {
        groups := groups + [Group(currentGroupStart, i - 1)];
        currentGroupStart := i;
      }
    }
    ScanEnd(cells, groups, currentGroupStart);
    groups := groups + [Group(currentGroupStart, |cells| - 1)];
  }

  /** In a tiling, every index lies in exactly one group. */
  lemma {:induction false} TilingCovers(groups: seq<Group>, n: int, i: int)
    requires Tiling(groups, n) && 0 <= i < n
    ensures exists k :: 0 <= k < |groups| && groups[k].start <= i <= groups[k].end
    ensures forall k, l :: (0 <= k < |groups| && 0 <= l < |groups| && groups[k].start <= i <= groups[k].end
                            && groups[l].start <= i <= groups[l].end) ==> k == l
    decreases |groups|
  {
    if |groups| > 1 {
      var init := groups[..|groups| - 1];
      TilingOrdered(groups, n);
      if i <= groups[|groups| - 2].end {
        assert Tiling(init, groups[|groups| - 2].end + 1);
        TilingCovers(init, groups[|groups| - 2].end + 1, i);
        var k :| 0 <= k < |init| && init[k].start <= i <= init[k].end;
        assert groups[k] == init[k];
      } else {
        assert groups[|groups| - 1].start <= i;
      }
    }
  }

  /** Later groups lie strictly after earlier ones. */
  lemma TilingOrdered(groups: seq<Group>, n: int)
    requires Tiling(groups, n)
    ensures forall k, l :: 0 <= k < l < |groups| ==> groups[k].end < groups[l].start
  {
    forall k, l | 0 <= k < l < |groups| ensures groups[k].end < groups[l].start {
      TilingStep(groups, n, k, l);
    }
  }

  lemma {:induction false} TilingStep(groups: seq<Group>, n: int, k: int, l: int)
    requires Tiling(groups, n) && 0 <= k < l < |groups|
    ensures groups[k].end < groups[l].start
    decreases l - k
  {
    if l > k + 1 {
      TilingStep(groups, n, k, l - 1);
    }
  }

  /**
   * For a tiling of maximal runs, a group begins at index `i` exactly when
   * `i` is the first index or its cell differs from the one before.
   */
  lemma GroupStartsExactlyAtBreaks(cells: seq<Option<Slot>>, groups: seq<Group>, i: int)
    requires Tiling(groups, |cells|) && MaximalRuns(cells, groups) && 0 <= i < |cells|
    ensures (exists k :: 0 <= k < |groups| && groups[k].start == i) <==> Breaks(cells, i)
  {
    TilingCovers(groups, |cells|, i);
    var k :| 0 <= k < |groups| && groups[k].start <= i <= groups[k].end;
    if groups[k].start < i {
      assert IsEqualSlot(cells[i], cells[i - 1]);
      forall l | 0 <= l < |groups| ensures groups[l].start != i {
      }
    }
  }

  /** A free cell is a group of its own. */
  lemma EmptyCellIsSingleton(cells: seq<Option<Slot>>, groups: seq<Group>, k: int, i: int)
    requires Tiling(groups, |cells|) && MaximalRuns(cells, groups)
    requires 0 <= k < |groups| && groups[k].start <= i <= groups[k].end && cells[i].None?
    ensures groups[k].start == i == groups[k].end
  {
    assert groups[k].start < i ==> IsEqualSlot(cells[i], cells[i - 1]);
    assert i < groups[k].end ==> IsEqualSlot(cells[i + 1], cells[i]);
  }

  /** The height of a merged cell, in slots. */
  function GroupHeight(g: Group): int {
    g.end - g.start + 1
  }

  function TotalHeight(groups: seq<Group>): int
    decreases |groups|
  {
    if groups == [] then 0 else TotalHeight(groups[..|groups| - 1]) + GroupHeight(groups[|groups| - 1])
  }

  /** The heights of the merged cells add up to the number of time slots. */
  lemma {:induction false} HeightsFillColumn(groups: seq<Group>, n: int)
    requires Tiling(groups, n)
    ensures TotalHeight(groups) == n
    decreases |groups|
  {
    if |groups| > 1 {
      var init := groups[..|groups| - 1];
      assert Tiling(init, groups[|groups| - 2].end + 1);
      HeightsFillColumn(init, groups[|groups| - 2].end + 1);
    }
  }

  /** `schedule?.[week]?.[labId]?.[day]?.[time]`: the booking there, if any. */
  function Lookup(schedule: Option<YearSchedule>, week: int, lab: string, day: string, time: string): Option<Slot> {
    if schedule.Some? then Get(schedule.value, SlotKey(week, lab, day, time)) else None
  }

  /** The booking a day column shows at each time of the catalogue. */
  function DayCells(schedule: Option<YearSchedule>, week: int, lab: string, day: string): (r: seq<Option<Slot>>)
    ensures |r| == |Utils.TimeSlots|
    ensures forall i :: 0 <= i < |r| ==> r[i] == Lookup(schedule, week, lab, day, Utils.TimeSlots[i].time)
  {
    seq(|Utils.TimeSlots|, i requires 0 <= i < |Utils.TimeSlots| => Lookup(schedule, week, lab, day, Utils.TimeSlots[i].time))
  }

  /**
   * `getSlotGroups(day)` as the page calls it, on the document's bookings of
   * one day column: the groups tile the catalogue, and a group starts at a
   * time exactly when it is the first time or its booking and the previous
   * time's booking are not the same activity by the same owner (or either
   * is free).
   */
  method DaySlotGroups(schedule: Option<YearSchedule>, week: int, lab: string, day: string) returns (groups: seq<Group>)
    ensures Tiling(groups, |Utils.TimeSlots|)
    ensures forall i :: 0 <= i < |Utils.TimeSlots| ==>
              ((exists k :: 0 <= k < |groups| && groups[k].start == i) <==>
               i == 0 || !IsEqualSlot(Lookup(schedule, week, lab, day, Utils.TimeSlots[i].time),
                                      Lookup(schedule, week, lab, day, Utils.TimeSlots[i - 1].time)))
  {
    Utils.TimeSlotsIncreasing();
    var cells := DayCells(schedule, week, lab, day);
    groups := GetSlotGroups(cells);
    forall i | 0 <= i < |Utils.TimeSlots|
      ensures (exists k :: 0 <= k < |groups| && groups[k].start == i) <==>
              i == 0 || !IsEqualSlot(Lookup(schedule, week, lab, day, Utils.TimeSlots[i].time),
                                     Lookup(schedule, week, lab, day, Utils.TimeSlots[i - 1].time))
    {
      GroupStartsExactlyAtBreaks(cells, groups, i);
    }
  }

  /** A rendered merged cell. */
  datatype Cell = Cell(time: string, slot: Option<Slot>, height: int, disabled: bool, mergeTop: bool, mergeBottom: bool)

  /** A slot is disabled exactly when its period names a break. */
  predicate Disabled(entry: Utils.TimeSlotEntry) {
    Contains(entry.period, "break")
  }

  /**
   * The cell drawn for a group: only the booking at the group's first time is
   * looked up; it is as tall as the group and merges upward or downward only
   * when booked and not at the column's end.
   */
  function RenderGroup(cells: seq<Option<Slot>>, g: Group): (c: Cell)
    requires |cells| == |Utils.TimeSlots| && 0 <= g.start <= g.end < |cells|
    ensures c.slot == cells[g.start] && c.time == Utils.TimeSlots[g.start].time
    ensures c.height == GroupHeight(g) >= 1
    ensures c.disabled <==> Contains(Utils.TimeSlots[g.start].period, "break")
    ensures c.mergeTop <==> c.slot.Some? && g.start > 0
    ensures c.mergeBottom <==> c.slot.Some? && g.end < |cells| - 1
  {
    var entry := Utils.TimeSlots[g.start];
    Cell(entry.time, cells[g.start], GroupHeight(g), Disabled(entry),
         cells[g.start].Some? && g.start > 0, cells[g.start].Some? && g.end < |cells| - 1)
  }

  lemma BreakPeriods()
    ensures Contains("morning-break", "break") && Contains("afternoon-break", "break")
  {
    assert "morning-break"[8..13] == "break";
    assert OccursAt("morning-break", "break", 8);
    assert "afternoon-break"[10..15] == "break";
    assert OccursAt("afternoon-break", "break", 10);
  }

  lemma BreakFreePeriod(p: string)
    requires 'k' !in p
    ensures !Contains(p, "break")
  {
    forall j | 0 <= j ensures !OccursAt(p, "break", j) {
      if j + 5 <= |p| {
        assert p[j..j + 5][4] == p[j + 4];
        assert p[j + 4] in p;
      }
    }
  }

  /** Every entry of `block` has period `p`. */
  predicate AllInPeriod(block: seq<Utils.TimeSlotEntry>, p: string) {
    forall e | e in block :: e.period == p
  }

  lemma MorningPeriod() ensures AllInPeriod(Utils.MorningSlots, "morning") {
  }

  lemma MorningBreakPeriod() ensures AllInPeriod(Utils.MorningBreakSlots, "morning-break") {
  }

  lemma AfternoonPeriod() ensures AllInPeriod(Utils.AfternoonSlots, "afternoon") {
  }

  lemma AfternoonBreakPeriod() ensures AllInPeriod(Utils.AfternoonBreakSlots, "afternoon-break") {
  }

  lemma EveningPeriod() ensures AllInPeriod(Utils.EveningSlots, "evening") {
  }

  /** An index of a concatenation falls in the first or the second part. */
  lemma ConcatIndex(a: seq<Utils.TimeSlotEntry>, b: seq<Utils.TimeSlotEntry>, i: int)
    requires 0 <= i < |a| + |b|
    ensures (a + b)[i] == if i < |a| then a[i] else b[i - |a|]
    ensures (a + b)[i] in (if i < |a| then a else b)
  {
  }

  /** The period of the entry at index `i` of five blocks is its block's period. */
  lemma PeriodAt(m: seq<Utils.TimeSlotEntry>, mb: seq<Utils.TimeSlotEntry>, a: seq<Utils.TimeSlotEntry>,
                 ab: seq<Utils.TimeSlotEntry>, e: seq<Utils.TimeSlotEntry>, i: int)
    requires AllInPeriod(m, "morning") && AllInPeriod(mb, "morning-break") && AllInPeriod(a, "afternoon")
    requires AllInPeriod(ab, "afternoon-break") && AllInPeriod(e, "evening")
    requires 0 <= i < |m| + |mb| + |a| + |ab| + |e|
    ensures (m + mb + a + ab + e)[i].period ==
              if i < |m| then "morning"
              else if i < |m| + |mb| then "morning-break"
              else if i < |m| + |mb| + |a| then "afternoon"
              else if i < |m| + |mb| + |a| + |ab| then "afternoon-break"
              else "evening"
  {
    ConcatIndex(m + mb + a + ab, e, i);
    if i < |m + mb + a + ab| {
      ConcatIndex(m + mb + a, ab, i);
      if i < |m + mb + a| {
        ConcatIndex(m + mb, a, i);
        if i < |m + mb| {
          ConcatIndex(m, mb, i);
        }
      }
    }
  }

  /** Of the five periods, only the two breaks disable their slots. */
  lemma DisabledOfPeriod(x: Utils.TimeSlotEntry)
    requires x.period in ["morning", "morning-break", "afternoon", "afternoon-break", "evening"]
    ensures Disabled(x) <==> x.period == "morning-break" || x.period == "afternoon-break"
  {
    BreakPeriods();
    if x.period == "morning" {
      BreakFreePeriod("morning");
    } else if x.period == "afternoon" {
      BreakFreePeriod("afternoon");
    } else if x.period == "evening" {
      BreakFreePeriod("evening");
    }
  }

  /** The entry at index `i` of five blocks is disabled exactly in the two break blocks. */
  lemma DisabledAt(m: seq<Utils.TimeSlotEntry>, mb: seq<Utils.TimeSlotEntry>, a: seq<Utils.TimeSlotEntry>,
                   ab: seq<Utils.TimeSlotEntry>, e: seq<Utils.TimeSlotEntry>, i: int)
    requires AllInPeriod(m, "morning") && AllInPeriod(mb, "morning-break") && AllInPeriod(a, "afternoon")
    requires AllInPeriod(ab, "afternoon-break") && AllInPeriod(e, "evening")
    requires 0 <= i < |m| + |mb| + |a| + |ab| + |e|
    ensures Disabled((m + mb + a + ab + e)[i]) <==>
              |m| <= i < |m| + |mb| || |m| + |mb| + |a| <= i < |m| + |mb| + |a| + |ab|
  {
    PeriodAt(m, mb, a, ab, e, i);
    DisabledOfPeriod((m + mb + a + ab + e)[i]);
  }

  /** In five blocks of periods morning, morning break, afternoon, afternoon break and evening, only the break blocks are disabled. */
  lemma DisabledBlocks(m: seq<Utils.TimeSlotEntry>, mb: seq<Utils.TimeSlotEntry>, a: seq<Utils.TimeSlotEntry>,
                       ab: seq<Utils.TimeSlotEntry>, e: seq<Utils.TimeSlotEntry>)
    requires AllInPeriod(m, "morning") && AllInPeriod(mb, "morning-break") && AllInPeriod(a, "afternoon")
    requires AllInPeriod(ab, "afternoon-break") && AllInPeriod(e, "evening")
    ensures var t := m + mb + a + ab + e;
      forall i :: 0 <= i < |t| ==>
        (Disabled(t[i]) <==> |m| <= i < |m| + |mb| || |m| + |mb| + |a| <= i < |m| + |mb| + |a| + |ab|)
  {
    var t := m + mb + a + ab + e;
    forall i | 0 <= i < |t|
      ensures Disabled(t[i]) <==> |m| <= i < |m| + |mb| || |m| + |mb| + |a| <= i < |m| + |mb| + |a| + |ab|
    {
      DisabledAt(m, mb, a, ab, e, i);
    }
  }

  /** Exactly the two break blocks of the catalogue (indices 14-18 and 25-30) are disabled. */
  lemma DisabledSlots()
    ensures forall i :: 0 <= i < |Utils.TimeSlots| ==> (Disabled(Utils.TimeSlots[i]) <==> 14 <= i < 19 || 25 <= i < 31)
  {
    MorningPeriod();
    MorningBreakPeriod();
    AfternoonPeriod();
    AfternoonBreakPeriod();
    EveningPeriod();
    DisabledBlocks(Utils.MorningSlots, Utils.MorningBreakSlots, Utils.AfternoonSlots, Utils.AfternoonBreakSlots, Utils.EveningSlots);
  }

  // ---------------------------------------------------------------------------
  // the visible day column on narrow screens

  /** JavaScript's `%`: the remainder takes the sign of the dividend. */
  function JsRemainder(a: int, b: int): (r: int)
    requires b > 0
    ensures a >= 0 ==> 0 <= r < b && r == a % b
    ensures a < 0 ==> -b < r <= 0
    ensures (a - r) % b == 0
  {
    TruncatedRemainder(if a >= 0 then a else -a, b);
    if a >= 0 then a % b else -((-a) % b)
  }

  /** Taking away its remainder leaves a multiple of the divisor, negated or not. */
  lemma TruncatedRemainder(n: nat, b: int)
    requires b > 0
    ensures (n - n % b) % b == 0
    ensures (n % b - n) % b == 0
  {
    var q := n / b;
    assert n - n % b == b * q;
    assert n % b - n == b * (-q);
    MultipleRemainder(q, b);
    MultipleRemainder(-q, b);
  }

  lemma MultipleRemainder(k: int, b: int)
    requires b > 0
    ensures (b * k) % b == 0
  {
    var d := k - (b * k) / b;
    assert (b * k) % b == b * d;
    ProductGap(b, d);
  }

  /** A nonzero multiple of a positive number is at least that number away from zero. */
  lemma ProductGap(b: int, d: int)
    requires b > 0
    ensures d == 0 || b * d >= b || b * d <= -b
  {
    if d >= 1 {
      assert b * d >= b * 1;
    } else if d <= -1 {
      assert b * d <= b * -1;
    }
  }

  /** `nextDayToShow`: one column to the right, from the sixth back to the first. */
  function NextDayToShow(prev: int): (r: int)
    ensures 1 <= r <= 6
  {
    var newValue := JsRemainder(prev + 1, 6);
    if newValue > 0 then newValue else 6
  }

  /** `prevDayToShow`: one column to the left, from the first round to the sixth. */
  function PrevDayToShow(prev: int): (r: int)
    ensures 1 <= r <= 6
  {
    var newValue := JsRemainder(prev - 1, 6);
    if newValue > 0 then newValue else 6
  }

  /** Forward maps 1..4 to the next column, 5 to 6 and 6 to 1; back maps 1 to 6 and 2..6 to the previous one. */
  lemma DayRotationSteps(c: int)
    requires 1 <= c <= 6
    ensures NextDayToShow(c) == if c == 6 then 1 else c + 1
    ensures PrevDayToShow(c) == if c == 1 then 6 else c - 1
  {
  }

  /** Within the six columns, each rotation undoes the other. */
  lemma DayRotationInverse(c: int)
    requires 1 <= c <= 6
    ensures PrevDayToShow(NextDayToShow(c)) == c
    ensures NextDayToShow(PrevDayToShow(c)) == c
  {
    DayRotationSteps(c);
    DayRotationSteps(NextDayToShow(c));
    DayRotationSteps(PrevDayToShow(c));
  }
}
