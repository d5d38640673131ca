/**
 * The schedule engine behind the booking grid: it loads the booking rows of
 * the `environment_schedule` table into the nested schedule document
 * (projecting the commission's recurring rows onto the displayed week),
 * falls back on the saved copy, writes and deletes single slots, and mirrors
 * those edits to the database.
 */
module UseSchedule {
  import opened Optional
  import opened JsString
  import opened Constants
  import opened ScheduleMap
  import opened ScheduleStorage
  import Utils

  /** A row of the `environment_schedule` table; `details` is `None` for SQL null. */
  datatype Row = Row(environmentId: string, weekNumber: int, dayOfWeek: string, timeSlot: string,
                     activityName: string, userEmail: string, bookingTime: string, details: Option<string>)

  /** The week number that marks a row as a recurring commission booking. */
  const CommissionWeek: int := 100

  /** The owner name shown on every commission booking. */
  const CommissionName: string := "Comissão de Horários"

  /** The message recorded when the database load fails. */
  const LoadError: string := "Failed to load schedule"

  // ---------------------------------------------------------------------------
  // owner names

  /**
   * `extractNameFromEmail`: drop the first "@<institutional domain>", turn the
   * dots of what is left into spaces and title-case it. `titleCase` is the
   * library routine, taken as given. Splitting on "." and joining with " "
   * turns every dot into a space.
   */
  function ExtractName(email: string, titleCase: string -> string): (r: string)
    ensures r == titleCase(Substitute(ReplaceFirst(email, "@" + InstitutionalDomain, ""), '.', ' '))
  {
    var local := ReplaceFirst(email, "@" + InstitutionalDomain, "");
    SplitJoinSubstitutes(local, '.', ' ');
    titleCase(Join(Split(local, '.'), ' '))
  }

  /** For an institutional address, the name is the local part with its dots read as spaces. */
  lemma ExtractNameInstitutional(local: string, titleCase: string -> string)
    requires '@' !in local
    ensures ExtractName(local + "@" + InstitutionalDomain, titleCase) == titleCase(Substitute(local, '.', ' '))
  {
    var pat := "@" + InstitutionalDomain;
    var s := local + pat + "";
    forall j | 0 <= j < |local| ensures !OccursAt(s, pat, j) {
      assert s[j] == local[j] && local[j] in local;
    }
    ReplaceFirstAfter(local, pat, "", "");
    assert s == local + "@" + InstitutionalDomain;
    assert local + "" + "" == local;
  }

  /** Any other address keeps its domain; only its dots become spaces. */
  lemma ExtractNameOther(email: string, titleCase: string -> string)
    requires !Contains(email, "@" + InstitutionalDomain)
    ensures ExtractName(email, titleCase) == titleCase(Substitute(email, '.', ' '))
  {
    ReplaceFirstAbsent(email, "@" + InstitutionalDomain, "");
  }

  /** `details || undefined`: the empty string counts as absent. */
  function Truthy(details: Option<string>): (r: Option<string>)
    ensures r.Some? <==> details.Some? && details.value != ""
    ensures r.Some? ==> r == details
  {
    if details.Some? && details.value != "" then details else None
  }

  /** The address of a row as a slot key. */
  function RowKey(row: Row): SlotKey {
    SlotKey(row.weekNumber, row.environmentId, row.dayOfWeek, row.timeSlot)
  }

  /** The slot a commission row puts in each displayed week. */
  function CommissionSlot(row: Row): Slot {
    Slot(row.activityName, User(row.userEmail, CommissionName), row.bookingTime, Truthy(row.details), true)
  }

  /** The slot an ordinary row puts at its own address. */
  function RegularSlot(row: Row, titleCase: string -> string): Slot {
    Slot(row.activityName, User(row.userEmail, ExtractName(row.userEmail, titleCase)), row.bookingTime, Truthy(row.details), true)
  }

  // ---------------------------------------------------------------------------
  // splitting the rows

  /** The commission rows (week 100), in table order. */
  function Commission(rows: seq<Row>): (r: seq<Row>)
    ensures forall x | x in r :: x in rows && x.weekNumber == CommissionWeek
    ensures |r| <= |rows|
    decreases |rows|
  {
    if rows == [] then []
    else
      var init := Commission(rows[..|rows| - 1]);
      assert forall x | x in rows[..|rows| - 1] :: x in rows;
      if rows[|rows| - 1].weekNumber == CommissionWeek then init + [rows[|rows| - 1]] else init
  }

  /** The ordinary rows (every other week number), in table order. */
  function Regular(rows: seq<Row>): (r: seq<Row>)
    ensures forall x | x in r :: x in rows && x.weekNumber != CommissionWeek
    ensures |r| <= |rows|
    decreases |rows|
  {
    if rows == [] then []
    else
      var init := Regular(rows[..|rows| - 1]);
      assert forall x | x in rows[..|rows| - 1] :: x in rows;
      if rows[|rows| - 1].weekNumber != CommissionWeek then init + [rows[|rows| - 1]] else init
  }

  /** Every row lands in exactly one of the two lists. */
  lemma {:induction false} PartitionKeepsRows(rows: seq<Row>)
    ensures multiset(Commission(rows)) + multiset(Regular(rows)) == multiset(rows)
    decreases |rows|
  {
    if rows != [] {
      PartitionKeepsRows(rows[..|rows| - 1]);
      assert rows == rows[..|rows| - 1] + [rows[|rows| - 1]];
    }
  }

  /** The filter of the load: commission rows are set aside, the others kept, both in order. */
  method Partition(rows: seq<Row>) returns (commission: seq<Row>, regular: seq<Row>)
    ensures commission == Commission(rows) && regular == Regular(rows)
  {
    commission, regular := [], [];
    for i := 0 to |rows|
      invariant commission == Commission(rows[..i]) && regular == Regular(rows[..i])
    {
      assert rows[..i + 1][..i] == rows[..i];
      if rows[i].weekNumber == CommissionWeek {
        commission := commission + [rows[i]];
      } else {
        regular := regular + [rows[i]];
      }
    }
    assert rows[..|rows|] == rows;
  }

  /**
   * The set of weeks commission rows are copied into: the current week, then
   * `getNextWeek(currentWeek)` added `maxWeeksToShow - 1` times. Called
   * without a limit, `getNextWeek` returns its argument, so the set holds the
   * current week alone.
   */
  method DisplayWeeks(currentWeek: int, maxWeeksToShow: int) returns (weeks: seq<int>)
    ensures weeks == [currentWeek]
  {
    weeks := [currentWeek];
    var i := 0;
    while i < maxWeeksToShow - 1
      invariant weeks == [currentWeek]
    {
      var weekNumber := Utils.NextWeek(currentWeek, 0, 0, currentWeek);
      if weekNumber !in weeks {
        weeks := weeks + [weekNumber];
      }
      i := i + 1;
    }
  }

  // ---------------------------------------------------------------------------
  // the loaded document

  /** The writes one commission row makes, one per week, in week order. */
  function WeekWrites(row: Row, weeks: seq<int>): seq<Write>
    decreases |weeks|
  {
    if weeks == [] then []
    else
      var w := weeks[|weeks| - 1];
      WeekWrites(row, weeks[..|weeks| - 1]) + [Write(SlotKey(w, row.environmentId, row.dayOfWeek, row.timeSlot), CommissionSlot(row))]
  }

  /** The writes of all commission rows, row by row. */
  function CommissionWrites(rows: seq<Row>, weeks: seq<int>): seq<Write>
    decreases |rows|
  {
    if rows == [] then [] else CommissionWrites(rows[..|rows| - 1], weeks) + WeekWrites(rows[|rows| - 1], weeks)
  }

  /** The writes of the ordinary rows, each at its own address. */
  function RegularWrites(rows: seq<Row>, titleCase: string -> string): seq<Write>
    decreases |rows|
  {
    if rows == [] then [] else RegularWrites(rows[..|rows| - 1], titleCase) + [Write(RowKey(rows[|rows| - 1]), RegularSlot(rows[|rows| - 1], titleCase))]
  }

  /** The document a non-empty load builds: commission writes first, ordinary rows after. */
  function Loaded(rows: seq<Row>, currentWeek: int, titleCase: string -> string): YearSchedule {
    WriteAll(map[], CommissionWrites(Commission(rows), [currentWeek]) + RegularWrites(Regular(rows), titleCase))
  }

  /** Writing one more displayed week of a commission row is one more `Put`. */
  lemma WeekWritesStep(db: YearSchedule, done: seq<Write>, item: Row, weeks: seq<int>, j: nat)
    requires j < |weeks|
    ensures WriteAll(db, done + WeekWrites(item, weeks[..j + 1])) ==
            Put(WriteAll(db, done + WeekWrites(item, weeks[..j])),
                SlotKey(weeks[j], item.environmentId, item.dayOfWeek, item.timeSlot), CommissionSlot(item))
  {
    var w := Write(SlotKey(weeks[j], item.environmentId, item.dayOfWeek, item.timeSlot), CommissionSlot(item));
    assert weeks[..j + 1][..j] == weeks[..j];
    assert done + WeekWrites(item, weeks[..j + 1]) == (done + WeekWrites(item, weeks[..j])) + [w];
    WriteAllSnoc(db, done + WeekWrites(item, weeks[..j]), w);
  }

  /** Writing one more ordinary row is one more `Put`. */
  lemma RegularWritesStep(db: YearSchedule, regular: seq<Row>, i: nat, titleCase: string -> string)
    requires i < |regular|
    ensures WriteAll(db, RegularWrites(regular[..i + 1], titleCase)) ==
            Put(WriteAll(db, RegularWrites(regular[..i], titleCase)), RowKey(regular[i]), RegularSlot(regular[i], titleCase))
  {
    var w := Write(RowKey(regular[i]), RegularSlot(regular[i], titleCase));
    assert regular[..i + 1][..i] == regular[..i];
    assert RegularWrites(regular[..i + 1], titleCase) == RegularWrites(regular[..i], titleCase) + [w];
    WriteAllSnoc(db, RegularWrites(regular[..i], titleCase), w);
  }

  /** The commission loop: every commission row written into every displayed week. */
  method ProjectCommission(db: YearSchedule, commission: seq<Row>, weeks: seq<int>) returns (r: YearSchedule)
    ensures r == WriteAll(db, CommissionWrites(commission, weeks))
  {
    r := db;
    var i := 0;
    while i < |commission|
      invariant 0 <= i <= |commission|
      invariant r == WriteAll(db, CommissionWrites(commission[..i], weeks))
    {
      var item := commission[i];
      ghost var done := CommissionWrites(commission[..i], weeks);
      assert done + WeekWrites(item, weeks[..0]) == done;
      var j := 0;
      while j < |weeks|
        invariant 0 <= j <= |weeks|
        invariant r == WriteAll(db, done + WeekWrites(item, weeks[..j]))
      {
        WeekWritesStep(db, done, item, weeks, j);
        r := Put(r, SlotKey(weeks[j], item.environmentId, item.dayOfWeek, item.timeSlot), CommissionSlot(item));
        j := j + 1;
      }
      assert weeks[..|weeks|] == weeks;
      assert commission[..i + 1][..i] == commission[..i];
      i := i + 1;
    }
    assert commission[..|commission|] == commission;
  }

  /** The loop over the ordinary rows: each written at its own address, later rows over earlier ones. */
  method AddRegular(db: YearSchedule, regular: seq<Row>, titleCase: string -> string) returns (r: YearSchedule)
    ensures r == WriteAll(db, RegularWrites(regular, titleCase))
  {
    r := db;
    for i := 0 to |regular|
      invariant r == WriteAll(db, RegularWrites(regular[..i], titleCase))
    {
      RegularWritesStep(db, regular, i, titleCase);
      r := Put(r, RowKey(regular[i]), RegularSlot(regular[i], titleCase));
    }
    assert regular[..|regular|] == regular;
  }

  /** Builds the document from the rows of a successful, non-empty query. */
  method BuildSchedule(rows: seq<Row>, currentWeek: int, maxWeeksToShow: int, titleCase: string -> string)
    returns (db: YearSchedule)
    ensures db == Loaded(rows, currentWeek, titleCase)
  {
    var commission, regular := Partition(rows);
    var weeks := DisplayWeeks(currentWeek, maxWeeksToShow);
    db := ProjectCommission(map[], commission, weeks);
    db := AddRegular(db, regular, titleCase);
    WriteAllConcat(map[], CommissionWrites(commission, weeks), RegularWrites(regular, titleCase));
  }

  /** The last row of `rows` at address `k`. */
  function LastRowAt(rows: seq<Row>, k: SlotKey): (r: Option<Row>)
    ensures r.Some? ==> r.value in rows && RowKey(r.value) == k
    decreases |rows|
  {
    if rows == [] then None
    else if RowKey(rows[|rows| - 1]) == k then Some(rows[|rows| - 1])
    else
      var r := LastRowAt(rows[..|rows| - 1], k);
      assert forall x | x in rows[..|rows| - 1] :: x in rows;
      r
  }

  /** The last row of `rows` at environment, day and time, whatever its week. */
  function LastRowAtCell(rows: seq<Row>, lab: string, day: string, time: string): (r: Option<Row>)
    ensures r.Some? ==> r.value in rows && r.value.environmentId == lab && r.value.dayOfWeek == day && r.value.timeSlot == time
    decreases |rows|
  {
    if rows == [] then None
    else
      var x := rows[|rows| - 1];
      if x.environmentId == lab && x.dayOfWeek == day && x.timeSlot == time then Some(x)
      else
        var r := LastRowAtCell(rows[..|rows| - 1], lab, day, time);
        assert forall y | y in rows[..|rows| - 1] :: y in rows;
        r
  }

  lemma {:induction false} RegularWritesLast(rows: seq<Row>, titleCase: string -> string, k: SlotKey)
    ensures LastWrite(RegularWrites(rows, titleCase), k)
         == if LastRowAt(rows, k).Some? then Some(RegularSlot(LastRowAt(rows, k).value, titleCase)) else None
    decreases |rows|
  {
    if rows != [] {
      RegularWritesLast(rows[..|rows| - 1], titleCase, k);
      var ws := RegularWrites(rows, titleCase);
      assert ws[..|ws| - 1] == RegularWrites(rows[..|rows| - 1], titleCase);
    }
  }

  lemma {:induction false} WeekWritesLast(row: Row, weeks: seq<int>, k: SlotKey)
    ensures LastWrite(WeekWrites(row, weeks), k)
         == if k.week in weeks && k.lab == row.environmentId && k.day == row.dayOfWeek && k.time == row.timeSlot
            then Some(CommissionSlot(row)) else None
    decreases |weeks|
  {
    if weeks != [] {
      WeekWritesLast(row, weeks[..|weeks| - 1], k);
      var ws := WeekWrites(row, weeks);
      assert ws[..|ws| - 1] == WeekWrites(row, weeks[..|weeks| - 1]);
      assert weeks == weeks[..|weeks| - 1] + [weeks[|weeks| - 1]];
    }
  }

  lemma {:induction false} CommissionWritesLast(rows: seq<Row>, week: int, k: SlotKey)
    ensures LastWrite(CommissionWrites(rows, [week]), k)
         == if k.week == week && LastRowAtCell(rows, k.lab, k.day, k.time).Some?
            then Some(CommissionSlot(LastRowAtCell(rows, k.lab, k.day, k.time).value)) else None
    decreases |rows|
  {
    if rows != [] {
      var init := rows[..|rows| - 1];
      var x := rows[|rows| - 1];
      CommissionWritesLast(init, week, k);
      LastWriteConcat(CommissionWrites(init, [week]), WeekWrites(x, [week]), k);
      WeekWritesLast(x, [week], k);
    }
  }

  /**
   * What the loaded document holds at an address: the last ordinary row at it;
   * failing that, in the current week, the last commission row at the same
   * environment, day and time; otherwise nothing.
   */
  lemma LoadedLookup(rows: seq<Row>, currentWeek: int, titleCase: string -> string, k: SlotKey)
    ensures Get(Loaded(rows, currentWeek, titleCase), k) ==
      if LastRowAt(Regular(rows), k).Some? then Some(RegularSlot(LastRowAt(Regular(rows), k).value, titleCase))
      else if k.week == currentWeek && LastRowAtCell(Commission(rows), k.lab, k.day, k.time).Some?
      then Some(CommissionSlot(LastRowAtCell(Commission(rows), k.lab, k.day, k.time).value))
      else None
  {
    var a := CommissionWrites(Commission(rows), [currentWeek]);
    var b := RegularWrites(Regular(rows), titleCase);
    WriteAllGet(map[], a + b, k);
    LastWriteConcat(a, b, k);
    RegularWritesLast(Regular(rows), titleCase, k);
    CommissionWritesLast(Commission(rows), currentWeek, k);
  }

  /** The loaded document has no empty container. */
  lemma LoadedTidy(rows: seq<Row>, currentWeek: int, titleCase: string -> string)
    ensures Tidy(Loaded(rows, currentWeek, titleCase))
  {
    WriteAllTidy(map[], CommissionWrites(Commission(rows), [currentWeek]) + RegularWrites(Regular(rows), titleCase));
  }

  /** Every loaded slot is marked as synchronised, and no commission row appears outside the current week. */
  lemma LoadedSlots(rows: seq<Row>, currentWeek: int, titleCase: string -> string, k: SlotKey)
    ensures Get(Loaded(rows, currentWeek, titleCase), k).Some? ==> Get(Loaded(rows, currentWeek, titleCase), k).value.dbSynced
    ensures k.week == CommissionWeek && currentWeek != CommissionWeek ==> Get(Loaded(rows, currentWeek, titleCase), k).None?
  {
    LoadedLookup(rows, currentWeek, titleCase, k);
  }

  // ---------------------------------------------------------------------------
  // removing empty containers

  /** `initializeEmptyYearSchedule`: a document with no slot and no container. */
  function InitializeEmptyYearSchedule(): (r: YearSchedule)
    ensures Tidy(r) && forall k :: Get(r, k).None?
  {
    map[]
  }

  /** Deleting an empty day container changes no lookup. */
  lemma DropEmptyDay(s: YearSchedule, week: int, lab: string, day: string)
    requires HasDay(s, week, lab, day) && s[week][lab][day] == map[]
    ensures forall k :: Get(s[week := s[week][lab := s[week][lab] - {day}]], k) == Get(s, k)
  {
    var r := s[week := s[week][lab := s[week][lab] - {day}]];
    forall k ensures Get(r, k) == Get(s, k) {
      if k.week == week && k.lab == lab && k.day == day {
        assert !HasDay(r, k.week, k.lab, k.day);
      }
    }
  }

  /** Deleting an empty environment container changes no lookup. */
  lemma DropEmptyLab(s: YearSchedule, week: int, lab: string)
    requires week in s && lab in s[week] && s[week][lab] == map[]
    ensures forall k :: Get(s[week := s[week] - {lab}], k) == Get(s, k)
  {
  }

  /** Deleting an empty week container changes no lookup. */
  lemma DropEmptyWeek(s: YearSchedule, week: int)
    requires week in s && s[week] == map[]
    ensures forall k :: Get(s - {week}, k) == Get(s, k)
  {
  }

  /** Deleting a key empties a map exactly when it was the map's only key. */
  lemma OnlyKeyLeft<K, V>(m: map<K, V>, k: K)
    requires k in m
    ensures m - {k} == map[] <==> m.Keys == {k}
  {
    if m.Keys == {k} {
      assert (m - {k}).Keys == {};
    }
    if m - {k} == map[] {
      forall x | x in m ensures x == k {
        assert x == k || x in m - {k};
      }
    }
  }

  /**
   * `r` is `s` with the day container `(week, lab, day)` removed when it is
   * empty, its environment container removed when that day was its only
   * one, and its week container removed when that environment was its only
   * one; every other container is exactly as in `s`.
   */
  predicate CleanedAt(s: YearSchedule, r: YearSchedule, week: int, lab: string, day: string)
    requires HasDay(s, week, lab, day)
  {
    var dayGone := s[week][lab][day] == map[];
    var labGone := dayGone && s[week][lab].Keys == {day};
    var weekGone := labGone && s[week].Keys == {lab};
    r.Keys == s.Keys - (if weekGone then {week} else {}) &&
    (forall w :: w in r && w != week ==> r[w] == s[w]) &&
    (!weekGone ==>
       r[week].Keys == s[week].Keys - (if labGone then {lab} else {}) &&
       (forall l :: l in r[week] && l != lab ==> r[week][l] == s[week][l]) &&
       (!labGone ==> r[week][lab] == s[week][lab] - (if dayGone then {day} else {})))
  }

  /** A non-empty day container is left in place, and with it the whole document. */
  lemma KeepDayCleans(s: YearSchedule, week: int, lab: string, day: string)
    requires HasDay(s, week, lab, day) && s[week][lab][day] != map[]
    ensures CleanedAt(s, s, week, lab, day)
    ensures TidyExceptDay(s, week, lab, day) ==> Tidy(s)
  {
  }

  /** An empty day container that is not its environment's only one goes alone. */
  lemma DropDayCleans(s: YearSchedule, week: int, lab: string, day: string)
    requires HasDay(s, week, lab, day) && s[week][lab][day] == map[] && s[week][lab].Keys != {day}
    ensures CleanedAt(s, s[week := s[week][lab := s[week][lab] - {day}]], week, lab, day)
  {
  }

  lemma DropDayTidy(s: YearSchedule, week: int, lab: string, day: string)
    requires HasDay(s, week, lab, day) && s[week][lab][day] == map[] && s[week][lab].Keys != {day}
    requires TidyExceptDay(s, week, lab, day)
    ensures Tidy(s[week := s[week][lab := s[week][lab] - {day}]])
  {
    var r := s[week := s[week][lab := s[week][lab] - {day}]];
    forall w | w in r
      ensures r[w] != map[]
      ensures forall l | l in r[w] :: r[w][l] != map[] && forall d | d in r[w][l] :: r[w][l][d] != map[]
    {
      if w != week {
        assert r[w] == s[w];
      } else {
        assert lab in r[w];
        forall l | l in r[w]
          ensures r[w][l] != map[] && forall d | d in r[w][l] :: r[w][l][d] != map[]
        {
          if l != lab {
            assert r[w][l] == s[w][l];
          } else {
            OnlyKeyLeft(s[week][lab], day);
            forall d | d in r[w][l] ensures r[w][l][d] != map[] {
              assert d != day && r[w][l][d] == s[w][l][d];
            }
          }
        }
      }
    }
  }

  /** An environment whose only day was the empty one goes, unless it was its week's only one. */
  lemma DropLabCleans(s: YearSchedule, week: int, lab: string, day: string)
    requires HasDay(s, week, lab, day) && s[week][lab][day] == map[] && s[week][lab].Keys == {day}
    requires s[week].Keys != {lab}
    ensures CleanedAt(s, s[week := s[week] - {lab}], week, lab, day)
  {
  }

  lemma DropLabTidy(s: YearSchedule, week: int, lab: string, day: string)
    requires HasDay(s, week, lab, day) && s[week][lab][day] == map[] && s[week][lab].Keys == {day}
    requires s[week].Keys != {lab} && TidyExceptDay(s, week, lab, day)
    ensures Tidy(s[week := s[week] - {lab}])
  {
    var r := s[week := s[week] - {lab}];
    forall w | w in r
      ensures r[w] != map[]
      ensures forall l | l in r[w] :: r[w][l] != map[] && forall d | d in r[w][l] :: r[w][l][d] != map[]
    {
      if w != week {
        assert r[w] == s[w];
      } else {
        OnlyKeyLeft(s[week], lab);
        forall l | l in r[w]
          ensures r[w][l] != map[] && forall d | d in r[w][l] :: r[w][l][d] != map[]
        {
          assert l != lab && r[w][l] == s[w][l];
        }
      }
    }
  }

  /** A week whose only environment held only the empty day goes. */
  lemma DropWeekCleans(s: YearSchedule, week: int, lab: string, day: string)
    requires HasDay(s, week, lab, day) && s[week][lab][day] == map[] && s[week][lab].Keys == {day}
    requires s[week].Keys == {lab}
    ensures CleanedAt(s, s - {week}, week, lab, day)
    ensures TidyExceptDay(s, week, lab, day) ==> Tidy(s - {week})
  {
  }

  /**
   * `cleanEmptyStructures`: when the day container is empty it is deleted,
   * then the environment container if that left it empty, then the week
   * container likewise; nothing else changes, whatever other empty
   * containers the document holds. No slot changes, and a schedule whose
   * only empty container was that day comes out tidy.
   */
  method CleanEmptyStructures(s: YearSchedule, week: int, lab: string, day: string) returns (r: YearSchedule)
    requires HasDay(s, week, lab, day)
    ensures CleanedAt(s, r, week, lab, day)
    ensures forall k :: Get(r, k) == Get(s, k)
    ensures s[week][lab][day] != map[] ==> r == s
    ensures TidyExceptDay(s, week, lab, day) ==> Tidy(r)
    ensures r.Keys <= s.Keys
  {
    r := s;
    if r[week][lab][day] == map[] {
      DropEmptyDay(r, week, lab, day);
      OnlyKeyLeft(s[week][lab], day);
      r := r[week := r[week][lab := r[week][lab] - {day}]];
      if r[week][lab] == map[] {
        DropEmptyLab(r, week, lab);
        OnlyKeyLeft(s[week], lab);
        assert r[week] - {lab} == s[week] - {lab};
        r := r[week := r[week] - {lab}];
        if r[week] == map[] {
          DropEmptyWeek(r, week);
          r := r - {week};
          assert r == s - {week};
          DropWeekCleans(s, week, lab, day);
        } else {
          DropLabCleans(s, week, lab, day);
          if TidyExceptDay(s, week, lab, day) {
            DropLabTidy(s, week, lab, day);
          }
        }
      } else {
        DropDayCleans(s, week, lab, day);
        if TidyExceptDay(s, week, lab, day) {
          DropDayTidy(s, week, lab, day);
        }
      }
    } else {
      KeepDayCleans(s, week, lab, day);
    }
  }

  // ---------------------------------------------------------------------------
  // the engine

  /** The signed-in user; the empty string stands for a missing field. */
  datatype Session = Session(email: string, name: string)

  /** The answer of the load query: an error, or the rows. */
  datatype Fetch = FetchFailed | Fetched(rows: seq<Row>)

  /** The Portuguese day names and their English keys, as the application's day tables give them. */
  datatype DayTable = DayTable(ptBr: seq<string>, toEnglish: map<string, string>)

  /** A Portuguese day name is translated (`None` when the table lacks it); any other name is kept. */
  function TranslateDay(day: string, table: DayTable): (r: Option<string>)
    ensures day !in table.ptBr ==> r == Some(day)
    ensures day in table.ptBr ==> (r.Some? <==> day in table.toEnglish)
  {
    if day in table.ptBr then (if day in table.toEnglish then Some(table.toEnglish[day]) else None) else Some(day)
  }

  /** A missing day used as a property name is the key "undefined". */
  function DayKey(day: Option<string>): string {
    day.GetOr("undefined")
  }

  /** The slot a user books: the session's address, its name falling back on the address, no details, not yet synchronised. */
  function NewSlot(activity: string, session: Session, now: string): Slot {
    Slot(activity, User(session.email, if session.name != "" then session.name else session.email), now, None, false)
  }

  /** The call `syncSlot(week, lab, day, time, slot)` an edit hands on; `slot` `None` is a deletion. */
  datatype SyncRequest = SyncRequest(week: int, lab: string, day: Option<string>, time: string, slot: Option<Slot>)

  /** The database operation a synchronisation issues. */
  datatype RemoteOp =
    | Upsert(row: Row)
    | Delete(environmentId: string, weekNumber: int, dayOfWeek: string, timeSlot: string, userEmail: string)

  /** The row upserted for a slot: the session's address as owner, empty details as null. */
  function UpsertRow(req: SyncRequest, day: string, email: string): Row
    requires req.slot.Some?
  {
    var slot := req.slot.value;
    Row(req.lab, req.week, day, req.time, slot.activity, email, slot.bookingTime, Truthy(slot.details))
  }

  /**
   * The deleting branch of `updateSlot`: the slot's key is deleted and the
   * emptied containers above it removed. Only that key changes, and a tidy
   * document stays tidy.
   */
  method DeleteSlot(s: YearSchedule, k: SlotKey) returns (r: YearSchedule)
    requires Get(s, k).Some?
    ensures forall k' :: Get(r, k') == if k' == k then None else Get(s, k')
    ensures CleanedAt(Remove(s, k), r, k.week, k.lab, k.day)
    ensures Tidy(s) ==> Tidy(r)
  {
    r := Remove(s, k);
    if Tidy(s) {
      RemoveTidyExceptDay(s, k);
    }
    r := CleanEmptyStructures(r, k.week, k.lab, k.day);
  }

  /**
   * The engine's state: the document (`None` before the first load), the
   * loading flag, the last error, and the saved copy in browser storage.
   */
  class ScheduleEngine {
    var schedule: Option<YearSchedule>
    var loading: bool
    var error: Option<string>
    const storage: Store

    constructor(storage: Store)
      ensures schedule == None && loading && error == None && this.storage == storage
    {
      schedule := None;
      loading := true;
      error := None;
      this.storage := storage;
    }

    /**
     * The initial load. The database is queried when no sync time is saved
     * (or it is 0), or when `sync` is on and a minute has passed since it;
     * otherwise the saved copy is shown. Without a signed-in user the query
     * is skipped and nothing changes. A failed query records the error and
     * shows the saved copy; an empty answer shows the saved copy; rows are
     * built into the document, which is shown and saved with the time.
     */
    method Load(sync: bool, minutePassed: bool, session: Session, fetch: Fetch,
                currentWeek: int, maxWeeksToShow: int, now: int, titleCase: string -> string)
      modifies this, storage
      ensures var saved := old(storage.syncedAt);
        var fallback := old(storage.data).GetOr(InitializeEmptyYearSchedule());
        if !(saved.None? || saved == Some(0) || (sync && minutePassed)) then
          schedule == Some(fallback) && !loading && error == old(error) && unchanged(storage)
        else if session.email == "" then
          schedule == old(schedule) && loading == old(loading) && error == old(error) && unchanged(storage)
        else if fetch.FetchFailed? then
          schedule == Some(fallback) && !loading && error == Some(LoadError) && unchanged(storage)
        else if fetch.rows == [] then
          schedule == Some(fallback) && !loading && error == old(error) && unchanged(storage)
        else
          schedule == Some(Loaded(fetch.rows, currentWeek, titleCase)) && !loading && error == old(error)
          && storage.data == schedule && storage.syncedAt == Some(now)
    {
      var saved := storage.syncedAt;
      if saved.None? || saved == Some(0) || (sync && minutePassed) {
        if session.email == "" {
          return;
        }
        loading := true;
        match fetch {
          case FetchFailed =>
            error := Some(LoadError);
            var stored := storage.Load();
            schedule := Some(stored.GetOr(InitializeEmptyYearSchedule()));
          case Fetched(rows) =>
            if |rows| > 0 {
              var db := BuildSchedule(rows, currentWeek, maxWeeksToShow, titleCase);
              schedule := Some(db);
              storage.Save(db);
              storage.SaveWhenSyncDb(now);
            } else {
              var stored := storage.Load();
              schedule := Some(stored.GetOr(InitializeEmptyYearSchedule()));
            }
        }
        loading := false;
      } else {
        var stored := storage.Load();
        schedule := Some(stored.GetOr(InitializeEmptyYearSchedule()));
        loading := false;
      }
    }

    /**
     * `updateSlot`: a non-blank activity books the slot for the session's user
     * at the (translated) day, creating containers as needed; otherwise an
     * existing slot is deleted and emptied containers removed. Each edit
     * returns the synchronisation it triggers; deleting a free slot changes
     * nothing and triggers none.
     */
    method UpdateSlot(week: int, lab: string, day: string, time: string, activity: string,
                      session: Session, table: DayTable, now: string) returns (req: Option<SyncRequest>)
      modifies this
      ensures loading == old(loading) && error == old(error)
      ensures var d := TranslateDay(day, table);
        var k := SlotKey(week, lab, DayKey(d), time);
        var base := old(schedule).GetOr(InitializeEmptyYearSchedule());
        schedule.Some? &&
        if Trim(activity) != "" then
          schedule.value == Put(base, k, NewSlot(activity, session, now))
          && req == Some(SyncRequest(week, lab, d, time, Some(NewSlot(activity, session, now))))
        else if Get(base, k).Some? then
          (forall k' :: Get(schedule.value, k') == if k' == k then None else Get(base, k'))
          && CleanedAt(Remove(base, k), schedule.value, k.week, k.lab, k.day)
          && (Tidy(base) ==> Tidy(schedule.value))
          && req == Some(SyncRequest(week, lab, d, time, None))
        else
          schedule.value == base && req == None
    {
      var dayEnglish := TranslateDay(day, table);
      var key := SlotKey(week, lab, DayKey(dayEnglish), time);
      var newSchedule := schedule.GetOr(InitializeEmptyYearSchedule());
      if activity != "" && Trim(activity) != "" {
        var newSlot := NewSlot(activity, session, now);
        newSchedule := Put(newSchedule, key, newSlot);
        req := Some(SyncRequest(week, lab, dayEnglish, time, Some(newSlot)));
      } else if Get(newSchedule, key).Some? {
        newSchedule := DeleteSlot(newSchedule, key);
        req := Some(SyncRequest(week, lab, dayEnglish, time, None));
      } else {
        req := None;
      }
      schedule := Some(newSchedule);
    }

    /** `clearSlot`: an update with the empty activity, i.e. a deletion. */
    method ClearSlot(week: int, lab: string, day: string, time: string, session: Session, table: DayTable, now: string)
      returns (req: Option<SyncRequest>)
      modifies this
      ensures loading == old(loading) && error == old(error)
      ensures var k := SlotKey(week, lab, DayKey(TranslateDay(day, table)), time);
        var base := old(schedule).GetOr(InitializeEmptyYearSchedule());
        schedule.Some? && (forall k' :: Get(schedule.value, k') == if k' == k then None else Get(base, k'))
        && (req.Some? <==> Get(base, k).Some?)
    {
      req := UpdateSlot(week, lab, day, time, "", session, table, now);
    }

    /**
     * `syncSlot`: without a signed-in user, or when the day is missing or has
     * no English name, nothing happens. A slot is upserted with the session's
     * address as owner and, when the database accepts it, written back
     * locally marked as synchronised; a deletion is sent and changes nothing
     * locally. `accepted` is the database's answer.
     */
    method SyncSlot(req: SyncRequest, session: Session, table: DayTable, accepted: bool) returns (op: Option<RemoteOp>)
      modifies this
      ensures loading == old(loading) && error == old(error)
      ensures var d := if req.day.Some? then TranslateDay(req.day.value, table) else None;
        if session.email == "" || d.None? || d.value == "" then
          op == None && schedule == old(schedule)
        else if req.slot.Some? then
          op == Some(Upsert(UpsertRow(req, d.value, session.email)))
          && schedule == if accepted
                         then Some(Put(old(schedule).GetOr(InitializeEmptyYearSchedule()),
                                       SlotKey(req.week, req.lab, d.value, req.time), req.slot.value.(dbSynced := true)))
                         else old(schedule)
        else
          op == Some(Delete(req.lab, req.week, d.value, req.time, session.email)) && schedule == old(schedule)
    {
      if session.email == "" {
        return None;
      }
      var dayEnglish := if req.day.Some? then TranslateDay(req.day.value, table) else None;
      if dayEnglish.None? || dayEnglish.value == "" {
        return None;
      }
      var d := dayEnglish.value;
      match req.slot {
        case Some(slot) =>
          op := Some(Upsert(UpsertRow(req, d, session.email)));
          if accepted {
            var newSchedule := schedule.GetOr(InitializeEmptyYearSchedule());
            newSchedule := Put(newSchedule, SlotKey(req.week, req.lab, d, req.time), slot.(dbSynced := true));
            schedule := Some(newSchedule);
          }
        case None =>
          op := Some(Delete(req.lab, req.week, d, req.time, session.email));
      }
    }

    /** `refresh`: show the saved copy again, or an empty document. */
    method Refresh()
      modifies this
      ensures schedule == Some(storage.data.GetOr(InitializeEmptyYearSchedule()))
      ensures !loading && error == old(error)
    {
      loading := true;
      var stored := storage.Load();
      schedule := Some(stored.GetOr(InitializeEmptyYearSchedule()));
      loading := false;
    }
  }

  /**
   * A slot upserted outside the commission week comes back from the next load
   * as the same booking, owned by the session's address under the name
   * derived from it, marked as synchronised.
   */
  lemma UpsertedRowReloads(req: SyncRequest, day: string, email: string, currentWeek: int, titleCase: string -> string)
    requires req.slot.Some? && req.week != CommissionWeek
    ensures var slot := req.slot.value;
      Get(Loaded([UpsertRow(req, day, email)], currentWeek, titleCase), SlotKey(req.week, req.lab, day, req.time))
      == Some(Slot(slot.activity, User(email, ExtractName(email, titleCase)), slot.bookingTime, Truthy(slot.details), true))
  {
    var row := UpsertRow(req, day, email);
    LoadedLookup([row], currentWeek, titleCase, SlotKey(req.week, req.lab, day, req.time));
    assert [row][..0] == [];
    assert Regular([row]) == [row];
  }

  /** A booked slot stays booked when it is synchronised and accepted: only its flag changes. */
  lemma SyncKeepsBooking(s: YearSchedule, k: SlotKey, slot: Slot)
    ensures Get(Put(Put(s, k, slot), k, slot.(dbSynced := true)), k) == Some(slot.(dbSynced := true))
    ensures Put(Put(s, k, slot), k, slot.(dbSynced := true)) == Put(s, k, slot.(dbSynced := true))
  {
    PutPut(s, k, slot, slot.(dbSynced := true));
  }
}
