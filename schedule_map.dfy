/**
 * The schedule document: a nested map week -> environment id -> day -> time
 * -> slot, with the lookup, the container-creating write and the delete the
 * application performs on it, and the "no empty container" shape that its
 * writes and cascading deletes keep.
 */
module ScheduleMap {
  import opened Optional

  /** The owner of a booking. */
  datatype User = User(email: string, name: string)

  /**
   * A booked slot. `dbSynced` false stands for the flag being absent: the
   * application only ever sets it to true.
   */
  datatype Slot = Slot(activity: string, user: User, bookingTime: string, details: Option<string>, dbSynced: bool)

  type DaySlots = map<string, Slot>
  type LabDays = map<string, DaySlots>
  type WeekLabs = map<string, LabDays>
  type YearSchedule = map<int, WeekLabs>

  /** The four keys that address one slot. */
  datatype SlotKey = SlotKey(week: int, lab: string, day: string, time: string)

  /** The path `s[week][lab][day]` exists. */
  predicate HasDay(s: YearSchedule, week: int, lab: string, day: string) {
    week in s && lab in s[week] && day in s[week][lab]
  }

  /** `s[week]?.[lab]?.[day]?.[time]`. */
  function Get(s: YearSchedule, k: SlotKey): Option<Slot> {
    if HasDay(s, k.week, k.lab, k.day) && k.time in s[k.week][k.lab][k.day]
    then Some(s[k.week][k.lab][k.day][k.time])
    else None
  }

  /**
   * `s[w] = s[w] || {}; s[w][l] = s[w][l] || {}; s[w][l][d] = s[w][l][d] || {};
   * s[w][l][d][t] = slot`: the one key gets the slot, every other key keeps
   * its value, and missing containers are created.
   */
  function Put(s: YearSchedule, k: SlotKey, slot: Slot): (r: YearSchedule)
    ensures forall k' :: Get(r, k') == if k' == k then Some(slot) else Get(s, k')
    ensures r.Keys == s.Keys + {k.week}
    ensures HasDay(r, k.week, k.lab, k.day)
  {
    var labs := if k.week in s then s[k.week] else map[];
    var days := if k.lab in labs then labs[k.lab] else map[];
    var times := if k.day in days then days[k.day] else map[];
    s[k.week := labs[k.lab := days[k.day := times[k.time := slot]]]]
  }

  /** `delete s[w][l][d][t]` on a slot that exists: only that key disappears, no container does. */
  function Remove(s: YearSchedule, k: SlotKey): (r: YearSchedule)
    requires Get(s, k).Some?
    ensures forall k' :: Get(r, k') == if k' == k then None else Get(s, k')
    ensures r.Keys == s.Keys && HasDay(r, k.week, k.lab, k.day)
    ensures r[k.week].Keys == s[k.week].Keys && r[k.week][k.lab].Keys == s[k.week][k.lab].Keys
  {
    var labs := s[k.week];
    var days := labs[k.lab];
    s[k.week := labs[k.lab := days[k.day := days[k.day] - {k.time}]]]
  }

  /** No week, environment or day container is empty. */
  predicate Tidy(s: YearSchedule) {
    forall w | w in s :: s[w] != map[] &&
      forall l | l in s[w] :: s[w][l] != map[] &&
        forall d | d in s[w][l] :: s[w][l][d] != map[]
  }

  /** Tidy, except that the one day container `(week, lab, day)` may be empty. */
  predicate TidyExceptDay(s: YearSchedule, week: int, lab: string, day: string) {
    forall w | w in s :: s[w] != map[] &&
      forall l | l in s[w] :: s[w][l] != map[] &&
        forall d | d in s[w][l] :: s[w][l][d] != map[] || (w == week && l == lab && d == day)
  }

  /** A write keeps the schedule tidy. */
  lemma PutTidy(s: YearSchedule, k: SlotKey, slot: Slot)
    requires Tidy(s)
    ensures Tidy(Put(s, k, slot))
  {
    var r := Put(s, k, slot);
    forall w | w in r
      ensures r[w] != map[]
      ensures forall l | l in r[w] :: r[w][l] != map[] && forall d | d in r[w][l] :: r[w][l][d] != map[]
    {
      if w == k.week {
        assert k.lab in r[w];
        forall l | l in r[w] ensures r[w][l] != map[] && forall d | d in r[w][l] :: r[w][l][d] != map[] {
          if l == k.lab {
            assert k.day in r[w][l];
            forall d | d in r[w][l] ensures r[w][l][d] != map[] {
              if d == k.day {
                assert k.time in r[w][l][d];
              }
            }
          }
        }
      }
    }
  }

  /** Deleting an existing slot of a tidy schedule can only leave its own day empty. */
  lemma RemoveTidyExceptDay(s: YearSchedule, k: SlotKey)
    requires Tidy(s) && Get(s, k).Some?
    ensures TidyExceptDay(Remove(s, k), k.week, k.lab, k.day)
  {
    var r := Remove(s, k);
    forall w | w in r
      ensures r[w] != map[]
      ensures forall l | l in r[w] :: r[w][l] != map[] &&
                forall d | d in r[w][l] :: r[w][l][d] != map[] || (w == k.week && l == k.lab && d == k.day)
    {
      assert s[w] != map[];
      if w == k.week {
        assert k.lab in r[w];
        forall l | l in r[w]
          ensures r[w][l] != map[]
          ensures forall d | d in r[w][l] :: r[w][l][d] != map[] || (w == k.week && l == k.lab && d == k.day)
        {
          if l == k.lab {
            assert k.day in r[w][l];
          }
        }
      }
    }
  }

  /** Updating one key of a map twice keeps only the second value. */
  lemma UpdateTwice<K, V>(m: map<K, V>, k: K, a: V, b: V)
    ensures m[k := a][k := b] == m[k := b]
  {
  }

  /** Writing the same key twice keeps only the second slot. */
  lemma PutPut(s: YearSchedule, k: SlotKey, a: Slot, b: Slot)
    ensures Put(Put(s, k, a), k, b) == Put(s, k, b)
  {
    var labs := if k.week in s then s[k.week] else map[];
    var days := if k.lab in labs then labs[k.lab] else map[];
    var times := if k.day in days then days[k.day] else map[];
    UpdateTwice(times, k.time, a, b);
    UpdateTwice(days, k.day, times[k.time := a], times[k.time := b]);
    UpdateTwice(labs, k.lab, days[k.day := times[k.time := a]], days[k.day := times[k.time := b]]);
    UpdateTwice(s, k.week, labs[k.lab := days[k.day := times[k.time := a]]], labs[k.lab := days[k.day := times[k.time := b]]]);
  }

  // ---------------------------------------------------------------------------
  // a sequence of writes

  /** One assignment `s[week][lab][day][time] = slot`. */
  datatype Write = Write(key: SlotKey, slot: Slot)

  /** The schedule after performing `ws` in order, starting from `s`. */
  function WriteAll(s: YearSchedule, ws: seq<Write>): YearSchedule
    decreases |ws|
  {
    if ws == [] then s else Put(WriteAll(s, ws[..|ws| - 1]), ws[|ws| - 1].key, ws[|ws| - 1].slot)
  }

  /** The slot of the last write to `k`, if any. */
  function LastWrite(ws: seq<Write>, k: SlotKey): (r: Option<Slot>)
    ensures r.Some? <==> exists i :: 0 <= i < |ws| && ws[i].key == k
    decreases |ws|
  {
    if ws == [] then None
    else if ws[|ws| - 1].key == k then Some(ws[|ws| - 1].slot)
    else
      var r := LastWrite(ws[..|ws| - 1], k);
      assert forall i :: 0 <= i < |ws| - 1 ==> ws[..|ws| - 1][i] == ws[i];
      r
  }

  /** After a sequence of writes, a key holds its last write, or what it held before. */
  lemma {:induction false} WriteAllGet(s: YearSchedule, ws: seq<Write>, k: SlotKey)
    ensures Get(WriteAll(s, ws), k) == if LastWrite(ws, k).Some? then LastWrite(ws, k) else Get(s, k)
    decreases |ws|
  {
    if ws != [] {
      WriteAllGet(s, ws[..|ws| - 1], k);
    }
  }

  /** The last write to a key in `a + b` is in `b` when `b` writes it at all. */
  lemma {:induction false} LastWriteConcat(a: seq<Write>, b: seq<Write>, k: SlotKey)
    ensures LastWrite(a + b, k) == if LastWrite(b, k).Some? then LastWrite(b, k) else LastWrite(a, k)
    decreases |b|
  {
    if b != [] {
      assert (a + b)[..|a + b| - 1] == a + b[..|b| - 1];
      LastWriteConcat(a, b[..|b| - 1], k);
    } else {
      assert a + b == a;
    }
  }

  /** Writes keep a tidy schedule tidy. */
  lemma {:induction false} WriteAllTidy(s: YearSchedule, ws: seq<Write>)
    requires Tidy(s)
    ensures Tidy(WriteAll(s, ws))
    decreases |ws|
  {
    if ws != [] {
      WriteAllTidy(s, ws[..|ws| - 1]);
      PutTidy(WriteAll(s, ws[..|ws| - 1]), ws[|ws| - 1].key, ws[|ws| - 1].slot);
    }
  }

  /** Extending the writes by one performs that write last. */
  lemma WriteAllSnoc(s: YearSchedule, ws: seq<Write>, w: Write)
    ensures WriteAll(s, ws + [w]) == Put(WriteAll(s, ws), w.key, w.slot)
  {
    assert (ws + [w])[..|ws + [w]| - 1] == ws;
  }

  /** Performing `a` then `b` is performing `a + b`. */
  lemma {:induction false} WriteAllConcat(s: YearSchedule, a: seq<Write>, b: seq<Write>)
    ensures WriteAll(WriteAll(s, a), b) == WriteAll(s, a + b)
    decreases |b|
  {
    if b == [] {
      assert a + b == a;
    } else {
      WriteAllConcat(s, a, b[..|b| - 1]);
      assert (a + b)[..|a + b| - 1] == a + b[..|b| - 1];
    }
  }
}
