/**
 * The browser-storage side of the schedule: the saved schedule document under
 * the key "scheduleTableData" with the time of the last database sync, and
 * the one-environment schedule built for a single week.
 */
module ScheduleStorage {
  import opened Optional
  import opened ScheduleMap

  /** The local-storage key the schedule is saved under. */
  const StorageKey: string := "scheduleTableData"

  /**
   * The stored schedule. `data` is `JSON.parse` of the saved text, `None` when
   * nothing is saved or the text cannot be read back; `syncedAt` is the saved
   * time of the last load from the database (`None` when never saved).
   */
  class Store {
    var data: Option<YearSchedule>
    var syncedAt: Option<int>

    constructor(data: Option<YearSchedule>, syncedAt: Option<int>)
      ensures this.data == data && this.syncedAt == syncedAt
    {
      this.data := data;
      this.syncedAt := syncedAt;
    }

    /** `loadFromStorage`: the saved schedule, or nothing. */
    method Load() returns (r: Option<YearSchedule>)
      ensures r == data
    {
      r := data;
    }

    /** `saveToStorage`: the schedule becomes what a later load returns; the sync time is kept. */
    method Save(s: YearSchedule)
      modifies this
      ensures data == Some(s) && syncedAt == old(syncedAt)
    {
      data := Some(s);
    }

    /** Records the time of a completed database load; the saved schedule is kept. */
    method SaveWhenSyncDb(time: int)
      modifies this
      ensures syncedAt == Some(time) && data == old(data)
    {
      syncedAt := Some(time);
    }
  }

  /** A saved schedule reads back unchanged, whatever was stored before. */
  method SaveLoadRoundTrip(store: Store, s: YearSchedule) returns (r: Option<YearSchedule>)
    modifies store
    ensures r == Some(s) && store.syncedAt == old(store.syncedAt)
  {
    store.Save(s);
    r := store.Load();
  }

  /**
   * `generateScheduleTableData`: a year schedule holding `weekSchedule` as the
   * one environment of the one week. The loops that fill missing days and
   * times look through the very object they would fill (the week entry is
   * `weekSchedule` itself), so they never write.
   */
  method GenerateScheduleTableData(labId: string, week: int, weekSchedule: LabDays) returns (r: YearSchedule)
    ensures r.Keys == {week} && r[week].Keys == {labId} && r[week][labId] == weekSchedule
    ensures forall k :: Get(r, k) == if k.week == week && k.lab == labId then Get(map[week := map[labId := weekSchedule]], k) else None
  {
    r := map[week := map[labId := weekSchedule]];
    var days := weekSchedule.Keys;
    while days != {}
      invariant r == map[week := map[labId := weekSchedule]]
      decreases days
    {
      var day :| day in days;
      if day !in r[week][labId] {
        // `scheduleData[week][labId][day] = {}`: the entry is weekSchedule's own day
        assert false;
      }
      var times := weekSchedule[day].Keys;
      while times != {}
        invariant r == map[week := map[labId := weekSchedule]]
        decreases times
      {
        var time :| time in times;
        if time !in r[week][labId][day] {
          // the copy of `weekSchedule[day][time]`: the slot is already there
          assert false;
        }
        times := times - {time};
      }
      days := days - {day};
    }
  }
}
