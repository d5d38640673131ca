# Booking schedule of the teaching environments — a verified model

This project models the core of a room-booking web application for an
educational institution (the `ifsudestemg.edu.br` domain). Staff book laboratories and the
auditorium in slots on a weekly grid. Its core is an in-memory **schedule
document**: a nested map week → environment id → day → time → slot. The
model covers:

- the schedule engine (`useSchedule`). It loads the rows of the
  `environment_schedule` table into the document, projecting the recurring
  "commission" rows (week number 100) onto the displayed week. It falls back
  on the copy saved in browser storage. It books and deletes single slots,
  removing emptied containers, and mirrors those edits to the database;
- saving and loading that document in browser storage, and building a
  one-environment document for one week (`useScheduleStorage`);
- the weekly grid (`TimeTable`). Adjacent equal bookings are merged into
  taller cells and break periods are disabled. On a narrow screen one day
  column is shown at a time, rotated by two buttons;
- a grid cell (`TimeSlot`): who may edit it, its colour and background, the
  class and teacher lines of a commission booking, the duration label, the
  element id and the re-render test;
- the owners' colours: round-robin over a 50-entry palette, in the hook
  (`useEmailColors`) and in the stand-alone assigner (`colorAssigner`);
- week and clock arithmetic, the e-mail domain rule, the per-user activity
  table and the catalogue of 37 bookable times (`utils`);
- the home page's bounded week navigation (`index`);
- the activity picker dialog (`ActivityModal`), the user's activity list
  (`useUserActivities`) and the staff member's subjects panel
  (`ListActivities`);
- the version string built from the date of the last commit (`version`);
- the static data: palette, commission account, slot length and the sorted
  environment catalogue (`constants`).

Each source file is one Dafny module. Code that updates state step by step
is modelled as imperative Dafny:

- the React hooks' state is a `class` whose methods have `modifies` clauses
  (`ScheduleEngine`, `EmailColorStore`, `ColorStorage`, `WeekNavigator`,
  `ActivityDialog`, `ActivityList`, `SubjectsPanel`, `Store`);
- the source's loops are `method`s with loop invariants (the load's
  partition and write loops, `cleanEmptyStructures`, `getSlotGroups`,
  `getNextTime`, `generateScheduleTableData`).

Each such method is proved against a specification function, and the
properties of that function are proved as lemmas. Expression-only code is
modelled as functions and lemmas.

The modules and their files:

| module | file |
|---|---|
| `Optional` | `optional.dfy` |
| `JsString` (JavaScript string built-ins the code relies on) | `js_string.dfy` |
| `Constants` | `constants.dfy` |
| `Utils` | `utils.dfy` |
| `ScheduleMap` | `schedule_map.dfy` |
| `ScheduleStorage` | `schedule_storage.dfy` |
| `UseSchedule` | `use_schedule.dfy` |
| `TimeTable` | `time_table.dfy` |
| `TimeSlot` | `time_slot.dfy` |
| `EmailColors` | `email_colors.dfy` |
| `ColorAssigner` | `color_assigner.dfy` |
| `HomePage` | `home_page.dfy` |
| `ActivityModal` | `activity_modal.dfy` |
| `UserActivities` | `user_activities.dfy` |
| `ListActivities` | `list_activities.dfy` |
| `Version` | `version.dfy` |

Modelling choices that follow the code rather than its apparent intent:

- **Commission week set.** The set of weeks commission rows are copied into
  is filled by calling `getNextWeek(currentWeek)` without a limit. That call
  returns its argument, so the set is the current week alone
  (`UseSchedule.DisplayWeeks`).
- **Forward wrap.** Once the home page's forward button wraps from week 52
  to week 1, the back button no longer moves (`HomePage.WrapBlocksBack`).
- **Free cell without a session.** With no session, a free cell reacts to
  clicks even when it is disabled, because both owner addresses are
  `undefined` (`TimeSlot.NoSessionFreeCell`).
- **Duplicate-colour reset.** Clearing the saved colour table when it holds
  a shared colour does not last: the persisting effect saves the same table
  again (`EmailColors.LoadThenPersist`).
- **`generateScheduleTableData`.** Its fill loops look through the very
  object they would fill, so they never write. The result holds exactly the
  given week schedule (`ScheduleStorage.GenerateScheduleTableData`).

## Model

| member | source | states |
|---|---|---|
| Constants.SortByName | src/lib/constants.ts:94-101 | the sort keeps the list's length; that it sorts by name and is a permutation is `Constants.SortByNameCorrect` |
| Constants.SortByNameCorrect | src/lib/constants.ts:94-101 | the sort with the -1/1/0 name comparator yields a list sorted by name that is a permutation of its input |
| Constants.InsertSorted | src/lib/constants.ts:94-101 | one stable insertion keeps a sorted list sorted |
| Constants.InsertAddsEntry | src/lib/constants.ts:94-101 | one insertion adds exactly the inserted entry to the list's entries |
| Constants.EnvironmentsOrder | src/lib/constants.ts:73-101 | sorting the catalogue moves Auditório to the front and keeps the three laboratories in their listed order |
| Constants.EnvironmentsCatalogue | src/lib/constants.ts:73-101 | the sorted catalogue has four environments with ids Auditorio, LabInf1, LabInf2, LabSimFer; the ids are distinct and the list is sorted by name |
| Constants.PaletteSize | src/lib/constants.ts:5-65 | the palette has 50 colours, so modulo-based assignment cycles every 50 owners |
| Constants.PaletteEntriesNonEmpty | src/lib/constants.ts:5-65 | every palette entry is a seven-character colour, so never empty |
| Constants.FixedValues | src/lib/constants.ts:3-103 | the commission address ends with "@" and the institutional domain; a slot lasts 15 minutes; a work week has 6 days |
| Utils.NextWeek | src/lib/utils.ts:141-152 | with no positive limit the week is unchanged; with a positive limit, a week whose successor stays within base + limit moves to that successor (1 after week 52), and any other week is unchanged |
| Utils.PreviousWeek | src/lib/utils.ts:154-169 | with no positive limit the week is unchanged; with a positive limit, a week whose predecessor stays at or above base − limit moves to that predecessor (52 before week 1), and any other week is unchanged |
| Utils.PreviousUndoesNext | src/lib/utils.ts:141-169 | inside the window and away from the year's ends, a step back undoes a step forward |
| Utils.NextWeekStaysInWindow | src/lib/utils.ts:145-151 | a forward step from a week at or below base + limit never goes past base + limit |
| Utils.NextTime | src/lib/utils.ts:177-193 | the method, updating hours and minutes step by step, returns the parsed time advanced by one step (15 minutes, carry at 60, hour 24 wrapped to 0), both fields padded to two digits |
| Utils.AdvanceIsClockStep | src/lib/utils.ts:181-188 | on hours and minutes of a 24-hour clock, one step is adding 15 minutes modulo a day (carry at 60, wrap at 24) |
| Utils.FormatClockRoundTrip | src/lib/utils.ts:189-192 | a zero-padded "HH:MM" is five characters and reads back as its hour and minute |
| Utils.NextTimeAddsFifteen | src/lib/utils.ts:177-193 | for every zero-padded time of day, the next time is the time 15 minutes later on a 24-hour clock |
| Utils.NextTimeWithoutMinutes | src/lib/utils.ts:178-180 | a time without a minutes field keeps NaN minutes |
| Utils.MidnightWraps | src/lib/utils.ts:177-193 | "23:45" is followed by "00:00" |
| Utils.ValidateEmail | src/lib/utils.ts:207-212 | any address is accepted when no domain is configured; otherwise exactly the addresses ending with "@" and the domain |
| Utils.UserActivities | src/lib/utils.ts:195-205 | each of the three known addresses gets its own pair of activities from the table; exactly the other addresses get ["Aula Livre", "Reunião"] |
| Utils.TimeSlotsIncreasing | src/lib/utils.ts:10-53 | the catalogue has 37 five-character times, each sorting before the next |
| Utils.TimeSlotStepsNotUniform | src/lib/utils.ts:10-53 | the catalogue's steps are not uniform: 15 minutes after "10:45" is "11:00", but the next entry is "11:30" |
| ScheduleMap.Put | src/hooks/useSchedule.ts:315-319 | writing a slot creates missing containers; the key gets the slot and every other key keeps its value |
| ScheduleMap.Remove | src/hooks/useSchedule.ts:330-331 | deleting an existing slot removes only that key and no container |
| ScheduleMap.PutTidy | src/hooks/useSchedule.ts:315-319 | a write keeps a document without empty containers free of them |
| ScheduleMap.RemoveTidyExceptDay | src/hooks/useSchedule.ts:330-331 | deleting a slot of a tidy document can leave only that slot's day container empty |
| ScheduleMap.PutPut | src/hooks/useSchedule.ts:244-252 | writing the same key twice keeps only the second slot |
| ScheduleMap.WriteAllGet | src/hooks/useSchedule.ts:91-138 | after a sequence of writes a key holds its last write, or what it held before |
| ScheduleMap.LastWriteConcat | src/hooks/useSchedule.ts:91-138 | in writes a then b, the last write to a key is b's when b writes that key at all |
| ScheduleMap.WriteAllTidy | src/hooks/useSchedule.ts:91-138 | writes keep a tidy document tidy |
| ScheduleMap.WriteAllConcat | src/hooks/useSchedule.ts:91-138 | performing writes a then b equals performing a + b |
| ScheduleStorage.Store.Load | src/hooks/useScheduleStorage.ts:7-15 | loading returns the saved document, or nothing when none is saved or it cannot be read |
| ScheduleStorage.Store.Save | src/hooks/useScheduleStorage.ts:17-23 | saving makes the document what a later load returns, and keeps the sync time |
| ScheduleStorage.Store.SaveWhenSyncDb | src/hooks/useSchedule.ts:146 | recording a database load sets the sync time and keeps the saved document |
| ScheduleStorage.SaveLoadRoundTrip | src/hooks/useScheduleStorage.ts:7-23 | a saved document loads back unchanged, whatever was stored before |
| ScheduleStorage.GenerateScheduleTableData | src/hooks/useScheduleStorage.ts:28-53 | the result has exactly one week holding exactly one environment whose days are the given week schedule; every lookup elsewhere is empty |
| UseSchedule.ExtractName | src/hooks/useSchedule.ts:44-50 | the display name is the title-cased address with its first "@" + institutional domain removed and every "." read as a space |
| UseSchedule.ExtractNameInstitutional | src/hooks/useSchedule.ts:44-50 | for "local@ifsudestemg.edu.br" the display name is the title-cased local part with its dots read as spaces |
| UseSchedule.ExtractNameOther | src/hooks/useSchedule.ts:44-50 | an address outside the institutional domain keeps its domain; only its dots become spaces |
| UseSchedule.Truthy | src/hooks/useSchedule.ts:109 | `details \|\| undefined` keeps exactly the non-empty details |
| UseSchedule.Commission | src/hooks/useSchedule.ts:70-81 | the commission list holds only rows of the table whose week number is 100 |
| UseSchedule.Regular | src/hooks/useSchedule.ts:70-81 | the ordinary list holds only rows of the table whose week number is not 100 |
| UseSchedule.PartitionKeepsRows | src/hooks/useSchedule.ts:70-81 | every row lands in exactly one of the two lists (their multisets add up to the rows) |
| UseSchedule.Partition | src/hooks/useSchedule.ts:70-81 | the filtering loop produces the commission and ordinary lists, each in table order |
| UseSchedule.DisplayWeeks | src/hooks/useSchedule.ts:83-89 | the week set of the commission rows is the current week alone, whatever the number of weeks to show |
| UseSchedule.ProjectCommission | src/hooks/useSchedule.ts:91-113 | the nested commission loop performs, in order, one write per commission row and displayed week |
| UseSchedule.AddRegular | src/hooks/useSchedule.ts:115-138 | the ordinary-row loop performs one write per row at the row's own address, later rows last |
| UseSchedule.BuildSchedule | src/hooks/useSchedule.ts:70-138 | the document built from the rows is the commission writes followed by the ordinary writes on an empty document |
| UseSchedule.WeekWritesLast | src/hooks/useSchedule.ts:91-113 | the last write of one commission row to an address is its slot in that address's week |
| UseSchedule.CommissionWritesLast | src/hooks/useSchedule.ts:91-113 | with one displayed week, the last commission write to an address comes from the last commission row at that environment, day and time |
| UseSchedule.RegularWritesLast | src/hooks/useSchedule.ts:115-138 | the last ordinary write to an address comes from the last ordinary row at that address |
| UseSchedule.LoadedLookup | src/hooks/useSchedule.ts:83-138 | the loaded document holds at each address the last ordinary row there; else, in the current week, the last commission row at that environment, day and time (named "Comissão de Horários"); else nothing |
| UseSchedule.LoadedTidy | src/hooks/useSchedule.ts:91-138 | the loaded document has no empty container |
| UseSchedule.LoadedSlots | src/hooks/useSchedule.ts:91-138 | every loaded slot is marked synchronised; no commission slot appears in week 100 unless that is the current week |
| UseSchedule.InitializeEmptyYearSchedule | src/hooks/useSchedule.ts:384-387 | the empty document holds no slot and no empty container |
| UseSchedule.DropEmptyDay | src/hooks/useSchedule.ts:371-372 | deleting an empty day container changes no lookup |
| UseSchedule.DropEmptyLab | src/hooks/useSchedule.ts:374-375 | deleting an empty environment container changes no lookup |
| UseSchedule.DropEmptyWeek | src/hooks/useSchedule.ts:377-378 | deleting an empty week container changes no lookup |
| UseSchedule.CleanEmptyStructures | src/hooks/useSchedule.ts:365-382 | for any document: an empty day container is removed, its environment container too exactly when that day was its only one, and its week container too exactly when that environment was its only one; every other container is unchanged, no slot changes, a non-empty day leaves the document as it was, and a document whose only empty container was that day comes out tidy |
| UseSchedule.TranslateDay | src/hooks/useSchedule.ts:295-298 | a Portuguese day name is translated (missing when the table lacks it); any other name is kept |
| UseSchedule.ScheduleEngine.constructor | src/hooks/useSchedule.ts:36-38 | the engine starts with no document, loading on and no error |
| UseSchedule.ScheduleEngine.Load | src/hooks/useSchedule.ts:54-176 | the database is queried only with no sync time, or with sync on and a minute passed; without a user nothing changes; a failure records the error and shows the saved copy or {}; an empty answer shows the saved copy or {}; rows are built, shown, saved and the sync time recorded |
| UseSchedule.ScheduleEngine.UpdateSlot | src/hooks/useSchedule.ts:281-342 | a non-blank activity books exactly the one key for the session's user (name falling back on the address, no details, not synchronised); otherwise an existing slot is deleted: only that key changes, the emptied containers above it are removed by the cascade and no other container, and tidiness is kept; a free slot is left as is and no synchronisation is issued |
| UseSchedule.DeleteSlot | src/hooks/useSchedule.ts:330-332 | deleting an existing slot changes only that key, and the containers above it are removed by the cascade exactly as `CleanEmptyStructures` states, with every other container unchanged; a tidy document stays tidy |
| UseSchedule.ScheduleEngine.ClearSlot | src/hooks/useSchedule.ts:345-349 | clearing empties exactly the one key and issues a synchronisation exactly when a slot was there |
| UseSchedule.ScheduleEngine.SyncSlot | src/hooks/useSchedule.ts:191-278 | without a user or an English day nothing happens; a slot is upserted with the session's address and, when accepted, written back marked synchronised; a deletion is sent and changes nothing locally |
| UseSchedule.ScheduleEngine.Refresh | src/hooks/useSchedule.ts:351-359 | the document becomes the saved copy, or {}; loading ends |
| UseSchedule.UpsertedRowReloads | src/hooks/useSchedule.ts:219-228 | a slot upserted outside week 100 comes back from a load as the same booking, owned by the session's address under its derived name, synchronised |
| UseSchedule.SyncKeepsBooking | src/hooks/useSchedule.ts:244-252 | an accepted synchronisation keeps the booking and only sets its flag |
| TimeTable.IsEqualSlot | src/components/scheduling/TimeTable.tsx:79-82 | two cells hold the same booking only when both are booked with the same activity and the same owner address |
| TimeTable.DifferentBookingsDiffer | src/components/scheduling/TimeTable.tsx:79-82 | two bookings with a different activity or a different owner address are never the same booking |
| TimeTable.IsEqualSlotIgnoresRest | src/components/scheduling/TimeTable.tsx:79-82 | only activity and owner address matter; details, owner name, booking time and the sync flag do not |
| TimeTable.IsEqualSlotProperties | src/components/scheduling/TimeTable.tsx:79-82 | the relation is symmetric and transitive, and a free cell equals nothing |
| TimeTable.CloseGroup | src/components/scheduling/TimeTable.tsx:92-98 | closing a run that follows the closed groups keeps them a tiling of maximal runs |
| TimeTable.ScanStep | src/components/scheduling/TimeTable.tsx:88-99 | a differing cell closes the open run and opens a new one; an equal cell extends it |
| TimeTable.ScanEnd | src/components/scheduling/TimeTable.tsx:101-105 | closing the last run completes a tiling of maximal runs |
| TimeTable.GetSlotGroups | src/components/scheduling/TimeTable.tsx:84-108 | the groups tile 0..n-1 in order (first starts at 0, last ends at n-1, each starts after the previous end) and each is a maximal run of equal bookings |
| TimeTable.TilingCovers | src/components/scheduling/TimeTable.tsx:84-108 | every time index lies in exactly one group |
| TimeTable.TilingOrdered | src/components/scheduling/TimeTable.tsx:84-108 | later groups lie strictly after earlier ones |
| TimeTable.GroupStartsExactlyAtBreaks | src/components/scheduling/TimeTable.tsx:88-99 | a group starts at index i exactly when i is 0 or its cell differs from the one before |
| TimeTable.EmptyCellIsSingleton | src/components/scheduling/TimeTable.tsx:88-99 | a free cell is always a group of its own |
| TimeTable.HeightsFillColumn | src/components/scheduling/TimeTable.tsx:250-254 | the heights end − start + 1 of the groups add up to the number of time slots |
| TimeTable.DaySlotGroups | src/components/scheduling/TimeTable.tsx:84-108 | the groups of a day column, built from the document's bookings at the catalogue's times, tile the column, and a group starts at a time exactly when it is the first or its booking differs from the previous time's |
| TimeTable.RenderGroup | src/components/scheduling/TimeTable.tsx:250-281 | a group's cell shows the booking at its first time, is as tall as the group, is disabled exactly for a "break" period, merges upwards exactly when booked and not first, and downwards exactly when booked and not last |
| TimeTable.DisabledSlots | src/components/scheduling/TimeTable.tsx:256 | exactly the break entries of the catalogue (indices 14-18 and 25-30) are disabled |
| TimeTable.JsRemainder | src/components/scheduling/TimeTable.tsx:136 | JavaScript's remainder: a non-negative dividend gives the ordinary remainder, a negative one a result in (−b, 0]; in both cases the dividend minus the result is a multiple of b |
| TimeTable.NextDayToShow | src/components/scheduling/TimeTable.tsx:134-143 | the next column is always in 1..6 |
| TimeTable.PrevDayToShow | src/components/scheduling/TimeTable.tsx:145-154 | the previous column is always in 1..6 |
| TimeTable.DayRotationSteps | src/components/scheduling/TimeTable.tsx:134-154 | forward maps 1..5 to the next column and 6 to 1; back maps 1 to 6 and 2..6 to the previous column |
| TimeTable.DayRotationInverse | src/components/scheduling/TimeTable.tsx:134-154 | within columns 1..6 each rotation undoes the other |
| TimeSlot.HasChangeEvent | src/components/scheduling/TimeSlot.tsx:139-144 | with a session, a booked cell reacts exactly when the owner is the session's address, a free cell exactly when enabled |
| TimeSlot.EditOnlyOwnBookings | src/components/scheduling/TimeSlot.tsx:139-144 | a signed-in user can edit only free cells and their own bookings, and never a free disabled cell |
| TimeSlot.NoSessionFreeCell | src/components/scheduling/TimeSlot.tsx:139-144 | without a session exactly the free cells react, disabled ones included |
| TimeSlot.CalculateColor | src/components/scheduling/TimeSlot.tsx:153-159 | a free cell is "#f9fafb"; a booking whose owner is set and not the commission gets the owner's colour in lower case; any other booking is "#f3f4f6" |
| TimeSlot.ColorsAreLowerCase | src/components/scheduling/TimeSlot.tsx:153-159 | no cell colour has a capital letter, whatever case the palette uses |
| TimeSlot.Background | src/components/scheduling/TimeSlot.tsx:164-169 | hover on an enabled cell wins, then the disabled colour, then the cell's colour |
| TimeSlot.ParseCommissionDetails | src/components/scheduling/TimeSlot.tsx:177-184 | class and teacher are set together or not at all, and neither is longer than the details |
| TimeSlot.CommissionLines | src/components/scheduling/TimeSlot.tsx:171-185 | a booking that is not the commission's or has no or empty details gets no lines; a commission booking with details gets the class and teacher parsed from them |
| TimeSlot.CommissionDetailsRoundTrip | src/components/scheduling/TimeSlot.tsx:177-184 | details written "class (teacher)" read back as the trimmed class and teacher |
| TimeSlot.MinutesRoundTrip | src/components/scheduling/TimeSlot.tsx:306-310 | any number of minutes written as "<h>h<m>min" (hour part only from 60 up) reads back as itself |
| TimeSlot.DurationLabel | src/components/scheduling/TimeSlot.tsx:306-310 | the label of a group reads back as its length, 15 minutes per slot; it is well formed ("<m>min", or "<h>h<m>min" with h at least 1, minutes under 60, no leading zeros) and has an hour part exactly from 60 minutes up |
| TimeSlot.WellFormedLabelUnique | src/components/scheduling/TimeSlot.tsx:306-310 | a well-formed label that reads back as some minutes is exactly the label written for them, so the label is determined by the length |
| TimeSlot.SlotId | src/components/scheduling/TimeSlot.tsx:59-61 | when the lab id and the day have no ":", the id is "<lab>-<day>-" followed by the time with its first ":" turned into "-", all in lower case; a missing day reads "undefined" |
| TimeSlot.SlotIdOfClockTime | src/components/scheduling/TimeSlot.tsx:59-61 | for an "HH:MM" time the id is "<lab>-<day>-HH-MM" in lower case: the first ":" is the time's |
| TimeSlot.PropsEqual | src/components/scheduling/TimeSlot.tsx:351-368 | a cell is not redrawn only when place and booking are the same |
| TimeSlot.PropsEqualExactly | src/components/scheduling/TimeSlot.tsx:351-368 | two free cells count as equal exactly when day, time, lab and week agree, whatever their merges and height; a booked cell is equal only to an identical one |
| TimeSlot.PropsEqualProperties | src/components/scheduling/TimeSlot.tsx:351-368 | the comparator is reflexive and symmetric; a booked cell is redrawn when its height or merges change |
| EmailColors.HasDuplicateColors | src/hooks/useEmailColors.ts:73-77 | the check is true exactly when two addresses of the table share a colour |
| EmailColors.DuplicateColorsMeansShared | src/hooks/useEmailColors.ts:73-77 | fewer distinct colours than entries holds exactly when two addresses share a colour |
| EmailColors.PickStable | src/hooks/useEmailColors.ts:79-103 | asking again for the same address returns the same colour and changes nothing |
| EmailColors.PickColor | src/hooks/useEmailColors.ts:79-103 | no address gets the last palette colour and changes nothing; an address with a colour keeps it, with table and counter unchanged; any other address gets the palette entry at the counter modulo 50 and the counter goes up by one; the colour is never empty, the address ends up with it, no other address is dropped or recoloured, and the table gains at most that address |
| EmailColors.PickWrapsAround | src/hooks/useEmailColors.ts:88-89 | the palette is used round-robin: counters n and n + 50 pick the same colour |
| EmailColors.PickKeepsCounted | src/hooks/useEmailColors.ts:79-103 | after a load the counter equals the number of coloured addresses, and every pick keeps it so |
| EmailColors.PickNewArrival | src/hooks/useEmailColors.ts:88-90 | with fewer than 50 counted addresses, a new one gets the palette entry at its arrival position |
| EmailColors.EmailColorStore.constructor | src/hooks/useEmailColors.ts:8-11 | the table is empty, the counter 0 and nothing is loaded |
| EmailColors.EmailColorStore.LoadColors | src/hooks/useEmailColors.ts:15-51 | a parsed table becomes the in-memory table with the counter at its size, the saved copy cleared on a shared colour; a parse failure gives {} and 0; loading is marked done |
| EmailColors.EmailColorStore.Persist | src/hooks/useEmailColors.ts:60-71 | once loaded, the saved copy becomes the in-memory table |
| EmailColors.EmailColorStore.GetEmailColor | src/hooks/useEmailColors.ts:79-103 | the colour, table and counter after the call are those `PickColor` gives for the old table and counter, so the round-robin rule holds of the hook's state |
| EmailColors.EmailColorStore.UpdateEmailColor | src/hooks/useEmailColors.ts:105-108 | only the given address's entry changes; the counter is untouched |
| EmailColors.LoadThenPersist | src/hooks/useEmailColors.ts:28-71 | loading a table and then persisting saves that same table, so clearing a shared-colour table does not last |
| ColorAssigner.GetColorForEmail | src/lib/colorAssigner.ts:3-27 | the colour and the stored table are those of `Assign`: a stored colour is kept and nothing is written; otherwise the entry at the table's size modulo 50 is returned and saved |
| ColorAssigner.AssignStable | src/lib/colorAssigner.ts:9-11 | a second request returns the same colour and writes nothing |
| ColorAssigner.AssignRecolorsBlank | src/lib/colorAssigner.ts:9-16 | an address stored with an empty colour is coloured afresh with the entry at the table's size modulo 50, and the table keeps its size |
| ColorAssigner.AssignWrapsAround | src/lib/colorAssigner.ts:14-15 | a new address gets the same colour from a table 50 entries larger |
| ColorAssigner.Assign | src/lib/colorAssigner.ts:3-27 | the colour is never empty; nothing is written exactly when the address has a stored non-empty colour, which is returned; otherwise the returned colour is the palette entry at the stored table's size modulo 50, and the written table is the stored one plus the address with that colour, every other entry kept |
| ColorAssigner.AssignNextEntry | src/lib/colorAssigner.ts:14-16 | a new address in a table of fewer than 50 gets the entry at the table's size, and the table grows by exactly that entry |
| HomePage.Back | src/pages/index.tsx:87-92 | at or before this week the week is unchanged; in a window ending by week 52, a later week steps back by one |
| HomePage.Forward | src/pages/index.tsx:117-120 | in a window ending by week 52, a week before the window's end steps forward by one and the end week is unchanged |
| HomePage.ButtonsKeepWindow | src/pages/index.tsx:87-120 | when the window ends by week 52, both buttons keep the week between this week and maxWeeks weeks ahead |
| HomePage.BackUndoesForward | src/pages/index.tsx:87-120 | below the window's end, back undoes forward |
| HomePage.ForwardUndoesBack | src/pages/index.tsx:87-120 | after this week, forward undoes back |
| HomePage.WrapBlocksBack | src/pages/index.tsx:88-92 | once forward wraps from 52 to 1, back stays at week 1 |
| HomePage.WeekNavigator.constructor | src/pages/index.tsx:26-28 | the shown week starts at this week's number |
| HomePage.WeekNavigator.StepBack | src/pages/index.tsx:87-92 | the shown week becomes `Back` of the old one; in a valid window it steps back by one exactly when after this week, and the window is kept |
| HomePage.WeekNavigator.StepForward | src/pages/index.tsx:117-120 | the shown week becomes `Forward` of the old one; in a valid window it steps forward by one exactly when before the window's end, and the window is kept |
| ActivityModal.Options | src/components/scheduling/ActivityModal.tsx:57-66 | one option per activity, in order, labelled with the activity |
| ActivityModal.OptionValue | src/components/scheduling/ActivityModal.tsx:61 | the value has the activity's length: "_" at its first space, the lower-cased character everywhere else |
| ActivityModal.FindByValue | src/components/scheduling/ActivityModal.tsx:74-79 | an option is found exactly when one has the value, and the one found has it |
| ActivityModal.FindByValueFirst | src/components/scheduling/ActivityModal.tsx:74-79 | the option found is the first one in the list with the value |
| ActivityModal.DefaultOption | src/components/scheduling/ActivityModal.tsx:68-72 | no default without a current activity; the default is an option labelled with it, and one exists whenever such an option does |
| ActivityModal.ChoosingAnOptionSelectsIt | src/components/scheduling/ActivityModal.tsx:57-83 | picking an activity's option finds that activity when no other activity has the same value |
| ActivityModal.FirstLettersSeparateOptions | src/components/scheduling/ActivityModal.tsx:57-83 | activities with distinct first letters, ignoring case, each select their own option |
| ActivityModal.DefaultActivitiesSelectable | src/components/scheduling/ActivityModal.tsx:57-83 | each of the four default activities is selected by its own option |
| ActivityModal.ActivityDialog.constructor | src/components/scheduling/ActivityModal.tsx:38-43 | selection and details start from the current values, or "" |
| ActivityModal.ActivityDialog.HandleChange | src/components/scheduling/ActivityModal.tsx:74-83 | the selection becomes the label of the first option with the value; an unknown value changes nothing; the details are kept |
| ActivityModal.ActivityDialog.SetDetails | src/components/scheduling/ActivityModal.tsx:152 | the details field takes the typed text; the selection is kept |
| ActivityModal.ActivityDialog.Confirm | src/components/scheduling/ActivityModal.tsx:47-55 | a selection is passed on exactly when one is made, with empty details passed as nothing |
| UserActivities.AddActivity | src/hooks/useUserActivities.ts:30-34 | the list is kept as a prefix; it grows by one exactly when the text is non-blank and not listed, and then the untrimmed text is appended; otherwise the list is unchanged |
| UserActivities.AddActivityNoDuplicates | src/hooks/useUserActivities.ts:30-34 | adding never creates a duplicate, and the text is listed afterwards exactly when it was listed or is non-blank |
| UserActivities.DefaultActivitiesDistinct | src/hooks/useUserActivities.ts:16-17 | the fixed list has four distinct activities |
| UserActivities.ActivityList.constructor | src/hooks/useUserActivities.ts:6-8 | the list starts empty, loading, with no error |
| UserActivities.ActivityList.FetchActivities | src/hooks/useUserActivities.ts:10-28 | without a session address nothing changes; with one, the list becomes the four default activities and loading ends |
| UserActivities.ActivityList.Add | src/hooks/useUserActivities.ts:30-34 | the list becomes the guarded append of the text |
| ListActivities.ParseSubjects | src/components/ListActivities/ListActivities.tsx:40-46 | no parsed subject is empty, padded with whitespace, or holds a comma |
| ListActivities.CleanPiecesAppend | src/components/ListActivities/ListActivities.tsx:44-45 | trimming and dropping blanks keeps the pieces' order |
| ListActivities.CleanPiecesOfClean | src/components/ListActivities/ListActivities.tsx:44-45 | clean pieces come through unchanged |
| ListActivities.ParseJoinedSubjects | src/components/ListActivities/ListActivities.tsx:40-46 | clean subjects joined with commas parse back as the same list |
| ListActivities.ParseSubjectsAppend | src/components/ListActivities/ListActivities.tsx:40-46 | the text before the first comma gives the first subject, trimmed, unless blank; the rest follow in order |
| ListActivities.SubjectsOf | src/components/ListActivities/ListActivities.tsx:38-50 | a string value lists exactly the parsed subjects of that string, all clean; a missing or non-string value lists nothing |
| ListActivities.EmptyTextListsNothing | src/components/ListActivities/ListActivities.tsx:38-50 | an empty subjects string lists nothing, so the truthiness check changes no result |
| ListActivities.SubjectsPanel.constructor | src/components/ListActivities/ListActivities.tsx:8-10 | the panel starts empty, loading, with no error |
| ListActivities.SubjectsPanel.Load | src/components/ListActivities/ListActivities.tsx:12-62 | without a session address loading ends and nothing else changes; a failed read gives [] and "Failed to load subjects"; a read clears the error and lists the subjects of the value, so a string value gives exactly its parsed subjects and any other value []; loading ends |
| Version.TextPieces | src/lib/version.ts:68-79 | a version text splits on "." into "1", the year offset, the two-digit month, the two-digit day, and HHmmss; `ConvertToCustomFormat` is this text for year − 2000 and the month counted from 1 |
| Version.TextReadsBack | src/lib/version.ts:68-79 | for any year offset, month and day under 100 and time of day, each number reads back from its dot-separated piece of the version text |
| Version.ConvertToCustomFormat | src/lib/version.ts:68-79 | a formatted version is never "1.0.0"; for a valid date each dot-separated piece reads back as 1, the year offset, the month (1-based), the day and the time |
| Version.ShortHash | src/lib/version.ts:51 | the short hash is the first seven characters of the hash, or all of a shorter one |
| Version.FirstLine | src/lib/version.ts:52 | the message is the commit message up to, and without, its first line break: a line-break-free prefix followed by a line break or the end, and the whole message exactly when it has no line break |
| Version.LastCommitInfo | src/lib/version.ts:28-65 | the error is set exactly when the reply is not a successful one, and then every field is empty; a refused request gives "GitHub API Error: <status> <text>"; a success carries the hash, date and author, the short hash `ShortHash(sha)` (the first seven characters) and the message's first line `FirstLine(message)` |
| Version.CommitSummary | src/lib/version.ts:48-55 | a commit's short hash is the first min(7, length) characters of its hash, and its message is the full message up to, and without, its first line break |
| Version.LastVersion | src/lib/version.ts:81-89 | "1.0.0" is shown exactly when no commit date is known |

## Left out

- The database (Supabase select, upsert and delete) is an input: the load's answer (`Fetch`) and whether an upsert is accepted. `SyncSlot` returns the operation it would send. The `SupabaseQueue` lock and the client singleton are concurrency and library wiring.
- The session is an input record. A missing e-mail or name is the empty string. The `!supabase` guard is left out because the client always exists.
- Dates and clocks are parameters: `getWeekNumber` (the current week), `new Date().getTime()` (the sync time), `toISOString` (an opaque booking time), `checkMinutePassed` (a boolean), and how `Date` reads the commit date in `version.ts` (a function parameter). `getDateFromWeek`, `getDateFromLastOfWeek`, `getDateAddedDays` and `getWeeks` are not part of this model.
- `DAYS_OF_WEEK_TO_ENGLISH`, `daysOfWeekPtBr`, `MAX_WEEKS_TO_SHOW` and `checkMinutePassed` are imported by the engine but not defined in `utils.ts`. The day tables are a `DayTable` parameter and the others are parameters.
- `src/hooks/useScheduleStorage.ts` does not define `whenSyncDb` or `saveWhenSyncDb`. They are modelled as the `syncedAt` field of `ScheduleStorage.Store`.
- `JSON.parse` and `JSON.stringify`, local storage and cookies are values: a parsed map, or nothing when parsing fails. Cookie writes and their max-age are left out.
- ScheduleStorage.Store.Save: a failed write, which the source catches and logs, is not modelled; every save succeeds.
- ColorAssigner.GetColorForEmail: the exception `JSON.parse` throws on a corrupt entry is not modelled.
- EmailColors: the `storage` event listener that reloads the table when another tab changes it is left out, as it is browser I/O.
- The React `colorsMap` state is the same table as `colorsMapRef.current`, because every update sets both.
- `titleCase` (a library) is a function parameter. `getEmailColor`, as passed to a cell, is a function parameter of `TimeSlot.CalculateColor`.
- `toLowerCase` and `toLocaleLowerCase` are modelled on ASCII letters only. Unicode case mapping is not modelled.
- `lodash.isEqual` is structural equality of the slot values.
- TimeSlot.PropsEqual: the comparator's `mergeTop` and `mergeBottom` are modelled as booleans. The `undefined` that `TimeTable` passes for a free cell counts as `false`.
- The source's `getNextTime` takes one argument. The second argument that `TimeSlot.tsx` passes, the clicked offset in a merged cell, is ignored, so clicks and context-menu positions are not modelled.
- The `details` argument that `TimeSlot.tsx` passes to `updateSlot` is not in the engine's signature and is dropped, as the engine does.
- `generateScheduleTableData` aliases its argument in the result. The model uses values, so aliasing is not captured; the result's contents are.
- The engine clones the document (`structuredClone`) before an edit. The model's value semantics gives the same result.
- The session-persisting effect of the engine is commented out in the source and is not modelled.
- `ListActivities`' `isMounted` flag guards against updates after unmounting, which is React lifecycle and is left out.
- `version.ts`'s network request to the hosting service is the `Reply` input. Its repository settings are constants.
- Rendering, styling, scrolling synchronisation, the context menu, toasts and console logging are UI.
- Utils.UserActivities: addresses that name properties JavaScript objects inherit ("constructor", "toString" and the like) are looked up as ordinary unknown addresses; in the source the lookup would return the inherited property.
- JsString.ToNumber: only trimmed strings of decimal digits are read as numbers; JavaScript's `Number` also reads signs, decimals and exponents ("-1", "1.5", "1e1"), which the clock and week texts of the application do not contain.
- The home page's date labels and its loading and login screens are UI.
- `TimeTableRow.tsx`, `ContextMenu.tsx` and the other presentational components are not part of this model.
- The authentication handler, `useUserActivitiesStorage.ts` and the type declarations are not part of this model. The type declarations give the datatypes' shapes.
