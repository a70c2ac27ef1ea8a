/**
  The persistence layer of state.js: saving the state to the backend and to the
  browser's local storage, loading it back at start-up (with the one-time
  migration of a local snapshot into an empty backend), and the helpers that
  save or delete one activity, student or time slot.

  Every request a run sends either succeeds or fails together (`fails`). The
  requests the source sends concurrently (`Promise.all`) are sent here one
  after the other; they touch different rows, so the outcome is the same.
 */
module Persistence {
  import opened Text
  import opened Domain
  import opened Store
  import opened Database

  /** The browser's local storage entry `teacherDashboardData`, parsed. */
  class LocalStorage {
    var saved: Option<Snapshot>

    constructor (saved: Option<Snapshot>)
      ensures this.saved == saved
    {
      this.saved := saved;
    }
  }

  // ---------------------------------------------------------------------------
  // the local snapshot
  // ---------------------------------------------------------------------------

  /** loadFromLocalStorage: every field of the snapshot, an absent one read as empty. */
  function LoadSnapshot(s: Snapshot): AppData
  {
    AppData(s.activities.GetOr([]), s.students.GetOr([]), s.timeSlots.GetOr([]),
            s.schedule.GetOr(map[]), s.overrides.GetOr([]), s.classEntries.GetOr(map[]),
            s.courseStartDate.GetOr(""), s.courseEndDate.GetOr(""))
  }

  /** The snapshot saveState writes: all eight data fields; loading it gives them back. */
  function SnapshotOf(d: AppData): (s: Snapshot)
    ensures s.schedule.Some? && s.classEntries.Some?
    ensures LoadSnapshot(s) == d
  {
    Snapshot(Some(d.activities), Some(d.students), Some(d.timeSlots), Some(d.schedule),
             Some(d.overrides), Some(d.classEntries), Some(d.courseStartDate), Some(d.courseEndDate))
  }

  /** loadFromLocalStorage: a saved snapshot replaces the eight data fields; without one nothing changes. */
  method LoadFromLocalStorage(st: AppState, storage: LocalStorage)
    modifies st
    ensures st.View() == old(st.View())
    ensures st.Data() == if storage.saved.Some? then LoadSnapshot(storage.saved.value) else old(st.Data())
  {
    if storage.saved.Some? {
      var parsed := storage.saved.value;
      st.SetData(AppData(parsed.activities.GetOr([]), parsed.students.GetOr([]), parsed.timeSlots.GetOr([]),
                         parsed.schedule.GetOr(map[]), parsed.overrides.GetOr([]),
                         parsed.classEntries.GetOr(map[]), parsed.courseStartDate.GetOr(""),
                         parsed.courseEndDate.GetOr("")));
    }
  }

  // ---------------------------------------------------------------------------
  // saveState
  // ---------------------------------------------------------------------------

  /** The slots of a schedule that hold an activity (an empty value marks a free slot). */
  function NonEmpty(m: map<string, string>): map<string, string>
  {
    map k | k in m && m[k] != "" :: m[k]
  }

  /** `view` once the keys of `ks` that `m` lacks have been deleted. */
  function Prune(view: map<string, string>, m: map<string, string>, ks: seq<string>): map<string, string>
  {
    map k | k in view && (k in ks ==> k in m) :: view[k]
  }

  /** A key whose value the backend already holds is skipped without changing the outcome. */
  lemma OverlaySkip(current: map<string, string>, m: map<string, string>, done: seq<string>, k: string)
    requires KeysIn(done, m) && k in m && k !in done
    requires k in current && current[k] == m[k] && m[k] != ""
    ensures KeysIn(done + [k], m)
    ensures Overlay(current, m, done + [k]) == Overlay(current, m, done)
  {
    OverlayStep(current, m, done, k);
    assert Overlay(current, m, done)[k] == m[k];
  }

  /** One step of the first loop: the slot is written when its value differs, and skipped otherwise. */
  lemma WriteChangedStep(before: seq<ScheduleRow>, current: map<string, string>, m: map<string, string>,
                         keys: seq<string>, i: nat)
    requires NoDuplicates(keys) && KeysIn(keys, m) && i < |keys|
    requires forall k :: k in current ==> current[k] != ""
    requires ScheduleOf(before) == Overlay(current, m, keys[..i])
    ensures keys[..i + 1] == keys[..i] + [keys[i]]
    ensures var k := keys[i];
      ScheduleOf(if k !in current || current[k] != m[k] then WriteSlot(before, k, Some(m[k])) else before)
        == Overlay(current, m, keys[..i + 1])
  {
    var k := keys[i];
    assert keys[..i + 1] == keys[..i] + [k];
    assert k !in keys[..i];
    if k !in current || current[k] != m[k] {
      WriteSlotView(before, k, Some(m[k]));
      OverlayStep(current, m, keys[..i], k);
    } else {
      OverlaySkip(current, m, keys[..i], k);
    }
  }

  /** Deleting one more key. */
  lemma PruneStep(view: map<string, string>, m: map<string, string>, ks: seq<string>, k: string)
    ensures Prune(view, m, ks + [k]) == if k in m then Prune(view, m, ks) else Prune(view, m, ks) - {k}
  {
    assert forall j :: j in ks + [k] <==> j in ks || j == k;
  }

  /**
    After both loops of saveState the backend holds exactly the slots of the
    state that name an activity: the first loop wrote every key of the state,
    the second deleted every key the backend held and the state lacks.
   */
  lemma {:induction false} SyncComplete(current: map<string, string>, s: map<string, string>,
                                        keys: seq<string>, currentKeys: seq<string>)
    requires KeysIn(keys, s) && forall k :: k in s ==> k in keys
    requires forall k :: k in current ==> k in currentKeys
    ensures Prune(Overlay(current, s, keys), s, currentKeys) == NonEmpty(s)
  {
    var lhs := Prune(Overlay(current, s, keys), s, currentKeys);
    forall k
      ensures k in lhs <==> k in NonEmpty(s)
      ensures k in lhs ==> lhs[k] == NonEmpty(s)[k]
    {
      if k in s {
        assert k in keys;
      } else if k in current {
        assert k in currentKeys;
      }
    }
  }

  /**
    The first loop of saveState's schedule part: every slot of `schedule` whose
    value differs from what the backend reported (`current`) is written.
   */
  method WriteChangedSlots(db: DatabaseService, schedule: map<string, string>, keys: seq<string>,
                           current: map<string, string>, fails: bool)
    requires Enumerates(keys, schedule)
    requires db.Available() && !fails ==> current == ScheduleOf(db.schedules)
    requires forall k :: k in current ==> current[k] != ""
    modifies db
    ensures db.initialized == old(db.initialized) && db.useSupabase == old(db.useSupabase)
    ensures db.Contents() == old(db.Contents()).(schedules := db.schedules)
    ensures db.Available() && !fails ==> ScheduleOf(db.schedules) == Overlay(current, schedule, keys)
    ensures !(db.Available() && !fails) ==> db.schedules == old(db.schedules)
  {
    var on := db.Available() && !fails;
    if on {
      assert Overlay(current, schedule, []) == current;
    }
    var i := 0;
    while i < |keys|
      invariant 0 <= i <= |keys|
      invariant db.initialized == old(db.initialized) && db.useSupabase == old(db.useSupabase)
      invariant db.Contents() == old(db.Contents()).(schedules := db.schedules)
      invariant on ==> ScheduleOf(db.schedules) == Overlay(current, schedule, keys[..i])
      invariant !on ==> db.schedules == old(db.schedules)
    {
      var dayTimeKey := keys[i];
      var activityId := schedule[dayTimeKey];
      var changed := dayTimeKey !in current || current[dayTimeKey] != activityId;
      ghost var after := if changed then WriteSlot(db.schedules, dayTimeKey, Some(activityId)) else db.schedules;
      if on {
        WriteChangedStep(db.schedules, current, schedule, keys, i);
        assert ScheduleOf(after) == Overlay(current, schedule, keys[..i + 1]);
      }
      if changed {
        db.UpdateScheduleSlot(dayTimeKey, Some(activityId), fails);
      }
      assert on ==> db.schedules == after;
      i := i + 1;
    }
    assert keys[..i] == keys;
  }

  /** The second loop: every slot of `currentKeys` that `schedule` lacks is deleted. */
  method DeleteMissingSlots(db: DatabaseService, schedule: map<string, string>, currentKeys: seq<string>,
                            fails: bool)
    modifies db
    ensures db.initialized == old(db.initialized) && db.useSupabase == old(db.useSupabase)
    ensures db.Contents() == old(db.Contents()).(schedules := db.schedules)
    ensures db.Available() && !fails ==>
      ScheduleOf(db.schedules) == Prune(old(ScheduleOf(db.schedules)), schedule, currentKeys)
    ensures !(db.Available() && !fails) ==> db.schedules == old(db.schedules)
  {
    var on := db.Available() && !fails;
    ghost var written := ScheduleOf(db.schedules);
    assert Prune(written, schedule, []) == written;
    var j := 0;
    while j < |currentKeys|
      invariant 0 <= j <= |currentKeys|
      invariant db.initialized == old(db.initialized) && db.useSupabase == old(db.useSupabase)
      invariant db.Contents() == old(db.Contents()).(schedules := db.schedules)
      invariant on ==> ScheduleOf(db.schedules) == Prune(written, schedule, currentKeys[..j])
      invariant !on ==> db.schedules == old(db.schedules)
    {
      var dayTimeKey := currentKeys[j];
      assert currentKeys[..j + 1] == currentKeys[..j] + [dayTimeKey];
      PruneStep(written, schedule, currentKeys[..j], dayTimeKey);
      if dayTimeKey !in schedule {
        ghost var before := db.schedules;
        db.UpdateScheduleSlot(dayTimeKey, None, fails);
        if on {
          WriteSlotView(before, dayTimeKey, None);
        }
      }
      j := j + 1;
    }
    assert currentKeys[..j] == currentKeys;
  }

  /**
    The schedule part of saveState: reads what the backend holds, writes every
    slot of `schedule` whose value differs, then deletes every slot the backend
    held that `schedule` lacks. When the backend answers, it then holds
    exactly the slots of `schedule` that name an activity.
   */
  method SyncSchedule(db: DatabaseService, schedule: map<string, string>, keys: seq<string>, fails: bool)
    requires Enumerates(keys, schedule)
    modifies db
    ensures db.initialized == old(db.initialized) && db.useSupabase == old(db.useSupabase)
    ensures db.Contents() == old(db.Contents()).(schedules := db.schedules)
    ensures db.Available() && !fails ==> ScheduleOf(db.schedules) == NonEmpty(schedule)
    ensures !(db.Available() && !fails) ==> db.schedules == old(db.schedules)
  {
    var current, currentKeys := db.GetSchedule(fails);
    WriteChangedSlots(db, schedule, keys, current, fails);
    DeleteMissingSlots(db, schedule, currentKeys, fails);
    if db.Available() && !fails {
      SyncComplete(current, schedule, keys, currentKeys);
    }
  }

  /**
    saveState: nothing while a load is running. Otherwise the course dates are
    written when either is set, the backend schedule is brought in line with
    the state's, every class entry is written, and the whole state is kept as
    the local snapshot. When the backend answers, it then holds exactly the
    state's non-empty slots, and every entry of the state in stored form next
    to the entries it held before.
   */
  method SaveState(st: AppState, db: DatabaseService, storage: LocalStorage,
                   scheduleKeys: seq<string>, entryKeys: seq<string>, fails: bool)
    requires Enumerates(scheduleKeys, st.schedule) && Enumerates(entryKeys, st.classEntries)
    modifies db, storage
    ensures db.initialized == old(db.initialized) && db.useSupabase == old(db.useSupabase)
    ensures old(st.isLoading) ==> db.Contents() == old(db.Contents()) && storage.saved == old(storage.saved)
    ensures !old(st.isLoading) ==> storage.saved == Some(SnapshotOf(st.Data()))
    ensures !(db.Available() && !fails) ==> db.Contents() == old(db.Contents())
    ensures !old(st.isLoading) && db.Available() && !fails ==>
      && db.activities == old(db.activities) && db.students == old(db.students)
      && db.timeSlots == old(db.timeSlots) && db.overrides == old(db.overrides)
      && db.courseSettings == (if st.courseStartDate != "" || st.courseEndDate != ""
                               then WriteSettings(old(db.courseSettings), st.courseStartDate, st.courseEndDate)
                               else old(db.courseSettings))
      && ScheduleOf(db.schedules) == NonEmpty(st.schedule)
      && EntriesOf(db.classEntries) == EntriesOverlay(old(EntriesOf(db.classEntries)), st.classEntries, entryKeys)
      && EntriesWritten(EntriesOf(db.classEntries), st.classEntries)
  {
    if st.isLoading {
      return;
    }
    if st.courseStartDate != "" || st.courseEndDate != "" {
      db.UpdateCourseSettings(st.courseStartDate, st.courseEndDate, fails);
    }
    SyncSchedule(db, st.schedule, scheduleKeys, fails);
    ghost var entriesBefore := db.classEntries;
    db.WriteClassEntries(st.classEntries, entryKeys, fails);
    WriteEntriesView(entriesBefore, st.classEntries, entryKeys);
    storage.saved := Some(Snapshot(Some(st.activities), Some(st.students), Some(st.timeSlots),
                                   Some(st.schedule), Some(st.scheduleOverrides), Some(st.classEntries),
                                   Some(st.courseStartDate), Some(st.courseEndDate)));
  }

  // ---------------------------------------------------------------------------
  // loadState
  // ---------------------------------------------------------------------------

  /** What the seven getters answer, as the state's data: nothing at all when the backend is off. */
  function Fetched(t: Tables, on: bool): AppData
  {
    if !on then AppData([], [], [], map[], [], map[], "", "")
    else
      var settings := SettingsOf(t.courseSettings);
      AppData(t.activities, t.students, t.timeSlots, ScheduleOf(t.schedules), t.overrides,
              EntriesOf(t.classEntries), settings.courseStartDate, settings.courseEndDate)
  }

  /** loadState's test for a backend that already holds data (overrides and entries do not count). */
  predicate HasData(d: AppData)
  {
    |d.activities| > 0 || |d.students| > 0 || |d.timeSlots| > 0 || |d.schedule| > 0
  }

  /** The key orders a migration of `saved` walks its two objects in. */
  ghost predicate MigrationKeys(saved: Option<Snapshot>, scheduleKeys: seq<string>, entryKeys: seq<string>)
  {
    saved.Some? ==>
      && (saved.value.schedule.Some? ==> Enumerates(scheduleKeys, saved.value.schedule.value))
      && (saved.value.classEntries.Some? ==> Enumerates(entryKeys, saved.value.classEntries.value))
  }

  /**
    The backend after a load: the snapshot is migrated into it when the
    backend answered with no data and there is a snapshot.
   */
  function TablesAfterLoad(t: Tables, available: bool, fails: bool, saved: Option<Snapshot>,
                           scheduleKeys: seq<string>, entryKeys: seq<string>): Tables
    requires MigrationKeys(saved, scheduleKeys, entryKeys)
  {
    if !HasData(Fetched(t, available && !fails)) && saved.Some? && available && !fails
    then Migrated(t, saved.value, scheduleKeys, entryKeys)
    else t
  }

  /**
    The data loadState leaves in the state as the source writes it
    (`available` is the backend's availability once the schema probe ran):
    the backend's answer, or, when it had no data and a snapshot exists, the
    backend's answer after the migration, even when that migration was skipped.
   */
  function LoadedAsWritten(t: Tables, available: bool, fails: bool, saved: Option<Snapshot>,
                           scheduleKeys: seq<string>, entryKeys: seq<string>): AppData
    requires MigrationKeys(saved, scheduleKeys, entryKeys)
  {
    var on := available && !fails;
    var first := Fetched(t, on);
    if HasData(first) || saved.None? then first
    else Fetched(TablesAfterLoad(t, available, fails, saved, scheduleKeys, entryKeys), on)
  }

  /**
    The data loadState should leave: as written, except that a snapshot the
    backend cannot take (the migration answers false) is loaded instead.
   */
  function Loaded(t: Tables, available: bool, fails: bool, saved: Option<Snapshot>,
                  scheduleKeys: seq<string>, entryKeys: seq<string>): AppData
    requires MigrationKeys(saved, scheduleKeys, entryKeys)
  {
    var on := available && !fails;
    var first := Fetched(t, on);
    if HasData(first) || saved.None? then first
    else if !available then LoadSnapshot(saved.value)
    else Fetched(TablesAfterLoad(t, available, fails, saved, scheduleKeys, entryKeys), on)
  }

  /** The seven getters, their answers copied into the state. */
  method FetchAll(st: AppState, db: DatabaseService, fails: bool)
    modifies st
    ensures st.View() == old(st.View())
    ensures st.Data() == Fetched(db.Contents(), db.Available() && !fails)
  {
    var activities := db.GetActivities(fails);
    var students := db.GetStudents(fails);
    var timeSlots := db.GetTimeSlots(fails);
    var schedule, _ := db.GetSchedule(fails);
    var overrides := db.GetScheduleOverrides(fails);
    var classEntries := db.GetClassEntries(fails);
    var settings := db.GetCourseSettings(fails);
    st.SetData(AppData(activities, students, timeSlots, schedule, overrides, classEntries,
                       settings.courseStartDate, settings.courseEndDate));
  }

  /** migrateFromLocalStorage of state.js as written: migrate, then reload from the backend. */
  method MigrateFromLocalStorageAsWritten(st: AppState, db: DatabaseService, storage: LocalStorage,
                                          scheduleKeys: seq<string>, entryKeys: seq<string>, fails: bool)
    requires MigrationKeys(storage.saved, scheduleKeys, entryKeys)
    modifies st, db
    ensures st.View() == old(st.View())
    ensures db.initialized == old(db.initialized) && db.useSupabase == old(db.useSupabase)
    ensures db.Contents() == if storage.saved.Some? && db.Available() && !fails
      then Migrated(old(db.Contents()), storage.saved.value, scheduleKeys, entryKeys)
      else old(db.Contents())
    ensures storage.saved.Some? && db.Available() && !fails ==>
      && (storage.saved.value.schedule.Some? ==> SlotsWritten(ScheduleOf(db.schedules), storage.saved.value.schedule.value))
      && (storage.saved.value.classEntries.Some? ==>
            EntriesWritten(EntriesOf(db.classEntries), storage.saved.value.classEntries.value))
    ensures st.Data() == if storage.saved.Some? then Fetched(db.Contents(), db.Available() && !fails)
      else old(st.Data())
  {
    if storage.saved.Some? {
      var _ := db.Migrate(storage.saved.value, scheduleKeys, entryKeys, fails);
      FetchAll(st, db, fails);
    }
  }

  /** migrateFromLocalStorage corrected: a snapshot the backend did not take is loaded instead. */
  method MigrateFromLocalStorage(st: AppState, db: DatabaseService, storage: LocalStorage,
                                 scheduleKeys: seq<string>, entryKeys: seq<string>, fails: bool)
    requires MigrationKeys(storage.saved, scheduleKeys, entryKeys)
    modifies st, db
    ensures st.View() == old(st.View())
    ensures db.initialized == old(db.initialized) && db.useSupabase == old(db.useSupabase)
    ensures db.Contents() == if storage.saved.Some? && db.Available() && !fails
      then Migrated(old(db.Contents()), storage.saved.value, scheduleKeys, entryKeys)
      else old(db.Contents())
    ensures storage.saved.Some? && db.Available() && !fails ==>
      && (storage.saved.value.schedule.Some? ==> SlotsWritten(ScheduleOf(db.schedules), storage.saved.value.schedule.value))
      && (storage.saved.value.classEntries.Some? ==>
            EntriesWritten(EntriesOf(db.classEntries), storage.saved.value.classEntries.value))
    ensures st.Data() ==
      if storage.saved.None? then old(st.Data())
      else if !db.Available() then LoadSnapshot(storage.saved.value)
      else Fetched(db.Contents(), !fails)
  {
    if storage.saved.Some? {
      var migrated := db.Migrate(storage.saved.value, scheduleKeys, entryKeys, fails);
      if migrated {
        FetchAll(st, db, fails);
      } else {
        LoadFromLocalStorage(st, storage);
      }
    }
  }

  /**
    loadState as written: probes the schema, loads the backend's answer, and
    migrates the local snapshot when the backend had no data. The state ends
    online and not loading.
   */
  method LoadStateAsWritten(st: AppState, db: DatabaseService, storage: LocalStorage, probeThrows: bool,
                            scheduleKeys: seq<string>, entryKeys: seq<string>, fails: bool)
    requires MigrationKeys(storage.saved, scheduleKeys, entryKeys)
    modifies st, db
    ensures st.View() == old(st.View()).(isLoading := false, isOnline := true)
    ensures db.initialized
    ensures db.useSupabase <==> old(db.useSupabase) && !(old(db.Available()) && probeThrows)
    ensures db.Contents() == TablesAfterLoad(old(db.Contents()), old(db.Available()) && !probeThrows, fails,
                                             storage.saved, scheduleKeys, entryKeys)
    ensures st.Data() == LoadedAsWritten(old(db.Contents()), old(db.Available()) && !probeThrows, fails,
                                         storage.saved, scheduleKeys, entryKeys)
  {
    st.isLoading := true;
    var _ := db.InitializeSchema(probeThrows);
    FetchAll(st, db, fails);
    st.isOnline := true;
    if !HasData(st.Data()) {
      MigrateFromLocalStorageAsWritten(st, db, storage, scheduleKeys, entryKeys, fails);
    }
    st.isLoading := false;
  }

  /** loadState with the corrected migration step. */
  method LoadState(st: AppState, db: DatabaseService, storage: LocalStorage, probeThrows: bool,
                   scheduleKeys: seq<string>, entryKeys: seq<string>, fails: bool)
    requires MigrationKeys(storage.saved, scheduleKeys, entryKeys)
    modifies st, db
    ensures st.View() == old(st.View()).(isLoading := false, isOnline := true)
    ensures db.initialized
    ensures db.useSupabase <==> old(db.useSupabase) && !(old(db.Available()) && probeThrows)
    ensures db.Contents() == TablesAfterLoad(old(db.Contents()), old(db.Available()) && !probeThrows, fails,
                                             storage.saved, scheduleKeys, entryKeys)
    ensures st.Data() == Loaded(old(db.Contents()), old(db.Available()) && !probeThrows, fails,
                                storage.saved, scheduleKeys, entryKeys)
  {
    st.isLoading := true;
    var _ := db.InitializeSchema(probeThrows);
    FetchAll(st, db, fails);
    st.isOnline := true;
    if !HasData(st.Data()) {
      MigrateFromLocalStorage(st, db, storage, scheduleKeys, entryKeys, fails);
    }
    st.isLoading := false;
  }

  /**
    As written, a load with the backend off ignores the local snapshot: the
    state always ends empty, so data saved while offline is not read back.
   */
  lemma OfflineLoadLosesSnapshot(t: Tables, fails: bool, d: AppData, scheduleKeys: seq<string>, entryKeys: seq<string>)
    requires HasData(d) && MigrationKeys(Some(SnapshotOf(d)), scheduleKeys, entryKeys)
    ensures LoadedAsWritten(t, false, fails, Some(SnapshotOf(d)), scheduleKeys, entryKeys) == EmptyData()
    ensures LoadedAsWritten(t, false, fails, Some(SnapshotOf(d)), scheduleKeys, entryKeys) != d
  {
  }

  /**
    Corrected, what saveState keeps locally while the backend is off is
    exactly what the next load with the backend off gives back.
   */
  lemma OfflineRoundTrip(t: Tables, fails: bool, d: AppData, scheduleKeys: seq<string>, entryKeys: seq<string>)
    requires MigrationKeys(Some(SnapshotOf(d)), scheduleKeys, entryKeys)
    ensures Loaded(t, false, fails, Some(SnapshotOf(d)), scheduleKeys, entryKeys) == d
  {
  }

  // ---------------------------------------------------------------------------
  // saving and deleting one record
  // ---------------------------------------------------------------------------

  /**
    saveActivity: an activity with an id is updated in the backend; one without
    is created, and the element of the state that is that very activity is
    replaced by the backend's answer (which is the activity itself).
   */
  method SaveActivity(st: AppState, db: DatabaseService, activity: Activity, fails: bool)
    modifies st, db
    ensures st.View() == old(st.View()) && st.Data() == old(st.Data())
    ensures db.initialized == old(db.initialized) && db.useSupabase == old(db.useSupabase)
    ensures db.Contents() == if !(db.Available() && !fails) then old(db.Contents())
      else if activity.id != "" then old(db.Contents()).(activities := Replace(old(db.activities), IdOfActivity, activity.id, activity))
      else old(db.Contents()).(activities := Insert(old(db.activities), IdOfActivity, activity))
  {
    if activity.id != "" {
      var _ := db.UpdateActivity(activity.id, activity, fails);
    } else {
      var newActivity := db.CreateActivity(activity, fails);
      var index := FindFirst(st.activities, (a: Activity) => a == activity);
      if index.Some? {
        st.activities := st.activities[index.value := newActivity];
      }
    }
  }

  /** saveStudent: the same for a student. */
  method SaveStudent(st: AppState, db: DatabaseService, student: Student, fails: bool)
    modifies st, db
    ensures st.View() == old(st.View()) && st.Data() == old(st.Data())
    ensures db.initialized == old(db.initialized) && db.useSupabase == old(db.useSupabase)
    ensures db.Contents() == if !(db.Available() && !fails) then old(db.Contents())
      else if student.id != "" then old(db.Contents()).(students := Replace(old(db.students), IdOfStudent, student.id, student))
      else old(db.Contents()).(students := Insert(old(db.students), IdOfStudent, student))
  {
    if student.id != "" {
      var _ := db.UpdateStudent(student.id, student, fails);
    } else {
      var newStudent := db.CreateStudent(student, fails);
      var index := FindFirst(st.students, (s: Student) => s == student);
      if index.Some? {
        st.students := st.students[index.value := newStudent];
      }
    }
  }

  /** saveTimeSlot: the same for a time slot. */
  method SaveTimeSlot(st: AppState, db: DatabaseService, slot: TimeSlot, fails: bool)
    modifies st, db
    ensures st.View() == old(st.View()) && st.Data() == old(st.Data())
    ensures db.initialized == old(db.initialized) && db.useSupabase == old(db.useSupabase)
    ensures db.Contents() == if !(db.Available() && !fails) then old(db.Contents())
      else if slot.id != "" then old(db.Contents()).(timeSlots := Replace(old(db.timeSlots), IdOfSlot, slot.id, slot))
      else old(db.Contents()).(timeSlots := Insert(old(db.timeSlots), IdOfSlot, slot))
  {
    if slot.id != "" {
      var _ := db.UpdateTimeSlot(slot.id, slot, fails);
    } else {
      var newSlot := db.CreateTimeSlot(slot, fails);
      var index := FindFirst(st.timeSlots, (t: TimeSlot) => t == slot);
      if index.Some? {
        st.timeSlots := st.timeSlots[index.value := newSlot];
      }
    }
  }

  /** deleteActivity: removed from the backend (when it answers) and from the state in any case. */
  method DeleteActivity(st: AppState, db: DatabaseService, id: string, fails: bool)
    modifies st, db
    ensures st.View() == old(st.View())
    ensures st.Data() == old(st.Data()).(activities := DropById(old(st.activities), IdOfActivity, id))
    ensures db.initialized == old(db.initialized) && db.useSupabase == old(db.useSupabase)
    ensures db.Contents() == if db.Available() && !fails
      then old(db.Contents()).(activities := DropById(old(db.activities), IdOfActivity, id))
      else old(db.Contents())
  {
    db.DeleteActivity(id, fails);
    st.activities := DropById(st.activities, IdOfActivity, id);
  }

  /** deleteStudent. */
  method DeleteStudent(st: AppState, db: DatabaseService, id: string, fails: bool)
    modifies st, db
    ensures st.View() == old(st.View())
    ensures st.Data() == old(st.Data()).(students := DropById(old(st.students), IdOfStudent, id))
    ensures db.initialized == old(db.initialized) && db.useSupabase == old(db.useSupabase)
    ensures db.Contents() == if db.Available() && !fails
      then old(db.Contents()).(students := DropById(old(db.students), IdOfStudent, id))
      else old(db.Contents())
  {
    db.DeleteStudent(id, fails);
    st.students := DropById(st.students, IdOfStudent, id);
  }

  /** deleteTimeSlot. */
  method DeleteTimeSlot(st: AppState, db: DatabaseService, id: string, fails: bool)
    modifies st, db
    ensures st.View() == old(st.View())
    ensures st.Data() == old(st.Data()).(timeSlots := DropById(old(st.timeSlots), IdOfSlot, id))
    ensures db.initialized == old(db.initialized) && db.useSupabase == old(db.useSupabase)
    ensures db.Contents() == if db.Available() && !fails
      then old(db.Contents()).(timeSlots := DropById(old(db.timeSlots), IdOfSlot, id))
      else old(db.Contents())
  {
    db.DeleteTimeSlot(id, fails);
    st.timeSlots := DropById(st.timeSlots, IdOfSlot, id);
  }
}
