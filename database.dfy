/**
  The storage backend adapter (class DatabaseService of database.js): the
  availability flag, the seven tables it reads and writes, and the conversion
  between table rows and the shapes the application keeps in its state.

  A network or server error on a request is the parameter `fails`; the
  adapter never lets one escape: a read then answers with an empty value and
  a write with the caller's own record, and the tables stay as they were.
 */
module Database {
  import opened Text
  import opened Domain

  /** A row of `schedules`; `None` is a null `activity_id`. */
  datatype ScheduleRow = ScheduleRow(dayTimeKey: string, activityId: Option<string>)

  /** A row of `class_entries`; `date` is `None` when the entry key holds no `_`. */
  datatype EntryRow = EntryRow(
    entryKey: string,
    activityId: string,
    date: Option<string>,
    summary: string,
    annotations: map<string, string>)

  /** A row of `course_settings`; `None` is null. Rows are kept oldest first. */
  datatype SettingsRow = SettingsRow(startDate: Option<string>, endDate: Option<string>)

  /** The answer of getCourseSettings. */
  datatype CourseSettings = CourseSettings(courseStartDate: string, courseEndDate: string)

  /** The contents of the backend. */
  datatype Tables = Tables(
    activities: seq<Activity>,
    students: seq<Student>,
    timeSlots: seq<TimeSlot>,
    schedules: seq<ScheduleRow>,
    overrides: seq<Override>,
    classEntries: seq<EntryRow>,
    courseSettings: seq<SettingsRow>)

  /** A JavaScript string or null used as a condition: truthy when present and non-empty. */
  predicate Truthy(s: Option<string>)
  {
    s.Some? && s.value != ""
  }

  // ---------------------------------------------------------------------------
  // row operations
  // ---------------------------------------------------------------------------

  /** Some row has primary key `key`. */
  predicate KeyTaken<T>(rows: seq<T>, keyOf: T -> string, key: string)
  {
    exists i :: 0 <= i < |rows| && keyOf(rows[i]) == key
  }

  /** `insert([x])`: appends `x`, or is refused when its primary key is taken. */
  function Insert<T>(rows: seq<T>, keyOf: T -> string, x: T): seq<T>
  {
    if KeyTaken(rows, keyOf, keyOf(x)) then rows else rows + [x]
  }

  /** `update(x).eq(key, k)`: every row with key `k` becomes `x`. */
  function Replace<T>(rows: seq<T>, keyOf: T -> string, k: string, x: T): (r: seq<T>)
    ensures |r| == |rows|
    ensures forall i :: 0 <= i < |rows| ==> r[i] == if keyOf(rows[i]) == k then x else rows[i]
  {
    seq(|rows|, i requires 0 <= i < |rows| => if keyOf(rows[i]) == k then x else rows[i])
  }

  /**
    `upsert([x])`: the row with `x`'s key is replaced by `x`. Rows are read back
    in no guaranteed order, so the model puts the written row last.
   */
  function Upsert<T(!new)>(rows: seq<T>, keyOf: T -> string, x: T): seq<T>
  {
    DropById(rows, keyOf, keyOf(x)) + [x]
  }

  /** `insert` of each of `xs` in turn. */
  function InsertAll<T>(rows: seq<T>, keyOf: T -> string, xs: seq<T>): seq<T>
  {
    if xs == [] then rows
    else Insert(InsertAll(rows, keyOf, xs[..|xs| - 1]), keyOf, xs[|xs| - 1])
  }

  /** Inserting records with fresh, pairwise distinct keys appends them all. */
  lemma {:induction false} InsertAllFresh<T>(rows: seq<T>, keyOf: T -> string, xs: seq<T>)
    requires forall i, j :: 0 <= i < j < |xs| ==> keyOf(xs[i]) != keyOf(xs[j])
    requires forall i :: 0 <= i < |xs| ==> !KeyTaken(rows, keyOf, keyOf(xs[i]))
    ensures InsertAll(rows, keyOf, xs) == rows + xs
  {
    if xs != [] {
      var init, last := xs[..|xs| - 1], xs[|xs| - 1];
      InsertAllFresh(rows, keyOf, init);
      assert !KeyTaken(rows + init, keyOf, keyOf(last));
      assert xs == init + [last];
    }
  }

  /**
    What reading a table into an object gives: row by row, `valueOf` says what
    the row stores under its key, or that it is skipped; a later row overwrites
    an earlier one with the same key.
   */
  function RowsView<T, V>(rows: seq<T>, keyOf: T -> string, valueOf: T -> Option<V>): map<string, V>
  {
    if rows == [] then map[]
    else
      var before := RowsView(rows[..|rows| - 1], keyOf, valueOf);
      var last := rows[|rows| - 1];
      match valueOf(last)
      case Some(v) => before[keyOf(last) := v]
      case None => before
  }

  /**
    The key order of that object (`Object.keys`): keys in the order they were
    first assigned, each once, exactly the keys of the object.
   */
  function RowsKeys<T, V>(rows: seq<T>, keyOf: T -> string, valueOf: T -> Option<V>): (ks: seq<string>)
    ensures NoDuplicates(ks)
    ensures forall k :: k in ks <==> k in RowsView(rows, keyOf, valueOf)
  {
    if rows == [] then []
    else
      var init, last := rows[..|rows| - 1], rows[|rows| - 1];
      var ks := RowsKeys(init, keyOf, valueOf);
      if valueOf(last).Some? && keyOf(last) !in RowsView(init, keyOf, valueOf) then ks + [keyOf(last)]
      else ks
  }

  /** Reading one more row. */
  lemma RowsViewSnoc<T, V>(rows: seq<T>, x: T, keyOf: T -> string, valueOf: T -> Option<V>)
    ensures RowsView(rows + [x], keyOf, valueOf) ==
      match valueOf(x)
      case Some(v) => RowsView(rows, keyOf, valueOf)[keyOf(x) := v]
      case None => RowsView(rows, keyOf, valueOf)
  {
    assert (rows + [x])[..|rows|] == rows;
  }

  lemma RemoveAfterUpdate<V>(m: map<string, V>, k: string, v: V)
    ensures m[k := v] - {k} == m - {k}
  {
  }

  lemma UpdateAfterRemove<V>(m: map<string, V>, k: string, v: V)
    ensures (m - {k})[k := v] == m[k := v]
  {
  }

  lemma RemoveUpdateCommute<V>(m: map<string, V>, k: string, j: string, v: V)
    requires j != k
    ensures (m - {k})[j := v] == m[j := v] - {k}
  {
  }

  /** Deleting the rows with key `k` removes exactly `k` from the object read back. */
  lemma {:induction false} DropView<T(!new), V>(rows: seq<T>, keyOf: T -> string, valueOf: T -> Option<V>, k: string)
    ensures RowsView(DropById(rows, keyOf, k), keyOf, valueOf) == RowsView(rows, keyOf, valueOf) - {k}
  {
    if rows != [] {
      var init, last := rows[..|rows| - 1], rows[|rows| - 1];
      assert rows == init + [last];
      var d := DropById(init, keyOf, k);
      DropView(init, keyOf, valueOf, k);
      DropSnoc(init, last, keyOf, k);
      RowsViewSnoc(init, last, keyOf, valueOf);
      if keyOf(last) == k {
        assert d + [] == d;
        if valueOf(last).Some? {
          RemoveAfterUpdate(RowsView(init, keyOf, valueOf), k, valueOf(last).value);
        }
      } else {
        RowsViewSnoc(d, last, keyOf, valueOf);
        if valueOf(last).Some? {
          RemoveUpdateCommute(RowsView(init, keyOf, valueOf), k, keyOf(last), valueOf(last).value);
        }
      }
    }
  }

  /** An upsert sets its key in the object read back, or removes it when the row is skipped. */
  lemma UpsertView<T(!new), V>(rows: seq<T>, keyOf: T -> string, valueOf: T -> Option<V>, x: T)
    ensures RowsView(Upsert(rows, keyOf, x), keyOf, valueOf) ==
      match valueOf(x)
      case Some(v) => RowsView(rows, keyOf, valueOf)[keyOf(x) := v]
      case None => RowsView(rows, keyOf, valueOf) - {keyOf(x)}
  {
    var d := DropById(rows, keyOf, keyOf(x));
    DropView(rows, keyOf, valueOf, keyOf(x));
    RowsViewSnoc(d, x, keyOf, valueOf);
    if valueOf(x).Some? {
      UpdateAfterRemove(RowsView(rows, keyOf, valueOf), keyOf(x), valueOf(x).value);
    }
  }

  /** Every key of `keys` is a key of `m`. */
  predicate KeysIn<V>(keys: seq<string>, m: map<string, V>)
  {
    forall i :: 0 <= i < |keys| ==> keys[i] in m
  }

  // ---------------------------------------------------------------------------
  // the schedule table
  // ---------------------------------------------------------------------------

  function ScheduleKey(r: ScheduleRow): string { r.dayTimeKey }

  /** getSchedule keeps a row only when its `activity_id` is truthy. */
  function ScheduleValue(r: ScheduleRow): Option<string>
  {
    if Truthy(r.activityId) then r.activityId else None
  }

  /** The schedule object getSchedule builds from the rows. */
  function ScheduleOf(rows: seq<ScheduleRow>): map<string, string>
  {
    RowsView(rows, ScheduleKey, ScheduleValue)
  }

  /** Its key order. */
  function ScheduleKeys(rows: seq<ScheduleRow>): seq<string>
  {
    RowsKeys(rows, ScheduleKey, ScheduleValue)
  }

  /** Every slot getSchedule reports holds a non-empty activity id. */
  lemma {:induction false} ScheduleValuesNonEmpty(rows: seq<ScheduleRow>)
    ensures forall k :: k in ScheduleOf(rows) ==> ScheduleOf(rows)[k] != ""
  {
    if rows != [] {
      var init, last := rows[..|rows| - 1], rows[|rows| - 1];
      assert rows == init + [last];
      ScheduleValuesNonEmpty(init);
      RowsViewSnoc(init, last, ScheduleKey, ScheduleValue);
      assert ScheduleOf(init) == RowsView(init, ScheduleKey, ScheduleValue);
      assert ScheduleOf(rows) == RowsView(init + [last], ScheduleKey, ScheduleValue);
    }
  }

  /** updateScheduleSlot: a truthy activity id is upserted, anything else deletes the slot's row. */
  function WriteSlot(rows: seq<ScheduleRow>, key: string, activityId: Option<string>): seq<ScheduleRow>
  {
    if Truthy(activityId) then Upsert(rows, ScheduleKey, ScheduleRow(key, activityId))
    else DropById(rows, ScheduleKey, key)
  }

  /** After updateScheduleSlot the slot reads back as the activity, or as free when it was falsy. */
  lemma WriteSlotView(rows: seq<ScheduleRow>, key: string, activityId: Option<string>)
    ensures ScheduleOf(WriteSlot(rows, key, activityId)) ==
      if Truthy(activityId) then ScheduleOf(rows)[key := activityId.value] else ScheduleOf(rows) - {key}
  {
    if Truthy(activityId) {
      UpsertView(rows, ScheduleKey, ScheduleValue, ScheduleRow(key, activityId));
    } else {
      DropView(rows, ScheduleKey, ScheduleValue, key);
    }
  }

  /** updateScheduleSlot for each key of `keys` with its value in `m`, in that order. */
  function WriteSlots(rows: seq<ScheduleRow>, m: map<string, string>, keys: seq<string>): seq<ScheduleRow>
    requires KeysIn(keys, m)
  {
    if keys == [] then rows
    else
      var k := keys[|keys| - 1];
      WriteSlot(WriteSlots(rows, m, keys[..|keys| - 1]), k, Some(m[k]))
  }

  /** Writing one more key of `keys`. */
  lemma WriteSlotsPrefix(rows: seq<ScheduleRow>, m: map<string, string>, keys: seq<string>, i: nat)
    requires KeysIn(keys, m) && i < |keys|
    ensures KeysIn(keys[..i], m) && KeysIn(keys[..i + 1], m)
    ensures WriteSlots(rows, m, keys[..i + 1]) == WriteSlot(WriteSlots(rows, m, keys[..i]), keys[i], Some(m[keys[i]]))
  {
    assert keys[..i + 1][..i] == keys[..i];
  }

  /**
    `view` once the keys in `done` have been written from `m`: those with a
    non-empty value hold it, those with an empty one are free, and every other
    slot is as in `view`.
   */
  function Overlay(view: map<string, string>, m: map<string, string>, done: seq<string>): map<string, string>
    requires KeysIn(done, m)
  {
    map k | k in view.Keys + m.Keys && (if k in done then m[k] != "" else k in view) ::
      if k in done then m[k] else view[k]
  }

  /** Writing one more key. */
  lemma OverlayStep(view: map<string, string>, m: map<string, string>, done: seq<string>, k: string)
    requires KeysIn(done, m) && k in m
    ensures KeysIn(done + [k], m)
    ensures Overlay(view, m, done + [k]) ==
      if m[k] != "" then Overlay(view, m, done)[k := m[k]] else Overlay(view, m, done) - {k}
  {
    assert forall j :: j in done + [k] <==> j in done || j == k;
  }

  /** Writing a whole local schedule overlays it on what the backend held. */
  lemma {:induction false} WriteSlotsView(rows: seq<ScheduleRow>, m: map<string, string>, keys: seq<string>)
    requires KeysIn(keys, m)
    ensures ScheduleOf(WriteSlots(rows, m, keys)) == Overlay(ScheduleOf(rows), m, keys)
  {
    if keys == [] {
      assert Overlay(ScheduleOf(rows), m, []) == ScheduleOf(rows);
    } else {
      var init, k := keys[..|keys| - 1], keys[|keys| - 1];
      assert keys == init + [k];
      WriteSlotsView(rows, m, init);
      WriteSlotView(WriteSlots(rows, m, init), k, Some(m[k]));
      OverlayStep(ScheduleOf(rows), m, init, k);
    }
  }

  /** A schedule written into a backend with no slots reads back as its non-empty entries. */
  lemma WriteSlotsIntoEmpty(rows: seq<ScheduleRow>, m: map<string, string>, keys: seq<string>)
    requires ScheduleOf(rows) == map[]
    requires forall k :: k in m <==> k in keys
    ensures ScheduleOf(WriteSlots(rows, m, keys)) == map k | k in m && m[k] != "" :: m[k]
  {
    WriteSlotsView(rows, m, keys);
  }

  /** Every slot of `m` reads back from `view`: as its activity when it names one, as free otherwise. */
  ghost predicate SlotsWritten(view: map<string, string>, m: map<string, string>)
  {
    forall k :: k in m ==> (k in view <==> m[k] != "") && (k in view ==> view[k] == m[k])
  }

  /**
    Walking every key of a schedule (`Object.entries`) writes all of it,
    whatever the order: each slot reads back as its activity or as free, and
    every slot the schedule lacks is as the backend held it.
   */
  lemma WriteSlotsCover(rows: seq<ScheduleRow>, m: map<string, string>, keys: seq<string>)
    requires Enumerates(keys, m)
    ensures KeysIn(keys, m)
    ensures SlotsWritten(ScheduleOf(WriteSlots(rows, m, keys)), m)
    ensures forall k :: k !in m ==>
      (k in ScheduleOf(WriteSlots(rows, m, keys)) <==> k in ScheduleOf(rows)) &&
      (k in ScheduleOf(rows) ==> ScheduleOf(WriteSlots(rows, m, keys))[k] == ScheduleOf(rows)[k])
  {
    WriteSlotsView(rows, m, keys);
  }

  // ---------------------------------------------------------------------------
  // the class entries table
  // ---------------------------------------------------------------------------

  function EntryRowKey(r: EntryRow): string { r.entryKey }

  /** getClassEntries turns a row into an entry with its summary and annotations only. */
  function EntryOfRow(r: EntryRow): Option<ClassEntry>
  {
    Some(ClassEntry(None, None, Some(r.summary), r.annotations))
  }

  /** The entries object getClassEntries builds from the rows. */
  function EntriesOf(rows: seq<EntryRow>): map<string, ClassEntry>
  {
    RowsView(rows, EntryRowKey, EntryOfRow)
  }

  /** The row updateClassEntry upserts: the key split on `_`, an absent summary stored as empty. */
  function EntryRowOf(entryKey: string, entry: ClassEntry): (r: EntryRow)
  {
    var parts := Split(entryKey, '_');
    EntryRow(entryKey, parts[0], if |parts| >= 2 then Some(parts[1]) else None,
             entry.summary.GetOr(""), entry.annotations)
  }

  /** What survives a round trip through the backend. */
  function Stored(entry: ClassEntry): ClassEntry
  {
    ClassEntry(None, None, Some(entry.summary.GetOr("")), entry.annotations)
  }

  /**
    Writing an entry and reading the table back gives the entry with its
    summary and annotations, but without the planned and completed texts; the
    entry is unchanged exactly when it held neither and had a summary.
   */
  lemma EntryRoundTrip(rows: seq<EntryRow>, entryKey: string, entry: ClassEntry)
    ensures EntriesOf(Upsert(rows, EntryRowKey, EntryRowOf(entryKey, entry))) ==
      EntriesOf(rows)[entryKey := Stored(entry)]
    ensures Stored(entry).planned.None? && Stored(entry).completed.None?
    ensures Stored(entry) == entry <==> entry.planned.None? && entry.completed.None? && entry.summary.Some?
  {
    UpsertView(rows, EntryRowKey, EntryOfRow, EntryRowOf(entryKey, entry));
  }

  /** The row of an entry key built from an activity id and a date records both. */
  lemma EntryRowColumns(activityId: string, date: string, entry: ClassEntry)
    requires '_' !in activityId && '_' !in date
    ensures EntryRowOf(EntryKey(activityId, date), entry).activityId == activityId
    ensures EntryRowOf(EntryKey(activityId, date), entry).date == Some(date)
  {
    EntryKeySplit(activityId, date);
  }

  /** updateClassEntry for each key of `keys` with its entry in `m`, in that order. */
  function WriteEntries(rows: seq<EntryRow>, m: map<string, ClassEntry>, keys: seq<string>): seq<EntryRow>
    requires KeysIn(keys, m)
  {
    if keys == [] then rows
    else
      var k := keys[|keys| - 1];
      Upsert(WriteEntries(rows, m, keys[..|keys| - 1]), EntryRowKey, EntryRowOf(k, m[k]))
  }

  /** Writing one more key of `keys`. */
  lemma WriteEntriesPrefix(rows: seq<EntryRow>, m: map<string, ClassEntry>, keys: seq<string>, i: nat)
    requires KeysIn(keys, m) && i < |keys|
    ensures KeysIn(keys[..i], m) && KeysIn(keys[..i + 1], m)
    ensures WriteEntries(rows, m, keys[..i + 1]) ==
      Upsert(WriteEntries(rows, m, keys[..i]), EntryRowKey, EntryRowOf(keys[i], m[keys[i]]))
  {
    assert keys[..i + 1][..i] == keys[..i];
  }

  /**
    `view` once the keys in `done` have been written from `m`: those keys hold
    the stored form of their entry, every other entry is as in `view`.
   */
  function EntriesOverlay(view: map<string, ClassEntry>, m: map<string, ClassEntry>, done: seq<string>)
    : map<string, ClassEntry>
    requires KeysIn(done, m)
  {
    map k | k in view.Keys + m.Keys && (k in done || k in view) ::
      if k in done then Stored(m[k]) else view[k]
  }

  /** Writing one more entry. */
  lemma EntriesOverlayStep(view: map<string, ClassEntry>, m: map<string, ClassEntry>, done: seq<string>, k: string)
    requires KeysIn(done, m) && k in m
    ensures KeysIn(done + [k], m)
    ensures EntriesOverlay(view, m, done + [k]) == EntriesOverlay(view, m, done)[k := Stored(m[k])]
  {
    assert forall j :: j in done + [k] <==> j in done || j == k;
  }

  /** Writing entries never removes one: the keys written hold their stored form, the rest are kept. */
  lemma {:induction false} WriteEntriesView(rows: seq<EntryRow>, m: map<string, ClassEntry>, keys: seq<string>)
    requires KeysIn(keys, m)
    ensures EntriesOf(WriteEntries(rows, m, keys)) == EntriesOverlay(EntriesOf(rows), m, keys)
  {
    if keys == [] {
      assert EntriesOverlay(EntriesOf(rows), m, []) == EntriesOf(rows);
    } else {
      var init, k := keys[..|keys| - 1], keys[|keys| - 1];
      assert keys == init + [k];
      WriteEntriesView(rows, m, init);
      EntryRoundTrip(WriteEntries(rows, m, init), k, m[k]);
      EntriesOverlayStep(EntriesOf(rows), m, init, k);
    }
  }

  /** Every entry of `m` reads back from `view` in its stored form. */
  ghost predicate EntriesWritten(view: map<string, ClassEntry>, m: map<string, ClassEntry>)
  {
    forall k :: k in m ==> k in view && view[k] == Stored(m[k])
  }

  /**
    Walking every key of an entries object (`Object.entries`) writes all of
    it, whatever the order: each entry reads back in its stored form, and
    every other entry is as the backend held it.
   */
  lemma WriteEntriesCover(rows: seq<EntryRow>, m: map<string, ClassEntry>, keys: seq<string>)
    requires Enumerates(keys, m)
    ensures KeysIn(keys, m)
    ensures EntriesWritten(EntriesOf(WriteEntries(rows, m, keys)), m)
    ensures forall k :: k !in m ==>
      (k in EntriesOf(WriteEntries(rows, m, keys)) <==> k in EntriesOf(rows)) &&
      (k in EntriesOf(rows) ==> EntriesOf(WriteEntries(rows, m, keys))[k] == EntriesOf(rows)[k])
  {
    WriteEntriesView(rows, m, keys);
  }

  // ---------------------------------------------------------------------------
  // the course settings table
  // ---------------------------------------------------------------------------

  /** getCourseSettings: the newest row with null read as empty, or two empty dates without a row. */
  function SettingsOf(rows: seq<SettingsRow>): CourseSettings
  {
    if rows == [] then CourseSettings("", "")
    else
      var newest := rows[|rows| - 1];
      CourseSettings(newest.startDate.GetOr(""), newest.endDate.GetOr(""))
  }

  /** `value || null`. */
  function NullIfEmpty(s: string): Option<string>
  {
    if s == "" then None else Some(s)
  }

  /** updateCourseSettings: the newest row is updated, or a first row inserted. */
  function WriteSettings(rows: seq<SettingsRow>, startDate: string, endDate: string): seq<SettingsRow>
  {
    var row := SettingsRow(NullIfEmpty(startDate), NullIfEmpty(endDate));
    if rows == [] then [row] else rows[|rows| - 1 := row]
  }

  /**
    The dates written are the dates read back (an empty date goes in as null
    and comes out empty again), and the table never grows past one row.
   */
  lemma SettingsRoundTrip(rows: seq<SettingsRow>, startDate: string, endDate: string)
    ensures SettingsOf(WriteSettings(rows, startDate, endDate)) == CourseSettings(startDate, endDate)
    ensures |WriteSettings(rows, startDate, endDate)| == if rows == [] then 1 else |rows|
  {
  }

  // ---------------------------------------------------------------------------
  // migration
  // ---------------------------------------------------------------------------

  /**
    The backend after migrateFromLocalStorage copied the snapshot `local` into
    `t`: the course dates when either is set, then every student, time slot
    and activity (inserted), every schedule slot, every override (inserted)
    and every class entry, the two objects walked in the key orders given.
   */
  function Migrated(t: Tables, local: Snapshot, scheduleKeys: seq<string>, entryKeys: seq<string>): Tables
    requires local.schedule.Some? ==> Enumerates(scheduleKeys, local.schedule.value)
    requires local.classEntries.Some? ==> Enumerates(entryKeys, local.classEntries.value)
  {
    Tables(
      InsertAll(t.activities, IdOfActivity, local.activities.GetOr([])),
      InsertAll(t.students, IdOfStudent, local.students.GetOr([])),
      InsertAll(t.timeSlots, IdOfSlot, local.timeSlots.GetOr([])),
      if local.schedule.Some? then WriteSlots(t.schedules, local.schedule.value, scheduleKeys) else t.schedules,
      InsertAll(t.overrides, IdOfOverride, local.overrides.GetOr([])),
      if local.classEntries.Some? then WriteEntries(t.classEntries, local.classEntries.value, entryKeys)
      else t.classEntries,
      if Truthy(local.courseStartDate) || Truthy(local.courseEndDate)
      then WriteSettings(t.courseSettings, local.courseStartDate.GetOr(""), local.courseEndDate.GetOr(""))
      else t.courseSettings)
  }

  /**
    A migration writes the whole snapshot: every slot of its schedule and
    every one of its class entries reads back from the migrated backend.
   */
  lemma MigratedCovers(t: Tables, local: Snapshot, scheduleKeys: seq<string>, entryKeys: seq<string>)
    requires local.schedule.Some? ==> Enumerates(scheduleKeys, local.schedule.value)
    requires local.classEntries.Some? ==> Enumerates(entryKeys, local.classEntries.value)
    ensures local.schedule.Some? ==>
      SlotsWritten(ScheduleOf(Migrated(t, local, scheduleKeys, entryKeys).schedules), local.schedule.value)
    ensures local.classEntries.Some? ==>
      EntriesWritten(EntriesOf(Migrated(t, local, scheduleKeys, entryKeys).classEntries), local.classEntries.value)
  {
    if local.schedule.Some? {
      WriteSlotsCover(t.schedules, local.schedule.value, scheduleKeys);
    }
    if local.classEntries.Some? {
      WriteEntriesCover(t.classEntries, local.classEntries.value, entryKeys);
    }
  }

  // ---------------------------------------------------------------------------
  // the adapter
  // ---------------------------------------------------------------------------

  class DatabaseService {
    /** Whether a client was configured at all (`supabase` is not null). */
    const hasClient: bool
    var initialized: bool
    var useSupabase: bool

    var activities: seq<Activity>
    var students: seq<Student>
    var timeSlots: seq<TimeSlot>
    var schedules: seq<ScheduleRow>
    var overrides: seq<Override>
    var classEntries: seq<EntryRow>
    var courseSettings: seq<SettingsRow>

    /** A new adapter over a backend holding `tables`: not yet initialised, enabled iff there is a client. */
    constructor (hasClient: bool, tables: Tables)
      ensures this.hasClient == hasClient && !initialized && useSupabase == hasClient
      ensures Contents() == tables
    {
      this.hasClient := hasClient;
      initialized := false;
      useSupabase := hasClient;
      activities := tables.activities;
      students := tables.students;
      timeSlots := tables.timeSlots;
      schedules := tables.schedules;
      overrides := tables.overrides;
      classEntries := tables.classEntries;
      courseSettings := tables.courseSettings;
    }

    function Contents(): Tables
      reads this
    {
      Tables(activities, students, timeSlots, schedules, overrides, classEntries, courseSettings)
    }

    /** isSupabaseAvailable. */
    predicate Available()
      reads this
    {
      useSupabase && hasClient
    }

    /**
      initializeSchema: probes the backend once. It answers whether the backend
      is usable; a probe that throws switches the backend off for good. The
      adapter counts as initialised afterwards either way.
     */
    method InitializeSchema(probeThrows: bool) returns (ok: bool)
      modifies this
      ensures initialized
      ensures ok <==> old(Available()) && !probeThrows
      ensures useSupabase <==> old(useSupabase) && !(old(Available()) && probeThrows)
      ensures Contents() == old(Contents())
    {
      if !Available() {
        initialized := true;
        return false;
      }
      if probeThrows {
        useSupabase := false;
        initialized := true;
        return false;
      }
      initialized := true;
      return true;
    }

    // --- activities

    /** getActivities: the table, or nothing when the backend is off or the request fails. */
    method GetActivities(fails: bool) returns (r: seq<Activity>)
      ensures r == if Available() && !fails then activities else []
    {
      if !Available() || fails {
        return [];
      }
      return activities;
    }

    /** createActivity: inserts the activity; the answer is the activity in every case. */
    method CreateActivity(activity: Activity, fails: bool) returns (r: Activity)
      modifies this
      ensures r == activity
      ensures initialized == old(initialized) && useSupabase == old(useSupabase)
      ensures Contents() == if Available() && !fails
        then old(Contents()).(activities := Insert(old(activities), IdOfActivity, activity))
        else old(Contents())
    {
      if Available() && !fails {
        activities := Insert(activities, IdOfActivity, activity);
      }
      return activity;
    }

    /** updateActivity: every row with the id becomes `updates`; the answer is `updates`. */
    method UpdateActivity(id: string, updates: Activity, fails: bool) returns (r: Activity)
      modifies this
      ensures r == updates
      ensures initialized == old(initialized) && useSupabase == old(useSupabase)
      ensures Contents() == if Available() && !fails
        then old(Contents()).(activities := Replace(old(activities), IdOfActivity, id, updates))
        else old(Contents())
    {
      if Available() && !fails {
        activities := Replace(activities, IdOfActivity, id, updates);
      }
      return updates;
    }

    /** deleteActivity. */
    method DeleteActivity(id: string, fails: bool)
      modifies this
      ensures initialized == old(initialized) && useSupabase == old(useSupabase)
      ensures Contents() == if Available() && !fails
        then old(Contents()).(activities := DropById(old(activities), IdOfActivity, id))
        else old(Contents())
    {
      if Available() && !fails {
        activities := DropById(activities, IdOfActivity, id);
      }
    }

    // --- students

    /** getStudents. */
    method GetStudents(fails: bool) returns (r: seq<Student>)
      ensures r == if Available() && !fails then students else []
    {
      if !Available() || fails {
        return [];
      }
      return students;
    }

    /** createStudent. */
    method CreateStudent(student: Student, fails: bool) returns (r: Student)
      modifies this
      ensures r == student
      ensures initialized == old(initialized) && useSupabase == old(useSupabase)
      ensures Contents() == if Available() && !fails
        then old(Contents()).(students := Insert(old(students), IdOfStudent, student))
        else old(Contents())
    {
      if Available() && !fails {
        students := Insert(students, IdOfStudent, student);
      }
      return student;
    }

    /** updateStudent. */
    method UpdateStudent(id: string, updates: Student, fails: bool) returns (r: Student)
      modifies this
      ensures r == updates
      ensures initialized == old(initialized) && useSupabase == old(useSupabase)
      ensures Contents() == if Available() && !fails
        then old(Contents()).(students := Replace(old(students), IdOfStudent, id, updates))
        else old(Contents())
    {
      if Available() && !fails {
        students := Replace(students, IdOfStudent, id, updates);
      }
      return updates;
    }

    /** deleteStudent. */
    method DeleteStudent(id: string, fails: bool)
      modifies this
      ensures initialized == old(initialized) && useSupabase == old(useSupabase)
      ensures Contents() == if Available() && !fails
        then old(Contents()).(students := DropById(old(students), IdOfStudent, id))
        else old(Contents())
    {
      if Available() && !fails {
        students := DropById(students, IdOfStudent, id);
      }
    }

    // --- time slots

    /** getTimeSlots. */
    method GetTimeSlots(fails: bool) returns (r: seq<TimeSlot>)
      ensures r == if Available() && !fails then timeSlots else []
    {
      if !Available() || fails {
        return [];
      }
      return timeSlots;
    }

    /** createTimeSlot. */
    method CreateTimeSlot(slot: TimeSlot, fails: bool) returns (r: TimeSlot)
      modifies this
      ensures r == slot
      ensures initialized == old(initialized) && useSupabase == old(useSupabase)
      ensures Contents() == if Available() && !fails
        then old(Contents()).(timeSlots := Insert(old(timeSlots), IdOfSlot, slot))
        else old(Contents())
    {
      if Available() && !fails {
        timeSlots := Insert(timeSlots, IdOfSlot, slot);
      }
      return slot;
    }

    /** updateTimeSlot. */
    method UpdateTimeSlot(id: string, updates: TimeSlot, fails: bool) returns (r: TimeSlot)
      modifies this
      ensures r == updates
      ensures initialized == old(initialized) && useSupabase == old(useSupabase)
      ensures Contents() == if Available() && !fails
        then old(Contents()).(timeSlots := Replace(old(timeSlots), IdOfSlot, id, updates))
        else old(Contents())
    {
      if Available() && !fails {
        timeSlots := Replace(timeSlots, IdOfSlot, id, updates);
      }
      return updates;
    }

    /** deleteTimeSlot. */
    method DeleteTimeSlot(id: string, fails: bool)
      modifies this
      ensures initialized == old(initialized) && useSupabase == old(useSupabase)
      ensures Contents() == if Available() && !fails
        then old(Contents()).(timeSlots := DropById(old(timeSlots), IdOfSlot, id))
        else old(Contents())
    {
      if Available() && !fails {
        timeSlots := DropById(timeSlots, IdOfSlot, id);
      }
    }

    // --- schedule

    /**
      getSchedule: walks the rows and keeps each truthy `activity_id` under its
      slot key. `keys` is the key order of the object it builds.
     */
    method GetSchedule(fails: bool) returns (schedule: map<string, string>, keys: seq<string>)
      ensures Available() && !fails ==> schedule == ScheduleOf(schedules) && keys == ScheduleKeys(schedules)
      ensures !(Available() && !fails) ==> schedule == map[] && keys == []
      ensures NoDuplicates(keys) && forall k :: k in keys <==> k in schedule
      ensures forall k :: k in schedule ==> schedule[k] != ""
    {
      schedule, keys := map[], [];
      if !Available() || fails {
        return;
      }
      var rows := schedules;
      var i := 0;
      while i < |rows|
        invariant 0 <= i <= |rows|
        invariant schedule == ScheduleOf(rows[..i])
        invariant keys == ScheduleKeys(rows[..i])
      {
        var item := rows[i];
        assert rows[..i + 1][..i] == rows[..i];
        if Truthy(item.activityId) {
          if item.dayTimeKey !in schedule {
            keys := keys + [item.dayTimeKey];
          }
          schedule := schedule[item.dayTimeKey := item.activityId.value];
        }
        i := i + 1;
      }
      assert rows[..i] == rows;
      ScheduleValuesNonEmpty(rows);
    }

    /** updateScheduleSlot. */
    method UpdateScheduleSlot(dayTimeKey: string, activityId: Option<string>, fails: bool)
      modifies this
      ensures initialized == old(initialized) && useSupabase == old(useSupabase)
      ensures Contents() == old(Contents()).(schedules := schedules)
      ensures schedules == if Available() && !fails then WriteSlot(old(schedules), dayTimeKey, activityId) else old(schedules)
    {
      if !Available() || fails {
        return;
      }
      if Truthy(activityId) {
        schedules := Upsert(schedules, ScheduleKey, ScheduleRow(dayTimeKey, activityId));
      } else {
        schedules := DropById(schedules, ScheduleKey, dayTimeKey);
      }
    }

    // --- overrides

    /** getScheduleOverrides. */
    method GetScheduleOverrides(fails: bool) returns (r: seq<Override>)
      ensures r == if Available() && !fails then overrides else []
    {
      if !Available() || fails {
        return [];
      }
      return overrides;
    }

    /** createScheduleOverride. */
    method CreateScheduleOverride(o: Override, fails: bool) returns (r: Override)
      modifies this
      ensures r == o
      ensures initialized == old(initialized) && useSupabase == old(useSupabase)
      ensures Contents() == if Available() && !fails
        then old(Contents()).(overrides := Insert(old(overrides), IdOfOverride, o))
        else old(Contents())
    {
      if Available() && !fails {
        overrides := Insert(overrides, IdOfOverride, o);
      }
      return o;
    }

    // --- class entries

    /** getClassEntries: walks the rows and keeps each under its entry key. */
    method GetClassEntries(fails: bool) returns (entries: map<string, ClassEntry>)
      ensures entries == if Available() && !fails then EntriesOf(classEntries) else map[]
    {
      entries := map[];
      if !Available() || fails {
        return;
      }
      var rows := classEntries;
      var i := 0;
      while i < |rows|
        invariant 0 <= i <= |rows|
        invariant entries == EntriesOf(rows[..i])
      {
        var entry := rows[i];
        assert rows[..i + 1][..i] == rows[..i];
        entries := entries[entry.entryKey := ClassEntry(None, None, Some(entry.summary), entry.annotations)];
        i := i + 1;
      }
      assert rows[..i] == rows;
    }

    /** updateClassEntry: upserts the row of the entry. */
    method UpdateClassEntry(entryKey: string, entry: ClassEntry, fails: bool)
      modifies this
      ensures initialized == old(initialized) && useSupabase == old(useSupabase)
      ensures Contents() == old(Contents()).(classEntries := classEntries)
      ensures classEntries == if Available() && !fails
        then Upsert(old(classEntries), EntryRowKey, EntryRowOf(entryKey, entry))
        else old(classEntries)
    {
      if !Available() || fails {
        return;
      }
      var parts := Split(entryKey, '_');
      var date := if |parts| >= 2 then Some(parts[1]) else None;
      var row := EntryRow(entryKey, parts[0], date, entry.summary.GetOr(""), entry.annotations);
      classEntries := Upsert(classEntries, EntryRowKey, row);
    }

    // --- course settings

    /** getCourseSettings. */
    method GetCourseSettings(fails: bool) returns (r: CourseSettings)
      ensures r == if Available() && !fails then SettingsOf(courseSettings) else CourseSettings("", "")
    {
      if !Available() || fails {
        return CourseSettings("", "");
      }
      if courseSettings == [] {
        return CourseSettings("", "");
      }
      var newest := courseSettings[|courseSettings| - 1];
      return CourseSettings(newest.startDate.GetOr(""), newest.endDate.GetOr(""));
    }

    /** updateCourseSettings. */
    method UpdateCourseSettings(startDate: string, endDate: string, fails: bool)
      modifies this
      ensures initialized == old(initialized) && useSupabase == old(useSupabase)
      ensures Contents() == if Available() && !fails
        then old(Contents()).(courseSettings := WriteSettings(old(courseSettings), startDate, endDate))
        else old(Contents())
    {
      if !Available() || fails {
        return;
      }
      var row := SettingsRow(NullIfEmpty(startDate), NullIfEmpty(endDate));
      if courseSettings != [] {
        courseSettings := courseSettings[|courseSettings| - 1 := row];
      } else {
        courseSettings := [row];
      }
    }

    // --- migration

    /**
      migrateFromLocalStorage: with the backend off it answers false and writes
      nothing; otherwise it copies the snapshot (course dates, students, time
      slots, activities, schedule, overrides, class entries, in that order)
      and answers true.
     */
    method Migrate(local: Snapshot, scheduleKeys: seq<string>, entryKeys: seq<string>, fails: bool)
      returns (migrated: bool)
      requires local.schedule.Some? ==> Enumerates(scheduleKeys, local.schedule.value)
      requires local.classEntries.Some? ==> Enumerates(entryKeys, local.classEntries.value)
      modifies this
      ensures migrated == old(Available())
      ensures initialized == old(initialized) && useSupabase == old(useSupabase)
      ensures Contents() == if old(Available()) && !fails
        then Migrated(old(Contents()), local, scheduleKeys, entryKeys)
        else old(Contents())
      ensures old(Available()) && !fails && local.schedule.Some? ==>
        SlotsWritten(ScheduleOf(schedules), local.schedule.value)
      ensures old(Available()) && !fails && local.classEntries.Some? ==>
        EntriesWritten(EntriesOf(classEntries), local.classEntries.value)
    {
      if !Available() {
        return false;
      }
      if Truthy(local.courseStartDate) || Truthy(local.courseEndDate) {
        UpdateCourseSettings(local.courseStartDate.GetOr(""), local.courseEndDate.GetOr(""), fails);
      }
      CreateStudents(local.students.GetOr([]), fails);
      CreateTimeSlots(local.timeSlots.GetOr([]), fails);
      CreateActivities(local.activities.GetOr([]), fails);
      if local.schedule.Some? {
        WriteSchedule(local.schedule.value, scheduleKeys, fails);
      }
      CreateOverrides(local.overrides.GetOr([]), fails);
      if local.classEntries.Some? {
        WriteClassEntries(local.classEntries.value, entryKeys, fails);
      }
      return true;
    }

    /** The students loop of the migration. */
    method CreateStudents(xs: seq<Student>, fails: bool)
      modifies this
      ensures initialized == old(initialized) && useSupabase == old(useSupabase)
      ensures Contents() == if Available() && !fails
        then old(Contents()).(students := InsertAll(old(students), IdOfStudent, xs))
        else old(Contents())
    {
      var i := 0;
      while i < |xs|
        invariant 0 <= i <= |xs|
        invariant initialized == old(initialized) && useSupabase == old(useSupabase)
        invariant Contents() == if Available() && !fails
          then old(Contents()).(students := InsertAll(old(students), IdOfStudent, xs[..i]))
          else old(Contents())
      {
        assert xs[..i + 1][..i] == xs[..i];
        var _ := CreateStudent(xs[i], fails);
        i := i + 1;
      }
      assert xs[..i] == xs;
    }

    /** The time slots loop of the migration. */
    method CreateTimeSlots(xs: seq<TimeSlot>, fails: bool)
      modifies this
      ensures initialized == old(initialized) && useSupabase == old(useSupabase)
      ensures Contents() == if Available() && !fails
        then old(Contents()).(timeSlots := InsertAll(old(timeSlots), IdOfSlot, xs))
        else old(Contents())
    {
      var i := 0;
      while i < |xs|
        invariant 0 <= i <= |xs|
        invariant initialized == old(initialized) && useSupabase == old(useSupabase)
        invariant Contents() == if Available() && !fails
          then old(Contents()).(timeSlots := InsertAll(old(timeSlots), IdOfSlot, xs[..i]))
          else old(Contents())
      {
        assert xs[..i + 1][..i] == xs[..i];
        var _ := CreateTimeSlot(xs[i], fails);
        i := i + 1;
      }
      assert xs[..i] == xs;
    }

    /** The activities loop of the migration. */
    method CreateActivities(xs: seq<Activity>, fails: bool)
      modifies this
      ensures initialized == old(initialized) && useSupabase == old(useSupabase)
      ensures Contents() == if Available() && !fails
        then old(Contents()).(activities := InsertAll(old(activities), IdOfActivity, xs))
        else old(Contents())
    {
      var i := 0;
      while i < |xs|
        invariant 0 <= i <= |xs|
        invariant initialized == old(initialized) && useSupabase == old(useSupabase)
        invariant Contents() == if Available() && !fails
          then old(Contents()).(activities := InsertAll(old(activities), IdOfActivity, xs[..i]))
          else old(Contents())
      {
        assert xs[..i + 1][..i] == xs[..i];
        var _ := CreateActivity(xs[i], fails);
        i := i + 1;
      }
      assert xs[..i] == xs;
    }

    /** The overrides loop of the migration. */
    method CreateOverrides(xs: seq<Override>, fails: bool)
      modifies this
      ensures initialized == old(initialized) && useSupabase == old(useSupabase)
      ensures Contents() == if Available() && !fails
        then old(Contents()).(overrides := InsertAll(old(overrides), IdOfOverride, xs))
        else old(Contents())
    {
      var i := 0;
      while i < |xs|
        invariant 0 <= i <= |xs|
        invariant initialized == old(initialized) && useSupabase == old(useSupabase)
        invariant Contents() == if Available() && !fails
          then old(Contents()).(overrides := InsertAll(old(overrides), IdOfOverride, xs[..i]))
          else old(Contents())
      {
        assert xs[..i + 1][..i] == xs[..i];
        var _ := CreateScheduleOverride(xs[i], fails);
        i := i + 1;
      }
      assert xs[..i] == xs;
    }

    /** The schedule loop of the migration, over `Object.entries(schedule)`. */
    method WriteSchedule(m: map<string, string>, keys: seq<string>, fails: bool)
      requires Enumerates(keys, m)
      modifies this
      ensures initialized == old(initialized) && useSupabase == old(useSupabase)
      ensures Contents() == old(Contents()).(schedules := schedules)
      ensures schedules == if Available() && !fails then WriteSlots(old(schedules), m, keys) else old(schedules)
      ensures Available() && !fails ==> SlotsWritten(ScheduleOf(schedules), m)
    {
      ghost var on := Available() && !fails;
      ghost var written := schedules;
      var i := 0;
      while i < |keys|
        invariant 0 <= i <= |keys|
        invariant initialized == old(initialized) && useSupabase == old(useSupabase)
        invariant Contents() == old(Contents()).(schedules := schedules)
        invariant written == WriteSlots(old(schedules), m, keys[..i])
        invariant schedules == if on then written else old(schedules)
      {
        WriteSlotsPrefix(old(schedules), m, keys, i);
        UpdateScheduleSlot(keys[i], Some(m[keys[i]]), fails);
        written := WriteSlot(written, keys[i], Some(m[keys[i]]));
        i := i + 1;
      }
      assert keys[..i] == keys;
      WriteSlotsCover(old(schedules), m, keys);
    }

    /** The class entries loop of the migration, over `Object.entries(classEntries)`. */
    method WriteClassEntries(m: map<string, ClassEntry>, keys: seq<string>, fails: bool)
      requires Enumerates(keys, m)
      modifies this
      ensures initialized == old(initialized) && useSupabase == old(useSupabase)
      ensures Contents() == old(Contents()).(classEntries := classEntries)
      ensures classEntries == if Available() && !fails then WriteEntries(old(classEntries), m, keys) else old(classEntries)
      ensures Available() && !fails ==> EntriesWritten(EntriesOf(classEntries), m)
    {
      ghost var on := Available() && !fails;
      ghost var written := classEntries;
      var i := 0;
      while i < |keys|
        invariant 0 <= i <= |keys|
        invariant initialized == old(initialized) && useSupabase == old(useSupabase)
        invariant Contents() == old(Contents()).(classEntries := classEntries)
        invariant written == WriteEntries(old(classEntries), m, keys[..i])
        invariant classEntries == if on then written else old(classEntries)
      {
        WriteEntriesPrefix(old(classEntries), m, keys, i);
        UpdateClassEntry(keys[i], m[keys[i]], fails);
        written := Upsert(written, EntryRowKey, EntryRowOf(keys[i], m[keys[i]]));
        i := i + 1;
      }
      assert keys[..i] == keys;
      WriteEntriesCover(old(classEntries), m, keys);
    }
  }
}
