/**
  The gradebook's entities as values: activities (classes and general events),
  students, time slots, schedule overrides and per-session class entries, plus
  the eight data fields of the application state and the local-storage snapshot
  that holds them.
 */
module Domain {
  import opened Text

  /** An activity; `kind` is the `type` field, `"class"` or `"general"`. Empty dates mean "no bound". */
  datatype Activity = Activity(
    id: string,
    name: string,
    kind: string,
    studentIds: seq<string>,
    color: string,
    startDate: string,
    endDate: string)

  datatype Student = Student(id: string, name: string, generalNotes: string)

  /** A time slot (`labelText` is the source's `label`); `order` is `None` when the slot has no numeric order (missing or NaN). */
  datatype TimeSlot = TimeSlot(id: string, labelText: string, order: Option<int>)

  /** A date-bounded substitution of `activityId` into the slot `time` on weekday `day`. */
  datatype Override = Override(
    id: string,
    day: string,
    time: string,
    activityId: string,
    startDate: string,
    endDate: string)

  /** What was planned and done in one session; a missing text field is `None`. */
  datatype ClassEntry = ClassEntry(
    planned: Option<string>,
    completed: Option<string>,
    summary: Option<string>,
    annotations: map<string, string>)

  /** The eight data fields of the application state. */
  datatype AppData = AppData(
    activities: seq<Activity>,
    students: seq<Student>,
    timeSlots: seq<TimeSlot>,
    schedule: map<string, string>,
    overrides: seq<Override>,
    classEntries: map<string, ClassEntry>,
    courseStartDate: string,
    courseEndDate: string)

  /** The parsed local-storage record; a field absent from the stored JSON is `None`. */
  datatype Snapshot = Snapshot(
    activities: Option<seq<Activity>>,
    students: Option<seq<Student>>,
    timeSlots: Option<seq<TimeSlot>>,
    schedule: Option<map<string, string>>,
    overrides: Option<seq<Override>>,
    classEntries: Option<map<string, ClassEntry>>,
    courseStartDate: Option<string>,
    courseEndDate: Option<string>)

  function EmptyData(): AppData
  {
    AppData([], [], [], map[], [], map[], "", "")
  }

  /** The weekly schedule key of a weekday and a slot label: `${day}-${label}`. */
  function SlotKey(day: string, labelText: string): string
  {
    day + "-" + labelText
  }

  /** The class-entry key of a session: `${activityId}_${date}`. */
  function EntryKey(activityId: string, date: string): string
  {
    activityId + "_" + date
  }

  /** Splitting an entry key on `_` gives back the activity id and the date, when neither holds `_`. */
  lemma EntryKeySplit(activityId: string, date: string)
    requires '_' !in activityId && '_' !in date
    ensures Split(EntryKey(activityId, date), '_') == [activityId, date]
  {
    SplitCons(activityId, '_', date);
  }

  /** The day part of a schedule key: the text before its first `-` (`key.split('-')[0]`). */
  function DayOf(key: string): (day: string)
    ensures '-' !in day
  {
    Split(key, '-')[0]
  }

  /** The day of `${day}-${label}` is `day` when the day has no `-`. */
  lemma DayOfSlotKey(day: string, labelText: string)
    requires '-' !in day
    ensures DayOf(SlotKey(day, labelText)) == day
  {
    SplitCons(day, '-', labelText);
  }

  /** Slot keys of `-`-free days are unambiguous: the day and the label can be read back. */
  lemma SlotKeyInjective(d1: string, l1: string, d2: string, l2: string)
    requires '-' !in d1 && '-' !in d2
    requires SlotKey(d1, l1) == SlotKey(d2, l2)
    ensures d1 == d2 && l1 == l2
  {
    DayOfSlotKey(d1, l1);
    DayOfSlotKey(d2, l2);
    assert SlotKey(d1, l1)[|d1| + 1..] == l1;
    assert SlotKey(d2, l2)[|d2| + 1..] == l2;
  }

  function IdOfActivity(a: Activity): string { a.id }
  function IdOfStudent(s: Student): string { s.id }
  function IdOfSlot(t: TimeSlot): string { t.id }
  function IdOfOverride(o: Override): string { o.id }

  function ActivityIndex(activities: seq<Activity>, id: string): Option<nat>
  {
    FindFirst(activities, (a: Activity) => a.id == id)
  }

  function StudentIndex(students: seq<Student>, id: string): Option<nat>
  {
    FindFirst(students, (s: Student) => s.id == id)
  }

  function SlotIndex(slots: seq<TimeSlot>, id: string): Option<nat>
  {
    FindFirst(slots, (t: TimeSlot) => t.id == id)
  }

  predicate NoDuplicates(ids: seq<string>)
  {
    forall i, j :: 0 <= i < j < |ids| ==> ids[i] != ids[j]
  }

  /** `keys` lists each key of `m` exactly once (the order of `Object.entries(m)`). */
  ghost predicate Enumerates<V>(keys: seq<string>, m: map<string, V>)
  {
    NoDuplicates(keys) && forall k :: k in keys <==> k in m
  }

  /** No two students share a name up to case. */
  predicate DistinctNames(students: seq<Student>)
  {
    forall i, j :: 0 <= i < j < |students| ==> !SameName(students[i].name, students[j].name)
  }

  predicate HasStudentId(students: seq<Student>, id: string)
  {
    exists j :: 0 <= j < |students| && students[j].id == id
  }

  /** No two students share an id. */
  predicate DistinctIds(students: seq<Student>)
  {
    forall i, j :: 0 <= i < j < |students| ==> students[i].id != students[j].id
  }

  /**
    `xs.filter(x => x.id !== id)`: every element with the id is removed, every
    other element is kept as often as before, and nothing changes when no
    element has the id.
   */
  function DropById<T(!new)>(xs: seq<T>, idOf: T -> string, id: string): (r: seq<T>)
    ensures forall k :: 0 <= k < |r| ==> idOf(r[k]) != id
    ensures forall x :: idOf(x) != id ==> multiset(r)[x] == multiset(xs)[x]
    ensures (forall k :: 0 <= k < |xs| ==> idOf(xs[k]) != id) ==> r == xs
  {
    if forall k :: 0 <= k < |xs| ==> idOf(xs[k]) != id then
      FilterAll(xs, (x: T) => idOf(x) != id);
      Filter(xs, (x: T) => idOf(x) != id)
    else
      Filter(xs, (x: T) => idOf(x) != id)
  }

  /** Removing from one more element. */
  lemma DropSnoc<T(!new)>(xs: seq<T>, x: T, idOf: T -> string, id: string)
    ensures DropById(xs + [x], idOf, id) == DropById(xs, idOf, id) + (if idOf(x) == id then [] else [x])
  {
    FilterAppend(xs, [x], (x: T) => idOf(x) != id);
    assert [x][1..] == [];
  }


}
