/**
  What the views of views.js compute from the state before it becomes HTML:
  the activity a timetable cell shows on a given date, the annotation history
  on a student's sheet, the enrolled and available students of a class in the
  settings view, and the guards on the time-slot reorder buttons.

  Dates are the `YYYY-MM-DD` strings the views build for each cell; comparing
  a cell's date with a bound is done day by day, which for such strings is
  their lexicographic order.
 */
module Views {
  import opened Text
  import opened Domain
  import Actions
  import Store

  // ---------------------------------------------------------------------------
  // Date comparisons
  // ---------------------------------------------------------------------------

  /** `cellDate >= new Date(bound + 'T00:00:00')`; a bound that is not a date gives an invalid date, and `false`. */
  predicate OnOrAfter(date: string, bound: string)
  {
    IsIsoDate(bound) && LexAtMost(bound, date)
  }

  /** `cellDate <= new Date(bound + 'T23:59:59')`. */
  predicate OnOrBefore(date: string, bound: string)
  {
    IsIsoDate(bound) && LexAtMost(date, bound)
  }

  /** `cellDate < new Date(bound + 'T00:00:00')`. */
  predicate Before(date: string, bound: string)
  {
    IsIsoDate(bound) && LexLess(date, bound)
  }

  /** `cellDate > new Date(bound + 'T23:59:59')`. */
  predicate After(date: string, bound: string)
  {
    IsIsoDate(bound) && LexLess(bound, date)
  }

  // ---------------------------------------------------------------------------
  // Timetable cells (renderScheduleView)
  // ---------------------------------------------------------------------------

  /** An override replaces the slot `labelText` on `day` from its start date to its end date, both included. */
  predicate Applies(ov: Override, day: string, labelText: string, date: string)
  {
    ov.day == day && ov.time == labelText && OnOrAfter(date, ov.startDate) && OnOrBefore(date, ov.endDate)
  }

  /**
    The activity id of a cell: that of the first override in list order that
    applies on the cell's date, and otherwise the weekly schedule's entry for
    `${day}-${label}` (`None` when it has none).
   */
  function CellActivityId(d: AppData, day: string, labelText: string, date: string): (r: Option<string>)
    ensures (exists i :: 0 <= i < |d.overrides| && Applies(d.overrides[i], day, labelText, date)) ==>
      exists i :: 0 <= i < |d.overrides| && Applies(d.overrides[i], day, labelText, date) &&
        (forall j :: 0 <= j < i ==> !Applies(d.overrides[j], day, labelText, date)) &&
        r == Some(d.overrides[i].activityId)
    ensures (forall i :: 0 <= i < |d.overrides| ==> !Applies(d.overrides[i], day, labelText, date)) ==>
      r == if SlotKey(day, labelText) in d.schedule then Some(d.schedule[SlotKey(day, labelText)]) else None
  {
    match FindFirst(d.overrides, (ov: Override) => Applies(ov, day, labelText, date))
    case Some(i) => Some(d.overrides[i].activityId)
    case None =>
      var key := SlotKey(day, labelText);
      if key in d.schedule then Some(d.schedule[key]) else None
  }

  /** `activityId ? getActivityById(activityId) : null`: the first activity with a non-empty id. */
  function CellActivity(activities: seq<Activity>, id: Option<string>): (r: Option<Activity>)
    ensures r.Some? <==>
      id.Some? && id.value != "" && exists i :: 0 <= i < |activities| && activities[i].id == id.value
    ensures r.Some? ==> r.value in activities && r.value.id == id.value
  {
    if id.None? || id.value == "" then None
    else match FindFirst(activities, (a: Activity) => a.id == id.value)
      case Some(i) => Some(activities[i])
      case None => None
  }

  /** `s ? new Date(s + ...) : null`. */
  function Bound(s: string): Option<string>
  {
    if s == "" then None else Some(s)
  }

  /**
    The `inDateRange` flag: the course bounds apply when set, and the
    activity's bounds apply with the course's in place of those it lacks.
   */
  predicate InDateRange(date: string, courseStart: string, courseEnd: string, a: Activity)
  {
    var cs := Bound(courseStart);
    var ce := Bound(courseEnd);
    var aStart := if a.startDate != "" then Some(a.startDate) else cs;
    var aEnd := if a.endDate != "" then Some(a.endDate) else ce;
    && !(cs.Some? && Before(date, cs.value))
    && !(ce.Some? && After(date, ce.value))
    && !(aStart.Some? && Before(date, aStart.value))
    && !(aEnd.Some? && After(date, aEnd.value))
  }

  /** `lo <= date <= hi` where an empty bound does not bound. */
  predicate Within(date: string, lo: string, hi: string)
  {
    (lo == "" || LexAtMost(lo, date)) && (hi == "" || LexAtMost(date, hi))
  }

  /** A bound that is empty or a date. */
  predicate WellFormedBound(s: string)
  {
    s == "" || IsIsoDate(s)
  }

  /**
    With well-formed bounds a cell's date is in range exactly when it lies
    within the course and within the activity, an empty bound being no bound.
   */
  lemma InDateRangeMeaning(date: string, courseStart: string, courseEnd: string, a: Activity)
    requires WellFormedBound(courseStart) && WellFormedBound(courseEnd)
    requires WellFormedBound(a.startDate) && WellFormedBound(a.endDate)
    ensures InDateRange(date, courseStart, courseEnd, a) <==>
      Within(date, courseStart, courseEnd) && Within(date, a.startDate, a.endDate)
  {
    LexLessIff(date, courseStart);
    LexLessIff(courseEnd, date);
    LexLessIff(date, a.startDate);
    LexLessIff(a.endDate, date);
  }

  /** A course start that is not a date (an invalid `Date`) excludes nothing: the range is as if it were unset. */
  lemma MalformedCourseStartIgnored(date: string, courseStart: string, courseEnd: string, a: Activity)
    requires courseStart != "" && !IsIsoDate(courseStart)
    ensures InDateRange(date, courseStart, courseEnd, a) == InDateRange(date, "", courseEnd, a)
  {
  }

  /** `state.classEntries[entryId] && state.classEntries[entryId].planned`. */
  predicate HasPlan(entries: map<string, ClassEntry>, entryKey: string)
  {
    entryKey in entries && entries[entryKey].planned.Some? && entries[entryKey].planned.value != ""
  }

  /** What a cell shows: nothing, a session button of a class (with the plan marker), or an inert block. */
  datatype Cell = Free | SessionButton(activity: Activity, hasPlan: bool) | Block(activity: Activity)

  /** The content of the cell of slot `labelText` on weekday `day`, whose date is `date`. */
  function ResolveCell(d: AppData, day: string, labelText: string, date: string): (c: Cell)
    ensures c != Free ==> c.activity in d.activities && InDateRange(date, d.courseStartDate, d.courseEndDate, c.activity)
    ensures c != Free ==> Some(c.activity) == CellActivity(d.activities, CellActivityId(d, day, labelText, date))
    ensures c.SessionButton? <==> c != Free && c.activity.kind == "class"
    ensures c.SessionButton? ==> (c.hasPlan <==> HasPlan(d.classEntries, EntryKey(c.activity.id, date)))
  {
    match CellActivity(d.activities, CellActivityId(d, day, labelText, date))
    case None => Free
    case Some(a) =>
      if !InDateRange(date, d.courseStartDate, d.courseEndDate, a) then Free
      else if a.kind == "class" then SessionButton(a, HasPlan(d.classEntries, EntryKey(a.id, date)))
      else Block(a)
  }

  /**
    A cell stays empty exactly when its resolved id names no activity, or the
    activity it names is out of range on that date.
   */
  lemma CellFreeIff(d: AppData, day: string, labelText: string, date: string)
    ensures var a := CellActivity(d.activities, CellActivityId(d, day, labelText, date));
      ResolveCell(d, day, labelText, date) == Free <==>
        a.None? || !InDateRange(date, d.courseStartDate, d.courseEndDate, a.value)
  {
  }

  /**
    The first override of the list that applies on the date decides the
    cell's activity id, whatever the weekly schedule says.
   */
  lemma OverrideWins(d: AppData, day: string, labelText: string, date: string, i: nat)
    requires i < |d.overrides| && Applies(d.overrides[i], day, labelText, date)
    requires forall j :: 0 <= j < i ==> !Applies(d.overrides[j], day, labelText, date)
    ensures CellActivityId(d, day, labelText, date) == Some(d.overrides[i].activityId)
  {
  }

  /** After `planned-change` with a non-empty text, the session's cell carries the plan marker. */
  lemma PlanMarkerAfterPlannedChange(entries: map<string, ClassEntry>, sel: Store.Selection, value: string)
    requires value != ""
    ensures var key := Actions.SelectedKey(sel);
      HasPlan(entries[key := Actions.EntryOrFresh(entries, key).(planned := Some(value))], EntryKey(sel.activityId, sel.date))
  {
  }

  // ---------------------------------------------------------------------------
  // Annotation history (renderStudentDetailView)
  // ---------------------------------------------------------------------------

  /** `annotation && annotation.trim() !== ''` for the student's annotation in an entry. */
  predicate Annotated(e: ClassEntry, studentId: string)
  {
    studentId in e.annotations && NonBlank(e.annotations[studentId])
  }

  /** One line of the history; `date` is `None` when the key has no `_` (the source's `undefined`). */
  datatype HistoryItem = HistoryItem(
    entryId: string,
    date: Option<string>,
    activityName: string,
    activityColor: string,
    annotation: string)

  /** The item built for the entry under `entryId`, or `None` (the `null` that `filter(Boolean)` drops). */
  function HistoryItemOf(activities: seq<Activity>, studentId: string, entryId: string, e: ClassEntry): (r: Option<HistoryItem>)
    ensures r.Some? <==> Annotated(e, studentId)
    ensures r.Some? ==> r.value.entryId == entryId && r.value.annotation == e.annotations[studentId]
  {
    if Annotated(e, studentId) then
      var parts := Split(entryId, '_');
      var date := if |parts| >= 2 then Some(parts[1]) else None;
      var found := FindFirst(activities, (a: Activity) => a.id == parts[0]);
      var name := if found.Some? then activities[found.value].name else "Clase eliminada";
      var color := if found.Some? then activities[found.value].color else "#cccccc";
      Some(HistoryItem(entryId, date, name, color, e.annotations[studentId]))
    else None
  }

  /** An entry keyed `${activityId}_${date}` is dated `date` in the history, when neither part holds `_`. */
  lemma HistoryItemDate(activities: seq<Activity>, studentId: string, activityId: string, date: string, e: ClassEntry)
    requires '_' !in activityId && '_' !in date && Annotated(e, studentId)
    ensures HistoryItemOf(activities, studentId, EntryKey(activityId, date), e).value.date == Some(date)
  {
    EntryKeySplit(activityId, date);
  }

  /** The items of the entries in the order of `keys` (`Object.entries(...).map(...).filter(Boolean)`). */
  function Collected(d: AppData, studentId: string, keys: seq<string>): seq<HistoryItem>
    requires forall k :: k in keys ==> k in d.classEntries
  {
    if keys == [] then []
    else
      var k := keys[|keys| - 1];
      var rest := Collected(d, studentId, keys[..|keys| - 1]);
      match HistoryItemOf(d.activities, studentId, k, d.classEntries[k])
      case Some(item) => rest + [item]
      case None => rest
  }

  /** `new Date(x.date) - new Date(y.date) > 0`: `x` is strictly later; an absent or malformed date compares as equal. */
  predicate Later(x: Option<string>, y: Option<string>)
  {
    x.Some? && y.Some? && IsIsoDate(x.value) && IsIsoDate(y.value) && LexLess(y.value, x.value)
  }

  /** Inserts `x`, which came first, before the first item that is not strictly later than it. */
  function InsertByDate(x: HistoryItem, xs: seq<HistoryItem>): (r: seq<HistoryItem>)
    ensures multiset(r) == multiset(xs) + multiset{x}
  {
    if xs == [] || !Later(xs[0].date, x.date) then [x] + xs
    else
      assert xs == [xs[0]] + xs[1..];
      [xs[0]] + InsertByDate(x, xs[1..])
  }

  /** `sort((a, b) => new Date(b.date) - new Date(a.date))`, a stable sort by date, latest first. */
  function SortByDateDesc(xs: seq<HistoryItem>): (r: seq<HistoryItem>)
    ensures multiset(r) == multiset(xs)
  {
    if xs == [] then []
    else
      assert xs == [xs[0]] + xs[1..];
      InsertByDate(xs[0], SortByDateDesc(xs[1..]))
  }

  /** Latest first: no item is strictly later than one before it. */
  predicate NewestFirst(xs: seq<HistoryItem>)
  {
    forall i, j :: 0 <= i < j < |xs| ==> !Later(xs[j].date, xs[i].date)
  }

  predicate AllDated(xs: seq<HistoryItem>)
  {
    forall i :: 0 <= i < |xs| ==> xs[i].date.Some? && IsIsoDate(xs[i].date.value)
  }

  /** Between dated items, "not strictly later" is transitive. */
  lemma NotLaterTransitive(x: HistoryItem, y: HistoryItem, z: HistoryItem)
    requires x.date.Some? && IsIsoDate(x.date.value)
    requires y.date.Some? && IsIsoDate(y.date.value)
    requires z.date.Some? && IsIsoDate(z.date.value)
    requires !Later(z.date, y.date) && !Later(y.date, x.date)
    ensures !Later(z.date, x.date)
  {
    LexLessIff(y.date.value, z.date.value);
    LexLessIff(x.date.value, y.date.value);
    LexLessIff(x.date.value, z.date.value);
    LexTransitive(z.date.value, y.date.value, x.date.value);
  }

  /** Every item of the result is `x` or an item of `xs`. */
  lemma {:induction false} InsertByDateMembers(x: HistoryItem, xs: seq<HistoryItem>)
    ensures forall y :: y in InsertByDate(x, xs) ==> y == x || y in xs
  {
    if xs != [] && Later(xs[0].date, x.date) {
      InsertByDateMembers(x, xs[1..]);
    }
  }

  /** `x` may go in front when the first item is not strictly later than it. */
  lemma InsertInFront(x: HistoryItem, xs: seq<HistoryItem>)
    requires NewestFirst(xs) && AllDated(xs) && x.date.Some? && IsIsoDate(x.date.value)
    requires xs == [] || !Later(xs[0].date, x.date)
    ensures NewestFirst([x] + xs)
  {
    var r := [x] + xs;
    forall i, j | 0 <= i < j < |r|
      ensures !Later(r[j].date, r[i].date)
    {
      if i == 0 && j > 1 {
        NotLaterTransitive(x, xs[0], xs[j - 1]);
      }
    }
  }

  /** Behind a strictly later first item, the rest sorted with `x` in it keeps the order. */
  lemma InsertBehind(x: HistoryItem, xs: seq<HistoryItem>, ins: seq<HistoryItem>)
    requires NewestFirst(xs) && AllDated(xs) && x.date.Some? && IsIsoDate(x.date.value)
    requires xs != [] && Later(xs[0].date, x.date)
    requires NewestFirst(ins) && forall y :: y in ins ==> y == x || y in xs[1..]
    ensures NewestFirst([xs[0]] + ins)
  {
    var r := [xs[0]] + ins;
    forall j | 0 <= j < |ins|
      ensures !Later(ins[j].date, xs[0].date)
    {
      assert ins[j] in ins;
      if ins[j] == x {
        LexLessIff(xs[0].date.value, x.date.value);
        LexLessIff(x.date.value, xs[0].date.value);
      } else {
        var k :| 1 <= k < |xs| && xs[k] == ins[j];
      }
    }
    forall i, j | 0 <= i < j < |r|
      ensures !Later(r[j].date, r[i].date)
    {
      if i == 0 {
        assert r[j] == ins[j - 1];
      } else {
        assert r[i] == ins[i - 1] && r[j] == ins[j - 1];
      }
    }
  }

  lemma {:induction false} InsertByDateSorted(x: HistoryItem, xs: seq<HistoryItem>)
    requires NewestFirst(xs) && AllDated(xs) && x.date.Some? && IsIsoDate(x.date.value)
    ensures NewestFirst(InsertByDate(x, xs)) && AllDated(InsertByDate(x, xs))
  {
    InsertByDateMembers(x, xs);
    if xs == [] || !Later(xs[0].date, x.date) {
      InsertInFront(x, xs);
    } else {
      var tail := xs[1..];
      InsertByDateSorted(x, tail);
      InsertByDateMembers(x, tail);
      InsertBehind(x, xs, InsertByDate(x, tail));
    }
    var r := InsertByDate(x, xs);
    forall i | 0 <= i < |r|
      ensures r[i].date.Some? && IsIsoDate(r[i].date.value)
    {
      assert r[i] in r;
    }
  }

  /** With every item dated, the sorted history is latest first. */
  lemma {:induction false} SortByDateDescSorted(xs: seq<HistoryItem>)
    requires AllDated(xs)
    ensures NewestFirst(SortByDateDesc(xs)) && AllDated(SortByDateDesc(xs))
  {
    if xs != [] {
      assert AllDated(xs[1..]);
      SortByDateDescSorted(xs[1..]);
      InsertByDateSorted(xs[0], SortByDateDesc(xs[1..]));
    }
  }

  /** The history of a student's sheet: the annotated entries, latest first. */
  function History(d: AppData, studentId: string, keys: seq<string>): (r: seq<HistoryItem>)
    requires forall k :: k in keys ==> k in d.classEntries
    ensures multiset(r) == multiset(Collected(d, studentId, keys))
  {
    SortByDateDesc(Collected(d, studentId, keys))
  }

  /** Some line of `items` belongs to the entry under `k`. */
  ghost predicate HasLine(items: seq<HistoryItem>, k: string)
  {
    exists item :: item in items && item.entryId == k
  }

  lemma HasLineSnoc(items: seq<HistoryItem>, x: HistoryItem, k: string)
    ensures HasLine(items + [x], k) <==> HasLine(items, k) || x.entryId == k
  {
    if HasLine(items + [x], k) {
      var item :| item in items + [x] && item.entryId == k;
    }
    if HasLine(items, k) {
      var item :| item in items && item.entryId == k;
      assert item in items + [x];
    }
    if x.entryId == k {
      assert x in items + [x];
    }
  }

  /** Reordering keeps the lines. */
  lemma HasLineReordered(a: seq<HistoryItem>, b: seq<HistoryItem>, k: string)
    requires multiset(a) == multiset(b)
    ensures HasLine(a, k) <==> HasLine(b, k)
  {
    if HasLine(a, k) {
      var item :| item in a && item.entryId == k;
      assert item in multiset(b);
    }
    if HasLine(b, k) {
      var item :| item in b && item.entryId == k;
      assert item in multiset(a);
    }
  }

  /** One step of `Collected`: the last key adds its line, if it has one. */
  lemma CollectedSnoc(d: AppData, studentId: string, keys: seq<string>, k: string)
    requires keys != [] && forall k :: k in keys ==> k in d.classEntries
    ensures HasLine(Collected(d, studentId, keys), k) <==>
      HasLine(Collected(d, studentId, keys[..|keys| - 1]), k) ||
      (keys[|keys| - 1] == k && Annotated(d.classEntries[k], studentId))
    ensures k in keys <==> k in keys[..|keys| - 1] || keys[|keys| - 1] == k
  {
    assert keys == keys[..|keys| - 1] + [keys[|keys| - 1]];
    var last := keys[|keys| - 1];
    var rest := Collected(d, studentId, keys[..|keys| - 1]);
    var item := HistoryItemOf(d.activities, studentId, last, d.classEntries[last]);
    if item.Some? {
      HasLineSnoc(rest, item.value, k);
    }
  }

  /** An entry gives a line exactly when the student's annotation in it is not blank. */
  lemma {:induction false} CollectedIff(d: AppData, studentId: string, keys: seq<string>, k: string)
    requires forall k :: k in keys ==> k in d.classEntries
    ensures HasLine(Collected(d, studentId, keys), k) <==> k in keys && Annotated(d.classEntries[k], studentId)
  {
    if keys != [] {
      CollectedIff(d, studentId, keys[..|keys| - 1], k);
      CollectedSnoc(d, studentId, keys, k);
    }
  }

  /**
    With `keys` listing every entry, the history holds a line for entry `k`
    exactly when the student's annotation in it is not blank.
   */
  lemma HistoryIff(d: AppData, studentId: string, keys: seq<string>, k: string)
    requires Enumerates(keys, d.classEntries)
    ensures HasLine(History(d, studentId, keys), k) <==>
      k in d.classEntries && Annotated(d.classEntries[k], studentId)
  {
    CollectedIff(d, studentId, keys, k);
    HasLineReordered(History(d, studentId, keys), Collected(d, studentId, keys), k);
  }

  /** With every entry key dated, the history is latest first. */
  lemma HistoryNewestFirst(d: AppData, studentId: string, keys: seq<string>)
    requires forall k :: k in keys ==> k in d.classEntries
    requires AllDated(Collected(d, studentId, keys))
    ensures NewestFirst(History(d, studentId, keys))
  {
    SortByDateDescSorted(Collected(d, studentId, keys));
  }

  /** After `annotation-change` with a non-blank text, the session appears in that student's history. */
  lemma AnnotationShowsInHistory(d: AppData, sel: Store.Selection, studentId: string, value: string, keys: seq<string>)
    requires NonBlank(value)
    requires var key := Actions.SelectedKey(sel);
      var e := Actions.EntryOrFresh(d.classEntries, key);
      Enumerates(keys, d.classEntries[key := e.(annotations := e.annotations[studentId := value])])
    ensures var key := Actions.SelectedKey(sel);
      var e := Actions.EntryOrFresh(d.classEntries, key);
      var d2 := d.(classEntries := d.classEntries[key := e.(annotations := e.annotations[studentId := value])]);
      HasLine(History(d2, studentId, keys), key)
  {
    var key := Actions.SelectedKey(sel);
    var e := Actions.EntryOrFresh(d.classEntries, key);
    var d2 := d.(classEntries := d.classEntries[key := e.(annotations := e.annotations[studentId := value])]);
    HistoryIff(d2, studentId, keys, key);
  }

  // ---------------------------------------------------------------------------
  // Enrolment lists
  // ---------------------------------------------------------------------------

  /** The classes listed on a student's sheet: `type === 'class'` and enrolled. */
  function EnrolledClasses(activities: seq<Activity>, studentId: string): (r: seq<Activity>)
    ensures forall a :: a in r <==> a in activities && a.kind == "class" && studentId in a.studentIds
  {
    var r := Filter(activities, (a: Activity) => a.kind == "class" && studentId in a.studentIds);
    assert forall a :: a in r <==> multiset(r)[a] > 0;
    r
  }

  /** The students of a class in the settings view, in list order. */
  function EnrolledStudents(students: seq<Student>, a: Activity): seq<Student>
  {
    Filter(students, (s: Student) => s.id in a.studentIds)
  }

  /** The students the class's picker offers. */
  function AvailableStudents(students: seq<Student>, a: Activity): seq<Student>
  {
    Filter(students, (s: Student) => s.id !in a.studentIds)
  }

  /**
    The enrolled and the available students of a class split the student
    list: each student is in exactly one of them, as often as in the list.
   */
  lemma Partition(students: seq<Student>, a: Activity)
    ensures multiset(EnrolledStudents(students, a)) + multiset(AvailableStudents(students, a)) == multiset(students)
    ensures forall s :: s in EnrolledStudents(students, a) ==> s.id in a.studentIds
    ensures forall s :: s in AvailableStudents(students, a) ==> s.id !in a.studentIds
  {
    var e := EnrolledStudents(students, a);
    var v := AvailableStudents(students, a);
    forall s ensures (multiset(e) + multiset(v))[s] == multiset(students)[s] {
    }
    forall s | s in e ensures s.id in a.studentIds {
      assert multiset(e)[s] > 0;
    }
    forall s | s in v ensures s.id !in a.studentIds {
      assert multiset(v)[s] > 0;
    }
  }

  /** The student sheet and the settings view agree: a class lists a student exactly when the student's sheet lists the class. */
  lemma EnrolmentAgrees(activities: seq<Activity>, students: seq<Student>, a: Activity, s: Student)
    requires a in activities && a.kind == "class" && s in students
    ensures s in EnrolledStudents(students, a) <==> a in EnrolledClasses(activities, s.id)
  {
    var e := EnrolledStudents(students, a);
    if s.id in a.studentIds {
      assert multiset(e)[s] == multiset(students)[s];
      assert s in multiset(students);
    } else {
      assert multiset(e)[s] == 0;
    }
  }

  // ---------------------------------------------------------------------------
  // Reorder buttons (renderSettingsView)
  // ---------------------------------------------------------------------------

  /** The "up" button of the slot at `index` is disabled at the top. */
  predicate UpDisabled(index: int)
  {
    index == 0
  }

  /** The "down" button is disabled at the bottom. */
  predicate DownDisabled(index: int, count: int)
  {
    index == count - 1
  }

  /**
    For a listed slot, the button in a direction is enabled exactly when the
    neighbour `reorder-timeslot` swaps with exists: the guards give the
    handler its precondition, and disable nothing more.
   */
  lemma ReorderGuards(count: nat, index: nat, direction: string)
    requires index < count && (direction == "up" || direction == "down")
    ensures 0 <= Actions.OtherIndex(index, direction) < count <==>
      (if direction == "up" then !UpDisabled(index) else !DownDisabled(index, count))
  {
  }
}
