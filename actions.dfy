/**
  The user-action handlers. Each handler updates the shared `AppState` in place;
  its contract ties the new state to a function of the old one, and the
  properties the gradebook relies on are proved about those functions.
  Form values read from the page are parameters; `crypto.randomUUID()` is a
  fresh-id parameter (`newId`) or, in loops, an oracle indexed by position.
 */
module Actions {
  import opened Text
  import opened Domain
  import opened Store

  // ---------------------------------------------------------------------------
  // enrolment
  // ---------------------------------------------------------------------------

  /** A class roster after enrolling `sid`: an absent id is appended, a present one changes nothing. */
  function Enrol(ids: seq<string>, sid: string): (r: seq<string>)
    ensures sid in r
    ensures ids <= r && |r| <= |ids| + 1
    ensures sid in ids ==> r == ids
    ensures NoDuplicates(ids) ==> NoDuplicates(r)
  {
    if sid in ids then ids else ids + [sid]
  }

  /** A class roster after removing `sid`: every occurrence goes, every other id stays. */
  function Unenrol(ids: seq<string>, sid: string): (r: seq<string>)
    ensures sid !in r
    ensures forall x :: x != sid ==> multiset(r)[x] == multiset(ids)[x]
  {
    Filter(ids, (x: string) => x != sid)
  }

  /** Removing a student just enrolled gives back the roster from before. */
  lemma EnrolThenUnenrol(ids: seq<string>, sid: string)
    requires sid !in ids
    ensures Unenrol(Enrol(ids, sid), sid) == ids
  {
    var keep := (x: string) => x != sid;
    FilterAppend(ids, [sid], keep);
    FilterAll(ids, keep);
    assert Filter([sid], keep) == [];
  }

  /** The data with `sid` enrolled in activity `i`. */
  function WithEnrolled(d: AppData, i: nat, sid: string): AppData
    requires i < |d.activities|
  {
    d.(activities := d.activities[i := d.activities[i].(studentIds := Enrol(d.activities[i].studentIds, sid))])
  }

  /**
    Enrolling the student called `name` in activity `i`: the first student whose
    name matches up to case is reused; a student `{newId, name, ''}` is created
    only when none matches.
   */
  function EnrolByName(d: AppData, i: nat, name: string, newId: string): (r: AppData)
    requires i < |d.activities|
    ensures |r.activities| == |d.activities|
  {
    match FindFirst(d.students, (s: Student) => SameName(s.name, name))
    case Some(j) => WithEnrolled(d, i, d.students[j].id)
    case None => WithEnrolled(d.(students := d.students + [Student(newId, name, "")]), i, newId)
  }

  /**
    What enrolling by name does: only the students and the roster of activity
    `i` change, both only grow; an existing student with a matching name is
    reused, otherwise exactly one student `{newId, name, ''}` is added; the
    student ends up enrolled; and the roster stays duplicate-free, the names
    distinct up to case and the ids distinct when `newId` is fresh.
   */
  lemma EnrolByNameSpec(d: AppData, i: nat, name: string, newId: string)
    requires i < |d.activities|
    ensures var r := EnrolByName(d, i, name, newId);
      && r == d.(activities := r.activities, students := r.students)
      && (forall k :: 0 <= k < |d.activities| && k != i ==> r.activities[k] == d.activities[k])
      && r.activities[i] == d.activities[i].(studentIds := r.activities[i].studentIds)
      && d.activities[i].studentIds <= r.activities[i].studentIds
      && d.students <= r.students
      && ((exists j :: 0 <= j < |d.students| && SameName(d.students[j].name, name)) ==>
            r.students == d.students)
      && ((forall j :: 0 <= j < |d.students| ==> !SameName(d.students[j].name, name)) ==>
            r.students == d.students + [Student(newId, name, "")])
      && Enrolled(r, i, name)
      && (NoDuplicates(d.activities[i].studentIds) ==> NoDuplicates(r.activities[i].studentIds))
      && (DistinctNames(d.students) ==> DistinctNames(r.students))
      && (DistinctIds(d.students) && !HasStudentId(d.students, newId) ==> DistinctIds(r.students))
  {
    var r := EnrolByName(d, i, name, newId);
    LowerSpec(name);
    match FindFirst(d.students, (s: Student) => SameName(s.name, name))
    case Some(j) =>
      assert EnrolledAs(r, i, j, name);
    case None =>
      assert EnrolledAs(r, i, |d.students|, name);
  }

  /** Creates or reuses the student `name` and enrols them in activity `i`. */
  method EnrolStudentByName(st: AppState, i: nat, name: string, newId: string)
    requires i < |st.activities|
    modifies st
    ensures st.Data() == EnrolByName(old(st.Data()), i, name, newId)
    ensures st.View() == old(st.View())
  {
    var found := FindFirst(st.students, (s: Student) => SameName(s.name, name));
    var sid: string;
    if found.None? {
      sid := newId;
      st.students := st.students + [Student(newId, name, "")];
    } else {
      sid := st.students[found.value].id;
    }
    var a := st.activities[i];
    if sid !in a.studentIds {
      st.activities := st.activities[i := a.(studentIds := a.studentIds + [sid])];
    }
  }

  /** `add-student-to-class`: a blank name or an unknown activity changes nothing. */
  method AddStudentToClass(st: AppState, activityId: string, nameInput: string, newId: string)
    modifies st
    ensures st.View() == old(st.View())
    ensures var name := Trim(nameInput);
            var i := ActivityIndex(old(st.activities), activityId);
      st.Data() == if name == "" || i.None? then old(st.Data())
                   else EnrolByName(old(st.Data()), i.value, name, newId)
  {
    var name := Trim(nameInput);
    if name == "" {
      return;
    }
    var i := ActivityIndex(st.activities, activityId);
    if i.None? {
      return;
    }
    EnrolStudentByName(st, i.value, name, newId);
  }

  /** `add-selected-student-to-class`: the empty choice or an unknown activity changes nothing. */
  method AddSelectedStudentToClass(st: AppState, activityId: string, studentId: string)
    modifies st
    ensures st.View() == old(st.View())
    ensures var i := ActivityIndex(old(st.activities), activityId);
      st.Data() == if i.None? || studentId == "" then old(st.Data())
                   else WithEnrolled(old(st.Data()), i.value, studentId)
  {
    var i := ActivityIndex(st.activities, activityId);
    if i.Some? && studentId != "" && studentId !in st.activities[i.value].studentIds {
      var a := st.activities[i.value];
      st.activities := st.activities[i.value := a.(studentIds := a.studentIds + [studentId])];
    }
  }

  /** `remove-student-from-class`: an unknown activity changes nothing. */
  method RemoveStudentFromClass(st: AppState, activityId: string, studentId: string)
    modifies st
    ensures st.View() == old(st.View())
    ensures var i := ActivityIndex(old(st.activities), activityId);
      st.Data() == if i.None? then old(st.Data())
                   else old(st.Data()).(activities := old(st.activities)[i.value :=
                          old(st.activities)[i.value].(studentIds := Unenrol(old(st.activities)[i.value].studentIds, studentId))])
  {
    var i := ActivityIndex(st.activities, activityId);
    if i.Some? {
      var a := st.activities[i.value];
      st.activities := st.activities[i.value := a.(studentIds := Filter(a.studentIds, (x: string) => x != studentId))];
    }
  }

  // ---------------------------------------------------------------------------
  // bulk import
  // ---------------------------------------------------------------------------

  /** The names of a pasted list: the lines of the trimmed text that are not blank. */
  function ImportLines(text: string): (names: seq<string>)
    ensures forall k :: 0 <= k < |names| ==> NonBlank(names[k])
    ensures forall line :: line in Split(Trim(text), '\n') && NonBlank(line) ==> line in names
  {
    var lines := Split(Trim(text), '\n');
    var names := Filter(lines, NonBlank);
    assert forall line :: line in lines && NonBlank(line) ==> line in names by {
      forall line | line in lines && NonBlank(line) ensures line in names {
        InFilter(lines, NonBlank, line);
      }
    }
    names
  }

  /** Student `j` of `d` has a name matching `name` up to case and is enrolled in activity `i`. */
  predicate EnrolledAs(d: AppData, i: nat, j: nat, name: string)
    requires i < |d.activities|
  {
    j < |d.students| && SameName(d.students[j].name, name) && d.students[j].id in d.activities[i].studentIds
  }

  /** Some student whose name matches `name` up to case is enrolled in activity `i`. */
  ghost predicate Enrolled(d: AppData, i: nat, name: string)
    requires i < |d.activities|
  {
    exists j: nat :: EnrolledAs(d, i, j, name)
  }

  /** Enrolling one more name keeps every earlier enrolment. */
  lemma EnrolKeepsEnrolled(d: AppData, i: nat, name: string, newId: string, other: string)
    requires i < |d.activities| && Enrolled(d, i, other)
    ensures Enrolled(EnrolByName(d, i, name, newId), i, other)
  {
    var j: nat :| EnrolledAs(d, i, j, other);
    EnrolByNameExtends(d, i, name, newId);
    var r := EnrolByName(d, i, name, newId);
    assert r.students[j] == d.students[j];
    assert EnrolledAs(r, i, j, other);
  }

  /** The data after importing the first `n` names into activity `i`; name `k` may use the fresh id `uuid(k)`. */
  function ImportFold(d: AppData, i: nat, names: seq<string>, n: nat, uuid: nat -> string): (r: AppData)
    requires i < |d.activities| && n <= |names|
    ensures |r.activities| == |d.activities|
    decreases n
  {
    if n == 0 then d
    else EnrolByName(ImportFold(d, i, names, n - 1, uuid), i, Trim(names[n - 1]), uuid(n - 1))
  }

  /**
    `r` grew out of `d` by an import into activity `i`: only the students and
    that roster changed, both only grew, the roster stayed duplicate-free and
    student names stayed distinct up to case.
   */
  predicate Extends(d: AppData, r: AppData, i: nat)
    requires i < |d.activities|
  {
    && |r.activities| == |d.activities|
    && r == d.(activities := r.activities, students := r.students)
    && (forall k :: 0 <= k < |d.activities| && k != i ==> r.activities[k] == d.activities[k])
    && d.activities[i].studentIds <= r.activities[i].studentIds
    && d.students <= r.students
    && (NoDuplicates(d.activities[i].studentIds) ==> NoDuplicates(r.activities[i].studentIds))
    && (DistinctNames(d.students) ==> DistinctNames(r.students))
  }

  /** Enrolling by name is one step of growth and enrols the name. */
  lemma EnrolByNameExtends(d: AppData, i: nat, name: string, newId: string)
    requires i < |d.activities|
    ensures Extends(d, EnrolByName(d, i, name, newId), i)
    ensures Enrolled(EnrolByName(d, i, name, newId), i, name)
  {
    EnrolByNameSpec(d, i, name, newId);
  }

  lemma ExtendsTransitive(d: AppData, e: AppData, r: AppData, i: nat)
    requires i < |d.activities| && Extends(d, e, i) && Extends(e, r, i)
    ensures Extends(d, r, i)
  {
  }

  /** The `k`-th name is not blank once trimmed. */
  lemma ImportStepNonBlank(names: seq<string>, k: nat)
    requires k < |names| && NonBlank(names[k])
    ensures Trim(names[k]) != ""
  {
  }

  /** `r` grew out of `d0` by an import into activity `i` that enrolled the first `k` names. */
  ghost predicate ImportedUpTo(d0: AppData, r: AppData, i: nat, names: seq<string>, k: nat)
    requires i < |d0.activities| && k <= |names|
  {
    && Extends(d0, r, i)
    && forall m :: 0 <= m < k ==> Enrolled(r, i, Trim(names[m]))
  }

  /** One step of an import enrols the next name and keeps every earlier enrolment. */
  lemma ImportStep(d0: AppData, before: AppData, i: nat, names: seq<string>, k: nat, uuid: nat -> string)
    requires i < |d0.activities| && k < |names|
    requires ImportedUpTo(d0, before, i, names, k)
    ensures ImportedUpTo(d0, EnrolByName(before, i, Trim(names[k]), uuid(k)), i, names, k + 1)
  {
    var name := Trim(names[k]);
    var after := EnrolByName(before, i, name, uuid(k));
    EnrolByNameExtends(before, i, name, uuid(k));
    ExtendsTransitive(d0, before, after, i);
    forall m | 0 <= m < k + 1
      ensures Enrolled(after, i, Trim(names[m]))
    {
      if m < k {
        EnrolKeepsEnrolled(before, i, name, uuid(k), Trim(names[m]));
      }
    }
  }

  /** An import that went through every name enrolled every non-blank line the names were taken from. */
  lemma ImportCoversLines(d0: AppData, r: AppData, i: nat, names: seq<string>, lines: seq<string>)
    requires i < |d0.activities|
    requires ImportedUpTo(d0, r, i, names, |names|)
    requires forall line :: line in lines && NonBlank(line) ==> line in names
    ensures forall line :: line in lines && NonBlank(line) ==> Enrolled(r, i, Trim(line))
  {
    forall line | line in lines && NonBlank(line)
      ensures Enrolled(r, i, Trim(line))
    {
      var m :| 0 <= m < |names| && names[m] == line;
    }
  }

  /**
    `import-students`: with a known class and non-blank text, every non-blank
    line of the text names a student enrolled in the class (an existing student
    is reused when the name matches up to case), and the data only grew as
    `Extends` says. Otherwise nothing changes and the handler reports the
    problem (`accepted` is false).
   */
  method ImportStudents(st: AppState, targetClassId: string, text: string, uuid: nat -> string)
    returns (accepted: bool)
    modifies st
    ensures st.View() == old(st.View())
    ensures var i := ActivityIndex(old(st.activities), targetClassId);
      accepted == (i.Some? && Trim(text) != "") &&
      st.Data() == if !accepted then old(st.Data())
                   else ImportFold(old(st.Data()), i.value, ImportLines(text), |ImportLines(text)|, uuid)
    ensures accepted ==> var i := ActivityIndex(old(st.activities), targetClassId).value;
      && Extends(old(st.Data()), st.Data(), i)
      && forall line :: line in Split(Trim(text), '\n') && NonBlank(line) ==>
           Enrolled(st.Data(), i, Trim(line))
  {
    var i := ActivityIndex(st.activities, targetClassId);
    if i.None? || Trim(text) == "" {
      return false;
    }
    var names := ImportLines(text);
    ghost var d0 := st.Data();
    var k := 0;
    while k < |names|
      invariant k <= |names|
      invariant st.Data() == ImportFold(d0, i.value, names, k, uuid)
      invariant st.View() == old(st.View())
      invariant ImportedUpTo(d0, st.Data(), i.value, names, k)
    {
      var name := Trim(names[k]);
      ghost var before := st.Data();
      ImportStepNonBlank(names, k);
      if name != "" {
        EnrolStudentByName(st, i.value, name, uuid(k));
      }
      ImportStep(d0, before, i.value, names, k, uuid);
      k := k + 1;
    }
    ImportCoversLines(d0, st.Data(), i.value, names, Split(Trim(text), '\n'));
    return true;
  }

  // ---------------------------------------------------------------------------
  // time slots
  // ---------------------------------------------------------------------------

  /** `Math.max(...orders)` of a non-empty slot list; `None` (NaN) as soon as one slot has no order. */
  function MaxOrder(slots: seq<TimeSlot>): (r: Option<int>)
    requires slots != []
    ensures r.None? <==> exists k :: 0 <= k < |slots| && slots[k].order.None?
    ensures r.Some? ==> forall k :: 0 <= k < |slots| ==> slots[k].order.Some? && slots[k].order.value <= r.value
    ensures r.Some? ==> exists k :: 0 <= k < |slots| && slots[k].order == r
  {
    if |slots| == 1 then slots[0].order
    else
      var rest := MaxOrder(slots[1..]);
      assert forall k :: 1 <= k < |slots| ==> slots[k] == slots[1..][k - 1];
      match (slots[0].order, rest)
      case (Some(a), Some(b)) =>
        if a >= b then Some(a)
        else
          var k :| 0 <= k < |slots[1..]| && slots[1..][k].order == rest;
          assert slots[k + 1].order == rest;
          Some(b)
      case _ => None
  }

  /**
    The order of a new slot: 0 for the first one, otherwise one more than every
    existing order; `None` (NaN) when some existing slot has no order, as the
    slots the generator produces do.
   */
  function NextOrder(slots: seq<TimeSlot>): (r: Option<int>)
    ensures slots == [] ==> r == Some(0)
    ensures r.None? <==> exists k :: 0 <= k < |slots| && slots[k].order.None?
    ensures r.Some? && slots != [] ==>
      (forall k :: 0 <= k < |slots| ==> slots[k].order.Some? && slots[k].order.value < r.value) &&
      exists k :: 0 <= k < |slots| && slots[k].order == Some(r.value - 1)
  {
    if slots == [] then Some(0)
    else match MaxOrder(slots)
      case Some(m) => Some(m + 1)
      case None => None
  }

  /** `add-timeslot`: a blank label changes nothing; otherwise a slot `{newId, label, order}` is appended. */
  method AddTimeslot(st: AppState, labelInput: string, newId: string)
    modifies st
    ensures st.View() == old(st.View())
    ensures var labelText := Trim(labelInput);
      st.Data() == if labelText == "" then old(st.Data())
                   else old(st.Data()).(timeSlots := old(st.timeSlots) + [TimeSlot(newId, labelText, NextOrder(old(st.timeSlots)))])
  {
    var labelText := Trim(labelInput);
    if labelText != "" {
      var order := NextOrder(st.timeSlots);
      st.timeSlots := st.timeSlots + [TimeSlot(newId, labelText, order)];
    }
  }

  /** `delete-timeslot`: every slot with the id goes, the others stay in order. */
  method DeleteTimeslot(st: AppState, id: string)
    modifies st
    ensures st.View() == old(st.View())
    ensures st.Data() == old(st.Data()).(timeSlots := DropById(old(st.timeSlots), IdOfSlot, id))
  {
    st.timeSlots := DropById(st.timeSlots, IdOfSlot, id);
  }

  /**
    The key `${day}-${label}` a schedule key is moved to when its slot is
    renamed to `label`: its day part with the new label.
   */
  function Retarget(key: string, labelText: string): string
  {
    SlotKey(DayOf(key), labelText)
  }

  /**
    One step of the rename loop: a key ending with `-old` has its value copied
    to the same day with the new label and is then deleted; any other key is
    left alone.
   */
  function MoveKey(s: map<string, string>, key: string, oldLabel: string, newLabel: string): map<string, string>
  {
    if key in s && EndsWith(key, "-" + oldLabel) then s[Retarget(key, newLabel) := s[key]] - {key}
    else s
  }

  /** The schedule after the rename loop has visited the first `n` keys. */
  function RelabelFold(m: map<string, string>, keys: seq<string>, n: nat, oldLabel: string, newLabel: string): map<string, string>
    requires n <= |keys|
  {
    if n == 0 then m else MoveKey(RelabelFold(m, keys, n - 1, oldLabel, newLabel), keys[n - 1], oldLabel, newLabel)
  }

  /**
    Every key that ends with `-old` is exactly `${day}-${old}` for its day: no
    other label has the old label as a `-`-suffix.
   */
  ghost predicate Unambiguous(m: map<string, string>, oldLabel: string)
  {
    forall key :: key in m && EndsWith(key, "-" + oldLabel) ==> key == Retarget(key, oldLabel)
  }

  /** `key` is `${day}-${new}` for the day of some visited key `${day}-${old}` of `m`. */
  ghost predicate IsMovedTarget(m: map<string, string>, done: set<string>, key: string, oldLabel: string, newLabel: string)
  {
    key == Retarget(key, newLabel) && Retarget(key, oldLabel) in done && Retarget(key, oldLabel) in m
  }

  /** Each visited key of the old label is gone and its value sits under the new label of its day. */
  ghost predicate OldKeysMoved(m: map<string, string>, s: map<string, string>, done: set<string>, oldLabel: string, newLabel: string)
  {
    forall key :: key in done && key in m && EndsWith(key, "-" + oldLabel) ==>
      key !in s && Retarget(key, newLabel) in s && s[Retarget(key, newLabel)] == m[key]
  }

  /** Every other key of `m`, unless it is the target of a visited key, keeps its value. */
  ghost predicate OthersKept(m: map<string, string>, s: map<string, string>, done: set<string>, oldLabel: string, newLabel: string)
  {
    forall key :: (key in m && !(key in done && EndsWith(key, "-" + oldLabel)) &&
                   !IsMovedTarget(m, done, key, oldLabel, newLabel)) ==> key in s && s[key] == m[key]
  }

  /** No key appears but those of `m` and the targets of visited keys. */
  ghost predicate NoOtherKeys(m: map<string, string>, s: map<string, string>, done: set<string>, oldLabel: string, newLabel: string)
  {
    forall key :: key in s ==> key in m || IsMovedTarget(m, done, key, oldLabel, newLabel)
  }

  /** `s` is `m` with the visited keys `done` relabelled from `old` to `new`. */
  ghost predicate MovedUpTo(m: map<string, string>, s: map<string, string>, done: set<string>, oldLabel: string, newLabel: string)
  {
    && OldKeysMoved(m, s, done, oldLabel, newLabel)
    && OthersKept(m, s, done, oldLabel, newLabel)
    && NoOtherKeys(m, s, done, oldLabel, newLabel)
  }

  /** The whole schedule `m` relabelled from `old` to `new`. */
  ghost predicate RelabelledAs(m: map<string, string>, s: map<string, string>, oldLabel: string, newLabel: string)
  {
    MovedUpTo(m, s, m.Keys, oldLabel, newLabel)
  }

  /** A retargeted key ends with `-label`. */
  lemma RetargetEndsWith(key: string, labelText: string)
    ensures EndsWith(Retarget(key, labelText), "-" + labelText)
  {
    var r := Retarget(key, labelText);
    assert r[|r| - |"-" + labelText|..] == "-" + labelText;
  }

  /** Retargeting keeps the day, so retargeting twice is retargeting once. */
  lemma RetargetTwice(key: string, l1: string, l2: string)
    ensures Retarget(Retarget(key, l1), l2) == Retarget(key, l2)
  {
    DayOfSlotKey(DayOf(key), l1);
  }

  /** A key of the new label differs from every key of the old label. */
  lemma RetargetDiffers(key: string, other: string, oldLabel: string, newLabel: string)
    requires oldLabel != newLabel
    requires other == Retarget(other, oldLabel)
    ensures Retarget(key, newLabel) != other
  {
    if Retarget(key, newLabel) == other {
      SlotKeyInjective(DayOf(key), newLabel, DayOf(other), oldLabel);
    }
  }

  /** A key not yet visited is still in the schedule. */
  lemma UnvisitedPresent(m: map<string, string>, s: map<string, string>, done: set<string>, key: string,
                         oldLabel: string, newLabel: string)
    requires key in m && key !in done
    requires OldKeysMoved(m, s, done, oldLabel, newLabel) && OthersKept(m, s, done, oldLabel, newLabel)
    ensures key in s
  {
    if IsMovedTarget(m, done, key, oldLabel, newLabel) {
      var src := Retarget(key, oldLabel);
      RetargetEndsWith(key, oldLabel);
      RetargetTwice(key, oldLabel, newLabel);
    }
  }

  /** Visiting a key of the old label moves it and keeps `MovedUpTo`. */
  lemma MoveOldKeyStep(m: map<string, string>, s: map<string, string>, done: set<string>, key: string,
                       oldLabel: string, newLabel: string)
    requires oldLabel != newLabel && Unambiguous(m, oldLabel)
    requires key in m && key !in done && EndsWith(key, "-" + oldLabel)
    requires MovedUpTo(m, s, done, oldLabel, newLabel)
    ensures MovedUpTo(m, MoveKey(s, key, oldLabel, newLabel), done + {key}, oldLabel, newLabel)
  {
    UnvisitedPresent(m, s, done, key, oldLabel, newLabel);
    RetargetDiffers(key, key, oldLabel, newLabel);
    RetargetTwice(key, newLabel, oldLabel);
    assert !IsMovedTarget(m, done, key, oldLabel, newLabel);
    assert MoveKey(s, key, oldLabel, newLabel) == s[Retarget(key, newLabel) := s[key]] - {key};
    MoveOldKeyMoved(m, s, done, key, oldLabel, newLabel);
    MoveOldKeyKept(m, s, done, key, oldLabel, newLabel);
    assert key == Retarget(key, oldLabel);
    MoveOldKeyNoOthers(m, s, done, key, oldLabel, newLabel);
  }

  lemma MoveOldKeyNoOthers(m: map<string, string>, s: map<string, string>, done: set<string>, key: string,
                           oldLabel: string, newLabel: string)
    requires key in m && key in s && key == Retarget(key, oldLabel)
    requires NoOtherKeys(m, s, done, oldLabel, newLabel)
    ensures NoOtherKeys(m, s[Retarget(key, newLabel) := s[key]] - {key}, done + {key}, oldLabel, newLabel)
  {
    var t := Retarget(key, newLabel);
    var s2 := s[t := s[key]] - {key};
    forall k2 | k2 in s2
      ensures k2 in m || IsMovedTarget(m, done + {key}, k2, oldLabel, newLabel)
    {
      if k2 == t {
        RetargetTwice(key, newLabel, newLabel);
        RetargetTwice(key, newLabel, oldLabel);
      }
    }
  }

  lemma MoveOldKeyMoved(m: map<string, string>, s: map<string, string>, done: set<string>, key: string,
                        oldLabel: string, newLabel: string)
    requires oldLabel != newLabel && Unambiguous(m, oldLabel)
    requires key in m && key in s && key !in done && EndsWith(key, "-" + oldLabel)
    requires !IsMovedTarget(m, done, key, oldLabel, newLabel)
    requires MovedUpTo(m, s, done, oldLabel, newLabel)
    ensures OldKeysMoved(m, s[Retarget(key, newLabel) := s[key]] - {key}, done + {key}, oldLabel, newLabel)
  {
    var t := Retarget(key, newLabel);
    var s2 := s[t := s[key]] - {key};
    assert key == Retarget(key, oldLabel);
    RetargetDiffers(key, key, oldLabel, newLabel);
    assert s[key] == m[key];
    forall k2 | k2 in done + {key} && k2 in m && EndsWith(k2, "-" + oldLabel)
      ensures k2 !in s2 && Retarget(k2, newLabel) in s2 && s2[Retarget(k2, newLabel)] == m[k2]
    {
      if k2 != key {
        assert k2 == Retarget(k2, oldLabel);
        assert k2 !in s && Retarget(k2, newLabel) in s && s[Retarget(k2, newLabel)] == m[k2];
        DistinctTargets(key, k2, oldLabel, newLabel);
      }
    }
  }

  /** Two different keys of the old label have different targets, and neither target is an old-label key. */
  lemma DistinctTargets(key: string, k2: string, oldLabel: string, newLabel: string)
    requires oldLabel != newLabel && key != k2
    requires key == Retarget(key, oldLabel) && k2 == Retarget(k2, oldLabel)
    ensures Retarget(key, newLabel) != k2 && Retarget(k2, newLabel) != key
    ensures Retarget(key, newLabel) != Retarget(k2, newLabel)
  {
    RetargetDiffers(key, k2, oldLabel, newLabel);
    RetargetDiffers(k2, key, oldLabel, newLabel);
    if Retarget(key, newLabel) == Retarget(k2, newLabel) {
      SlotKeyInjective(DayOf(key), newLabel, DayOf(k2), newLabel);
    }
  }

  lemma MoveOldKeyKept(m: map<string, string>, s: map<string, string>, done: set<string>, key: string,
                       oldLabel: string, newLabel: string)
    requires oldLabel != newLabel && Unambiguous(m, oldLabel)
    requires key in m && key in s && key !in done && EndsWith(key, "-" + oldLabel)
    requires MovedUpTo(m, s, done, oldLabel, newLabel)
    ensures OthersKept(m, s[Retarget(key, newLabel) := s[key]] - {key}, done + {key}, oldLabel, newLabel)
  {
    var t := Retarget(key, newLabel);
    var s2 := s[t := s[key]] - {key};
    forall k2 | k2 in m && !(k2 in done + {key} && EndsWith(k2, "-" + oldLabel)) &&
                !IsMovedTarget(m, done + {key}, k2, oldLabel, newLabel)
      ensures k2 in s2 && s2[k2] == m[k2]
    {
      if k2 == t {
        RetargetTwice(key, newLabel, oldLabel);
        assert false;
      }
    }
  }

  /** Visiting any other key changes nothing and keeps `MovedUpTo`. */
  lemma MoveOtherKeyStep(m: map<string, string>, s: map<string, string>, done: set<string>, key: string,
                         oldLabel: string, newLabel: string)
    requires key in m && key !in done && !EndsWith(key, "-" + oldLabel)
    requires MovedUpTo(m, s, done, oldLabel, newLabel)
    ensures MovedUpTo(m, MoveKey(s, key, oldLabel, newLabel), done + {key}, oldLabel, newLabel)
  {
    forall k2 | IsMovedTarget(m, done + {key}, k2, oldLabel, newLabel)
      ensures IsMovedTarget(m, done, k2, oldLabel, newLabel)
    {
      RetargetEndsWith(k2, oldLabel);
    }
  }

  /**
    The rename loop after `k` of the schedule keys `keys`: `done` holds exactly
    the visited keys, the unvisited ones are still present, and (for an
    unambiguous old label) the visited keys are relabelled.
   */
  ghost predicate RelabelLoop(m: map<string, string>, s: map<string, string>, done: set<string>,
                              keys: seq<string>, k: nat, oldLabel: string, newLabel: string)
  {
    && k <= |keys|
    && (forall i :: 0 <= i < |keys| ==> (keys[i] in done <==> i < k))
    && done <= m.Keys
    && (forall i :: k <= i < |keys| ==> keys[i] in s)
    && (Unambiguous(m, oldLabel) ==> MovedUpTo(m, s, done, oldLabel, newLabel))
  }

  /** One iteration of the rename loop keeps `RelabelLoop`. */
  lemma RelabelLoopStep(m: map<string, string>, s: map<string, string>, done: set<string>,
                        keys: seq<string>, k: nat, oldLabel: string, newLabel: string)
    requires oldLabel != newLabel && NoDuplicates(keys)
    requires forall key :: key in m <==> key in keys
    requires k < |keys| && RelabelLoop(m, s, done, keys, k, oldLabel, newLabel)
    ensures RelabelLoop(m, MoveKey(s, keys[k], oldLabel, newLabel), done + {keys[k]}, keys, k + 1, oldLabel, newLabel)
  {
    var key := keys[k];
    var s' := MoveKey(s, key, oldLabel, newLabel);
    assert key !in done;
    if Unambiguous(m, oldLabel) {
      if EndsWith(key, "-" + oldLabel) {
        MoveOldKeyStep(m, s, done, key, oldLabel, newLabel);
      } else {
        MoveOtherKeyStep(m, s, done, key, oldLabel, newLabel);
      }
    }
    forall i | k + 1 <= i < |keys|
      ensures keys[i] in s'
    {
      assert keys[i] != key;
    }
    forall i | 0 <= i < |keys|
      ensures keys[i] in done + {key} <==> i < k + 1
    {
      if i != k {
        assert keys[i] != key;
      }
    }
  }

  /** After visiting every key, the moves describe the whole schedule. */
  lemma RelabelLoopDone(m: map<string, string>, s: map<string, string>, done: set<string>,
                        keys: seq<string>, oldLabel: string, newLabel: string)
    requires forall key :: key in m <==> key in keys
    requires RelabelLoop(m, s, done, keys, |keys|, oldLabel, newLabel)
    ensures Unambiguous(m, oldLabel) ==> RelabelledAs(m, s, oldLabel, newLabel)
  {
    assert done == m.Keys by {
      forall key | key in m
        ensures key in done
      {
        var i :| 0 <= i < |keys| && keys[i] == key;
      }
    }
  }

  /**
    The rename loop of `save-timeslot`: every schedule key visited in `keys`
    (the `Object.keys` order) that ends with `-old` is moved to
    `${day}-${new}`; for an unambiguous old label the result is exactly the
    relabelling of the old label's keys.
   */
  method RelabelSchedule(st: AppState, keys: seq<string>, oldLabel: string, newLabel: string)
    requires oldLabel != newLabel && NoDuplicates(keys)
    requires forall key :: key in st.schedule <==> key in keys
    modifies st
    ensures st.View() == old(st.View())
    ensures st.Data() == old(st.Data()).(schedule := RelabelFold(old(st.schedule), keys, |keys|, oldLabel, newLabel))
    ensures Unambiguous(old(st.schedule), oldLabel) ==> RelabelledAs(old(st.schedule), st.schedule, oldLabel, newLabel)
  {
    ghost var m := st.schedule;
    ghost var done: set<string> := {};
    var k := 0;
    while k < |keys|
      invariant k <= |keys|
      invariant st.schedule == RelabelFold(m, keys, k, oldLabel, newLabel)
      invariant st.Data() == old(st.Data()).(schedule := st.schedule)
      invariant st.View() == old(st.View())
      invariant RelabelLoop(m, st.schedule, done, keys, k, oldLabel, newLabel)
    {
      var key := keys[k];
      ghost var before := st.schedule;
      assert key in st.schedule;
      if EndsWith(key, "-" + oldLabel) {
        var day := DayOf(key);
        var newKey := SlotKey(day, newLabel);
        st.schedule := st.schedule[newKey := st.schedule[key]];
        st.schedule := st.schedule - {key};
      }
      assert st.schedule == MoveKey(before, key, oldLabel, newLabel);
      RelabelLoopStep(m, before, done, keys, k, oldLabel, newLabel);
      done := done + {key};
      k := k + 1;
    }
    RelabelLoopDone(m, st.schedule, done, keys, oldLabel, newLabel);
  }

  /**
    `save-timeslot`: with a known slot and a non-blank label different from the
    old one, the slot takes the new label and the schedule is renamed by
    `RelabelSchedule`. Otherwise the data is unchanged. The editing marker is
    cleared in every case.
   */
  method SaveTimeslot(st: AppState, id: string, newLabelInput: string, keys: seq<string>)
    requires NoDuplicates(keys)
    requires forall key :: key in st.schedule <==> key in keys
    modifies st
    ensures st.View() == old(st.View()).(editingTimeSlotId := None)
    ensures var j := SlotIndex(old(st.timeSlots), id);
            var newLabel := Trim(newLabelInput);
      if j.Some? && newLabel != "" && old(st.timeSlots)[j.value].labelText != newLabel then
        var oldLabel := old(st.timeSlots)[j.value].labelText;
        && st.Data() == old(st.Data()).(
             timeSlots := old(st.timeSlots)[j.value := old(st.timeSlots)[j.value].(labelText := newLabel)],
             schedule := RelabelFold(old(st.schedule), keys, |keys|, oldLabel, newLabel))
        && (Unambiguous(old(st.schedule), oldLabel) ==> RelabelledAs(old(st.schedule), st.schedule, oldLabel, newLabel))
      else st.Data() == old(st.Data())
  {
    var j := SlotIndex(st.timeSlots, id);
    if j.Some? {
      var slot := st.timeSlots[j.value];
      var oldLabel := slot.labelText;
      var newLabel := Trim(newLabelInput);
      if newLabel != "" && oldLabel != newLabel {
        st.timeSlots := st.timeSlots[j.value := slot.(labelText := newLabel)];
        RelabelSchedule(st, keys, oldLabel, newLabel);
      }
    }
    st.editingTimeSlotId := None;
  }

  /**
    Without the suffix assumption the rename also moves entries of other slots:
    the key `${day}-${first}-${old}` of a slot labelled `${first}-${old}` (say
    `Lunes-08:00-09:00` when the slot `09:00` is renamed to `X`) ends with
    `-old`, so it is moved to `${day}-${new}` (`Lunes-X`) as well.
   */
  lemma SuffixLabelMoved(day: string, first: string, oldLabel: string, newLabel: string, v: string)
    requires '-' !in day && first != "" && newLabel != first + "-" + oldLabel
    ensures var key := SlotKey(SlotKey(day, first), oldLabel);
      && !Unambiguous(map[key := v], oldLabel)
      && RelabelFold(map[key := v], [key], 1, oldLabel, newLabel) == map[SlotKey(day, newLabel) := v]
  {
    var key := SlotKey(SlotKey(day, first), oldLabel);
    var m := map[key := v];
    SuffixKeyFacts(day, first, oldLabel, newLabel);
    assert RelabelFold(m, [key], 1, oldLabel, newLabel) == MoveKey(m, key, oldLabel, newLabel);
  }

  /** The key `${day}-${first}-${old}` ends with `-old`, is not `${day}-${old}`, and is not `${day}-${new}`. */
  lemma SuffixKeyFacts(day: string, first: string, oldLabel: string, newLabel: string)
    requires '-' !in day && first != "" && newLabel != first + "-" + oldLabel
    ensures var key := SlotKey(SlotKey(day, first), oldLabel);
      && EndsWith(key, "-" + oldLabel)
      && Retarget(key, oldLabel) == SlotKey(day, oldLabel) != key
      && Retarget(key, newLabel) == SlotKey(day, newLabel) != key
  {
    var key := SlotKey(SlotKey(day, first), oldLabel);
    assert key == SlotKey(day, first + "-" + oldLabel);
    DayOfSlotKey(day, first + "-" + oldLabel);
    assert key[|key| - |"-" + oldLabel|..] == "-" + oldLabel;
    assert |key| > |SlotKey(day, oldLabel)|;
    if SlotKey(day, newLabel) == key {
      SlotKeyInjective(day, newLabel, day, first + "-" + oldLabel);
    }
  }

  /** `[xs[i], xs[j]] = [xs[j], xs[i]]`: the two elements trade places and nothing else moves. */
  function Swap<T>(xs: seq<T>, i: nat, j: nat): (r: seq<T>)
    requires i < |xs| && j < |xs|
    ensures |r| == |xs| && r[i] == xs[j] && r[j] == xs[i]
    ensures forall k :: 0 <= k < |xs| && k != i && k != j ==> r[k] == xs[k]
    ensures multiset(r) == multiset(xs)
  {
    xs[i := xs[j]][j := xs[i]]
  }

  /** Swapping back restores the list. */
  lemma SwapBack<T>(xs: seq<T>, i: nat, j: nat)
    requires i < |xs| && j < |xs|
    ensures Swap(Swap(xs, i, j), j, i) == xs
  {
    var r := Swap(Swap(xs, i, j), j, i);
    assert forall k :: 0 <= k < |xs| ==> r[k] == xs[k];
  }

  /** The index `reorder-timeslot` swaps with: the previous one for `up`, the next one otherwise. */
  function OtherIndex(index: int, direction: string): int
  {
    if direction == "up" then index - 1 else index + 1
  }

  /**
    `reorder-timeslot`: the slot at `index` trades places with its neighbour in
    the given direction. Both positions must exist, as the settings view
    guarantees by disabling the buttons at the ends.
   */
  method ReorderTimeslot(st: AppState, index: int, direction: string)
    requires 0 <= index < |st.timeSlots| && 0 <= OtherIndex(index, direction) < |st.timeSlots|
    modifies st
    ensures st.View() == old(st.View())
    ensures st.Data() == old(st.Data()).(timeSlots := Swap(old(st.timeSlots), index, OtherIndex(index, direction)))
  {
    var other := OtherIndex(index, direction);
    var a := st.timeSlots[index];
    var b := st.timeSlots[other];
    st.timeSlots := st.timeSlots[index := b][other := a];
  }

  // ---------------------------------------------------------------------------
  // weekly schedule and overrides
  // ---------------------------------------------------------------------------

  /** `schedule-change`: the cell `${day}-${time}` takes the chosen activity id ('' for none). */
  method ScheduleChange(st: AppState, day: string, time: string, value: string)
    modifies st
    ensures st.View() == old(st.View())
    ensures st.Data() == old(st.Data()).(schedule := old(st.schedule)[SlotKey(day, time) := value])
  {
    st.schedule := st.schedule[SlotKey(day, time) := value];
  }

  /**
    `add-schedule-override`: with every field filled in, the override is
    appended with a fresh id; with any field empty nothing changes and the
    handler reports it (`accepted` is false).
   */
  method AddScheduleOverride(st: AppState, day: string, time: string, activityId: string,
                             startDate: string, endDate: string, newId: string)
    returns (accepted: bool)
    modifies st
    ensures st.View() == old(st.View())
    ensures accepted <==> day != "" && time != "" && activityId != "" && startDate != "" && endDate != ""
    ensures st.Data() == if !accepted then old(st.Data())
      else old(st.Data()).(overrides := old(st.scheduleOverrides) + [Override(newId, day, time, activityId, startDate, endDate)])
  {
    if day == "" || time == "" || activityId == "" || startDate == "" || endDate == "" {
      return false;
    }
    st.scheduleOverrides := st.scheduleOverrides + [Override(newId, day, time, activityId, startDate, endDate)];
    return true;
  }

  /** `delete-schedule-override`: every override with the id goes, the others stay in order. */
  method DeleteScheduleOverride(st: AppState, id: string)
    modifies st
    ensures st.View() == old(st.View())
    ensures st.Data() == old(st.Data()).(overrides := DropById(old(st.scheduleOverrides), IdOfOverride, id))
  {
    st.scheduleOverrides := DropById(st.scheduleOverrides, IdOfOverride, id);
  }

  // ---------------------------------------------------------------------------
  // class entries
  // ---------------------------------------------------------------------------

  /** The entry stored under `key`, or the fresh `{ annotations: {} }` the handlers create. */
  function EntryOrFresh(entries: map<string, ClassEntry>, key: string): (e: ClassEntry)
    ensures key !in entries ==> e == ClassEntry(None, None, None, map[])
  {
    if key in entries then entries[key] else ClassEntry(None, None, None, map[])
  }

  /** The entry key of the open session. */
  function SelectedKey(sel: Selection): string
  {
    EntryKey(sel.activityId, sel.date)
  }

  /** `planned-change`: the open session's entry records the plan; its other fields and every other entry stay. */
  method PlannedChange(st: AppState, value: string)
    requires st.selectedActivity.Some?
    modifies st
    ensures st.View() == old(st.View())
    ensures var key := SelectedKey(old(st.selectedActivity).value);
      st.Data() == old(st.Data()).(classEntries := old(st.classEntries)[key := EntryOrFresh(old(st.classEntries), key).(planned := Some(value))])
  {
    var key := SelectedKey(st.selectedActivity.value);
    var e := EntryOrFresh(st.classEntries, key);
    st.classEntries := st.classEntries[key := e.(planned := Some(value))];
  }

  /** `completed-change`: the open session's entry records what was done. */
  method CompletedChange(st: AppState, value: string)
    requires st.selectedActivity.Some?
    modifies st
    ensures st.View() == old(st.View())
    ensures var key := SelectedKey(old(st.selectedActivity).value);
      st.Data() == old(st.Data()).(classEntries := old(st.classEntries)[key := EntryOrFresh(old(st.classEntries), key).(completed := Some(value))])
  {
    var key := SelectedKey(st.selectedActivity.value);
    var e := EntryOrFresh(st.classEntries, key);
    st.classEntries := st.classEntries[key := e.(completed := Some(value))];
  }

  /** `annotation-change`: the open session's entry records the annotation of one student. */
  method AnnotationChange(st: AppState, studentId: string, value: string)
    requires st.selectedActivity.Some?
    modifies st
    ensures st.View() == old(st.View())
    ensures var key := SelectedKey(old(st.selectedActivity).value);
            var e := EntryOrFresh(old(st.classEntries), key);
      st.Data() == old(st.Data()).(classEntries := old(st.classEntries)[key := e.(annotations := e.annotations[studentId := value])])
  {
    var key := SelectedKey(st.selectedActivity.value);
    var e := EntryOrFresh(st.classEntries, key);
    st.classEntries := st.classEntries[key := e.(annotations := e.annotations[studentId := value])];
  }

  /** `edit-session-annotation`: only an existing entry is edited; an unknown entry id changes nothing. */
  method EditSessionAnnotation(st: AppState, entryId: string, studentId: string, value: string)
    modifies st
    ensures st.View() == old(st.View())
    ensures st.Data() == if entryId !in old(st.classEntries) then old(st.Data())
      else var e := old(st.classEntries)[entryId];
           old(st.Data()).(classEntries := old(st.classEntries)[entryId := e.(annotations := e.annotations[studentId := value])])
  {
    if entryId in st.classEntries {
      var e := st.classEntries[entryId];
      st.classEntries := st.classEntries[entryId := e.(annotations := e.annotations[studentId := value])];
    }
  }

  // ---------------------------------------------------------------------------
  // activities, students and course dates
  // ---------------------------------------------------------------------------

  /**
    `add-activity`: a blank name changes nothing; otherwise an activity with no
    students, the first unused palette colour (or the colour at the random index
    `r`) and the course dates as its own dates is appended.
   */
  method AddActivity(st: AppState, nameInput: string, kind: string, newId: string, r: nat)
    requires r < |Palette|
    modifies st
    ensures st.View() == old(st.View())
    ensures Trim(nameInput) == "" ==> st.Data() == old(st.Data())
    ensures Trim(nameInput) != "" ==>
      st.Data() == old(st.Data()).(activities := old(st.activities) + [Activity(newId, Trim(nameInput), kind, [],
                     ChooseColor(Palette, old(st.activities), r), old(st.courseStartDate), old(st.courseEndDate))])
  {
    var name := Trim(nameInput);
    if name != "" {
      var color := ChooseColor(Palette, st.activities, r);
      st.activities := st.activities + [Activity(newId, name, kind, [], color, st.courseStartDate, st.courseEndDate)];
    }
  }

  /** `delete-activity` (once confirmed): every activity with the id goes, the others stay in order. */
  method DeleteActivity(st: AppState, id: string)
    modifies st
    ensures st.View() == old(st.View())
    ensures st.Data() == old(st.Data()).(activities := DropById(old(st.activities), IdOfActivity, id))
  {
    st.activities := DropById(st.activities, IdOfActivity, id);
  }

  /**
    `save-activity`: a known activity takes the dates as entered and the trimmed
    name unless it is blank; the editing marker is cleared in every case.
   */
  method SaveActivity(st: AppState, id: string, nameInput: string, startDate: string, endDate: string)
    modifies st
    ensures st.View() == old(st.View()).(editingActivityId := None)
    ensures var i := ActivityIndex(old(st.activities), id);
      st.Data() == if i.None? then old(st.Data())
        else var a := old(st.activities)[i.value];
             var name := if Trim(nameInput) != "" then Trim(nameInput) else a.name;
             old(st.Data()).(activities := old(st.activities)[i.value := a.(name := name, startDate := startDate, endDate := endDate)])
  {
    var i := ActivityIndex(st.activities, id);
    if i.Some? {
      var a := st.activities[i.value];
      var newName := Trim(nameInput);
      if newName != "" {
        a := a.(name := newName);
      }
      a := a.(startDate := startDate, endDate := endDate);
      st.activities := st.activities[i.value := a];
    }
    st.editingActivityId := None;
  }

  /** `change-activity-color`: a known activity takes the picked colour. */
  method ChangeActivityColor(st: AppState, id: string, color: string)
    modifies st
    ensures st.View() == old(st.View())
    ensures var i := ActivityIndex(old(st.activities), id);
      st.Data() == if i.None? then old(st.Data())
        else old(st.Data()).(activities := old(st.activities)[i.value := old(st.activities)[i.value].(color := color)])
  {
    var i := ActivityIndex(st.activities, id);
    if i.Some? {
      st.activities := st.activities[i.value := st.activities[i.value].(color := color)];
    }
  }

  /** `edit-student-name`: a known student takes the name exactly as typed (it is not trimmed). */
  method EditStudentName(st: AppState, studentId: string, value: string)
    modifies st
    ensures st.View() == old(st.View())
    ensures var j := StudentIndex(old(st.students), studentId);
      st.Data() == if j.None? then old(st.Data())
        else old(st.Data()).(students := old(st.students)[j.value := old(st.students)[j.value].(name := value)])
  {
    var j := StudentIndex(st.students, studentId);
    if j.Some? {
      st.students := st.students[j.value := st.students[j.value].(name := value)];
    }
  }

  /** `edit-student-notes`: a known student takes the notes as typed. */
  method EditStudentNotes(st: AppState, studentId: string, value: string)
    modifies st
    ensures st.View() == old(st.View())
    ensures var j := StudentIndex(old(st.students), studentId);
      st.Data() == if j.None? then old(st.Data())
        else old(st.Data()).(students := old(st.students)[j.value := old(st.students)[j.value].(generalNotes := value)])
  {
    var j := StudentIndex(st.students, studentId);
    if j.Some? {
      st.students := st.students[j.value := st.students[j.value].(generalNotes := value)];
    }
  }

  /** `update-course-date`: `type === 'start'` sets the start date, any other type the end date. */
  method UpdateCourseDate(st: AppState, dateType: string, value: string)
    modifies st
    ensures st.View() == old(st.View())
    ensures st.Data() == if dateType == "start" then old(st.Data()).(courseStartDate := value)
                         else old(st.Data()).(courseEndDate := value)
  {
    if dateType == "start" {
      st.courseStartDate := value;
    } else {
      st.courseEndDate := value;
    }
  }
}
