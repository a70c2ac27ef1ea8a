/**
  The shared application state object and the activity colour palette. The
  handlers, the persistence layer and the views all read and update one
  `AppState` in place.
 */
module Store {
  import opened Text
  import opened Domain

  /** The session a user opened: the activity with the weekday, slot and date of the cell. */
  datatype Selection = Selection(activityId: string, day: string, time: string, date: string)

  /** The navigation and status fields of the state, apart from the eight data fields. */
  datatype ViewState = ViewState(
    activeView: string,
    selectedActivity: Option<Selection>,
    selectedStudentId: Option<string>,
    editingTimeSlotId: Option<string>,
    editingActivityId: Option<string>,
    isLoading: bool,
    isOnline: bool)

  class AppState {
    var activeView: string
    var activities: seq<Activity>
    var students: seq<Student>
    var timeSlots: seq<TimeSlot>
    var schedule: map<string, string>
    var scheduleOverrides: seq<Override>
    var classEntries: map<string, ClassEntry>
    var courseStartDate: string
    var courseEndDate: string
    var selectedActivity: Option<Selection>
    var selectedStudentId: Option<string>
    var editingTimeSlotId: Option<string>
    var editingActivityId: Option<string>
    var isLoading: bool
    var isOnline: bool

    /** The initial state: the schedule view, no data, nothing selected, online and not loading. */
    constructor ()
      ensures Data() == EmptyData()
      ensures View() == ViewState("schedule", None, None, None, None, false, true)
    {
      activeView := "schedule";
      activities := [];
      students := [];
      timeSlots := [];
      schedule := map[];
      scheduleOverrides := [];
      classEntries := map[];
      courseStartDate := "";
      courseEndDate := "";
      selectedActivity := None;
      selectedStudentId := None;
      editingTimeSlotId := None;
      editingActivityId := None;
      isLoading := false;
      isOnline := true;
    }

    /** Assigns the eight data fields. */
    method SetData(d: AppData)
      modifies this
      ensures Data() == d
      ensures View() == old(View())
    {
      SetRecords(d.activities, d.students, d.timeSlots, d.overrides);
      SetTables(d.schedule, d.classEntries, d.courseStartDate, d.courseEndDate);
    }

    /** Assigns the four lists. */
    method SetRecords(a: seq<Activity>, s: seq<Student>, t: seq<TimeSlot>, o: seq<Override>)
      modifies this
      ensures Data() == old(Data()).(activities := a, students := s, timeSlots := t, overrides := o)
      ensures View() == old(View())
    {
      activities := a;
      students := s;
      timeSlots := t;
      scheduleOverrides := o;
    }

    /** Assigns the two objects and the two course dates. */
    method SetTables(sc: map<string, string>, e: map<string, ClassEntry>, start: string, end: string)
      modifies this
      ensures Data() == old(Data()).(schedule := sc, classEntries := e, courseStartDate := start, courseEndDate := end)
      ensures View() == old(View())
    {
      schedule := sc;
      classEntries := e;
      courseStartDate := start;
      courseEndDate := end;
    }

    /** The eight data fields. */
    function Data(): AppData
      reads this
    {
      AppData(activities, students, timeSlots, schedule, scheduleOverrides, classEntries,
              courseStartDate, courseEndDate)
    }

    /** Everything else. */
    function View(): ViewState
      reads this
    {
      ViewState(activeView, selectedActivity, selectedStudentId, editingTimeSlotId,
                editingActivityId, isLoading, isOnline)
    }
  }

  // ---------------------------------------------------------------------------
  // palette
  // ---------------------------------------------------------------------------

  const Palette: seq<string> :=
    ["#FFADAD", "#FFD6A5", "#FDFFB6", "#CAFFBF", "#9BF6FF", "#A0C4FF", "#BDB2FF", "#FFC6FF"]

  /** No activity has colour `c`. */
  predicate IsUnused(activities: seq<Activity>, c: string)
  {
    forall i :: 0 <= i < |activities| ==> activities[i].color != c
  }

  /**
    The colour for a new activity (called with `Palette`): the first colour of
    `palette` no activity uses, or, when all are taken, the colour at the random
    index `r`.
   */
  function ChooseColor(palette: seq<string>, activities: seq<Activity>, r: nat): (c: string)
    requires r < |palette|
  {
    var available := Filter(palette, (c: string) => IsUnused(activities, c));
    if |available| > 0 then available[0] else palette[r]
  }

  /** The chosen colour is the first unused one when there is one, and the random pick otherwise. */
  lemma ChooseColorSpec(palette: seq<string>, activities: seq<Activity>, r: nat)
    requires r < |palette|
    ensures var c := ChooseColor(palette, activities, r);
      && c in palette
      && ((exists i :: 0 <= i < |palette| && IsUnused(activities, palette[i])) ==>
            exists k :: 0 <= k < |palette| && c == palette[k] && IsUnused(activities, c) &&
              forall j :: 0 <= j < k ==> !IsUnused(activities, palette[j]))
      && ((forall i :: 0 <= i < |palette| ==> !IsUnused(activities, palette[i])) ==> c == palette[r])
  {
    FilterHead(palette, (c: string) => IsUnused(activities, c));
  }
}
