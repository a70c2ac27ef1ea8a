/**
  The `generate-schedule-slots` handler: it reads a start and an end time, a
  class length, and an optional break window, then lays out consecutive class
  slots from the start. The break is inserted when the clock reaches it, and
  generation stops at the first class that would run past the end.
  `timeToMinutes` and `minutesToTime` convert between `HH:MM` and minutes.
 */
module Generator {
  import opened Text
  import opened Domain
  import opened Store
  import opened Actions

  // ---------------------------------------------------------------------------
  // times of day
  // ---------------------------------------------------------------------------

  /**
    `timeToMinutes`: `[h, m] = s.split(':').map(Number)` and `h * 60 + m`;
    `None` stands for `NaN` (a piece that is not a numeral, or no minutes piece).
   */
  function TimeToMinutes(s: string): (r: Option<nat>)
    ensures r.Some? ==> |Split(s, ':')| >= 2
  {
    var parts := Split(s, ':');
    if |parts| < 2 then None
    else match (Number(parts[0]), Number(parts[1]))
      case (Some(h), Some(m)) => Some(h * 60 + m)
      case _ => None
  }

  /** `n.toString().padStart(2, '0')`. */
  function Pad2(n: nat): string
  {
    PadStart(Decimal(n), 2, '0')
  }

  /** The template `${h}:${m}`. */
  function JoinTime(h: string, m: string): string
  {
    h + [':'] + m
  }

  /** `minutesToTime`: hours and minutes, each zero-padded to at least two digits, joined by `:`. */
  function MinutesToTime(total: nat): string
  {
    JoinTime(Pad2(total / 60), Pad2(total % 60))
  }

  /** A numeral holds no `:`. */
  lemma DigitsHaveNoColon(s: string)
    requires AllDigits(s)
    ensures ':' !in s
  {
  }

  /** Reading `h:m` from two numerals. */
  lemma TimeToMinutesOf(h: string, m: string)
    requires AllDigits(h) && AllDigits(m)
    ensures TimeToMinutes(JoinTime(h, m)) == Some(DigitsValue(h) * 60 + DigitsValue(m))
  {
    DigitsHaveNoColon(h);
    DigitsHaveNoColon(m);
    SplitCons(h, ':', m);
  }

  /** Reading back a rendered time gives the same number of minutes, for every `m >= 0` (hours may exceed 99). */
  lemma TimeRoundTrip(m: nat)
    ensures TimeToMinutes(MinutesToTime(m)) == Some(m)
  {
    var h, mm := Pad2(m / 60), Pad2(m % 60);
    Pad2Value(m / 60);
    Pad2Value(m % 60);
    TimeToMinutesOf(h, mm);
  }

  /** A padded field reads back as the number it renders. */
  lemma Pad2Value(n: nat)
    ensures AllDigits(Pad2(n)) && DigitsValue(Pad2(n)) == n
  {
    PaddedDecimalValue(n);
  }

  /** The zero padding: both fields have at least two digits, and exactly two below 100 hours. */
  lemma MinutesToTimeShape(m: nat)
    ensures var r := MinutesToTime(m);
      && |r| >= 5 && r[|r| - 3] == ':'
      && AllDigits(r[..|r| - 3]) && |r[..|r| - 3]| >= 2
      && AllDigits(r[|r| - 2..])
      && (m < 6000 ==> |r| == 5)
  {
    Pad2Shape(m / 60);
    Pad2Shape(m % 60);
    JoinTimeShape(Pad2(m / 60), Pad2(m % 60));
  }

  /** The shape of `h:m` for an hours numeral of two digits or more and a two-digit minutes numeral. */
  lemma JoinTimeShape(h: string, mm: string)
    requires AllDigits(h) && |h| >= 2 && AllDigits(mm) && |mm| == 2
    ensures var r := JoinTime(h, mm);
      && |r| == |h| + 3 && r[|r| - 3] == ':'
      && r[..|r| - 3] == h && r[|r| - 2..] == mm
  {
    var r := JoinTime(h, mm);
    assert r[..|r| - 3] == h;
    assert r[|r| - 2..] == mm;
  }

  /** A padded field has at least two digits, and exactly two below 100. */
  lemma Pad2Shape(n: nat)
    ensures |Pad2(n)| >= 2 && AllDigits(Pad2(n))
    ensures n < 100 ==> |Pad2(n)| == 2
  {
    PaddedDecimalValue(n);
    if n < 100 {
      DecimalLength(n);
    }
  }

  /** A number below 100 has at most two decimal digits. */
  lemma DecimalLength(n: nat)
    requires n < 100
    ensures |Decimal(n)| <= 2
  {
  }

  // ---------------------------------------------------------------------------
  // the plan
  // ---------------------------------------------------------------------------

  /** The break window in minutes, when there is one. */
  datatype Break = NoBreak | Break(start: nat, length: nat)

  /**
    The break the handler uses: a window only when `breakDuration > 0` (a
    `NaN` duration is not) and a break start was given (`-1` stands for an
    empty field) and read as a time (a `NaN` start never matches).
   */
  function BreakOf(breakStart: Option<int>, breakDuration: Option<int>): (b: Break)
    ensures b.Break? <==> breakDuration.Some? && breakDuration.value > 0 && breakStart.Some? && breakStart.value >= 0
    ensures b.Break? ==> b.start == breakStart.value && b.length == breakDuration.value && b.length > 0
  {
    if breakDuration.Some? && breakDuration.value > 0 && breakStart.Some? && breakStart.value != -1 && breakStart.value >= 0 then
      Break(breakStart.value, breakDuration.value)
    else NoBreak
  }

  /** The clock is inside the break window. */
  predicate InBreak(brk: Break, t: int)
  {
    brk.Break? && brk.start <= t < brk.start + brk.length
  }

  /** One generated slot as minutes; `isBreak` marks the break slot. */
  datatype Span = Span(from: int, to: int, isBreak: bool)

  /**
    The slots the loop emits from the clock `cur` on, for a positive class
    length: at the break window, the break and a jump to its end; otherwise a
    class of `dur` minutes unless it would end after `end`.
   */
  function Plan(cur: int, end: int, dur: int, brk: Break): seq<Span>
    requires dur > 0 && (brk.Break? ==> brk.length > 0)
    decreases end - cur
  {
    if cur >= end then []
    else if InBreak(brk, cur) then
      [Span(brk.start, brk.start + brk.length, true)] + Plan(brk.start + brk.length, end, dur, brk)
    else if cur + dur > end then []
    else [Span(cur, cur + dur, false)] + Plan(cur + dur, end, dur, brk)
  }

  /** The clock after a list of spans emitted from `cur`. */
  function Clock(spans: seq<Span>, cur: int): int
  {
    if spans == [] then cur else spans[|spans| - 1].to
  }

  /** The clock after the first step from `cur`: the break's end inside the window, otherwise the class's end. */
  function NextClock(cur: int, dur: int, brk: Break): int
  {
    if InBreak(brk, cur) then brk.start + brk.length else cur + dur
  }

  /** The span emitted at `cur` when the loop does not stop there. */
  function StepSpan(cur: int, dur: int, brk: Break): Span
  {
    if InBreak(brk, cur) then Span(brk.start, brk.start + brk.length, true) else Span(cur, cur + dur, false)
  }

  /** The loop stops at `cur`: the end is reached, or the next class would run past it outside the break. */
  predicate Stops(cur: int, end: int, dur: int, brk: Break)
  {
    cur >= end || (!InBreak(brk, cur) && cur + dur > end)
  }

  /** One unfolding of the plan. */
  lemma PlanStep(cur: int, end: int, dur: int, brk: Break)
    requires dur > 0 && (brk.Break? ==> brk.length > 0)
    ensures Stops(cur, end, dur, brk) ==> Plan(cur, end, dur, brk) == []
    ensures !Stops(cur, end, dur, brk) ==>
      NextClock(cur, dur, brk) > cur &&
      Plan(cur, end, dur, brk) == [StepSpan(cur, dur, brk)] + Plan(NextClock(cur, dur, brk), end, dur, brk)
  {
  }

  /** A span begins at the clock `t`: a class exactly there, the break at its window's start, which the clock is inside. */
  predicate StartsAt(s: Span, t: int)
  {
    if s.isBreak then s.from <= t < s.to else s.from == t
  }

  /**
    The slots follow each other from `cur`: each begins at the clock the
    previous one left, ends after it starts and after `cur`, and no class
    starts before `cur`.
   */
  ghost predicate Chained(p: seq<Span>, cur: int)
  {
    && (p != [] ==> StartsAt(p[0], cur))
    && (forall k :: 0 <= k < |p| - 1 ==> StartsAt(p[k + 1], p[k].to))
    && (forall k :: 0 <= k < |p| ==> p[k].from < p[k].to && cur < p[k].to)
    && (forall k :: 0 <= k < |p| && !p[k].isBreak ==> cur <= p[k].from)
  }

  /** Each class lasts exactly `dur` minutes and ends no later than `end`; every break is the break window. */
  ghost predicate SpansFit(p: seq<Span>, end: int, dur: int, brk: Break)
  {
    && (forall k :: 0 <= k < |p| && !p[k].isBreak ==> p[k].to - p[k].from == dur && p[k].to <= end)
    && (forall k :: 0 <= k < |p| && p[k].isBreak ==>
          brk.Break? && p[k].from == brk.start && p[k].to == brk.start + brk.length)
  }

  /** The plan is chained from `cur`. */
  lemma {:induction false} PlanChained(cur: int, end: int, dur: int, brk: Break)
    requires dur > 0 && (brk.Break? ==> brk.length > 0)
    ensures Chained(Plan(cur, end, dur, brk), cur)
    decreases end - cur
  {
    PlanStep(cur, end, dur, brk);
    if !Stops(cur, end, dur, brk) {
      var next := NextClock(cur, dur, brk);
      var p := Plan(cur, end, dur, brk);
      var rest := Plan(next, end, dur, brk);
      PlanChained(next, end, dur, brk);
      assert forall k :: 1 <= k < |p| ==> p[k] == rest[k - 1];
      assert p[0].to == next;
    }
  }

  /** Every slot of the plan fits: classes of `dur` minutes inside the day, breaks equal to the window. */
  lemma {:induction false} PlanFits(cur: int, end: int, dur: int, brk: Break)
    requires dur > 0 && (brk.Break? ==> brk.length > 0)
    ensures SpansFit(Plan(cur, end, dur, brk), end, dur, brk)
    decreases end - cur
  {
    PlanStep(cur, end, dur, brk);
    if !Stops(cur, end, dur, brk) {
      var next := NextClock(cur, dur, brk);
      var p := Plan(cur, end, dur, brk);
      var rest := Plan(next, end, dur, brk);
      PlanFits(next, end, dur, brk);
      assert forall k :: 1 <= k < |p| ==> p[k] == rest[k - 1];
    }
  }

  /** Generation stops only where the loop stops: at the end, or before a class that would run past it. */
  lemma {:induction false} PlanMaximal(cur: int, end: int, dur: int, brk: Break)
    requires dur > 0 && (brk.Break? ==> brk.length > 0)
    ensures Stops(Clock(Plan(cur, end, dur, brk), cur), end, dur, brk)
    decreases end - cur
  {
    PlanStep(cur, end, dur, brk);
    if !Stops(cur, end, dur, brk) {
      var next := NextClock(cur, dur, brk);
      PlanMaximal(next, end, dur, brk);
      var p := Plan(cur, end, dur, brk);
      var rest := Plan(next, end, dur, brk);
      assert Clock(p, cur) == Clock(rest, next) by {
        if rest != [] {
          assert p[|p| - 1] == rest[|rest| - 1];
        }
      }
    }
  }

  /** At most one break slot is emitted: once the clock leaves the window it never comes back. */
  lemma {:induction false} PlanOneBreak(cur: int, end: int, dur: int, brk: Break)
    requires dur > 0 && (brk.Break? ==> brk.length > 0)
    ensures var p := Plan(cur, end, dur, brk);
      forall i, j :: 0 <= i < j < |p| ==> !(p[i].isBreak && p[j].isBreak)
    decreases end - cur
  {
    PlanStep(cur, end, dur, brk);
    if !Stops(cur, end, dur, brk) {
      var next := NextClock(cur, dur, brk);
      var p := Plan(cur, end, dur, brk);
      var rest := Plan(next, end, dur, brk);
      PlanOneBreak(next, end, dur, brk);
      PlanChained(next, end, dur, brk);
      PlanFits(next, end, dur, brk);
      forall i, j | 0 <= i < j < |p|
        ensures !(p[i].isBreak && p[j].isBreak)
      {
        assert p[j] == rest[j - 1];
        if i > 0 {
          assert p[i] == rest[i - 1];
        } else if p[0].isBreak {
          assert InBreak(brk, cur);
          assert rest[j - 1].to > next;
        }
      }
    }
  }

  /** The label of a span: `${minutesToTime(from)}-${minutesToTime(to)}` (generated spans are never negative). */
  function SpanLabel(s: Span): string
  {
    if s.from >= 0 && s.to >= 0 then MinutesToTime(s.from) + ['-'] + MinutesToTime(s.to) else ""
  }

  /** Every span starts and ends at a non-negative time. */
  ghost predicate NonNegative(spans: seq<Span>)
  {
    forall k :: 0 <= k < |spans| ==> spans[k].from >= 0 && spans[k].to >= 0
  }

  /** The generated slots: the `k`-th gets id `uuid(k)`, the label of the `k`-th span, and no `order`. */
  function SlotsOf(spans: seq<Span>, labelOf: Span -> string, uuid: nat -> string): (r: seq<TimeSlot>)
    ensures |r| == |spans|
  {
    if spans == [] then []
    else SlotsOf(spans[..|spans| - 1], labelOf, uuid) + [TimeSlot(uuid(|spans| - 1), labelOf(spans[|spans| - 1]), None)]
  }

  /** Slot by slot: id from the oracle, the span's label, no order. */
  lemma {:induction false} SlotsOfIndex(spans: seq<Span>, labelOf: Span -> string, uuid: nat -> string)
    ensures forall k :: 0 <= k < |spans| ==> SlotsOf(spans, labelOf, uuid)[k] == TimeSlot(uuid(k), labelOf(spans[k]), None)
  {
    if spans != [] {
      var init := spans[..|spans| - 1];
      SlotsOfIndex(init, labelOf, uuid);
      assert forall k :: 0 <= k < |init| ==> init[k] == spans[k];
    }
  }

  // ---------------------------------------------------------------------------
  // the loop as written
  // ---------------------------------------------------------------------------

  /**
    The loop exactly as written, for any class length, run for at most `fuel`
    iterations: `None` when it has not stopped by then.
   */
  function WrittenPlan(cur: int, end: int, dur: int, brk: Break, fuel: nat): Option<seq<Span>>
    requires brk.Break? ==> brk.length > 0
    decreases fuel
  {
    if cur >= end then Some([])
    else if fuel == 0 then None
    else if InBreak(brk, cur) then
      match WrittenPlan(brk.start + brk.length, end, dur, brk, fuel - 1)
      case Some(rest) => Some([Span(brk.start, brk.start + brk.length, true)] + rest)
      case None => None
    else if cur + dur > end then Some([])
    else
      match WrittenPlan(cur + dur, end, dur, brk, fuel - 1)
      case Some(rest) => Some([Span(cur, cur + dur, false)] + rest)
      case None => None
  }

  /**
    With a class length of zero or less the loop never stops once it has to
    place a class before the end (unless the break jumps past the end): no
    number of iterations is enough. A length of `0` is accepted by the number
    field and passes the `isNaN` guard.
   */
  lemma {:induction false} WrittenPlanDiverges(cur: int, end: int, dur: int, brk: Break, fuel: nat)
    requires brk.Break? ==> brk.length > 0 && brk.start + brk.length < end
    requires dur <= 0 && cur < end
    ensures WrittenPlan(cur, end, dur, brk, fuel) == None
    decreases fuel
  {
    if fuel > 0 {
      if InBreak(brk, cur) {
        WrittenPlanDiverges(brk.start + brk.length, end, dur, brk, fuel - 1);
      } else {
        WrittenPlanDiverges(cur + dur, end, dur, brk, fuel - 1);
      }
    }
  }

  /** With a positive class length, `end - cur` iterations are enough and the loop yields `Plan`. */
  lemma {:induction false} WrittenPlanStops(cur: int, end: int, dur: int, brk: Break, fuel: nat)
    requires dur > 0 && (brk.Break? ==> brk.length > 0)
    requires fuel >= end - cur
    ensures WrittenPlan(cur, end, dur, brk, fuel) == Some(Plan(cur, end, dur, brk))
    decreases end - cur
  {
    if cur < end {
      if InBreak(brk, cur) {
        WrittenPlanStops(brk.start + brk.length, end, dur, brk, fuel - 1);
      } else if cur + dur <= end {
        WrittenPlanStops(cur + dur, end, dur, brk, fuel - 1);
      }
    }
  }

  // ---------------------------------------------------------------------------
  // the handler
  // ---------------------------------------------------------------------------

  /** The plan for the parsed inputs; a `NaN` start or end makes `currentTime < endMinutes` false at once. */
  function Generated(start: Option<nat>, end: Option<nat>, dur: int, brk: Break): seq<Span>
    requires dur > 0 && (brk.Break? ==> brk.length > 0)
  {
    if start.Some? && end.Some? then Plan(start.value, end.value, dur, brk) else []
  }

  /** The break start: `-1` for an empty field, otherwise the time read from it. */
  function BreakStartOf(breakStartText: string): Option<int>
  {
    if breakStartText == "" then Some(-1)
    else match TimeToMinutes(breakStartText)
      case Some(m) => Some(m)
      case None => None
  }

  /** Every span of a plan from a non-negative clock with a non-negative break is at a non-negative time. */
  lemma PlanNonNegative(cur: int, end: int, dur: int, brk: Break)
    requires dur > 0 && (brk.Break? ==> brk.length > 0) && cur >= 0
    ensures NonNegative(Plan(cur, end, dur, brk))
  {
    PlanChained(cur, end, dur, brk);
    PlanFits(cur, end, dur, brk);
  }

  /**
    The `while` loop of the handler: from `startMinutes` it emits the break
    slot when the clock is inside the break window and jumps to its end,
    otherwise a class slot of `dur` minutes, and stops at the end time or
    before a class that would run past it.
   */
  method LayOut(startMinutes: nat, endMinutes: nat, dur: int, brk: Break, uuid: nat -> string)
    returns (newTimeSlots: seq<TimeSlot>)
    requires dur > 0 && (brk.Break? ==> brk.length > 0)
    ensures NonNegative(Plan(startMinutes, endMinutes, dur, brk))
    ensures newTimeSlots == SlotsOf(Plan(startMinutes, endMinutes, dur, brk), SpanLabel, uuid)
  {
    ghost var spans: seq<Span> := [];
    newTimeSlots := [];
    var currentTime: int := startMinutes;
    while currentTime < endMinutes
      invariant currentTime >= 0
      invariant spans + Plan(currentTime, endMinutes, dur, brk) == Plan(startMinutes, endMinutes, dur, brk)
      invariant NonNegative(spans) && newTimeSlots == SlotsOf(spans, SpanLabel, uuid)
      decreases endMinutes - currentTime
    {
      if InBreak(brk, currentTime) {
        var breakEndTime := brk.start + brk.length;
        var s := Span(brk.start, breakEndTime, true);
        GenerateStep(spans, newTimeSlots, currentTime, startMinutes, endMinutes, dur, brk, SpanLabel, uuid);
        newTimeSlots := newTimeSlots + [TimeSlot(uuid(|newTimeSlots|), SpanLabel(s), None)];
        spans := spans + [s];
        currentTime := breakEndTime;
        continue;
      }
      var classEndTime := currentTime + dur;
      if classEndTime > endMinutes {
        break;
      }
      var s := Span(currentTime, classEndTime, false);
      GenerateStep(spans, newTimeSlots, currentTime, startMinutes, endMinutes, dur, brk, SpanLabel, uuid);
      newTimeSlots := newTimeSlots + [TimeSlot(uuid(|newTimeSlots|), SpanLabel(s), None)];
      spans := spans + [s];
      currentTime := classEndTime;
    }
    PlanStep(currentTime, endMinutes, dur, brk);
    assert spans == Plan(startMinutes, endMinutes, dur, brk);
  }

  /**
    `generate-schedule-slots`, with the guard also refusing a class length of
    zero or less: a missing start or end time or a missing or non-positive
    class length changes nothing; otherwise the generated slots replace the
    time slots (none when a time cannot be read). `classDuration` and
    `breakDuration` are the `parseInt` results (`None` for `NaN`); `uuid(k)`
    is the id of the `k`-th slot.
   */
  method GenerateScheduleSlots(st: AppState, startText: string, endText: string,
                               classDuration: Option<int>, breakDuration: Option<int>,
                               breakStartText: string, uuid: nat -> string)
    returns (accepted: bool)
    modifies st
    ensures st.View() == old(st.View())
    ensures accepted <==> startText != "" && endText != "" && classDuration.Some? && classDuration.value > 0
    ensures !accepted ==> st.Data() == old(st.Data())
    ensures accepted ==>
      var spans := Generated(TimeToMinutes(startText), TimeToMinutes(endText), classDuration.value,
                             BreakOf(BreakStartOf(breakStartText), breakDuration));
      NonNegative(spans) && st.Data() == old(st.Data()).(timeSlots := SlotsOf(spans, SpanLabel, uuid))
  {
    if startText == "" || endText == "" || classDuration.None? || classDuration.value <= 0 {
      return false;
    }
    var startMinutes := TimeToMinutes(startText);
    var endMinutes := TimeToMinutes(endText);
    var brk := BreakOf(BreakStartOf(breakStartText), breakDuration);
    var newTimeSlots: seq<TimeSlot> := [];
    if startMinutes.Some? && endMinutes.Some? {
      newTimeSlots := LayOut(startMinutes.value, endMinutes.value, classDuration.value, brk, uuid);
    }
    st.timeSlots := newTimeSlots;
    return true;
  }

  /** Appending a span appends its slot. */
  lemma SlotsOfSnoc(spans: seq<Span>, s: Span, labelOf: Span -> string, uuid: nat -> string)
    ensures SlotsOf(spans + [s], labelOf, uuid) == SlotsOf(spans, labelOf, uuid) + [TimeSlot(uuid(|spans|), labelOf(s), None)]
  {
    assert (spans + [s])[..|spans|] == spans;
  }

  /** One iteration of the generator loop keeps its invariant. */
  lemma GenerateStep(spans: seq<Span>, slots: seq<TimeSlot>, cur: int, start: int, end: int, dur: int, brk: Break,
                     labelOf: Span -> string, uuid: nat -> string)
    requires dur > 0 && (brk.Break? ==> brk.length > 0) && cur >= 0
    requires !Stops(cur, end, dur, brk)
    requires spans + Plan(cur, end, dur, brk) == Plan(start, end, dur, brk)
    requires NonNegative(spans) && slots == SlotsOf(spans, labelOf, uuid)
    ensures NextClock(cur, dur, brk) > cur
    ensures var s := StepSpan(cur, dur, brk);
      && (spans + [s]) + Plan(NextClock(cur, dur, brk), end, dur, brk) == Plan(start, end, dur, brk)
      && NonNegative(spans + [s])
      && slots + [TimeSlot(uuid(|slots|), labelOf(s), None)] == SlotsOf(spans + [s], labelOf, uuid)
  {
    PlanStep(cur, end, dur, brk);
    var s := StepSpan(cur, dur, brk);
    assert (spans + [s]) + Plan(NextClock(cur, dur, brk), end, dur, brk)
        == spans + ([s] + Plan(NextClock(cur, dur, brk), end, dur, brk));
    SlotsOfSnoc(spans, s, labelOf, uuid);
  }

  /**
    Generated slots carry no `order`, so the next `add-timeslot` computes a
    `NaN` order: `Math.max` over the missing orders.
   */
  lemma AddAfterGenerate(spans: seq<Span>, uuid: nat -> string)
    requires NonNegative(spans) && spans != []
    ensures NextOrder(SlotsOf(spans, SpanLabel, uuid)) == None
  {
    SlotsOfIndex(spans, SpanLabel, uuid);
    assert SlotsOf(spans, SpanLabel, uuid)[0].order.None?;
  }
}
