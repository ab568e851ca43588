/** The grids a semester call can hand to the engine: what a registrar's constraints, once
    read, leave of the school week. */
module TimetableConstraints {
  import opened Results
  import opened Timetable

  const WEEK: seq<string> := ["MON", "TUE", "WED", "THU", "FRI"]
  const OPENING: int := 8 * 60
  const CLOSING: int := 18 * 60

  /** What the free-text constraints come to. */
  datatype Parsed = Parsed(excludeDays: set<string>, dayStart: Option<nat>, dayEnd: Option<nat>)

  const UNCONSTRAINED := Parsed({}, None, None)

  function Remaining(days: seq<string>, excluded: set<string>): seq<string> {
    if days == [] then []
    else Remaining(days[..|days| - 1], excluded)
         + if days[|days| - 1] in excluded then [] else [days[|days| - 1]]
  }

  /** Excluding every day excludes none. */
  function ParsedGrid(parsed: Parsed): GridConfig {
    var days := Remaining(WEEK, parsed.excludeDays);
    GridConfig(Some(if days == [] then WEEK else days),
               if parsed.dayStart.Some? then Some(parsed.dayStart.value) else None,
               if parsed.dayEnd.Some? then Some(parsed.dayEnd.value) else None, None)
  }

  function Later(a: int, b: int): int { if a < b then b else a }

  function Earlier(a: int, b: int): int { if a < b then a else b }

  /** The narrower of the two at either end of the day. */
  function MergeConstraintGrid(base: Option<GridConfig>, parsed: Parsed): GridConfig {
    var from, grid := base.GetOr(GridConfig(None, None, None, None)), ParsedGrid(parsed);
    GridConfig(if from.days.Some? then from.days else grid.days,
               Some(Later(from.dayStartMinutes.GetOr(OPENING), grid.dayStartMinutes.GetOr(OPENING))),
               Some(Earlier(from.dayEndMinutes.GetOr(CLOSING), grid.dayEndMinutes.GetOr(CLOSING))),
               from.slotMinutes)
  }

  /** A semester call has no grid of its own. */
  function SemesterGrid(parsed: Parsed): GridConfig { MergeConstraintGrid(None, parsed) }

  /** An hour of a weekday within opening times; it may begin at any minute. */
  predicate SchoolHour(h: Slot) {
    h.day in WEEK && OPENING <= h.start && h.end == h.start + 60 && h.end <= CLOSING
  }

  lemma {:induction false} RemainingExact(days: seq<string>, excluded: set<string>, day: string)
    ensures day in Remaining(days, excluded) <==> day in days && day !in excluded
  {
    if days != [] {
      var front, last := days[..|days| - 1], days[|days| - 1];
      RemainingExact(front, excluded, day);
      assert days == front + [last];
    }
  }

  lemma SemesterDays(parsed: Parsed, day: string)
    ensures day in SemesterGrid(parsed).Days() ==> day in WEEK
    ensures parsed.excludeDays == {} && day in WEEK ==> day in SemesterGrid(parsed).Days()
  {
    RemainingExact(WEEK, parsed.excludeDays, day);
  }

  /** The slots of all grids a semester call can receive are exactly the school hours. */
  lemma SchoolHours(h: Slot)
    ensures (exists parsed :: h in GridOf(SemesterGrid(parsed))) <==> SchoolHour(h)
  {
    if parsed :| h in GridOf(SemesterGrid(parsed)) {
      var grid := SemesterGrid(parsed);
      GridShape(grid.Days(), grid.DayStart(), grid.DayEnd(), grid.SlotLength());
      SemesterDays(parsed, h.day);
    }
    if SchoolHour(h) { HourReachable(h); }
  }

  lemma HourReachable(h: Slot)
    requires SchoolHour(h)
    ensures h in GridOf(SemesterGrid(Parsed({}, Some(h.start), None)))
  {
    var parsed := Parsed({}, Some(h.start), None);
    var grid := SemesterGrid(parsed);
    SemesterDays(parsed, h.day);
    FirstSlotIn(grid.Days(), h.day, grid.DayStart(), grid.DayEnd(), 60);
  }

  // ---- hours of a grid -----------------------------------------------------------------

  /** An hour that a lesson of default length can take on the grid. */
  ghost predicate Usable(grid: GridConfig, h: Slot)
    requires grid.SlotLength() > 0
  {
    exists slot :: slot in GridOf(grid) && slot.end - slot.start >= DEFAULT_DURATION && h == HourOf(slot)
  }

  function HourOf(slot: Slot): Slot { Slot(slot.day, slot.start, slot.start + DEFAULT_DURATION) }

  lemma {:induction false} DayAligned(day: string, t: int, end: int, len: int, slot: Slot) returns (k: nat)
    requires len > 0 && slot in DaySlots(day, t, end, len)
    ensures slot.start == t + k * len
    decreases end - t
  {
    if slot == Slot(day, t, t + len) {
      k := 0;
    } else {
      assert slot in DaySlots(day, t + len, end, len);
      k := DayAligned(day, t + len, end, len, slot);
      k := k + 1;
    }
  }

  lemma {:induction false} GridAligned(days: seq<string>, start: int, end: int, len: int, slot: Slot) returns (k: nat)
    requires len > 0 && slot in Grid(days, start, end, len)
    ensures slot.start == start + k * len && slot.end == slot.start + len
  {
    var front, last := days[..|days| - 1], days[|days| - 1];
    GridShape(days, start, end, len);
    if slot in Grid(front, start, end, len) {
      k := GridAligned(front, start, end, len, slot);
    } else {
      k := DayAligned(last, start, end, len, slot);
    }
  }

  lemma MultiplesApart(k: nat, l: nat, len: int)
    requires k != l && len > 0
    ensures k * len + len <= l * len || l * len + len <= k * len
  {
    if k < l { MoreMultiples(k, l, len); } else { MoreMultiples(l, k, len); }
  }

  lemma {:induction false} MoreMultiples(k: nat, l: nat, len: int)
    requires k < l && len > 0
    ensures k * len + len <= l * len
  {
    if k + 1 < l {
      MoreMultiples(k, l - 1, len);
      assert l * len == (l - 1) * len + len;
    } else {
      assert l == k + 1;
    }
  }

  /** Two hours of one grid that overlap are the same hour. */
  lemma SameHour(grid: GridConfig, h: Slot, g: Slot)
    requires grid.SlotLength() > 0 && Usable(grid, h) && Usable(grid, g) && Overlap(h, g)
    ensures h == g
  {
    var x :| x in GridOf(grid) && x.end - x.start >= DEFAULT_DURATION && h == HourOf(x);
    var y :| y in GridOf(grid) && y.end - y.start >= DEFAULT_DURATION && g == HourOf(y);
    var k := GridAligned(grid.Days(), grid.DayStart(), grid.DayEnd(), grid.SlotLength(), x);
    var l := GridAligned(grid.Days(), grid.DayStart(), grid.DayEnd(), grid.SlotLength(), y);
    if k != l { MultiplesApart(k, l, grid.SlotLength()); }
  }

  /** On a semester's grid every slot is an hour. */
  lemma SemesterUsable(parsed: Parsed, h: Slot)
    ensures Usable(SemesterGrid(parsed), h) <==> h in GridOf(SemesterGrid(parsed))
  {
    SlotsAreHours(SemesterGrid(parsed));
    HoursUsable(SemesterGrid(parsed), h);
  }

  lemma SlotsAreHours(grid: GridConfig)
    requires grid.SlotLength() == DEFAULT_DURATION
    ensures forall slot :: slot in GridOf(grid) ==> slot.end == slot.start + DEFAULT_DURATION
  {
    GridShape(grid.Days(), grid.DayStart(), grid.DayEnd(), grid.SlotLength());
  }

  lemma HoursUsable(grid: GridConfig, h: Slot)
    requires grid.SlotLength() > 0 && forall slot :: slot in GridOf(grid) ==> slot.end == slot.start + DEFAULT_DURATION
    ensures Usable(grid, h) <==> h in GridOf(grid)
  {
    if h in GridOf(grid) { assert HourOf(h) == h; }
  }

  // ---- whole steps into the day --------------------------------------------------------

  ghost predicate After(start: int, begin: int, steps: nat, length: int) { start == begin + steps * length }

  /** A whole number of steps into a listed day, with one more step left of it. */
  ghost predicate StepInto(days: seq<string>, day: string, start: int, begin: int, end: int, length: int) {
    day in days && (exists steps :: After(start, begin, steps, length)) && start + length <= end
  }

  lemma {:induction false} DaySlotAt(day: string, t: int, end: int, len: int, steps: nat)
    requires len > 0 && t + steps * len + len <= end
    ensures Slot(day, t + steps * len, t + steps * len + len) in DaySlots(day, t, end, len)
    decreases steps
  {
    assert steps * len >= 0;
    if steps > 0 {
      assert steps * len == (steps - 1) * len + len;
      DaySlotAt(day, t + len, end, len, steps - 1);
    }
  }

  lemma {:induction false} GridSlotAt(days: seq<string>, day: string, start: int, end: int, len: int, steps: nat)
    requires len > 0 && day in days && start + steps * len + len <= end
    ensures Slot(day, start + steps * len, start + steps * len + len) in Grid(days, start, end, len)
  {
    var front, last := days[..|days| - 1], days[|days| - 1];
    assert days == front + [last];
    if day == last { DaySlotAt(day, start, end, len, steps); } else { GridSlotAt(front, day, start, end, len, steps); }
  }

  lemma StepsExact(days: seq<string>, day: string, start: int, begin: int, end: int, len: int)
    requires len > 0
    ensures Slot(day, start, start + len) in Grid(days, begin, end, len) <==>
            StepInto(days, day, start, begin, end, len)
  {
    if Slot(day, start, start + len) in Grid(days, begin, end, len) {
      GridShape(days, begin, end, len);
      var steps := GridAligned(days, begin, end, len, Slot(day, start, start + len));
      assert After(start, begin, steps, len);
    }
    if day in days && start + len <= end {
      if steps :| After(start, begin, steps, len) { GridSlotAt(days, day, begin, end, len, steps); }
    }
  }

  /** The days of the base grid if it names any, else the weekdays not excluded, all if all are. */
  ghost predicate OnDay(base: Option<GridConfig>, parsed: Parsed, day: string) {
    if base.Some? && base.value.days.Some? then day in base.value.days.value
    else day in WEEK && ((exists d :: d in WEEK && d !in parsed.excludeDays) ==> day !in parsed.excludeDays)
  }

  /** What the base grid says of the day, as far as it says anything. */
  function Given(base: Option<GridConfig>): GridConfig {
    if base.Some? then base.value else GridConfig(None, None, None, None)
  }

  /** The slots of a merged grid lie within the hours of both, 8 to 18 where one says nothing, and
      follow one another from the later of the two beginnings. */
  lemma MergedSlotsExact(base: Option<GridConfig>, parsed: Parsed, day: string, start: int, begin: int)
    requires Given(base).slotMinutes.GetOr(60) > 0
    requires var a, b := Given(base).dayStartMinutes.GetOr(8 * 60), parsed.dayStart.GetOr(8 * 60);
             begin == if a < b then b else a
    ensures var from, len := Given(base), Given(base).slotMinutes.GetOr(60);
            MergeConstraintGrid(base, parsed).SlotLength() == len
            && (Slot(day, start, start + len) in GridOf(MergeConstraintGrid(base, parsed)) <==>
                  && OnDay(base, parsed, day) && (exists steps :: After(start, begin, steps, len))
                  && start + len <= from.dayEndMinutes.GetOr(18 * 60) && start + len <= parsed.dayEnd.GetOr(18 * 60))
  {
    var from, len, grid := Given(base), Given(base).slotMinutes.GetOr(60), MergeConstraintGrid(base, parsed);
    assert grid.DayStart() == begin;
    assert grid.DayEnd() == Earlier(from.dayEndMinutes.GetOr(18 * 60), parsed.dayEnd.GetOr(18 * 60));
    StepsExact(grid.Days(), day, start, begin, grid.DayEnd(), len);
    DaysExact(base, parsed, day);
  }

  lemma DaysExact(base: Option<GridConfig>, parsed: Parsed, day: string)
    ensures day in MergeConstraintGrid(base, parsed).Days() <==> OnDay(base, parsed, day)
  {
    var left := Remaining(WEEK, parsed.excludeDays);
    RemainingExact(WEEK, parsed.excludeDays, day);
    if left != [] { RemainingExact(WEEK, parsed.excludeDays, left[0]); }
    if d :| d in WEEK && d !in parsed.excludeDays { RemainingExact(WEEK, parsed.excludeDays, d); }
  }
}
