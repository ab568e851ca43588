/** What the options are, said of the input alone: days, minutes, rooms, teachers and groups.
    No check of the engine is named in what it means for a timetable to be legal. */
module TimetableLegal {
  import opened Results
  import opened Timetable
  import opened TimetableSearch
  import opened TimetableTheory
  import opened TimetableEngine
  import opened TimetableCount
  import opened TimetableCheck
  import opened TimetableConstraints
  import opened TimeLabels

  // ---- where a section may go ----------------------------------------------------------------

  /** The last row of the room says that it is large enough. */
  ghost predicate Holds(rooms: seq<Room>, roomId: string, people: int) {
    exists k :: 0 <= k < |rooms| && LastRow(rooms, roomId, k) && rooms[k].capacity >= people
  }

  ghost predicate LastRow(rooms: seq<Room>, roomId: string, k: nat)
    requires k < |rooms|
  {
    rooms[k].id == roomId && forall l :: k < l < |rooms| ==> rooms[l].id != roomId
  }

  ghost predicate OnGrid(grid: GridConfig, day: string, start: int) {
    StepInto(grid.days.GetOr(["MON", "TUE", "WED", "THU", "FRI"]), day, start,
             grid.dayStartMinutes.GetOr(8 * 60), grid.dayEndMinutes.GetOr(18 * 60), grid.slotMinutes.GetOr(60))
  }

  /** No windows are stated for the teacher, or one of them shares a minute with the lesson. */
  ghost predicate Around(teacher: Option<string>, slot: Slot, availability: map<string, seq<Option<Slot>>>) {
    teacher.Some? && teacher.value != "" && teacher.value in availability && availability[teacher.value] != [] ==>
      exists i :: 0 <= i < |availability[teacher.value]| && availability[teacher.value][i].Some?
                  && availability[teacher.value][i].value.day == slot.day && !InTurn(slot, availability[teacher.value][i].value)
  }

  /** A lesson of the section by itself. */
  ghost predicate MayHave(input: Input, s: Section, c: Placed) {
    var minutes := s.durationMinutes.GetOr(60);
    && c == Placed(s.id, s.courseCode, c.roomId, s.instructor, Slot(c.slot.day, c.slot.start, c.slot.start + minutes), s.enrollments)
    && Holds(input.rooms, c.roomId, s.enrollments)
    && OnGrid(input.grid, c.slot.day, c.slot.start) && minutes <= input.grid.slotMinutes.GetOr(60)
    && Around(s.instructor, c.slot, input.availability)
  }

  lemma {:induction false} RoomsOfExact(rooms: seq<Room>, roomId: string)
    ensures roomId in RoomsOf(rooms).order <==> exists k :: 0 <= k < |rooms| && LastRow(rooms, roomId, k)
    ensures forall k :: 0 <= k < |rooms| && LastRow(rooms, roomId, k) ==>
              roomId in RoomsOf(rooms).capacity && RoomsOf(rooms).capacity[roomId] == rooms[k].capacity
  {
    if rooms != [] {
      var front, last := rooms[..|rooms| - 1], rooms[|rooms| - 1];
      RoomsOfExact(front, roomId);
      RoomsOfValid(front);
      if last.id == roomId {
        assert LastRow(rooms, roomId, |rooms| - 1);
      } else {
        forall k | 0 <= k < |front| ensures LastRow(rooms, roomId, k) <==> LastRow(front, roomId, k) {
          SameLastRow(rooms, roomId, k);
        }
      }
    }
  }

  lemma SameLastRow(rooms: seq<Room>, roomId: string, k: nat)
    requires k < |rooms| - 1 && rooms[|rooms| - 1].id != roomId
    ensures LastRow(rooms, roomId, k) <==> LastRow(rooms[..|rooms| - 1], roomId, k)
  {
    var front := rooms[..|rooms| - 1];
    assert forall l :: 0 <= l < |front| ==> rooms[l] == front[l];
  }

  lemma HoldsExact(rooms: seq<Room>, roomId: string, people: nat)
    ensures roomId in RoomsOf(rooms).order && RoomsOf(rooms).CapacityOr(roomId, -1) >= people <==> Holds(rooms, roomId, people)
  {
    RoomsOfExact(rooms, roomId);
    RoomsOfValid(rooms);
  }

  /** The slots of the grid are exactly the whole steps. */
  lemma SlotsExact(grid: GridConfig, day: string, start: int)
    requires grid.SlotLength() > 0
    ensures Slot(day, start, start + grid.SlotLength()) in GridOf(grid) <==> OnGrid(grid, day, start)
  {
    StepsExact(grid.Days(), day, start, grid.DayStart(), grid.DayEnd(), grid.SlotLength());
  }

  lemma AroundExact(teacher: Option<string>, slot: Slot, availability: map<string, seq<Option<Slot>>>)
    ensures FacultyAvailable(teacher, slot, availability) <==> Around(teacher, slot, availability)
  {
  }

  lemma CandidateLegal(input: Input, s: Section, c: Placed, slot: Slot)
    requires input.grid.SlotLength() > 0 && slot == Slot(c.slot.day, c.slot.start, c.slot.start + input.grid.SlotLength())
    requires slot in GridOf(input.grid) <==> OnGrid(input.grid, c.slot.day, c.slot.start)
    ensures IsChoice(input.Problem(), s, c.roomId, slot) && c == Candidate(s, c.roomId, slot) <==> MayHave(input, s, c)
  {
    HoldsExact(input.rooms, c.roomId, s.enrollments);
    AroundExact(s.instructor, c.slot, input.availability);
  }

  /** A slot of known length is known by its start. */
  lemma ChoiceAt(p: Problem, s: Section, c: Placed, slot: Slot, len: int)
    requires forall x :: x in p.slots ==> x.end == x.start + len
    requires slot == Slot(c.slot.day, c.slot.start, c.slot.start + len)
    ensures c in Choices(p, s) <==> IsChoice(p, s, c.roomId, slot) && c == Candidate(s, c.roomId, slot)
  {
    ChoicesExact(p, s, c);
    if c in Choices(p, s) {
      var other :| IsChoice(p, s, c.roomId, other) && c == Candidate(s, c.roomId, other);
      assert other == slot;
    }
  }

  lemma SlotLong(grid: GridConfig)
    requires grid.SlotLength() > 0
    ensures forall slot :: slot in GridOf(grid) ==> slot.end == slot.start + grid.SlotLength()
  {
    GridShape(grid.Days(), grid.DayStart(), grid.DayEnd(), grid.SlotLength());
  }

  /** The search tries exactly the lessons the section may have. */
  lemma MayHaveExact(input: Input, s: Section, c: Placed)
    requires input.grid.SlotLength() > 0
    ensures c in Choices(input.Problem(), s) <==> MayHave(input, s, c)
  {
    var slot := Slot(c.slot.day, c.slot.start, c.slot.start + input.grid.SlotLength());
    SlotLong(input.grid);
    ChoiceAt(input.Problem(), s, c, slot, input.grid.SlotLength());
    SlotsExact(input.grid, c.slot.day, c.slot.start);
    CandidateLegal(input, s, c, slot);
  }

  // ---- beside what is already placed -----------------------------------------------------------

  function RoomOf(ex: Existing): string { ex.roomId.GetOr("fixed-" + ex.sectionId) }

  /** The lesson needs neither the room nor the teacher of a fixed slot at its time. */
  ghost predicate BesideRow(c: Placed, ex: Existing) {
    c.roomId == RoomOf(ex) || OneTeacher(c.instructor, ex.instructor) ==>
      forall k :: 0 <= k < |ex.slots| ==> InTurn(c.slot, ex.slots[k])
  }

  ghost predicate BesideFixed(c: Placed, existing: seq<Existing>) {
    forall e :: 0 <= e < |existing| ==> BesideRow(c, existing[e])
  }

  /** Some group names both. */
  ghost predicate Grouped(input: Input, x: string, y: string) {
    input.groups.Some? && exists g :: g in input.groups.value && x in g && y in g
  }

  /** The first row of its section that has any slot. */
  ghost predicate Leads(existing: seq<Existing>, e: nat)
    requires e < |existing|
  {
    existing[e].slots != [] && forall d :: 0 <= d < e && existing[d].slots != [] ==> existing[d].sectionId != existing[e].sectionId
  }

  ghost predicate BesideLead(input: Input, c: Placed, ex: Existing)
    requires ex.slots != []
  {
    ex.sectionId != c.sectionId && Grouped(input, c.sectionId, ex.sectionId) ==> InTurn(c.slot, ex.slots[0])
  }

  /** The lesson keeps clear of the first fixed slot of every other section it shares a group with. */
  ghost predicate BesideGroups(input: Input, c: Placed) {
    forall e :: 0 <= e < |input.existing| && Leads(input.existing, e) ==> BesideLead(input, c, input.existing[e])
  }

  lemma OneFixed(c: Placed, ex: Existing)
    ensures (forall d :: d in PlacedOf(ex, ex.slots) ==> SideBySide(c, d)) <==> BesideRow(c, ex)
  {
    var fixed := PlacedOf(ex, ex.slots);
    if forall d :: d in fixed ==> SideBySide(c, d) {
      forall k | 0 <= k < |ex.slots| && (c.roomId == RoomOf(ex) || OneTeacher(c.instructor, ex.instructor))
        ensures InTurn(c.slot, ex.slots[k])
      {
        var d := fixed[k];
        assert d in fixed && d.roomId == RoomOf(ex) && d.slot == ex.slots[k];
      }
    }
  }

  lemma {:induction false} FixedExact(c: Placed, existing: seq<Existing>)
    ensures (forall d :: d in ExistingToPlaced(existing) ==> SideBySide(c, d)) <==> BesideFixed(c, existing)
  {
    if existing != [] {
      var front, last := existing[..|existing| - 1], existing[|existing| - 1];
      FixedExact(c, front);
      OneFixed(c, last);
      BesideNext(c, existing);
      assert forall d :: d in ExistingToPlaced(existing) <==> d in ExistingToPlaced(front) || d in PlacedOf(last, last.slots);
    }
  }

  lemma BesideNext(c: Placed, existing: seq<Existing>)
    requires existing != []
    ensures BesideFixed(c, existing) <==>
            BesideFixed(c, existing[..|existing| - 1]) && BesideRow(c, existing[|existing| - 1])
  {
    var front := existing[..|existing| - 1];
    assert forall e :: 0 <= e < |front| ==> existing[e] == front[e];
  }

  lemma GroupedExact(input: Input, x: string, y: string)
    requires input.grid.SlotLength() > 0
    ensures ShareGroup(input.Problem().groups, x, y) <==> Grouped(input, x, y)
  {
    var groups := input.Problem().groups;
    if g :| 0 <= g < |groups| && x in groups[g] && y in groups[g] { assert groups[g] in groups; }
    if Grouped(input, x, y) {
      var g :| g in input.groups.value && x in g && y in g;
      var k :| 0 <= k < |groups| && groups[k] == g;
    }
  }

  ghost predicate LeadsFor(existing: seq<Existing>, id: string, e: nat)
    requires e < |existing|
  {
    Leads(existing, e) && existing[e].sectionId == id
  }

  ghost predicate LeadSlot(existing: seq<Existing>, id: string, first: Option<Placed>) {
    && (first.Some? <==> exists e :: 0 <= e < |existing| && LeadsFor(existing, id, e))
    && (forall e :: 0 <= e < |existing| && LeadsFor(existing, id, e) ==> first.Some? && first.value.slot == existing[e].slots[0])
  }

  lemma LeadsNext(existing: seq<Existing>, id: string)
    requires existing != []
    ensures var n := |existing| - 1;
            && (forall e: nat :: e < n ==> (LeadsFor(existing, id, e) <==> LeadsFor(existing[..n], id, e)))
            && (LeadsFor(existing, id, n) <==>
                  existing[n].slots != [] && existing[n].sectionId == id
                  && !exists e :: 0 <= e < n && LeadsFor(existing[..n], id, e))
  {
    var n := |existing| - 1;
    forall e: nat | e < n ensures LeadsFor(existing, id, e) <==> LeadsFor(existing[..n], id, e) { SameLead(existing, e); }
    if d :| 0 <= d < n && existing[d].slots != [] && existing[d].sectionId == id {
      var e := LeadBefore(existing[..n], d);
    }
  }

  lemma {:induction false} LeadBefore(existing: seq<Existing>, d: nat) returns (e: nat)
    requires d < |existing| && existing[d].slots != []
    ensures e < |existing| && LeadsFor(existing, existing[d].sectionId, e)
  {
    e := d;
    if c :| 0 <= c < d && existing[c].slots != [] && existing[c].sectionId == existing[d].sectionId {
      e := LeadBefore(existing, c);
    }
  }

  /** The first fixed placement of a section is the first slot of its leading row. */
  lemma {:induction false} FirstLeads(existing: seq<Existing>, id: string)
    ensures LeadSlot(existing, id, First(ExistingToPlaced(existing), id))
  {
    if existing != [] {
      var front, last := existing[..|existing| - 1], existing[|existing| - 1];
      FirstLeads(front, id);
      FirstOfConcat(ExistingToPlaced(front), PlacedOf(last, last.slots), id);
      FirstOfRow(last, id);
      LeadsNext(existing, id);
    }
  }

  lemma SameLead(existing: seq<Existing>, e: nat)
    requires e < |existing| - 1
    ensures Leads(existing, e) <==> Leads(existing[..|existing| - 1], e)
  {
    var front := existing[..|existing| - 1];
    assert forall d :: 0 <= d < |front| ==> existing[d] == front[d];
  }

  lemma FirstOfRow(ex: Existing, id: string)
    ensures First(PlacedOf(ex, ex.slots), id).Some? <==> ex.slots != [] && ex.sectionId == id
    ensures ex.slots != [] && ex.sectionId == id ==> First(PlacedOf(ex, ex.slots), id).value.slot == ex.slots[0]
  {
    var placed := PlacedOf(ex, ex.slots);
    if ex.slots != [] { assert placed[0].sectionId == ex.sectionId; }
  }

  lemma ClashFree(c: Placed, placed: seq<Placed>, rooms: RoomTable)
    ensures !HardClash(c, placed, rooms) <==>
            rooms.CapacityOr(c.roomId, 0) >= c.enrollments && forall d :: d in placed ==> SideBySide(c, d)
  {
    if HardClash(c, placed, rooms) && rooms.CapacityOr(c.roomId, 0) >= c.enrollments {
      var i :| 0 <= i < |placed| && Collide(c, placed[i]);
      assert placed[i] in placed;
    }
    if !HardClash(c, placed, rooms) {
      forall d | d in placed ensures SideBySide(c, d) {
        var i :| 0 <= i < |placed| && placed[i] == d;
        CollideMeans(c, placed[i]);
      }
    }
  }

  lemma GroupsBeside(input: Input, c: Placed)
    requires input.grid.SlotLength() > 0
    ensures !StudentGroupsClash(c.sectionId, c.slot, input.Seed(), input.Problem().groups) <==> BesideGroups(input, c)
  {
    var groups := input.Problem().groups;
    if StudentGroupsClash(c.sectionId, c.slot, input.Seed(), groups) {
      var g, k :| 0 <= g < |groups| && c.sectionId in groups[g] && 0 <= k < |groups[g]| && groups[g][k] != c.sectionId
                  && FirstOverlaps(c.slot, input.Seed(), groups[g][k]);
      var id := groups[g][k];
      FirstLeads(input.existing, id);
      GroupedExact(input, c.sectionId, id);
      var e :| 0 <= e < |input.existing| && LeadsFor(input.existing, id, e);
      assert !BesideLead(input, c, input.existing[e]);
    }
    if !BesideGroups(input, c) {
      var e :| 0 <= e < |input.existing| && Leads(input.existing, e) && !BesideLead(input, c, input.existing[e]);
      GroupClashes(input, c, e);
    }
  }

  lemma GroupClashes(input: Input, c: Placed, e: nat)
    requires input.grid.SlotLength() > 0 && e < |input.existing| && Leads(input.existing, e)
    requires !BesideLead(input, c, input.existing[e])
    ensures StudentGroupsClash(c.sectionId, c.slot, input.Seed(), input.Problem().groups)
  {
    var groups, id := input.Problem().groups, input.existing[e].sectionId;
    FirstLeads(input.existing, id);
    assert LeadsFor(input.existing, id, e);
    GroupedExact(input, c.sectionId, id);
    var g :| 0 <= g < |groups| && c.sectionId in groups[g] && id in groups[g];
    var k :| 0 <= k < |groups[g]| && groups[g][k] == id;
    assert FirstOverlaps(c.slot, input.Seed(), groups[g][k]);
  }

  /** What the search checks of a lesson against the fixed ones. */
  lemma BesideExact(input: Input, s: Section, c: Placed)
    requires input.grid.SlotLength() > 0 && MayHave(input, s, c)
    ensures Admissible(input.Problem(), c, input.Seed()) <==> BesideFixed(c, input.existing) && BesideGroups(input, c)
  {
    MayHaveExact(input, s, c);
    ChoiceFields(input.Problem(), s, c);
    RoomsOfValid(input.rooms);
    ClashFree(c, input.Seed(), input.Rooms());
    FixedExact(c, input.existing);
    GroupsBeside(input, c);
  }

  // ---- legal timetables ------------------------------------------------------------------------

  /** Two new lessons of different sections. */
  ghost predicate Together(input: Input, a: Placed, b: Placed) {
    SideBySide(a, b) && (Grouped(input, a.sectionId, b.sectionId) ==> InTurn(a.slot, b.slot))
  }

  ghost predicate LegalLesson(input: Input, s: Section, c: Placed) {
    MayHave(input, s, c) && BesideFixed(c, input.existing) && BesideGroups(input, c)
  }

  /** A lesson for every section, each legal and any two of them together. */
  ghost predicate Legal(input: Input, t: Table) {
    && t.Keys == (set s | s in input.sections :: s.id)
    && (forall s :: s in input.sections ==> LegalLesson(input, s, t[s.id]))
    && (forall s, r :: s in input.sections && r in input.sections && s.id != r.id ==> Together(input, t[s.id], t[r.id]))
  }

  lemma TogetherExact(input: Input, a: Placed, b: Placed)
    requires input.grid.SlotLength() > 0
    ensures Compatible(input.Problem(), a, b) <==> Together(input, a, b)
  {
    CollideMeans(a, b);
    GroupedExact(input, a.sectionId, b.sectionId);
  }

  lemma LessonLegal(input: Input, s: Section, c: Placed)
    requires input.grid.SlotLength() > 0
    ensures c in Choices(input.Problem(), s) && Admissible(input.Problem(), c, input.Seed()) <==> LegalLesson(input, s, c)
  {
    MayHaveExact(input, s, c);
    if MayHave(input, s, c) { BesideExact(input, s, c); }
  }

  /** The feasible timetables are the legal ones. */
  lemma LegalExact(input: Input, t: Table)
    requires input.grid.SlotLength() > 0
    ensures FeasibleTable(input.Problem(), input.sections, input.Seed(), t) <==> Legal(input, t)
  {
    if t.Keys == Ids(input.sections) {
      forall s | s in input.sections { LessonLegal(input, s, t[s.id]); }
      forall s, r | s in input.sections && r in input.sections { TogetherExact(input, t[s.id], t[r.id]); }
    }
  }

  // ---- plans and options -----------------------------------------------------------------------

  /** In every plan of any input, fresh or not, no minute of any day finds two lessons in one room
      or one teacher in two, unless both lessons were fixed before. */
  lemma PlanClear(input: Input, collate: (string, string) -> bool, plan: seq<Placed>, i: nat, j: nat, day: string, minute: int)
    requires input.grid.SlotLength() > 0 && plan in Plans(input, collate)
    requires i < j < |plan| && |input.Seed()| <= j
    requires Takes(plan[i].slot, day, minute) && Takes(plan[j].slot, day, minute)
    ensures plan[i].roomId != plan[j].roomId && !OneTeacher(plan[i].instructor, plan[j].instructor)
  {
    var ordering, tail := PlanShape(input, collate, plan);
    var n := |input.Seed()|;
    var before := input.Seed() + tail[..j - n];
    assert before[i] == plan[i] && tail[j - n] == plan[j];
    ClashFree(plan[j], before, input.Rooms());
    assert Admissible(input.Problem(), tail[j - n], before);
    assert before[i] in before;
    InTurnMinutes(plan[j].slot, plan[i].slot);
  }

  ghost function LegalTables(input: Input): (tables: set<Table>)
    requires FreshInput(input)
    ensures forall t :: t in tables <==> Legal(input, t)
  {
    forall t ensures t in FeasibleTables(input) <==> Legal(input, t) { LegalExact(input, t); }
    FeasibleTables(input)
  }

  /** As many options as asked for, three if nothing was said, or as many as there are legal
      timetables; the plans behind them are legal and no two the same. */
  lemma OptionsLegal(input: Input, collate: (string, string) -> bool)
    requires FreshInput(input) && NoSlotTwice(input.grid)
    ensures var wanted, legal := input.maxOptions.GetOr(3), |LegalTables(input)|;
            |Options(input, collate)| == if wanted < 0 then 0 else if wanted < legal then wanted else legal
    ensures forall plan :: plan in Plans(input, collate) ==> Legal(input, TimetableOf(input.Seed(), plan))
    ensures forall i, j :: 0 <= i < j < |Plans(input, collate)| ==>
              TimetableOf(input.Seed(), Plans(input, collate)[i]) != TimetableOf(input.Seed(), Plans(input, collate)[j])
  {
    PlansExact(input, collate);
    OptionsExact(input, collate);
    assert LegalTables(input) == FeasibleTables(input);
    forall plan | plan in Plans(input, collate) ensures Legal(input, TimetableOf(input.Seed(), plan)) {
      LegalExact(input, TimetableOf(input.Seed(), plan));
    }
  }

  /** The row tells of this lesson, with times that read back. */
  ghost predicate Shows(a: Assignment, c: Placed) {
    && a.sectionId == c.sectionId && a.courseCode == c.courseCode && a.roomId == c.roomId && a.instructor == c.instructor
    && a.day == c.slot.day && ParseTime(a.startTime) == c.slot.start && ParseTime(a.endTime) == c.slot.end
  }

  lemma RowsShow(ordering: seq<Section>, tail: seq<Placed>)
    requires Named(ordering, tail) && Separate(tail) && forall c :: c in tail ==> Printable(c.slot)
    ensures var rows, t := ToAssignments(tail), TableOf(tail);
            && |rows| == |ordering|
            && forall k :: 0 <= k < |rows| ==>
                 rows[k].sectionId == ordering[k].id && ordering[k].id in t && Shows(rows[k], t[ordering[k].id])
  {
    TableOfAt(tail);
    forall k | 0 <= k < |tail| ensures tail[k] in tail && Shows(ToAssignments(tail)[k], tail[k]) {
      assert Printable(tail[k].slot);
      LabelRoundTrip(tail[k].slot.start);
      LabelRoundTrip(tail[k].slot.end);
    }
  }

  /** An option shows its plan's timetable, one row for each section. */
  lemma OptionShows(input: Input, collate: (string, string) -> bool, plan: seq<Placed>, s: Section)
    requires FreshInput(input) && PrintableInput(input) && plan in Plans(input, collate) && s in input.sections
    ensures var rows, t := OptionOf(input, plan).assignments, TimetableOf(input.Seed(), plan);
            && |rows| == |input.sections| && s.id in t
            && exists k :: 0 <= k < |rows| && rows[k].sectionId == s.id && Shows(rows[k], t[s.id])
  {
    var ordering, tail := PlanShape(input, collate, plan);
    DistinctIdsPermute(input.sections, ordering);
    SameMembers(ordering, input.sections);
    FollowsNamed(input.Problem(), ordering, tail);
    TailIncluded(input, ordering, tail);
    FreshScheduled(input.sections, input.Seed(), tail);
    RowsShow(ordering, tail);
    assert plan[|input.Seed()|..] == tail;
    var k :| 0 <= k < |ordering| && ordering[k] == s;
    assert OptionOf(input, plan).assignments[k].sectionId == s.id;
  }
}
