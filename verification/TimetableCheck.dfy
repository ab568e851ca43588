/** The separate validator, the student groups, and how the two meet the search. */
module TimetableCheck {
  import opened Results
  import opened Timetable
  import opened TimetableSearch
  import opened TimetableTheory
  import opened TimetableEngine
  import opened TimetableCount
  import opened TimeLabels

  // ---- the validator -------------------------------------------------------------------

  datatype Violation =
    | UnderCapacity(roomId: string, sectionId: string)
    | RoomClash(roomId: string, day: string)
    | InstructorClash(instructor: Option<string>, day: string)

  function FromAssignment(a: Assignment): Placed {
    Placed(a.sectionId, a.courseCode, a.roomId, a.instructor,
           Slot(a.day, ParseTime(a.startTime), ParseTime(a.endTime)), 0)
  }

  function FromAssignments(assignments: seq<Assignment>): seq<Placed> {
    seq(|assignments|, i requires 0 <= i < |assignments| => FromAssignment(assignments[i]))
  }

  function PairViolations(p: Placed, q: Placed): seq<Violation> {
    if !Overlap(p.slot, q.slot) then []
    else
      (if p.roomId == q.roomId then [RoomClash(p.roomId, p.slot.day)] else [])
      + if Present(p.instructor) && p.instructor == q.instructor then [InstructorClash(p.instructor, p.slot.day)] else []
  }

  function CapacityViolations(rooms: RoomTable, p: Placed): seq<Violation> {
    if rooms.CapacityOr(p.roomId, 0) < p.enrollments then [UnderCapacity(p.roomId, p.sectionId)] else []
  }

  /** Violations of placement i: its capacity, then its clashes with the placements i+1 .. j-1. */
  function RowViolations(rooms: RoomTable, placed: seq<Placed>, i: nat, j: nat): seq<Violation>
    requires i < j <= |placed|
  {
    if j == i + 1 then CapacityViolations(rooms, placed[i])
    else RowViolations(rooms, placed, i, j - 1) + PairViolations(placed[i], placed[j - 1])
  }

  function Violations(rooms: RoomTable, placed: seq<Placed>, n: nat): seq<Violation>
    requires n <= |placed|
  {
    if n == 0 then [] else Violations(rooms, placed, n - 1) + RowViolations(rooms, placed, n - 1, |placed|)
  }

  lemma RowStep(before: seq<Violation>, rooms: RoomTable, placed: seq<Placed>, i: nat, j: nat)
    requires i < j < |placed|
    ensures before + RowViolations(rooms, placed, i, j) + PairViolations(placed[i], placed[j])
            == before + RowViolations(rooms, placed, i, j + 1)
  {
  }

  method ValidateTimetableAssignments(rooms: RoomTable, existing: seq<Existing>, assignments: seq<Assignment>)
    returns (valid: bool, violations: seq<Violation>)
    ensures var placed := ExistingToPlaced(existing) + FromAssignments(assignments);
            violations == Violations(rooms, placed, |placed|)
    ensures valid <==> Clean(rooms, ExistingToPlaced(existing) + FromAssignments(assignments))
  {
    var placed := ExistingToPlaced(existing) + FromAssignments(assignments);
    violations := [];
    for i := 0 to |placed|
      invariant violations == Violations(rooms, placed, i)
    {
      ghost var before := violations;
      violations := violations + CapacityViolations(rooms, placed[i]);
      for j := i + 1 to |placed|
        invariant violations == before + RowViolations(rooms, placed, i, j)
      {
        RowStep(before, rooms, placed, i, j);
        violations := violations + PairViolations(placed[i], placed[j]);
      }
    }
    valid := violations == [];
    ViolationsExact(rooms, placed);
  }

  /** Every room is large enough, and no two placements need one room or one teacher at once. */
  ghost predicate Clean(rooms: RoomTable, placed: seq<Placed>) {
    && (forall i :: 0 <= i < |placed| ==> rooms.CapacityOr(placed[i].roomId, 0) >= placed[i].enrollments)
    && (forall i, j :: 0 <= i < j < |placed| ==> SideBySide(placed[i], placed[j]))
  }

  ghost predicate RowClean(rooms: RoomTable, placed: seq<Placed>, i: nat, j: nat)
    requires i < j <= |placed|
  {
    rooms.CapacityOr(placed[i].roomId, 0) >= placed[i].enrollments
    && forall k :: i < k < j ==> SideBySide(placed[i], placed[k])
  }

  lemma {:induction false} RowExact(rooms: RoomTable, placed: seq<Placed>, i: nat, j: nat)
    requires i < j <= |placed|
    ensures RowViolations(rooms, placed, i, j) == [] <==> RowClean(rooms, placed, i, j)
  {
    if j > i + 1 { RowExact(rooms, placed, i, j - 1); }
  }

  ghost predicate RowsClean(rooms: RoomTable, placed: seq<Placed>, n: nat)
    requires n <= |placed|
  {
    forall i :: 0 <= i < n ==> RowClean(rooms, placed, i, |placed|)
  }

  lemma RowsCleanNext(rooms: RoomTable, placed: seq<Placed>, n: nat)
    requires n < |placed|
    ensures RowsClean(rooms, placed, n + 1) <==> RowsClean(rooms, placed, n) && RowClean(rooms, placed, n, |placed|)
  {
  }

  lemma ViolationsNext(rooms: RoomTable, placed: seq<Placed>, n: nat)
    requires n < |placed|
    ensures Violations(rooms, placed, n + 1) == [] <==>
            Violations(rooms, placed, n) == [] && RowViolations(rooms, placed, n, |placed|) == []
  {
  }

  lemma {:induction false} RowsExact(rooms: RoomTable, placed: seq<Placed>, n: nat)
    requires n <= |placed|
    ensures RowsAgree(rooms, placed, n)
  {
    if n > 0 {
      RowsExact(rooms, placed, n - 1);
      RowsStep(rooms, placed, n - 1);
    } else {
      NoRows(rooms, placed);
    }
  }

  lemma NoRows(rooms: RoomTable, placed: seq<Placed>)
    ensures RowsAgree(rooms, placed, 0)
  {
  }

  ghost predicate RowsAgree(rooms: RoomTable, placed: seq<Placed>, n: nat)
    requires n <= |placed|
  {
    |Violations(rooms, placed, n)| == 0 <==> RowsClean(rooms, placed, n)
  }

  lemma RowsStep(rooms: RoomTable, placed: seq<Placed>, n: nat)
    requires n < |placed| && RowsAgree(rooms, placed, n)
    ensures RowsAgree(rooms, placed, n + 1)
  {
    ViolationsNext(rooms, placed, n);
    RowExact(rooms, placed, n, |placed|);
    RowsCleanNext(rooms, placed, n);
  }

  /** No violation is reported exactly on clean placements. */
  lemma ViolationsExact(rooms: RoomTable, placed: seq<Placed>)
    ensures Violations(rooms, placed, |placed|) == [] <==> Clean(rooms, placed)
  {
    var n := |placed|;
    RowsExact(rooms, placed, n);
    if RowsClean(rooms, placed, n) {
      forall i | 0 <= i < n
        ensures rooms.CapacityOr(placed[i].roomId, 0) >= placed[i].enrollments
        ensures forall j :: i < j < n ==> SideBySide(placed[i], placed[j])
      {
        assert RowClean(rooms, placed, i, n);
      }
    }
  }

  /** A pair of placements the violation is about. */
  ghost predicate Blames(p: Placed, q: Placed, v: Violation) {
    p.slot.day == q.slot.day && !InTurn(p.slot, q.slot)
    && match v
       case UnderCapacity(_, _) => false
       case RoomClash(roomId, day) => p.roomId == q.roomId == roomId && p.slot.day == day
       case InstructorClash(who, day) => OneTeacher(p.instructor, q.instructor) && p.instructor == who && p.slot.day == day
  }

  ghost predicate TooSmall(rooms: RoomTable, p: Placed, v: Violation) {
    v == UnderCapacity(p.roomId, p.sectionId) && rooms.CapacityOr(p.roomId, 0) < p.enrollments
  }

  lemma PairBlamed(p: Placed, q: Placed, v: Violation)
    ensures v in PairViolations(p, q) <==> Blames(p, q, v)
  {
  }

  ghost predicate BlamedInRow(rooms: RoomTable, placed: seq<Placed>, i: nat, j: nat, v: Violation)
    requires i < j <= |placed|
  {
    TooSmall(rooms, placed[i], v) || exists k :: i < k < j && Blames(placed[i], placed[k], v)
  }

  lemma {:induction false} RowBlamed(rooms: RoomTable, placed: seq<Placed>, i: nat, j: nat, v: Violation)
    requires i < j <= |placed|
    ensures v in RowViolations(rooms, placed, i, j) <==> BlamedInRow(rooms, placed, i, j, v)
  {
    if j > i + 1 {
      RowBlamed(rooms, placed, i, j - 1, v);
      PairBlamed(placed[i], placed[j - 1], v);
    }
  }

  /** Lists that grow row by row. */
  ghost predicate Grown<T(!new)>(lists: seq<seq<T>>, rows: seq<seq<T>>) {
    |lists| == |rows| + 1 && lists[0] == [] && forall i :: 0 <= i < |rows| ==> lists[i + 1] == lists[i] + rows[i]
  }

  lemma {:induction false} GrownFrom<T(!new)>(lists: seq<seq<T>>, rows: seq<seq<T>>, n: nat, v: T)
    requires Grown(lists, rows) && n <= |rows|
    ensures v in lists[n] <==> exists i :: 0 <= i < n && v in rows[i]
  {
    if n > 0 {
      GrownFrom(lists, rows, n - 1, v);
      assert lists[n - 1 + 1] == lists[n - 1] + rows[n - 1];
    }
  }

  ghost function Rows(rooms: RoomTable, placed: seq<Placed>): seq<seq<Violation>> {
    seq(|placed|, i requires 0 <= i < |placed| => RowViolations(rooms, placed, i, |placed|))
  }

  lemma RowsGrow(rooms: RoomTable, placed: seq<Placed>)
    ensures Grown(seq(|placed| + 1, n requires 0 <= n <= |placed| => Violations(rooms, placed, n)), Rows(rooms, placed))
  {
  }

  lemma ListedInRow(rooms: RoomTable, placed: seq<Placed>, v: Violation)
    ensures v in Violations(rooms, placed, |placed|) <==> exists i :: 0 <= i < |placed| && v in Rows(rooms, placed)[i]
  {
    var lists := seq(|placed| + 1, n requires 0 <= n <= |placed| => Violations(rooms, placed, n));
    RowsGrow(rooms, placed);
    GrownFrom(lists, Rows(rooms, placed), |placed|, v);
    assert lists[|placed|] == Violations(rooms, placed, |placed|);
  }

  /** Each violation is listed exactly if a placement has too small a room, or two placements
      need its room or its teacher at once on its day. */
  lemma ViolationsListed(rooms: RoomTable, placed: seq<Placed>, v: Violation)
    ensures v in Violations(rooms, placed, |placed|) <==>
            || (exists i :: 0 <= i < |placed| && TooSmall(rooms, placed[i], v))
            || (exists i, j :: 0 <= i < j < |placed| && Blames(placed[i], placed[j], v))
  {
    ListedInRow(rooms, placed, v);
    forall i: nat | i < |placed| ensures v in Rows(rooms, placed)[i] <==> BlamedInRow(rooms, placed, i, |placed|, v) {
      RowBlamed(rooms, placed, i, |placed|, v);
    }
    if i :| 0 <= i < |placed| && TooSmall(rooms, placed[i], v) { assert BlamedInRow(rooms, placed, i, |placed|, v); }
    if i, j :| 0 <= i < j < |placed| && Blames(placed[i], placed[j], v) { assert BlamedInRow(rooms, placed, i, |placed|, v); }
  }

  // ---- generated options against the validator -------------------------------------------

  lemma SideBySideSymmetric(a: Placed, b: Placed)
    ensures SideBySide(a, b) <==> SideBySide(b, a)
  {
  }

  /** What the schedule parser lets through: a proper interval within one day. */
  ghost predicate ParsedSlot(s: Slot) { 0 <= s.start < s.end < 1440 }

  ghost predicate ParsedExisting(existing: seq<Existing>) {
    forall ex, s :: ex in existing && s in ex.slots ==> ParsedSlot(s)
  }

  lemma {:induction false} SeedParsed(existing: seq<Existing>)
    requires ParsedExisting(existing)
    ensures forall c :: c in ExistingToPlaced(existing) ==> ParsedSlot(c.slot) && c.enrollments == 0
  {
    if existing != [] {
      var front, last := existing[..|existing| - 1], existing[|existing| - 1];
      assert last in existing && forall ex :: ex in front ==> ex in existing;
      SeedParsed(front);
      var tail := PlacedOf(last, last.slots);
      forall c | c in tail ensures ParsedSlot(c.slot) && c.enrollments == 0 {
        var i :| 0 <= i < |tail| && tail[i] == c;
        assert last.slots[i] in last.slots;
      }
    }
  }

  /** The times an option prints read back as the times that were placed. */
  ghost predicate Printable(s: Slot) { 0 <= s.start < 6000 && 0 <= s.end < 6000 }

  lemma AssignmentReadsBack(c: Placed)
    requires Printable(c.slot)
    ensures FromAssignment(ToAssignment(c)) == c.(enrollments := 0)
  {
    LabelRoundTrip(c.slot.start);
    LabelRoundTrip(c.slot.end);
  }

  ghost predicate PrintableInput(input: Input) {
    && input.grid.SlotLength() > 0
    && input.grid.DayStart() >= 0 && input.grid.DayEnd() < 6000
    && (forall s :: s in input.sections ==> Duration(s) >= 0)
    && ParsedExisting(input.existing)
  }

  lemma ChoicePrintable(input: Input, s: Section, c: Placed)
    requires PrintableInput(input) && s in input.sections && c in Choices(input.Problem(), s)
    ensures Printable(c.slot)
  {
    ChoiceFields(input.Problem(), s, c);
    var slot :| slot in input.Problem().slots && CanUse(input.Problem(), s, slot) && c.slot == UseSlot(s, slot);
    GridShape(input.grid.Days(), input.grid.DayStart(), input.grid.DayEnd(), input.grid.SlotLength());
  }

  lemma PlanFound(input: Input, collate: (string, string) -> bool, plan: seq<Placed>) returns (ordering: seq<Section>)
    requires input.grid.SlotLength() > 0 && plan in Plans(input, collate)
    ensures multiset(ordering) == multiset(input.sections)
    ensures plan in Extensions(input.Problem(), ordering, input.Seed())
  {
    var p, seed, orderings := input.Problem(), input.Seed(), Orderings(collate, input.sections);
    OrderingsPermute(collate, input.sections);
    DedupeExact(input.sections, Solutions(p, orderings, seed, input.Max()));
    SolutionsSound(p, orderings, seed, input.Max(), plan);
    ordering :| ordering in orderings && plan in Extensions(p, ordering, seed);
  }

  /** The parts of a plan: the fixed placements, then one choice for each section of some order. */
  lemma PlanShape(input: Input, collate: (string, string) -> bool, plan: seq<Placed>) returns (ordering: seq<Section>, tail: seq<Placed>)
    requires input.grid.SlotLength() > 0 && plan in Plans(input, collate)
    ensures plan == input.Seed() + tail && multiset(ordering) == multiset(input.sections)
    ensures Follows(input.Problem(), ordering, tail)
    ensures forall i :: 0 <= i < |tail| ==> Admissible(input.Problem(), tail[i], input.Seed() + tail[..i])
  {
    ordering := PlanFound(input, collate, plan);
    tail := SplitSolution(input.Problem(), ordering, input.Seed(), plan);
  }

  lemma SplitSolution(p: Problem, sections: seq<Section>, seed: seq<Placed>, sol: seq<Placed>) returns (tail: seq<Placed>)
    requires sol in Extensions(p, sections, seed)
    ensures sol == seed + tail && Follows(p, sections, tail)
    ensures forall i :: 0 <= i < |tail| ==> Admissible(p, tail[i], seed + tail[..i])
  {
    ExtensionsExact(p, sections, seed, sol);
    tail := sol[|seed|..];
    assert sol == seed + tail;
    FeasibleSteps(p, sections, seed, tail);
  }

  lemma TailIncluded(input: Input, ordering: seq<Section>, tail: seq<Placed>)
    requires input.grid.SlotLength() > 0
    requires multiset(ordering) == multiset(input.sections) && Follows(input.Problem(), ordering, tail)
    ensures forall c :: c in tail ==> Includes(input.sections, c.sectionId)
    ensures PrintableInput(input) ==> forall c :: c in tail ==> Printable(c.slot)
  {
    SameMembers(ordering, input.sections);
    forall c | c in tail
      ensures Includes(input.sections, c.sectionId)
      ensures PrintableInput(input) ==> Printable(c.slot)
    {
      var i :| 0 <= i < |tail| && tail[i] == c;
      assert ordering[i] in input.sections;
      ChoiceFields(input.Problem(), ordering[i], c);
      var k :| 0 <= k < |input.sections| && input.sections[k] == ordering[i];
      if PrintableInput(input) { ChoicePrintable(input, ordering[i], c); }
    }
  }

  ghost predicate FixedClean(input: Input) { Clean(input.Rooms(), input.Seed()) }

  lemma {:induction false} ScheduledMember(sections: seq<Section>, placed: seq<Placed>, c: Placed)
    requires c in placed && Includes(sections, c.sectionId)
    ensures c in Scheduled(sections, placed)
  {
    var front, last := placed[..|placed| - 1], placed[|placed| - 1];
    assert placed == front + [last];
    if c != last { ScheduledMember(sections, front, c); }
  }

  /** Times as the validator reads them; it is told nothing about enrolments. */
  function Unsized(placed: seq<Placed>): seq<Placed> {
    seq(|placed|, i requires 0 <= i < |placed| => placed[i].(enrollments := 0))
  }

  lemma AssignmentsReadBack(placed: seq<Placed>)
    requires forall c :: c in placed ==> Printable(c.slot)
    ensures FromAssignments(ToAssignments(placed)) == Unsized(placed)
  {
    forall i | 0 <= i < |placed| ensures FromAssignments(ToAssignments(placed))[i] == Unsized(placed)[i] {
      assert placed[i] in placed;
      AssignmentReadsBack(placed[i]);
    }
  }

  /** A search result over a clean seed is clean. */
  lemma SolutionClean(p: Problem, sections: seq<Section>, seed: seq<Placed>, tail: seq<Placed>)
    requires Clean(p.rooms, seed) && Follows(p, sections, tail)
    requires forall i :: 0 <= i < |tail| ==> Admissible(p, tail[i], seed + tail[..i])
    ensures Clean(p.rooms, seed + Unsized(tail))
  {
    var n, all := |seed|, seed + Unsized(tail);
    forall i | 0 <= i < |all| ensures p.rooms.CapacityOr(all[i].roomId, 0) >= all[i].enrollments {
      if i >= n { ChoiceFields(p, sections[i - n], tail[i - n]); }
    }
    forall i, j | 0 <= i < j < |all| ensures SideBySide(all[i], all[j]) {
      if j >= n {
        var before := seed + tail[..j - n];
        assert Admissible(p, tail[j - n], before);
        assert !Collide(tail[j - n], before[i]);
        CollideMeans(tail[j - n], before[i]);
        SideBySideSymmetric(before[i], tail[j - n]);
        assert SideBySide(all[i], all[j]) <==> SideBySide(before[i], tail[j - n]);
      }
    }
  }

  /** The validator agrees with the search, exactly: a generated option passes if and only if
      the fixed placements are clean by themselves and none of them belongs to a section that
      was scheduled again. */
  lemma OptionValid(input: Input, collate: (string, string) -> bool, plan: seq<Placed>)
    requires PrintableInput(input) && plan in Plans(input, collate)
    ensures Clean(input.Rooms(), input.Seed() + FromAssignments(OptionOf(input, plan).assignments)) <==>
            FixedClean(input) && FreshIds(input.sections, input.Seed())
  {
    var seed, sections := input.Seed(), input.sections;
    var scheduled := Scheduled(sections, plan);
    var all := seed + FromAssignments(ToAssignments(scheduled));
    var ordering, tail := PlanShape(input, collate, plan);
    TailIncluded(input, ordering, tail);
    if FixedClean(input) && FreshIds(sections, seed) {
      FreshScheduled(sections, seed, tail);
      AssignmentsReadBack(tail);
      SolutionClean(input.Problem(), ordering, seed, tail);
    }
    if Clean(input.Rooms(), all) {
      CleanPrefix(input.Rooms(), seed, FromAssignments(ToAssignments(scheduled)));
      if !FreshIds(sections, seed) { StaleClash(input, plan, tail); }
    }
  }

  lemma CleanPrefix(rooms: RoomTable, a: seq<Placed>, b: seq<Placed>)
    requires Clean(rooms, a + b)
    ensures Clean(rooms, a)
  {
    forall i | 0 <= i < |a| ensures a[i] == (a + b)[i] {}
  }

  lemma FreshScheduled(sections: seq<Section>, seed: seq<Placed>, tail: seq<Placed>)
    requires FreshIds(sections, seed) && forall c :: c in tail ==> Includes(sections, c.sectionId)
    ensures Scheduled(sections, seed + tail) == tail
  {
    forall c, i | c in seed && 0 <= i < |sections| ensures sections[i].id != c.sectionId {
      assert sections[i] in sections;
    }
    ScheduledConcat(sections, seed, tail);
    ScheduledNone(sections, seed);
    ScheduledAll(sections, tail);
  }

  lemma CollisionAcross(rooms: RoomTable, a: seq<Placed>, b: seq<Placed>, c: Placed, d: Placed)
    requires c in a && d in b && !SideBySide(c, d)
    ensures !Clean(rooms, a + b)
  {
    var i :| 0 <= i < |a| && a[i] == c;
    var j :| 0 <= j < |b| && b[j] == d;
    assert (a + b)[i] == c && (a + b)[|a| + j] == d;
  }

  lemma Printed(scheduled: seq<Placed>, c: Placed)
    requires c in scheduled && Printable(c.slot)
    ensures c.(enrollments := 0) in FromAssignments(ToAssignments(scheduled))
  {
    var j :| 0 <= j < |scheduled| && scheduled[j] == c;
    AssignmentReadsBack(c);
    assert FromAssignments(ToAssignments(scheduled))[j] == c.(enrollments := 0);
  }

  /** A section that keeps its fixed placement and is scheduled again clashes with itself. */
  lemma StaleClash(input: Input, plan: seq<Placed>, tail: seq<Placed>)
    requires PrintableInput(input) && plan == input.Seed() + tail && !FreshIds(input.sections, input.Seed())
    ensures !Clean(input.Rooms(), input.Seed() + FromAssignments(ToAssignments(Scheduled(input.sections, plan))))
  {
    var c, s :| c in input.Seed() && s in input.sections && c.sectionId == s.id;
    var k :| 0 <= k < |input.sections| && input.sections[k] == s;
    ScheduledMember(input.sections, plan, c);
    SeedParsed(input.existing);
    var scheduled := Scheduled(input.sections, plan);
    Printed(scheduled, c);
    CollisionAcross(input.Rooms(), input.Seed(), FromAssignments(ToAssignments(scheduled)), c, c.(enrollments := 0));
  }
}
