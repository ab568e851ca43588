/** Where the engine does less than a caller may expect: windows that only have to be touched,
    and grids with a slot listed twice, whose repeats use up the search's cap. */
module TimetableLimits {
  import opened Results
  import opened Counting
  import opened Timetable
  import opened TimetableSearch
  import opened TimetableTheory
  import opened TimetableEngine
  import opened TimetableCount
  import opened StableSort

  // ---- a window that only has to be touched --------------------------------------------------

  predicate Within(slot: Slot, window: Slot) {
    slot.day == window.day && window.start <= slot.start && slot.end <= window.end
  }

  /** The window begins or ends in the middle of the lesson. */
  predicate Cuts(window: Slot, slot: Slot) {
    slot.day == window.day && (slot.start < window.start < slot.end || slot.start < window.end < slot.end)
  }

  predicate WithinOne(slot: Slot, windows: seq<Option<Slot>>) {
    exists i :: 0 <= i < |windows| && windows[i].Some? && Within(slot, windows[i].value)
  }

  predicate CutByOne(slot: Slot, windows: seq<Option<Slot>>) {
    exists i :: 0 <= i < |windows| && windows[i].Some? && Cuts(windows[i].value, slot)
  }

  /** A lesson outside all stated windows of its teacher passes exactly when some window begins
      or ends in its middle. Windows that do not parse count for nothing; one that parses does
      not end before it begins. */
  lemma AvailableOutside(instructor: string, slot: Slot, windows: seq<Option<Slot>>)
    requires instructor != "" && slot.start < slot.end && windows != []
    requires forall i :: 0 <= i < |windows| && windows[i].Some? ==> windows[i].value.start < windows[i].value.end
    ensures FacultyAvailable(Some(instructor), slot, map[instructor := windows]) <==>
            WithinOne(slot, windows) || CutByOne(slot, windows)
    ensures FacultyAvailable(Some(instructor), slot, map[instructor := windows]) && !WithinOne(slot, windows) <==>
            CutByOne(slot, windows) && !WithinOne(slot, windows)
  {
    var availability := map[instructor := windows];
    assert availability[instructor] == windows;
    forall i | 0 <= i < |windows| && windows[i].Some?
      ensures Overlap(slot, windows[i].value) <==> Within(slot, windows[i].value) || Cuts(windows[i].value, slot)
    {
    }
  }

  // ---- a slot listed twice ------------------------------------------------------------------

  /** One section that fits every slot, two rooms for it, and as many options asked for as the
      grid has slots. */
  function Crowded(grid: GridConfig): Input
    requires grid.SlotLength() > 0
  {
    Input([OneSection(grid.SlotLength())], [Room("r", 9), Room("q", 9)], [], None, map[], grid, Some(|GridOf(grid)|))
  }

  function OneSection(length: int): Section { Section("a", "A", 5, None, Some(length), []) }

  const TWO_ROOMS := RoomTable(["r", "q"], map["r" := 9, "q" := 9])

  lemma TwoRooms()
    ensures RoomsOf([Room("r", 9), Room("q", 9)]) == TWO_ROOMS
  {
    var rooms := [Room("r", 9), Room("q", 9)];
    assert rooms[..1] == [Room("r", 9)] && rooms[..1][..0] == [];
    assert RoomsOf(rooms[..1]) == RoomsOf([]).Put(Room("r", 9)) == RoomTable(["r"], map["r" := 9]);
    assert RoomsOf(rooms) == RoomTable(["r"], map["r" := 9]).Put(Room("q", 9));
  }

  lemma BothSuit(p: Problem, s: Section, r: string, q: string)
    requires s.enrollments == 5 && p.rooms.CapacityOr(r, -1) == 9 && p.rooms.CapacityOr(q, -1) == 9
    ensures SuitableRooms(p, s, [r, q]) == [r, q]
  {
    assert [r, q][1..] == [q] && [q][1..] == [];
    assert SuitableRooms(p, s, [q]) == [q] + SuitableRooms(p, s, []) == [q];
  }

  function InRoom(s: Section, roomId: string, slots: seq<Slot>): seq<Placed> {
    seq(|slots|, i requires 0 <= i < |slots| => Candidate(s, roomId, slots[i]))
  }

  lemma {:induction false} EverySlotUsable(p: Problem, s: Section, roomId: string, slots: seq<Slot>)
    requires s.instructor == None && forall slot :: slot in slots ==> slot.end - slot.start >= Duration(s)
    ensures SlotChoices(p, s, roomId, slots) == InRoom(s, roomId, slots)
  {
    if slots != [] {
      var front, last := slots[..|slots| - 1], slots[|slots| - 1];
      assert last in slots;
      EverySlotUsable(p, s, roomId, front);
      assert InRoom(s, roomId, slots) == InRoom(s, roomId, front) + [Candidate(s, roomId, last)];
    }
  }

  lemma RoomByRoom(p: Problem, s: Section, r: string, q: string)
    ensures RoomChoices(p, s, [r, q]) == SlotChoices(p, s, r, p.slots) + SlotChoices(p, s, q, p.slots)
  {
    assert [r, q][..1] == [r] && [r][..0] == [];
    assert RoomChoices(p, s, [r]) == SlotChoices(p, s, r, p.slots);
  }

  /** The problem of a crowded input, by its parts. */
  ghost predicate IsCrowded(p: Problem, s: Section, length: int) {
    && p.rooms == TWO_ROOMS && p.availability == map[] && p.groups == [] && s == OneSection(length)
    && forall slot :: slot in p.slots ==> slot.end - slot.start == length
  }

  lemma CrowdedIs(grid: GridConfig)
    requires grid.SlotLength() > 0
    ensures IsCrowded(Crowded(grid).Problem(), OneSection(grid.SlotLength()), grid.SlotLength())
    ensures Crowded(grid).Problem().slots == GridOf(grid)
  {
    TwoRooms();
    GridShape(grid.Days(), grid.DayStart(), grid.DayEnd(), grid.SlotLength());
  }

  lemma CrowdedChoices(p: Problem, s: Section, length: int)
    requires IsCrowded(p, s, length)
    ensures Choices(p, s) == InRoom(s, "r", p.slots) + InRoom(s, "q", p.slots)
  {
    BothSuit(p, s, "r", "q");
    RoomByRoom(p, s, "r", "q");
    EverySlotUsable(p, s, "r", p.slots);
    EverySlotUsable(p, s, "q", p.slots);
  }

  lemma CrowdedAdmissible(p: Problem, s: Section, length: int, c: Placed)
    requires IsCrowded(p, s, length) && c in InRoom(s, "r", p.slots) + InRoom(s, "q", p.slots)
    ensures Admissible(p, c, [])
  {
    assert c.enrollments == 5 && p.rooms.CapacityOr(c.roomId, 0) == 9;
  }

  lemma CrowdedExtensions(p: Problem, s: Section, length: int)
    requires IsCrowded(p, s, length)
    ensures Extensions(p, [s], []) == Singles(InRoom(s, "r", p.slots)) + Singles(InRoom(s, "q", p.slots))
  {
    var inR, inQ := InRoom(s, "r", p.slots), InRoom(s, "q", p.slots);
    CrowdedChoices(p, s, length);
    forall c | c in inR + inQ ensures Admissible(p, c, []) { CrowdedAdmissible(p, s, length, c); }
    SingleSection(p, s, inR + inQ);
    SinglesConcat(inR, inQ);
  }

  lemma SinglesConcat(a: seq<Placed>, b: seq<Placed>)
    ensures Singles(a + b) == Singles(a) + Singles(b)
  {
  }

  lemma {:induction false} SingleSection(p: Problem, s: Section, choices: seq<Placed>)
    requires forall c :: c in choices ==> Admissible(p, c, [])
    ensures Branches(p, [s], [], choices) == Singles(choices)
  {
    if choices != [] {
      var front, last := choices[..|choices| - 1], choices[|choices| - 1];
      assert last in choices;
      SingleSection(p, s, front);
      assert [s][1..] == [] && [] + [last] == [last];
      assert Singles(choices) == Singles(front) + [[last]];
    }
  }

  function Singles(choices: seq<Placed>): seq<seq<Placed>> {
    seq(|choices|, i requires 0 <= i < |choices| => [choices[i]])
  }

  lemma OneSectionOrdering(collate: (string, string) -> bool, s: Section)
    ensures Orderings(collate, [s])[0] == [s]
  {
    var sorted := Prioritised([s]);
    OrderingsPermute(collate, [s]);
    assert sorted in Orderings(collate, [s]);
    SameMembers(sorted, [s]);
    assert sorted[0] in [s];
  }

  /** The cap fills up in the first room. */
  lemma CrowdedSolutions(p: Problem, s: Section, length: int, orderings: seq<seq<Section>>)
    requires IsCrowded(p, s, length) && orderings != [] && orderings[0] == [s]
    ensures Solutions(p, orderings, [], |p.slots|) == Singles(InRoom(s, "r", p.slots))
  {
    var inR, inQ := InRoom(s, "r", p.slots), InRoom(s, "q", p.slots);
    CrowdedExtensions(p, s, length);
    var rest := SolutionsStart(p, orderings, [], |p.slots|);
    CappedFirst(Singles(inR), Singles(inQ), rest);
  }

  lemma CappedFirst<T>(a: seq<T>, b: seq<T>, rest: seq<T>)
    ensures Capped([], (a + b) + rest, |a|) == a
  {
    assert ((a + b) + rest)[..|a|] == a;
  }

  /** A repeated solution is dropped. */
  lemma {:induction false} RepeatDropped(sections: seq<Section>, sols: seq<seq<Placed>>, i: nat, j: nat)
    requires i < j < |sols| && sols[i] == sols[j]
    ensures |Dedupe(sections, sols)| < |sols|
  {
    var front, last := sols[..|sols| - 1], sols[|sols| - 1];
    if j == |sols| - 1 {
      DedupeExact(sections, front);
      assert front[i] in front;
      DedupeShortens(sections, front);
    } else {
      RepeatDropped(sections, front, i, j);
    }
  }

  lemma TableOfOne(c: Placed)
    ensures TableOf([c]) == map[c.sectionId := c]
  {
    assert [c][..0] == [];
  }

  lemma OneTables(c: Placed, d: Placed)
    requires TableOf([c]) == TableOf([d])
    ensures c == d
  {
    TableOfOne(c);
    TableOfOne(d);
    assert c.sectionId in map[d.sectionId := d];
  }

  lemma FoundSingle(p: Problem, s: Section, c: Placed)
    requires [c] in Extensions(p, [s], [])
    ensures TableOf([c]) in TablesFound(p, [s], [])
  {
    var none: seq<Placed> := [];
    assert [c][|none|..] == [c];
  }

  /** Distinct single placements found make as many timetables. */
  lemma ManyTables(p: Problem, s: Section, cs: seq<Placed>)
    requires Distinct(cs) && forall i :: 0 <= i < |cs| ==> [cs[i]] in Extensions(p, [s], [])
    ensures |TablesFound(p, [s], [])| >= |cs|
  {
    var tables := seq(|cs|, i requires 0 <= i < |cs| => TableOf([cs[i]]));
    forall i, j | 0 <= i < j < |tables| ensures tables[i] != tables[j] {
      if tables[i] == tables[j] { OneTables(cs[i], cs[j]); }
    }
    DistinctCardinality(tables);
    forall t | t in tables ensures t in TablesFound(p, [s], []) {
      var i :| 0 <= i < |tables| && tables[i] == t;
      FoundSingle(p, s, cs[i]);
    }
    SubsetSize((set t | t in tables), TablesFound(p, [s], []));
  }

  /** One repeat in the first room costs a plan; the second room still has a timetable. */
  lemma CrowdedLoses(p: Problem, s: Section, length: int, i: nat, j: nat)
    requires IsCrowded(p, s, length) && i < j < |p.slots| && p.slots[i] == p.slots[j]
    ensures var plans := Dedupe([s], Singles(InRoom(s, "r", p.slots)));
            |plans| < |p.slots| && |plans| < |TablesFound(p, [s], [])|
  {
    var inR, inQ := InRoom(s, "r", p.slots), InRoom(s, "q", p.slots);
    RepeatDropped([s], Singles(inR), i, j);
    DedupeExact([s], Singles(inR));
    MoreTables(p, s, length, Dedupe([s], Singles(inR)));
  }

  /** Different plans in the first room leave a timetable over. */
  lemma MoreTables(p: Problem, s: Section, length: int, plans: seq<seq<Placed>>)
    requires IsCrowded(p, s, length) && p.slots != [] && Distinct(plans)
    requires forall plan :: plan in plans ==> plan in Singles(InRoom(s, "r", p.slots))
    ensures |plans| < |TablesFound(p, [s], [])|
  {
    var inR, inQ := InRoom(s, "r", p.slots), InRoom(s, "q", p.slots);
    var cs := PlacementsOf(plans, inR, inQ[0]);
    CrowdedExtensions(p, s, length);
    forall k | 0 <= k < |cs| ensures [cs[k]] in Singles(inR) + Singles(inQ) {
      if k < |plans| { assert plans[k] in plans; } else { assert Singles(inQ)[0] == [inQ[0]]; }
    }
    ManyTables(p, s, cs);
  }

  lemma CrowdedPlans(grid: GridConfig, collate: (string, string) -> bool)
    requires grid.SlotLength() > 0
    ensures var s := OneSection(grid.SlotLength());
            Plans(Crowded(grid), collate) == Dedupe([s], Singles(InRoom(s, "r", GridOf(grid))))
  {
    var input, s := Crowded(grid), OneSection(grid.SlotLength());
    CrowdedIs(grid);
    OneSectionOrdering(collate, s);
    CrowdedSolutions(input.Problem(), s, grid.SlotLength(), Orderings(collate, [s]));
  }

  /** Where a slot is listed twice the crowded input gets fewer options than asked for and
      fewer than there are timetables. */
  lemma CrowdedGrid(grid: GridConfig, collate: (string, string) -> bool)
    requires grid.SlotLength() > 0 && !NoSlotTwice(grid)
    ensures FreshInput(Crowded(grid)) && |Plans(Crowded(grid), collate)| < Expected(Crowded(grid))
  {
    var input, s := Crowded(grid), OneSection(grid.SlotLength());
    var i, j := SlotTwice(grid.Days(), grid.DayStart(), grid.DayEnd(), grid.SlotLength());
    CrowdedIs(grid);
    CrowdedPlans(grid, collate);
    CrowdedLoses(input.Problem(), s, grid.SlotLength(), i, j);
    SameTables(input);
  }

  lemma SameTables(input: Input)
    requires FreshInput(input)
    ensures FeasibleTables(input) == TablesFound(input.Problem(), input.sections, input.Seed())
  {
    forall t ensures t in FeasibleTables(input) <==> t in TablesFound(input.Problem(), input.sections, input.Seed()) {
      TablesFoundExact(input.Problem(), input.sections, input.Seed(), t);
    }
  }

  /** The single placements of the plans, and one more in the other room. */
  lemma PlacementsOf(plans: seq<seq<Placed>>, inR: seq<Placed>, other: Placed) returns (cs: seq<Placed>)
    requires forall plan :: plan in plans ==> plan in Singles(inR)
    requires Distinct(plans) && forall c :: c in inR ==> c.roomId != other.roomId
    ensures |cs| == |plans| + 1 && Distinct(cs) && cs[|plans|] == other
    ensures forall k :: 0 <= k < |plans| ==> plans[k] == [cs[k]]
  {
    forall k | 0 <= k < |plans| ensures |plans[k]| == 1 && plans[k][0] in inR {
      assert plans[k] in plans;
      var i :| 0 <= i < |inR| && Singles(inR)[i] == plans[k];
    }
    cs := seq(|plans|, k requires 0 <= k < |plans| && |plans[k]| == 1 => plans[k][0]) + [other];
    forall a, b | 0 <= a < b < |cs| ensures cs[a] != cs[b] {
      if b < |plans| { assert plans[a] != plans[b] && plans[a] == [cs[a]] && plans[b] == [cs[b]]; }
    }
  }

  /** The promise of exactly min(maxOptions, N) options holds of a grid, for every input that
      uses it, exactly when no slot is in the grid twice. */
  lemma GridExact(grid: GridConfig, collate: (string, string) -> bool)
    requires grid.SlotLength() > 0
    ensures (forall input: Input :: input.grid == grid && FreshInput(input) ==>
               |Options(input, collate)| == Expected(input))
            <==> NoSlotTwice(grid)
  {
    if NoSlotTwice(grid) {
      forall input: Input | input.grid == grid && FreshInput(input) ensures |Options(input, collate)| == Expected(input) {
        OptionsExact(input, collate);
      }
    } else {
      CrowdedGrid(grid, collate);
      OptionsArePlans(Crowded(grid), collate);
    }
  }
}
