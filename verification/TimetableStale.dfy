/** When students can be due in two places at once: two sections to be scheduled of which one
    keeps a fixed placement, and a new section beside one that is not scheduled again. */
module TimetableStale {
  import opened Results
  import opened Timetable
  import opened TimetableSearch
  import opened TimetableTheory
  import opened TimetableEngine
  import opened TimetableCount
  import opened TimetableCheck
  import opened TimetableStudents
  import opened TimetableConstraints

  // ---- the fixed placements of a semester ---------------------------------------------------

  function StoredAs(s: SemesterSection): Existing {
    Existing(s.id, Some(s.courseCode), s.instructor, s.room, s.slots)
  }

  function FixedOf(s: SemesterSection): (placed: seq<Placed>)
    ensures |placed| == |s.slots|
    ensures forall k :: 0 <= k < |placed| ==>
              placed[k].sectionId == s.id && placed[k].instructor == s.instructor && placed[k].slot == s.slots[k]
  {
    PlacedOf(StoredAs(s), s.slots)
  }

  function FixedAt(s: SemesterSection, k: nat): Placed
    requires k < |s.slots|
  {
    FixedOf(s)[k]
  }

  function Fixed(sections: seq<SemesterSection>): seq<Placed> { ExistingToPlaced(AlreadyPlaced(sections)) }

  lemma FixedFirst(sections: seq<SemesterSection>)
    requires sections != []
    ensures Fixed(sections) == FixedOf(sections[0]) + Fixed(sections[1..])
  {
    var s, rest := sections[0], AlreadyPlaced(sections[1..]);
    if s.slots == [] {
      assert [] + rest == rest;
    } else {
      SeedConcat([StoredAs(s)], rest);
      OneExisting(StoredAs(s));
      assert AlreadyPlaced(sections) == [StoredAs(s)] + rest;
    }
  }

  lemma OneExisting(ex: Existing)
    ensures ExistingToPlaced([ex]) == PlacedOf(ex, ex.slots)
  {
    assert [ex][..0] == [];
    assert [] + PlacedOf(ex, ex.slots) == PlacedOf(ex, ex.slots);
  }

  lemma {:induction false} FixedHas(sections: seq<SemesterSection>, s: SemesterSection, k: nat)
    requires s in sections && k < |s.slots|
    ensures FixedAt(s, k) in Fixed(sections)
  {
    FixedFirst(sections);
    if s == sections[0] {
      assert FixedOf(s)[k] == FixedAt(s, k);
    } else {
      FixedHas(sections[1..], s, k);
    }
  }

  lemma {:induction false} FixedFrom(sections: seq<SemesterSection>, c: Placed) returns (s: SemesterSection, k: nat)
    requires c in Fixed(sections)
    ensures s in sections && k < |s.slots| && c == FixedAt(s, k)
  {
    assert Fixed([]) == [];
    FixedFirst(sections);
    if c in FixedOf(sections[0]) {
      s := sections[0];
      k :| 0 <= k < |s.slots| && FixedOf(s)[k] == c;
    } else {
      s, k := FixedFrom(sections[1..], c);
    }
  }

  /** The group check sees only the first fixed slot of a section. */
  lemma {:induction false} FirstFixed(sections: seq<SemesterSection>, s: SemesterSection)
    requires DistinctSections(sections) && s in sections && s.slots != []
    ensures First(Fixed(sections), s.id) == Some(FixedAt(s, 0))
  {
    var head, rest := sections[0], sections[1..];
    FixedFirst(sections);
    FirstOfConcat(FixedOf(head), Fixed(rest), s.id);
    if s == head {
      assert FixedOf(s)[0] == FixedAt(s, 0);
    } else {
      var i :| 0 <= i < |sections| && sections[i] == s;
      assert sections[0].id != sections[i].id;
      assert rest[i - 1] == s;
      FirstFixed(rest, s);
    }
  }

  // ---- free hours ----------------------------------------------------------------------

  predicate Clear(h: Slot, slots: seq<Slot>) {
    forall k :: 0 <= k < |slots| ==> !Overlap(h, slots[k])
  }

  /** No section of the same teacher has a fixed slot at the hour. */
  ghost predicate TeacherFree(sections: seq<SemesterSection>, s: SemesterSection, h: Slot) {
    Present(s.instructor) ==> forall c :: c in sections && c.instructor == s.instructor ==> Clear(h, c.slots)
  }

  predicate FirstClear(s: SemesterSection, h: Slot) { s.slots == [] || !Overlap(h, s.slots[0]) }

  /** An hour that nothing the engine checks keeps the two from sharing. */
  ghost predicate MeetingHour(sections: seq<SemesterSection>, a: SemesterSection, b: SemesterSection, h: Slot) {
    TeacherFree(sections, a, h) && TeacherFree(sections, b, h) && FirstClear(a, h) && FirstClear(b, h)
  }

  ghost predicate PlanOn(sections: seq<SemesterSection>, onlyUnscheduled: bool, collate: (string, string) -> bool,
                         grid: GridConfig, input: Input, plan: seq<Placed>)
    requires grid.SlotLength() > 0
  {
    FromSemester(input, sections, onlyUnscheduled) && input.grid == grid && plan in Plans(input, collate)
  }

  // ---- what a plan shows of free hours -------------------------------------------------------

  lemma HourTaken(grid: GridConfig, p: Problem, sections: seq<SemesterSection>, s: SemesterSection, c: Placed, rest: seq<Placed>)
    requires grid.SlotLength() > 0 && p.slots == GridOf(grid)
    requires c in Choices(p, SectionOf(s)) && Admissible(p, c, Fixed(sections) + rest)
    ensures Usable(grid, c.slot) && TeacherFree(sections, s, c.slot)
  {
    ChoiceFields(p, SectionOf(s), c);
    var seed := Fixed(sections);
    if Present(s.instructor) {
      forall x, k: nat | x in sections && x.instructor == s.instructor && k < |x.slots| ensures !Overlap(c.slot, x.slots[k]) {
        FixedHas(sections, x, k);
        var i :| 0 <= i < |seed| && seed[i] == FixedAt(x, k);
        assert (seed + rest)[i] == FixedAt(x, k);
        assert !Collide(c, (seed + rest)[i]);
      }
    }
  }

  lemma GroupSaysClear(p: Problem, sections: seq<SemesterSection>, s: SemesterSection, c: Placed, rest: seq<Placed>)
    requires DistinctSections(sections) && s in sections && c.sectionId != s.id
    requires ShareGroup(p.groups, c.sectionId, s.id) && Admissible(p, c, Fixed(sections) + rest)
    ensures FirstClear(s, c.slot)
  {
    if s.slots != [] {
      FirstFixed(sections, s);
      FirstOfConcat(Fixed(sections), rest, s.id);
      var g :| 0 <= g < |p.groups| && c.sectionId in p.groups[g] && s.id in p.groups[g];
      var k :| 0 <= k < |p.groups[g]| && p.groups[g][k] == s.id;
      assert !FirstOverlaps(c.slot, Fixed(sections) + rest, p.groups[g][k]);
    }
  }

  /** Two placements of a plan that overlap do so at a free hour of the grid. */
  lemma TailMeets(grid: GridConfig, p: Problem, sections: seq<SemesterSection>, ordering: seq<Section>, tail: seq<Placed>,
                  a: SemesterSection, b: SemesterSection)
    requires grid.SlotLength() > 0 && p.slots == GridOf(grid) && DistinctSections(sections)
    requires Follows(p, ordering, tail) && DistinctIds(ordering) && a.id != b.id && a in sections && b in sections
    requires SectionOf(a) in ordering && SectionOf(b) in ordering && ShareGroup(p.groups, a.id, b.id)
    requires forall i :: 0 <= i < |tail| ==> Admissible(p, tail[i], Fixed(sections) + tail[..i])
    ensures var t := TableOf(tail);
            a.id in t && b.id in t
            && (Overlap(t[a.id].slot, t[b.id].slot) ==>
                  Usable(grid, t[a.id].slot) && MeetingHour(sections, a, b, t[a.id].slot))
  {
    FollowsNamed(p, ordering, tail);
    var i := PlaceOf(ordering, tail, SectionOf(a));
    var j := PlaceOf(ordering, tail, SectionOf(b));
    HourTaken(grid, p, sections, a, tail[i], tail[..i]);
    HourTaken(grid, p, sections, b, tail[j], tail[..j]);
    GroupSaysClear(p, sections, b, tail[i], tail[..i]);
    GroupSaysClear(p, sections, a, tail[j], tail[..j]);
    if Overlap(tail[i].slot, tail[j].slot) { SameHour(grid, tail[i].slot, tail[j].slot); }
  }

  /** In a plan of any semester on any grid, two sections with a common student meet only at a
      free hour of the grid, and never when they are kept apart. */
  lemma MeetingNeeds(sections: seq<SemesterSection>, onlyUnscheduled: bool, collate: (string, string) -> bool,
                     grid: GridConfig, input: Input, plan: seq<Placed>, a: SemesterSection, b: SemesterSection, student: string)
    requires grid.SlotLength() > 0 && DistinctSections(sections) && PlanOn(sections, onlyUnscheduled, collate, grid, input, plan)
    requires a in ToSchedule(sections, onlyUnscheduled) && b in ToSchedule(sections, onlyUnscheduled) && a.id != b.id
    requires student in a.students && student in b.students
    ensures ApartIn(TimetableOf(input.Seed(), plan), a, b)
            || (!KeptApart(a, b) && exists h :: Usable(grid, h) && MeetingHour(sections, a, b, h))
  {
    if KeptApart(a, b) {
      StudentsApart(sections, onlyUnscheduled, input, collate, plan, a, b, student);
    } else {
      ChosenSections(sections, onlyUnscheduled, a);
      ChosenSections(sections, onlyUnscheduled, b);
      ToScheduleExact(sections, onlyUnscheduled);
      StudentsPaired(ToSchedule(sections, onlyUnscheduled), a, b, student);
      var ordering, tail := PlanShape(input, collate, plan);
      DistinctIdsPermute(input.sections, ordering);
      SameMembers(ordering, input.sections);
      assert plan[|input.Seed()|..] == tail;
      TailMeets(grid, input.Problem(), sections, ordering, tail, a, b);
    }
  }

  // ---- the placement is among the plans -----------------------------------------------------

  function Found(p: Problem, orderings: seq<seq<Section>>, seed: seq<Placed>): nat {
    if orderings == [] then 0
    else Found(p, orderings[..|orderings| - 1], seed) + |Extensions(p, orderings[|orderings| - 1], seed)|
  }

  /** A cap that is high enough cuts nothing off. */
  lemma {:induction false} NothingCut(p: Problem, orderings: seq<seq<Section>>, seed: seq<Placed>, max: nat)
    requires max >= Found(p, orderings, seed)
    ensures |Solutions(p, orderings, seed, max)| == Found(p, orderings, seed)
    ensures forall o, sol :: o in orderings && sol in Extensions(p, o, seed) ==> sol in Solutions(p, orderings, seed, max)
  {
    if orderings != [] {
      var front, last := orderings[..|orderings| - 1], orderings[|orderings| - 1];
      NothingCut(p, front, seed, max);
      Uncapped(Solutions(p, front, seed, max), Extensions(p, last, seed), max);
      assert orderings == front + [last];
    }
  }

  lemma Uncapped<T>(base: seq<T>, more: seq<T>, max: nat)
    requires |base| + |more| <= max
    ensures Capped(base, more, max) == base + more
  {
  }

  /** The new part of a key. */
  lemma KeyTail(sections: seq<Section>, ordering: seq<Section>, seed: seq<Placed>, tail: seq<Placed>)
    requires multiset(ordering) == multiset(sections) && Named(ordering, tail)
    ensures Key(sections, seed + tail) == multiset(Parts(Scheduled(sections, seed))) + multiset(Parts(tail))
  {
    SameMembers(ordering, sections);
    forall c | c in tail ensures Includes(sections, c.sectionId) {
      var i :| 0 <= i < |tail| && tail[i] == c;
      assert ordering[i] in sections;
      var j :| 0 <= j < |sections| && sections[j] == ordering[i];
    }
    ScheduledConcat(sections, seed, tail);
    ScheduledAll(sections, tail);
    PartsConcat(Scheduled(sections, seed), tail);
  }

  lemma PartsConcat(a: seq<Placed>, b: seq<Placed>)
    ensures multiset(Parts(a + b)) == multiset(Parts(a)) + multiset(Parts(b))
  {
    assert Parts(a + b) == Parts(a) + Parts(b);
  }

  lemma SameAddend<T>(a: multiset<T>, b: multiset<T>, c: multiset<T>)
    requires a + b == a + c
    ensures b == c
  {
    assert b == (a + b) - a;
  }

  lemma SameParts(sections: seq<Section>, seed: seq<Placed>, o: seq<Section>, tail: seq<Placed>,
                  o': seq<Section>, tail': seq<Placed>)
    requires multiset(o) == multiset(sections) && Named(o, tail)
    requires multiset(o') == multiset(sections) && Named(o', tail')
    requires Key(sections, seed + tail) == Key(sections, seed + tail')
    ensures multiset(Parts(tail)) == multiset(Parts(tail'))
  {
    KeyTail(sections, o, seed, tail);
    KeyTail(sections, o', seed, tail');
    SameAddend(multiset(Parts(Scheduled(sections, seed))), multiset(Parts(tail)), multiset(Parts(tail')));
  }

  /** With the same key, a section stands at the same start of the same day. */
  lemma SamePlace(sections: seq<Section>, seed: seq<Placed>, o: seq<Section>, tail: seq<Placed>, i: nat,
                  o': seq<Section>, tail': seq<Placed>)
    requires multiset(o) == multiset(sections) && Named(o, tail) && i < |tail|
    requires multiset(o') == multiset(sections) && Named(o', tail') && Separate(tail')
    requires Key(sections, seed + tail) == Key(sections, seed + tail')
    ensures o[i].id in TableOf(tail')
    ensures var c := TableOf(tail')[o[i].id]; c in tail' && c.slot.day == tail[i].slot.day && c.slot.start == tail[i].slot.start
  {
    SameParts(sections, seed, o, tail, o', tail');
    SameMembers(Parts(tail), Parts(tail'));
    assert Parts(tail)[i] == Part(tail[i]);
    assert Part(tail[i]) in Parts(tail');
    var k :| 0 <= k < |tail'| && Parts(tail')[k] == Part(tail[i]);
    TableOfAt(tail');
    assert tail'[k] in tail';
  }

  lemma FirstTwo(collate: (string, string) -> bool, sections: seq<Section>)
    ensures var sorted := Prioritised(sections);
            && sorted in Orderings(collate, sections) && Reversed(sorted) in Orderings(collate, sections)
            && multiset(sorted) == multiset(sections) && multiset(Reversed(sorted)) == multiset(sections)
  {
    var sorted := Prioritised(sections);
    assert Orderings(collate, sections)[0] == sorted && Orderings(collate, sections)[1] == Reversed(sorted);
    OrderingsPermute(collate, sections);
  }

  /** A list or its reverse has x before y. */
  lemma BeforeOneWay<T>(s: seq<T>, x: T, y: T) returns (o: seq<T>, ix: nat, iy: nat)
    requires x in s && y in s && x != y
    ensures (o == s || o == Reversed(s)) && ix < iy < |o| && o[ix] == x && o[iy] == y
  {
    o := s;
    ix :| 0 <= ix < |s| && s[ix] == x;
    iy :| 0 <= iy < |s| && s[iy] == y;
    if iy < ix {
      ReversedAt(s, |s| - 1 - ix);
      ReversedAt(s, |s| - 1 - iy);
      o, ix, iy := Reversed(s), |s| - 1 - ix, |s| - 1 - iy;
    }
  }

  /** One of the orderings has x before y. */
  lemma OneComesFirst(collate: (string, string) -> bool, sections: seq<Section>, x: Section, y: Section)
    returns (o: seq<Section>, ix: nat, iy: nat)
    requires x in sections && y in sections && x != y
    ensures o in Orderings(collate, sections) && multiset(o) == multiset(sections)
    ensures ix < iy < |o| && o[ix] == x && o[iy] == y
  {
    FirstTwo(collate, sections);
    SameMembers(Prioritised(sections), sections);
    o, ix, iy := BeforeOneWay(Prioritised(sections), x, y);
  }

  // ---- rooms that nothing else uses ----------------------------------------------------------

  /** A room no fixed placement is in. */
  lemma {:induction false} NewRoom(placed: seq<Placed>) returns (room: string)
    ensures room != "" && forall c :: c in placed ==> |c.roomId| < |room|
  {
    room := "r";
    if placed != [] {
      var front, last := placed[..|placed| - 1], placed[|placed| - 1];
      room := NewRoom(front);
      if |last.roomId| >= |room| { room := last.roomId + "r"; }
    }
  }

  function Twice(room: string): string { room + room }

  /** Two new rooms for everybody, on a grid of one's choice. */
  function Offer(sections: seq<SemesterSection>, onlyUnscheduled: bool, grid: GridConfig, room: string, most: nat, max: nat): Input {
    SemesterInput(sections, onlyUnscheduled, [Room(room, most), Room(Twice(room), most)], map[], grid, Some(max))
  }

  ghost predicate Furnished(p: Problem, seed: seq<Placed>, room: string, most: nat) {
    && p.availability == map[] && room != Twice(room)
    && p.rooms == RoomTable([room, Twice(room)], map[room := most, Twice(room) := most])
    && forall c :: c in seed ==> c.roomId != room && c.roomId != Twice(room)
  }

  lemma OfferFurnished(sections: seq<SemesterSection>, onlyUnscheduled: bool, grid: GridConfig, room: string, most: nat, max: nat)
    requires grid.SlotLength() > 0 && room != "" && forall c :: c in Fixed(sections) ==> |c.roomId| < |room|
    ensures Furnished(Offer(sections, onlyUnscheduled, grid, room, most, max).Problem(), Fixed(sections), room, most)
  {
    assert |Twice(room)| == 2 * |room|;
    TwoRoomsOf(room, Twice(room), most);
  }

  lemma TwoRoomsOf(r: string, q: string, most: nat)
    requires r != q
    ensures RoomsOf([Room(r, most), Room(q, most)]) == RoomTable([r, q], map[r := most, q := most])
  {
    var rooms := [Room(r, most), Room(q, most)];
    assert rooms[..1] == [Room(r, most)] && rooms[..1][..0] == [];
    assert RoomsOf(rooms[..1]) == RoomsOf([]).Put(Room(r, most)) == RoomTable([r], map[r := most]);
    assert RoomsOf(rooms) == RoomTable([r], map[r := most]).Put(Room(q, most));
  }

  /** The placement of a section at a usable hour in one of the new rooms. */
  function Lesson(s: SemesterSection, roomId: string, h: Slot): Placed {
    Placed(s.id, s.courseCode, roomId, s.instructor, h, |s.students|)
  }

  lemma LessonIsChoice(grid: GridConfig, p: Problem, seed: seq<Placed>, room: string, most: nat,
                       s: SemesterSection, roomId: string, h: Slot)
    requires grid.SlotLength() > 0 && p.slots == GridOf(grid) && Usable(grid, h) && Furnished(p, seed, room, most)
    requires roomId in p.rooms.order && |s.students| <= most
    ensures Lesson(s, roomId, h) in Choices(p, SectionOf(s))
  {
    var slot :| slot in GridOf(grid) && slot.end - slot.start >= DEFAULT_DURATION && h == HourOf(slot);
    RoomHolds(p, seed, room, most, roomId);
    NobodyAway(p, s, slot);
    LessonAt(p, s, roomId, slot);
  }

  lemma NobodyAway(p: Problem, s: SemesterSection, slot: Slot)
    requires p.availability == map[] && slot.end - slot.start >= DEFAULT_DURATION
    ensures CanUse(p, SectionOf(s), slot)
  {
  }

  lemma LessonAt(p: Problem, s: SemesterSection, roomId: string, slot: Slot)
    requires roomId in p.rooms.order && p.rooms.CapacityOr(roomId, -1) >= |s.students|
    requires slot in p.slots && CanUse(p, SectionOf(s), slot)
    ensures Lesson(s, roomId, HourOf(slot)) in Choices(p, SectionOf(s))
  {
    RoomIsChoice(p, SectionOf(s), roomId, slot);
    assert Lesson(s, roomId, HourOf(slot)) == Candidate(SectionOf(s), roomId, slot);
  }

  lemma RoomIsChoice(p: Problem, s: Section, roomId: string, slot: Slot)
    requires IsChoice(p, s, roomId, slot)
    ensures Candidate(s, roomId, slot) in Choices(p, s)
  {
    ChoicesExact(p, s, Candidate(s, roomId, slot));
  }

  lemma RoomHolds(p: Problem, seed: seq<Placed>, room: string, most: nat, roomId: string)
    requires Furnished(p, seed, room, most) && roomId in p.rooms.order
    ensures p.rooms.CapacityOr(roomId, -1) == most && p.rooms.CapacityOr(roomId, 0) == most
    ensures forall c :: c in seed ==> c.roomId != roomId
  {
  }

  /** Nothing fixed is in the way of it. */
  lemma LessonNoClash(p: Problem, sections: seq<SemesterSection>, room: string, most: nat,
                      s: SemesterSection, roomId: string, h: Slot)
    requires Furnished(p, Fixed(sections), room, most) && roomId in p.rooms.order && |s.students| <= most
    requires TeacherFree(sections, s, h)
    ensures !HardClash(Lesson(s, roomId, h), Fixed(sections), p.rooms)
  {
    var seed := Fixed(sections);
    forall i | 0 <= i < |seed| ensures !Collide(Lesson(s, roomId, h), seed[i]) {
      assert seed[i] in seed;
      var x, k := FixedFrom(sections, seed[i]);
    }
  }

  // ---- a section alone ---------------------------------------------------------------------

  lemma AloneAdmissible(p: Problem, sections: seq<SemesterSection>, room: string, most: nat, b: SemesterSection, h: Slot)
    requires Furnished(p, Fixed(sections), room, most) && |b.students| <= most && TeacherFree(sections, b, h) && p.groups == []
    ensures Admissible(p, Lesson(b, room, h), Fixed(sections))
  {
    assert p.rooms.order[0] == room;
    LessonNoClash(p, sections, room, most, b, room, h);
  }

  lemma HourLong(p: Problem, ordering: seq<Section>, tail: seq<Placed>, c: Placed)
    requires Follows(p, ordering, tail) && c in tail && forall s :: s in ordering ==> s.durationMinutes == None
    ensures c.slot.end == c.slot.start + 60
  {
    var i :| 0 <= i < |tail| && tail[i] == c;
    assert ordering[i] in ordering;
    ChoiceFields(p, ordering[i], c);
  }

  /** Every solution has a plan with its key when the cap cuts nothing off. */
  lemma KeyKept(input: Input, collate: (string, string) -> bool, o: seq<Section>, sol: seq<Placed>) returns (plan: seq<Placed>)
    requires input.grid.SlotLength() > 0 && o in Orderings(collate, input.sections)
    requires sol in Extensions(input.Problem(), o, input.Seed())
    requires input.Max() >= Found(input.Problem(), Orderings(collate, input.sections), input.Seed())
    ensures plan in Plans(input, collate) && Key(input.sections, plan) == Key(input.sections, sol)
  {
    var orderings := Orderings(collate, input.sections);
    NothingCut(input.Problem(), orderings, input.Seed(), input.Max());
    var sols := Solutions(input.Problem(), orderings, input.Seed(), input.Max());
    DedupeExact(input.sections, sols);
    assert Key(input.sections, sol) in KeysOf(input.sections, sols);
    plan :| plan in Plans(input, collate) && Key(input.sections, plan) == Key(input.sections, sol);
  }

  lemma DefaultHours(sections: seq<SemesterSection>)
    ensures forall s :: s in SectionsOf(sections) ==> s.durationMinutes == None
  {
  }

  /** A plan with the key of a solution has every section where the solution has it. */
  lemma PlaceAgain(input: Input, collate: (string, string) -> bool, plan: seq<Placed>, o: seq<Section>, tail: seq<Placed>, i: nat)
    requires input.grid.SlotLength() > 0 && plan in Plans(input, collate) && DistinctIds(input.sections)
    requires forall s :: s in input.sections ==> s.durationMinutes == None
    requires multiset(o) == multiset(input.sections) && Follows(input.Problem(), o, tail) && i < |tail|
    requires Key(input.sections, plan) == Key(input.sections, input.Seed() + tail)
    ensures var t := TimetableOf(input.Seed(), plan); o[i].id in t && t[o[i].id].slot == tail[i].slot
  {
    var o', tail' := PlanShape(input, collate, plan);
    assert plan[|input.Seed()|..] == tail';
    SameHourAgain(input.Problem(), input.sections, input.Seed(), o, tail, i, o', tail');
  }

  lemma SameHourAgain(p: Problem, sections: seq<Section>, seed: seq<Placed>, o: seq<Section>, tail: seq<Placed>, i: nat,
                      o': seq<Section>, tail': seq<Placed>)
    requires DistinctIds(sections) && forall s :: s in sections ==> s.durationMinutes == None
    requires multiset(o) == multiset(sections) && Follows(p, o, tail) && i < |tail|
    requires multiset(o') == multiset(sections) && Follows(p, o', tail')
    requires Key(sections, seed + tail) == Key(sections, seed + tail')
    ensures o[i].id in TableOf(tail') && TableOf(tail')[o[i].id].slot == tail[i].slot
  {
    DistinctIdsPermute(sections, o');
    DistinctIdsPermute(sections, o);
    SameMembers(o', sections);
    SameMembers(o, sections);
    FollowsNamed(p, o', tail');
    FollowsNamed(p, o, tail);
    SamePlace(sections, seed, o, tail, i, o', tail');
    HourLong(p, o', tail', TableOf(tail')[o[i].id]);
    HourLong(p, o, tail, tail[i]);
  }

  lemma NoPairs(chosen: seq<SemesterSection>)
    requires |chosen| == 1
    ensures OverlapGroups(RostersOf(chosen), |RostersOf(chosen)|) == []
  {
    var rosters := RostersOf(chosen);
    assert |rosters| == 1 && PairsOf(rosters, 0, 1) == [];
    assert OverlapGroups(rosters, 0) == [];
    assert OverlapGroups(rosters, 1) == OverlapGroups(rosters, 0) + PairsOf(rosters, 0, 1);
  }

  /** New rooms, the given grid, and a cap that cuts nothing off. */
  lemma OfferFor(sections: seq<SemesterSection>, onlyUnscheduled: bool, collate: (string, string) -> bool, grid: GridConfig,
                 most: nat)
    returns (input: Input, room: string)
    requires grid.SlotLength() > 0
    ensures FromSemester(input, sections, onlyUnscheduled) && input.grid == grid
    ensures Furnished(input.Problem(), Fixed(sections), room, most)
    ensures input.Max() >= Found(input.Problem(), Orderings(collate, input.sections), input.Seed())
  {
    room := NewRoom(Fixed(sections));
    var first := Offer(sections, onlyUnscheduled, grid, room, most, 0);
    var max := Found(first.Problem(), Orderings(collate, first.sections), first.Seed());
    input := Offer(sections, onlyUnscheduled, grid, room, most, max);
    OfferFurnished(sections, onlyUnscheduled, grid, room, most, max);
    assert input.Problem() == first.Problem();
  }

  /** A solution with its sections at given places has a plan with them there. */
  lemma PlanOf(input: Input, collate: (string, string) -> bool, o: seq<Section>, tail: seq<Placed>) returns (plan: seq<Placed>)
    requires input.grid.SlotLength() > 0 && DistinctIds(input.sections)
    requires forall s :: s in input.sections ==> s.durationMinutes == None
    requires o in Orderings(collate, input.sections) && multiset(o) == multiset(input.sections)
    requires Follows(input.Problem(), o, tail) && input.Seed() + tail in Extensions(input.Problem(), o, input.Seed())
    requires input.Max() >= Found(input.Problem(), Orderings(collate, input.sections), input.Seed())
    ensures plan in Plans(input, collate)
    ensures var t := TimetableOf(input.Seed(), plan);
            forall i :: 0 <= i < |tail| ==> o[i].id in t && t[o[i].id].slot == tail[i].slot
  {
    plan := KeyKept(input, collate, o, input.Seed() + tail);
    forall i: nat | i < |tail|
      ensures o[i].id in TimetableOf(input.Seed(), plan) && TimetableOf(input.Seed(), plan)[o[i].id].slot == tail[i].slot
    {
      PlaceAgain(input, collate, plan, o, tail, i);
    }
  }

  /** A section to be scheduled alone can have every usable hour its teacher has free. */
  lemma AloneOn(sections: seq<SemesterSection>, onlyUnscheduled: bool, collate: (string, string) -> bool, grid: GridConfig,
                b: SemesterSection, h: Slot)
    returns (input: Input, plan: seq<Placed>)
    requires grid.SlotLength() > 0 && DistinctSections(sections) && ToSchedule(sections, onlyUnscheduled) == [b]
    requires Usable(grid, h) && TeacherFree(sections, b, h)
    ensures PlanOn(sections, onlyUnscheduled, collate, grid, input, plan)
    ensures var t := TimetableOf(input.Seed(), plan); b.id in t && t[b.id].slot == h
  {
    var s, room := SectionOf(b), "";
    input, room := OfferFor(sections, onlyUnscheduled, collate, grid, |b.students|);
    NoPairs([b]);
    DefaultHours([b]);
    assert input.sections == [s];
    AloneLesson(grid, input.Problem(), sections, room, b, h);
    OneSectionFirst(collate, s);
    OneDistinct(s);
    plan := PlanOf(input, collate, [s], [Lesson(b, room, h)]);
    OneAt(TimetableOf(input.Seed(), plan), s, Lesson(b, room, h));
  }

  lemma OneDistinct(s: Section)
    ensures DistinctIds([s])
  {
  }

  lemma OneAt(t: Table, s: Section, c: Placed)
    requires forall i :: 0 <= i < 1 ==> [s][i].id in t && t[[s][i].id].slot == [c][i].slot
    ensures s.id in t && t[s.id].slot == c.slot
  {
    assert [s][0] == s && [c][0] == c;
  }

  lemma AloneChoice(grid: GridConfig, p: Problem, sections: seq<SemesterSection>, room: string, b: SemesterSection, h: Slot)
    requires grid.SlotLength() > 0 && p.slots == GridOf(grid) && Usable(grid, h)
    requires Furnished(p, Fixed(sections), room, |b.students|) && TeacherFree(sections, b, h) && p.groups == []
    ensures Lesson(b, room, h) in Choices(p, SectionOf(b)) && Admissible(p, Lesson(b, room, h), Fixed(sections))
  {
    assert p.rooms.order[0] == room;
    LessonIsChoice(grid, p, Fixed(sections), room, |b.students|, b, room, h);
    AloneAdmissible(p, sections, room, |b.students|, b, h);
  }

  lemma AloneLesson(grid: GridConfig, p: Problem, sections: seq<SemesterSection>, room: string, b: SemesterSection, h: Slot)
    requires grid.SlotLength() > 0 && p.slots == GridOf(grid) && Usable(grid, h)
    requires Furnished(p, Fixed(sections), room, |b.students|) && TeacherFree(sections, b, h) && p.groups == []
    ensures var tail := [Lesson(b, room, h)];
            Follows(p, [SectionOf(b)], tail) && Fixed(sections) + tail in Extensions(p, [SectionOf(b)], Fixed(sections))
  {
    AloneChoice(grid, p, sections, room, b, h);
    AloneFeasible(p, SectionOf(b), Fixed(sections), Lesson(b, room, h));
  }

  lemma OneSectionFirst(collate: (string, string) -> bool, s: Section)
    ensures [s] in Orderings(collate, [s])
  {
    FirstTwo(collate, [s]);
    SameMembers(Prioritised([s]), [s]);
    assert Prioritised([s])[0] in [s];
    assert Prioritised([s]) == [s];
  }

  lemma AloneFeasible(p: Problem, s: Section, seed: seq<Placed>, c: Placed)
    requires c in Choices(p, s) && Admissible(p, c, seed)
    ensures Follows(p, [s], [c]) && seed + [c] in Extensions(p, [s], seed)
  {
    assert seed + [c][..0] == seed;
    FeasibleSteps(p, [s], seed, [c]);
    ExtensionsExact(p, [s], seed, seed + [c]);
  }

  // ---- two sections at one hour --------------------------------------------------------------

  ghost predicate OnlyTwo(sections: seq<SemesterSection>, x: SemesterSection, y: SemesterSection) {
    && x in sections && y in sections && x.id != y.id && x.slots != []
    && forall s :: s in sections ==> s == x || s == y
  }

  /** Of the fixed placements the group check sees only first slots, and they are clear. */
  lemma FixedGroupClear(sections: seq<SemesterSection>, s: SemesterSection, h: Slot, id: string)
    requires DistinctSections(sections)
    requires forall other :: other in sections && other.id != s.id ==> FirstClear(other, h)
    requires id != s.id
    ensures !FirstOverlaps(h, Fixed(sections), id)
  {
    var found := First(Fixed(sections), id);
    if found.Some? {
      var other, k := FixedFrom(sections, found.value);
      FirstFixed(sections, other);
    }
  }

  lemma FirstLesson(p: Problem, sections: seq<SemesterSection>, room: string, most: nat, x: SemesterSection, y: SemesterSection, h: Slot)
    requires DistinctSections(sections) && OnlyTwo(sections, x, y) && MeetingHour(sections, x, y, h)
    requires Furnished(p, Fixed(sections), room, most) && |x.students| <= most
    ensures Admissible(p, Lesson(x, room, h), Fixed(sections))
  {
    assert p.rooms.order[0] == room;
    LessonNoClash(p, sections, room, most, x, room, h);
    forall id | id != x.id ensures !FirstOverlaps(h, Fixed(sections), id) { FixedGroupClear(sections, x, h, id); }
  }

  lemma SecondGroupClear(sections: seq<SemesterSection>, x: SemesterSection, y: SemesterSection, lesson: Placed, h: Slot, id: string)
    requires DistinctSections(sections) && OnlyTwo(sections, x, y) && MeetingHour(sections, x, y, h)
    requires lesson.sectionId == x.id && id != y.id
    ensures !FirstOverlaps(h, Fixed(sections) + [lesson], id)
  {
    FixedGroupClear(sections, y, h, id);
    FirstOfConcat(Fixed(sections), [lesson], id);
    FirstFixed(sections, x);
  }

  lemma SecondLesson(p: Problem, sections: seq<SemesterSection>, room: string, most: nat, x: SemesterSection, y: SemesterSection, h: Slot)
    requires DistinctSections(sections) && OnlyTwo(sections, x, y) && MeetingHour(sections, x, y, h)
    requires !(Present(x.instructor) && x.instructor == y.instructor)
    requires Furnished(p, Fixed(sections), room, most) && |y.students| <= most
    ensures Admissible(p, Lesson(y, Twice(room), h), Fixed(sections) + [Lesson(x, room, h)])
  {
    var lesson, c := Lesson(x, room, h), Lesson(y, Twice(room), h);
    assert p.rooms.order[1] == Twice(room);
    LessonNoClash(p, sections, room, most, y, Twice(room), h);
    CollideSplit(c, Fixed(sections), [lesson], p.rooms);
    forall id | id != y.id ensures !FirstOverlaps(h, Fixed(sections) + [lesson], id) {
      SecondGroupClear(sections, x, y, lesson, h, id);
    }
  }

  lemma TwoFeasible(p: Problem, s: Section, r: Section, seed: seq<Placed>, c: Placed, d: Placed)
    requires c in Choices(p, s) && d in Choices(p, r) && Admissible(p, c, seed) && Admissible(p, d, seed + [c])
    ensures Follows(p, [s, r], [c, d]) && seed + [c, d] in Extensions(p, [s, r], seed)
  {
    assert [c, d][..0] == [] && [c, d][..1] == [c] && seed + [] == seed;
    FeasibleSteps(p, [s, r], seed, [c, d]);
    ExtensionsExact(p, [s, r], seed, seed + [c, d]);
  }

  lemma BothLessons(grid: GridConfig, p: Problem, sections: seq<SemesterSection>, room: string, most: nat,
                    x: SemesterSection, y: SemesterSection, h: Slot)
    requires grid.SlotLength() > 0 && p.slots == GridOf(grid) && Usable(grid, h)
    requires DistinctSections(sections) && OnlyTwo(sections, x, y) && MeetingHour(sections, x, y, h)
    requires !(Present(x.instructor) && x.instructor == y.instructor)
    requires Furnished(p, Fixed(sections), room, most) && |x.students| <= most && |y.students| <= most
    ensures var tail := [Lesson(x, room, h), Lesson(y, Twice(room), h)];
            Follows(p, [SectionOf(x), SectionOf(y)], tail)
            && Fixed(sections) + tail in Extensions(p, [SectionOf(x), SectionOf(y)], Fixed(sections))
  {
    assert p.rooms.order[0] == room && p.rooms.order[1] == Twice(room);
    LessonIsChoice(grid, p, Fixed(sections), room, most, x, room, h);
    LessonIsChoice(grid, p, Fixed(sections), room, most, y, Twice(room), h);
    FirstLesson(p, sections, room, most, x, y, h);
    SecondLesson(p, sections, room, most, x, y, h);
    TwoFeasible(p, SectionOf(x), SectionOf(y), Fixed(sections), Lesson(x, room, h), Lesson(y, Twice(room), h));
  }

  lemma TwoMembers<T>(s: seq<T>, x: T, y: T, z: T)
    requires |s| == 2 && x in s && y in s && z in s && x != y
    ensures z == x || z == y
  {
  }

  /** When one of two to be scheduled is placed already, both are all there is. */
  lemma OnlyTheTwo(sections: seq<SemesterSection>, onlyUnscheduled: bool, x: SemesterSection, y: SemesterSection)
    requires |ToSchedule(sections, onlyUnscheduled)| == 2 && x.id != y.id && x.slots != []
    requires x in ToSchedule(sections, onlyUnscheduled) && y in ToSchedule(sections, onlyUnscheduled)
    ensures OnlyTwo(sections, x, y)
  {
    ToScheduleExact(sections, onlyUnscheduled);
    forall s | s in sections ensures s == x || s == y {
      TwoMembers(ToSchedule(sections, onlyUnscheduled), x, y, s);
    }
  }

  /** Two sections to be scheduled, x of them placed already, can be put at any free hour. */
  lemma MeetOn(sections: seq<SemesterSection>, onlyUnscheduled: bool, collate: (string, string) -> bool, grid: GridConfig,
               x: SemesterSection, y: SemesterSection, h: Slot)
    returns (input: Input, plan: seq<Placed>)
    requires grid.SlotLength() > 0 && DistinctSections(sections) && |ToSchedule(sections, onlyUnscheduled)| == 2
    requires x in ToSchedule(sections, onlyUnscheduled) && y in ToSchedule(sections, onlyUnscheduled) && x.id != y.id
    requires x.slots != [] && !(Present(x.instructor) && x.instructor == y.instructor)
    requires Usable(grid, h) && MeetingHour(sections, x, y, h)
    ensures PlanOn(sections, onlyUnscheduled, collate, grid, input, plan)
    ensures var t := TimetableOf(input.Seed(), plan); x.id in t && y.id in t && t[x.id].slot == t[y.id].slot == h
  {
    var most := |x.students| + |y.students|;
    var chosen := SectionsOf(ToSchedule(sections, onlyUnscheduled));
    ChosenSections(sections, onlyUnscheduled, x);
    ChosenSections(sections, onlyUnscheduled, y);
    OnlyTheTwo(sections, onlyUnscheduled, x, y);
    DefaultHours(ToSchedule(sections, onlyUnscheduled));
    var room;
    input, room := OfferFor(sections, onlyUnscheduled, collate, grid, most);
    TwoInOrder(collate, chosen, SectionOf(x), SectionOf(y));
    BothLessons(grid, input.Problem(), sections, room, most, x, y, h);
    plan := PlanOf(input, collate, [SectionOf(x), SectionOf(y)], [Lesson(x, room, h), Lesson(y, Twice(room), h)]);
    BothAt(TimetableOf(input.Seed(), plan), SectionOf(x), SectionOf(y), Lesson(x, room, h), Lesson(y, Twice(room), h));
  }

  lemma BothAt(t: Table, s: Section, r: Section, c: Placed, d: Placed)
    requires forall i :: 0 <= i < 2 ==> [s, r][i].id in t && t[[s, r][i].id].slot == [c, d][i].slot
    ensures s.id in t && r.id in t && t[s.id].slot == c.slot && t[r.id].slot == d.slot
  {
    assert [s, r][0] == s && [s, r][1] == r && [c, d][0] == c && [c, d][1] == d;
  }

  lemma TwoInOrder(collate: (string, string) -> bool, chosen: seq<Section>, x: Section, y: Section)
    requires |chosen| == 2 && x in chosen && y in chosen && x != y
    ensures [x, y] in Orderings(collate, chosen) && multiset([x, y]) == multiset(chosen)
  {
    var o, ix, iy := OneComesFirst(collate, chosen, x, y);
    SameMembers(o, chosen);
    PairOf(o, ix, iy);
  }

  lemma PairOf<T>(o: seq<T>, i: nat, j: nat)
    requires |o| == 2 && i < j < 2
    ensures o == [o[i], o[j]]
  {
  }

  // ---- the exact conditions ----------------------------------------------------------------

  /** In every plan on the grid, whatever the rooms, the availability and the number of options. */
  ghost predicate ApartOn(sections: seq<SemesterSection>, onlyUnscheduled: bool, collate: (string, string) -> bool,
                          grid: GridConfig, a: SemesterSection, b: SemesterSection)
    requires grid.SlotLength() > 0
  {
    forall input: Input, plan :: PlanOn(sections, onlyUnscheduled, collate, grid, input, plan) ==>
      ApartIn(TimetableOf(input.Seed(), plan), a, b)
  }

  ghost predicate NoMeetingOn(sections: seq<SemesterSection>, grid: GridConfig, a: SemesterSection, b: SemesterSection)
    requires grid.SlotLength() > 0
  {
    forall h :: Usable(grid, h) ==> !MeetingHour(sections, a, b, h)
  }

  /** In any semester, however many its sections. */
  lemma SafeOn(sections: seq<SemesterSection>, onlyUnscheduled: bool, collate: (string, string) -> bool, grid: GridConfig,
               a: SemesterSection, b: SemesterSection, student: string)
    requires grid.SlotLength() > 0 && DistinctSections(sections)
    requires a in ToSchedule(sections, onlyUnscheduled) && b in ToSchedule(sections, onlyUnscheduled) && a.id != b.id
    requires student in a.students && student in b.students && (KeptApart(a, b) || NoMeetingOn(sections, grid, a, b))
    ensures ApartOn(sections, onlyUnscheduled, collate, grid, a, b)
  {
    forall input: Input, plan | PlanOn(sections, onlyUnscheduled, collate, grid, input, plan)
      ensures ApartIn(TimetableOf(input.Seed(), plan), a, b)
    {
      MeetingNeeds(sections, onlyUnscheduled, collate, grid, input, plan, a, b, student);
    }
  }

  lemma UnsafeOn(sections: seq<SemesterSection>, onlyUnscheduled: bool, collate: (string, string) -> bool, grid: GridConfig,
                 a: SemesterSection, b: SemesterSection, h: Slot)
    requires grid.SlotLength() > 0 && DistinctSections(sections) && |ToSchedule(sections, onlyUnscheduled)| == 2
    requires a in ToSchedule(sections, onlyUnscheduled) && b in ToSchedule(sections, onlyUnscheduled) && a.id != b.id
    requires !KeptApart(a, b) && Usable(grid, h) && MeetingHour(sections, a, b, h)
    ensures !ApartOn(sections, onlyUnscheduled, collate, grid, a, b)
  {
    var input, plan;
    if a.slots != [] {
      input, plan := MeetOn(sections, onlyUnscheduled, collate, grid, a, b, h);
    } else {
      input, plan := MeetOn(sections, onlyUnscheduled, collate, grid, b, a, h);
    }
    HourMeets(grid, h);
    assert !ApartIn(TimetableOf(input.Seed(), plan), a, b);
  }

  lemma HourMeets(grid: GridConfig, h: Slot)
    requires grid.SlotLength() > 0 && Usable(grid, h)
    ensures Overlap(h, h)
  {
  }

  /** On a given grid, with the two the only sections to schedule. */
  lemma PairOnGrid(sections: seq<SemesterSection>, onlyUnscheduled: bool, collate: (string, string) -> bool, grid: GridConfig,
                   a: SemesterSection, b: SemesterSection, student: string)
    requires grid.SlotLength() > 0 && DistinctSections(sections) && |ToSchedule(sections, onlyUnscheduled)| == 2
    requires a in ToSchedule(sections, onlyUnscheduled) && b in ToSchedule(sections, onlyUnscheduled) && a.id != b.id
    requires student in a.students && student in b.students
    ensures ApartOn(sections, onlyUnscheduled, collate, grid, a, b) <==> KeptApart(a, b) || NoMeetingOn(sections, grid, a, b)
  {
    if KeptApart(a, b) || NoMeetingOn(sections, grid, a, b) {
      SafeOn(sections, onlyUnscheduled, collate, grid, a, b, student);
    } else {
      var h :| Usable(grid, h) && MeetingHour(sections, a, b, h);
      UnsafeOn(sections, onlyUnscheduled, collate, grid, a, b, h);
    }
  }

  /** On every grid the semester call can hand to the engine. */
  ghost predicate AlwaysApart(sections: seq<SemesterSection>, onlyUnscheduled: bool, collate: (string, string) -> bool,
                              a: SemesterSection, b: SemesterSection)
  {
    forall parsed :: ApartOn(sections, onlyUnscheduled, collate, SemesterGrid(parsed), a, b)
  }

  ghost predicate NoMeetingHour(sections: seq<SemesterSection>, a: SemesterSection, b: SemesterSection) {
    forall h :: SchoolHour(h) ==> !MeetingHour(sections, a, b, h)
  }

  lemma SchoolGrid(sections: seq<SemesterSection>, parsed: Parsed, a: SemesterSection, b: SemesterSection)
    requires NoMeetingHour(sections, a, b)
    ensures NoMeetingOn(sections, SemesterGrid(parsed), a, b)
  {
    forall h | Usable(SemesterGrid(parsed), h) ensures !MeetingHour(sections, a, b, h) {
      SemesterUsable(parsed, h);
      SchoolHours(h);
    }
  }

  /** Two sections of any semester whose students are safe: neither has a place already, one
      teacher has to be in both, or no school hour is free for their meeting. */
  lemma StudentsSafe(sections: seq<SemesterSection>, onlyUnscheduled: bool, collate: (string, string) -> bool,
                     a: SemesterSection, b: SemesterSection, student: string)
    requires DistinctSections(sections)
    requires a in ToSchedule(sections, onlyUnscheduled) && b in ToSchedule(sections, onlyUnscheduled) && a.id != b.id
    requires student in a.students && student in b.students && (KeptApart(a, b) || NoMeetingHour(sections, a, b))
    ensures AlwaysApart(sections, onlyUnscheduled, collate, a, b)
  {
    forall parsed ensures ApartOn(sections, onlyUnscheduled, collate, SemesterGrid(parsed), a, b) {
      if !KeptApart(a, b) { SchoolGrid(sections, parsed, a, b); }
      SafeOn(sections, onlyUnscheduled, collate, SemesterGrid(parsed), a, b, student);
    }
  }

  /** With the two the only sections to schedule that condition is exact. */
  lemma PairSafeExactly(sections: seq<SemesterSection>, onlyUnscheduled: bool, collate: (string, string) -> bool,
                        a: SemesterSection, b: SemesterSection, student: string)
    requires DistinctSections(sections) && |ToSchedule(sections, onlyUnscheduled)| == 2
    requires a in ToSchedule(sections, onlyUnscheduled) && b in ToSchedule(sections, onlyUnscheduled) && a.id != b.id
    requires student in a.students && student in b.students
    ensures AlwaysApart(sections, onlyUnscheduled, collate, a, b) <==> KeptApart(a, b) || NoMeetingHour(sections, a, b)
  {
    if KeptApart(a, b) || NoMeetingHour(sections, a, b) {
      StudentsSafe(sections, onlyUnscheduled, collate, a, b, student);
    } else {
      var h :| SchoolHour(h) && MeetingHour(sections, a, b, h);
      var parsed := Parsed({}, Some(h.start), None);
      HourReachable(h);
      SemesterUsable(parsed, h);
      UnsafeOn(sections, onlyUnscheduled, collate, SemesterGrid(parsed), a, b, h);
    }
  }
}
