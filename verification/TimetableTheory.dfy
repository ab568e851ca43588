/** What the backtracking search finds: exactly the feasible placements, the same set of
    timetables for every order of the sections, and each of them once. */
module TimetableTheory {
  import opened Results
  import opened Timetable
  import opened TimetableSearch

  // ---- choices -------------------------------------------------------------------------

  ghost predicate IsChoice(p: Problem, s: Section, roomId: string, slot: Slot) {
    roomId in p.rooms.order && p.rooms.CapacityOr(roomId, -1) >= s.enrollments && slot in p.slots && CanUse(p, s, slot)
  }

  lemma {:induction false} SlotChoicesExact(p: Problem, s: Section, roomId: string, slots: seq<Slot>, c: Placed)
    ensures c in SlotChoices(p, s, roomId, slots) <==>
            exists slot :: slot in slots && CanUse(p, s, slot) && c == Candidate(s, roomId, slot)
  {
    if slots != [] {
      var front, last := slots[..|slots| - 1], slots[|slots| - 1];
      assert slots == front + [last];
      SlotChoicesExact(p, s, roomId, front, c);
    }
  }

  lemma {:induction false} RoomChoicesExact(p: Problem, s: Section, rooms: seq<string>, c: Placed)
    ensures c in RoomChoices(p, s, rooms) <==> c.roomId in rooms && c in SlotChoices(p, s, c.roomId, p.slots)
  {
    if rooms != [] {
      var front, last := rooms[..|rooms| - 1], rooms[|rooms| - 1];
      assert rooms == front + [last];
      RoomChoicesExact(p, s, front, c);
      SlotChoicesExact(p, s, last, p.slots, c);
    }
  }

  lemma {:induction false} SuitableRoomsExact(p: Problem, s: Section, rooms: seq<string>)
    ensures forall id :: id in SuitableRooms(p, s, rooms) <==> id in rooms && p.rooms.CapacityOr(id, -1) >= s.enrollments
    ensures Distinct(rooms) ==> Distinct(SuitableRooms(p, s, rooms))
  {
    if rooms != [] {
      SuitableRoomsExact(p, s, rooms[1..]);
      if Distinct(rooms) { assert rooms[0] !in rooms[1..]; }
    }
  }

  /** The choices of a section are its candidates over large enough rooms and usable slots. */
  lemma ChoicesExact(p: Problem, s: Section, c: Placed)
    ensures c in Choices(p, s) <==> exists slot :: IsChoice(p, s, c.roomId, slot) && c == Candidate(s, c.roomId, slot)
  {
    SuitableRoomsExact(p, s, p.rooms.order);
    RoomChoicesExact(p, s, SuitableRooms(p, s, p.rooms.order), c);
    SlotChoicesExact(p, s, c.roomId, p.slots, c);
    if c in Choices(p, s) {
      var slot :| slot in p.slots && CanUse(p, s, slot) && c == Candidate(s, c.roomId, slot);
      assert IsChoice(p, s, c.roomId, slot);
    }
  }

  ghost predicate WellFormed(p: Problem) { p.rooms.Valid() && DistinctStarts(p.slots) }

  lemma {:induction false} SlotChoicesDistinct(p: Problem, s: Section, roomId: string, slots: seq<Slot>)
    requires DistinctStarts(slots)
    ensures Distinct(SlotChoices(p, s, roomId, slots))
  {
    if slots != [] {
      var front, last := slots[..|slots| - 1], slots[|slots| - 1];
      SlotChoicesDistinct(p, s, roomId, front);
      SlotChoicesExact(p, s, roomId, front, Candidate(s, roomId, last));
    }
  }

  lemma {:induction false} RoomChoicesDistinct(p: Problem, s: Section, rooms: seq<string>)
    requires Distinct(rooms) && DistinctStarts(p.slots)
    ensures Distinct(RoomChoices(p, s, rooms))
  {
    if rooms != [] {
      var front, last := rooms[..|rooms| - 1], rooms[|rooms| - 1];
      RoomChoicesDistinct(p, s, front);
      SlotChoicesDistinct(p, s, last, p.slots);
      var a, b := RoomChoices(p, s, front), SlotChoices(p, s, last, p.slots);
      forall i, j | 0 <= i < |a| && 0 <= j < |b| ensures a[i] != b[j] {
        RoomChoicesExact(p, s, front, a[i]);
        SlotChoicesExact(p, s, last, p.slots, b[j]);
      }
    }
  }

  lemma ChoicesDistinct(p: Problem, s: Section)
    requires WellFormed(p)
    ensures Distinct(Choices(p, s))
  {
    SuitableRoomsExact(p, s, p.rooms.order);
    RoomChoicesDistinct(p, s, SuitableRooms(p, s, p.rooms.order));
  }

  /** A choice is determined by its room, its day and its start. */
  lemma ChoiceDetermined(p: Problem, s: Section, c: Placed, c': Placed)
    requires c in Choices(p, s) && c' in Choices(p, s)
    requires c.roomId == c'.roomId && c.slot.day == c'.slot.day && c.slot.start == c'.slot.start
    ensures c == c'
  {
    ChoicesExact(p, s, c);
    ChoicesExact(p, s, c');
  }

  lemma ChoiceFields(p: Problem, s: Section, c: Placed)
    requires c in Choices(p, s)
    ensures c.sectionId == s.id && c.instructor == s.instructor && c.enrollments == s.enrollments
    ensures c.roomId in p.rooms.order && p.rooms.CapacityOr(c.roomId, -1) >= s.enrollments
    ensures exists slot :: slot in p.slots && CanUse(p, s, slot) && c.slot == UseSlot(s, slot)
  {
    ChoicesExact(p, s, c);
    var slot :| IsChoice(p, s, c.roomId, slot) && c == Candidate(s, c.roomId, slot);
  }

  // ---- soundness and completeness ------------------------------------------------------

  /** Step-by-step feasibility: the seed, then one admissible choice for each section in turn. */
  ghost predicate Feasible(p: Problem, sections: seq<Section>, seed: seq<Placed>, sol: seq<Placed>) {
    && |sol| == |seed| + |sections|
    && sol[..|seed|] == seed
    && forall i :: 0 <= i < |sections| ==>
         sol[|seed| + i] in Choices(p, sections[i]) && Admissible(p, sol[|seed| + i], sol[..|seed| + i])
  }

  lemma {:induction false} BranchesExact(p: Problem, sections: seq<Section>, placed: seq<Placed>, choices: seq<Placed>, sol: seq<Placed>)
    requires sections != []
    ensures sol in Branches(p, sections, placed, choices) <==>
            exists c :: c in choices && Admissible(p, c, placed) && sol in Extensions(p, sections[1..], placed + [c])
    decreases |choices|
  {
    if choices != [] {
      var front, last := choices[..|choices| - 1], choices[|choices| - 1];
      assert choices == front + [last];
      BranchesExact(p, sections, placed, front, sol);
    }
  }

  lemma FeasibleRest(p: Problem, sections: seq<Section>, seed: seq<Placed>, sol: seq<Placed>)
    requires sections != [] && Feasible(p, sections, seed, sol)
    ensures var c := sol[|seed|];
            c in Choices(p, sections[0]) && Admissible(p, c, seed) && Feasible(p, sections[1..], seed + [c], sol)
  {
    var n, rest, c := |seed|, sections[1..], sol[|seed|];
    assert sol[n + 0] in Choices(p, sections[0]) && sol[..n + 0] == seed;
    assert sol[..n + 1] == seed + [c];
    forall i | 0 <= i < |rest|
      ensures sol[n + 1 + i] in Choices(p, rest[i]) && Admissible(p, sol[n + 1 + i], sol[..n + 1 + i])
    {
      assert rest[i] == sections[i + 1] && n + (i + 1) == n + 1 + i;
    }
  }

  lemma FeasibleCons(p: Problem, sections: seq<Section>, seed: seq<Placed>, c: Placed, sol: seq<Placed>)
    requires sections != [] && c in Choices(p, sections[0]) && Admissible(p, c, seed)
    requires Feasible(p, sections[1..], seed + [c], sol)
    ensures Feasible(p, sections, seed, sol)
  {
    var n, rest := |seed|, sections[1..];
    assert sol[..n + 1] == seed + [c];
    assert sol[..n] == sol[..n + 1][..n] == seed && sol[n] == sol[..n + 1][n] == c;
    forall i | 0 <= i < |sections|
      ensures sol[n + i] in Choices(p, sections[i]) && Admissible(p, sol[n + i], sol[..n + i])
    {
      if i > 0 { assert rest[i - 1] == sections[i] && n + 1 + (i - 1) == n + i; }
    }
  }

  /** The search finds a placement if and only if it is feasible. */
  lemma {:induction false} ExtensionsExact(p: Problem, sections: seq<Section>, seed: seq<Placed>, sol: seq<Placed>)
    ensures sol in Extensions(p, sections, seed) <==> Feasible(p, sections, seed, sol)
    decreases |sections|
  {
    if sections == [] {
      if Feasible(p, sections, seed, sol) { assert sol[..|seed|] == sol; }
    } else {
      BranchesExact(p, sections, seed, Choices(p, sections[0]), sol);
      if Feasible(p, sections, seed, sol) { FeasibleRest(p, sections, seed, sol); }
      forall c | c in Choices(p, sections[0]) && Admissible(p, c, seed) && Feasible(p, sections[1..], seed + [c], sol)
        ensures Feasible(p, sections, seed, sol)
      {
        FeasibleCons(p, sections, seed, c, sol);
      }
      forall c { ExtensionsExact(p, sections[1..], seed + [c], sol); }
    }
  }

  /** No placement is found twice in one run. */
  lemma {:induction false} ExtensionsDistinct(p: Problem, sections: seq<Section>, seed: seq<Placed>)
    requires WellFormed(p)
    ensures Distinct(Extensions(p, sections, seed))
    decreases |sections|, 1, 0
  {
    if sections != [] {
      ChoicesDistinct(p, sections[0]);
      BranchesDistinct(p, sections, seed, Choices(p, sections[0]));
    }
  }

  lemma {:induction false} BranchesDistinct(p: Problem, sections: seq<Section>, seed: seq<Placed>, choices: seq<Placed>)
    requires WellFormed(p) && sections != [] && Distinct(choices)
    ensures Distinct(Branches(p, sections, seed, choices))
    decreases |sections|, 0, |choices|
  {
    if choices != [] {
      var front, last := choices[..|choices| - 1], choices[|choices| - 1];
      BranchesDistinct(p, sections, seed, front);
      ExtensionsDistinct(p, sections[1..], seed + [last]);
      var a, b := Branches(p, sections, seed, front), Extensions(p, sections[1..], seed + [last]);
      forall i, j | 0 <= i < |a| && 0 <= j < |b| ensures a[i] != b[j] {
        assert a[i] in a && b[j] in b;
        BranchesExact(p, sections, seed, front, a[i]);
        var c :| c in front && a[i] in Extensions(p, sections[1..], seed + [c]);
        ExtensionsExact(p, sections[1..], seed + [c], a[i]);
        ExtensionsExact(p, sections[1..], seed + [last], b[j]);
        assert a[i][..|seed| + 1][|seed|] == c && b[j][..|seed| + 1][|seed|] == last;
      }
    }
  }

  // ---- timetables: the order-free view -------------------------------------------------

  /** One placement for each section id. */
  type Table = map<string, Placed>

  ghost function Ids(sections: seq<Section>): set<string> { set s | s in sections :: s.id }

  ghost predicate DistinctIds(sections: seq<Section>) {
    forall i, j :: 0 <= i < j < |sections| ==> sections[i].id != sections[j].id
  }

  /** No section to schedule is among the placements the search starts from. */
  ghost predicate FreshIds(sections: seq<Section>, seed: seq<Placed>) {
    forall c, s :: c in seed && s in sections ==> c.sectionId != s.id
  }

  /** Two new placements can stand side by side. */
  ghost predicate Compatible(p: Problem, a: Placed, b: Placed) {
    !Collide(a, b) && !(ShareGroup(p.groups, a.sectionId, b.sectionId) && Overlap(a.slot, b.slot))
  }

  /** A timetable that satisfies every hard constraint, with no reference to any order. */
  ghost predicate FeasibleTable(p: Problem, sections: seq<Section>, seed: seq<Placed>, t: Table) {
    && t.Keys == Ids(sections)
    && (forall s :: s in sections ==> t[s.id] in Choices(p, s) && Admissible(p, t[s.id], seed))
    && (forall s, s' :: s in sections && s' in sections && s.id != s'.id ==> Compatible(p, t[s.id], t[s'.id]))
  }

  function TableOf(placed: seq<Placed>): Table {
    if placed == [] then map[]
    else TableOf(placed[..|placed| - 1])[placed[|placed| - 1].sectionId := placed[|placed| - 1]]
  }

  /** The timetable written out in the order of the sections. */
  function Listing(t: Table, sections: seq<Section>): seq<Placed>
    requires forall s :: s in sections ==> s.id in t
  {
    seq(|sections|, i requires 0 <= i < |sections| => t[sections[i].id])
  }

  lemma {:induction false} TableOfAt(placed: seq<Placed>)
    requires forall i, j :: 0 <= i < j < |placed| ==> placed[i].sectionId != placed[j].sectionId
    ensures TableOf(placed).Keys == set c | c in placed :: c.sectionId
    ensures forall c :: c in placed ==> c.sectionId in TableOf(placed) && TableOf(placed)[c.sectionId] == c
  {
    if placed != [] {
      var front, last := placed[..|placed| - 1], placed[|placed| - 1];
      assert placed == front + [last];
      TableOfAt(front);
      forall c | c in placed ensures c.sectionId in TableOf(placed) && TableOf(placed)[c.sectionId] == c {
        if c in front {
          var i :| 0 <= i < |front| && front[i] == c;
          assert placed[i] == c;
        }
      }
    }
  }

  // ---- the first placement of another section -------------------------------------------

  lemma {:induction false} FirstOfConcat(a: seq<Placed>, b: seq<Placed>, id: string)
    ensures First(a + b, id) == if First(a, id).Some? then First(a, id) else First(b, id)
  {
    if a == [] {
      assert a + b == b;
    } else {
      assert (a + b)[1..] == a[1..] + b;
      FirstOfConcat(a[1..], b, id);
    }
  }

  ghost predicate Separate(placed: seq<Placed>) {
    forall i, j :: 0 <= i < j < |placed| ==> placed[i].sectionId != placed[j].sectionId
  }

  lemma FirstOfSeparate(placed: seq<Placed>, c: Placed)
    requires Separate(placed) && c in placed
    ensures First(placed, c.sectionId) == Some(c)
  {
    var f := First(placed, c.sectionId);
    var i :| 0 <= i < |placed| && placed[i] == c;
    assert f.Some?;
    var j :| 0 <= j < |placed| && placed[j] == f.value;
    assert i == j;
  }

  ghost predicate GroupsClear(p: Problem, c: Placed, placed: seq<Placed>) {
    !StudentGroupsClash(c.sectionId, c.slot, placed, p.groups)
  }

  /** With fresh, pairwise different ids the group check against seed and new placements is
      the check against the seed plus a pairwise check against the new ones. */
  lemma GroupsSplit(p: Problem, c: Placed, seed: seq<Placed>, placed: seq<Placed>)
    requires Separate(placed)
    requires forall a, b :: a in seed && b in placed ==> a.sectionId != b.sectionId
    requires forall b :: b in placed ==> b.sectionId != c.sectionId
    ensures GroupsClear(p, c, seed + placed) <==>
            GroupsClear(p, c, seed)
            && forall b :: b in placed ==> !(ShareGroup(p.groups, c.sectionId, b.sectionId) && Overlap(c.slot, b.slot))
  {
    forall id ensures FirstOverlaps(c.slot, seed + placed, id) <==>
                      FirstOverlaps(c.slot, seed, id) || FirstOverlaps(c.slot, placed, id)
    {
      FirstOfConcat(seed, placed, id);
    }
    forall b | b in placed ensures FirstOverlaps(c.slot, placed, b.sectionId) <==> Overlap(c.slot, b.slot) {
      FirstOfSeparate(placed, b);
    }
  }

  lemma CollideSplit(c: Placed, seed: seq<Placed>, placed: seq<Placed>, rooms: RoomTable)
    ensures !HardClash(c, seed + placed, rooms) <==>
            !HardClash(c, seed, rooms) && forall b :: b in placed ==> !Collide(c, b)
  {
    var all := seed + placed;
    if HardClash(c, all, rooms) && !HardClash(c, seed, rooms) {
      var i :| 0 <= i < |all| && Collide(c, all[i]);
      assert all[i] in placed;
    }
    forall i | 0 <= i < |seed| ensures seed[i] == all[i] {}
    forall b | b in placed && !HardClash(c, all, rooms) ensures !Collide(c, b) {
      var i :| 0 <= i < |placed| && placed[i] == b;
      assert all[|seed| + i] == b;
    }
  }

  lemma AdmissibleSplit(p: Problem, c: Placed, seed: seq<Placed>, placed: seq<Placed>)
    requires Separate(placed)
    requires forall a, b :: a in seed && b in placed ==> a.sectionId != b.sectionId
    requires forall b :: b in placed ==> b.sectionId != c.sectionId
    ensures Admissible(p, c, seed + placed) <==>
            Admissible(p, c, seed) && forall b :: b in placed ==> Compatible(p, c, b)
  {
    GroupsSplit(p, c, seed, placed);
    CollideSplit(c, seed, placed, p.rooms);
  }

  lemma CompatibleSymmetric(p: Problem, a: Placed, b: Placed)
    ensures Compatible(p, a, b) <==> Compatible(p, b, a)
  {
    if g :| 0 <= g < |p.groups| && a.sectionId in p.groups[g] && b.sectionId in p.groups[g] {
      assert ShareGroup(p.groups, b.sectionId, a.sectionId);
    }
    if g :| 0 <= g < |p.groups| && b.sectionId in p.groups[g] && a.sectionId in p.groups[g] {
      assert ShareGroup(p.groups, a.sectionId, b.sectionId);
    }
  }

  // ---- feasible placements and feasible timetables --------------------------------------

  ghost predicate Follows(p: Problem, sections: seq<Section>, tail: seq<Placed>) {
    |tail| == |sections| && forall i :: 0 <= i < |sections| ==> tail[i] in Choices(p, sections[i])
  }

  ghost predicate Named(sections: seq<Section>, tail: seq<Placed>) {
    |tail| == |sections| && forall i :: 0 <= i < |tail| ==> tail[i].sectionId == sections[i].id
  }

  /** Placements that follow the sections carry their ids, so they keep apart. */
  lemma FollowsNamed(p: Problem, sections: seq<Section>, tail: seq<Placed>)
    requires Follows(p, sections, tail) && DistinctIds(sections)
    ensures Named(sections, tail) && Separate(tail)
  {
    forall i | 0 <= i < |tail| ensures tail[i].sectionId == sections[i].id {
      ChoiceFields(p, sections[i], tail[i]);
    }
  }

  lemma NamedTable(sections: seq<Section>, tail: seq<Placed>)
    requires Named(sections, tail) && Separate(tail)
    ensures TableOf(tail).Keys == Ids(sections)
    ensures forall s :: s in sections ==> s.id in TableOf(tail)
    ensures Listing(TableOf(tail), sections) == tail
  {
    TableOfAt(tail);
    forall id ensures id in TableOf(tail) <==> id in Ids(sections) {
      NamedIds(sections, tail, id);
    }
    forall s | s in sections ensures s.id in Ids(sections) {}
    forall i | 0 <= i < |tail| ensures TableOf(tail)[sections[i].id] == tail[i] {
      assert tail[i] in tail;
    }
  }

  lemma NamedIds(sections: seq<Section>, tail: seq<Placed>, id: string)
    requires Named(sections, tail)
    ensures id in (set c | c in tail :: c.sectionId) <==> id in Ids(sections)
  {
    if c :| c in tail && c.sectionId == id {
      var i :| 0 <= i < |tail| && tail[i] == c;
      assert sections[i] in sections;
    }
    if s :| s in sections && s.id == id {
      var i :| 0 <= i < |sections| && sections[i] == s;
      assert tail[i] in tail;
    }
  }

  lemma SeedApart(sections: seq<Section>, seed: seq<Placed>, tail: seq<Placed>)
    requires FreshIds(sections, seed) && Named(sections, tail)
    ensures forall a, b :: a in seed && b in tail ==> a.sectionId != b.sectionId
  {
    forall a, b | a in seed && b in tail ensures a.sectionId != b.sectionId {
      var i :| 0 <= i < |tail| && tail[i] == b;
      assert sections[i] in sections;
    }
  }

  /** One step of the search, seen without order. */
  lemma StepAdmissible(p: Problem, sections: seq<Section>, seed: seq<Placed>, tail: seq<Placed>, i: nat)
    requires Follows(p, sections, tail) && DistinctIds(sections) && FreshIds(sections, seed) && i < |tail|
    ensures Admissible(p, tail[i], seed + tail[..i]) <==>
            Admissible(p, tail[i], seed) && forall j :: 0 <= j < i ==> Compatible(p, tail[i], tail[j])
  {
    FollowsNamed(p, sections, tail);
    SeedApart(sections, seed, tail);
    var before := tail[..i];
    AdmissibleSplit(p, tail[i], seed, before);
    assert forall b :: b in before ==> exists j :: 0 <= j < i && tail[j] == b;
    assert forall j :: 0 <= j < i ==> tail[j] in before;
  }

  ghost predicate PairwiseCompatible(p: Problem, tail: seq<Placed>) {
    forall i, j :: 0 <= j < i < |tail| ==> Compatible(p, tail[i], tail[j])
  }

  lemma TailAt(seed: seq<Placed>, tail: seq<Placed>, i: nat)
    requires i < |tail|
    ensures (seed + tail)[|seed| + i] == tail[i] && (seed + tail)[..|seed| + i] == seed + tail[..i]
  {
  }

  /** One conjunct of feasibility, read off the tail. */
  lemma FeasibleAt(p: Problem, seed: seq<Placed>, tail: seq<Placed>, section: Section, i: nat)
    requires i < |tail|
    ensures Fits(p, section, (seed + tail)[|seed| + i], (seed + tail)[..|seed| + i])
            <==> Fits(p, section, tail[i], seed + tail[..i])
  {
    TailAt(seed, tail, i);
  }

  ghost predicate Fits(p: Problem, section: Section, c: Placed, before: seq<Placed>) {
    c in Choices(p, section) && Admissible(p, c, before)
  }

  lemma FeasibleFits(p: Problem, sections: seq<Section>, seed: seq<Placed>, tail: seq<Placed>)
    requires |tail| == |sections|
    ensures Feasible(p, sections, seed, seed + tail) <==>
            forall i :: 0 <= i < |tail| ==> Fits(p, sections[i], tail[i], seed + tail[..i])
  {
    var sol := seed + tail;
    assert sol[..|seed|] == seed;
    forall i | 0 <= i < |tail|
      ensures Fits(p, sections[i], sol[|seed| + i], sol[..|seed| + i]) <==> Fits(p, sections[i], tail[i], seed + tail[..i])
    {
      FeasibleAt(p, seed, tail, sections[i], i);
    }
    assert Feasible(p, sections, seed, sol) <==>
           forall i :: 0 <= i < |tail| ==> Fits(p, sections[i], sol[|seed| + i], sol[..|seed| + i]);
  }

  lemma FeasibleSteps(p: Problem, sections: seq<Section>, seed: seq<Placed>, tail: seq<Placed>)
    ensures Feasible(p, sections, seed, seed + tail) <==>
            Follows(p, sections, tail) && forall i :: 0 <= i < |tail| ==> Admissible(p, tail[i], seed + tail[..i])
  {
    if |tail| == |sections| {
      FeasibleFits(p, sections, seed, tail);
      assert forall i :: 0 <= i < |tail| ==>
        (Fits(p, sections[i], tail[i], seed + tail[..i]) <==>
         tail[i] in Choices(p, sections[i]) && Admissible(p, tail[i], seed + tail[..i]));
    }
  }

  lemma FeasibleTail(p: Problem, sections: seq<Section>, seed: seq<Placed>, tail: seq<Placed>)
    requires DistinctIds(sections) && FreshIds(sections, seed)
    ensures Feasible(p, sections, seed, seed + tail) <==>
            && Follows(p, sections, tail)
            && (forall i :: 0 <= i < |tail| ==> Admissible(p, tail[i], seed))
            && PairwiseCompatible(p, tail)
  {
    FeasibleSteps(p, sections, seed, tail);
    if Follows(p, sections, tail) {
      forall i: nat | i < |tail|
        ensures Admissible(p, tail[i], seed + tail[..i]) <==>
                Admissible(p, tail[i], seed) && forall j :: 0 <= j < i ==> Compatible(p, tail[i], tail[j])
      {
        StepAdmissible(p, sections, seed, tail, i);
      }
    }
  }

  lemma TableCompatible(p: Problem, sections: seq<Section>, t: Table)
    requires (forall s :: s in sections ==> s.id in t) && DistinctIds(sections)
    requires PairwiseCompatible(p, Listing(t, sections))
    ensures forall s, s' :: s in sections && s' in sections && s.id != s'.id ==> Compatible(p, t[s.id], t[s'.id])
  {
    var tail := Listing(t, sections);
    forall s, s' | s in sections && s' in sections && s.id != s'.id ensures Compatible(p, t[s.id], t[s'.id]) {
      var i :| 0 <= i < |sections| && sections[i] == s;
      var j :| 0 <= j < |sections| && sections[j] == s';
      assert t[s.id] == tail[i] && t[s'.id] == tail[j];
      CompatibleSymmetric(p, tail[i], tail[j]);
    }
  }

  lemma TableOfTail(p: Problem, sections: seq<Section>, seed: seq<Placed>, tail: seq<Placed>)
    requires DistinctIds(sections) && FreshIds(sections, seed)
    requires Feasible(p, sections, seed, seed + tail)
    ensures FeasibleTable(p, sections, seed, TableOf(tail)) && Listing(TableOf(tail), sections) == tail
  {
    FeasibleTail(p, sections, seed, tail);
    FollowsNamed(p, sections, tail);
    NamedTable(sections, tail);
    var t := TableOf(tail);
    TableCompatible(p, sections, t);
    forall s | s in sections ensures t[s.id] in Choices(p, s) && Admissible(p, t[s.id], seed) {
      var i :| 0 <= i < |sections| && sections[i] == s;
      assert t[s.id] == Listing(t, sections)[i] == tail[i];
    }
  }

  lemma ListingFeasible(p: Problem, sections: seq<Section>, seed: seq<Placed>, t: Table)
    requires DistinctIds(sections) && FreshIds(sections, seed) && FeasibleTable(p, sections, seed, t)
    ensures Feasible(p, sections, seed, seed + Listing(t, sections))
  {
    var tail := Listing(t, sections);
    forall i | 0 <= i < |tail| ensures tail[i] in Choices(p, sections[i]) && Admissible(p, tail[i], seed) {
      assert sections[i] in sections;
    }
    forall i, j | 0 <= j < i < |tail| ensures Compatible(p, tail[i], tail[j]) {
      assert sections[i] in sections && sections[j] in sections;
    }
    FeasibleTail(p, sections, seed, tail);
  }

  lemma TailOfTable(p: Problem, sections: seq<Section>, seed: seq<Placed>, t: Table)
    requires DistinctIds(sections) && FreshIds(sections, seed) && FeasibleTable(p, sections, seed, t)
    ensures Feasible(p, sections, seed, seed + Listing(t, sections)) && TableOf(Listing(t, sections)) == t
  {
    var tail := Listing(t, sections);
    ListingFeasible(p, sections, seed, t);
    TableOfTail(p, sections, seed, tail);
    SameListing(sections, t, TableOf(tail));
  }

  lemma SameListing(sections: seq<Section>, t: Table, t': Table)
    requires t.Keys == t'.Keys == Ids(sections) && Listing(t, sections) == Listing(t', sections)
    ensures t == t'
  {
    forall id | id in t ensures t[id] == t'[id] {
      var s :| s in sections && s.id == id;
      var i :| 0 <= i < |sections| && sections[i] == s;
      assert Listing(t, sections)[i] == Listing(t', sections)[i];
    }
  }

  /** The timetables one run of the search finds. */
  ghost function TablesFound(p: Problem, sections: seq<Section>, seed: seq<Placed>): set<Table> {
    set sol | sol in Extensions(p, sections, seed) && |sol| >= |seed| :: TableOf(sol[|seed|..])
  }

  /** Soundness and completeness at once, free of the order in which sections were placed. */
  lemma TablesFoundExact(p: Problem, sections: seq<Section>, seed: seq<Placed>, t: Table)
    requires DistinctIds(sections) && FreshIds(sections, seed)
    ensures t in TablesFound(p, sections, seed) <==> FeasibleTable(p, sections, seed, t)
  {
    if t in TablesFound(p, sections, seed) {
      var sol :| sol in Extensions(p, sections, seed) && |sol| >= |seed| && t == TableOf(sol[|seed|..]);
      ExtensionsExact(p, sections, seed, sol);
      assert sol == seed + sol[|seed|..];
      TableOfTail(p, sections, seed, sol[|seed|..]);
    }
    if FeasibleTable(p, sections, seed, t) {
      var sol := seed + Listing(t, sections);
      TailOfTable(p, sections, seed, t);
      ExtensionsExact(p, sections, seed, sol);
      assert sol[|seed|..] == Listing(t, sections);
    }
  }

  lemma SameMembers<T>(a: seq<T>, b: seq<T>)
    requires multiset(a) == multiset(b)
    ensures |a| == |b| && forall x :: x in a <==> x in b
  {
    assert |multiset(a)| == |a| && |multiset(b)| == |b|;
    forall x ensures x in a <==> x in b {
      assert x in a <==> x in multiset(a);
      assert x in b <==> x in multiset(b);
    }
  }

  /** Trying the sections in another order finds the same timetables. */
  lemma OrderIndependent(p: Problem, sections: seq<Section>, sections': seq<Section>, seed: seq<Placed>)
    requires multiset(sections) == multiset(sections')
    requires DistinctIds(sections) && DistinctIds(sections') && FreshIds(sections, seed)
    ensures FreshIds(sections', seed)
    ensures TablesFound(p, sections, seed) == TablesFound(p, sections', seed)
  {
    SameMembers(sections, sections');
    forall t ensures t in TablesFound(p, sections, seed) <==> t in TablesFound(p, sections', seed) {
      TablesFoundExact(p, sections, seed, t);
      TablesFoundExact(p, sections', seed, t);
      FeasibleUnordered(p, sections, sections', seed, t);
    }
  }

  lemma FeasibleUnordered(p: Problem, sections: seq<Section>, sections': seq<Section>, seed: seq<Placed>, t: Table)
    requires forall s :: s in sections <==> s in sections'
    ensures FeasibleTable(p, sections, seed, t) <==> FeasibleTable(p, sections', seed, t)
  {
    assert Ids(sections) == Ids(sections');
  }

  lemma {:induction false} DistinctCardinality<T>(s: seq<T>)
    requires Distinct(s)
    ensures |set x | x in s| == |s|
  {
    if s != [] {
      var front, last := s[..|s| - 1], s[|s| - 1];
      DistinctCardinality(front);
      assert (set x | x in s) == (set x | x in front) + {last};
      assert last !in front;
    }
  }


  lemma SolutionShape(p: Problem, sections: seq<Section>, seed: seq<Placed>, sol: seq<Placed>)
    requires DistinctIds(sections) && FreshIds(sections, seed) && sol in Extensions(p, sections, seed)
    ensures |sol| >= |seed|
    ensures FeasibleTable(p, sections, seed, TableOf(sol[|seed|..]))
    ensures sol == seed + Listing(TableOf(sol[|seed|..]), sections)
  {
    ExtensionsExact(p, sections, seed, sol);
    assert sol == seed + sol[|seed|..];
    TableOfTail(p, sections, seed, sol[|seed|..]);
  }

  /** One run finds as many placements as there are feasible timetables. */
  lemma ExtensionsCount(p: Problem, sections: seq<Section>, seed: seq<Placed>)
    requires WellFormed(p) && DistinctIds(sections) && FreshIds(sections, seed)
    ensures |TablesFound(p, sections, seed)| == |Extensions(p, sections, seed)|
  {
    var found, n := Extensions(p, sections, seed), |seed|;
    ExtensionsDistinct(p, sections, seed);
    forall sol | sol in found ensures |sol| >= n {
      SolutionShape(p, sections, seed, sol);
    }
    assert forall i :: 0 <= i < |found| ==> found[i] in found;
    var tables := seq(|found|, i requires 0 <= i < |found| && |found[i]| >= n => TableOf(found[i][n..]));
    forall i, j | 0 <= i < j < |tables| ensures tables[i] != tables[j] {
      SolutionShape(p, sections, seed, found[i]);
      SolutionShape(p, sections, seed, found[j]);
    }
    DistinctCardinality(tables);
    TablesListed(found, n, tables);
    assert (set t | t in tables) == TablesFound(p, sections, seed);
  }

  lemma TablesListed(found: seq<seq<Placed>>, n: nat, tables: seq<Table>)
    requires forall sol :: sol in found ==> |sol| >= n
    requires |tables| == |found| && forall i :: 0 <= i < |found| ==> |found[i]| >= n && tables[i] == TableOf(found[i][n..])
    ensures (set t | t in tables) == set sol | sol in found && |sol| >= n :: TableOf(sol[n..])
  {
    var right := set sol | sol in found && |sol| >= n :: TableOf(sol[n..]);
    forall t | t in right ensures t in tables {
      var sol :| sol in found && |sol| >= n && t == TableOf(sol[n..]);
      var i :| 0 <= i < |found| && found[i] == sol;
      assert tables[i] == t;
    }
    forall t | t in tables ensures t in right {
      var i :| 0 <= i < |tables| && tables[i] == t;
      assert found[i] in found;
    }
  }
}
