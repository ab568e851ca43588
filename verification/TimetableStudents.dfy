/** From a semester's enrolments to student-safe timetables. */
module TimetableStudents {
  import opened Results
  import opened Timetable
  import opened TimetableSearch
  import opened TimetableTheory
  import opened TimetableEngine
  import opened TimetableCount
  import opened TimetableCheck

  datatype Roster = Roster(id: string, studentIds: seq<string>)

  predicate SharesStudent(a: Roster, b: Roster) {
    exists i :: 0 <= i < |a.studentIds| && a.studentIds[i] in b.studentIds
  }

  /** Pair groups of section i with the sections i+1 .. j-1. */
  function PairsOf(sections: seq<Roster>, i: nat, j: nat): seq<seq<string>>
    requires i < j <= |sections|
  {
    if j == i + 1 then []
    else
      PairsOf(sections, i, j - 1)
      + if SharesStudent(sections[i], sections[j - 1]) then [[sections[i].id, sections[j - 1].id]] else []
  }

  function OverlapGroups(sections: seq<Roster>, n: nat): seq<seq<string>>
    requires n <= |sections|
  {
    if n == 0 then [] else OverlapGroups(sections, n - 1) + PairsOf(sections, n - 1, |sections|)
  }

  lemma PairStep(before: seq<seq<string>>, sections: seq<Roster>, i: nat, j: nat)
    requires i < j < |sections|
    ensures before + PairsOf(sections, i, j + 1) ==
            if SharesStudent(sections[i], sections[j])
            then before + PairsOf(sections, i, j) + [[sections[i].id, sections[j].id]]
            else before + PairsOf(sections, i, j)
  {
  }

  method BuildOverlapGroups(sections: seq<Roster>) returns (groups: seq<seq<string>>)
    ensures groups == OverlapGroups(sections, |sections|)
    ensures RelatePairs(groups, sections)
  {
    groups := [];
    for i := 0 to |sections|
      invariant groups == OverlapGroups(sections, i)
    {
      ghost var before := groups;
      NextRow(sections, i);
      for j := i + 1 to |sections|
        invariant groups == before + PairsOf(sections, i, j)
      {
        PairStep(before, sections, i, j);
        var a, b := sections[i], sections[j];
        if SharesStudent(a, b) { groups := groups + [[a.id, b.id]]; }
      }
    }
    AllGroupsExact(sections);
  }

  lemma NextRow(sections: seq<Roster>, i: nat)
    requires i < |sections|
    ensures OverlapGroups(sections, i) + PairsOf(sections, i, i + 1) == OverlapGroups(sections, i)
    ensures OverlapGroups(sections, i) + PairsOf(sections, i, |sections|) == OverlapGroups(sections, i + 1)
  {
  }

  /** Two ids share a group exactly when two rosters with these ids share a student. */
  ghost predicate RelatePairs(groups: seq<seq<string>>, sections: seq<Roster>) {
    forall x, y :: ShareGroup(groups, x, y) <==> PairedRosters(sections, x, y)
  }

  lemma AllGroupsExact(sections: seq<Roster>)
    ensures RelatePairs(OverlapGroups(sections, |sections|), sections)
  {
    forall x, y ensures ShareGroup(OverlapGroups(sections, |sections|), x, y) <==> PairedRosters(sections, x, y) {
      GroupsExact(sections, x, y);
    }
  }

  ghost predicate PairGroup(sections: seq<Roster>, i: nat, j: nat, g: seq<string>)
    requires i < j < |sections|
  {
    SharesStudent(sections[i], sections[j]) && g == [sections[i].id, sections[j].id]
  }

  ghost predicate Paired(sections: seq<Roster>, i: nat, j: nat, x: string, y: string)
    requires i < j < |sections|
  {
    SharesStudent(sections[i], sections[j])
    && (x == sections[i].id || x == sections[j].id) && (y == sections[i].id || y == sections[j].id)
  }

  /** Two ids belong to one pair of different rows with a common student. */
  ghost predicate PairedRosters(sections: seq<Roster>, x: string, y: string) {
    exists i, j :: 0 <= i < j < |sections| && Paired(sections, i, j, x, y)
  }

  ghost predicate InRow(sections: seq<Roster>, i: nat, j: nat, g: seq<string>)
    requires i < j <= |sections|
  {
    exists k :: i < k < j && PairGroup(sections, i, k, g)
  }

  lemma {:induction false} PairsExact(sections: seq<Roster>, i: nat, j: nat, g: seq<string>)
    requires i < j <= |sections|
    ensures g in PairsOf(sections, i, j) <==> InRow(sections, i, j, g)
  {
    if j > i + 1 {
      PairsExact(sections, i, j - 1, g);
      if PairGroup(sections, i, j - 1, g) { assert g in PairsOf(sections, i, j); }
      if k :| i < k < j && PairGroup(sections, i, k, g) && k != j - 1 { assert g in PairsOf(sections, i, j - 1); }
    }
  }

  ghost predicate InRows(sections: seq<Roster>, n: nat, g: seq<string>)
    requires n <= |sections|
  {
    exists i :: 0 <= i < n && InRow(sections, i, |sections|, g)
  }

  lemma InRowsNext(sections: seq<Roster>, n: nat, g: seq<string>)
    requires n < |sections|
    ensures InRows(sections, n + 1, g) <==> InRows(sections, n, g) || InRow(sections, n, |sections|, g)
  {
  }

  ghost predicate GroupAgrees(sections: seq<Roster>, n: nat, g: seq<string>)
    requires n <= |sections|
  {
    g in OverlapGroups(sections, n) <==> InRows(sections, n, g)
  }

  lemma {:induction false} GroupMembers(sections: seq<Roster>, n: nat, g: seq<string>)
    requires n <= |sections|
    ensures GroupAgrees(sections, n, g)
  {
    if n > 0 {
      GroupMembers(sections, n - 1, g);
      GroupMembersNext(sections, n - 1, g);
    }
  }

  lemma MemberConcat<T>(a: seq<T>, b: seq<T>, x: T)
    ensures x in a + b <==> x in a || x in b
  {
  }

  lemma GroupMembersNext(sections: seq<Roster>, n: nat, g: seq<string>)
    requires n < |sections| && GroupAgrees(sections, n, g)
    ensures GroupAgrees(sections, n + 1, g)
  {
    MemberConcat(OverlapGroups(sections, n), PairsOf(sections, n, |sections|), g);
    PairsExact(sections, n, |sections|, g);
    InRowsNext(sections, n, g);
  }

  lemma InPair(x: string, a: string, b: string)
    ensures x in [a, b] <==> x == a || x == b
  {
    assert [a, b][0] == a && [a, b][1] == b;
  }

  lemma GroupsSound(sections: seq<Roster>, g: seq<string>, x: string, y: string)
    requires g in OverlapGroups(sections, |sections|) && x in g && y in g
    ensures PairedRosters(sections, x, y)
  {
    GroupMembers(sections, |sections|, g);
    var i :| 0 <= i < |sections| && InRow(sections, i, |sections|, g);
    var j :| i < j < |sections| && PairGroup(sections, i, j, g);
    InPair(x, sections[i].id, sections[j].id);
    InPair(y, sections[i].id, sections[j].id);
    assert Paired(sections, i, j, x, y);
  }

  lemma GroupsComplete(sections: seq<Roster>, i: nat, j: nat, x: string, y: string)
    requires i < j < |sections| && Paired(sections, i, j, x, y)
    ensures ShareGroup(OverlapGroups(sections, |sections|), x, y)
  {
    var groups, g := OverlapGroups(sections, |sections|), [sections[i].id, sections[j].id];
    assert PairGroup(sections, i, j, g) && InRow(sections, i, |sections|, g);
    GroupMembers(sections, |sections|, g);
    var k :| 0 <= k < |groups| && groups[k] == g;
    InPair(x, sections[i].id, sections[j].id);
    InPair(y, sections[i].id, sections[j].id);
  }

  /** The groups relate exactly the rows that share a student. */
  lemma GroupsExact(sections: seq<Roster>, x: string, y: string)
    ensures ShareGroup(OverlapGroups(sections, |sections|), x, y) <==> PairedRosters(sections, x, y)
  {
    var groups := OverlapGroups(sections, |sections|);
    if k :| 0 <= k < |groups| && x in groups[k] && y in groups[k] { GroupsSound(sections, groups[k], x, y); }
    if PairedRosters(sections, x, y) {
      var i, j :| 0 <= i < j < |sections| && Paired(sections, i, j, x, y);
      GroupsComplete(sections, i, j, x, y);
    }
  }

  // ---- feeding the engine for a semester --------------------------------------------------

  /** A stored section; its schedule is already parsed, empty when there is none. */
  datatype SemesterSection = SemesterSection(
    id: string, courseCode: string, instructor: Option<string>, room: Option<string>,
    slots: seq<Slot>, students: seq<string>)

  function ToSchedule(sections: seq<SemesterSection>, onlyUnscheduled: bool): seq<SemesterSection> {
    if sections == [] then []
    else (if onlyUnscheduled && sections[0].slots != [] then [] else [sections[0]])
         + ToSchedule(sections[1..], onlyUnscheduled)
  }

  function AlreadyPlaced(sections: seq<SemesterSection>): seq<Existing> {
    if sections == [] then []
    else
      var s := sections[0];
      (if s.slots == [] then [] else [Existing(s.id, Some(s.courseCode), s.instructor, s.room, s.slots)])
      + AlreadyPlaced(sections[1..])
  }

  function RosterOf(s: SemesterSection): Roster { Roster(s.id, s.students) }

  function SectionOf(s: SemesterSection): Section {
    Section(s.id, s.courseCode, |s.students|, s.instructor, None, [])
  }

  function RostersOf(sections: seq<SemesterSection>): seq<Roster> {
    seq(|sections|, i requires 0 <= i < |sections| => RosterOf(sections[i]))
  }

  function SectionsOf(sections: seq<SemesterSection>): seq<Section> {
    seq(|sections|, i requires 0 <= i < |sections| => SectionOf(sections[i]))
  }

  /** What a semester hands to the engine. */
  function SemesterInput(sections: seq<SemesterSection>, onlyUnscheduled: bool, rooms: seq<Room>,
                         availability: map<string, seq<Option<Slot>>>, grid: GridConfig, maxOptions: Option<int>): (input: Input)
    ensures input.Max() == maxOptions.GetOr(3)
  {
    var toSchedule := ToSchedule(sections, onlyUnscheduled);
    var rosters := RostersOf(toSchedule);
    Input(SectionsOf(toSchedule), rooms, AlreadyPlaced(sections), Some(OverlapGroups(rosters, |rosters|)),
          availability, grid, Some(maxOptions.GetOr(3)))
  }

  ghost predicate DistinctSections(sections: seq<SemesterSection>) {
    forall i, j :: 0 <= i < j < |sections| ==> sections[i].id != sections[j].id
  }

  lemma {:induction false} ToScheduleExact(sections: seq<SemesterSection>, onlyUnscheduled: bool)
    ensures forall s :: s in ToSchedule(sections, onlyUnscheduled) <==>
                        s in sections && (onlyUnscheduled ==> s.slots == [])
    ensures DistinctSections(sections) ==> DistinctSections(ToSchedule(sections, onlyUnscheduled))
  {
    if sections != [] {
      var rest := sections[1..];
      ToScheduleExact(rest, onlyUnscheduled);
      assert sections == [sections[0]] + rest;
      if DistinctSections(sections) {
        forall s | s in ToSchedule(rest, onlyUnscheduled) ensures s.id != sections[0].id {
          var i :| 0 <= i < |rest| && rest[i] == s;
          assert sections[i + 1] == s;
        }
      }
    }
  }

  lemma {:induction false} SeedConcat(a: seq<Existing>, b: seq<Existing>)
    ensures ExistingToPlaced(a + b) == ExistingToPlaced(a) + ExistingToPlaced(b)
  {
    if b == [] {
      assert a + b == a;
    } else {
      var front, last := b[..|b| - 1], b[|b| - 1];
      assert (a + b)[..|a + b| - 1] == a + front;
      SeedConcat(a, front);
      Reassociate(ExistingToPlaced(a), ExistingToPlaced(front), PlacedOf(last, last.slots));
    }
  }

  lemma Reassociate<T>(x: seq<T>, y: seq<T>, z: seq<T>)
    ensures (x + y) + z == x + (y + z)
  {
  }

  ghost predicate PlacesId(placed: seq<Placed>, id: string) {
    exists c :: c in placed && c.sectionId == id
  }

  ghost predicate HasSchedule(sections: seq<SemesterSection>, id: string) {
    exists s :: s in sections && s.slots != [] && s.id == id
  }

  lemma PlacesConcat(a: seq<Placed>, b: seq<Placed>, id: string)
    ensures PlacesId(a + b, id) <==> PlacesId(a, id) || PlacesId(b, id)
  {
    if c :| c in a && c.sectionId == id { assert c in a + b; }
    if c :| c in b && c.sectionId == id { assert c in a + b; }
  }

  lemma PlacedOfIds(ex: Existing, id: string)
    requires ex.slots != []
    ensures PlacesId(ExistingToPlaced([ex]), id) <==> ex.sectionId == id
  {
    assert [ex][..0] == [];
    var placed := PlacedOf(ex, ex.slots);
    assert ExistingToPlaced([ex]) == [] + placed == placed;
    assert placed[0] in placed;
  }

  /** The fixed placements carry exactly the ids of the sections that have a schedule. */
  lemma {:induction false} SeedIds(sections: seq<SemesterSection>, id: string)
    ensures PlacesId(ExistingToPlaced(AlreadyPlaced(sections)), id) <==> HasSchedule(sections, id)
  {
    if sections != [] {
      var s, rest := sections[0], sections[1..];
      SeedIds(rest, id);
      assert sections == [s] + rest;
      if s.slots != [] {
        var ex := Existing(s.id, Some(s.courseCode), s.instructor, s.room, s.slots);
        SeedConcat([ex], AlreadyPlaced(rest));
        PlacedOfIds(ex, id);
        PlacesConcat(ExistingToPlaced([ex]), ExistingToPlaced(AlreadyPlaced(rest)), id);
      } else {
        assert [] + AlreadyPlaced(rest) == AlreadyPlaced(rest);
      }
    }
  }

  lemma SectionsOfIds(sections: seq<SemesterSection>)
    requires DistinctSections(sections)
    ensures DistinctIds(SectionsOf(sections))
    ensures forall x :: x in SectionsOf(sections) <==> exists s :: s in sections && x == SectionOf(s)
  {
    forall s | s in sections ensures SectionOf(s) in SectionsOf(sections) {
      var i :| 0 <= i < |sections| && sections[i] == s;
      assert SectionsOf(sections)[i] == SectionOf(s);
    }
  }

  /** The engine gets fresh ids exactly when scheduled sections are skipped or there are none. */
  lemma SemesterFresh(sections: seq<SemesterSection>, onlyUnscheduled: bool)
    requires DistinctSections(sections)
    ensures FreshIds(SectionsOf(ToSchedule(sections, onlyUnscheduled)), ExistingToPlaced(AlreadyPlaced(sections))) <==>
            onlyUnscheduled || forall s :: s in sections ==> s.slots == []
  {
    var chosen, seed := ToSchedule(sections, onlyUnscheduled), ExistingToPlaced(AlreadyPlaced(sections));
    ToScheduleExact(sections, onlyUnscheduled);
    SectionsOfIds(chosen);
    if onlyUnscheduled || forall s :: s in sections ==> s.slots == [] {
      forall c, x | c in seed && x in SectionsOf(chosen) ensures c.sectionId != x.id {
        SeedIds(sections, c.sectionId);
        assert PlacesId(seed, c.sectionId);
        var s :| s in sections && s.slots != [] && s.id == c.sectionId;
        var s' :| s' in chosen && x == SectionOf(s');
        if s.id == s'.id { SameRow(sections, s, s'); }
      }
    } else {
      var s :| s in sections && s.slots != [];
      SeedIds(sections, s.id);
      assert HasSchedule(sections, s.id);
      var c :| c in seed && c.sectionId == s.id;
      assert SectionOf(s) in SectionsOf(chosen);
    }
  }

  lemma SameRow(sections: seq<SemesterSection>, s: SemesterSection, s': SemesterSection)
    requires DistinctSections(sections) && s in sections && s' in sections && s.id == s'.id
    ensures s == s'
  {
    var i :| 0 <= i < |sections| && sections[i] == s;
    var j :| 0 <= j < |sections| && sections[j] == s';
  }

  // ---- two sections with a common student -------------------------------------------------

  /** Neither of the two is placed already, or one teacher has to be in both. */
  predicate KeptApart(a: SemesterSection, b: SemesterSection) {
    (a.slots == [] && b.slots == []) || (Present(a.instructor) && a.instructor == b.instructor)
  }

  ghost predicate FromSemester(input: Input, sections: seq<SemesterSection>, onlyUnscheduled: bool) {
    input == SemesterInput(sections, onlyUnscheduled, input.rooms, input.availability, input.grid, input.maxOptions)
  }

  ghost predicate ApartIn(t: Table, a: SemesterSection, b: SemesterSection) {
    a.id in t && b.id in t && !Overlap(t[a.id].slot, t[b.id].slot)
  }

  /** The later of two placements looked at the earlier one, unless a fixed placement of the
      earlier section came first. */
  lemma PairApart(p: Problem, ordering: seq<Section>, seed: seq<Placed>, tail: seq<Placed>, i: nat, j: nat)
    requires i < j < |tail| && Named(ordering, tail) && Separate(tail) && Admissible(p, tail[j], seed + tail[..j])
    requires SameInstructor(tail[j], tail[i])
             || (ShareGroup(p.groups, tail[j].sectionId, tail[i].sectionId) && !PlacesId(seed, tail[i].sectionId))
    ensures !Overlap(tail[i].slot, tail[j].slot)
  {
    var placed := seed + tail[..j];
    assert placed[|seed| + i] == tail[i];
    if SameInstructor(tail[j], tail[i]) {
      assert !Collide(tail[j], placed[|seed| + i]);
    } else {
      FirstOfConcat(seed, tail[..j], tail[i].sectionId);
      assert tail[..j][i] == tail[i];
      FirstOfSeparate(tail[..j], tail[i]);
      var g :| 0 <= g < |p.groups| && tail[j].sectionId in p.groups[g] && tail[i].sectionId in p.groups[g];
      var k :| 0 <= k < |p.groups[g]| && p.groups[g][k] == tail[i].sectionId;
      assert tail[i].sectionId != tail[j].sectionId;
    }
  }

  /** Where a section's placement stands in a plan. */
  lemma PlaceOf(ordering: seq<Section>, tail: seq<Placed>, s: Section) returns (i: nat)
    requires Named(ordering, tail) && Separate(tail) && s in ordering
    ensures i < |tail| && ordering[i] == s && s.id in TableOf(tail) && TableOf(tail)[s.id] == tail[i]
  {
    i :| 0 <= i < |ordering| && ordering[i] == s;
    NamedTable(ordering, tail);
    assert Listing(TableOf(tail), ordering)[i] == tail[i];
  }

  lemma ChosenSections(sections: seq<SemesterSection>, onlyUnscheduled: bool, s: SemesterSection)
    requires DistinctSections(sections) && s in ToSchedule(sections, onlyUnscheduled)
    ensures DistinctIds(SectionsOf(ToSchedule(sections, onlyUnscheduled)))
    ensures SectionOf(s) in SectionsOf(ToSchedule(sections, onlyUnscheduled))
    ensures PlacesId(ExistingToPlaced(AlreadyPlaced(sections)), s.id) <==> s.slots != []
  {
    ToScheduleExact(sections, onlyUnscheduled);
    SectionsOfIds(ToSchedule(sections, onlyUnscheduled));
    SeedIds(sections, s.id);
    if HasSchedule(sections, s.id) {
      var s' :| s' in sections && s'.slots != [] && s'.id == s.id;
      SameRow(sections, s, s');
    }
  }

  /** In no plan does a student of both have to be in two places, for any rooms, grid,
      availability and number of options. */
  lemma StudentsApart(sections: seq<SemesterSection>, onlyUnscheduled: bool, input: Input, collate: (string, string) -> bool,
                      plan: seq<Placed>, a: SemesterSection, b: SemesterSection, student: string)
    requires FromSemester(input, sections, onlyUnscheduled) && input.grid.SlotLength() > 0 && DistinctSections(sections)
    requires plan in Plans(input, collate)
    requires a in ToSchedule(sections, onlyUnscheduled) && b in ToSchedule(sections, onlyUnscheduled) && a.id != b.id
    requires student in a.students && student in b.students && KeptApart(a, b)
    ensures ApartIn(TimetableOf(input.Seed(), plan), a, b)
  {
    var p, seed := input.Problem(), input.Seed();
    ChosenSections(sections, onlyUnscheduled, a);
    ChosenSections(sections, onlyUnscheduled, b);
    StudentsPaired(ToSchedule(sections, onlyUnscheduled), a, b, student);
    var ordering, tail := PlanShape(input, collate, plan);
    DistinctIdsPermute(input.sections, ordering);
    SameMembers(ordering, input.sections);
    assert plan[|seed|..] == tail;
    TailApart(p, ordering, seed, tail, SectionOf(a), SectionOf(b));
  }

  /** The same of one order of the sections. */
  lemma TailApart(p: Problem, ordering: seq<Section>, seed: seq<Placed>, tail: seq<Placed>, a: Section, b: Section)
    requires Follows(p, ordering, tail) && DistinctIds(ordering) && a in ordering && b in ordering && a.id != b.id
    requires forall i :: 0 <= i < |tail| ==> Admissible(p, tail[i], seed + tail[..i])
    requires (Present(a.instructor) && a.instructor == b.instructor)
             || (ShareGroup(p.groups, a.id, b.id) && !PlacesId(seed, a.id) && !PlacesId(seed, b.id))
    ensures var t := TableOf(tail); a.id in t && b.id in t && !Overlap(t[a.id].slot, t[b.id].slot)
  {
    FollowsNamed(p, ordering, tail);
    var i := PlaceOf(ordering, tail, a);
    var j := PlaceOf(ordering, tail, b);
    ChoiceFields(p, a, tail[i]);
    ChoiceFields(p, b, tail[j]);
    if i < j { PairApart(p, ordering, seed, tail, i, j); } else { PairApart(p, ordering, seed, tail, j, i); }
  }

  lemma StudentsPaired(chosen: seq<SemesterSection>, a: SemesterSection, b: SemesterSection, student: string)
    requires a in chosen && b in chosen && a.id != b.id && student in a.students && student in b.students
    ensures ShareGroup(OverlapGroups(RostersOf(chosen), |RostersOf(chosen)|), a.id, b.id)
  {
    var rosters := RostersOf(chosen);
    var i :| 0 <= i < |chosen| && chosen[i] == a;
    var j :| 0 <= j < |chosen| && chosen[j] == b;
    var k :| 0 <= k < |a.students| && a.students[k] == student;
    var l :| 0 <= l < |b.students| && b.students[l] == student;
    assert rosters[i] == RosterOf(a) && rosters[j] == RosterOf(b);
    assert RosterOf(a).studentIds[k] in RosterOf(b).studentIds && RosterOf(b).studentIds[l] in RosterOf(a).studentIds;
    if i < j {
      assert Paired(rosters, i, j, a.id, b.id);
    } else {
      assert Paired(rosters, j, i, a.id, b.id);
    }
    GroupsExact(rosters, a.id, b.id);
  }

  /** Soundness of any plan over fresh, distinct ids, whatever the grid. */
  lemma PlanFeasible(input: Input, collate: (string, string) -> bool, plan: seq<Placed>)
    requires input.grid.SlotLength() > 0 && plan in Plans(input, collate)
    requires DistinctIds(input.sections) && FreshIds(input.sections, input.Seed())
    ensures FeasibleTable(input.Problem(), input.sections, input.Seed(), TimetableOf(input.Seed(), plan))
  {
    var p, seed, t := input.Problem(), input.Seed(), TimetableOf(input.Seed(), plan);
    var ordering := PlanFound(input, collate, plan);
    DistinctIdsPermute(input.sections, ordering);
    OrderIndependent(p, input.sections, ordering, seed);
    SolutionShape(p, ordering, seed, plan);
    TablesFoundExact(p, ordering, seed, t);
    TablesFoundExact(p, input.sections, seed, t);
  }
}
