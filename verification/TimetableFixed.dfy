/** A new section beside sections that are not scheduled again: the default semester call keeps
    these where they are and leaves them out of the conflict groups. */
module TimetableFixed {
  import opened Results
  import opened Timetable
  import opened TimetableSearch
  import opened TimetableTheory
  import opened TimetableEngine
  import opened TimetableCount
  import opened TimetableCheck
  import opened TimetableStudents
  import opened TimetableConstraints
  import opened TimetableStale

  ghost predicate ClearIn(t: Table, a: SemesterSection, b: SemesterSection) {
    b.id in t && Clear(t[b.id].slot, a.slots)
  }

  /** No plan on the grid puts b over a slot of a, whatever the rooms, the availability and the
      number of options. */
  ghost predicate ClearOn(sections: seq<SemesterSection>, onlyUnscheduled: bool, collate: (string, string) -> bool,
                          grid: GridConfig, a: SemesterSection, b: SemesterSection)
    requires grid.SlotLength() > 0
  {
    forall input: Input, plan :: PlanOn(sections, onlyUnscheduled, collate, grid, input, plan) ==>
      ClearIn(TimetableOf(input.Seed(), plan), a, b)
  }

  /** Every hour of the grid that b's teacher has free is clear of a. */
  ghost predicate FreeHoursClear(sections: seq<SemesterSection>, grid: GridConfig, a: SemesterSection, b: SemesterSection)
    requires grid.SlotLength() > 0
  {
    forall h :: Usable(grid, h) && TeacherFree(sections, b, h) ==> Clear(h, a.slots)
  }

  lemma NewHour(sections: seq<SemesterSection>, onlyUnscheduled: bool, collate: (string, string) -> bool, grid: GridConfig,
                input: Input, plan: seq<Placed>, b: SemesterSection)
    requires grid.SlotLength() > 0 && DistinctSections(sections) && b in ToSchedule(sections, onlyUnscheduled)
    requires PlanOn(sections, onlyUnscheduled, collate, grid, input, plan)
    ensures var t := TimetableOf(input.Seed(), plan);
            b.id in t && Usable(grid, t[b.id].slot) && TeacherFree(sections, b, t[b.id].slot)
  {
    ChosenSections(sections, onlyUnscheduled, b);
    var ordering, tail := PlanShape(input, collate, plan);
    DistinctIdsPermute(input.sections, ordering);
    SameMembers(ordering, input.sections);
    FollowsNamed(input.Problem(), ordering, tail);
    assert plan[|input.Seed()|..] == tail;
    var i := PlaceOf(ordering, tail, SectionOf(b));
    HourTaken(grid, input.Problem(), sections, b, tail[i], tail[..i]);
  }

  /** In any semester the new section keeps clear of a if every free hour does. */
  lemma ClearWhere(sections: seq<SemesterSection>, onlyUnscheduled: bool, collate: (string, string) -> bool, grid: GridConfig,
                   a: SemesterSection, b: SemesterSection)
    requires grid.SlotLength() > 0 && DistinctSections(sections) && b in ToSchedule(sections, onlyUnscheduled)
    requires FreeHoursClear(sections, grid, a, b)
    ensures ClearOn(sections, onlyUnscheduled, collate, grid, a, b)
  {
    forall input: Input, plan | PlanOn(sections, onlyUnscheduled, collate, grid, input, plan)
      ensures ClearIn(TimetableOf(input.Seed(), plan), a, b)
    {
      NewHour(sections, onlyUnscheduled, collate, grid, input, plan, b);
    }
  }

  /** On a given grid, with b the only section to schedule among any number that stay. */
  lemma ClearOnGrid(sections: seq<SemesterSection>, onlyUnscheduled: bool, collate: (string, string) -> bool, grid: GridConfig,
                    a: SemesterSection, b: SemesterSection)
    requires grid.SlotLength() > 0 && DistinctSections(sections) && ToSchedule(sections, onlyUnscheduled) == [b]
    ensures ClearOn(sections, onlyUnscheduled, collate, grid, a, b) <==> FreeHoursClear(sections, grid, a, b)
  {
    if FreeHoursClear(sections, grid, a, b) {
      ClearWhere(sections, onlyUnscheduled, collate, grid, a, b);
    } else {
      var h :| Usable(grid, h) && TeacherFree(sections, b, h) && !Clear(h, a.slots);
      OverFixed(sections, onlyUnscheduled, collate, grid, a, b, h);
    }
  }

  /** A new section can be put on any slot of a section that stays, at an hour its teacher has
      free, even if every student attends both. */
  lemma OverFixed(sections: seq<SemesterSection>, onlyUnscheduled: bool, collate: (string, string) -> bool, grid: GridConfig,
                  a: SemesterSection, b: SemesterSection, h: Slot)
    requires grid.SlotLength() > 0 && DistinctSections(sections) && ToSchedule(sections, onlyUnscheduled) == [b]
    requires Usable(grid, h) && TeacherFree(sections, b, h) && !Clear(h, a.slots)
    ensures !ClearOn(sections, onlyUnscheduled, collate, grid, a, b)
  {
    var input, plan := AloneOn(sections, onlyUnscheduled, collate, grid, b, h);
    assert !ClearIn(TimetableOf(input.Seed(), plan), a, b);
  }

  // ---- over all grids of the semester call ----------------------------------------------------

  ghost predicate AlwaysClear(sections: seq<SemesterSection>, onlyUnscheduled: bool, collate: (string, string) -> bool,
                              a: SemesterSection, b: SemesterSection)
  {
    forall parsed :: ClearOn(sections, onlyUnscheduled, collate, SemesterGrid(parsed), a, b)
  }

  ghost predicate SchoolHoursClear(sections: seq<SemesterSection>, a: SemesterSection, b: SemesterSection) {
    forall h :: SchoolHour(h) && TeacherFree(sections, b, h) ==> Clear(h, a.slots)
  }

  lemma SchoolGridClear(sections: seq<SemesterSection>, parsed: Parsed, a: SemesterSection, b: SemesterSection)
    requires SchoolHoursClear(sections, a, b)
    ensures FreeHoursClear(sections, SemesterGrid(parsed), a, b)
  {
    forall h | Usable(SemesterGrid(parsed), h) && TeacherFree(sections, b, h) ensures Clear(h, a.slots) {
      SemesterUsable(parsed, h);
      SchoolHours(h);
    }
  }

  /** In any semester, however many sections are to be scheduled. */
  lemma NewSectionSafe(sections: seq<SemesterSection>, onlyUnscheduled: bool, collate: (string, string) -> bool,
                       a: SemesterSection, b: SemesterSection)
    requires DistinctSections(sections) && b in ToSchedule(sections, onlyUnscheduled) && SchoolHoursClear(sections, a, b)
    ensures AlwaysClear(sections, onlyUnscheduled, collate, a, b)
  {
    forall parsed ensures ClearOn(sections, onlyUnscheduled, collate, SemesterGrid(parsed), a, b) {
      SchoolGridClear(sections, parsed, a, b);
      ClearWhere(sections, onlyUnscheduled, collate, SemesterGrid(parsed), a, b);
    }
  }

  /** With b the only section to schedule: it keeps clear of a in every plan exactly when every
      school hour that its teacher has free does. */
  lemma NewSectionExact(sections: seq<SemesterSection>, onlyUnscheduled: bool, collate: (string, string) -> bool,
                        a: SemesterSection, b: SemesterSection)
    requires DistinctSections(sections) && ToSchedule(sections, onlyUnscheduled) == [b]
    ensures AlwaysClear(sections, onlyUnscheduled, collate, a, b) <==> SchoolHoursClear(sections, a, b)
  {
    if SchoolHoursClear(sections, a, b) {
      NewSectionSafe(sections, onlyUnscheduled, collate, a, b);
    } else {
      var h :| SchoolHour(h) && TeacherFree(sections, b, h) && !Clear(h, a.slots);
      var parsed := Parsed({}, Some(h.start), None);
      HourReachable(h);
      SemesterUsable(parsed, h);
      OverFixed(sections, onlyUnscheduled, collate, SemesterGrid(parsed), a, b, h);
    }
  }

  /** If b's teacher has no other fixed lesson, b keeps clear of a exactly when the teacher has
      to be in both or a lies outside school hours. */
  lemma NewSectionAgainstOne(sections: seq<SemesterSection>, onlyUnscheduled: bool, collate: (string, string) -> bool,
                             a: SemesterSection, b: SemesterSection)
    requires DistinctSections(sections) && ToSchedule(sections, onlyUnscheduled) == [b] && a in sections
    requires Present(b.instructor) ==> forall c :: c in sections && c != a && c.instructor == b.instructor ==> c.slots == []
    ensures AlwaysClear(sections, onlyUnscheduled, collate, a, b) <==>
            (Present(b.instructor) && a.instructor == b.instructor) || forall h :: SchoolHour(h) ==> Clear(h, a.slots)
  {
    NewSectionExact(sections, onlyUnscheduled, collate, a, b);
    if !(Present(b.instructor) && a.instructor == b.instructor) {
      forall h ensures TeacherFree(sections, b, h) {
      }
    }
  }

  // ---- why more sections can only make it safer ------------------------------------------------

  /** One section whose teacher has no school hour free leaves a semester without any plan, so
      that nothing can meet in it. */
  lemma NoPlanAtAll(sections: seq<SemesterSection>, onlyUnscheduled: bool, collate: (string, string) -> bool, parsed: Parsed,
                    s: SemesterSection, input: Input, plan: seq<Placed>)
    requires DistinctSections(sections) && s in ToSchedule(sections, onlyUnscheduled)
    requires forall h :: SchoolHour(h) ==> !TeacherFree(sections, s, h)
    ensures !PlanOn(sections, onlyUnscheduled, collate, SemesterGrid(parsed), input, plan)
  {
    var grid := SemesterGrid(parsed);
    if PlanOn(sections, onlyUnscheduled, collate, grid, input, plan) {
      NewHour(sections, onlyUnscheduled, collate, grid, input, plan, s);
      var h := TimetableOf(input.Seed(), plan)[s.id].slot;
      SemesterUsable(parsed, h);
      SchoolHours(h);
      assert false;
    }
  }

  // ---- on the default grid ----------------------------------------------------------------------

  const MONDAY_EIGHT := Slot("MON", 480, 540)
  const TUESDAY_EIGHT := Slot("TUE", 480, 540)
  const NEW := SemesterSection("b", "B", None, None, [], ["s"])

  function Taught(slot: Slot): SemesterSection { SemesterSection("a", "A", None, None, [slot], ["s"]) }

  lemma MondayUsable()
    ensures Usable(SemesterGrid(UNCONSTRAINED), MONDAY_EIGHT)
  {
    var grid := SemesterGrid(UNCONSTRAINED);
    SemesterDays(UNCONSTRAINED, "MON");
    assert WEEK[0] == "MON";
    FirstSlotIn(grid.Days(), "MON", grid.DayStart(), grid.DayEnd(), 60);
    SemesterUsable(UNCONSTRAINED, MONDAY_EIGHT);
  }

  lemma TwoSections(slot: Slot)
    ensures DistinctSections([Taught(slot), NEW])
    ensures ToSchedule([Taught(slot), NEW], true) == [NEW]
    ensures ToSchedule([Taught(slot), NEW], false) == [Taught(slot), NEW]
  {
    var both := [Taught(slot), NEW];
    assert both[1..] == [NEW] && [NEW][1..] == [];
    assert ToSchedule([NEW], true) == [NEW] + ToSchedule([], true) == [NEW];
    assert ToSchedule([NEW], false) == [NEW] + ToSchedule([], false) == [NEW];
  }

  /** The default call on the default grid: A keeps Monday at eight, and some plan puts B, whose
      only student attends A, there as well. */
  lemma DefaultCallOverlaps(collate: (string, string) -> bool)
    ensures !ClearOn([Taught(MONDAY_EIGHT), NEW], true, collate, SemesterGrid(UNCONSTRAINED), Taught(MONDAY_EIGHT), NEW)
  {
    TwoSections(MONDAY_EIGHT);
    MondayUsable();
    assert Taught(MONDAY_EIGHT).slots[0] == MONDAY_EIGHT;
    OverFixed([Taught(MONDAY_EIGHT), NEW], true, collate, SemesterGrid(UNCONSTRAINED), Taught(MONDAY_EIGHT), NEW, MONDAY_EIGHT);
  }

  /** A call that schedules everything again, on the default grid: A has Tuesday at eight, and
      some plan puts both on Monday at eight. */
  lemma FullCallOverlaps(collate: (string, string) -> bool)
    ensures !ApartOn([Taught(TUESDAY_EIGHT), NEW], false, collate, SemesterGrid(UNCONSTRAINED), Taught(TUESDAY_EIGHT), NEW)
  {
    var a, both := Taught(TUESDAY_EIGHT), [Taught(TUESDAY_EIGHT), NEW];
    TwoSections(TUESDAY_EIGHT);
    MondayUsable();
    assert both[0] == a && both[1] == NEW;
    UnsafeOn(both, false, collate, SemesterGrid(UNCONSTRAINED), a, NEW, MONDAY_EIGHT);
  }

  // ---- a teacher without a free hour -------------------------------------------------------------

  function AllDay(day: string): Slot { Slot(day, OPENING, CLOSING) }

  const EVERY_DAY: seq<Slot> := [AllDay("MON"), AllDay("TUE"), AllDay("WED"), AllDay("THU"), AllDay("FRI")]
  const BUSY := SemesterSection("f", "F", Some("t"), None, EVERY_DAY, [])
  const HOPELESS := SemesterSection("c", "C", Some("t"), None, [], [])

  lemma BusyAllWeek(sections: seq<SemesterSection>, h: Slot)
    requires BUSY in sections && SchoolHour(h)
    ensures !TeacherFree(sections, HOPELESS, h)
  {
    var k :| 0 <= k < |WEEK| && WEEK[k] == h.day;
    assert EVERY_DAY[k] == AllDay(WEEK[k]);
    assert Overlap(h, BUSY.slots[k]);
  }

  lemma FourSections()
    ensures var all := [Taught(MONDAY_EIGHT), NEW, HOPELESS, BUSY];
            DistinctSections(all) && NEW in ToSchedule(all, true) && HOPELESS in ToSchedule(all, true) && BUSY in all
  {
    var all := [Taught(MONDAY_EIGHT), NEW, HOPELESS, BUSY];
    ToScheduleExact(all, true);
    assert all[0].id == "a" && all[1] == NEW && all[2] == HOPELESS && all[3] == BUSY;
  }

  /** Beside such a section the pair of DefaultCallOverlaps is safe, for want of any plan, although
      A meets a school hour and nobody teaches both. */
  lemma SafeForWantOfPlans(collate: (string, string) -> bool)
    ensures var all := [Taught(MONDAY_EIGHT), NEW, HOPELESS, BUSY];
            AlwaysClear(all, true, collate, Taught(MONDAY_EIGHT), NEW)
            && SchoolHour(MONDAY_EIGHT) && !Clear(MONDAY_EIGHT, Taught(MONDAY_EIGHT).slots)
  {
    var all := [Taught(MONDAY_EIGHT), NEW, HOPELESS, BUSY];
    FourSections();
    forall h | SchoolHour(h) ensures !TeacherFree(all, HOPELESS, h) { BusyAllWeek(all, h); }
    forall parsed, input: Input, plan
      ensures !PlanOn(all, true, collate, SemesterGrid(parsed), input, plan)
    {
      NoPlanAtAll(all, true, collate, parsed, HOPELESS, input, plan);
    }
    assert WEEK[0] == "MON" && Taught(MONDAY_EIGHT).slots[0] == MONDAY_EIGHT;
  }
}
