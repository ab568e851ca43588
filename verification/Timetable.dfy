/** The vocabulary of the timetabling engine: sections, rooms, slots, placements and the
    hard constraints between them. */
module Timetable {
  import opened Results

  datatype Slot = Slot(day: string, start: int, end: int)

  datatype Section = Section(
    id: string, courseCode: string, enrollments: nat, instructor: Option<string>,
    durationMinutes: Option<int>, preferredDays: seq<string>)

  datatype Placed = Placed(
    sectionId: string, courseCode: string, roomId: string, instructor: Option<string>,
    slot: Slot, enrollments: nat)

  datatype Room = Room(id: string, capacity: int)

  /** A `Map` from room id to capacity, with the insertion order in which its keys iterate. */
  datatype RoomTable = RoomTable(order: seq<string>, capacity: map<string, int>) {
    function Put(room: Room): RoomTable {
      RoomTable(if room.id in capacity then order else order + [room.id], capacity[room.id := room.capacity])
    }

    function CapacityOr(id: string, default: int): int {
      if id in capacity then capacity[id] else default
    }

    ghost predicate Valid() {
      Distinct(order) && forall id :: id in order <==> id in capacity
    }
  }

  /** An already scheduled section, with its schedule parsed into weekly slots. */
  datatype Existing = Existing(
    sectionId: string, courseCode: Option<string>, instructor: Option<string>, roomId: Option<string>,
    slots: seq<Slot>)

  /** What the search is given besides the sections themselves. An availability window that
      does not parse is None. */
  datatype Problem = Problem(
    slots: seq<Slot>, rooms: RoomTable, availability: map<string, seq<Option<Slot>>>, groups: seq<seq<string>>)

  predicate Distinct<T(==)>(s: seq<T>) {
    forall i, j :: 0 <= i < j < |s| ==> s[i] != s[j]
  }

  function RoomsOf(rooms: seq<Room>): RoomTable {
    if rooms == [] then RoomTable([], map[])
    else RoomsOf(rooms[..|rooms| - 1]).Put(rooms[|rooms| - 1])
  }

  lemma {:induction false} RoomsOfValid(rooms: seq<Room>)
    ensures RoomsOf(rooms).Valid()
  {
    if rooms != [] {
      RoomsOfValid(rooms[..|rooms| - 1]);
    }
  }

  predicate Overlap(a: Slot, b: Slot) {
    a.day == b.day && a.start < b.end && b.start < a.end
  }

  /** An id that JavaScript treats as absent when it is missing or empty. */
  predicate Present(id: Option<string>) { id.Some? && id.value != "" }

  predicate SameInstructor(a: Placed, b: Placed) {
    Present(a.instructor) && Present(b.instructor) && a.instructor == b.instructor
  }

  /** True without stated windows; otherwise one window must overlap the slot, not contain it. */
  predicate FacultyAvailable(instructor: Option<string>, slot: Slot, availability: map<string, seq<Option<Slot>>>) {
    !Present(instructor) || instructor.value !in availability || availability[instructor.value] == []
    || exists i :: 0 <= i < |availability[instructor.value]|
         && availability[instructor.value][i].Some? && Overlap(slot, availability[instructor.value][i].value)
  }

  predicate Collide(a: Placed, b: Placed) {
    Overlap(a.slot, b.slot) && (b.roomId == a.roomId || SameInstructor(a, b))
  }

  predicate HardClash(candidate: Placed, others: seq<Placed>, rooms: RoomTable) {
    rooms.CapacityOr(candidate.roomId, 0) < candidate.enrollments
    || exists i :: 0 <= i < |others| && Collide(candidate, others[i])
  }

  /** `placed.find`: the first placement of a section. */
  function First(placed: seq<Placed>, id: string): (r: Option<Placed>)
    ensures r.None? <==> forall i :: 0 <= i < |placed| ==> placed[i].sectionId != id
    ensures r.Some? ==> r.value in placed && r.value.sectionId == id
  {
    if placed == [] then None
    else if placed[0].sectionId == id then Some(placed[0])
    else First(placed[1..], id)
  }

  predicate FirstOverlaps(slot: Slot, placed: seq<Placed>, otherId: string) {
    First(placed, otherId).Some? && Overlap(slot, First(placed, otherId).value.slot)
  }

  predicate ShareGroup(groups: seq<seq<string>>, x: string, y: string) {
    exists g :: 0 <= g < |groups| && x in groups[g] && y in groups[g]
  }

  predicate StudentGroupsClash(sectionId: string, slot: Slot, placed: seq<Placed>, groups: seq<seq<string>>) {
    exists g, k :: 0 <= g < |groups| && sectionId in groups[g]
      && 0 <= k < |groups[g]| && groups[g][k] != sectionId && FirstOverlaps(slot, placed, groups[g][k])
  }

  predicate Admissible(p: Problem, candidate: Placed, placed: seq<Placed>) {
    !HardClash(candidate, placed, p.rooms)
    && !StudentGroupsClash(candidate.sectionId, candidate.slot, placed, p.groups)
  }

  // ---- lessons side by side ------------------------------------------------------------

  /** On one day, the one is over before the other begins. */
  predicate InTurn(a: Slot, b: Slot) { a.day == b.day ==> a.end <= b.start || b.end <= a.start }

  predicate OneTeacher(x: Option<string>, y: Option<string>) { x.Some? && x.value != "" && x == y }

  /** No room holds both at once and no teacher has to give both at once. */
  predicate SideBySide(a: Placed, b: Placed) {
    (a.roomId == b.roomId ==> InTurn(a.slot, b.slot)) && (OneTeacher(a.instructor, b.instructor) ==> InTurn(a.slot, b.slot))
  }

  lemma CollideMeans(a: Placed, b: Placed)
    ensures Collide(a, b) <==> !SideBySide(a, b)
  {
  }

  /** The slot takes up this minute of this day. */
  predicate Takes(slot: Slot, day: string, minute: int) { slot.day == day && slot.start <= minute < slot.end }

  /** Slots in turn have no minute in common, and unless one of them is empty no others have none. */
  lemma InTurnMinutes(a: Slot, b: Slot)
    ensures InTurn(a, b) ==> forall day, minute :: !(Takes(a, day, minute) && Takes(b, day, minute))
    ensures a.start < a.end && b.start < b.end && !InTurn(a, b) ==>
              exists minute :: Takes(a, a.day, minute) && Takes(b, a.day, minute)
  {
    if a.start < a.end && b.start < b.end && !InTurn(a, b) {
      var minute := if a.start < b.start then b.start else a.start;
      assert Takes(a, a.day, minute) && Takes(b, a.day, minute);
    }
  }

  const DEFAULT_DURATION: int := 60

  function Duration(s: Section): int { s.durationMinutes.GetOr(DEFAULT_DURATION) }

  function UseSlot(s: Section, slot: Slot): Slot { Slot(slot.day, slot.start, slot.start + Duration(s)) }

  function Candidate(s: Section, roomId: string, slot: Slot): Placed {
    Placed(s.id, s.courseCode, roomId, s.instructor, UseSlot(s, slot), s.enrollments)
  }

  predicate CanUse(p: Problem, s: Section, slot: Slot) {
    slot.end - slot.start >= Duration(s) && FacultyAvailable(s.instructor, UseSlot(s, slot), p.availability)
  }

  /** Fixed placements, one per parsed slot; a section without a room gets a room of its own. */
  function PlacedOf(ex: Existing, slots: seq<Slot>): seq<Placed> {
    seq(|slots|, i requires 0 <= i < |slots| =>
      Placed(ex.sectionId, ex.courseCode.GetOr(ex.sectionId), ex.roomId.GetOr("fixed-" + ex.sectionId),
             ex.instructor, slots[i], 0))
  }

  function ExistingToPlaced(existing: seq<Existing>): seq<Placed> {
    if existing == [] then []
    else ExistingToPlaced(existing[..|existing| - 1])
         + PlacedOf(existing[|existing| - 1], existing[|existing| - 1].slots)
  }

  // ---- the slot grid -------------------------------------------------------------------

  datatype GridConfig = GridConfig(
    days: Option<seq<string>>, dayStartMinutes: Option<int>, dayEndMinutes: Option<int>, slotMinutes: Option<int>)
  {
    function Days(): seq<string> { days.GetOr(["MON", "TUE", "WED", "THU", "FRI"]) }
    function DayStart(): int { dayStartMinutes.GetOr(8 * 60) }
    function DayEnd(): int { dayEndMinutes.GetOr(18 * 60) }
    function SlotLength(): int { slotMinutes.GetOr(60) }
  }

  /** Consecutive slots of one day from time t on. */
  function DaySlots(day: string, t: int, end: int, len: int): seq<Slot>
    requires len > 0
    decreases end - t
  {
    if t + len <= end then [Slot(day, t, t + len)] + DaySlots(day, t + len, end, len) else []
  }

  function Grid(days: seq<string>, start: int, end: int, len: int): seq<Slot>
    requires len > 0
  {
    if days == [] then [] else Grid(days[..|days| - 1], start, end, len) + DaySlots(days[|days| - 1], start, end, len)
  }

  function GridOf(config: GridConfig): seq<Slot>
    requires config.SlotLength() > 0
  {
    Grid(config.Days(), config.DayStart(), config.DayEnd(), config.SlotLength())
  }

  lemma DaySlotsStep(out: seq<Slot>, day: string, t: int, end: int, len: int)
    requires len > 0
    ensures out + DaySlots(day, t, end, len) ==
            if t + len <= end then (out + [Slot(day, t, t + len)]) + DaySlots(day, t + len, end, len) else out
  {
  }

  lemma GridSnoc(days: seq<string>, i: nat, start: int, end: int, len: int)
    requires len > 0 && i < |days|
    ensures Grid(days[..i + 1], start, end, len) == Grid(days[..i], start, end, len) + DaySlots(days[i], start, end, len)
  {
    assert days[..i + 1][..i] == days[..i];
  }

  /** A non-positive slot length would keep the engine's loop running, hence the precondition. */
  method BuildSlotGrid(config: GridConfig) returns (out: seq<Slot>)
    requires config.SlotLength() > 0
    ensures out == GridOf(config)
  {
    var days, start, end, len := config.Days(), config.DayStart(), config.DayEnd(), config.SlotLength();
    out := [];
    for i := 0 to |days|
      invariant out == Grid(days[..i], start, end, len)
    {
      ghost var grid := out + DaySlots(days[i], start, end, len);
      var t := start;
      while t + len <= end
        invariant out + DaySlots(days[i], t, end, len) == grid
        decreases end - t
      {
        DaySlotsStep(out, days[i], t, end, len);
        out := out + [Slot(days[i], t, t + len)];
        t := t + len;
      }
      DaySlotsStep(out, days[i], t, end, len);
      GridSnoc(days, i, start, end, len);
    }
    assert days[..|days|] == days;
  }

  /** A day too short for one slot leaves the grid empty. */
  lemma {:induction false} NoSlots(days: seq<string>, start: int, end: int, len: int)
    requires len > 0 && start + len > end
    ensures Grid(days, start, end, len) == []
  {
    if days != [] { NoSlots(days[..|days| - 1], start, end, len); }
  }

  lemma {:induction false} FirstSlotIn(days: seq<string>, day: string, start: int, end: int, len: int)
    requires len > 0 && start + len <= end && day in days
    ensures Slot(day, start, start + len) in Grid(days, start, end, len)
  {
    var front, last := days[..|days| - 1], days[|days| - 1];
    if day == last {
      assert DaySlots(day, start, end, len)[0] == Slot(day, start, start + len);
    } else {
      FirstSlotIn(front, day, start, end, len);
    }
  }

  /** A day listed twice puts a slot into the grid twice. */
  lemma {:induction false} SlotTwice(days: seq<string>, start: int, end: int, len: int) returns (i: nat, j: nat)
    requires len > 0 && start + len <= end && !Distinct(days)
    ensures i < j < |Grid(days, start, end, len)| && Grid(days, start, end, len)[i] == Grid(days, start, end, len)[j]
  {
    var front, last := days[..|days| - 1], days[|days| - 1];
    var g, d := Grid(front, start, end, len), DaySlots(last, start, end, len);
    assert days == front + [last];
    GridSnoc(days, |front|, start, end, len);
    assert days[..|days|] == days;
    if Distinct(front) {
      assert last in front;
      FirstSlotIn(front, last, start, end, len);
      i := IndexOf(g, Slot(last, start, start + len));
      j := |g|;
      FirstOfDay(last, start, end, len);
      assert (g + d)[i] == g[i] && (g + d)[j] == d[0];
    } else {
      i, j := SlotTwice(front, start, end, len);
      assert (g + d)[i] == g[i] && (g + d)[j] == g[j];
    }
  }

  lemma IndexOf<T>(s: seq<T>, x: T) returns (i: nat)
    requires x in s
    ensures i < |s| && s[i] == x
  {
    i :| 0 <= i < |s| && s[i] == x;
  }

  lemma FirstOfDay(day: string, start: int, end: int, len: int)
    requires len > 0 && start + len <= end
    ensures DaySlots(day, start, end, len) != [] && DaySlots(day, start, end, len)[0] == Slot(day, start, start + len)
  {
  }

  lemma {:induction false} DaySlotsShape(day: string, t: int, end: int, len: int)
    requires len > 0
    ensures forall i :: 0 <= i < |DaySlots(day, t, end, len)| ==>
      var s := DaySlots(day, t, end, len)[i];
      s.day == day && t <= s.start && s.end == s.start + len <= end
    ensures forall i, j :: 0 <= i < j < |DaySlots(day, t, end, len)| ==>
      DaySlots(day, t, end, len)[i].start < DaySlots(day, t, end, len)[j].start
    decreases end - t
  {
    if t + len <= end { DaySlotsShape(day, t + len, end, len); }
  }

  /** No two slots of the sequence start at the same time of the same day. */
  ghost predicate DistinctStarts(slots: seq<Slot>) {
    forall i, j :: 0 <= i < j < |slots| ==> slots[i].day != slots[j].day || slots[i].start != slots[j].start
  }

  /** Slots lie within the day, one length long, and start apart when the days differ. */
  lemma {:induction false} GridShape(days: seq<string>, start: int, end: int, len: int)
    requires len > 0
    ensures forall s :: s in Grid(days, start, end, len) ==> s.day in days && start <= s.start && s.end == s.start + len <= end
    ensures Distinct(days) ==> DistinctStarts(Grid(days, start, end, len))
  {
    if days != [] {
      var front, last := days[..|days| - 1], days[|days| - 1];
      GridShape(front, start, end, len);
      DaySlotsShape(last, start, end, len);
      var g, d := Grid(front, start, end, len), DaySlots(last, start, end, len);
      if Distinct(days) {
        assert Distinct(front) && last !in front;
        var all: seq<Slot> := g + d;
        forall i, j | 0 <= i < j < |all|
          ensures all[i].day != all[j].day || all[i].start != all[j].start
        {
          if i < |g| && |g| <= j { assert g[i] in g; }
        }
      }
    }
  }
}
