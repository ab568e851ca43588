/** The backtracking search: the enumeration it performs, the in-place solver that performs
    it, and the order-free meaning of what it finds. */
module TimetableSearch {
  import opened Results
  import opened Timetable

  // ---- the enumeration -----------------------------------------------------------------

  /** Placements of a section in one room that do not depend on what is already placed. */
  function SlotChoices(p: Problem, s: Section, roomId: string, slots: seq<Slot>): seq<Placed> {
    if slots == [] then []
    else
      var last := slots[|slots| - 1];
      SlotChoices(p, s, roomId, slots[..|slots| - 1])
      + if CanUse(p, s, last) then [Candidate(s, roomId, last)] else []
  }

  function RoomChoices(p: Problem, s: Section, rooms: seq<string>): seq<Placed> {
    if rooms == [] then []
    else RoomChoices(p, s, rooms[..|rooms| - 1]) + SlotChoices(p, s, rooms[|rooms| - 1], p.slots)
  }

  function SuitableRooms(p: Problem, s: Section, rooms: seq<string>): seq<string> {
    if rooms == [] then []
    else if p.rooms.CapacityOr(rooms[0], -1) >= s.enrollments then [rooms[0]] + SuitableRooms(p, s, rooms[1..])
    else SuitableRooms(p, s, rooms[1..])
  }

  function Choices(p: Problem, s: Section): seq<Placed> {
    RoomChoices(p, s, SuitableRooms(p, s, p.rooms.order))
  }

  /** Every completion of `placed` by the given sections, in search order. */
  function Extensions(p: Problem, sections: seq<Section>, placed: seq<Placed>): seq<seq<Placed>>
    decreases |sections|, 1, 0
  {
    if sections == [] then [placed] else Branches(p, sections, placed, Choices(p, sections[0]))
  }

  function Branches(p: Problem, sections: seq<Section>, placed: seq<Placed>, choices: seq<Placed>): seq<seq<Placed>>
    requires sections != []
    decreases |sections|, 0, |choices|
  {
    if choices == [] then []
    else
      var c := choices[|choices| - 1];
      Branches(p, sections, placed, choices[..|choices| - 1])
      + if Admissible(p, c, placed) then Extensions(p, sections[1..], placed + [c]) else []
  }

  /** Appending without growing past the cap; a list already at the cap is left alone. */
  function Capped<T>(base: seq<T>, more: seq<T>, max: int): (r: seq<T>)
    ensures |base| <= max ==> |r| <= max
  {
    if |base| >= max then base
    else if |base| + |more| <= max then base + more
    else base + more[..max - |base|]
  }

  lemma CappedAgain<T>(base: seq<T>, x: seq<T>, y: seq<T>, max: int)
    ensures Capped(Capped(base, x, max), y, max) == Capped(base, x + y, max)
  {
    if |base| < max {
      var room := max - |base|;
      assert base + (x + y) == (base + x) + y;
      if room < |x| {
        assert (x + y)[..room] == x[..room];
      } else if room < |x| + |y| {
        assert (x + y)[..room] == x + y[..room - |x|];
        assert base + (x + y[..room - |x|]) == (base + x) + y[..room - |x|];
      }
    }
  }

  // ---- the solver ----------------------------------------------------------------------

  /** What looking at one more slot of one more room adds to the enumeration. */
  lemma NextSlot(p: Problem, sections: seq<Section>, placed: seq<Placed>, done: seq<Placed>, roomId: string, j: nat)
    requires sections != [] && j < |p.slots|
    ensures var s, slot := sections[0], p.slots[j];
            Branches(p, sections, placed, done + SlotChoices(p, s, roomId, p.slots[..j + 1]))
            == Branches(p, sections, placed, done + SlotChoices(p, s, roomId, p.slots[..j]))
               + if CanUse(p, s, slot) && Admissible(p, Candidate(s, roomId, slot), placed)
                 then Extensions(p, sections[1..], placed + [Candidate(s, roomId, slot)]) else []
  {
    var s, slot := sections[0], p.slots[j];
    var tried, next := done + SlotChoices(p, s, roomId, p.slots[..j]), done + SlotChoices(p, s, roomId, p.slots[..j + 1]);
    assert p.slots[..j + 1][..j] == p.slots[..j];
    if CanUse(p, s, slot) {
      assert next == tried + [Candidate(s, roomId, slot)];
      assert next[..|next| - 1] == tried;
    } else {
      assert next == tried;
    }
  }

  /** The same of the list of solutions under its cap. */
  lemma NextSlotCapped(p: Problem, sections: seq<Section>, placed: seq<Placed>, done: seq<Placed>, roomId: string, j: nat,
                       before: seq<seq<Placed>>, max: int)
    requires sections != [] && j < |p.slots|
    ensures var s, slot := sections[0], p.slots[j];
            var tried := Capped(before, Branches(p, sections, placed, done + SlotChoices(p, s, roomId, p.slots[..j])), max);
            Capped(before, Branches(p, sections, placed, done + SlotChoices(p, s, roomId, p.slots[..j + 1])), max)
            == if CanUse(p, s, slot) && Admissible(p, Candidate(s, roomId, slot), placed)
               then Capped(tried, Extensions(p, sections[1..], placed + [Candidate(s, roomId, slot)]), max) else tried
  {
    var s, slot := sections[0], p.slots[j];
    var c := Candidate(s, roomId, slot);
    var tried := Branches(p, sections, placed, done + SlotChoices(p, s, roomId, p.slots[..j]));
    NextSlot(p, sections, placed, done, roomId, j);
    if CanUse(p, s, slot) && Admissible(p, c, placed) {
      CappedAgain(before, tried, Extensions(p, sections[1..], placed + [c]), max);
    } else {
      assert tried + [] == tried;
    }
  }

  lemma NextRoom(p: Problem, s: Section, rooms: seq<string>, i: nat)
    requires i < |rooms|
    ensures RoomChoices(p, s, rooms[..i]) + SlotChoices(p, s, rooms[i], p.slots[..0]) == RoomChoices(p, s, rooms[..i])
    ensures RoomChoices(p, s, rooms[..i]) + SlotChoices(p, s, rooms[i], p.slots[..|p.slots|])
            == RoomChoices(p, s, rooms[..i + 1])
  {
    assert rooms[..i + 1][..i] == rooms[..i];
    assert p.slots[..|p.slots|] == p.slots;
  }

  /** The two arrays the recursive calls share. */
  class Search {
    var placed: seq<Placed>
    var solutions: seq<seq<Placed>>

    constructor ()
      ensures placed == [] && solutions == []
    {
      placed, solutions := [], [];
    }

    /** Leaves `placed` as found and appends exactly the enumeration, up to the cap. */
    method Backtrack(p: Problem, sections: seq<Section>, index: nat, maxSolutions: int)
      requires index <= |sections|
      modifies this
      ensures placed == old(placed)
      ensures solutions == Capped(old(solutions), Extensions(p, sections[index..], old(placed)), maxSolutions)
      decreases |sections| - index
    {
      if |solutions| >= maxSolutions { return; }
      if index >= |sections| {
        solutions := solutions + [placed];
        return;
      }
      var section := sections[index];
      ghost var rest, before, fixed := sections[index..], solutions, placed;
      assert rest[0] == section && rest[1..] == sections[index + 1..];
      var roomList := SuitableRooms(p, section, p.rooms.order);
      for i := 0 to |roomList|
        invariant placed == fixed
        invariant solutions == Capped(before, Branches(p, rest, fixed, RoomChoices(p, section, roomList[..i])), maxSolutions)
      {
        ghost var done := RoomChoices(p, section, roomList[..i]);
        NextRoom(p, section, roomList, i);
        for j := 0 to |p.slots|
          invariant placed == fixed
          invariant solutions == Capped(before,
            Branches(p, rest, fixed, done + SlotChoices(p, section, roomList[i], p.slots[..j])), maxSolutions)
        {
          var slot := p.slots[j];
          NextSlotCapped(p, rest, fixed, done, roomList[i], j, before, maxSolutions);
          if slot.end - slot.start < Duration(section) { continue; }
          if !FacultyAvailable(section.instructor, UseSlot(section, slot), p.availability) { continue; }
          var candidate := Candidate(section, roomList[i], slot);
          if HardClash(candidate, placed, p.rooms) { continue; }
          if StudentGroupsClash(section.id, candidate.slot, placed, p.groups) { continue; }
          placed := placed + [candidate];
          Backtrack(p, sections, index + 1, maxSolutions);
          placed := placed[..|placed| - 1];
        }
      }
      assert roomList[..|roomList|] == roomList;
    }
  }
}
