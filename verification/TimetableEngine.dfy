/** Generating ranked timetable options: three searches in different orders, one list of
    solutions, deduplication by content, scoring and ranking. */
module TimetableEngine {
  import opened Results
  import opened Timetable
  import opened TimetableSearch
  import opened TimetableTheory
  import opened TimetableScore
  import opened TimeLabels
  import opened StableSort

  datatype Assignment = Assignment(
    sectionId: string, courseCode: string, roomId: string, day: string,
    startTime: string, endTime: string, instructor: Option<string>)

  datatype EngineOption = EngineOption(score: Number, assignments: seq<Assignment>, metrics: Metrics)

  datatype Input = Input(
    sections: seq<Section>, rooms: seq<Room>, existing: seq<Existing>, groups: Option<seq<seq<string>>>,
    availability: map<string, seq<Option<Slot>>>, grid: GridConfig, maxOptions: Option<int>)
  {
    function Max(): int { maxOptions.GetOr(3) }

    function Seed(): seq<Placed> { ExistingToPlaced(existing) }

    function Rooms(): RoomTable { RoomsOf(rooms) }

    function Problem(): Problem
      requires grid.SlotLength() > 0
    {
      Timetable.Problem(GridOf(grid), Rooms(), availability, groups.GetOr([]))
    }
  }

  // ---- orderings -----------------------------------------------------------------------

  function Priority(s: Section): int { (if Present(s.instructor) then 10 else 0) + s.enrollments }

  function Prioritised(sections: seq<Section>): seq<Section> {
    SortBy((a: Section, b: Section) => Priority(a) > Priority(b), sections)
  }

  function Reversed<T>(s: seq<T>): seq<T> {
    if s == [] then [] else Reversed(s[1..]) + [s[0]]
  }

  /** The host's string collation is a parameter. */
  function ByCode(collate: (string, string) -> bool, sections: seq<Section>): seq<Section> {
    SortBy((a: Section, b: Section) => collate(a.courseCode, b.courseCode), sections)
  }

  function Orderings(collate: (string, string) -> bool, sections: seq<Section>): seq<seq<Section>> {
    var sorted := Prioritised(sections);
    [sorted, Reversed(sorted), ByCode(collate, sorted)]
  }

  lemma {:induction false} ReversedPermutes<T>(s: seq<T>)
    ensures multiset(Reversed(s)) == multiset(s)
  {
    if s != [] {
      ReversedPermutes(s[1..]);
      assert s == [s[0]] + s[1..];
    }
  }

  lemma {:induction false} ReversedAt<T>(s: seq<T>, k: nat)
    requires k < |s|
    ensures |Reversed(s)| == |s| && Reversed(s)[k] == s[|s| - 1 - k]
  {
    if |s| > 1 { ReversedAt(s[1..], if k < |s| - 1 then k else 0); }
  }

  lemma OrderingsPermute(collate: (string, string) -> bool, sections: seq<Section>)
    ensures forall o :: o in Orderings(collate, sections) ==> multiset(o) == multiset(sections)
  {
    var sorted := Prioritised(sections);
    SortPermutes((a: Section, b: Section) => Priority(a) > Priority(b), sections);
    ReversedPermutes(sorted);
    SortPermutes((a: Section, b: Section) => collate(a.courseCode, b.courseCode), sorted);
  }

  /** The solutions of the searches over the given orderings, up to the cap. */
  function Solutions(p: Problem, orderings: seq<seq<Section>>, seed: seq<Placed>, max: int): seq<seq<Placed>> {
    if orderings == [] then []
    else Capped(Solutions(p, orderings[..|orderings| - 1], seed, max),
                Extensions(p, orderings[|orderings| - 1], seed), max)
  }

  // ---- deduplication -------------------------------------------------------------------

  datatype KeyPart = KeyPart(sectionId: string, roomId: string, day: string, start: int)

  function Part(c: Placed): KeyPart { KeyPart(c.sectionId, c.roomId, c.slot.day, c.slot.start) }

  function Parts(placed: seq<Placed>): seq<KeyPart> { seq(|placed|, i requires 0 <= i < |placed| => Part(placed[i])) }

  predicate Includes(sections: seq<Section>, id: string) {
    exists i :: 0 <= i < |sections| && sections[i].id == id
  }

  /** Placements of sections that were to be scheduled. */
  function Scheduled(sections: seq<Section>, placed: seq<Placed>): seq<Placed> {
    if placed == [] then []
    else Scheduled(sections, placed[..|placed| - 1])
         + if Includes(sections, placed[|placed| - 1].sectionId) then [placed[|placed| - 1]] else []
  }

  /** The sorted, joined list of parts is their multiset. */
  function Key(sections: seq<Section>, placed: seq<Placed>): multiset<KeyPart> {
    multiset(Parts(Scheduled(sections, placed)))
  }

  function KeysOf(sections: seq<Section>, plans: seq<seq<Placed>>): set<multiset<KeyPart>> {
    set plan | plan in plans :: Key(sections, plan)
  }

  /** The first solution with each key, in order of appearance. */
  function Dedupe(sections: seq<Section>, solutions: seq<seq<Placed>>): seq<seq<Placed>> {
    if solutions == [] then []
    else
      var front, last := Dedupe(sections, solutions[..|solutions| - 1]), solutions[|solutions| - 1];
      if Key(sections, last) in KeysOf(sections, front) then front else front + [last]
  }

  // ---- options -------------------------------------------------------------------------

  function ToAssignment(c: Placed): Assignment {
    Assignment(c.sectionId, c.courseCode, c.roomId, c.slot.day,
               MinutesToLabel(c.slot.start), MinutesToLabel(c.slot.end), c.instructor)
  }

  function ToAssignments(placed: seq<Placed>): seq<Assignment> {
    seq(|placed|, i requires 0 <= i < |placed| => ToAssignment(placed[i]))
  }

  /** `Math.round(x * 10) / 10`. */
  function RoundTenth(x: Number): Number {
    if x.NaN? then NaN else Number((x.value * 10.0 + 0.5).Floor as real / 10.0)
  }

  function OptionOf(input: Input, plan: seq<Placed>): EngineOption {
    var scheduled := Scheduled(input.sections, plan);
    EngineOption(RoundTenth(Score(scheduled, input.Rooms(), input.sections)), ToAssignments(scheduled),
                 MetricsOf(scheduled, input.Rooms()))
  }

  function OptionsOf(input: Input, plans: seq<seq<Placed>>): seq<EngineOption> {
    seq(|plans|, i requires 0 <= i < |plans| => OptionOf(input, plans[i]))
  }

  /** A difference with NaN orders nothing. */
  predicate Outranks(a: EngineOption, b: EngineOption) {
    a.score.Number? && b.score.Number? && a.score.value > b.score.value
  }

  /** The plans behind the options, before ranking. */
  function Plans(input: Input, collate: (string, string) -> bool): seq<seq<Placed>>
    requires input.grid.SlotLength() > 0
  {
    Dedupe(input.sections, Solutions(input.Problem(), Orderings(collate, input.sections), input.Seed(), input.Max()))
  }

  function Options(input: Input, collate: (string, string) -> bool): seq<EngineOption>
    requires input.grid.SlotLength() > 0
  {
    Capped([], SortBy(Outranks, OptionsOf(input, Plans(input, collate))), input.Max())
  }

  method Deduplicate(sections: seq<Section>, solutions: seq<seq<Placed>>) returns (unique: seq<seq<Placed>>)
    ensures unique == Dedupe(sections, solutions)
  {
    unique := [];
    var keys: set<multiset<KeyPart>> := {};
    for i := 0 to |solutions|
      invariant unique == Dedupe(sections, solutions[..i]) && keys == KeysOf(sections, unique)
    {
      assert solutions[..i + 1][..i] == solutions[..i];
      var key := Key(sections, solutions[i]);
      if key !in keys {
        unique := unique + [solutions[i]];
        keys := keys + {key};
        KeysOfSnoc(sections, unique[..|unique| - 1], solutions[i]);
      }
    }
    assert solutions[..|solutions|] == solutions;
  }

  lemma KeysOfSnoc(sections: seq<Section>, plans: seq<seq<Placed>>, plan: seq<Placed>)
    ensures KeysOf(sections, plans + [plan]) == KeysOf(sections, plans) + {Key(sections, plan)}
  {
  }

  method BuildOptions(input: Input, plans: seq<seq<Placed>>) returns (options: seq<EngineOption>)
    ensures options == OptionsOf(input, plans)
  {
    options := [];
    for i := 0 to |plans|
      invariant options == OptionsOf(input, plans[..i])
    {
      var scheduled := Scheduled(input.sections, plans[i]);
      var score, metrics := ScoreSolution(scheduled, input.Rooms(), input.sections);
      options := options + [EngineOption(RoundTenth(score), ToAssignments(scheduled), metrics)];
    }
    assert plans[..|plans|] == plans;
  }

  /** Ranked, conflict-free options. */
  method GenerateTimetableOptions(input: Input, collate: (string, string) -> bool) returns (options: seq<EngineOption>)
    requires input.grid.SlotLength() > 0
    ensures options == Options(input, collate)
  {
    var slots := BuildSlotGrid(input.grid);
    var p := Timetable.Problem(slots, input.Rooms(), input.availability, input.groups.GetOr([]));
    var max := input.Max();
    var orderings := Orderings(collate, input.sections);
    var search := new Search();
    for i := 0 to |orderings|
      invariant search.solutions == Solutions(p, orderings[..i], input.Seed(), max)
    {
      assert orderings[..i + 1][..i] == orderings[..i];
      if |search.solutions| < max {
        search.placed := input.Seed();
        search.Backtrack(p, orderings[i], 0, max);
        assert orderings[i][0..] == orderings[i];
      }
    }
    assert orderings[..|orderings|] == orderings;
    var unique := Deduplicate(input.sections, search.solutions);
    options := BuildOptions(input, unique);
    options := Capped([], SortBy(Outranks, options), max);
  }
}
