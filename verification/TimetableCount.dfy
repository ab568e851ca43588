/** How many options come out: exactly as many as asked for, or one for each feasible
    timetable if there are fewer. */
module TimetableCount {
  import opened Results
  import opened Timetable
  import opened TimetableSearch
  import opened TimetableTheory
  import opened TimetableScore
  import opened TimetableEngine
  import opened StableSort

  // ---- keys and timetables -------------------------------------------------------------

  lemma {:induction false} ScheduledConcat(sections: seq<Section>, a: seq<Placed>, b: seq<Placed>)
    ensures Scheduled(sections, a + b) == Scheduled(sections, a) + Scheduled(sections, b)
  {
    if b == [] {
      assert a + b == a;
    } else {
      assert (a + b)[..|a + b| - 1] == a + b[..|b| - 1];
      ScheduledConcat(sections, a, b[..|b| - 1]);
    }
  }

  lemma {:induction false} ScheduledNone(sections: seq<Section>, placed: seq<Placed>)
    requires forall c :: c in placed ==> !Includes(sections, c.sectionId)
    ensures Scheduled(sections, placed) == []
  {
    if placed != [] {
      assert placed[|placed| - 1] in placed;
      ScheduledNone(sections, placed[..|placed| - 1]);
    }
  }

  lemma {:induction false} ScheduledAll(sections: seq<Section>, placed: seq<Placed>)
    requires forall c :: c in placed ==> Includes(sections, c.sectionId)
    ensures Scheduled(sections, placed) == placed
  {
    if placed != [] {
      assert placed[|placed| - 1] in placed;
      ScheduledAll(sections, placed[..|placed| - 1]);
    }
  }

  /** Of a solution over fresh ids the scheduled part is what follows the seed. */
  lemma ScheduledTail(sections: seq<Section>, ordering: seq<Section>, seed: seq<Placed>, tail: seq<Placed>)
    requires multiset(ordering) == multiset(sections) && Named(ordering, tail) && FreshIds(sections, seed)
    ensures Scheduled(sections, seed + tail) == tail
  {
    SameMembers(ordering, sections);
    forall c, i | c in seed && 0 <= i < |sections| ensures sections[i].id != c.sectionId {
      assert sections[i] in sections;
    }
    forall c | c in tail ensures Includes(sections, c.sectionId) {
      var i :| 0 <= i < |tail| && tail[i] == c;
      assert ordering[i] in sections;
      var j :| 0 <= j < |sections| && sections[j] == ordering[i];
      assert sections[j].id == c.sectionId;
    }
    ScheduledConcat(sections, seed, tail);
    ScheduledNone(sections, seed);
    ScheduledAll(sections, tail);
  }

  ghost function PartIn(t: Table, s: Section): KeyPart {
    if s.id in t then Part(t[s.id]) else KeyPart(s.id, "", "", 0)
  }

  ghost function TableParts(t: Table, sections: seq<Section>): seq<KeyPart> {
    seq(|sections|, i requires 0 <= i < |sections| => PartIn(t, sections[i]))
  }

  lemma RemoveAt<T>(s: seq<T>, k: nat)
    requires k < |s|
    ensures multiset(s) == multiset(s[..k] + s[k + 1..]) + multiset{s[k]}
    ensures multiset(s[..k] + s[k + 1..]) == multiset(s) - multiset{s[k]}
  {
    assert s == s[..k] + [s[k]] + s[k + 1..];
  }

  lemma TablePartsConcat(t: Table, a: seq<Section>, b: seq<Section>)
    ensures TableParts(t, a + b) == TableParts(t, a) + TableParts(t, b)
  {
  }

  lemma TablePartsRemove(t: Table, a: seq<Section>, k: nat)
    requires k < |a|
    ensures multiset(TableParts(t, a)) == multiset(TableParts(t, a[..k] + a[k + 1..])) + multiset{PartIn(t, a[k])}
  {
    TablePartsConcat(t, a[..k], a[k + 1..]);
    RemoveAt(TableParts(t, a), k);
    assert TableParts(t, a)[..k] == TableParts(t, a[..k]);
    assert TableParts(t, a)[k + 1..] == TableParts(t, a[k + 1..]);
  }

  lemma RemoveSame<T>(a: seq<T>, b: seq<T>) returns (k: nat)
    requires multiset(a) == multiset(b) && a != []
    ensures k < |b| && b[k] == a[0]
    ensures multiset(a[..0] + a[1..]) == multiset(b[..k] + b[k + 1..])
  {
    SameMembers(a, b);
    assert a[0] in b;
    k :| 0 <= k < |b| && b[k] == a[0];
    RemoveAt(a, 0);
    RemoveAt(b, k);
  }

  lemma {:induction false} TablePartsPermute(t: Table, a: seq<Section>, b: seq<Section>)
    requires multiset(a) == multiset(b)
    ensures multiset(TableParts(t, a)) == multiset(TableParts(t, b))
    decreases |a|
  {
    if a == [] {
      SameMembers(a, b);
    } else {
      var k := RemoveSame(a, b);
      TablePartsRemove(t, a, 0);
      TablePartsRemove(t, b, k);
      TablePartsPermute(t, a[..0] + a[1..], b[..k] + b[k + 1..]);
    }
  }

  ghost predicate WellPosed(p: Problem, sections: seq<Section>, seed: seq<Placed>) {
    WellFormed(p) && DistinctIds(sections) && FreshIds(sections, seed)
  }

  ghost function TimetableOf(seed: seq<Placed>, plan: seq<Placed>): Table {
    if |plan| >= |seed| then TableOf(plan[|seed|..]) else map[]
  }

  lemma DistinctIdsPermute(a: seq<Section>, b: seq<Section>)
    requires multiset(a) == multiset(b) && DistinctIds(a)
    ensures DistinctIds(b)
  {
    SameMembers(a, b);
    forall i, j | 0 <= i < j < |b| ensures b[i].id != b[j].id {
      assert b[i] in a && b[j] in a;
      AtMostOnce(a, b[i]);
      RemoveAt(b, i);
      assert b[j] == (b[..i] + b[i + 1..])[j - 1];
    }
  }

  lemma AtMostOnce(a: seq<Section>, s: Section)
    requires DistinctIds(a) && s in a
    ensures multiset(a)[s] == 1
    ensures forall s' :: s' in a && s'.id == s.id ==> s' == s
  {
    var k :| 0 <= k < |a| && a[k] == s;
    RemoveAt(a, k);
    assert s !in a[..k] + a[k + 1..];
  }

  /** A solution of one of the searches is a feasible timetable, and its key is the
      timetable's whatever the order of the search. */
  lemma SolutionKey(p: Problem, sections: seq<Section>, ordering: seq<Section>, seed: seq<Placed>, sol: seq<Placed>)
    requires WellPosed(p, sections, seed) && multiset(ordering) == multiset(sections)
    requires sol in Extensions(p, ordering, seed)
    ensures |sol| >= |seed| && FeasibleTable(p, sections, seed, TimetableOf(seed, sol))
    ensures Key(sections, sol) == multiset(TableParts(TimetableOf(seed, sol), sections))
  {
    DistinctIdsPermute(sections, ordering);
    OrderIndependent(p, sections, ordering, seed);
    SolutionShape(p, ordering, seed, sol);
    var t := TimetableOf(seed, sol);
    TablesFoundExact(p, ordering, seed, t);
    TablesFoundExact(p, sections, seed, t);
    var tail := Listing(t, ordering);
    SolutionParts(p, sections, ordering, seed, t);
    assert sol == seed + tail;
    TablePartsPermute(t, ordering, sections);
  }

  lemma ListingNamed(p: Problem, sections: seq<Section>, seed: seq<Placed>, t: Table)
    requires FeasibleTable(p, sections, seed, t)
    ensures Named(sections, Listing(t, sections))
  {
    forall i | 0 <= i < |sections| ensures t[sections[i].id].sectionId == sections[i].id {
      assert sections[i] in sections;
      ChoiceFields(p, sections[i], t[sections[i].id]);
    }
  }

  lemma SolutionParts(p: Problem, sections: seq<Section>, ordering: seq<Section>, seed: seq<Placed>, t: Table)
    requires multiset(ordering) == multiset(sections) && FeasibleTable(p, ordering, seed, t) && FreshIds(sections, seed)
    ensures Parts(Scheduled(sections, seed + Listing(t, ordering))) == TableParts(t, ordering)
  {
    ListingNamed(p, ordering, seed, t);
    ScheduledTail(sections, ordering, seed, Listing(t, ordering));
    ListingParts(t, ordering);
  }

  lemma ListingParts(t: Table, sections: seq<Section>)
    requires forall s :: s in sections ==> s.id in t
    ensures Parts(Listing(t, sections)) == TableParts(t, sections)
  {
  }

  /** Different feasible timetables have different keys. */
  lemma TableKeyInjective(p: Problem, sections: seq<Section>, seed: seq<Placed>, t: Table, t': Table)
    requires FeasibleTable(p, sections, seed, t) && FeasibleTable(p, sections, seed, t')
    requires multiset(TableParts(t, sections)) == multiset(TableParts(t', sections))
    ensures t == t'
  {
    SameMembers(TableParts(t, sections), TableParts(t', sections));
    forall id | id in t ensures t[id] == t'[id] {
      var s :| s in sections && s.id == id;
      PartFound(p, sections, seed, t, t', s);
    }
  }

  lemma PartFound(p: Problem, sections: seq<Section>, seed: seq<Placed>, t: Table, t': Table, s: Section)
    requires FeasibleTable(p, sections, seed, t) && FeasibleTable(p, sections, seed, t') && s in sections
    requires forall x :: x in TableParts(t, sections) <==> x in TableParts(t', sections)
    ensures t[s.id] == t'[s.id]
  {
    var i :| 0 <= i < |sections| && sections[i] == s;
    assert TableParts(t, sections)[i] == Part(t[s.id]);
    assert Part(t[s.id]) in TableParts(t', sections);
    var j :| 0 <= j < |sections| && TableParts(t', sections)[j] == Part(t[s.id]);
    assert sections[j] in sections;
    ChoiceFields(p, s, t[s.id]);
    ChoiceFields(p, sections[j], t'[sections[j].id]);
    ChoiceDetermined(p, s, t[s.id], t'[s.id]);
  }

  // ---- deduplication -------------------------------------------------------------------

  lemma {:induction false} DedupeExact(sections: seq<Section>, sols: seq<seq<Placed>>)
    ensures KeysOf(sections, Dedupe(sections, sols)) == KeysOf(sections, sols)
    ensures forall plan :: plan in Dedupe(sections, sols) ==> plan in sols
    ensures forall i, j :: 0 <= i < j < |Dedupe(sections, sols)| ==>
              Key(sections, Dedupe(sections, sols)[i]) != Key(sections, Dedupe(sections, sols)[j])
  {
    if sols != [] {
      var front, last := sols[..|sols| - 1], sols[|sols| - 1];
      DedupeExact(sections, front);
      var kept := Dedupe(sections, front);
      assert sols == front + [last];
      SameKeys(sections, front, kept, last);
      if Key(sections, last) !in KeysOf(sections, kept) { DistinctSnoc(sections, kept, last); }
    }
  }

  lemma SameKeys(sections: seq<Section>, front: seq<seq<Placed>>, kept: seq<seq<Placed>>, last: seq<Placed>)
    requires KeysOf(sections, kept) == KeysOf(sections, front)
    ensures KeysOf(sections, kept + [last]) == KeysOf(sections, front + [last])
    ensures Key(sections, last) in KeysOf(sections, kept) ==> KeysOf(sections, kept) == KeysOf(sections, front + [last])
  {
    KeysOfSnoc(sections, front, last);
    KeysOfSnoc(sections, kept, last);
  }

  lemma DistinctSnoc(sections: seq<Section>, kept: seq<seq<Placed>>, last: seq<Placed>)
    requires forall i, j :: 0 <= i < j < |kept| ==> Key(sections, kept[i]) != Key(sections, kept[j])
    requires Key(sections, last) !in KeysOf(sections, kept)
    ensures forall i, j :: 0 <= i < j < |kept + [last]| ==>
              Key(sections, (kept + [last])[i]) != Key(sections, (kept + [last])[j])
  {
    forall i | 0 <= i < |kept| ensures Key(sections, kept[i]) != Key(sections, last) {
      assert kept[i] in kept;
    }
  }

  lemma KeysCount(sections: seq<Section>, plans: seq<seq<Placed>>)
    requires forall i, j :: 0 <= i < j < |plans| ==> Key(sections, plans[i]) != Key(sections, plans[j])
    ensures |KeysOf(sections, plans)| == |plans|
  {
    var keys := seq(|plans|, i requires 0 <= i < |plans| => Key(sections, plans[i]));
    DistinctCardinality(keys);
    forall key ensures key in KeysOf(sections, plans) <==> key in (set k | k in keys) {
      if plan :| plan in plans && Key(sections, plan) == key {
        var i :| 0 <= i < |plans| && plans[i] == plan;
        assert keys[i] == key;
      }
      if i :| 0 <= i < |keys| && keys[i] == key { assert plans[i] in plans; }
    }
    assert KeysOf(sections, plans) == set k | k in keys;
  }

  // ---- the solutions of three searches ---------------------------------------------------

  /** Everything in the list was found by a search over one of the orderings. */
  lemma {:induction false} SolutionsSound(p: Problem, orderings: seq<seq<Section>>, seed: seq<Placed>, max: int, sol: seq<Placed>)
    requires sol in Solutions(p, orderings, seed, max)
    ensures exists o :: o in orderings && sol in Extensions(p, o, seed)
  {
    if orderings != [] {
      var front, last := orderings[..|orderings| - 1], orderings[|orderings| - 1];
      if sol in Solutions(p, front, seed, max) {
        SolutionsSound(p, front, seed, max, sol);
        var o :| o in front && sol in Extensions(p, o, seed);
        assert o in orderings;
      } else {
        assert last in orderings;
      }
    }
  }

  /** The first search fills the list first. */
  lemma {:induction false} SolutionsStart(p: Problem, orderings: seq<seq<Section>>, seed: seq<Placed>, max: int) returns (rest: seq<seq<Placed>>)
    requires orderings != []
    ensures Solutions(p, orderings, seed, max) == Capped([], Extensions(p, orderings[0], seed) + rest, max)
  {
    var first := Extensions(p, orderings[0], seed);
    if |orderings| == 1 {
      assert orderings[..0] == [];
      rest := [];
      assert first + rest == first;
    } else {
      var front, last := orderings[..|orderings| - 1], orderings[|orderings| - 1];
      var rest' := SolutionsStart(p, front, seed, max);
      var more := Extensions(p, last, seed);
      rest := rest' + more;
      CappedAgain([], first + rest', more, max);
      assert (first + rest') + more == first + rest;
    }
  }

  function MinInt(x: int, y: int): int { if x <= y then x else y }

  /** Solutions of one search have pairwise different keys. */
  lemma FirstKeysDistinct(p: Problem, sections: seq<Section>, ordering: seq<Section>, seed: seq<Placed>)
    requires WellPosed(p, sections, seed) && multiset(ordering) == multiset(sections)
    ensures var found := Extensions(p, ordering, seed);
            forall i, j :: 0 <= i < j < |found| ==> Key(sections, found[i]) != Key(sections, found[j])
  {
    var found := Extensions(p, ordering, seed);
    ExtensionsDistinct(p, ordering, seed);
    forall i, j | 0 <= i < j < |found| ensures Key(sections, found[i]) != Key(sections, found[j]) {
      KeyDistinguishes(p, sections, ordering, ordering, seed, found[i], found[j]);
      DistinctIdsPermute(sections, ordering);
      OrderIndependent(p, sections, ordering, seed);
      SolutionShape(p, ordering, seed, found[i]);
      SolutionShape(p, ordering, seed, found[j]);
    }
  }

  /** Solutions, even of different searches, share a key just when they are one timetable. */
  lemma KeyDistinguishes(p: Problem, sections: seq<Section>, o: seq<Section>, o': seq<Section>, seed: seq<Placed>,
                         sol: seq<Placed>, sol': seq<Placed>)
    requires WellPosed(p, sections, seed) && multiset(o) == multiset(sections) && multiset(o') == multiset(sections)
    requires sol in Extensions(p, o, seed) && sol' in Extensions(p, o', seed)
    ensures Key(sections, sol) == Key(sections, sol') <==> TimetableOf(seed, sol) == TimetableOf(seed, sol')
  {
    SolutionKey(p, sections, o, seed, sol);
    SolutionKey(p, sections, o', seed, sol');
    if Key(sections, sol) == Key(sections, sol') {
      TableKeyInjective(p, sections, seed, TimetableOf(seed, sol), TimetableOf(seed, sol'));
    }
  }

  /** A later search adds no key that a complete first search does not have. */
  lemma LaterKeysKnown(p: Problem, sections: seq<Section>, first: seq<Section>, later: seq<Section>, seed: seq<Placed>, sol: seq<Placed>)
    requires WellPosed(p, sections, seed) && multiset(first) == multiset(sections) && multiset(later) == multiset(sections)
    requires sol in Extensions(p, later, seed)
    ensures Key(sections, sol) in KeysOf(sections, Extensions(p, first, seed))
  {
    SolutionKey(p, sections, later, seed, sol);
    var t := TimetableOf(seed, sol);
    DistinctIdsPermute(sections, first);
    OrderIndependent(p, sections, first, seed);
    TablesFoundExact(p, sections, seed, t);
    var sol' :| sol' in Extensions(p, first, seed) && |sol'| >= |seed| && t == TableOf(sol'[|seed|..]);
    KeyDistinguishes(p, sections, later, first, seed, sol, sol');
  }

  /** When the first search is complete, the later ones change nothing but repeats. */
  lemma CompleteFirstKeys(p: Problem, sections: seq<Section>, orderings: seq<seq<Section>>, seed: seq<Placed>, max: nat)
    requires WellPosed(p, sections, seed)
    requires orderings != [] && forall o :: o in orderings ==> multiset(o) == multiset(sections)
    requires Extensions(p, orderings[0], seed) <= Solutions(p, orderings, seed, max)
    ensures KeysOf(sections, Solutions(p, orderings, seed, max)) == KeysOf(sections, Extensions(p, orderings[0], seed))
  {
    var first, sols := orderings[0], Solutions(p, orderings, seed, max);
    var found := Extensions(p, first, seed);
    assert first in orderings;
    forall sol | sol in sols ensures Key(sections, sol) in KeysOf(sections, found) {
      SolutionsSound(p, orderings, seed, max, sol);
      var o :| o in orderings && sol in Extensions(p, o, seed);
      LaterKeysKnown(p, sections, first, o, seed, sol);
    }
    forall sol | sol in found ensures sol in sols {
      var i :| 0 <= i < |found| && found[i] == sol;
      assert sols[i] == sol;
    }
  }

  lemma FirstCount(p: Problem, sections: seq<Section>, first: seq<Section>, seed: seq<Placed>)
    requires WellPosed(p, sections, seed) && multiset(first) == multiset(sections)
    ensures |Extensions(p, first, seed)| == |TablesFound(p, sections, seed)|
  {
    DistinctIdsPermute(sections, first);
    OrderIndependent(p, sections, first, seed);
    ExtensionsCount(p, first, seed);
  }

  /** The number of different keys among the solutions. */
  lemma SolutionsCount(p: Problem, sections: seq<Section>, orderings: seq<seq<Section>>, seed: seq<Placed>, max: nat)
    requires WellPosed(p, sections, seed)
    requires orderings != [] && forall o :: o in orderings ==> multiset(o) == multiset(sections)
    ensures |KeysOf(sections, Solutions(p, orderings, seed, max))| == MinInt(max, |TablesFound(p, sections, seed)|)
  {
    var first, sols := orderings[0], Solutions(p, orderings, seed, max);
    var found := Extensions(p, first, seed);
    assert first in orderings;
    FirstCount(p, sections, first, seed);
    FirstKeysDistinct(p, sections, first, seed);
    var rest := SolutionsStart(p, orderings, seed, max);
    CappedStart(found, rest, max);
    KeysCount(sections, sols[..MinInt(max, |found|)]);
    if |found| < max { CompleteFirstKeys(p, sections, orderings, seed, max); }
  }

  lemma CappedStart<T>(first: seq<T>, rest: seq<T>, max: nat)
    ensures var r := Capped([], first + rest, max);
            && |r| >= MinInt(max, |first|) && r[..MinInt(max, |first|)] == first[..MinInt(max, |first|)]
            && (|first| >= max ==> r == first[..max])
            && (|first| < max ==> first <= r && first == r[..|first|])
  {
  }

  lemma CappedPrefix<T>(s: seq<T>, max: int)
    ensures Capped([], s, max) <= s
  {
  }

  // ---- options -------------------------------------------------------------------------

  /** Section ids are distinct and none of them is already placed. */
  ghost predicate FreshInput(input: Input) {
    input.grid.SlotLength() > 0 && DistinctIds(input.sections) && FreshIds(input.sections, input.Seed())
  }

  /** No day is listed twice, or no slot fits into a day. */
  predicate NoSlotTwice(grid: GridConfig) {
    Distinct(grid.Days()) || grid.DayStart() + grid.SlotLength() > grid.DayEnd()
  }

  /** The timetables that satisfy every hard constraint of the input. */
  ghost function FeasibleTables(input: Input): (tables: set<Table>)
    requires FreshInput(input)
    ensures forall t :: t in tables <==> FeasibleTable(input.Problem(), input.sections, input.Seed(), t)
  {
    forall t: Table ensures t in TablesFound(input.Problem(), input.sections, input.Seed()) <==>
                            FeasibleTable(input.Problem(), input.sections, input.Seed(), t)
    {
      TablesFoundExact(input.Problem(), input.sections, input.Seed(), t);
    }
    TablesFound(input.Problem(), input.sections, input.Seed())
  }

  /** As many as asked for, or as there are. */
  ghost function Expected(input: Input): int
    requires FreshInput(input)
  {
    MinInt(if input.Max() < 0 then 0 else input.Max(), |FeasibleTables(input)|)
  }

  lemma InputWellPosed(input: Input)
    requires FreshInput(input) && NoSlotTwice(input.grid)
    ensures WellPosed(input.Problem(), input.sections, input.Seed())
  {
    RoomsOfValid(input.rooms);
    if !Distinct(input.grid.Days()) {
      NoSlots(input.grid.Days(), input.grid.DayStart(), input.grid.DayEnd(), input.grid.SlotLength());
    }
    GridShape(input.grid.Days(), input.grid.DayStart(), input.grid.DayEnd(), input.grid.SlotLength());
  }

  lemma {:induction false} NothingBelowOne(p: Problem, orderings: seq<seq<Section>>, seed: seq<Placed>, max: int)
    requires max <= 0
    ensures Solutions(p, orderings, seed, max) == []
  {
    if orderings != [] { NothingBelowOne(p, orderings[..|orderings| - 1], seed, max); }
  }

  /** The plans behind the options: as many as asked for or as there are feasible timetables,
      each feasible, no two the same. */
  lemma PlansExact(input: Input, collate: (string, string) -> bool)
    requires FreshInput(input) && NoSlotTwice(input.grid)
    ensures var plans := Plans(input, collate);
            && |plans| == Expected(input)
            && (forall plan :: plan in plans ==> TimetableOf(input.Seed(), plan) in FeasibleTables(input))
            && (forall i, j :: 0 <= i < j < |plans| ==>
                  TimetableOf(input.Seed(), plans[i]) != TimetableOf(input.Seed(), plans[j]))
  {
    var p, sections, seed, max := input.Problem(), input.sections, input.Seed(), input.Max();
    var orderings, plans := Orderings(collate, sections), Plans(input, collate);
    var sols := Solutions(p, orderings, seed, max);
    InputWellPosed(input);
    OrderingsPermute(collate, sections);
    DedupeExact(sections, sols);
    KeysCount(sections, plans);
    if max <= 0 {
      NothingBelowOne(p, orderings, seed, max);
    } else {
      SolutionsCount(p, sections, orderings, seed, max);
    }
    forall plan | plan in plans ensures exists o :: o in orderings && plan in Extensions(p, o, seed) {
      SolutionsSound(p, orderings, seed, max, plan);
    }
    forall plan | plan in plans ensures TimetableOf(seed, plan) in FeasibleTables(input) {
      var o :| o in orderings && plan in Extensions(p, o, seed);
      SolutionKey(p, sections, o, seed, plan);
    }
    forall i, j | 0 <= i < j < |plans| ensures TimetableOf(seed, plans[i]) != TimetableOf(seed, plans[j]) {
      assert plans[i] in plans && plans[j] in plans;
      var o :| o in orderings && plans[i] in Extensions(p, o, seed);
      var o' :| o' in orderings && plans[j] in Extensions(p, o', seed);
      KeyDistinguishes(p, sections, o, o', seed, plans[i], plans[j]);
    }
  }

  lemma {:induction false} SolutionsCapped(p: Problem, orderings: seq<seq<Section>>, seed: seq<Placed>, max: int)
    ensures |Solutions(p, orderings, seed, max)| <= if max < 0 then 0 else max
  {
    if orderings != [] { SolutionsCapped(p, orderings[..|orderings| - 1], seed, max); }
  }

  lemma {:induction false} DedupeShortens(sections: seq<Section>, sols: seq<seq<Placed>>)
    ensures |Dedupe(sections, sols)| <= |sols|
  {
    if sols != [] { DedupeShortens(sections, sols[..|sols| - 1]); }
  }

  /** The options are those of the plans, ranked; none is lost. */
  lemma OptionsArePlans(input: Input, collate: (string, string) -> bool)
    requires input.grid.SlotLength() > 0
    ensures multiset(Options(input, collate)) == multiset(OptionsOf(input, Plans(input, collate)))
    ensures |Options(input, collate)| == |Plans(input, collate)|
  {
    var built := OptionsOf(input, Plans(input, collate));
    var sols := Solutions(input.Problem(), Orderings(collate, input.sections), input.Seed(), input.Max());
    SolutionsCapped(input.Problem(), Orderings(collate, input.sections), input.Seed(), input.Max());
    DedupeShortens(input.sections, sols);
    SortPermutes(Outranks, built);
    assert [] + SortBy(Outranks, built) == SortBy(Outranks, built);
  }

  /** The number of options is exact. */
  lemma OptionsExact(input: Input, collate: (string, string) -> bool)
    requires FreshInput(input) && NoSlotTwice(input.grid)
    ensures |Options(input, collate)| == Expected(input)
  {
    PlansExact(input, collate);
    OptionsArePlans(input, collate);
  }

  ghost predicate AllScored(options: seq<EngineOption>) {
    forall i :: 0 <= i < |options| ==> options[i].score.Number?
  }

  ghost predicate Ranked(options: seq<EngineOption>) {
    AllScored(options)
    && forall i, j :: 0 <= i < j < |options| ==> options[i].score.value >= options[j].score.value
  }

  lemma RankingOrders(built: seq<EngineOption>)
    requires AllScored(built)
    ensures Ranked(SortBy(Outranks, built))
  {
    var u := set o | o in built;
    var sorted := SortBy(Outranks, built);
    forall o | o in built ensures o.score.Number? {
      var i :| 0 <= i < |built| && built[i] == o;
    }
    SortOrdered(Outranks, built, u);
    SortPermutes(Outranks, built);
    SameMembers(sorted, built);
    forall i | 0 <= i < |sorted| ensures sorted[i].score.Number? {
      assert sorted[i] in built;
    }
    assert forall i, j :: 0 <= i < j < |sorted| ==> !Outranks(sorted[j], sorted[i]);
  }

  lemma RankedPrefix(options: seq<EngineOption>, max: int)
    requires Ranked(options)
    ensures Ranked(Capped([], options, max))
  {
    CappedPrefix(options, max);
  }

  lemma {:induction false} PositiveCapacities(rooms: seq<Room>)
    requires forall r :: r in rooms ==> r.capacity > 0
    ensures forall id :: RoomsOf(rooms).CapacityOr(id, 1) > 0
  {
    if rooms != [] {
      assert rooms[|rooms| - 1] in rooms;
      var front, last := RoomsOf(rooms[..|rooms| - 1]), rooms[|rooms| - 1];
      PositiveCapacities(rooms[..|rooms| - 1]);
      forall id ensures front.Put(last).CapacityOr(id, 1) > 0 {
        assert front.CapacityOr(id, 1) > 0;
      }
    }
  }

  lemma OptionsScored(input: Input, plans: seq<seq<Placed>>)
    requires forall r :: r in input.rooms ==> r.capacity > 0
    ensures AllScored(OptionsOf(input, plans))
  {
    PositiveCapacities(input.rooms);
    forall i | 0 <= i < |plans| ensures OptionsOf(input, plans)[i].score.Number? {
      ScoreBounds(Scheduled(input.sections, plans[i]), input.Rooms(), input.sections);
    }
  }

  /** With positive room capacities every score is a number and the best option comes first. */
  lemma OptionsRanked(input: Input, collate: (string, string) -> bool)
    requires input.grid.SlotLength() > 0 && forall r :: r in input.rooms ==> r.capacity > 0
    ensures Ranked(Options(input, collate))
  {
    var built := OptionsOf(input, Plans(input, collate));
    OptionsScored(input, Plans(input, collate));
    RankingOrders(built);
    RankedPrefix(SortBy(Outranks, built), input.Max());
  }
}
