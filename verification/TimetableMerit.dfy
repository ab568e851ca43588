/** What a score rewards: filled rooms, evenly spread teaching, preferred days and every lesson
    placed; and what ranking by it comes to. */
module TimetableMerit {
  import opened Results
  import opened Timetable
  import opened TimetableScore
  import opened TimetableTheory
  import opened TimetableEngine
  import opened StableSort
  import opened TimetableSearch

  // ---- preferred days ------------------------------------------------------------------------

  /** The last row of the lesson's section names its day. */
  ghost predicate OnPreferredDay(sections: seq<Section>, c: Placed) {
    exists k :: 0 <= k < |sections| && LastOf(sections, c.sectionId, k) && c.slot.day in sections[k].preferredDays
  }

  ghost predicate LastOf(sections: seq<Section>, id: string, k: nat)
    requires k < |sections|
  {
    sections[k].id == id && forall l :: k < l < |sections| ==> sections[l].id != id
  }

  lemma {:induction false} PreferencesExact(sections: seq<Section>, id: string)
    ensures id in Preferences(sections) <==> exists k :: 0 <= k < |sections| && LastOf(sections, id, k)
    ensures forall k :: 0 <= k < |sections| && LastOf(sections, id, k) ==>
              id in Preferences(sections) && Preferences(sections)[id] == sections[k].preferredDays
  {
    if sections != [] {
      var front, last := sections[..|sections| - 1], sections[|sections| - 1];
      PreferencesExact(front, id);
      if last.id == id {
        assert LastOf(sections, id, |front|);
      } else {
        forall k: nat | k < |front| ensures LastOf(sections, id, k) <==> LastOf(front, id, k) { StillLast(sections, id, k); }
      }
    }
  }

  lemma StillLast(sections: seq<Section>, id: string, k: nat)
    requires k < |sections| - 1 && sections[|sections| - 1].id != id
    ensures LastOf(sections, id, k) <==> LastOf(sections[..|sections| - 1], id, k)
  {
    var front := sections[..|sections| - 1];
    assert forall l :: 0 <= l < |front| ==> front[l] == sections[l];
  }

  ghost function Preferring(placed: seq<Placed>, sections: seq<Section>, n: nat): set<int>
    requires n <= |placed|
  {
    set i | 0 <= i < n && OnPreferredDay(sections, placed[i])
  }

  lemma {:induction false} HitsCounted(placed: seq<Placed>, sections: seq<Section>, n: nat)
    requires n <= |placed|
    ensures PrefHits(placed[..n], Preferences(sections)) == |Preferring(placed, sections, n)|
  {
    if n > 0 {
      assert placed[..n][..n - 1] == placed[..n - 1];
      HitsCounted(placed, sections, n - 1);
      PreferredExact(sections, placed[n - 1]);
      OneMorePreferring(placed, sections, n - 1);
    }
  }

  lemma PreferredExact(sections: seq<Section>, c: Placed)
    ensures Preferred(c, Preferences(sections)) <==> OnPreferredDay(sections, c)
  {
    PreferencesExact(sections, c.sectionId);
  }

  lemma OneMorePreferring(placed: seq<Placed>, sections: seq<Section>, n: nat)
    requires n < |placed|
    ensures |Preferring(placed, sections, n + 1)|
            == |Preferring(placed, sections, n)| + if OnPreferredDay(sections, placed[n]) then 1 else 0
  {
    assert Preferring(placed, sections, n + 1) ==
           Preferring(placed, sections, n) + if OnPreferredDay(sections, placed[n]) then {n} else {};
  }

  // ---- filled rooms ----------------------------------------------------------------------------

  /** A room without seats for nobody: nothing can be said of how full it is. */
  predicate Senseless(c: Placed, rooms: RoomTable) { c.enrollments == 0 && rooms.CapacityOr(c.roomId, 1) == 0 }

  /** The filled part of the room, never more than all of it. */
  function Filled(c: Placed, rooms: RoomTable): real
    requires !Senseless(c, rooms)
  {
    var seats := rooms.CapacityOr(c.roomId, 1);
    if seats >= 0 && c.enrollments >= seats then 1.0 else c.enrollments as real / seats as real
  }

  function FilledSum(placed: seq<Placed>, rooms: RoomTable): real
    requires forall c :: c in placed ==> !Senseless(c, rooms)
  {
    if placed == [] then 0.0 else Filled(placed[0], rooms) + FilledSum(placed[1..], rooms)
  }

  lemma {:induction false} FilledLast(front: seq<Placed>, last: Placed, rooms: RoomTable)
    requires forall c :: c in front + [last] ==> !Senseless(c, rooms)
    ensures forall c :: c in front ==> !Senseless(c, rooms)
    ensures last in front + [last] && FilledSum(front + [last], rooms) == FilledSum(front, rooms) + Filled(last, rooms)
  {
    assert forall c :: c in front ==> c in front + [last];
    assert (front + [last])[|front|] == last;
    if front == [] {
      assert [last][1..] == [] && front + [last] == [last];
    } else {
      assert (front + [last])[1..] == front[1..] + [last];
      FilledLast(front[1..], last, rooms);
    }
  }

  lemma RatioIsFilled(c: Placed, rooms: RoomTable)
    ensures Ratio(c.enrollments, rooms.CapacityOr(c.roomId, 1)) ==
            if Senseless(c, rooms) then NaN else Number(Filled(c, rooms))
  {
    var e, seats := c.enrollments as real, rooms.CapacityOr(c.roomId, 1) as real;
    if seats > 0.0 {
      if e >= seats { DivideAtLeast(e, seats); } else { DivideBelow(e, seats); }
    } else if seats < 0.0 {
      DivideNegative(e, seats);
    }
  }

  lemma DivideAtLeast(x: real, y: real)
    requires x >= y > 0.0
    ensures x / y >= 1.0
  {
  }

  lemma DivideBelow(x: real, y: real)
    requires x < y && y > 0.0
    ensures x / y < 1.0
  {
  }

  lemma DivideNegative(x: real, y: real)
    requires x >= 0.0 > y
    ensures x / y <= 0.0
  {
  }

  lemma {:induction false} UtilizationIsFilled(placed: seq<Placed>, rooms: RoomTable)
    ensures UtilizationSum(placed, rooms) ==
            if exists c :: c in placed && Senseless(c, rooms) then NaN else Number(FilledSum(placed, rooms))
  {
    if placed != [] {
      var front, last := placed[..|placed| - 1], placed[|placed| - 1];
      assert placed == front + [last];
      UtilizationIsFilled(front, rooms);
      RatioIsFilled(last, rooms);
      if forall c :: c in placed ==> !Senseless(c, rooms) { FilledLast(front, last, rooms); }
    }
  }

  // ---- evenly spread teaching --------------------------------------------------------------------

  ghost function TaughtBy(placed: seq<Placed>, name: string, n: nat): set<int>
    requires n <= |placed|
  {
    set i | 0 <= i < n && placed[i].instructor == Some(name)
  }

  lemma {:induction false} LoadCounted(placed: seq<Placed>, name: string, n: nat)
    requires n <= |placed|
    ensures Load(placed[..n], name) == |TaughtBy(placed, name, n)|
  {
    if n > 0 {
      assert placed[..n][..n - 1] == placed[..n - 1];
      LoadCounted(placed, name, n - 1);
      assert TaughtBy(placed, name, n) ==
             TaughtBy(placed, name, n - 1) + if placed[n - 1].instructor == Some(name) then {n - 1} else {};
    }
  }

  lemma {:induction false} InstructorsExact(placed: seq<Placed>)
    ensures Distinct(Instructors(placed))
    ensures forall name :: name in Instructors(placed) <==>
              name != "" && exists i :: 0 <= i < |placed| && placed[i].instructor == Some(name)
  {
    if placed != [] {
      var front, last := placed[..|placed| - 1], placed[|placed| - 1];
      assert placed == front + [last];
      InstructorsExact(front);
      forall name ensures name in Instructors(placed) <==>
                          name != "" && exists i :: 0 <= i < |placed| && placed[i].instructor == Some(name)
      {
        if last.instructor == Some(name) { assert placed[|front|].instructor == Some(name); }
        if i :| 0 <= i < |front| && front[i].instructor == Some(name) { assert placed[i].instructor == Some(name); }
      }
    }
  }

  function SumOfSquares(s: seq<nat>): nat {
    if s == [] then 0 else SumOfSquares(s[..|s| - 1]) + s[|s| - 1] * s[|s| - 1]
  }

  lemma ExpandSquare(x: real, mean: real)
    ensures (x - mean) * (x - mean) == x * x - 2.0 * mean * x + mean * mean
  {
  }

  lemma AddTerm(squares: real, mean: real, sum: real, n: real, x: real)
    ensures (squares - 2.0 * mean * sum + n * (mean * mean)) + (x * x - 2.0 * mean * x + mean * mean)
            == (squares + x * x) - 2.0 * mean * (sum + x) + (n + 1.0) * (mean * mean)
  {
    assert mean * (sum + x) == mean * sum + mean * x;
  }

  lemma {:induction false} DeviationsExpand(s: seq<nat>, mean: real)
    ensures SquaredDeviations(s, mean) == SumOfSquares(s) as real - 2.0 * mean * (Sum(s) as real) + |s| as real * (mean * mean)
  {
    if s != [] {
      var front, x := s[..|s| - 1], s[|s| - 1];
      DeviationsExpand(front, mean);
      ExpandSquare(x as real, mean);
      AddTerm(SumOfSquares(front) as real, mean, Sum(front) as real, |front| as real, x as real);
      assert (x * x) as real == x as real * x as real;
    }
  }

  ghost function LessSquare(squares: real, n: real, mean: real): real
    requires n > 0.0
  {
    squares / n - mean * mean
  }

  /** The mean of the squares less the square of the mean. */
  ghost function Unevenness(loads: seq<nat>): real {
    if loads == [] then 0.0
    else LessSquare(SumOfSquares(loads) as real, |loads| as real, Sum(loads) as real / |loads| as real)
  }

  lemma UnevennessExact(loads: seq<nat>)
    ensures Variance(loads) == Unevenness(loads)
  {
    if loads != [] {
      var mean := Sum(loads) as real / |loads| as real;
      VarianceIs(loads, mean, LessSquare(SumOfSquares(loads) as real, |loads| as real, mean));
    }
  }

  lemma DeviationsAre(loads: seq<nat>, mean: real, n: real, sum: real, squares: real) returns (deviations: real)
    requires n == |loads| as real && sum == Sum(loads) as real && squares == SumOfSquares(loads) as real
    ensures deviations == SquaredDeviations(loads, mean)
    ensures deviations == squares - 2.0 * mean * sum + n * (mean * mean)
  {
    deviations := SquaredDeviations(loads, mean);
    DeviationsExpand(loads, mean);
  }

  lemma VarianceIs(loads: seq<nat>, mean: real, value: real)
    requires loads != [] && mean == Sum(loads) as real / |loads| as real
    requires value == LessSquare(SumOfSquares(loads) as real, |loads| as real, mean)
    ensures Variance(loads) == value
  {
    var deviations := SquaredDeviations(loads, mean);
    DeviationsMean(loads, mean, |loads| as real, Sum(loads) as real, SumOfSquares(loads) as real, deviations);
    VarianceQuotient(loads, mean, deviations);
  }

  lemma DeviationsMean(loads: seq<nat>, mean: real, n: real, sum: real, squares: real, deviations: real)
    requires loads != [] && n == |loads| as real && sum == Sum(loads) as real && squares == SumOfSquares(loads) as real
    requires mean == sum / n && deviations == SquaredDeviations(loads, mean)
    ensures deviations / n == LessSquare(squares, n, mean)
  {
    var same := DeviationsAre(loads, mean, n, sum, squares);
    MeanOfDeviations(same, squares, sum, n, mean);
  }

  lemma VarianceQuotient(loads: seq<nat>, mean: real, deviations: real)
    requires loads != [] && mean == Sum(loads) as real / |loads| as real && deviations == SquaredDeviations(loads, mean)
    ensures Variance(loads) == deviations / |loads| as real
  {
  }

  lemma MeanOfDeviations(deviations: real, squares: real, sum: real, n: real, mean: real)
    requires n > 0.0 && mean == sum / n && deviations == squares - 2.0 * mean * sum + n * (mean * mean)
    ensures deviations / n == LessSquare(squares, n, mean)
  {
    assert sum == mean * n;
    TwiceMean(mean, sum, n);
    assert (squares / n - mean * mean) * n == squares - n * (mean * mean);
    QuotientIs(deviations, n, squares / n - mean * mean);
  }

  lemma TwiceMean(mean: real, sum: real, n: real)
    requires sum == mean * n
    ensures 2.0 * mean * sum == 2.0 * (n * (mean * mean))
  {
  }

  lemma QuotientIs(x: real, n: real, q: real)
    requires n > 0.0 && q * n == x
    ensures x / n == q
  {
  }

  // ---- the score -------------------------------------------------------------------------------

  /** Ten points less the variance of the teachers' numbers of lessons, at least nothing. */
  ghost predicate Spread(placed: seq<Placed>, loads: seq<nat>, names: seq<string>, spread: real) {
    LoadsOf(placed, loads, names) && spread == Max(0.0, 10.0 - Unevenness(loads))
  }

  /** Each teacher once, with the number of lessons. */
  ghost predicate LoadsOf(placed: seq<Placed>, loads: seq<nat>, names: seq<string>) {
    && Distinct(names) && |loads| == |names|
    && (forall name :: name in names <==> name != "" && exists i :: 0 <= i < |placed| && placed[i].instructor == Some(name))
    && (forall k :: 0 <= k < |names| ==> loads[k] == |TaughtBy(placed, names[k], |placed|)|)
  }

  lemma LoadsExact(placed: seq<Placed>)
    ensures LoadsOf(placed, Loads(placed), Instructors(placed))
  {
    InstructorsExact(placed);
    assert placed[..|placed|] == placed;
    forall k | 0 <= k < |Instructors(placed)| { LoadCounted(placed, Instructors(placed)[k], |placed|); }
  }

  lemma SpreadExact(placed: seq<Placed>, rooms: RoomTable)
    ensures Spread(placed, Loads(placed), Instructors(placed), MetricsOf(placed, rooms).facultySpread)
  {
    LoadsExact(placed);
    UnevennessExact(Loads(placed));
  }

  lemma TotalExact(filled: real, spread: real, hits: nat, n: nat)
    requires n > 0
    ensures TotalScore(Metrics(Number(filled / n as real), spread, 0), hits, n)
            == Number(40.0 * (filled / n as real) + 5.0 * spread + 15.0 * (hits as real / n as real) + 2.0 * n as real)
  {
  }

  lemma MetricsExact(placed: seq<Placed>, rooms: RoomTable)
    requires placed != [] && forall c :: c in placed ==> !Senseless(c, rooms)
    ensures MetricsOf(placed, rooms)
            == Metrics(Number(FilledSum(placed, rooms) / |placed| as real), MetricsOf(placed, rooms).facultySpread, 0)
  {
    UtilizationIsFilled(placed, rooms);
  }

  /** Forty points for filled rooms, five for each point of spread, fifteen for preferred days,
      two for each lesson. */
  lemma ScoreExact(placed: seq<Placed>, rooms: RoomTable, sections: seq<Section>)
    requires placed != [] && forall c :: c in placed ==> !Senseless(c, rooms)
    ensures var n := |placed| as real;
            exists spread :: Spread(placed, Loads(placed), Instructors(placed), spread)
              && Score(placed, rooms, sections)
                 == Number(40.0 * (FilledSum(placed, rooms) / n) + 5.0 * spread
                           + 15.0 * (|Preferring(placed, sections, |placed|)| as real / n) + 2.0 * n)
  {
    var spread := MetricsOf(placed, rooms).facultySpread;
    SpreadExact(placed, rooms);
    MetricsExact(placed, rooms);
    HitsCounted(placed, sections, |placed|);
    assert placed[..|placed|] == placed;
    TotalExact(FilledSum(placed, rooms), spread, |Preferring(placed, sections, |placed|)|, |placed|);
  }

  /** There is no score exactly if some room without seats holds nobody; nothing placed scores
      fifty for its even spread. */
  lemma ScoreMissing(placed: seq<Placed>, rooms: RoomTable, sections: seq<Section>)
    ensures Score(placed, rooms, sections) == NaN <==> exists c :: c in placed && Senseless(c, rooms)
    ensures placed == [] ==> Score(placed, rooms, sections) == Number(50.0)
  {
    UtilizationIsFilled(placed, rooms);
  }

  // ---- ranking -----------------------------------------------------------------------------------

  /** The printed score has one decimal and is off by at most half of one. */
  lemma RoundedNear(x: real)
    ensures RoundTenth(Number(x)).Number?
    ensures var r := RoundTenth(Number(x)).value;
            -0.05 < r - x <= 0.05 && exists tenths :: InTenths(r, tenths)
  {
    assert InTenths(RoundTenth(Number(x)).value, (x * 10.0 + 0.5).Floor);
  }

  ghost predicate InTenths(r: real, tenths: int) { r * 10.0 == tenths as real }

  /** The three orders: large sections with a teacher first, the same backwards, by course code. */
  lemma OrderingsSorted(collate: (string, string) -> bool, sections: seq<Section>)
    ensures var orders := Orderings(collate, sections);
            && |orders| == 3 && |orders[0]| == |orders[1]| == |orders[2]| == |sections|
            && (forall i, j :: 0 <= i < j < |sections| ==> Weight(orders[0][i]) >= Weight(orders[0][j]))
            && (forall i :: 0 <= i < |sections| ==> orders[1][i] == orders[0][|sections| - 1 - i])
            && (Consistent(collate, CodesOf(sections)) ==>
                  forall i, j :: 0 <= i < j < |sections| ==> !collate(orders[2][j].courseCode, orders[2][i].courseCode))
  {
    PrioritisedSorted(sections);
    Mirrored(Prioritised(sections));
    ByCodeSorted(collate, sections);
  }

  ghost function CodesOf(sections: seq<Section>): set<string> { set s | s in sections :: s.courseCode }

  lemma ByCodeSorted(collate: (string, string) -> bool, sections: seq<Section>)
    ensures var sorted := ByCode(collate, Prioritised(sections));
            && |sorted| == |sections|
            && (Consistent(collate, CodesOf(sections)) ==>
                  forall i, j :: 0 <= i < j < |sorted| ==> !collate(sorted[j].courseCode, sorted[i].courseCode))
  {
    var before := (a: Section, b: Section) => collate(a.courseCode, b.courseCode);
    var first, sorted := Prioritised(sections), ByCode(collate, Prioritised(sections));
    OrderingsPermute(collate, sections);
    assert first in Orderings(collate, sections);
    SameMembers(first, sections);
    SortPermutes(before, first);
    if Consistent(collate, CodesOf(sections)) {
      SortOrdered(before, Prioritised(sections), set s | s in sections);
      forall i, j | 0 <= i < j < |sorted| ensures !collate(sorted[j].courseCode, sorted[i].courseCode) {
        assert !before(sorted[j], sorted[i]);
      }
    }
  }

  lemma PrioritisedSorted(sections: seq<Section>)
    ensures var sorted := Prioritised(sections);
            |sorted| == |sections| && forall i, j :: 0 <= i < j < |sorted| ==> Weight(sorted[i]) >= Weight(sorted[j])
  {
    var before := (a: Section, b: Section) => Priority(a) > Priority(b);
    SortOrdered(before, sections, set s | s in sections);
    SortPermutes(before, sections);
    var sorted := Prioritised(sections);
    forall i, j | 0 <= i < j < |sorted| ensures Weight(sorted[i]) >= Weight(sorted[j]) {
      assert !before(sorted[j], sorted[i]);
    }
  }

  lemma Mirrored<T>(s: seq<T>)
    ensures |Reversed(s)| == |s| && forall i :: 0 <= i < |s| ==> Reversed(s)[i] == s[|s| - 1 - i]
  {
    forall i: nat | i < |s| { ReversedAt(s, i); }
  }

  function Weight(s: Section): int {
    if s.instructor.Some? && s.instructor.value != "" then 10 + s.enrollments else s.enrollments
  }

  function Kept<T>(keep: T -> bool, s: seq<T>): seq<T> {
    if s == [] then [] else Kept(keep, s[..|s| - 1]) + if keep(s[|s| - 1]) then [s[|s| - 1]] else []
  }

  lemma KeptLast<T>(keep: T -> bool, s: seq<T>, x: T)
    ensures Kept(keep, s + [x]) == Kept(keep, s) + if keep(x) then [x] else []
  {
    assert (s + [x])[..|s|] == s;
  }

  predicate InOrder<T>(before: (T, T) -> bool, a: T, b: T) { before(a, b) }

  ghost predicate Tied<T(!new)>(before: (T, T) -> bool, keep: T -> bool) {
    forall a, b :: InOrder(before, a, b) ==> !(keep(a) && keep(b))
  }

  lemma {:induction false} InsertStable<T(!new)>(before: (T, T) -> bool, keep: T -> bool, x: T, s: seq<T>)
    requires Tied(before, keep)
    ensures Kept(keep, Insert(before, x, s)) == Kept(keep, s) + if keep(x) then [x] else []
  {
    if s != [] && InOrder(before, x, s[|s| - 1]) {
      var front, last := s[..|s| - 1], s[|s| - 1];
      InsertStable(before, keep, x, front);
      KeptLast(keep, Insert(before, x, front), last);
    } else {
      KeptLast(keep, s, x);
    }
  }

  /** Sorting keeps the order among things of which none comes before another. */
  lemma {:induction false} SortStable<T(!new)>(before: (T, T) -> bool, keep: T -> bool, s: seq<T>)
    requires Tied(before, keep)
    ensures Kept(keep, SortBy(before, s)) == Kept(keep, s)
  {
    if s != [] {
      SortStable(before, keep, s[..|s| - 1]);
      InsertStable(before, keep, s[|s| - 1], SortBy(before, s[..|s| - 1]));
    }
  }

  predicate Scored(score: Number, o: EngineOption) { o.score == score }

  /** Options of one score stay in the order in which they were found. */
  lemma TiesKeepOrder(input: Input, collate: (string, string) -> bool, score: Number)
    requires input.grid.SlotLength() > 0
    ensures var found := OptionsOf(input, Plans(input, collate));
            Kept(o => Scored(score, o), SortBy(Outranks, found)) == Kept(o => Scored(score, o), found)
  {
    assert forall a, b :: InOrder(Outranks, a, b) ==> Outranks(a, b);
    SortStable(Outranks, o => Scored(score, o), OptionsOf(input, Plans(input, collate)));
  }
}
