/** How a timetable option is scored. Real numbers stand for JavaScript's floating point;
    NaN is kept, because a room of capacity zero really produces it. */
module TimetableScore {
  import opened Results
  import opened Timetable

  datatype Number = NaN | Number(value: real)

  datatype Metrics = Metrics(roomUtilization: Number, facultySpread: real, studentConflictCount: nat)

  function Plus(a: Number, b: Number): Number {
    if a.NaN? || b.NaN? then NaN else Number(a.value + b.value)
  }

  function Min(x: real, y: real): real { if x <= y then x else y }

  function Max(x: real, y: real): real { if x >= y then x else y }

  /** `Math.min(1, enrollments / capacity)`: 0/0 is NaN, any other division by zero is infinite. */
  function Ratio(enrollments: nat, capacity: int): Number {
    if capacity != 0 then Number(Min(1.0, enrollments as real / capacity as real))
    else if enrollments == 0 then NaN
    else Number(1.0)
  }

  function UtilizationSum(placed: seq<Placed>, rooms: RoomTable): Number {
    if placed == [] then Number(0.0)
    else
      var last := placed[|placed| - 1];
      Plus(UtilizationSum(placed[..|placed| - 1], rooms), Ratio(last.enrollments, rooms.CapacityOr(last.roomId, 1)))
  }

  function Average(sum: Number, count: nat): Number {
    if count == 0 then Number(0.0) else if sum.NaN? then NaN else Number(sum.value / count as real)
  }

  /** Instructors in the order in which the load map first meets them. */
  function Instructors(placed: seq<Placed>): seq<string> {
    if placed == [] then []
    else
      var front, who := Instructors(placed[..|placed| - 1]), placed[|placed| - 1].instructor;
      if Present(who) && who.value !in front then front + [who.value] else front
  }

  function Load(placed: seq<Placed>, name: string): nat {
    if placed == [] then 0
    else Load(placed[..|placed| - 1], name) + if placed[|placed| - 1].instructor == Some(name) then 1 else 0
  }

  function Loads(placed: seq<Placed>): seq<nat> {
    seq(|Instructors(placed)|, i requires 0 <= i < |Instructors(placed)| => Load(placed, Instructors(placed)[i]))
  }

  function Sum(s: seq<nat>): nat {
    if s == [] then 0 else Sum(s[..|s| - 1]) + s[|s| - 1]
  }

  function SquaredDeviations(s: seq<nat>, mean: real): real {
    if s == [] then 0.0
    else
      var d := s[|s| - 1] as real - mean;
      SquaredDeviations(s[..|s| - 1], mean) + d * d
  }

  function Variance(loads: seq<nat>): real {
    if loads == [] then 0.0
    else SquaredDeviations(loads, Sum(loads) as real / |loads| as real) / |loads| as real
  }

  /** Preferred days by section id; a later section with the same id replaces an earlier one. */
  function Preferences(sections: seq<Section>): map<string, seq<string>> {
    if sections == [] then map[]
    else
      var last := sections[|sections| - 1];
      Preferences(sections[..|sections| - 1])[last.id := last.preferredDays]
  }

  predicate Preferred(c: Placed, pref: map<string, seq<string>>) {
    c.sectionId in pref && c.slot.day in pref[c.sectionId]
  }

  function PrefHits(placed: seq<Placed>, pref: map<string, seq<string>>): nat {
    if placed == [] then 0
    else PrefHits(placed[..|placed| - 1], pref) + if Preferred(placed[|placed| - 1], pref) then 1 else 0
  }

  function MetricsOf(placed: seq<Placed>, rooms: RoomTable): Metrics {
    Metrics(Average(UtilizationSum(placed, rooms), |placed|), Max(0.0, 10.0 - Variance(Loads(placed))), 0)
  }

  function TotalScore(metrics: Metrics, hits: nat, count: nat): Number {
    var prefScore := if count == 0 then 0.0 else hits as real / count as real * 15.0;
    if metrics.roomUtilization.NaN? then NaN
    else Number(metrics.roomUtilization.value * 40.0 + metrics.facultySpread * 5.0 + prefScore + count as real * 2.0)
  }

  function Score(placed: seq<Placed>, rooms: RoomTable, sections: seq<Section>): Number {
    TotalScore(MetricsOf(placed, rooms), PrefHits(placed, Preferences(sections)), |placed|)
  }

  method ScoreSolution(placed: seq<Placed>, rooms: RoomTable, sections: seq<Section>)
    returns (score: Number, metrics: Metrics)
    ensures score == Score(placed, rooms, sections) && metrics == MetricsOf(placed, rooms)
  {
    var n := |placed|;
    var utilization := Number(0.0);
    for i := 0 to n
      invariant utilization == UtilizationSum(placed[..i], rooms)
    {
      assert placed[..i + 1][..i] == placed[..i];
      utilization := Plus(utilization, Ratio(placed[i].enrollments, rooms.CapacityOr(placed[i].roomId, 1)));
    }
    var loads := CountLoads(placed);
    var pref := Preferences(sections);
    var hits := 0;
    for i := 0 to n
      invariant hits == PrefHits(placed[..i], pref)
    {
      assert placed[..i + 1][..i] == placed[..i];
      if Preferred(placed[i], pref) { hits := hits + 1; }
    }
    assert placed[..n] == placed;
    metrics := Metrics(Average(utilization, n), Max(0.0, 10.0 - Variance(loads)), 0);
    score := TotalScore(metrics, hits, n);
  }

  method CountLoads(placed: seq<Placed>) returns (loads: seq<nat>)
    ensures loads == Loads(placed)
  {
    var names: seq<string> := [];
    var byName: map<string, nat> := map[];
    for i := 0 to |placed|
      invariant names == Instructors(placed[..i])
      invariant forall name :: name in names <==> name in byName
      invariant forall name :: name in byName ==> name != ""
      invariant forall name :: name != "" ==> Load(placed[..i], name) == if name in byName then byName[name] else 0
    {
      assert placed[..i + 1][..i] == placed[..i];
      var who := placed[i].instructor;
      if Present(who) {
        if who.value !in byName { names := names + [who.value]; }
        byName := byName[who.value := (if who.value in byName then byName[who.value] else 0) + 1];
      }
    }
    assert placed[..|placed|] == placed;
    return seq(|names|, i requires 0 <= i < |names| && names[i] in byName => byName[names[i]]);
  }

  lemma {:induction false} UtilizationBounds(placed: seq<Placed>, rooms: RoomTable)
    requires forall c :: c in placed ==> rooms.CapacityOr(c.roomId, 1) > 0
    ensures UtilizationSum(placed, rooms).Number? && 0.0 <= UtilizationSum(placed, rooms).value <= |placed| as real
  {
    if placed != [] {
      var front, last := placed[..|placed| - 1], placed[|placed| - 1];
      assert last in placed;
      UtilizationBounds(front, rooms);
    }
  }

  lemma SquareNonNegative(d: real)
    ensures d * d >= 0.0
  {
    if d < 0.0 { assert d * d == (-d) * (-d); }
  }

  lemma {:induction false} VarianceNonNegative(s: seq<nat>, mean: real)
    ensures SquaredDeviations(s, mean) >= 0.0
  {
    if s != [] {
      SquareNonNegative(s[|s| - 1] as real - mean);
      VarianceNonNegative(s[..|s| - 1], mean);
    }
  }

  lemma VarianceBound(loads: seq<nat>)
    ensures Variance(loads) >= 0.0
  {
    if loads != [] {
      VarianceNonNegative(loads, Sum(loads) as real / |loads| as real);
    }
  }

  lemma {:induction false} HitsBound(placed: seq<Placed>, pref: map<string, seq<string>>)
    ensures PrefHits(placed, pref) <= |placed|
  {
    if placed != [] { HitsBound(placed[..|placed| - 1], pref); }
  }

  lemma FractionBounds(x: real, n: nat)
    requires 0.0 <= x <= n as real && n > 0
    ensures 0.0 <= x / n as real <= 1.0
  {
  }

  /** With positive capacities the score is a number between 2n and 2n + 105. */
  lemma ScoreBounds(placed: seq<Placed>, rooms: RoomTable, sections: seq<Section>)
    requires forall c :: c in placed ==> rooms.CapacityOr(c.roomId, 1) > 0
    ensures var s := Score(placed, rooms, sections);
            s.Number? && 2.0 * |placed| as real <= s.value <= 2.0 * |placed| as real + 105.0
  {
    var loads, pref := Loads(placed), Preferences(sections);
    UtilizationBounds(placed, rooms);
    HitsBound(placed, pref);
    VarianceBound(loads);
    if placed != [] {
      FractionBounds(UtilizationSum(placed, rooms).value, |placed|);
      FractionBounds(PrefHits(placed, pref) as real, |placed|);
    }
  }
}
