/** The billing services over their stored rows. Every method is tied to the step it performs,
    so what is proved of runs of steps holds of runs of calls. */
module BillingService {
  import opened Results
  import opened Text
  import opened Billing
  import opened BillingSafety

  /** One entity in the evidence file. */
  datatype Evidence = Evidence(entityId: string, exempt: bool, billed: int, amount: real)

  datatype EntitySummary = EntitySummary(entity: Entity, rollup: Rollup)

  function EvidenceOf(s: EntitySummary, unit: real): Evidence {
    var billed := if s.entity.exempt then 0 else s.rollup.watermark;
    Evidence(s.entity.id, s.entity.exempt, billed, billed as real * unit)
  }

  function EvidenceTotal(evidence: seq<Evidence>): real {
    if evidence == [] then 0.0 else EvidenceTotal(evidence[..|evidence| - 1]) + evidence[|evidence| - 1].amount
  }

  /** The evidence and the invoice lines tell of the same entities, counts and amounts. */
  ghost predicate Agree(lines: seq<Line>, evidence: seq<Evidence>) {
    |lines| == |evidence| && forall i :: 0 <= i < |lines| ==>
      lines[i].entityId == evidence[i].entityId && lines[i].billed == evidence[i].billed
      && lines[i].amount == evidence[i].amount && !evidence[i].exempt
  }

  lemma {:induction false} AgreeingTotals(lines: seq<Line>, evidence: seq<Evidence>)
    requires Agree(lines, evidence)
    ensures Amounts(lines) == EvidenceTotal(evidence)
  {
    if lines != [] { AgreeingTotals(lines[..|lines| - 1], evidence[..|evidence| - 1]); }
  }

  lemma EvidenceTotalLast(evidence: seq<Evidence>, e: Evidence)
    ensures EvidenceTotal(evidence + [e]) == EvidenceTotal(evidence) + e.amount
  {
    assert (evidence + [e])[..|evidence|] == evidence;
  }

  lemma AmountsLast(lines: seq<Line>, line: Line)
    ensures Amounts(lines + [line]) == Amounts(lines) + line.amount
  {
    assert (lines + [line])[..|lines|] == lines;
  }

  lemma DraftLinesNext(snapshots: map<SnapshotKey, Snapshot>, entities: seq<Entity>, i: nat, p: Period, unit: real)
    requires i < |entities|
    ensures DraftLines(snapshots, entities[..i + 1], p, unit)
            == DraftLines(snapshots, entities[..i], p, unit)
               + if entities[i].exempt then [] else [LineOf(MonthlyRollup(snapshots, entities[i].id, p), entities[i].id, unit)]
  {
    assert entities[..i + 1][..i] == entities[..i];
  }

  lemma PeakSumNext(counts: seq<nat>, i: nat)
    requires i < |counts|
    ensures Peak(counts[..i + 1]) == Max(Peak(counts[..i]), counts[i]) && Sum(counts[..i + 1]) == Sum(counts[..i]) + counts[i]
  {
    assert counts[..i + 1][..i] == counts[..i];
  }

  lemma NamedNext(ids: seq<string>, i: nat)
    requires i < |ids|
    ensures Named(ids[..i + 1]) == Named(ids[..i]) + if Trim(ids[i]) != "" then [Trim(ids[i])] else []
  {
    assert ids[..i + 1][..i] == ids[..i];
  }

  lemma CountOfNext(lines: seq<DisputeLine>, i: nat, v: Verdict)
    requires i < |lines|
    ensures CountOf(lines[..i + 1], v) == CountOf(lines[..i], v) + if lines[i].verdict == v then 1 else 0
  {
    assert lines[..i + 1][..i] == lines[..i];
  }

  /** The separate pass that writes the evidence file and its own total. */
  method BuildEvidence(summaries: seq<EntitySummary>, unit: real) returns (evidence: seq<Evidence>, total: real)
    ensures |evidence| == |summaries|
    ensures forall i :: 0 <= i < |summaries| ==> evidence[i] == EvidenceOf(summaries[i], unit)
    ensures total == EvidenceTotal(evidence)
  {
    evidence, total := [], 0.0;
    for i := 0 to |summaries|
      invariant |evidence| == i && forall j :: 0 <= j < i ==> evidence[j] == EvidenceOf(summaries[j], unit)
      invariant total == EvidenceTotal(evidence)
    {
      var e := EvidenceOf(summaries[i], unit);
      EvidenceTotalLast(evidence, e);
      total := total + e.amount;
      evidence := evidence + [e];
    }
  }

  method FilterNamed(ids: seq<string>) returns (named: seq<string>)
    ensures named == Named(ids)
  {
    named := [];
    for i := 0 to |ids|
      invariant named == Named(ids[..i])
    {
      NamedNext(ids, i);
      if Trim(ids[i]) != "" { named := named + [Trim(ids[i])]; }
    }
    assert ids[..|ids|] == ids;
  }

  method CountVerdicts(lines: seq<DisputeLine>, v: Verdict) returns (n: nat)
    ensures n == CountOf(lines, v)
  {
    n := 0;
    for i := 0 to |lines|
      invariant n == CountOf(lines[..i], v)
    {
      CountOfNext(lines, i, v);
      if lines[i].verdict == v { n := n + 1; }
    }
    assert lines[..|lines|] == lines;
  }

  method DeriveStatus(lines: seq<DisputeLine>) returns (status: DisputeStatus)
    ensures status == StatusFor(lines)
  {
    status := DisputeOpen;
    if |lines| == 0 {
      status := ManualReview;
    } else {
      var accepts := CountVerdicts(lines, AutoAccept);
      var rejects := CountVerdicts(lines, AutoReject);
      if accepts > 0 && rejects > 0 { status := ManualReview; }
      else if rejects > 0 { status := AutoResolvedRejected; }
      else { status := AutoResolvedAccepted; }
    }
  }

  method RollUp(rows: seq<nat>) returns (rollup: Rollup)
    ensures rollup == RollupOf(rows)
  {
    var peak: int, sum: int := 0, 0;
    for i := 0 to |rows|
      invariant peak == Peak(rows[..i]) && sum == Sum(rows[..i])
    {
      PeakSumNext(rows, i);
      peak := Max(peak, rows[i]);
      sum := sum + rows[i];
    }
    assert rows[..|rows|] == rows;
    var average := if |rows| > 0 then sum as real / |rows| as real else 0.0;
    var ceiling := if |rows| > 0 then Ceil(average - 0.000000001) else 0;
    rollup := Rollup(peak, average, Max(peak, ceiling));
  }

  class Ledger {
    var invoices: seq<Invoice>
    var disputes: seq<Dispute>
    var snapshots: map<SnapshotKey, Snapshot>
    var summaries: map<(string, Period), Rollup>

    constructor ()
      ensures Stored() == EMPTY
    {
      invoices, disputes, snapshots, summaries := [], [], map[], map[];
    }

    function Stored(): Books
      reads this
    {
      Books(invoices, disputes, snapshots)
    }

    method InitiateDispute(roster: map<string, bool>, invoiceId: nat, reason: string, ids: seq<string>) returns (reply: Reply)
      modifies this`disputes
      ensures (Stored(), reply) == Initiate(old(Stored()), roster, invoiceId, reason, ids)
    {
      if |Trim(reason)| < 5 { return Refused(ReasonTooShort); }
      if invoiceId >= |invoices| { return Refused(NotFound); }
      if invoices[invoiceId].status != Draft && invoices[invoiceId].status != Open { return Refused(NotDisputable); }
      if invoices[invoiceId].lockedAt.Some? { return Refused(InvoiceLocked); }
      if ActiveOn(disputes, invoiceId) { return Refused(AlreadyDisputed); }
      var named := FilterNamed(ids);
      var lines := [];
      for i := 0 to |named|
        invariant disputes == old(disputes)
        invariant |lines| == i && forall j :: 0 <= j < i ==> named[j] in roster && lines[j] == LineFor(roster, named[j])
      {
        if named[i] !in roster { return Refused(UnknownStudent); }
        lines := lines + [DisputeLine(named[i], if roster[named[i]] then AutoReject else AutoAccept)];
      }
      assert lines == LinesFor(roster, named);
      var status := DeriveStatus(lines);
      reply := Created(|disputes|);
      disputes := disputes + [Dispute(invoiceId, status, lines)];
    }

    method ResolveDispute(id: nat, accept: bool) returns (reply: Reply)
      modifies this`disputes
      ensures (Stored(), reply) == Resolve(old(Stored()), id, accept)
    {
      if id >= |disputes| { return Refused(NotFound); }
      if disputes[id].status == ResolvedAccepted || disputes[id].status == ResolvedRejected {
        return Refused(AlreadyResolved);
      }
      disputes := disputes[id := disputes[id].(status := if accept then ResolvedAccepted else ResolvedRejected)];
      return Done;
    }

    method FinalizeInvoice(id: nat, now: int) returns (reply: Reply)
      modifies this`invoices
      ensures (Stored(), reply) == FinalizeDraftInvoice(old(Stored()), id, now)
    {
      if id >= |invoices| { return Refused(NotFound); }
      if invoices[id].status != Draft || invoices[id].lockedAt.Some? { return Refused(NotDraft); }
      invoices := invoices[id := invoices[id].(status := Open, lockedAt := Some(now))];
      return Done;
    }

    method LockInvoiceAfterDisputeWindow(id: nat, disputeWindowDays: int, now: int) returns (reply: Reply)
      modifies this`invoices, this`snapshots
      ensures (Stored(), reply) == LockJob(old(Stored()), id, disputeWindowDays, now)
    {
      if id >= |invoices| { return Refused(NotFound); }
      var invoice := invoices[id];
      if invoice.lockedAt.Some? { return Skipped(AlreadyLocked); }
      if invoice.status != Draft && invoice.status != Open { return Skipped(NotLockableStatus); }
      if invoice.retroactive { return Skipped(RetroactiveImmediateLock); }
      if now < invoice.createdAt + disputeWindowDays * DAY_MS { return Skipped(DisputeWindowOpen); }
      if ActiveOn(disputes, id) { return Skipped(ActiveDispute); }
      invoices := invoices[id := invoices[id].(status := Open, lockedAt := Some(now))];
      if invoice.period.Some? { snapshots := SetLocked(snapshots, None, invoice.period.value, true); }
      return Locked;
    }

    method ComputeDaily(key: SnapshotKey, activeStudents: nat) returns (reply: Reply)
      modifies this`snapshots
      ensures (Stored(), reply) == ComputeDailySnapshot(old(Stored()), key, activeStudents)
    {
      if key in snapshots && snapshots[key].locked { return Counted(snapshots[key].count); }
      if key in snapshots { return Counted(snapshots[key].count); }
      snapshots := snapshots[key := Snapshot(activeStudents, false)];
      return Counted(activeStudents);
    }

    /** Rolls the month up and keeps the result; the peak is what will be billed. */
    method ComputeMonthlyBillable(entityId: string, p: Period) returns (rollup: Rollup)
      modifies this`summaries
      ensures rollup == MonthlyRollup(snapshots, entityId, p)
      ensures rollup.watermark == rollup.peak == Peak(Counts(snapshots, entityId, p.first, p.last))
      ensures summaries == old(summaries)[(entityId, p) := rollup]
    {
      rollup := RollUp(Counts(snapshots, entityId, p.first, p.last));
      WatermarkIsPeak(Counts(snapshots, entityId, p.first, p.last));
      summaries := summaries[(entityId, p) := rollup];
    }

    /** The loop of a draft: one line and one summary for each entity that is not exempt. */
    method BillEntities(entities: seq<Entity>, p: Period, unit: real)
      returns (total: real, lines: seq<Line>, forEvidence: seq<EntitySummary>)
      modifies this`summaries
      ensures lines == DraftLines(snapshots, entities, p, unit) && total == Amounts(lines)
      ensures Summarised(lines, forEvidence, unit)
    {
      total, lines, forEvidence := 0.0, [], [];
      for i := 0 to |entities|
        invariant lines == DraftLines(snapshots, entities[..i], p, unit)
        invariant total == Amounts(lines)
        invariant Summarised(lines, forEvidence, unit)
      {
        DraftLinesNext(snapshots, entities, i, p, unit);
        if !entities[i].exempt {
          var rollup := ComputeMonthlyBillable(entities[i].id, p);
          var line := LineOf(rollup, entities[i].id, unit);
          AmountsLast(lines, line);
          SummarisedNext(lines, forEvidence, entities[i], rollup, unit);
          total := total + line.amount;
          forEvidence := forEvidence + [EntitySummary(entities[i], rollup)];
          lines := lines + [line];
        }
      }
      assert entities[..|entities|] == entities;
    }

    /** The new invoice, its lines, the evidence and the evidence's own total all say the same.
        By AmountIsPeaks that is the unit price times the peaks of the entities not exempt. */
    method GenerateDraft(trialUntil: Option<int>, entities: seq<Entity>, p: Period, retroactive: bool, unit: real, now: int)
      returns (reply: Reply, evidence: seq<Evidence>, evidenceTotal: real)
      modifies this`invoices, this`summaries
      ensures (Stored(), reply) == GenerateDraftInvoice(old(Stored()), trialUntil, entities, p, retroactive, unit, now)
      ensures reply.Created? ==>
                var invoice := invoices[|old(invoices)|];
                && Agree(invoice.lines, evidence) && evidenceTotal == EvidenceTotal(evidence)
                && invoice.amount == Amounts(invoice.lines) == evidenceTotal
    {
      evidence, evidenceTotal := [], 0.0;
      if trialUntil.Some? && trialUntil.value > now { return Refused(InTrial), evidence, evidenceTotal; }
      var total, lines, forEvidence := BillEntities(entities, p, unit);
      evidence, evidenceTotal := BuildEvidence(forEvidence, unit);
      SummarisedAgrees(lines, forEvidence, evidence, unit);
      AgreeingTotals(lines, evidence);
      reply := Created(|invoices|);
      invoices := invoices + [Invoice(total, Draft, now, None, retroactive, None, Some(p), lines)];
    }

    /** Looks through the hundred most recent retroactive invoices, newest first. */
    method GenerateRetroactiveInvoiceForBackfill(requestId: string, fee: Option<real>, now: int) returns (reply: Reply)
      modifies this`invoices
      ensures (Stored(), reply) == GenerateRetroactive(old(Stored()), requestId, fee, now)
    {
      var i, seen := |invoices|, 0;
      while i > 0 && seen < RECENT
        invariant 0 <= i <= |invoices| && invoices == old(invoices)
        invariant seen == RetroFrom(invoices, i)
        invariant FindRetro(invoices, requestId, |invoices|) == FindRetro(invoices, requestId, i)
      {
        i := i - 1;
        if invoices[i].retroactive {
          if invoices[i].backfillRequestId == Some(requestId) { return Existing(i); }
          seen := seen + 1;
        }
      }
      NothingOlder(invoices, requestId, i);
      if fee.None? { return Refused(NoEstimate); }
      reply := Created(|invoices|);
      invoices := invoices + [Invoice(fee.value, Open, now, Some(now), true, Some(requestId), None, [])];
    }
  }

  lemma {:induction false} NothingOlder(invoices: seq<Invoice>, requestId: string, i: nat)
    requires i <= |invoices| && (i == 0 || RetroFrom(invoices, i) >= RECENT)
    ensures FindRetro(invoices, requestId, i) == None
  {
    if i > 0 {
      assert !Found(invoices, requestId, i - 1);
      NothingOlder(invoices, requestId, i - 1);
    }
  }

  ghost predicate Summarised(lines: seq<Line>, summaries: seq<EntitySummary>, unit: real) {
    |lines| == |summaries| && forall i :: 0 <= i < |lines| ==>
      !summaries[i].entity.exempt && lines[i] == LineOf(summaries[i].rollup, summaries[i].entity.id, unit)
  }

  lemma SummarisedNext(lines: seq<Line>, summaries: seq<EntitySummary>, entity: Entity, rollup: Rollup, unit: real)
    requires Summarised(lines, summaries, unit) && !entity.exempt
    ensures Summarised(lines + [LineOf(rollup, entity.id, unit)], summaries + [EntitySummary(entity, rollup)], unit)
  {
  }

  lemma SummarisedAgrees(lines: seq<Line>, summaries: seq<EntitySummary>, evidence: seq<Evidence>, unit: real)
    requires Summarised(lines, summaries, unit) && |evidence| == |summaries|
    requires forall i :: 0 <= i < |summaries| ==> evidence[i] == EvidenceOf(summaries[i], unit)
    ensures Agree(lines, evidence)
  {
  }
}
