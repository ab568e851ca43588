/** What every run of billing calls keeps. */
module BillingSafety {
  import opened Results
  import opened Text
  import opened Billing

  datatype Call =
    | CallInitiate(roster: map<string, bool>, invoiceId: nat, reason: string, ids: seq<string>)
    | CallResolve(id: nat, accept: bool)
    | CallFinalize(id: nat, now: int)
    | CallLockJob(id: nat, disputeWindowDays: int, now: int)
    | CallDraft(trialUntil: Option<int>, entities: seq<Entity>, p: Period, retroactive: bool, unit: real, now: int)
    | CallRetroactive(requestId: string, fee: Option<real>, now: int)
    | CallSnapshot(key: SnapshotKey, activeStudents: nat)
    | CallAmend(key: SnapshotKey, count: nat)
    | CallSetLocked(entityId: Option<string>, p: Period, locked: bool)

  function Step(b: Books, call: Call): (Books, Reply) {
    match call
    case CallInitiate(roster, invoiceId, reason, ids) => Initiate(b, roster, invoiceId, reason, ids)
    case CallResolve(id, accept) => Resolve(b, id, accept)
    case CallFinalize(id, now) => FinalizeDraftInvoice(b, id, now)
    case CallLockJob(id, days, now) => LockJob(b, id, days, now)
    case CallDraft(trialUntil, entities, p, retroactive, unit, now) =>
      GenerateDraftInvoice(b, trialUntil, entities, p, retroactive, unit, now)
    case CallRetroactive(requestId, fee, now) => GenerateRetroactive(b, requestId, fee, now)
    case CallSnapshot(key, activeStudents) => ComputeDailySnapshot(b, key, activeStudents)
    case CallAmend(key, count) => AmendSnapshot(b, key, count)
    case CallSetLocked(entityId, p, locked) => SetLockedInRange(b, entityId, p, locked)
  }

  function Run(b: Books, calls: seq<Call>): Books
    decreases |calls|
  {
    if calls == [] then b else Run(Step(b, calls[0]).0, calls[1..])
  }

  const EMPTY := Books([], [], map[])

  // ---- verdicts ------------------------------------------------------------------------

  lemma {:induction false} CountOfNone(lines: seq<DisputeLine>, v: Verdict)
    ensures CountOf(lines, v) > 0 <==> exists i :: 0 <= i < |lines| && lines[i].verdict == v
  {
    if lines != [] {
      var front := lines[..|lines| - 1];
      CountOfNone(front, v);
      if i :| 0 <= i < |front| && front[i].verdict == v { assert lines[i].verdict == v; }
      if i :| 0 <= i < |lines| && lines[i].verdict == v { assert i < |front| ==> front[i].verdict == v; }
    }
  }

  ghost predicate Mixed(roster: map<string, bool>, named: seq<string>)
    requires forall i :: 0 <= i < |named| ==> named[i] in roster
  {
    exists i, j :: 0 <= i < |named| && 0 <= j < |named| && roster[named[i]] && !roster[named[j]]
  }

  /** What the status of a new dispute says about the students it names. */
  lemma StatusMeans(roster: map<string, bool>, named: seq<string>)
    requires forall i :: 0 <= i < |named| ==> named[i] in roster
    ensures var status := StatusFor(LinesFor(roster, named));
            && (status == AutoResolvedAccepted <==> named != [] && forall i :: 0 <= i < |named| ==> !roster[named[i]])
            && (status == AutoResolvedRejected <==> named != [] && forall i :: 0 <= i < |named| ==> roster[named[i]])
            && (status == ManualReview <==> named == [] || Mixed(roster, named))
  {
    var lines := LinesFor(roster, named);
    CountOfNone(lines, AutoAccept);
    CountOfNone(lines, AutoReject);
    if named != [] {
      assert lines[0] == LineFor(roster, named[0]);
    }
    forall i | 0 <= i < |named| ensures roster[named[i]] <==> lines[i].verdict == AutoReject {
    }
  }

  // ---- disputes and locks ----------------------------------------------------------------

  ghost predicate OneActive(b: Books) {
    forall i, j :: 0 <= i < j < |b.disputes| && Active(b.disputes[i]) && Active(b.disputes[j]) ==>
      b.disputes[i].invoiceId != b.disputes[j].invoiceId
  }

  ghost predicate DisputeSound(b: Books, d: Dispute) {
    d.invoiceId < |b.invoices| && d.status != DisputeOpen && b.invoices[d.invoiceId].backfillRequestId.None?
  }

  ghost predicate InvoiceSound(i: Invoice) {
    && (i.lockedAt.Some? ==> i.status == Open)
    && (i.backfillRequestId.Some? ==> i.retroactive && i.lockedAt.Some?)
  }

  ghost predicate Inv(b: Books) {
    && OneActive(b)
    && (forall i :: 0 <= i < |b.disputes| ==> DisputeSound(b, b.disputes[i]))
    && (forall i :: 0 <= i < |b.invoices| ==> InvoiceSound(b.invoices[i]))
  }

  /** One invoice, later: what is billed never changes, and a lock never does. */
  ghost predicate Later(i: Invoice, i': Invoice) {
    && i'.amount == i.amount && i'.createdAt == i.createdAt && i'.retroactive == i.retroactive
    && i'.backfillRequestId == i.backfillRequestId && i'.period == i.period && i'.lines == i.lines
    && (i.lockedAt.Some? ==> i' == i)
  }

  /** Rows are never removed, no dispute becomes active again, none opens on a locked invoice. */
  ghost predicate Grows(b: Books, b': Books) {
    && |b.invoices| <= |b'.invoices| && |b.disputes| <= |b'.disputes|
    && (forall i :: 0 <= i < |b.invoices| ==> Later(b.invoices[i], b'.invoices[i]))
    && (forall i :: 0 <= i < |b.disputes| ==>
          b'.disputes[i].invoiceId == b.disputes[i].invoiceId && (Active(b'.disputes[i]) ==> Active(b.disputes[i])))
    && (forall i :: |b.disputes| <= i < |b'.disputes| && b'.disputes[i].invoiceId < |b.invoices| ==>
          b.invoices[b'.disputes[i].invoiceId].lockedAt.None?)
  }

  lemma InitiateInv(b: Books, roster: map<string, bool>, invoiceId: nat, reason: string, ids: seq<string>)
    requires Inv(b)
    ensures Inv(Initiate(b, roster, invoiceId, reason, ids).0)
  {
    var after := Initiate(b, roster, invoiceId, reason, ids).0;
    if after != b {
      assert InvoiceSound(b.invoices[invoiceId]);
      forall i | 0 <= i < |after.disputes| ensures DisputeSound(after, after.disputes[i]) {
        if i < |b.disputes| { assert DisputeSound(b, b.disputes[i]); }
      }
    }
  }

  lemma ResolveInv(b: Books, id: nat, accept: bool)
    requires Inv(b)
    ensures Inv(Resolve(b, id, accept).0)
  {
    var after := Resolve(b, id, accept).0;
    forall i | 0 <= i < |after.disputes| ensures DisputeSound(after, after.disputes[i]) {
      assert DisputeSound(b, b.disputes[i]);
    }
  }

  lemma LockInv(b: Books, id: nat, now: int, snapshots: map<SnapshotKey, Snapshot>)
    requires Inv(b) && id < |b.invoices| && b.invoices[id].lockedAt.None?
    ensures Inv(LockedInvoice(b, id, now).(snapshots := snapshots))
  {
    var after := LockedInvoice(b, id, now).(snapshots := snapshots);
    forall i | 0 <= i < |after.disputes| ensures DisputeSound(after, after.disputes[i]) {
      assert DisputeSound(b, b.disputes[i]);
    }
    forall i | 0 <= i < |after.invoices| ensures InvoiceSound(after.invoices[i]) {
      assert InvoiceSound(b.invoices[i]);
    }
  }

  lemma AppendInv(b: Books, invoice: Invoice)
    requires Inv(b) && InvoiceSound(invoice)
    ensures Inv(b.(invoices := b.invoices + [invoice]))
  {
    var after := b.(invoices := b.invoices + [invoice]);
    forall i | 0 <= i < |after.disputes| ensures DisputeSound(after, after.disputes[i]) {
      assert DisputeSound(b, b.disputes[i]);
    }
  }

  lemma SnapshotsInv(b: Books, snapshots: map<SnapshotKey, Snapshot>)
    requires Inv(b)
    ensures Inv(b.(snapshots := snapshots))
  {
    var after := b.(snapshots := snapshots);
    forall i | 0 <= i < |after.disputes| ensures DisputeSound(after, after.disputes[i]) {
      assert DisputeSound(b, b.disputes[i]);
    }
  }

  lemma StepInv(b: Books, call: Call)
    requires Inv(b)
    ensures Inv(Step(b, call).0)
  {
    var after := Step(b, call).0;
    match call
    case CallInitiate(roster, invoiceId, reason, ids) => InitiateInv(b, roster, invoiceId, reason, ids);
    case CallResolve(id, accept) => ResolveInv(b, id, accept);
    case CallFinalize(id, now) => if after != b { LockInv(b, id, now, b.snapshots); }
    case CallLockJob(id, days, now) => if LockJob(b, id, days, now).1.Locked? { LockInv(b, id, now, after.snapshots); }
    case CallDraft(_, _, _, _, _, _) => if after != b { AppendInv(b, after.invoices[|b.invoices|]); }
    case CallRetroactive(_, _, _) => if after != b { AppendInv(b, after.invoices[|b.invoices|]); }
    case CallSnapshot(_, _) => SnapshotsInv(b, after.snapshots);
    case CallAmend(_, _) => SnapshotsInv(b, after.snapshots);
    case CallSetLocked(_, _, _) => SnapshotsInv(b, after.snapshots);
  }

  lemma StepGrows(b: Books, call: Call)
    ensures Grows(b, Step(b, call).0)
  {
    match call
    case CallInitiate(roster, invoiceId, reason, ids) => InitiateGrows(b, roster, invoiceId, reason, ids);
    case CallLockJob(id, days, now) => LockJobGrows(b, id, days, now);
    case _ =>
  }

  lemma InitiateGrows(b: Books, roster: map<string, bool>, invoiceId: nat, reason: string, ids: seq<string>)
    ensures Grows(b, Initiate(b, roster, invoiceId, reason, ids).0)
  {
  }

  lemma LockJobGrows(b: Books, id: nat, days: int, now: int)
    ensures Grows(b, LockJob(b, id, days, now).0)
  {
  }

  lemma GrowsOn(b: Books, b1: Books, b2: Books)
    requires Grows(b, b1) && Grows(b1, b2)
    ensures Grows(b, b2)
  {
    forall i | 0 <= i < |b.invoices| ensures Later(b.invoices[i], b2.invoices[i]) {
      assert Later(b.invoices[i], b1.invoices[i]) && Later(b1.invoices[i], b2.invoices[i]);
    }
    forall i | |b.disputes| <= i < |b2.disputes| && b2.disputes[i].invoiceId < |b.invoices|
      ensures b.invoices[b2.disputes[i].invoiceId].lockedAt.None?
    {
      var id := b2.disputes[i].invoiceId;
      assert Later(b.invoices[id], b1.invoices[id]);
      if i < |b1.disputes| { assert b1.disputes[i].invoiceId == id; }
    }
  }

  lemma {:induction false} RunGrows(b: Books, calls: seq<Call>)
    requires Inv(b)
    ensures Inv(Run(b, calls)) && Grows(b, Run(b, calls))
    decreases |calls|
  {
    if calls != [] {
      var b1 := Step(b, calls[0]).0;
      StepInv(b, calls[0]);
      StepGrows(b, calls[0]);
      RunGrows(b1, calls[1..]);
      GrowsOn(b, b1, Run(b1, calls[1..]));
    }
  }

  /** After any run no two active disputes share an invoice, no dispute is in state OPEN, and
      an invoice made for a backfill request was never disputed. */
  lemma RunSafe(calls: seq<Call>)
    ensures var b := Run(EMPTY, calls);
            && (forall i, j :: 0 <= i < j < |b.disputes| && Active(b.disputes[i]) && Active(b.disputes[j])
                  ==> b.disputes[i].invoiceId != b.disputes[j].invoiceId)
            && (forall i :: 0 <= i < |b.disputes| ==>
                  b.disputes[i].invoiceId < |b.invoices| && b.disputes[i].status != DisputeOpen
                  && b.invoices[b.disputes[i].invoiceId].backfillRequestId.None?)
  {
    RunGrows(EMPTY, calls);
    var b := Run(EMPTY, calls);
    forall i | 0 <= i < |b.disputes| ensures DisputeSound(b, b.disputes[i]) {
    }
  }

  /** A lock is final: the row never changes again and gains no active dispute. */
  lemma LockedForGood(b: Books, calls: seq<Call>, id: nat)
    requires Inv(b) && id < |b.invoices| && b.invoices[id].lockedAt.Some?
    ensures id < |Run(b, calls).invoices| && Run(b, calls).invoices[id] == b.invoices[id]
    ensures ActiveOn(Run(b, calls).disputes, id) ==> ActiveOn(b.disputes, id)
  {
    RunGrows(b, calls);
    var after := Run(b, calls);
    assert Later(b.invoices[id], after.invoices[id]);
    if i :| 0 <= i < |after.disputes| && after.disputes[i].invoiceId == id && Active(after.disputes[i]) {
      assert i < |b.disputes|;
      assert b.disputes[i].invoiceId == id && Active(b.disputes[i]);
    }
  }

  /** The dispute-window job locks only undisputed invoices, and they stay undisputed. */
  lemma JobLockIsFinal(b: Books, id: nat, days: int, now: int, calls: seq<Call>)
    requires Inv(b) && LockJob(b, id, days, now).1 == Locked
    ensures var locked := LockJob(b, id, days, now).0;
            && id < |Run(locked, calls).invoices|
            && Run(locked, calls).invoices[id] == b.invoices[id].(status := Open, lockedAt := Some(now))
            && !ActiveOn(locked.disputes, id) && !ActiveOn(Run(locked, calls).disputes, id)
  {
    StepInv(b, CallLockJob(id, days, now));
    LockedForGood(LockJob(b, id, days, now).0, calls, id);
  }

  /** A finalized draft is locked at that instant for good, and its disputes can only dwindle. */
  lemma FinalizedIsFinal(b: Books, id: nat, now: int, calls: seq<Call>)
    requires Inv(b) && FinalizeDraftInvoice(b, id, now).1 == Done
    ensures var locked := FinalizeDraftInvoice(b, id, now).0;
            && id < |Run(locked, calls).invoices|
            && Run(locked, calls).invoices[id] == b.invoices[id].(status := Open, lockedAt := Some(now))
            && (ActiveOn(Run(locked, calls).disputes, id) ==> ActiveOn(b.disputes, id))
  {
    StepInv(b, CallFinalize(id, now));
    LockedForGood(FinalizeDraftInvoice(b, id, now).0, calls, id);
  }

  predicate Disputable(b: Books, id: nat) {
    && id < |b.invoices| && (b.invoices[id].status == Draft || b.invoices[id].status == Open)
    && b.invoices[id].lockedAt.None? && !ActiveOn(b.disputes, id)
  }

  /** A second dispute is refused exactly while the first is under review by hand. */
  lemma NextDispute(b: Books, roster: map<string, bool>, roster': map<string, bool>, id: nat, reason: string, reason': string,
                    ids: seq<string>, ids': seq<string>)
    requires Initiate(b, roster, id, reason, ids).1.Created?
    requires |Trim(reason')| >= 5 && forall i :: 0 <= i < |Named(ids')| ==> Named(ids')[i] in roster'
    ensures Disputable(b, id)
    ensures var b' := Initiate(b, roster, id, reason, ids).0;
            && Initiate(b', roster', id, reason', ids').1.Created? <==> b'.disputes[|b.disputes|].status != ManualReview
  {
    var b' := Initiate(b, roster, id, reason, ids).0;
    var d := b'.disputes[|b.disputes|];
    assert d.status != DisputeOpen;
    if Active(d) { assert ActiveOn(b'.disputes, id); }
    else { StillUndisputed(b, d, id); }
  }

  lemma StillUndisputed(b: Books, d: Dispute, id: nat)
    requires !ActiveOn(b.disputes, id) && !Active(d)
    ensures !ActiveOn(b.disputes + [d], id)
  {
  }

  predicate Settled(d: Dispute) { d.status == ResolvedAccepted || d.status == ResolvedRejected }

  lemma {:induction false} SettledStays(b: Books, calls: seq<Call>, id: nat)
    requires id < |b.disputes| && Settled(b.disputes[id])
    ensures id < |Run(b, calls).disputes| && Run(b, calls).disputes[id] == b.disputes[id]
    decreases |calls|
  {
    if calls != [] {
      SettledStep(b, calls[0], id);
      SettledStays(Step(b, calls[0]).0, calls[1..], id);
    }
  }

  lemma SettledStep(b: Books, call: Call, id: nat)
    requires id < |b.disputes| && Settled(b.disputes[id])
    ensures id < |Step(b, call).0.disputes| && Step(b, call).0.disputes[id] == b.disputes[id]
  {
  }

  /** The first resolution by hand is the last word in every run. */
  lemma ResolutionFinal(b: Books, id: nat, accept: bool, calls: seq<Call>)
    requires Resolve(b, id, accept).1 == Done
    ensures var after := Run(Resolve(b, id, accept).0, calls);
            && id < |after.disputes|
            && after.disputes[id] == b.disputes[id].(status := if accept then ResolvedAccepted else ResolvedRejected)
  {
    SettledStays(Resolve(b, id, accept).0, calls, id);
  }

  ghost predicate LockedInDispute(b: Books, id: nat) {
    id < |b.invoices| && b.invoices[id].lockedAt.Some? && ActiveOn(b.disputes, id)
  }

  /** Only finalizing by hand locks an invoice that is in dispute, and it always does. */
  lemma OnlyFinalizeOverridesDisputes(b: Books, call: Call, id: nat)
    requires Inv(b) && !LockedInDispute(b, id)
    ensures LockedInDispute(Step(b, call).0, id) <==>
            call.CallFinalize? && call.id == id && id < |b.invoices| && b.invoices[id].status == Draft
            && ActiveOn(b.disputes, id)
  {
    if id < |b.invoices| {
      assert InvoiceSound(b.invoices[id]);
      if LockedInDispute(Step(b, call).0, id) { LockedStepActive(b, call, id); }
    } else {
      NewRowUndisputed(b, call, id);
    }
  }

  lemma LockedStepActive(b: Books, call: Call, id: nat)
    requires Inv(b) && id < |b.invoices| && LockedInDispute(Step(b, call).0, id) && !LockedInDispute(b, id)
    ensures call.CallFinalize? && call.id == id && b.invoices[id].status == Draft && ActiveOn(b.disputes, id)
  {
    var after := Step(b, call).0;
    StepGrows(b, call);
    assert Later(b.invoices[id], after.invoices[id]);
    var i :| 0 <= i < |after.disputes| && after.disputes[i].invoiceId == id && Active(after.disputes[i]);
  }

  lemma NewRowUndisputed(b: Books, call: Call, id: nat)
    requires Inv(b) && id >= |b.invoices|
    ensures !ActiveOn(Step(b, call).0.disputes, id)
  {
  }

  // ---- one retroactive invoice for each request --------------------------------------------

  predicate Bills(i: Invoice, requestId: string) { i.backfillRequestId == Some(requestId) }

  lemma {:induction false} FindRetroExact(invoices: seq<Invoice>, requestId: string, n: nat)
    requires n <= |invoices|
    ensures match FindRetro(invoices, requestId, n)
            case Some(i) => i < n && Found(invoices, requestId, i)
            case None => forall i :: 0 <= i < n ==> !Found(invoices, requestId, i)
  {
    if n > 0 && !Found(invoices, requestId, n - 1) { FindRetroExact(invoices, requestId, n - 1); }
  }

  /** A repeated generation returns the request's invoice, and creates none, exactly while
      fewer than a hundred retroactive invoices are newer. */
  lemma RepeatExact(b: Books, requestId: string, id: nat, fee: real, now: int)
    requires Inv(b) && id < |b.invoices| && Bills(b.invoices[id], requestId)
    requires forall i :: 0 <= i < |b.invoices| && i != id ==> !Bills(b.invoices[i], requestId)
    ensures GenerateRetroactive(b, requestId, Some(fee), now).1
            == if RetroFrom(b.invoices, id + 1) < RECENT then Existing(id) else Created(|b.invoices|)
  {
    FindRetroExact(b.invoices, requestId, |b.invoices|);
    assert InvoiceSound(b.invoices[id]);
    assert Found(b.invoices, requestId, id) <==> RetroFrom(b.invoices, id + 1) < RECENT;
    var found := FindRetro(b.invoices, requestId, |b.invoices|);
    assert found.Some? ==> Bills(b.invoices[found.value], requestId);
  }

  ghost predicate SingleBills(invoices: seq<Invoice>) {
    forall i, j :: 0 <= i < j < |invoices| && invoices[i].backfillRequestId.Some? ==>
      invoices[i].backfillRequestId != invoices[j].backfillRequestId
  }

  lemma {:induction false} RetroFromFewer(invoices: seq<Invoice>, i: nat, j: nat)
    requires i <= j <= |invoices|
    ensures RetroFrom(invoices, j) <= RetroFrom(invoices, i)
    decreases j - i
  {
    if i < j { RetroFromFewer(invoices, i + 1, j); }
  }

  lemma {:induction false} RetroFromGrows(invoices: seq<Invoice>, more: seq<Invoice>, i: nat)
    requires i <= |invoices| <= |more|
    requires forall k :: 0 <= k < |invoices| ==> more[k].retroactive == invoices[k].retroactive
    ensures RetroFrom(invoices, i) <= RetroFrom(more, i)
    decreases |invoices| - i
  {
    if i < |invoices| { RetroFromGrows(invoices, more, i + 1); }
  }

  lemma GrowsRetro(b: Books, b': Books)
    requires Grows(b, b')
    ensures RetroFrom(b.invoices, 0) <= RetroFrom(b'.invoices, 0)
  {
    forall k | 0 <= k < |b.invoices| ensures b'.invoices[k].retroactive == b.invoices[k].retroactive {
      assert Later(b.invoices[k], b'.invoices[k]);
    }
    RetroFromGrows(b.invoices, b'.invoices, 0);
  }

  /** A second invoice for a billed request: all its invoices are beyond the look-back. */
  ghost predicate Rebills(b: Books, call: Call) {
    && call.CallRetroactive? && call.fee.Some?
    && (exists i :: 0 <= i < |b.invoices| && Bills(b.invoices[i], call.requestId))
    && (forall i :: 0 <= i < |b.invoices| && Bills(b.invoices[i], call.requestId) ==> RetroFrom(b.invoices, i + 1) >= RECENT)
  }

  lemma RetroStep(b: Books, requestId: string, fee: Option<real>, now: int)
    requires Inv(b) && SingleBills(b.invoices)
    ensures SingleBills(GenerateRetroactive(b, requestId, fee, now).0.invoices) <==>
            !Rebills(b, CallRetroactive(requestId, fee, now))
  {
    var call, after := CallRetroactive(requestId, fee, now), GenerateRetroactive(b, requestId, fee, now).0.invoices;
    FindRetroExact(b.invoices, requestId, |b.invoices|);
    forall i | 0 <= i < |b.invoices| && Bills(b.invoices[i], requestId)
      ensures Found(b.invoices, requestId, i) <==> RetroFrom(b.invoices, i + 1) < RECENT
    {
      assert InvoiceSound(b.invoices[i]);
    }
    if Rebills(b, call) {
      var i :| 0 <= i < |b.invoices| && Bills(b.invoices[i], requestId);
      RebilledTwice(b, requestId, fee, now, i);
    } else if GenerateRetroactive(b, requestId, fee, now).1.Created? {
      NoBillFound(b, requestId, fee.value, now);
    }
  }

  lemma RebilledTwice(b: Books, requestId: string, fee: Option<real>, now: int, i: nat)
    requires Inv(b) && Rebills(b, CallRetroactive(requestId, fee, now)) && i < |b.invoices| && Bills(b.invoices[i], requestId)
    ensures !SingleBills(GenerateRetroactive(b, requestId, fee, now).0.invoices)
  {
    FindRetroExact(b.invoices, requestId, |b.invoices|);
    var found := FindRetro(b.invoices, requestId, |b.invoices|);
    assert found.Some? ==> Bills(b.invoices[found.value], requestId);
    var after := GenerateRetroactive(b, requestId, fee, now).0.invoices;
    assert after[i].backfillRequestId == after[|b.invoices|].backfillRequestId;
  }

  lemma NoBillFound(b: Books, requestId: string, fee: real, now: int)
    requires Inv(b) && !Rebills(b, CallRetroactive(requestId, Some(fee), now))
    requires FindRetro(b.invoices, requestId, |b.invoices|) == None
    ensures forall i :: 0 <= i < |b.invoices| ==> !Bills(b.invoices[i], requestId)
  {
    FindRetroExact(b.invoices, requestId, |b.invoices|);
    forall i | 0 <= i < |b.invoices| && Bills(b.invoices[i], requestId) ensures RetroFrom(b.invoices, i + 1) >= RECENT {
      assert InvoiceSound(b.invoices[i]);
      assert !Found(b.invoices, requestId, i);
    }
  }

  lemma SameBills(b: Books, call: Call)
    requires !call.CallRetroactive? && SingleBills(b.invoices)
    ensures SingleBills(Step(b, call).0.invoices)
  {
    var after := Step(b, call).0.invoices;
    forall i | 0 <= i < |after|
      ensures after[i].backfillRequestId == if i < |b.invoices| then b.invoices[i].backfillRequestId else None
    {
    }
  }

  lemma StepBills(b: Books, call: Call)
    requires Inv(b) && SingleBills(b.invoices)
    ensures SingleBills(Step(b, call).0.invoices) <==> !Rebills(b, call)
  {
    if call.CallRetroactive? { RetroStep(b, call.requestId, call.fee, call.now); } else { SameBills(b, call); }
  }

  lemma TwiceStays(b: Books, b': Books)
    requires Grows(b, b') && SingleBills(b'.invoices)
    ensures SingleBills(b.invoices)
  {
    forall i | 0 <= i < |b.invoices| ensures b'.invoices[i].backfillRequestId == b.invoices[i].backfillRequestId {
      assert Later(b.invoices[i], b'.invoices[i]);
    }
  }

  ghost predicate RebillsIn(b: Books, calls: seq<Call>)
    decreases |calls|
  {
    calls != [] && (Rebills(b, calls[0]) || RebillsIn(Step(b, calls[0]).0, calls[1..]))
  }

  /** A run bills some request twice exactly if it generates an invoice for a billed request
      all of whose invoices have at least a hundred newer retroactive ones. */
  lemma {:induction false} RunBillsOnce(b: Books, calls: seq<Call>)
    requires Inv(b) && SingleBills(b.invoices)
    ensures SingleBills(Run(b, calls).invoices) <==> !RebillsIn(b, calls)
    decreases |calls|
  {
    if calls != [] {
      var next := Step(b, calls[0]).0;
      StepInv(b, calls[0]);
      StepBills(b, calls[0]);
      if Rebills(b, calls[0]) {
        RunGrows(next, calls[1..]);
        if SingleBills(Run(next, calls[1..]).invoices) { TwiceStays(next, Run(next, calls[1..])); }
      } else {
        RunBillsOnce(next, calls[1..]);
      }
    }
  }

  lemma {:induction false} FewNeverRebill(b: Books, calls: seq<Call>)
    requires Inv(b) && RetroFrom(Run(b, calls).invoices, 0) <= RECENT
    ensures !RebillsIn(b, calls)
    decreases |calls|
  {
    if calls != [] {
      RunGrows(b, calls);
      GrowsRetro(b, Run(b, calls));
      StepInv(b, calls[0]);
      if Rebills(b, calls[0]) {
        var i :| 0 <= i < |b.invoices| && Bills(b.invoices[i], calls[0].requestId);
        assert InvoiceSound(b.invoices[i]);
        RetroFromFewer(b.invoices, 0, i);
        assert false;
      }
      FewNeverRebill(Step(b, calls[0]).0, calls[1..]);
    }
  }

  /** Until more than a hundred retroactive invoices exist, no backfill request is billed twice
      whichever of the approval paths asks for its invoice, and however often. */
  lemma BilledOnce(calls: seq<Call>, i: nat, j: nat, requestId: string)
    requires RetroFrom(Run(EMPTY, calls).invoices, 0) <= RECENT
    requires i < |Run(EMPTY, calls).invoices| && Bills(Run(EMPTY, calls).invoices[i], requestId)
    requires j < |Run(EMPTY, calls).invoices| && Bills(Run(EMPTY, calls).invoices[j], requestId)
    ensures i == j
  {
    FewNeverRebill(EMPTY, calls);
    RunBillsOnce(EMPTY, calls);
  }

  // ---- head counts after a lock ------------------------------------------------------------

  /** Locked rows of the month are still there, unchanged; no row is gone. */
  ghost predicate Frozen(s: map<SnapshotKey, Snapshot>, s': map<SnapshotKey, Snapshot>, p: Period) {
    forall key :: key in s ==> key in s' && (InPeriod(key, p) && s[key].locked ==> s'[key] == s[key])
  }

  predicate Unlocks(call: Call) { call.CallSetLocked? && !call.locked }

  predicate NeverUnlocks(calls: seq<Call>) { forall i :: 0 <= i < |calls| ==> !Unlocks(calls[i]) }

  lemma StepFreezes(b: Books, call: Call, p: Period)
    requires !Unlocks(call)
    ensures Frozen(b.snapshots, Step(b, call).0.snapshots, p)
  {
  }

  lemma {:induction false} RunFreezes(b: Books, calls: seq<Call>, p: Period)
    requires NeverUnlocks(calls)
    ensures Frozen(b.snapshots, Run(b, calls).snapshots, p)
    decreases |calls|
  {
    if calls != [] {
      StepFreezes(b, calls[0], p);
      RunFreezes(Step(b, calls[0]).0, calls[1..], p);
    }
  }

  /** A head count is written once: whatever later counts say, the day keeps its first one
      until the platform amends that very row. */
  lemma {:induction false} CountedOnce(b: Books, key: SnapshotKey, activeStudents: nat, calls: seq<Call>)
    requires forall i :: 0 <= i < |calls| ==> !(calls[i].CallAmend? && calls[i].key == key)
    ensures var counted := ComputeDailySnapshot(b, key, activeStudents).0;
            && key in Run(counted, calls).snapshots
            && Run(counted, calls).snapshots[key].count
               == if key in b.snapshots then b.snapshots[key].count else activeStudents
  {
    RunKeepsCount(ComputeDailySnapshot(b, key, activeStudents).0, key, calls);
  }

  lemma {:induction false} RunKeepsCount(b: Books, key: SnapshotKey, calls: seq<Call>)
    requires key in b.snapshots && forall i :: 0 <= i < |calls| ==> !(calls[i].CallAmend? && calls[i].key == key)
    ensures key in Run(b, calls).snapshots && Run(b, calls).snapshots[key].count == b.snapshots[key].count
    decreases |calls|
  {
    if calls != [] {
      StepKeepsCount(b, key, calls[0]);
      RunKeepsCount(Step(b, calls[0]).0, key, calls[1..]);
    }
  }

  lemma StepKeepsCount(b: Books, key: SnapshotKey, call: Call)
    requires key in b.snapshots && !(call.CallAmend? && call.key == key)
    ensures key in Step(b, call).0.snapshots && Step(b, call).0.snapshots[key].count == b.snapshots[key].count
  {
  }

  ghost predicate AllLocked(s: map<SnapshotKey, Snapshot>, p: Period) {
    forall key :: key in s && InPeriod(key, p) ==> s[key].locked
  }

  ghost predicate Complete(s: map<SnapshotKey, Snapshot>, entityId: string, p: Period) {
    forall day :: p.first <= day <= p.last ==> SnapshotKey(entityId, day) in s
  }

  lemma PeakLast(counts: seq<nat>, n: nat)
    ensures Peak(counts + [n]) == Max(Peak(counts), n)
  {
    assert (counts + [n])[..|counts|] == counts;
  }

  lemma PeakUpTo(s: map<SnapshotKey, Snapshot>, entityId: string, first: int, last: int)
    requires first <= last
    ensures var before, key := Peak(Counts(s, entityId, first, last - 1)), SnapshotKey(entityId, last);
            Peak(Counts(s, entityId, first, last)) == if key in s then Max(before, s[key].count) else before
  {
    var before, key := Counts(s, entityId, first, last - 1), SnapshotKey(entityId, last);
    if key in s { PeakLast(before, s[key].count); } else { assert before + [] == before; }
  }

  lemma {:induction false} PeakNeverFalls(s: map<SnapshotKey, Snapshot>, s': map<SnapshotKey, Snapshot>,
                                          entityId: string, p: Period, last: int)
    requires Frozen(s, s', p) && AllLocked(s, p) && last <= p.last
    ensures Peak(Counts(s, entityId, p.first, last)) <= Peak(Counts(s', entityId, p.first, last))
    decreases last - p.first
  {
    if p.first <= last {
      var key := SnapshotKey(entityId, last);
      PeakNeverFalls(s, s', entityId, p, last - 1);
      PeakUpTo(s, entityId, p.first, last);
      PeakUpTo(s', entityId, p.first, last);
    }
  }

  lemma {:induction false} CountsStay(s: map<SnapshotKey, Snapshot>, s': map<SnapshotKey, Snapshot>,
                                      entityId: string, p: Period, last: int)
    requires Frozen(s, s', p) && AllLocked(s, p) && Complete(s, entityId, p) && last <= p.last
    ensures Counts(s, entityId, p.first, last) == Counts(s', entityId, p.first, last)
    decreases last - p.first
  {
    if p.first <= last {
      assert SnapshotKey(entityId, last) in s;
      CountsStay(s, s', entityId, p, last - 1);
    }
  }

  /** Once the job has locked an invoice, and as long as the platform unlocks nothing, the
      peak of its month never falls for any entity, and the whole roll-up of an entity whose
      every day had been counted never changes. */
  lemma LockedMonth(b: Books, id: nat, days: int, now: int, calls: seq<Call>, entityId: string)
    requires LockJob(b, id, days, now).1 == Locked && b.invoices[id].period.Some?
    requires NeverUnlocks(calls)
    ensures var p, locked := b.invoices[id].period.value, LockJob(b, id, days, now).0;
            var after := Run(locked, calls);
            && Peak(Counts(b.snapshots, entityId, p.first, p.last)) <= Peak(Counts(after.snapshots, entityId, p.first, p.last))
            && (Complete(b.snapshots, entityId, p) ==>
                  MonthlyRollup(after.snapshots, entityId, p) == MonthlyRollup(b.snapshots, entityId, p))
  {
    var p, locked := b.invoices[id].period.value, LockJob(b, id, days, now).0;
    var after := Run(locked, calls);
    RunFreezes(locked, calls, p);
    SetLockedCounts(b.snapshots, entityId, p, p.last);
    PeakNeverFalls(locked.snapshots, after.snapshots, entityId, p, p.last);
    if Complete(b.snapshots, entityId, p) {
      assert Complete(locked.snapshots, entityId, p);
      CountsStay(locked.snapshots, after.snapshots, entityId, p, p.last);
    }
  }

  lemma {:induction false} PeakReaches(s: map<SnapshotKey, Snapshot>, entityId: string, first: int, last: int, day: int)
    requires first <= day <= last && SnapshotKey(entityId, day) in s
    ensures s[SnapshotKey(entityId, day)].count <= Peak(Counts(s, entityId, first, last))
    decreases last - first
  {
    PeakUpTo(s, entityId, first, last);
    if day < last { PeakReaches(s, entityId, first, last - 1, day); }
  }

  /** A day of the month that is still uncounted can be counted higher than all the others. */
  lemma LateCountRaises(b: Books, entityId: string, p: Period, day: int)
    requires p.first <= day <= p.last && SnapshotKey(entityId, day) !in b.snapshots
    ensures 0 <= Peak(Counts(b.snapshots, entityId, p.first, p.last))
    ensures var late := CallSnapshot(SnapshotKey(entityId, day), Peak(Counts(b.snapshots, entityId, p.first, p.last)) + 1);
            Run(b, [late]) == Step(b, late).0
            && MonthlyRollup(Run(b, [late]).snapshots, entityId, p) != MonthlyRollup(b.snapshots, entityId, p)
  {
    SumBound(Counts(b.snapshots, entityId, p.first, p.last));
    var late := CallSnapshot(SnapshotKey(entityId, day), Peak(Counts(b.snapshots, entityId, p.first, p.last)) + 1);
    assert [late][1..] == [] && [late][0] == late;
    assert Run(b, [late]) == Run(Step(b, late).0, []);
    PeakReaches(Step(b, late).0.snapshots, entityId, p.first, p.last, day);
  }

  /** The roll-up of a locked month is final, in every run in which the platform unlocks
      nothing, exactly for the entities whose every day had been counted by then. A run may count
      any day at any time; a past day is really counted late only by a queued job for it. */
  lemma LockFreezesMonth(b: Books, id: nat, days: int, now: int, entityId: string)
    requires LockJob(b, id, days, now).1 == Locked && b.invoices[id].period.Some?
    ensures var p, locked := b.invoices[id].period.value, LockJob(b, id, days, now).0;
            (forall calls :: NeverUnlocks(calls) ==>
               MonthlyRollup(Run(locked, calls).snapshots, entityId, p) == MonthlyRollup(b.snapshots, entityId, p))
            <==> Complete(b.snapshots, entityId, p)
  {
    var p, locked := b.invoices[id].period.value, LockJob(b, id, days, now).0;
    if Complete(b.snapshots, entityId, p) {
      forall calls | NeverUnlocks(calls)
        ensures MonthlyRollup(Run(locked, calls).snapshots, entityId, p) == MonthlyRollup(b.snapshots, entityId, p)
      {
        LockedMonth(b, id, days, now, calls, entityId);
      }
    } else {
      var day :| p.first <= day <= p.last && SnapshotKey(entityId, day) !in b.snapshots;
      LateCountRaises(locked, entityId, p, day);
      SetLockedCounts(b.snapshots, entityId, p, p.last);
      var late := CallSnapshot(SnapshotKey(entityId, day), Peak(Counts(locked.snapshots, entityId, p.first, p.last)) + 1);
      assert NeverUnlocks([late]);
    }
  }

  lemma {:induction false} SetLockedCounts(s: map<SnapshotKey, Snapshot>, entityId: string, p: Period, last: int)
    ensures Counts(SetLocked(s, None, p, true), entityId, p.first, last) == Counts(s, entityId, p.first, last)
    decreases last - p.first
  {
    if p.first <= last { SetLockedCounts(s, entityId, p, last - 1); }
  }

  // ---- amounts -------------------------------------------------------------------------

  lemma {:induction false} SumBound(counts: seq<nat>)
    ensures 0 <= Sum(counts) <= |counts| * Peak(counts) && 0 <= Peak(counts)
  {
    if counts != [] {
      var front, last := counts[..|counts| - 1], counts[|counts| - 1];
      SumBound(front);
      RaiseBound(|front|, Peak(front), Peak(counts), last, Sum(front));
    }
  }

  lemma RaiseBound(n: nat, low: int, high: int, last: int, sum: int)
    requires sum <= n * low && low <= high && last <= high
    ensures sum + last <= (n + 1) * high
  {
    assert n * low <= n * high;
  }

  lemma MeanBelow(sum: int, n: int, peak: int)
    requires n > 0 && sum <= n * peak
    ensures sum as real / n as real <= peak as real
  {
    assert sum as real <= n as real * peak as real;
    DivideBound(sum as real, n as real, peak as real);
  }

  lemma DivideBound(x: real, n: real, y: real)
    requires n > 0.0 && x <= n * y
    ensures x / n <= y
  {
    var q := x / n;
    assert q * n == x;
    assert (q - y) * n <= 0.0;
  }

  /** The rounded-up average never exceeds the peak, so the watermark is the peak. */
  lemma WatermarkIsPeak(counts: seq<nat>)
    ensures RollupOf(counts).watermark == Peak(counts)
  {
    SumBound(counts);
    if counts != [] {
      MeanBelow(Sum(counts), |counts|, Peak(counts));
      CeilBelow(RollupOf(counts).average - 0.000000001, Peak(counts));
    }
  }

  lemma CeilBelow(x: real, n: int)
    requires x <= n as real
    ensures Ceil(x) <= n
  {
  }

  /** The months' peaks of the entities that are billed. */
  function PeakSum(snapshots: map<SnapshotKey, Snapshot>, entities: seq<Entity>, p: Period): int {
    if entities == [] then 0
    else
      PeakSum(snapshots, entities[..|entities| - 1], p)
      + if entities[|entities| - 1].exempt then 0 else Peak(Counts(snapshots, entities[|entities| - 1].id, p.first, p.last))
  }

  function Billed(lines: seq<Line>): int {
    if lines == [] then 0 else Billed(lines[..|lines| - 1]) + lines[|lines| - 1].billed
  }

  predicate Priced(line: Line, unit: real) { line.amount == line.billed as real * unit }

  ghost predicate AllPriced(lines: seq<Line>, unit: real) {
    forall i :: 0 <= i < |lines| ==> Priced(lines[i], unit)
  }

  lemma AddLine(amount: real, counts: int, line: Line, unit: real)
    requires amount == counts as real * unit && Priced(line, unit)
    ensures amount + line.amount == (counts + line.billed) as real * unit
  {
  }

  lemma {:induction false} AmountsPriced(lines: seq<Line>, unit: real)
    requires AllPriced(lines, unit)
    ensures Amounts(lines) == Billed(lines) as real * unit
  {
    if lines != [] {
      var front := lines[..|lines| - 1];
      AmountsPriced(front, unit);
      AddLine(Amounts(front), Billed(front), lines[|lines| - 1], unit);
    }
  }

  lemma PricedTotal(lines: seq<Line>, n: int, unit: real)
    requires Billed(lines) == n && AllPriced(lines, unit)
    ensures Amounts(lines) == n as real * unit
  {
    AmountsPriced(lines, unit);
  }

  lemma {:induction false} LinesPriced(snapshots: map<SnapshotKey, Snapshot>, entities: seq<Entity>, p: Period, unit: real)
    ensures AllPriced(DraftLines(snapshots, entities, p, unit), unit)
  {
    if entities != [] {
      LinesPriced(snapshots, entities[..|entities| - 1], p, unit);
    }
  }

  lemma {:induction false} BilledIsPeaks(snapshots: map<SnapshotKey, Snapshot>, entities: seq<Entity>, p: Period, unit: real)
    ensures Billed(DraftLines(snapshots, entities, p, unit)) == PeakSum(snapshots, entities, p)
  {
    if entities != [] {
      var front, entity := entities[..|entities| - 1], entities[|entities| - 1];
      BilledIsPeaks(snapshots, front, p, unit);
      if !entity.exempt {
        WatermarkIsPeak(Counts(snapshots, entity.id, p.first, p.last));
        var line := LineOf(MonthlyRollup(snapshots, entity.id, p), entity.id, unit);
        BilledLast(DraftLines(snapshots, front, p, unit), line);
      }
    }
  }

  lemma BilledLast(lines: seq<Line>, line: Line)
    ensures Billed(lines + [line]) == Billed(lines) + line.billed
  {
    assert (lines + [line])[..|lines|] == lines;
  }

  /** An invoice asks for the unit price times the sum of the peaks. */
  lemma AmountIsPeaks(snapshots: map<SnapshotKey, Snapshot>, entities: seq<Entity>, p: Period, unit: real,
                      amount: real, peaks: int)
    requires amount == Amounts(DraftLines(snapshots, entities, p, unit)) && peaks == PeakSum(snapshots, entities, p)
    ensures amount == peaks as real * unit
  {
    LinesPriced(snapshots, entities, p, unit);
    BilledIsPeaks(snapshots, entities, p, unit);
    PricedTotal(DraftLines(snapshots, entities, p, unit), peaks, unit);
  }
}
