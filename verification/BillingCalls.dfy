/** Which billing calls are taken and what they write, said of the stored rows alone, and what the
    dispute window promises over runs. */
module BillingCalls {
  import opened Results
  import opened Text
  import opened Billing
  import opened BillingSafety

  // ---- the dispute window --------------------------------------------------------------

  /** A dispute on the invoice awaits a decision. */
  ghost predicate Disputed(b: Books, id: nat) {
    exists i :: 0 <= i < |b.disputes| && Awaits(b.disputes[i], id)
  }

  predicate Awaits(d: Dispute, id: nat) { d.invoiceId == id && (d.status == DisputeOpen || d.status == ManualReview) }

  ghost predicate Pending(b: Books, id: nat) {
    && id < |b.invoices| && b.invoices[id].lockedAt == None
    && (b.invoices[id].status == Draft || b.invoices[id].status == Open)
  }

  predicate WindowOver(i: Invoice, days: int, now: int) { i.createdAt + days * 86_400_000 <= now }

  lemma DisputedExact(b: Books, id: nat)
    ensures ActiveOn(b.disputes, id) <==> Disputed(b, id)
  {
    if i :| 0 <= i < |b.disputes| && Awaits(b.disputes[i], id) {
      assert b.disputes[i].invoiceId == id && Active(b.disputes[i]);
    }
  }

  /** The head counts of the invoice's month, and no others, are locked with it. */
  ghost predicate MonthLocked(b: Books, after: Books, p: Option<Period>) {
    after.snapshots.Keys == b.snapshots.Keys
    && forall key :: key in b.snapshots ==>
         after.snapshots[key] ==
         if p.Some? && p.value.first <= key.day <= p.value.last then Snapshot(b.snapshots[key].count, true) else b.snapshots[key]
  }

  /** The job locks an invoice exactly if it is unlocked, a draft or open, not retroactive and
      undisputed, and its dispute window is over; otherwise nothing changes. */
  lemma LockTaken(b: Books, id: nat, days: int, now: int)
    ensures var (after, reply) := LockJob(b, id, days, now);
            && (reply == Locked <==>
                  Pending(b, id) && !b.invoices[id].retroactive && !Disputed(b, id) && WindowOver(b.invoices[id], days, now))
            && (reply != Locked ==> after == b)
            && (reply == Locked ==>
                  && after.invoices == b.invoices[id := b.invoices[id].(status := Open, lockedAt := Some(now))]
                  && after.disputes == b.disputes && MonthLocked(b, after, b.invoices[id].period))
  {
    DisputedExact(b, id);
  }

  /** Why it does not: the first of these that applies. */
  lemma LockSkipped(b: Books, id: nat, days: int, now: int)
    ensures var reply := LockJob(b, id, days, now).1;
            && (reply == Refused(NotFound) <==> id >= |b.invoices|)
            && (reply == Skipped(AlreadyLocked) <==> id < |b.invoices| && b.invoices[id].lockedAt.Some?)
            && (reply == Skipped(NotLockableStatus) <==> id < |b.invoices| && b.invoices[id].lockedAt.None? && !Pending(b, id))
            && (reply == Skipped(RetroactiveImmediateLock) <==> Pending(b, id) && b.invoices[id].retroactive)
            && (reply == Skipped(DisputeWindowOpen) <==>
                  Pending(b, id) && !b.invoices[id].retroactive && !WindowOver(b.invoices[id], days, now))
            && (reply == Skipped(ActiveDispute) <==>
                  Pending(b, id) && !b.invoices[id].retroactive && WindowOver(b.invoices[id], days, now) && Disputed(b, id))
  {
    DisputedExact(b, id);
  }

  /** Nobody disputes or finalizes the invoice, and the job comes only while its window runs. */
  predicate LeavesAlone(call: Call, id: nat, created: int) {
    match call
    case CallInitiate(_, invoiceId, _, _) => invoiceId != id
    case CallFinalize(invoiceId, _) => invoiceId != id
    case CallLockJob(invoiceId, days, now) => invoiceId == id ==> now < created + days * 86_400_000
    case _ => true
  }

  ghost predicate Untouched(b: Books, after: Books, id: nat) {
    id < |b.invoices| && id < |after.invoices| && after.invoices[id] == b.invoices[id]
    && (Disputed(after, id) ==> Disputed(b, id))
  }

  lemma StepUntouched(b: Books, call: Call, id: nat)
    requires id < |b.invoices| && LeavesAlone(call, id, b.invoices[id].createdAt)
    ensures Untouched(b, Step(b, call).0, id)
  {
    var after := Step(b, call).0;
    if i :| 0 <= i < |after.disputes| && Awaits(after.disputes[i], id) {
      assert i < |b.disputes| && Awaits(b.disputes[i], id);
    }
  }

  lemma {:induction false} RunUntouched(b: Books, calls: seq<Call>, id: nat)
    requires id < |b.invoices|
    requires forall i :: 0 <= i < |calls| ==> LeavesAlone(calls[i], id, b.invoices[id].createdAt)
    ensures Untouched(b, Run(b, calls), id)
    decreases |calls|
  {
    if calls != [] {
      StepUntouched(b, calls[0], id);
      RunUntouched(Step(b, calls[0]).0, calls[1..], id);
    }
  }

  /** Before the window is over the job does not take away that an invoice can be disputed,
      whatever else is called and however often it comes. */
  lemma WindowKept(b: Books, calls: seq<Call>, id: nat, roster: map<string, bool>, reason: string, ids: seq<string>)
    requires Pending(b, id) && !Disputed(b, id)
    requires forall i :: 0 <= i < |calls| ==> LeavesAlone(calls[i], id, b.invoices[id].createdAt)
    requires |Trim(reason)| >= 5 && AllKnown(roster, ids)
    ensures var after := Run(b, calls);
            Pending(after, id) && !Disputed(after, id) && Initiate(after, roster, id, reason, ids).1.Created?
  {
    RunUntouched(b, calls, id);
    DisputeTaken(Run(b, calls), roster, id, reason, ids);
  }

  /** A new draft can be disputed until its window, counted from that instant, is over. */
  lemma DraftDisputable(b: Books, trialUntil: Option<int>, entities: seq<Entity>, p: Period, unit: real, made: int,
                        calls: seq<Call>, roster: map<string, bool>, reason: string, ids: seq<string>)
    requires Inv(b) && !(trialUntil.Some? && made < trialUntil.value)
    requires forall i :: 0 <= i < |calls| ==> LeavesAlone(calls[i], |b.invoices|, made)
    requires |Trim(reason)| >= 5 && AllKnown(roster, ids)
    ensures var drafted := GenerateDraftInvoice(b, trialUntil, entities, p, false, unit, made).0;
            Initiate(Run(drafted, calls), roster, |b.invoices|, reason, ids).1.Created?
  {
    var drafted := GenerateDraftInvoice(b, trialUntil, entities, p, false, unit, made).0;
    DraftTaken(b, trialUntil, entities, p, false, unit, made);
    forall i | 0 <= i < |drafted.disputes| ensures !Awaits(drafted.disputes[i], |b.invoices|) {
      assert DisputeSound(b, b.disputes[i]);
    }
    WindowKept(drafted, calls, |b.invoices|, roster, reason, ids);
  }

  // ---- disputes ------------------------------------------------------------------------

  /** Every entry that is not blank names a student of the roster. */
  ghost predicate AllKnown(roster: map<string, bool>, ids: seq<string>) {
    forall i :: 0 <= i < |ids| && Trim(ids[i]) != "" ==> Trim(ids[i]) in roster
  }

  lemma {:induction false} NamedExact(ids: seq<string>, id: string)
    ensures id in Named(ids) <==> id != "" && exists i :: 0 <= i < |ids| && Trim(ids[i]) == id
  {
    if ids != [] {
      var front, last := ids[..|ids| - 1], ids[|ids| - 1];
      NamedExact(front, id);
      if i :| 0 <= i < |ids| && Trim(ids[i]) == id { assert i < |front| ==> front[i] == ids[i]; }
      if i :| 0 <= i < |front| && Trim(front[i]) == id { assert ids[i] == front[i]; }
    }
  }

  lemma KnownExact(roster: map<string, bool>, ids: seq<string>)
    ensures Unknown(roster, Named(ids)) <==> !AllKnown(roster, ids)
  {
    if AllKnown(roster, ids) {
      forall i | 0 <= i < |Named(ids)| ensures Named(ids)[i] in roster {
        NamedExact(ids, Named(ids)[i]);
      }
    } else {
      var i :| 0 <= i < |ids| && Trim(ids[i]) != "" && Trim(ids[i]) !in roster;
      NamedExact(ids, Trim(ids[i]));
      var k :| 0 <= k < |Named(ids)| && Named(ids)[k] == Trim(ids[i]);
    }
  }

  ghost predicate Unknown(roster: map<string, bool>, named: seq<string>) {
    exists i :: 0 <= i < |named| && named[i] !in roster
  }

  /** The call with its conditions by name. */
  lemma InitiateReply(b: Books, roster: map<string, bool>, id: nat, reason: string, ids: seq<string>)
    ensures var (after, reply) := Initiate(b, roster, id, reason, ids);
            && (reply.Created? <==>
                  |Trim(reason)| >= 5 && Pending(b, id) && !ActiveOn(b.disputes, id) && !Unknown(roster, Named(ids)))
            && (reply == Refused(UnknownStudent) <==>
                  |Trim(reason)| >= 5 && Pending(b, id) && !ActiveOn(b.disputes, id) && Unknown(roster, Named(ids)))
            && (reply == Refused(AlreadyDisputed) <==> |Trim(reason)| >= 5 && Pending(b, id) && ActiveOn(b.disputes, id))
            && (!reply.Created? ==> after == b)
  {
  }

  /** A dispute is taken exactly on a pending, undisputed invoice, with a reason of five
      characters and none but known students. */
  lemma DisputeTaken(b: Books, roster: map<string, bool>, id: nat, reason: string, ids: seq<string>)
    ensures Initiate(b, roster, id, reason, ids).1.Created? <==>
            |Trim(reason)| >= 5 && Pending(b, id) && !Disputed(b, id) && AllKnown(roster, ids)
  {
    DisputedExact(b, id);
    KnownExact(roster, ids);
    InitiateReply(b, roster, id, reason, ids);
  }

  /** Why it is refused: the first of these that applies; nothing is written then. */
  lemma DisputeRefused(b: Books, roster: map<string, bool>, id: nat, reason: string, ids: seq<string>)
    ensures var (after, reply) := Initiate(b, roster, id, reason, ids);
            var told := |Trim(reason)| >= 5;
            && (reply == Refused(ReasonTooShort) <==> !told)
            && (reply == Refused(NotFound) <==> told && id >= |b.invoices|)
            && (reply == Refused(NotDisputable) <==>
                  told && id < |b.invoices| && b.invoices[id].status != Draft && b.invoices[id].status != Open)
            && (reply == Refused(InvoiceLocked) <==>
                  told && id < |b.invoices| && (b.invoices[id].status == Draft || b.invoices[id].status == Open)
                  && b.invoices[id].lockedAt.Some?)
            && (reply == Refused(AlreadyDisputed) <==> told && Pending(b, id) && Disputed(b, id))
            && (reply == Refused(UnknownStudent) <==> told && Pending(b, id) && !Disputed(b, id) && !AllKnown(roster, ids))
            && (!reply.Created? ==> after == b)
  {
    DisputedExact(b, id);
    KnownExact(roster, ids);
    InitiateReply(b, roster, id, reason, ids);
  }

  // ---- invoices ------------------------------------------------------------------------

  /** A draft is made exactly when no trial runs: unlocked, of that instant, for that month. */
  lemma DraftTaken(b: Books, trialUntil: Option<int>, entities: seq<Entity>, p: Period, retroactive: bool, unit: real, now: int)
    ensures var (after, reply) := GenerateDraftInvoice(b, trialUntil, entities, p, retroactive, unit, now);
            && (reply.Created? <==> !(trialUntil.Some? && now < trialUntil.value))
            && (!reply.Created? ==> after == b)
            && (reply.Created? ==>
                  && |after.invoices| == |b.invoices| + 1 && after.invoices[..|b.invoices|] == b.invoices
                  && reply.id == |b.invoices| && after.disputes == b.disputes && after.snapshots == b.snapshots
                  && var made := after.invoices[|b.invoices|];
                     && Pending(after, |b.invoices|) && made.createdAt == now && made.retroactive == retroactive
                     && made.backfillRequestId == None && made.period == Some(p))
  {
  }

  /** By hand a draft is locked exactly if it is an unlocked draft; whatever is disputed. */
  lemma FinalizeTaken(b: Books, id: nat, now: int)
    ensures var (after, reply) := FinalizeDraftInvoice(b, id, now);
            && (reply == Done <==> Pending(b, id) && b.invoices[id].status == Draft)
            && after == if reply == Done
                        then b.(invoices := b.invoices[id := b.invoices[id].(status := Open, lockedAt := Some(now))]) else b
  {
  }

  /** A backfill's invoice is open, locked at once and bills what was estimated. */
  lemma RetroactiveTaken(b: Books, requestId: string, fee: Option<real>, now: int)
    requires GenerateRetroactive(b, requestId, fee, now).1.Created?
    ensures var after := GenerateRetroactive(b, requestId, fee, now).0;
            && fee.Some? && |after.invoices| == |b.invoices| + 1 && after.invoices[..|b.invoices|] == b.invoices
            && var made := after.invoices[|b.invoices|];
               && made.amount == fee.value && made.status == Open && made.createdAt == now && made.lockedAt == Some(now)
               && made.retroactive && made.backfillRequestId == Some(requestId) && made.period == None
  {
  }

  // ---- head counts -----------------------------------------------------------------------

  predicate InRange(key: SnapshotKey, entityId: Option<string>, p: Period) {
    p.first <= key.day <= p.last && (entityId == None || entityId == Some(key.entityId))
  }

  /** Only an unlocked row is amended, and only its count; locking a range changes nothing but the
      locks of that range. */
  lemma CountsTaken(b: Books, key: SnapshotKey, count: nat, entityId: Option<string>, p: Period, locked: bool)
    ensures var (after, reply) := AmendSnapshot(b, key, count);
            && (reply == Done <==> key in b.snapshots && !b.snapshots[key].locked)
            && after == if reply == Done then b.(snapshots := b.snapshots[key := Snapshot(count, false)]) else b
    ensures var (after, reply) := SetLockedInRange(b, entityId, p, locked);
            && (reply == Done <==> p.first <= p.last)
            && (reply != Done ==> after == b)
            && (reply == Done ==>
                  && after.invoices == b.invoices && after.disputes == b.disputes && after.snapshots.Keys == b.snapshots.Keys
                  && forall k :: k in b.snapshots ==>
                       after.snapshots[k].count == b.snapshots[k].count
                       && after.snapshots[k].locked == if InRange(k, entityId, p) then locked else b.snapshots[k].locked)
  {
  }
}
