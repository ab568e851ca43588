/** Billing of one institution: daily head counts, draft and retroactive invoices, disputes and
    locking. A call is one atomic step; rows are kept in the order of their creation and an
    index is a row's id. Money and averages are exact reals. */
module Billing {
  import opened Results
  import opened Text

  const DAY_MS: int := 86_400_000
  const RECENT: nat := 100

  datatype InvoiceStatus = Draft | Open | Paid | Void

  datatype DisputeStatus =
    | DisputeOpen | ManualReview | AutoResolvedRejected | AutoResolvedAccepted | ResolvedAccepted | ResolvedRejected

  datatype Verdict = AutoAccept | AutoReject

  datatype DisputeLine = DisputeLine(studentId: string, verdict: Verdict)

  datatype Dispute = Dispute(invoiceId: nat, status: DisputeStatus, lines: seq<DisputeLine>)

  /** The first and the last UTC day of a billed month. */
  datatype Period = Period(first: int, last: int)

  datatype Rollup = Rollup(peak: int, average: real, watermark: int)

  datatype Line = Line(entityId: string, rollup: Rollup, billed: int, amount: real)

  datatype Invoice = Invoice(
    amount: real, status: InvoiceStatus, createdAt: int, lockedAt: Option<int>, retroactive: bool,
    backfillRequestId: Option<string>, period: Option<Period>, lines: seq<Line>)

  datatype SnapshotKey = SnapshotKey(entityId: string, day: int)

  datatype Snapshot = Snapshot(count: nat, locked: bool)

  datatype Books = Books(invoices: seq<Invoice>, disputes: seq<Dispute>, snapshots: map<SnapshotKey, Snapshot>)

  datatype Entity = Entity(id: string, exempt: bool)

  datatype Refusal =
    | ReasonTooShort | NotFound | NotDisputable | InvoiceLocked | AlreadyDisputed | UnknownStudent
    | AlreadyResolved | NotDraft | InTrial | NoEstimate | SnapshotLocked | InvalidRange

  datatype SkipReason = AlreadyLocked | NotLockableStatus | RetroactiveImmediateLock | DisputeWindowOpen | ActiveDispute

  datatype Reply =
    | Done | Refused(refusal: Refusal) | Locked | Skipped(reason: SkipReason)
    | Created(id: nat) | Existing(id: nat) | Counted(count: nat)

  // ---- disputes ------------------------------------------------------------------------

  predicate Active(d: Dispute) { d.status == DisputeOpen || d.status == ManualReview }

  predicate ActiveOn(disputes: seq<Dispute>, invoiceId: nat) {
    exists i :: 0 <= i < |disputes| && disputes[i].invoiceId == invoiceId && Active(disputes[i])
  }

  /** The named students: blank entries are dropped, the others trimmed. */
  function Named(ids: seq<string>): seq<string> {
    if ids == [] then []
    else Named(ids[..|ids| - 1]) + if Trim(ids[|ids| - 1]) != "" then [Trim(ids[|ids| - 1])] else []
  }

  /** The verdict on one student of the roster, which says who is ACTIVE. */
  function LineFor(roster: map<string, bool>, id: string): DisputeLine
    requires id in roster
  {
    DisputeLine(id, if roster[id] then AutoReject else AutoAccept)
  }

  function LinesFor(roster: map<string, bool>, named: seq<string>): (lines: seq<DisputeLine>)
    requires forall i :: 0 <= i < |named| ==> named[i] in roster
    ensures |lines| == |named| && forall i :: 0 <= i < |lines| ==> lines[i] == LineFor(roster, named[i])
  {
    seq(|named|, i requires 0 <= i < |named| => LineFor(roster, named[i]))
  }

  function CountOf(lines: seq<DisputeLine>, v: Verdict): nat {
    if lines == [] then 0
    else CountOf(lines[..|lines| - 1], v) + if lines[|lines| - 1].verdict == v then 1 else 0
  }

  function StatusFor(lines: seq<DisputeLine>): DisputeStatus {
    if lines == [] then ManualReview
    else if CountOf(lines, AutoAccept) > 0 && CountOf(lines, AutoReject) > 0 then ManualReview
    else if CountOf(lines, AutoReject) > 0 then AutoResolvedRejected
    else AutoResolvedAccepted
  }

  function Initiate(b: Books, roster: map<string, bool>, invoiceId: nat, reason: string, ids: seq<string>): (Books, Reply) {
    var named := Named(ids);
    if |Trim(reason)| < 5 then (b, Refused(ReasonTooShort))
    else if invoiceId >= |b.invoices| then (b, Refused(NotFound))
    else if b.invoices[invoiceId].status != Draft && b.invoices[invoiceId].status != Open then (b, Refused(NotDisputable))
    else if b.invoices[invoiceId].lockedAt.Some? then (b, Refused(InvoiceLocked))
    else if ActiveOn(b.disputes, invoiceId) then (b, Refused(AlreadyDisputed))
    else if exists i :: 0 <= i < |named| && named[i] !in roster then (b, Refused(UnknownStudent))
    else
      var lines := LinesFor(roster, named);
      (b.(disputes := b.disputes + [Dispute(invoiceId, StatusFor(lines), lines)]), Created(|b.disputes|))
  }

  /** An automatic resolution may still be overruled; a manual one may not. */
  function Resolve(b: Books, id: nat, accept: bool): (Books, Reply) {
    if id >= |b.disputes| then (b, Refused(NotFound))
    else if b.disputes[id].status == ResolvedAccepted || b.disputes[id].status == ResolvedRejected
    then (b, Refused(AlreadyResolved))
    else
      var status := if accept then ResolvedAccepted else ResolvedRejected;
      (b.(disputes := b.disputes[id := b.disputes[id].(status := status)]), Done)
  }

  // ---- locking -------------------------------------------------------------------------

  function LockedInvoice(b: Books, id: nat, now: int): Books
    requires id < |b.invoices|
  {
    b.(invoices := b.invoices[id := b.invoices[id].(status := Open, lockedAt := Some(now))])
  }

  /** By hand, whatever the disputes say. */
  function FinalizeDraftInvoice(b: Books, id: nat, now: int): (Books, Reply) {
    if id >= |b.invoices| then (b, Refused(NotFound))
    else if b.invoices[id].status != Draft || b.invoices[id].lockedAt.Some? then (b, Refused(NotDraft))
    else (LockedInvoice(b, id, now), Done)
  }

  predicate InPeriod(key: SnapshotKey, p: Period) { p.first <= key.day <= p.last }

  function SetLocked(snapshots: map<SnapshotKey, Snapshot>, entityId: Option<string>, p: Period, locked: bool)
    : map<SnapshotKey, Snapshot>
  {
    map key | key in snapshots ::
      if InPeriod(key, p) && (entityId.Some? ==> key.entityId == entityId.value)
      then snapshots[key].(locked := locked) else snapshots[key]
  }

  function LockJob(b: Books, id: nat, disputeWindowDays: int, now: int): (Books, Reply) {
    if id >= |b.invoices| then (b, Refused(NotFound))
    else
      var invoice := b.invoices[id];
      if invoice.lockedAt.Some? then (b, Skipped(AlreadyLocked))
      else if invoice.status != Draft && invoice.status != Open then (b, Skipped(NotLockableStatus))
      else if invoice.retroactive then (b, Skipped(RetroactiveImmediateLock))
      else if now < invoice.createdAt + disputeWindowDays * DAY_MS then (b, Skipped(DisputeWindowOpen))
      else if ActiveOn(b.disputes, id) then (b, Skipped(ActiveDispute))
      else
        var locked := LockedInvoice(b, id, now);
        (if invoice.period.Some? then locked.(snapshots := SetLocked(b.snapshots, None, invoice.period.value, true)) else locked,
         Locked)
  }

  // ---- head counts ---------------------------------------------------------------------

  /** One row for each entity and day, written once. */
  function ComputeDailySnapshot(b: Books, key: SnapshotKey, activeStudents: nat): (Books, Reply) {
    if key in b.snapshots then (b, Counted(b.snapshots[key].count))
    else (b.(snapshots := b.snapshots[key := Snapshot(activeStudents, false)]), Counted(activeStudents))
  }

  /** The platform may correct a row that is not locked. */
  function AmendSnapshot(b: Books, key: SnapshotKey, count: nat): (Books, Reply) {
    if key !in b.snapshots then (b, Refused(NotFound))
    else if b.snapshots[key].locked then (b, Refused(SnapshotLocked))
    else (b.(snapshots := b.snapshots[key := b.snapshots[key].(count := count)]), Done)
  }

  function SetLockedInRange(b: Books, entityId: Option<string>, p: Period, locked: bool): (Books, Reply) {
    if p.first > p.last then (b, Refused(InvalidRange))
    else (b.(snapshots := SetLocked(b.snapshots, entityId, p, locked)), Done)
  }

  /** The counts of an entity from day `first` to day `last`, in the order of the days. */
  function Counts(snapshots: map<SnapshotKey, Snapshot>, entityId: string, first: int, last: int): seq<nat>
    decreases last - first
  {
    if last < first then []
    else
      Counts(snapshots, entityId, first, last - 1)
      + if SnapshotKey(entityId, last) in snapshots then [snapshots[SnapshotKey(entityId, last)].count] else []
  }

  function Max(a: int, b: int): int { if a < b then b else a }

  function Peak(counts: seq<nat>): int {
    if counts == [] then 0 else Max(Peak(counts[..|counts| - 1]), counts[|counts| - 1])
  }

  function Sum(counts: seq<nat>): int {
    if counts == [] then 0 else Sum(counts[..|counts| - 1]) + counts[|counts| - 1]
  }

  function Ceil(x: real): int { -(-x).Floor }

  function RollupOf(counts: seq<nat>): Rollup {
    var average := if |counts| > 0 then Sum(counts) as real / |counts| as real else 0.0;
    var ceiling := if |counts| > 0 then Ceil(average - 0.000000001) else 0;
    Rollup(Peak(counts), average, Max(Peak(counts), ceiling))
  }

  function MonthlyRollup(snapshots: map<SnapshotKey, Snapshot>, entityId: string, p: Period): Rollup {
    RollupOf(Counts(snapshots, entityId, p.first, p.last))
  }

  // ---- invoices ------------------------------------------------------------------------

  /** One line for each entity that is not exempt. */
  function DraftLines(snapshots: map<SnapshotKey, Snapshot>, entities: seq<Entity>, p: Period, unit: real): seq<Line> {
    if entities == [] then []
    else
      var front, entity := DraftLines(snapshots, entities[..|entities| - 1], p, unit), entities[|entities| - 1];
      if entity.exempt then front else front + [LineOf(MonthlyRollup(snapshots, entity.id, p), entity.id, unit)]
  }

  /** The billed count is the watermark; no contractual minimum applies. */
  function LineOf(rollup: Rollup, entityId: string, unit: real): Line {
    Line(entityId, rollup, rollup.watermark, rollup.watermark as real * unit)
  }

  function Amounts(lines: seq<Line>): real {
    if lines == [] then 0.0 else Amounts(lines[..|lines| - 1]) + lines[|lines| - 1].amount
  }

  function GenerateDraftInvoice(b: Books, trialUntil: Option<int>, entities: seq<Entity>, p: Period, retroactive: bool,
                                unit: real, now: int): (Books, Reply)
  {
    if trialUntil.Some? && trialUntil.value > now then (b, Refused(InTrial))
    else
      var lines := DraftLines(b.snapshots, entities, p, unit);
      (b.(invoices := b.invoices + [Invoice(Amounts(lines), Draft, now, None, retroactive, None, Some(p), lines)]),
       Created(|b.invoices|))
  }

  /** Retroactive invoices among the rows from index i on. */
  function RetroFrom(invoices: seq<Invoice>, i: nat): nat
    requires i <= |invoices|
    decreases |invoices| - i
  {
    if i == |invoices| then 0 else RetroFrom(invoices, i + 1) + if invoices[i].retroactive then 1 else 0
  }

  /** Row i bills the request and is among the most recent retroactive rows. */
  predicate Found(invoices: seq<Invoice>, requestId: string, i: nat)
    requires i < |invoices|
  {
    invoices[i].retroactive && invoices[i].backfillRequestId == Some(requestId) && RetroFrom(invoices, i + 1) < RECENT
  }

  /** The newest such row below n. */
  function FindRetro(invoices: seq<Invoice>, requestId: string, n: nat): Option<nat>
    requires n <= |invoices|
  {
    if n == 0 then None
    else if Found(invoices, requestId, n - 1) then Some(n - 1)
    else FindRetro(invoices, requestId, n - 1)
  }

  /** The fee is None when the entity is unknown or the dates are out of order. */
  function GenerateRetroactive(b: Books, requestId: string, fee: Option<real>, now: int): (Books, Reply) {
    var existing := FindRetro(b.invoices, requestId, |b.invoices|);
    if existing.Some? then (b, Existing(existing.value))
    else if fee.None? then (b, Refused(NoEstimate))
    else
      (b.(invoices := b.invoices + [Invoice(fee.value, Open, now, Some(now), true, Some(requestId), None, [])]),
       Created(|b.invoices|))
  }
}
