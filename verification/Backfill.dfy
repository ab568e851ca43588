/** Backfill requests and the posting windows they open. A call is one atomic step; dates are
    milliseconds, and None stands for text that is not a date. */
module Backfill {
  import opened Results

  datatype RequestStatus = Pending | UnderReview | Approved | Rejected | Cancelled

  /** `workflowOpen` until the workflow instance of the request is completed or rejected. */
  datatype Request = Request(studentId: string, from: int, to: int, status: RequestStatus, workflowOpen: bool)

  datatype Window = Window(studentId: string, requestId: nat, from: int, to: int, active: bool)

  /** Rows in the order of their creation; an index is a row's id. */
  datatype Rows = Rows(requests: seq<Request>, windows: seq<Window>)

  datatype Refusal = NotAcknowledged | UnknownStudent | InvalidRange | AlreadyPending | NotFound | WrongStatus

  datatype Reply = Submitted(requestId: nat) | Opened(windowId: nat) | Done | Refused(refusal: Refusal)

  datatype Submission = Submission(acknowledged: bool, studentId: string, from: Option<int>, to: Option<int>)

  predicate Open(r: Request) { r.status == Pending || r.status == UnderReview }

  predicate HasOpen(rows: Rows, studentId: string) {
    exists i :: 0 <= i < |rows.requests| && rows.requests[i].studentId == studentId && Open(rows.requests[i])
  }

  /** Closed intervals. */
  predicate Overlap(a: Window, from: int, to: int) { a.from <= to && from <= a.to }

  function Superseded(w: Window, r: Request): Window {
    if w.studentId == r.studentId && w.active && Overlap(w, r.from, r.to) then w.(active := false) else w
  }

  function SupersededAll(windows: seq<Window>, r: Request): (after: seq<Window>)
    ensures |after| == |windows| && forall i :: 0 <= i < |windows| ==> after[i] == Superseded(windows[i], r)
  {
    seq(|windows|, i requires 0 <= i < |windows| => Superseded(windows[i], r))
  }

  function WithStatus(rows: Rows, id: nat, status: RequestStatus): Rows
    requires id < |rows.requests|
  {
    rows.(requests := rows.requests[id := rows.requests[id].(status := status)])
  }

  /** The transaction of an approval: retire what the window overlaps, open it, mark the request. */
  function OpenWindow(rows: Rows, id: nat): Rows
    requires id < |rows.requests|
  {
    var r := rows.requests[id];
    WithStatus(rows, id, Approved).(
      windows := SupersededAll(rows.windows, r) + [Window(r.studentId, id, r.from, r.to, true)])
  }

  // ---- the calls -----------------------------------------------------------------------

  function Submit(rows: Rows, students: set<string>, s: Submission): (Rows, Reply) {
    if !s.acknowledged then (rows, Refused(NotAcknowledged))
    else if s.studentId !in students then (rows, Refused(UnknownStudent))
    else if s.from.None? || s.to.None? || s.from.value > s.to.value then (rows, Refused(InvalidRange))
    else if HasOpen(rows, s.studentId) then (rows, Refused(AlreadyPending))
    else (rows.(requests := rows.requests + [Request(s.studentId, s.from.value, s.to.value, UnderReview, true)]),
          Submitted(|rows.requests|))
  }

  function Approve(rows: Rows, id: nat): (Rows, Reply) {
    if id >= |rows.requests| then (rows, Refused(NotFound))
    else if !Open(rows.requests[id]) then (rows, Refused(WrongStatus))
    else (OpenWindow(rows, id), Opened(|rows.windows|))
  }

  function Reject(rows: Rows, id: nat): (Rows, Reply) {
    if id >= |rows.requests| then (rows, Refused(NotFound))
    else if !Open(rows.requests[id]) then (rows, Refused(WrongStatus))
    else (WithStatus(rows, id, Rejected), Done)
  }

  function Cancel(rows: Rows, id: nat): (Rows, Reply) {
    if id >= |rows.requests| then (rows, Refused(NotFound))
    else if rows.requests[id].status != Pending then (rows, Refused(WrongStatus))
    else (WithStatus(rows, id, Cancelled), Done)
  }

  function WorkflowClosed(rows: Rows, id: nat): Rows
    requires id < |rows.requests|
  {
    rows.(requests := rows.requests[id := rows.requests[id].(workflowOpen := false)])
  }

  /** The workflow's last step: any request not already approved gets its window. */
  function CompleteBackfill(rows: Rows, id: nat): (Rows, Reply) {
    if id >= |rows.requests| || !rows.requests[id].workflowOpen then (rows, Refused(NotFound))
    else if rows.requests[id].status == Approved then (WorkflowClosed(rows, id), Done)
    else (OpenWindow(WorkflowClosed(rows, id), id), Opened(|rows.windows|))
  }

  /** A rejected workflow overwrites whatever status the request has. */
  function RejectFromWorkflow(rows: Rows, id: nat): (Rows, Reply) {
    if id >= |rows.requests| || !rows.requests[id].workflowOpen then (rows, Refused(NotFound))
    else (WithStatus(WorkflowClosed(rows, id), id, Rejected), Done)
  }

  // ---- the service ---------------------------------------------------------------------

  class BackfillService {
    var requests: seq<Request>
    var windows: seq<Window>

    constructor ()
      ensures Stored() == Rows([], [])
    {
      requests, windows := [], [];
    }

    function Stored(): Rows
      reads this
    {
      Rows(requests, windows)
    }

    method SubmitRequest(students: set<string>, s: Submission) returns (reply: Reply)
      modifies this`requests
      ensures (Stored(), reply) == Submit(old(Stored()), students, s)
    {
      if !s.acknowledged { return Refused(NotAcknowledged); }
      if s.studentId !in students { return Refused(UnknownStudent); }
      if s.from.None? || s.to.None? { return Refused(InvalidRange); }
      if s.from.value > s.to.value { return Refused(InvalidRange); }
      for i := 0 to |requests|
        invariant forall j :: 0 <= j < i ==> !(requests[j].studentId == s.studentId && Open(requests[j]))
      {
        if requests[i].studentId == s.studentId && Open(requests[i]) { return Refused(AlreadyPending); }
      }
      reply := Submitted(|requests|);
      requests := requests + [Request(s.studentId, s.from.value, s.to.value, UnderReview, true)];
    }

    /** Retires the overlapping active windows of the student one after the other. */
    method OpenWindowFor(id: nat)
      requires id < |requests|
      modifies this
      ensures Stored() == OpenWindow(old(Stored()), id)
    {
      var r := requests[id];
      for i := 0 to |windows|
        invariant requests == old(requests) && |windows| == |old(windows)|
        invariant forall j :: 0 <= j < |windows| ==>
          windows[j] == if j < i then Superseded(old(windows)[j], r) else old(windows)[j]
      {
        if windows[i].studentId == r.studentId && windows[i].active && Overlap(windows[i], r.from, r.to) {
          windows := windows[i := windows[i].(active := false)];
        }
      }
      assert windows == SupersededAll(old(windows), r);
      windows := windows + [Window(r.studentId, id, r.from, r.to, true)];
      requests := requests[id := requests[id].(status := Approved)];
    }

    method ApproveRequest(id: nat) returns (reply: Reply)
      modifies this
      ensures (Stored(), reply) == Approve(old(Stored()), id)
    {
      if id >= |requests| { return Refused(NotFound); }
      if requests[id].status != Pending && requests[id].status != UnderReview { return Refused(WrongStatus); }
      reply := Opened(|windows|);
      OpenWindowFor(id);
    }

    method RejectRequest(id: nat) returns (reply: Reply)
      modifies this`requests
      ensures (Stored(), reply) == Reject(old(Stored()), id)
    {
      if id >= |requests| { return Refused(NotFound); }
      if requests[id].status != Pending && requests[id].status != UnderReview { return Refused(WrongStatus); }
      requests := requests[id := requests[id].(status := Rejected)];
      return Done;
    }

    method CancelRequest(id: nat) returns (reply: Reply)
      modifies this`requests
      ensures (Stored(), reply) == Cancel(old(Stored()), id)
    {
      if id >= |requests| { return Refused(NotFound); }
      if requests[id].status != Pending { return Refused(WrongStatus); }
      requests := requests[id := requests[id].(status := Cancelled)];
      return Done;
    }

    method CompleteFromWorkflow(id: nat) returns (reply: Reply)
      modifies this
      ensures (Stored(), reply) == CompleteBackfill(old(Stored()), id)
    {
      if id >= |requests| || !requests[id].workflowOpen { return Refused(NotFound); }
      requests := requests[id := requests[id].(workflowOpen := false)];
      if requests[id].status == Approved { return Done; }
      reply := Opened(|windows|);
      OpenWindowFor(id);
    }

    method HandleRejected(id: nat) returns (reply: Reply)
      modifies this`requests
      ensures (Stored(), reply) == RejectFromWorkflow(old(Stored()), id)
    {
      if id >= |requests| || !requests[id].workflowOpen { return Refused(NotFound); }
      requests := requests[id := requests[id].(workflowOpen := false)];
      requests := requests[id := requests[id].(status := Rejected)];
      return Done;
    }
  }

  // ---- what every run keeps ------------------------------------------------------------

  datatype Call =
    | CallSubmit(students: set<string>, s: Submission)
    | CallApprove(id: nat)
    | CallReject(id: nat)
    | CallCancel(id: nat)
    | CallComplete(id: nat)
    | CallRejectWorkflow(id: nat)

  function Step(rows: Rows, call: Call): (Rows, Reply) {
    match call
    case CallSubmit(students, s) => Submit(rows, students, s)
    case CallApprove(id) => Approve(rows, id)
    case CallReject(id) => Reject(rows, id)
    case CallCancel(id) => Cancel(rows, id)
    case CallComplete(id) => CompleteBackfill(rows, id)
    case CallRejectWorkflow(id) => RejectFromWorkflow(rows, id)
  }

  function Run(rows: Rows, calls: seq<Call>): Rows
    decreases |calls|
  {
    if calls == [] then rows else Run(Step(rows, calls[0]).0, calls[1..])
  }

  ghost predicate Apart(a: Window, b: Window) {
    a.studentId == b.studentId && a.active && b.active ==> a.to < b.from || b.to < a.from
  }

  ghost predicate WindowsApart(windows: seq<Window>) {
    forall i, j :: 0 <= i < j < |windows| ==> Apart(windows[i], windows[j])
  }

  ghost predicate OneOpen(requests: seq<Request>) {
    forall i, j :: 0 <= i < j < |requests| && Open(requests[i]) && Open(requests[j]) ==>
      requests[i].studentId != requests[j].studentId
  }

  ghost predicate HasWindow(rows: Rows, id: nat) {
    exists i :: 0 <= i < |rows.windows| && rows.windows[i].requestId == id
  }

  ghost predicate RequestSound(rows: Rows, id: nat)
    requires id < |rows.requests|
  {
    var r := rows.requests[id];
    && r.from <= r.to && r.status != Pending && r.status != Cancelled
    && (r.status == Approved ==> HasWindow(rows, id))
  }

  /** A window belongs to one request, which is decided and cannot be decided again. */
  ghost predicate WindowSound(rows: Rows, w: Window) {
    && w.requestId < |rows.requests|
    && var r := rows.requests[w.requestId];
       && w.studentId == r.studentId && w.from == r.from && w.to == r.to
       && !Open(r) && (r.status == Approved || !r.workflowOpen)
  }

  ghost predicate SingleWindows(windows: seq<Window>) {
    forall i, j :: 0 <= i < j < |windows| ==> windows[i].requestId != windows[j].requestId
  }

  ghost predicate Inv(rows: Rows) {
    && WindowsApart(rows.windows) && OneOpen(rows.requests) && SingleWindows(rows.windows)
    && (forall id :: 0 <= id < |rows.requests| ==> RequestSound(rows, id))
    && (forall i :: 0 <= i < |rows.windows| ==> WindowSound(rows, rows.windows[i]))
  }

  lemma SubmitInv(rows: Rows, students: set<string>, s: Submission)
    requires Inv(rows)
    ensures Inv(Submit(rows, students, s).0)
  {
    var after := Submit(rows, students, s).0;
    if after != rows {
      forall id | 0 <= id < |after.requests| ensures RequestSound(after, id) {
        if id < |rows.requests| { assert RequestSound(rows, id); SameWindow(rows, after, id); }
      }
      forall i | 0 <= i < |after.windows| ensures WindowSound(after, after.windows[i]) {
        assert WindowSound(rows, rows.windows[i]);
      }
    }
  }

  lemma SameWindow(rows: Rows, after: Rows, id: nat)
    requires |rows.windows| <= |after.windows|
    requires forall i :: 0 <= i < |rows.windows| ==> after.windows[i].requestId == rows.windows[i].requestId
    ensures HasWindow(rows, id) ==> HasWindow(after, id)
  {
    if i :| 0 <= i < |rows.windows| && rows.windows[i].requestId == id {
      assert after.windows[i].requestId == id;
    }
  }

  /** A new status that opens no request, approves none, and leaves no window undecided. */
  ghost predicate Harmless(r: Request, r': Request) {
    && r'.studentId == r.studentId && r'.from == r.from && r'.to == r.to
    && r'.status != Pending && r'.status != Cancelled
    && (Open(r') ==> Open(r)) && (r'.status == Approved ==> r.status == Approved)
    && (Open(r) || (!Open(r') && (r'.status == Approved || !r'.workflowOpen)))
  }

  lemma ChangeInv(rows: Rows, id: nat, r: Request)
    requires Inv(rows) && id < |rows.requests| && Harmless(rows.requests[id], r)
    ensures Inv(rows.(requests := rows.requests[id := r]))
  {
    var after := rows.(requests := rows.requests[id := r]);
    forall k | 0 <= k < |after.requests| ensures RequestSound(after, k) {
      assert RequestSound(rows, k);
      SameWindow(rows, after, k);
    }
    forall i | 0 <= i < |after.windows| ensures WindowSound(after, after.windows[i]) {
      assert WindowSound(rows, rows.windows[i]);
    }
  }

  lemma OpenedApart(windows: seq<Window>, id: nat, r: Request)
    requires WindowsApart(windows)
    ensures WindowsApart(SupersededAll(windows, r) + [Window(r.studentId, id, r.from, r.to, true)])
  {
    var old', w := SupersededAll(windows, r), Window(r.studentId, id, r.from, r.to, true);
    forall i, j | 0 <= i < j < |old' + [w]| ensures Apart((old' + [w])[i], (old' + [w])[j]) {
      if j < |old'| {
        assert old'[i] == Superseded(windows[i], r) && old'[j] == Superseded(windows[j], r);
        assert Apart(windows[i], windows[j]);
      } else {
        assert old'[i] == Superseded(windows[i], r);
      }
    }
  }

  lemma OpenedSingle(rows: Rows, id: nat)
    requires SingleWindows(rows.windows) && id < |rows.requests| && !HasWindow(rows, id)
    ensures SingleWindows(OpenWindow(rows, id).windows) && HasWindow(OpenWindow(rows, id), id)
  {
    var after := OpenWindow(rows, id);
    assert after.windows[|rows.windows|].requestId == id;
    forall i, j | 0 <= i < j < |after.windows| ensures after.windows[i].requestId != after.windows[j].requestId {
      SameRequest(rows, id, i);
      SameRequest(rows, id, j);
    }
  }

  lemma SameRequest(rows: Rows, id: nat, i: nat)
    requires id < |rows.requests| && i <= |rows.windows|
    ensures OpenWindow(rows, id).windows[i].requestId == if i < |rows.windows| then rows.windows[i].requestId else id
  {
  }

  lemma OpenWindowInv(rows: Rows, id: nat)
    requires Inv(rows) && id < |rows.requests| && !HasWindow(rows, id)
    ensures Inv(OpenWindow(rows, id))
  {
    var after, r := OpenWindow(rows, id), rows.requests[id];
    OpenedApart(rows.windows, id, r);
    OpenedSingle(rows, id);
    forall k | 0 <= k < |after.requests| ensures RequestSound(after, k) {
      assert RequestSound(rows, k);
      SameWindow(rows, after, k);
    }
    forall i | 0 <= i < |after.windows| ensures WindowSound(after, after.windows[i]) {
      if i < |rows.windows| {
        assert WindowSound(rows, rows.windows[i]);
        assert after.windows[i] == Superseded(rows.windows[i], r);
      }
    }
  }

  lemma UndecidedWithoutWindow(rows: Rows, id: nat)
    requires Inv(rows) && id < |rows.requests|
    requires Open(rows.requests[id]) || (rows.requests[id].workflowOpen && rows.requests[id].status != Approved)
    ensures !HasWindow(rows, id)
  {
    forall i | 0 <= i < |rows.windows| ensures rows.windows[i].requestId != id {
      assert WindowSound(rows, rows.windows[i]);
    }
  }

  lemma StepInv(rows: Rows, call: Call)
    requires Inv(rows)
    ensures Inv(Step(rows, call).0)
  {
    match call
    case CallSubmit(students, s) => SubmitInv(rows, students, s);
    case CallApprove(id) =>
      if Approve(rows, id).1.Opened? {
        UndecidedWithoutWindow(rows, id);
        OpenWindowInv(rows, id);
      }
    case CallReject(id) =>
      if Reject(rows, id).1.Done? { ChangeInv(rows, id, rows.requests[id].(status := Rejected)); }
    case CallCancel(id) =>
      if id < |rows.requests| { assert RequestSound(rows, id); }
    case CallComplete(id) => CompleteInv(rows, id);
    case CallRejectWorkflow(id) =>
      if id < |rows.requests| && rows.requests[id].workflowOpen {
        var r := rows.requests[id].(workflowOpen := false, status := Rejected);
        ChangeInv(rows, id, r);
        assert RejectFromWorkflow(rows, id).0 == rows.(requests := rows.requests[id := r]);
      }
  }

  lemma CompleteInv(rows: Rows, id: nat)
    requires Inv(rows)
    ensures Inv(CompleteBackfill(rows, id).0)
  {
    if id < |rows.requests| && rows.requests[id].workflowOpen {
      var closed := WorkflowClosed(rows, id);
      assert RequestSound(rows, id);
      ChangeInv(rows, id, rows.requests[id].(workflowOpen := false));
      if rows.requests[id].status != Approved {
        UndecidedWithoutWindow(rows, id);
        OpenWindowInv(closed, id);
      }
    }
  }

  lemma {:induction false} RunInv(rows: Rows, calls: seq<Call>)
    requires Inv(rows)
    ensures Inv(Run(rows, calls))
    decreases |calls|
  {
    if calls != [] {
      StepInv(rows, calls[0]);
      RunInv(Step(rows, calls[0]).0, calls[1..]);
    }
  }

  const EMPTY := Rows([], [])

  /** The active windows of a student, by themselves. */
  ghost predicate Covers(w: Window, studentId: string, t: int) {
    w.studentId == studentId && w.active && w.from <= t <= w.to
  }

  ghost predicate Covered(windows: seq<Window>, studentId: string, t: int) {
    exists i :: 0 <= i < |windows| && Covers(windows[i], studentId, t)
  }

  ghost predicate OneWindow(rows: Rows, id: nat) {
    exists i :: 0 <= i < |rows.windows| && rows.windows[i].requestId == id
                && forall j :: 0 <= j < |rows.windows| && j != i ==> rows.windows[j].requestId != id
  }

  predicate ActiveTogether(a: Window, b: Window) { a.studentId == b.studentId && a.active && b.active }

  /** After any run: no two active windows of a student meet, no student has two open requests,
      an approved request has exactly one window, no other request has more than one, and
      nothing can be cancelled because a submission is under review from the start. */
  lemma RunSafe(calls: seq<Call>, id: nat)
    ensures var rows := Run(EMPTY, calls);
            && (forall i, j :: 0 <= i < j < |rows.windows| && ActiveTogether(rows.windows[i], rows.windows[j])
                  ==> !Overlap(rows.windows[i], rows.windows[j].from, rows.windows[j].to))
            && (forall i, j :: 0 <= i < j < |rows.requests| && Open(rows.requests[i]) && Open(rows.requests[j])
                  ==> rows.requests[i].studentId != rows.requests[j].studentId)
            && (id < |rows.requests| && rows.requests[id].status == Approved ==> OneWindow(rows, id))
            && (HasWindow(rows, id) ==> OneWindow(rows, id))
            && Cancel(rows, id).1.Refused?
  {
    RunInv(EMPTY, calls);
    var rows := Run(EMPTY, calls);
    forall i, j | 0 <= i < j < |rows.windows| && ActiveTogether(rows.windows[i], rows.windows[j])
      ensures !Overlap(rows.windows[i], rows.windows[j].from, rows.windows[j].to)
    {
      assert Apart(rows.windows[i], rows.windows[j]);
    }
    if id < |rows.requests| { assert RequestSound(rows, id); }
    OnlyWindow(rows, id);
  }

  lemma OnlyWindow(rows: Rows, id: nat)
    requires Inv(rows)
    ensures HasWindow(rows, id) ==> OneWindow(rows, id)
  {
    if i :| 0 <= i < |rows.windows| && rows.windows[i].requestId == id {
      forall j | 0 <= j < |rows.windows| && j != i ensures rows.windows[j].requestId != id {
        assert rows.windows[i].requestId != rows.windows[j].requestId;
      }
    }
  }

  lemma ApartBy(windows: seq<Window>, i: nat, j: nat)
    requires WindowsApart(windows) && i < |windows| && j < |windows| && i != j
    ensures Apart(windows[i], windows[j])
  {
    if j < i { assert Apart(windows[j], windows[i]); }
  }

  ghost predicate RequestsKept(requests: seq<Request>, after: seq<Request>) {
    |requests| <= |after| && forall i :: 0 <= i < |requests| ==>
      after[i].studentId == requests[i].studentId && after[i].from == requests[i].from && after[i].to == requests[i].to
  }

  lemma {:induction false} RunKeepsRequests(rows: Rows, calls: seq<Call>)
    ensures RequestsKept(rows.requests, Run(rows, calls).requests)
    decreases |calls|
  {
    if calls != [] {
      StepKeepsRequests(rows, calls[0]);
      RunKeepsRequests(Step(rows, calls[0]).0, calls[1..]);
    }
  }

  lemma StepKeepsRequests(rows: Rows, call: Call)
    ensures RequestsKept(rows.requests, Step(rows, call).0.requests)
  {
  }

  /** A submission is taken exactly when it is acknowledged, dated in order, for a known
      student without an open request; any window it ever gets is the one it asked for. */
  lemma SubmissionHonoured(rows: Rows, students: set<string>, s: Submission, calls: seq<Call>, i: nat)
    requires Inv(rows)
    ensures Submit(rows, students, s).1.Submitted? <==>
            && s.acknowledged && s.studentId in students && s.from.Some? && s.to.Some? && s.from.value <= s.to.value
            && !HasOpen(rows, s.studentId)
    ensures var submitted := Submit(rows, students, s);
            var windows := Run(submitted.0, calls).windows;
            submitted.1.Submitted? && i < |windows| && windows[i].requestId == submitted.1.requestId ==>
              windows[i].studentId == s.studentId && windows[i].from == s.from.value && windows[i].to == s.to.value
  {
    var submitted := Submit(rows, students, s).0;
    SubmitInv(rows, students, s);
    RunInv(submitted, calls);
    RunKeepsRequests(submitted, calls);
    if i < |Run(submitted, calls).windows| {
      assert WindowSound(Run(submitted, calls), Run(submitted, calls).windows[i]);
    }
  }

  /** The posting guard never has two windows to choose from. */
  lemma OneWindowAt(calls: seq<Call>, studentId: string, t: int, i: nat, j: nat)
    requires i < |Run(EMPTY, calls).windows| && j < |Run(EMPTY, calls).windows|
    requires Covers(Run(EMPTY, calls).windows[i], studentId, t) && Covers(Run(EMPTY, calls).windows[j], studentId, t)
    ensures i == j
  {
    RunInv(EMPTY, calls);
    if i != j { ApartBy(Run(EMPTY, calls).windows, i, j); }
  }

  /** Pending or under review. */
  predicate Undecided(rows: Rows, id: nat) {
    id < |rows.requests| && (rows.requests[id].status == Pending || rows.requests[id].status == UnderReview)
  }

  /** The office decides exactly undecided requests; the workflow exactly those whose instance
      runs, whatever the office said, and opens no window for an approved one. */
  lemma DecisionsTaken(rows: Rows, id: nat)
    ensures Approve(rows, id).1.Opened? <==> Undecided(rows, id)
    ensures var (after, reply) := Reject(rows, id);
            && (reply == Done <==> Undecided(rows, id))
            && after == if reply == Done then rows.(requests := rows.requests[id := rows.requests[id].(status := Rejected)]) else rows
    ensures CompleteBackfill(rows, id).1.Opened? <==>
            id < |rows.requests| && rows.requests[id].workflowOpen && rows.requests[id].status != Approved
    ensures var (after, reply) := RejectFromWorkflow(rows, id);
            && (reply == Done <==> id < |rows.requests| && rows.requests[id].workflowOpen)
            && (reply == Done ==> after.requests[id].status == Rejected && !after.requests[id].workflowOpen
                                  && after.windows == rows.windows)
  {
  }

  predicate Decides(call: Call, id: nat) {
    match call
    case CallSubmit(_, _) => false
    case CallApprove(r) => r == id
    case CallReject(r) => r == id
    case CallCancel(r) => false
    case CallComplete(r) => r == id
    case CallRejectWorkflow(r) => r == id
  }

  lemma {:induction false} RunUndecided(rows: Rows, calls: seq<Call>, id: nat)
    requires id < |rows.requests| && rows.requests[id].status == UnderReview
    requires forall i :: 0 <= i < |calls| ==> !Decides(calls[i], id)
    ensures var after := Run(rows, calls); id < |after.requests| && after.requests[id] == rows.requests[id]
    decreases |calls|
  {
    if calls != [] { RunUndecided(Step(rows, calls[0]).0, calls[1..], id); }
  }

  /** A submission that is taken stays open for a decision until there is one, and if that is an
      approval its student may post from the first to the last instant asked for. */
  lemma SubmissionCanBeApproved(rows: Rows, students: set<string>, s: Submission, calls: seq<Call>, t: int)
    requires Submit(rows, students, s).1.Submitted?
    requires forall i :: 0 <= i < |calls| ==> !Decides(calls[i], |rows.requests|)
    ensures var later := Run(Submit(rows, students, s).0, calls);
            && Approve(later, |rows.requests|).1.Opened?
            && (s.from.value <= t <= s.to.value ==> Covered(Approve(later, |rows.requests|).0.windows, s.studentId, t))
  {
    var submitted := Submit(rows, students, s).0;
    RunUndecided(submitted, calls, |rows.requests|);
    CoveredAfter(Run(submitted, calls), |rows.requests|, t);
  }

  // ---- what an approval does to the days a student is open for ---------------------------

  ghost predicate CoveredApart(windows: seq<Window>, r: Request, t: int) {
    exists i :: 0 <= i < |windows| && Covers(windows[i], r.studentId, t) && !Overlap(windows[i], r.from, r.to)
  }

  lemma CoveredAfter(rows: Rows, id: nat, t: int)
    requires id < |rows.requests|
    ensures var r := rows.requests[id];
            Covered(OpenWindow(rows, id).windows, r.studentId, t) <==>
              r.from <= t <= r.to || CoveredApart(rows.windows, r, t)
  {
    var r, after := rows.requests[id], OpenWindow(rows, id).windows;
    var n := |rows.windows|;
    assert after[n] == Window(r.studentId, id, r.from, r.to, true);
    if r.from <= t <= r.to { assert Covers(after[n], r.studentId, t); }
    if i :| 0 <= i < n && Covers(rows.windows[i], r.studentId, t) && !Overlap(rows.windows[i], r.from, r.to) {
      assert Covers(after[i], r.studentId, t);
    }
    if i :| 0 <= i < |after| && Covers(after[i], r.studentId, t) && !(r.from <= t <= r.to) {
      assert after[i] == Superseded(rows.windows[i], r);
      assert Covers(rows.windows[i], r.studentId, t) && !Overlap(rows.windows[i], r.from, r.to);
    }
  }

  predicate Retires(w: Window, r: Request) { w.studentId == r.studentId && w.active && Overlap(w, r.from, r.to) }

  /** Every window the new one retires lies inside it. */
  ghost predicate Engulfs(windows: seq<Window>, r: Request) {
    forall i :: 0 <= i < |windows| && Retires(windows[i], r) ==> r.from <= windows[i].from && windows[i].to <= r.to
  }

  lemma OtherStudentsUntouched(rows: Rows, id: nat, studentId: string, t: int)
    requires id < |rows.requests| && studentId != rows.requests[id].studentId
    ensures Covered(OpenWindow(rows, id).windows, studentId, t) <==> Covered(rows.windows, studentId, t)
  {
    var after := OpenWindow(rows, id).windows;
    if i :| 0 <= i < |after| && Covers(after[i], studentId, t) {
      assert after[i] == Superseded(rows.windows[i], rows.requests[id]);
      assert Covers(rows.windows[i], studentId, t);
    }
    if i :| 0 <= i < |rows.windows| && Covers(rows.windows[i], studentId, t) {
      assert Covers(after[i], studentId, t);
    }
  }

  /** An approval takes no instant away exactly when the new window engulfs all it overlaps:
      the rest of a wider window is lost although its request stays approved. */
  lemma CoverageKept(rows: Rows, id: nat)
    requires Inv(rows) && id < |rows.requests|
    ensures var r := rows.requests[id];
            (forall studentId, t :: Covered(rows.windows, studentId, t) ==> Covered(OpenWindow(rows, id).windows, studentId, t))
            <==> Engulfs(rows.windows, r)
  {
    var r, after := rows.requests[id], OpenWindow(rows, id).windows;
    if Engulfs(rows.windows, r) {
      forall studentId, t | Covered(rows.windows, studentId, t) ensures Covered(after, studentId, t) {
        if studentId != r.studentId {
          OtherStudentsUntouched(rows, id, studentId, t);
        } else {
          CoveredAfter(rows, id, t);
          var i :| 0 <= i < |rows.windows| && Covers(rows.windows[i], r.studentId, t);
        }
      }
    } else {
      var i :| 0 <= i < |rows.windows| && Retires(rows.windows[i], r) && !(r.from <= rows.windows[i].from && rows.windows[i].to <= r.to);
      LostInstant(rows, id, i, if rows.windows[i].from < r.from then rows.windows[i].from else rows.windows[i].to);
    }
  }

  lemma LostInstant(rows: Rows, id: nat, i: nat, t: int)
    requires Inv(rows) && id < |rows.requests| && i < |rows.windows|
    requires var r := rows.requests[id];
             Covers(rows.windows[i], r.studentId, t) && Overlap(rows.windows[i], r.from, r.to) && !(r.from <= t <= r.to)
    ensures Covered(rows.windows, rows.requests[id].studentId, t)
    ensures !Covered(OpenWindow(rows, id).windows, rows.requests[id].studentId, t)
  {
    CoveredAfter(rows, id, t);
    forall j | 0 <= j < |rows.windows| && Covers(rows.windows[j], rows.requests[id].studentId, t) ensures j == i {
      if i != j { ApartBy(rows.windows, i, j); }
    }
  }

  // ---- where the workflow and the service disagree ----------------------------------------

  /** Every window's request is approved. */
  ghost predicate WindowsApproved(rows: Rows) {
    forall i :: 0 <= i < |rows.windows| ==>
      rows.windows[i].requestId < |rows.requests| && rows.requests[rows.windows[i].requestId].status == Approved
  }

  /** One step keeps it exactly when it is not a workflow rejection of an approved request. */
  lemma ApprovalKept(rows: Rows, call: Call)
    requires Inv(rows) && WindowsApproved(rows)
    ensures WindowsApproved(Step(rows, call).0) <==>
            !(call.CallRejectWorkflow? && call.id < |rows.requests| && rows.requests[call.id].workflowOpen
              && rows.requests[call.id].status == Approved)
  {
    if call.CallRejectWorkflow? {
      if call.id < |rows.requests| && rows.requests[call.id].workflowOpen {
        RejectedApproval(rows, call.id);
      }
    } else {
      var after := Step(rows, call).0;
      StepInv(rows, call);
      forall i | 0 <= i < |after.windows|
        ensures after.windows[i].requestId < |after.requests| && after.requests[after.windows[i].requestId].status == Approved
      {
        if i < |rows.windows| { assert WindowSound(rows, rows.windows[i]); }
      }
    }
  }

  lemma RejectedApproval(rows: Rows, id: nat)
    requires Inv(rows) && WindowsApproved(rows) && id < |rows.requests| && rows.requests[id].workflowOpen
    ensures WindowsApproved(RejectFromWorkflow(rows, id).0) <==> rows.requests[id].status != Approved
  {
    var after := RejectFromWorkflow(rows, id).0;
    assert RequestSound(rows, id);
    if rows.requests[id].status == Approved {
      var i :| 0 <= i < |rows.windows| && rows.windows[i].requestId == id;
      assert after.windows[i].requestId == id;
    }
  }

  /** Without workflow rejections the approved requests are exactly those with a window. */
  lemma {:induction false} RunApproved(rows: Rows, calls: seq<Call>, id: nat)
    requires Inv(rows) && WindowsApproved(rows)
    requires forall i :: 0 <= i < |calls| ==> !calls[i].CallRejectWorkflow?
    ensures var after := Run(rows, calls);
            HasWindow(after, id) <==> id < |after.requests| && after.requests[id].status == Approved
    decreases |calls|
  {
    if calls == [] {
      if id < |rows.requests| { assert RequestSound(rows, id); }
    } else {
      StepInv(rows, calls[0]);
      ApprovalKept(rows, calls[0]);
      RunApproved(Step(rows, calls[0]).0, calls[1..], id);
    }
  }

  /** A request the office rejected is approved after all when its workflow completes. */
  lemma RejectionOverturned(rows: Rows, id: nat)
    requires Inv(rows) && id < |rows.requests| && Open(rows.requests[id]) && rows.requests[id].workflowOpen
    ensures var rejected := Reject(rows, id).0;
            && rejected.requests[id].status == Rejected && !HasWindow(rejected, id)
            && CompleteBackfill(rejected, id).0.requests[id].status == Approved
            && OneWindow(CompleteBackfill(rejected, id).0, id)
  {
    var rejected := Reject(rows, id).0;
    StepInv(rows, CallReject(id));
    UndecidedWithoutWindow(rejected, id);
    CompletionApproves(rejected, id);
  }

  lemma CompletionApproves(rows: Rows, id: nat)
    requires Inv(rows) && id < |rows.requests| && rows.requests[id].workflowOpen && rows.requests[id].status != Approved
    ensures var after := CompleteBackfill(rows, id).0;
            id < |after.requests| && after.requests[id].status == Approved && OneWindow(after, id)
  {
    var after := CompleteBackfill(rows, id).0;
    StepInv(rows, CallComplete(id));
    assert RequestSound(after, id);
    OnlyWindow(after, id);
  }
}
