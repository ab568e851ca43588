/** The elections service over its stored rows. Every method is tied to the step function it
    performs, so what is proved of runs of steps holds of runs of calls. */
module ElectionsService {
  import opened Results
  import opened Elections
  import opened ElectionCalls
  import opened ElectionSafety
  import opened StableSort
  import BlindRsa

  datatype TallyRow = TallyRow(position: string, candidateId: string, votes: nat)

  function Bump(rows: seq<TallyRow>, v: Vote): seq<TallyRow> {
    if rows == [] then [TallyRow(v.position, v.candidateId, 1)]
    else if rows[0].position == v.position && rows[0].candidateId == v.candidateId
    then [rows[0].(votes := rows[0].votes + 1)] + rows[1..]
    else [rows[0]] + Bump(rows[1..], v)
  }

  /** Vote counts grouped by position and candidate. */
  function GroupRows(votes: seq<Vote>, electionId: string): seq<TallyRow> {
    if votes == [] then []
    else
      var front, last := GroupRows(votes[..|votes| - 1], electionId), votes[|votes| - 1];
      if last.electionId == electionId then Bump(front, last) else front
  }

  predicate Picks(row: TallyRow, position: string, candidate: Option<string>) {
    Selects(row.position, row.candidateId, position, candidate)
  }

  /** The votes of the rows for a position, of one candidate or of all. */
  function Total(rows: seq<TallyRow>, position: string, candidate: Option<string>): nat {
    if rows == [] then 0
    else Total(rows[..|rows| - 1], position, candidate)
         + if Picks(rows[|rows| - 1], position, candidate) then rows[|rows| - 1].votes else 0
  }

  lemma {:induction false} TotalConcat(a: seq<TallyRow>, b: seq<TallyRow>, position: string, candidate: Option<string>)
    ensures Total(a + b, position, candidate) == Total(a, position, candidate) + Total(b, position, candidate)
  {
    if b == [] {
      assert a + b == a;
    } else {
      assert (a + b)[..|a + b| - 1] == a + b[..|b| - 1];
      TotalConcat(a, b[..|b| - 1], position, candidate);
    }
  }

  lemma TotalOne(row: TallyRow, position: string, candidate: Option<string>)
    ensures Total([row], position, candidate) == if Picks(row, position, candidate) then row.votes else 0
  {
    assert [row][..0] == [];
  }

  lemma {:induction false} BumpTotal(rows: seq<TallyRow>, v: Vote, position: string, candidate: Option<string>)
    ensures Total(Bump(rows, v), position, candidate)
            == Total(rows, position, candidate) + if Selects(v.position, v.candidateId, position, candidate) then 1 else 0
  {
    if rows == [] {
      TotalOne(TallyRow(v.position, v.candidateId, 1), position, candidate);
    } else {
      var head, rest := rows[0], rows[1..];
      assert rows == [head] + rest;
      TotalConcat([head], rest, position, candidate);
      TotalOne(head, position, candidate);
      if head.position == v.position && head.candidateId == v.candidateId {
        TotalConcat([head.(votes := head.votes + 1)], rest, position, candidate);
        TotalOne(head.(votes := head.votes + 1), position, candidate);
      } else {
        TotalConcat([head], Bump(rest, v), position, candidate);
        BumpTotal(rest, v, position, candidate);
      }
    }
  }

  /** Grouping loses no vote and invents none. */
  lemma {:induction false} GroupRowsTotal(votes: seq<Vote>, electionId: string, position: string, candidate: Option<string>)
    ensures Total(GroupRows(votes, electionId), position, candidate) == Tally(votes, electionId, position, candidate)
  {
    if votes != [] {
      GroupRowsTotal(votes[..|votes| - 1], electionId, position, candidate);
      BumpTotal(GroupRows(votes[..|votes| - 1], electionId), votes[|votes| - 1], position, candidate);
    }
  }

  /** After any run the rows of a position total no more votes than people who voted. */
  lemma ResultsBounded(params: BlindRsa.PublicParams, calls: seq<Timed>, electionId: string, position: string)
    ensures var st := Run(EMPTY, params, calls);
            Total(GroupRows(st.votes, electionId), position, None) <= |Voted(st, electionId)|
  {
    var st := Run(EMPTY, params, calls);
    RunInv(EMPTY, params, calls);
    GroupRowsTotal(st.votes, electionId, position, None);
    TallyWithinVoted(st, electionId, position);
  }

  predicate SameRow(a: TallyRow, b: TallyRow) { a.position == b.position && a.candidateId == b.candidateId }

  ghost predicate DistinctRows(rows: seq<TallyRow>) {
    forall i, j :: 0 <= i < j < |rows| ==> !SameRow(rows[i], rows[j])
  }

  ghost predicate Known(rows: seq<TallyRow>, r: TallyRow) { exists q :: q in rows && SameRow(q, r) }

  lemma {:induction false} BumpRows(rows: seq<TallyRow>, v: Vote, r: TallyRow)
    requires r in Bump(rows, v)
    ensures (r.position == v.position && r.candidateId == v.candidateId) || Known(rows, r)
  {
    if rows != [] {
      if r in rows { assert SameRow(r, r); }
      else if !(rows[0].position == v.position && rows[0].candidateId == v.candidateId) {
        BumpRows(rows[1..], v, r);
        if q :| q in rows[1..] && SameRow(q, r) { assert q in rows; }
      }
    }
  }

  lemma {:induction false} BumpDistinct(rows: seq<TallyRow>, v: Vote)
    requires DistinctRows(rows)
    ensures DistinctRows(Bump(rows, v))
  {
    if rows != [] && !(rows[0].position == v.position && rows[0].candidateId == v.candidateId) {
      var rest := rows[1..];
      BumpDistinct(rest, v);
      forall r | r in Bump(rest, v) ensures !SameRow(rows[0], r) {
        BumpRows(rest, v, r);
        if q :| q in rest && SameRow(q, r) {
          var i :| 0 <= i < |rest| && rest[i] == q;
          assert !SameRow(rows[0], rows[i + 1]);
        }
      }
    }
  }

  lemma {:induction false} GroupRowsDistinct(votes: seq<Vote>, electionId: string)
    ensures DistinctRows(GroupRows(votes, electionId))
  {
    if votes != [] {
      GroupRowsDistinct(votes[..|votes| - 1], electionId);
      BumpDistinct(GroupRows(votes[..|votes| - 1], electionId), votes[|votes| - 1]);
    }
  }

  lemma {:induction false} TotalOfOthers(rows: seq<TallyRow>, row: TallyRow)
    requires forall q :: q in rows ==> !SameRow(q, row)
    ensures Total(rows, row.position, Some(row.candidateId)) == 0
  {
    if rows != [] {
      assert rows[|rows| - 1] in rows;
      TotalOfOthers(rows[..|rows| - 1], row);
    }
  }

  lemma {:induction false} TotalOfRow(rows: seq<TallyRow>, row: TallyRow)
    requires DistinctRows(rows) && row in rows
    ensures Total(rows, row.position, Some(row.candidateId)) == row.votes
  {
    var front, last := rows[..|rows| - 1], rows[|rows| - 1];
    if row == last {
      TotalOfOthers(front, row);
    } else {
      TotalOfRow(front, row);
      var i :| 0 <= i < |rows| && rows[i] == row;
      assert !SameRow(rows[i], last);
    }
  }

  /** Every row shows its candidate's own votes. */
  lemma RowIsTally(votes: seq<Vote>, electionId: string, row: TallyRow)
    requires row in GroupRows(votes, electionId)
    ensures row.votes == Tally(votes, electionId, row.position, Some(row.candidateId))
  {
    GroupRowsDistinct(votes, electionId);
    TotalOfRow(GroupRows(votes, electionId), row);
    GroupRowsTotal(votes, electionId, row.position, Some(row.candidateId));
  }

  predicate MoreVotes(a: TallyRow, b: TallyRow) { a.votes > b.votes }

  lemma {:induction false} InsertTotal(x: TallyRow, s: seq<TallyRow>, position: string, candidate: Option<string>)
    ensures Total(Insert(MoreVotes, x, s), position, candidate) == Total(s, position, candidate) + Total([x], position, candidate)
  {
    if s != [] && MoreVotes(x, s[|s| - 1]) {
      var front, last := s[..|s| - 1], s[|s| - 1];
      assert s == front + [last];
      InsertTotal(x, front, position, candidate);
      TotalConcat(front, [last], position, candidate);
      TotalConcat(Insert(MoreVotes, x, front), [last], position, candidate);
    } else {
      TotalConcat(s, [x], position, candidate);
    }
  }

  lemma {:induction false} SortTotal(s: seq<TallyRow>, position: string, candidate: Option<string>)
    ensures Total(SortBy(MoreVotes, s), position, candidate) == Total(s, position, candidate)
  {
    if s != [] {
      var front, last := s[..|s| - 1], s[|s| - 1];
      assert s == front + [last];
      SortTotal(front, position, candidate);
      InsertTotal(last, SortBy(MoreVotes, front), position, candidate);
      TotalConcat(front, [last], position, candidate);
    }
  }

  lemma SortDescends(s: seq<TallyRow>)
    ensures MostFirst(SortBy(MoreVotes, s))
  {
    SortOrdered(MoreVotes, s, set r | r in s);
    var sorted := SortBy(MoreVotes, s);
    forall i, j | 0 <= i < j < |sorted| ensures sorted[i].votes >= sorted[j].votes {
      assert !MoreVotes(sorted[j], sorted[i]);
    }
  }

  ghost predicate MostFirst(rows: seq<TallyRow>) {
    forall i, j :: 0 <= i < j < |rows| ==> rows[i].votes >= rows[j].votes
  }

  lemma SortMembers(s: seq<TallyRow>)
    ensures forall r :: r in SortBy(MoreVotes, s) <==> r in s
  {
    SortPermutes(MoreVotes, s);
    forall r ensures r in SortBy(MoreVotes, s) <==> r in s {
      assert r in SortBy(MoreVotes, s) <==> r in multiset(SortBy(MoreVotes, s));
      assert r in s <==> r in multiset(s);
    }
  }

  function Rows(byPosition: map<string, seq<TallyRow>>, position: string): seq<TallyRow> {
    if position in byPosition then byPosition[position] else []
  }

  lemma SortedWith(rows: seq<TallyRow>, t: TallyRow, p: string, candidate: Option<string>)
    ensures Total(SortBy(MoreVotes, rows + [t]), p, candidate) == Total(rows, p, candidate) + Total([t], p, candidate)
  {
    SortTotal(rows + [t], p, candidate);
    TotalConcat(rows, [t], p, candidate);
  }

  lemma RowAdded(byPosition: map<string, seq<TallyRow>>, tallies: seq<TallyRow>, i: nat, p: string, candidate: Option<string>)
    requires i < |tallies| && Total(Rows(byPosition, p), p, candidate) == Total(tallies[..i], p, candidate)
    ensures var t := tallies[i];
            Total(Rows(byPosition[t.position := SortBy(MoreVotes, Rows(byPosition, t.position) + [t])], p), p, candidate)
            == Total(tallies[..i + 1], p, candidate)
  {
    var t := tallies[i];
    assert tallies[..i + 1] == tallies[..i] + [t];
    TotalConcat(tallies[..i], [t], p, candidate);
    if p == t.position { SortedWith(Rows(byPosition, p), t, p, candidate); } else { TotalOne(t, p, candidate); }
  }

  ghost predicate Descend(byPosition: map<string, seq<TallyRow>>) {
    forall p :: p in byPosition ==> MostFirst(byPosition[p])
  }

  /** The first n rows, filed under their positions. */
  ghost predicate Grouped(byPosition: map<string, seq<TallyRow>>, tallies: seq<TallyRow>, n: nat)
    requires n <= |tallies|
  {
    && (forall p, c :: Total(Rows(byPosition, p), p, c) == Total(tallies[..n], p, c))
    && Descend(byPosition)
    && (forall p, r :: p in byPosition && r in byPosition[p] ==> r.position == p && r in tallies)
  }

  lemma GroupedNext(byPosition: map<string, seq<TallyRow>>, tallies: seq<TallyRow>, n: nat)
    requires n < |tallies| && Grouped(byPosition, tallies, n)
    ensures var t := tallies[n];
            Grouped(byPosition[t.position := SortBy(MoreVotes, Rows(byPosition, t.position) + [t])], tallies, n + 1)
  {
    var t := tallies[n];
    var rows := Rows(byPosition, t.position) + [t];
    var after := byPosition[t.position := SortBy(MoreVotes, rows)];
    SortDescends(rows);
    SortMembers(rows);
    forall p, c ensures Total(Rows(after, p), p, c) == Total(tallies[..n + 1], p, c) {
      RowAdded(byPosition, tallies, n, p, c);
    }
  }

  lemma GroupedIsTally(votes: seq<Vote>, id: string, byPosition: map<string, seq<TallyRow>>)
    requires Grouped(byPosition, GroupRows(votes, id), |GroupRows(votes, id)|)
    ensures forall p, c :: Total(Rows(byPosition, p), p, c) == Tally(votes, id, p, c)
    ensures forall p, r :: p in byPosition && r in byPosition[p] ==>
              r.position == p && r.votes == Tally(votes, id, p, Some(r.candidateId))
  {
    var tallies := GroupRows(votes, id);
    assert tallies[..|tallies|] == tallies;
    forall p, c ensures Total(Rows(byPosition, p), p, c) == Tally(votes, id, p, c) {
      GroupRowsTotal(votes, id, p, c);
    }
    forall p, r | p in byPosition && r in byPosition[p]
      ensures r.position == p && r.votes == Tally(votes, id, p, Some(r.candidateId))
    {
      RowIsTally(votes, id, r);
    }
  }

  lemma GroupedBounded(st: Store, id: string, byPosition: map<string, seq<TallyRow>>)
    requires Inv(st) && forall p, c :: Total(Rows(byPosition, p), p, c) == Tally(st.votes, id, p, c)
    ensures forall p :: Total(Rows(byPosition, p), p, None) <= |Voted(st, id)|
  {
    forall p ensures Total(Rows(byPosition, p), p, None) <= |Voted(st, id)| {
      TallyWithinVoted(st, id, p);
    }
  }

  /** The election after the scheduler has looked at it; a delivered opening notice is dated. */
  function Advanced(e: Election, delivered: bool, now: int): Election {
    var e' := Synced(e, now);
    if e'.status != e.status && e'.status == VotingOpen && e.votingNotifiedAt.None? && delivered
    then e'.(votingNotifiedAt := Some(now)) else e'
  }

  class Service {
    const params: BlindRsa.PublicParams
    var elections: map<string, Election>
    var voters: map<VoterKey, Voter>
    var votes: seq<Vote>
    var candidates: map<string, Candidate>

    function Contents(): Store
      reads this
    {
      Store(elections, voters, votes, candidates)
    }

    ghost predicate Valid()
      reads this
    {
      Inv(Contents())
    }

    constructor (params: BlindRsa.PublicParams)
      ensures Contents() == EMPTY && this.params == params
    {
      this.params := params;
      elections, voters, votes, candidates := map[], map[], [], map[];
    }

    /** Checks the ballot choice by choice, then writes voter and votes in one transaction. */
    method RecordBallotChoices(k: VoterKey, institutionId: string, choices: seq<Choice>, now: int) returns (reply: Reply)
      modifies this
      ensures (Contents(), reply) == RecordBallot(old(Contents()), k, institutionId, choices, now)
    {
      var positionsSeen: set<string> := {};
      for i := 0 to |choices|
        invariant Contents() == old(Contents())
        invariant BallotFault(Contents(), k.electionId, choices, i).None?
        invariant positionsSeen == set j | 0 <= j < i :: choices[j].position
      {
        var choice := choices[i];
        assert choice.position in positionsSeen <==> SeenBefore(choices, i);
        if choice.position in positionsSeen {
          FaultPersists(Contents(), k.electionId, choices, i + 1, |choices|);
          return Refused(DuplicatePosition);
        }
        positionsSeen := positionsSeen + {choice.position};
        if !CandidateStands(Contents(), k.electionId, choice) {
          FaultPersists(Contents(), k.electionId, choices, i + 1, |choices|);
          return Refused(InvalidCandidate);
        }
      }
      var voter := VoterOr(Contents(), k);
      voters := voters[k := voter.(hasVoted := true, ballotToken := None, ballotSignature := None, ballotExpiresAt := None)];
      votes := votes + VotesFor(k.electionId, VoterHash(k.electionId, k.userId, institutionId), choices, now);
      return Done;
    }

    method CastVote(k: VoterKey, eligible: bool, choices: seq<Choice>, now: int) returns (reply: Reply)
      requires Valid()
      modifies this
      ensures Valid() && (Contents(), reply) == Step(old(Contents()), params, CallCast(k, eligible, choices), now)
    {
      ghost var before := Contents();
      StepInv(before, params, CallCast(k, eligible, choices), now);
      if k.electionId !in elections { return Refused(NotFound); }
      if !IsVotingPhase(elections[k.electionId], now) { return Refused(NotOpen); }
      if !eligible { return Refused(NotEligible); }
      voters := voters[k := VoterOr(Contents(), k)];
      assert Contents() == Upserted(before, k);
      if voters[k].hasVoted { return Refused(AlreadyVoted); }
      reply := RecordBallotChoices(k, elections[k.electionId].institutionId, choices, now);
    }

    method IssueBoothCredential(k: VoterKey, eligible: bool, token: string, commitment: string, now: int) returns (reply: Reply)
      requires Valid()
      modifies this
      ensures Valid()
      ensures (Contents(), reply) == Step(old(Contents()), params, CallIssue(k, eligible, token, commitment), now)
    {
      ghost var before := Contents();
      StepInv(before, params, CallIssue(k, eligible, token, commitment), now);
      if k.electionId !in elections { return Refused(NotFound); }
      var e := elections[k.electionId];
      if !IsVotingPhase(e, now) { return Refused(NotOpen); }
      if !eligible { return Refused(NotEligible); }
      voters := voters[k := VoterOr(Contents(), k)];
      assert Contents() == Upserted(before, k);
      if voters[k].hasVoted { return Refused(AlreadyVoted); }
      if TokenTaken(Contents(), k, token) || CommitmentTaken(Contents(), k, commitment) { return Refused(UniqueViolation); }
      voters := voters[k := voters[k].(
        ballotToken := Some(token), ballotSignature := Some(Credential(e.institutionId, k.electionId, token)),
        ballotExpiresAt := Some(e.votingClose), ballotCommitment := Some(commitment))];
      return Done;
    }

    method CastBoothVote(id: string, token: string, signature: Credential, endorsement: string, choices: seq<Choice>, now: int)
      returns (reply: Reply)
      requires Valid()
      modifies this
      ensures Valid()
      ensures (Contents(), reply) == Step(old(Contents()), params, CallBooth(id, token, signature, endorsement, choices), now)
    {
      StepInv(Contents(), params, CallBooth(id, token, signature, endorsement, choices), now);
      if !exists k :: k in voters && voters[k].ballotToken == Some(token) {
        assert !exists k :: Holds(Contents(), k, token);
        return Refused(InvalidCredential);
      }
      var k :| k in voters && voters[k].ballotToken == Some(token);
      assert Holds(Contents(), k, token);
      assert k == Holder(Contents(), token);
      var voter, e := voters[k], elections[k.electionId];
      if !IsVotingPhase(e, now) { return Refused(NotOpen); }
      if voter.hasVoted { return Refused(AlreadyVoted); }
      if voter.ballotExpiresAt.Some? && voter.ballotExpiresAt.value < now { return Refused(CredentialExpired); }
      if voter.ballotSignature.None? || signature != Credential(e.institutionId, id, token)
         || Some(signature) != voter.ballotSignature { return Refused(BadSignature); }
      if voter.ballotCommitment.None? { return Refused(BadEndorsement); }
      var endorsed := BlindRsa.VerifyBlindRsaSignature(voter.ballotCommitment.value, endorsement, params);
      if !endorsed { return Refused(BadEndorsement); }
      reply := RecordBallotChoices(k, e.institutionId, choices, now);
    }

    /** Groups the votes of an election by position, most votes first. */
    method BuildResults(id: string) returns (byPosition: map<string, seq<TallyRow>>)
      ensures forall p, c :: Total(Rows(byPosition, p), p, c) == Tally(votes, id, p, c)
      ensures forall p, i, j :: p in byPosition && 0 <= i < j < |byPosition[p]| ==>
                byPosition[p][i].votes >= byPosition[p][j].votes
      ensures forall p, r :: p in byPosition && r in byPosition[p] ==>
                r.position == p && r.votes == Tally(votes, id, p, Some(r.candidateId))
      ensures Valid() ==> forall p :: Total(Rows(byPosition, p), p, None) <= |Voted(Contents(), id)|
    {
      var tallies := GroupRows(votes, id);
      byPosition := map[];
      for i := 0 to |tallies|
        invariant Grouped(byPosition, tallies, i)
      {
        var t := tallies[i];
        GroupedNext(byPosition, tallies, i);
        byPosition := byPosition[t.position := SortBy(MoreVotes, Rows(byPosition, t.position) + [t])];
      }
      GroupedIsTally(votes, id, byPosition);
      if Valid() { GroupedBounded(Contents(), id, byPosition); }
    }

    /** The quarter-hourly job over the elections it was handed; delivery of the opening
        notice may fail. */
    method SyncElectionPhases(batch: seq<string>, delivered: set<string>, now: int)
      requires forall id :: id in batch ==> id in elections
      requires forall i, j :: 0 <= i < j < |batch| ==> batch[i] != batch[j]
      modifies this`elections
      ensures elections.Keys == old(elections).Keys
      ensures forall id :: id in elections ==>
                elections[id] == if id in batch then Advanced(old(elections)[id], id in delivered, now) else old(elections)[id]
    {
      for i := 0 to |batch|
        invariant elections.Keys == old(elections).Keys
        invariant forall id :: id in elections ==>
          elections[id] == if id in batch[..i] then Advanced(old(elections)[id], id in delivered, now) else old(elections)[id]
      {
        var id := batch[i];
        var e := elections[id];
        assert id !in batch[..i];
        var next := DeriveElectionStatusFromDates(e, now);
        if next.None? || next.value == e.status { continue; }
        elections := elections[id := e.(status := next.value)];
        if next.value == VotingOpen && e.votingNotifiedAt.None? && id in delivered {
          elections := elections[id := elections[id].(votingNotifiedAt := Some(now))];
        }
      }
      assert batch[..|batch|] == batch;
    }

    method StartCertification(id: string, workflow: string, now: int) returns (reply: Reply)
      requires Valid()
      modifies this
      ensures Valid() && (Contents(), reply) == Step(old(Contents()), params, CallStartCertification(id, workflow), now)
    {
      StepInv(Contents(), params, CallStartCertification(id, workflow), now);
      if id !in elections { return Refused(NotFound); }
      var e := elections[id];
      if e.status != VotingClosed && e.status != CertificationPending { return Refused(NotClosedForVoting); }
      if e.workflowInstanceId.Some? { return Done; }
      elections := elections[id := e.(status := CertificationPending, workflowInstanceId := Some(workflow))];
      return Done;
    }

    method PublishResults(id: string, now: int) returns (reply: Reply)
      requires Valid()
      modifies this
      ensures Valid() && (Contents(), reply) == Step(old(Contents()), params, CallPublish(id), now)
    {
      StepInv(Contents(), params, CallPublish(id), now);
      if id !in elections { return Refused(NotFound); }
      elections := elections[id := elections[id].(status := Published, resultsPublishedAt := Some(now))];
      return Done;
    }

    /** The workflow's callback silently ignores an election it cannot find. */
    method CompleteCertificationFromWorkflow(id: string, now: int)
      requires Valid()
      modifies this
      ensures Valid() && (Contents(), Done) == Step(old(Contents()), params, CallCompleteCertification(id), now)
    {
      StepInv(Contents(), params, CallCompleteCertification(id), now);
      if id !in elections { return; }
      elections := elections[id := elections[id].(status := Published, resultsPublishedAt := Some(now))];
    }
  }

  /** The scheduler does what a sync does, and dates a delivered notice when voting opens, once. */
  lemma AdvancedIsSync(e: Election, delivered: bool, now: int)
    ensures Advanced(e, delivered, now).(votingNotifiedAt := e.votingNotifiedAt) == Synced(e, now)
    ensures Advanced(e, delivered, now).votingNotifiedAt ==
            if e.votingNotifiedAt == None && delivered && e.status != VotingOpen && !Decided(e) && InVotingWindow(e, now)
            then Some(now) else e.votingNotifiedAt
  {
  }
}
