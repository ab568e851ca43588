/** What every run of election calls keeps: one ballot per voter, live credentials only for
    those who have not voted, votes only for standing candidates within the voting window. */
module ElectionSafety {
  import opened Results
  import opened Counting
  import opened Elections
  import BlindRsa

  // ---- the invariant -------------------------------------------------------------------

  ghost predicate VotersKnown(st: Store) {
    forall k :: k in st.voters ==> k.electionId in st.elections
  }

  /** A live ballot token means its holder has not voted. */
  ghost predicate TokensLive(st: Store) {
    forall k :: k in st.voters && st.voters[k].ballotToken.Some? ==> !st.voters[k].hasVoted
  }

  ghost predicate TokensUnique(st: Store) {
    forall k, k', token :: Holds(st, k, token) && Holds(st, k', token) ==> k == k'
  }

  ghost predicate SignatureMatches(st: Store, k: VoterKey)
    requires k in st.voters && k.electionId in st.elections
  {
    var v := st.voters[k];
    v.ballotSignature.Some? ==>
      v.ballotToken.Some?
      && v.ballotSignature.value == Credential(st.elections[k.electionId].institutionId, k.electionId, v.ballotToken.value)
  }

  ghost predicate SignaturesMatch(st: Store)
    requires VotersKnown(st)
  {
    forall k :: k in st.voters ==> SignatureMatches(st, k)
  }

  function KeyOf(v: Vote): VoterKey { VoterKey(v.electionId, v.voterHash.userId) }

  /** A vote belongs to one voter of its election, who has voted, for a candidate who was
      nominated for its position, within the voting window. */
  ghost predicate VoteSound(st: Store, v: Vote) {
    && v.electionId in st.elections
    && v.voterHash == VoterHash(v.electionId, v.voterHash.userId, st.elections[v.electionId].institutionId)
    && KeyOf(v) in st.voters && st.voters[KeyOf(v)].hasVoted
    && v.candidateId in st.candidates
    && st.candidates[v.candidateId].electionId == v.electionId && st.candidates[v.candidateId].position == v.position
    && st.elections[v.electionId].votingOpen <= v.castAt <= st.elections[v.electionId].votingClose
  }

  ghost predicate VotesSound(st: Store) {
    forall i :: 0 <= i < |st.votes| ==> VoteSound(st, st.votes[i])
  }

  predicate SameSlip(v: Vote, w: Vote) {
    v.electionId == w.electionId && v.voterHash == w.voterHash && v.position == w.position
  }

  /** At most one vote for each election, voter and position. */
  ghost predicate VotesOnce(votes: seq<Vote>) {
    forall i, j :: 0 <= i < j < |votes| ==> !SameSlip(votes[i], votes[j])
  }

  ghost predicate Inv(st: Store) {
    && VotersKnown(st) && TokensLive(st) && TokensUnique(st) && SignaturesMatch(st)
    && VotesSound(st) && VotesOnce(st.votes)
  }

  // ---- how stores grow -----------------------------------------------------------------

  ghost predicate SameElection(e: Election, e': Election) {
    && e.institutionId == e'.institutionId && e.positions == e'.positions
    && e.nominationOpen == e'.nominationOpen && e.nominationClose == e'.nominationClose
    && e.votingOpen == e'.votingOpen && e.votingClose == e'.votingClose
  }

  ghost predicate ElectionsGrow(st: Store, st': Store) {
    forall id :: id in st.elections ==> id in st'.elections && SameElection(st.elections[id], st'.elections[id])
  }

  ghost predicate CandidatesGrow(st: Store, st': Store) {
    forall c :: c in st.candidates ==>
      c in st'.candidates && st.candidates[c].electionId == st'.candidates[c].electionId
      && st.candidates[c].position == st'.candidates[c].position
  }

  /** Nobody who has voted is ever someone who has not. */
  ghost predicate VotersGrow(st: Store, st': Store) {
    forall k :: k in st.voters ==> k in st'.voters && (st.voters[k].hasVoted ==> st'.voters[k].hasVoted)
  }

  ghost predicate Grows(st: Store, st': Store) {
    ElectionsGrow(st, st') && CandidatesGrow(st, st') && VotersGrow(st, st') && st.votes <= st'.votes
  }

  lemma VotesStaySound(st: Store, st': Store)
    requires VotesSound(st) && ElectionsGrow(st, st') && CandidatesGrow(st, st') && VotersGrow(st, st')
    requires st'.votes == st.votes
    ensures VotesSound(st')
  {
    forall i | 0 <= i < |st'.votes| ensures VoteSound(st', st'.votes[i]) {
      assert VoteSound(st, st.votes[i]);
    }
  }

  lemma InvElections(st: Store, st': Store)
    requires Inv(st) && ElectionsGrow(st, st') && st' == st.(elections := st'.elections)
    ensures Inv(st') && Grows(st, st')
  {
    VotesStaySound(st, st');
    forall k | k in st'.voters ensures SignatureMatches(st', k) {
      assert SignatureMatches(st, k);
    }
    forall k, k', token | Holds(st', k, token) && Holds(st', k', token) ensures k == k' {
      assert Holds(st, k, token) && Holds(st, k', token);
    }
  }

  lemma InvCandidates(st: Store, st': Store)
    requires Inv(st) && CandidatesGrow(st, st') && st' == st.(candidates := st'.candidates)
    ensures Inv(st') && Grows(st, st')
  {
    VotesStaySound(st, st');
    forall k | k in st'.voters ensures SignatureMatches(st', k) {
      assert SignatureMatches(st, k);
    }
    forall k, k', token | Holds(st', k, token) && Holds(st', k', token) ensures k == k' {
      assert Holds(st, k, token) && Holds(st, k', token);
    }
  }

  /** Replacing one voter row by one that keeps the row rules keeps the invariant. */
  lemma InvVoterRow(st: Store, k: VoterKey, row: Voter)
    requires Inv(st) && k.electionId in st.elections
    requires VoterOr(st, k).hasVoted ==> row.hasVoted
    requires row.ballotToken.Some? ==> !row.hasVoted && !TokenTaken(st, k, row.ballotToken.value)
    requires row.ballotSignature.Some? ==>
               row.ballotToken.Some? && row.ballotSignature.value
                 == Credential(st.elections[k.electionId].institutionId, k.electionId, row.ballotToken.value)
    ensures Inv(st.(voters := st.voters[k := row])) && Grows(st, st.(voters := st.voters[k := row]))
  {
    var st' := st.(voters := st.voters[k := row]);
    VotesStaySound(st, st');
    assert forall j :: j in st.voters && j != k && row.ballotToken.Some? ==> st.voters[j].ballotToken != row.ballotToken;
    forall j | j in st'.voters ensures SignatureMatches(st', j) {
      if j != k { assert SignatureMatches(st, j); }
    }
    forall j, j', token | Holds(st', j, token) && Holds(st', j', token) ensures j == j' {
      if j != k && j' != k { assert Holds(st, j, token) && Holds(st, j', token); }
    }
  }

  lemma InvUpserted(st: Store, k: VoterKey)
    requires Inv(st) && k.electionId in st.elections
    ensures Inv(Upserted(st, k)) && Grows(st, Upserted(st, k))
  {
    var row := VoterOr(st, k);
    if k in st.voters {
      assert SignatureMatches(st, k);
      if row.ballotToken.Some? && TokenTaken(st, k, row.ballotToken.value) {
        var k' :| k' in st.voters && k' != k && st.voters[k'].ballotToken == Some(row.ballotToken.value);
        assert Holds(st, k, row.ballotToken.value) && Holds(st, k', row.ballotToken.value);
      }
    }
    InvVoterRow(st, k, row);
  }

  // ---- recording a ballot --------------------------------------------------------------

  lemma {:induction false} BallotSound(st: Store, electionId: string, choices: seq<Choice>, n: nat)
    requires n <= |choices| && BallotFault(st, electionId, choices, n).None?
    ensures forall i :: 0 <= i < n ==> CandidateStands(st, electionId, choices[i])
    ensures forall i, j :: 0 <= i < j < n ==> choices[i].position != choices[j].position
  {
    if n > 0 { BallotSound(st, electionId, choices, n - 1); }
  }

  lemma {:induction false} FaultPersists(st: Store, electionId: string, choices: seq<Choice>, n: nat, m: nat)
    requires n <= m <= |choices| && BallotFault(st, electionId, choices, n).Some?
    ensures BallotFault(st, electionId, choices, m) == BallotFault(st, electionId, choices, n)
    decreases m - n
  {
    if n < m { FaultPersists(st, electionId, choices, n, m - 1); }
  }

  lemma NoVotesYet(st: Store, k: VoterKey, i: nat)
    requires Inv(st) && !VoterOr(st, k).hasVoted && i < |st.votes|
    ensures KeyOf(st.votes[i]) != k
  {
    assert VoteSound(st, st.votes[i]);
  }

  lemma VotesOnceAppend(st: Store, k: VoterKey, institutionId: string, choices: seq<Choice>, now: int)
    requires Inv(st) && !VoterOr(st, k).hasVoted
    requires forall i, j :: 0 <= i < j < |choices| ==> choices[i].position != choices[j].position
    ensures VotesOnce(st.votes + VotesFor(k.electionId, VoterHash(k.electionId, k.userId, institutionId), choices, now))
  {
    var added := VotesFor(k.electionId, VoterHash(k.electionId, k.userId, institutionId), choices, now);
    var all := st.votes + added;
    forall i, j | 0 <= i < j < |all| ensures !SameSlip(all[i], all[j]) {
      if j >= |st.votes| {
        assert KeyOf(all[j]) == k;
        if i < |st.votes| { NoVotesYet(st, k, i); }
      }
    }
  }

  /** Recording an accepted ballot of someone who had not voted keeps the invariant; the
      database's uniqueness constraints are never what stops a second vote. */
  lemma InvRecorded(st: Store, k: VoterKey, choices: seq<Choice>, now: int)
    requires Inv(st) && k.electionId in st.elections && !VoterOr(st, k).hasVoted
    requires BallotFault(st, k.electionId, choices, |choices|).None?
    requires st.elections[k.electionId].votingOpen <= now <= st.elections[k.electionId].votingClose
    ensures var st' := Recorded(st, k, st.elections[k.electionId].institutionId, choices, now);
            Inv(st') && Grows(st, st')
  {
    var inst := st.elections[k.electionId].institutionId;
    var st' := Recorded(st, k, inst, choices, now);
    var mid := st.(voters := st'.voters);
    InvVoterRow(st, k, st'.voters[k]);
    BallotSound(st, k.electionId, choices, |choices|);
    VotesOnceAppend(st, k, inst, choices, now);
    forall i | 0 <= i < |st'.votes| ensures VoteSound(st', st'.votes[i]) {
      if i < |st.votes| {
        assert VoteSound(mid, mid.votes[i]);
      } else {
        assert CandidateStands(st, k.electionId, choices[i - |st.votes|]);
      }
    }
    forall j | j in st'.voters ensures SignatureMatches(st', j) { assert SignatureMatches(mid, j); }
    forall j, j', token | Holds(st', j, token) && Holds(st', j', token) ensures j == j' {
      assert Holds(mid, j, token) && Holds(mid, j', token);
    }
  }

  lemma GrowsTransitive(a: Store, b: Store, c: Store)
    requires Grows(a, b) && Grows(b, c)
    ensures Grows(a, c)
  {
  }

  lemma InvRecordBallot(st: Store, k: VoterKey, choices: seq<Choice>, now: int)
    requires Inv(st) && k.electionId in st.elections && !VoterOr(st, k).hasVoted
    requires IsVotingPhase(st.elections[k.electionId], now)
    ensures var st' := RecordBallot(st, k, st.elections[k.electionId].institutionId, choices, now).0;
            Inv(st') && Grows(st, st')
  {
    if BallotFault(st, k.electionId, choices, |choices|).None? { InvRecorded(st, k, choices, now); }
  }

  lemma InvIssue(st: Store, k: VoterKey, eligible: bool, token: string, commitment: string, now: int)
    requires Inv(st)
    ensures var st' := IssueBooth(st, k, eligible, token, commitment, now).0; Inv(st') && Grows(st, st')
  {
    if k.electionId in st.elections && IsVotingPhase(st.elections[k.electionId], now) && eligible {
      InvUpserted(st, k);
      var up := Upserted(st, k);
      if !up.voters[k].hasVoted && !TokenTaken(up, k, token) && !CommitmentTaken(up, k, commitment) {
        var st' := IssueBooth(st, k, eligible, token, commitment, now).0;
        InvVoterRow(up, k, st'.voters[k]);
        GrowsTransitive(st, up, st');
      }
    }
  }

  lemma InvCast(st: Store, k: VoterKey, eligible: bool, choices: seq<Choice>, now: int)
    requires Inv(st)
    ensures var st' := CastVote(st, k, eligible, choices, now).0; Inv(st') && Grows(st, st')
  {
    if k.electionId in st.elections && IsVotingPhase(st.elections[k.electionId], now) && eligible {
      InvUpserted(st, k);
      var up := Upserted(st, k);
      if !up.voters[k].hasVoted {
        InvRecordBallot(up, k, choices, now);
        GrowsTransitive(st, up, CastVote(st, k, eligible, choices, now).0);
      }
    }
  }

  lemma InvBooth(st: Store, params: BlindRsa.PublicParams, id: string, token: string, signature: Credential,
                 endorsement: string, choices: seq<Choice>, now: int)
    requires Inv(st)
    ensures var st' := CastBooth(st, params, id, token, signature, endorsement, choices, now).0;
            Inv(st') && Grows(st, st')
  {
    if exists k :: Holds(st, k, token) {
      var k := Holder(st, token);
      BoothOutcome(st, params, k, id, token, signature, endorsement, choices, now);
      if k.electionId in st.elections && IsVotingPhase(st.elections[k.electionId], now) && !VoterOr(st, k).hasVoted {
        InvRecordBallot(st, k, choices, now);
      }
    }
  }

  /** The booth changes nothing, or records a ballot of one who may vote. */
  lemma BoothOutcome(st: Store, params: BlindRsa.PublicParams, k: VoterKey, id: string, token: string, signature: Credential,
                     endorsement: string, choices: seq<Choice>, now: int)
    requires Holds(st, k, token)
    ensures var st' := CastBoothAs(st, params, k, id, token, signature, endorsement, choices, now).0;
            st' == st
            || (k.electionId in st.elections && IsVotingPhase(st.elections[k.electionId], now) && !VoterOr(st, k).hasVoted
                && st' == RecordBallot(st, k, st.elections[k.electionId].institutionId, choices, now).0)
  {
  }

  predicate ElectionCall(call: Call) {
    call.CallCreate? || call.CallSync? || call.CallStartCertification? || call.CallCompleteCertification? || call.CallPublish?
  }

  lemma InvElectionCall(st: Store, params: BlindRsa.PublicParams, call: Call, now: int)
    requires Inv(st) && ElectionCall(call)
    ensures var st' := Step(st, params, call, now).0; Inv(st') && Grows(st, st')
  {
    var st' := Step(st, params, call, now).0;
    assert st' == st || st' == WithElection(st, call.id, st'.elections[call.id]);
    InvElections(st, st');
  }

  /** Every call keeps the invariant and only lets the store grow. */
  lemma StepInv(st: Store, params: BlindRsa.PublicParams, call: Call, now: int)
    requires Inv(st)
    ensures var st' := Step(st, params, call, now).0; Inv(st') && Grows(st, st')
  {
    if ElectionCall(call) {
      InvElectionCall(st, params, call, now);
    } else {
      match call
      case CallNominate(_, _, _) => InvCandidates(st, Step(st, params, call, now).0);
      case CallReview(_, _, _) => InvCandidates(st, Step(st, params, call, now).0);
      case CallIssue(k, eligible, token, commitment) => InvIssue(st, k, eligible, token, commitment, now);
      case CallCast(k, eligible, choices) => InvCast(st, k, eligible, choices, now);
      case CallBooth(id, token, signature, endorsement, choices) =>
        InvBooth(st, params, id, token, signature, endorsement, choices, now);
    }
  }

  // ---- runs ----------------------------------------------------------------------------

  datatype Timed = Timed(call: Call, at: int)

  ghost function Run(st: Store, params: BlindRsa.PublicParams, calls: seq<Timed>): Store {
    if calls == [] then st
    else
      var last := calls[|calls| - 1];
      Step(Run(st, params, calls[..|calls| - 1]), params, last.call, last.at).0
  }

  const EMPTY := Store(map[], map[], [], map[])

  /** Over every run: nobody who has voted is reset, votes are only added, and the invariant
      holds throughout. */
  lemma {:induction false} RunInv(st: Store, params: BlindRsa.PublicParams, calls: seq<Timed>)
    requires Inv(st)
    ensures Inv(Run(st, params, calls)) && Grows(st, Run(st, params, calls))
  {
    if calls != [] {
      var front, last := calls[..|calls| - 1], calls[|calls| - 1];
      var mid := Run(st, params, front);
      RunInv(st, params, front);
      StepInv(mid, params, last.call, last.at);
      GrowsTransitive(st, mid, Run(st, params, calls));
    }
  }

  // ---- the tally -----------------------------------------------------------------------

  /** The candidate, or anyone standing for the position. */
  predicate Selects(position: string, candidateId: string, wanted: string, candidate: Option<string>) {
    position == wanted && (candidate.Some? ==> candidateId == candidate.value)
  }

  predicate Counts(v: Vote, electionId: string, position: string, candidate: Option<string>) {
    v.electionId == electionId && Selects(v.position, v.candidateId, position, candidate)
  }

  /** Votes cast for a position, for one candidate or for all. */
  function Tally(votes: seq<Vote>, electionId: string, position: string, candidate: Option<string>): nat {
    if votes == [] then 0
    else Tally(votes[..|votes| - 1], electionId, position, candidate)
         + if Counts(votes[|votes| - 1], electionId, position, candidate) then 1 else 0
  }

  ghost function Voted(st: Store, electionId: string): set<VoterKey> {
    set k | k in st.voters && k.electionId == electionId && st.voters[k].hasVoted
  }

  ghost function Balloters(votes: seq<Vote>, electionId: string, position: string): set<VoterKey> {
    set v | v in votes && Counts(v, electionId, position, None) :: KeyOf(v)
  }

  ghost predicate Canonical(votes: seq<Vote>, institutionId: string, electionId: string) {
    forall i :: 0 <= i < |votes| && votes[i].electionId == electionId ==>
      votes[i].voterHash == VoterHash(electionId, votes[i].voterHash.userId, institutionId)
  }

  lemma NewBalloter(votes: seq<Vote>, electionId: string, position: string, institutionId: string)
    requires VotesOnce(votes) && Canonical(votes, institutionId, electionId)
    requires votes != [] && Counts(votes[|votes| - 1], electionId, position, None)
    ensures KeyOf(votes[|votes| - 1]) !in Balloters(votes[..|votes| - 1], electionId, position)
  {
    var front, last := votes[..|votes| - 1], votes[|votes| - 1];
    forall v | v in front && Counts(v, electionId, position, None) ensures KeyOf(v) != KeyOf(last) {
      var i :| 0 <= i < |front| && front[i] == v;
      assert votes[i] == v && !SameSlip(votes[i], votes[|votes| - 1]);
    }
  }

  /** Each vote for a position comes from a different voter. */
  lemma {:induction false} TallyIsBalloters(votes: seq<Vote>, electionId: string, position: string, institutionId: string)
    requires VotesOnce(votes) && Canonical(votes, institutionId, electionId)
    ensures Tally(votes, electionId, position, None) == |Balloters(votes, electionId, position)|
  {
    if votes != [] {
      var front, last := votes[..|votes| - 1], votes[|votes| - 1];
      assert votes == front + [last];
      TallyIsBalloters(front, electionId, position, institutionId);
      if Counts(last, electionId, position, None) {
        assert Balloters(votes, electionId, position) == Balloters(front, electionId, position) + {KeyOf(last)};
        NewBalloter(votes, electionId, position, institutionId);
      } else {
        assert Balloters(votes, electionId, position) == Balloters(front, electionId, position);
      }
    }
  }

  /** No position has more votes than there are people who have voted. */
  lemma TallyWithinVoted(st: Store, electionId: string, position: string)
    requires Inv(st)
    ensures Tally(st.votes, electionId, position, None) <= |Voted(st, electionId)|
  {
    var inst := if electionId in st.elections then st.elections[electionId].institutionId else "";
    forall i | 0 <= i < |st.votes| && st.votes[i].electionId == electionId
      ensures st.votes[i].voterHash == VoterHash(electionId, st.votes[i].voterHash.userId, inst)
    {
      assert VoteSound(st, st.votes[i]);
    }
    TallyIsBalloters(st.votes, electionId, position, inst);
    forall v | v in st.votes && Counts(v, electionId, position, None) ensures KeyOf(v) in Voted(st, electionId) {
      var i :| 0 <= i < |st.votes| && st.votes[i] == v;
      assert VoteSound(st, st.votes[i]);
    }
    SubsetSize(Balloters(st.votes, electionId, position), Voted(st, electionId));
  }

  predicate Chosen(choices: seq<Choice>, position: string, candidate: Option<string>) {
    exists i :: 0 <= i < |choices| && Selects(choices[i].position, choices[i].candidateId, position, candidate)
  }

  lemma TallyLast(votes: seq<Vote>, v: Vote, electionId: string, position: string, candidate: Option<string>)
    ensures Tally(votes + [v], electionId, position, candidate)
            == Tally(votes, electionId, position, candidate)
               + if Counts(v, electionId, position, candidate) then 1 else 0
  {
    assert (votes + [v])[..|votes|] == votes;
  }

  lemma ChosenLast(front: seq<Choice>, last: Choice, position: string, candidate: Option<string>)
    ensures Chosen(front + [last], position, candidate) <==>
            Chosen(front, position, candidate) || Selects(last.position, last.candidateId, position, candidate)
  {
    var all := front + [last];
    if i :| 0 <= i < |front| && Selects(front[i].position, front[i].candidateId, position, candidate) { assert all[i] == front[i]; }
    if i :| 0 <= i < |all| && Selects(all[i].position, all[i].candidateId, position, candidate) {
      assert i < |front| ==> all[i] == front[i];
    }
    assert all[|front|] == last;
  }

  lemma VotesForLast(votes: seq<Vote>, electionId: string, hash: VoterHash, choices: seq<Choice>, now: int)
    requires choices != []
    ensures var front, last := choices[..|choices| - 1], choices[|choices| - 1];
            votes + VotesFor(electionId, hash, choices, now)
            == (votes + VotesFor(electionId, hash, front, now))
               + [Vote(electionId, hash, last.position, last.candidateId, now)]
  {
  }

  lemma ChosenOnce(choices: seq<Choice>, position: string, candidate: Option<string>)
    requires choices != [] && forall i, j :: 0 <= i < j < |choices| ==> choices[i].position != choices[j].position
    ensures var last := choices[|choices| - 1];
            Selects(last.position, last.candidateId, position, candidate) ==>
              !Chosen(choices[..|choices| - 1], position, candidate)
  {
  }

  lemma {:induction false} AddedCounts(votes: seq<Vote>, k: VoterKey, inst: string, choices: seq<Choice>, now: int,
                                       electionId: string, position: string, candidate: Option<string>)
    requires forall i, j :: 0 <= i < j < |choices| ==> choices[i].position != choices[j].position
    ensures Tally(votes + VotesFor(k.electionId, VoterHash(k.electionId, k.userId, inst), choices, now),
                    electionId, position, candidate)
            == Tally(votes, electionId, position, candidate)
               + if k.electionId == electionId && Chosen(choices, position, candidate) then 1 else 0
    decreases |choices|
  {
    var hash := VoterHash(k.electionId, k.userId, inst);
    if choices == [] {
      assert votes + VotesFor(k.electionId, hash, choices, now) == votes;
    } else {
      var front, last := choices[..|choices| - 1], choices[|choices| - 1];
      var added := VotesFor(k.electionId, hash, front, now);
      var v := Vote(k.electionId, hash, last.position, last.candidateId, now);
      AddedCounts(votes, k, inst, front, now, electionId, position, candidate);
      VotesForLast(votes, k.electionId, hash, choices, now);
      TallyLast(votes + added, v, electionId, position, candidate);
      assert choices == front + [last];
      ChosenLast(front, last, position, candidate);
      ChosenOnce(choices, position, candidate);
    }
  }

  /** A ballot adds one vote for each of its choices and no other, in its own election only. */
  lemma BallotCounts(st: Store, k: VoterKey, eligible: bool, choices: seq<Choice>, now: int,
                     electionId: string, position: string, candidate: Option<string>)
    requires CastVote(st, k, eligible, choices, now).1 == Done
    ensures Tally(CastVote(st, k, eligible, choices, now).0.votes, electionId, position, candidate)
            == Tally(st.votes, electionId, position, candidate)
               + if k.electionId == electionId && Chosen(choices, position, candidate) then 1 else 0
  {
    BallotSound(Upserted(st, k), k.electionId, choices, |choices|);
    AddedCounts(st.votes, k, st.elections[k.electionId].institutionId, choices, now, electionId, position, candidate);
  }

  /** The same of a ballot cast in the booth, which counts for the credential's voter. */
  lemma BoothBallotCounts(st: Store, params: BlindRsa.PublicParams, id: string, token: string, signature: Credential,
                          endorsement: string, choices: seq<Choice>, now: int, position: string, candidate: Option<string>)
    requires Inv(st) && CastBooth(st, params, id, token, signature, endorsement, choices, now).1 == Done
    ensures Tally(CastBooth(st, params, id, token, signature, endorsement, choices, now).0.votes, id, position, candidate)
            == Tally(st.votes, id, position, candidate) + if Chosen(choices, position, candidate) then 1 else 0
  {
    var k := Holder(st, token);
    BoothVoteIsHolders(st, params, id, token, signature, endorsement, choices, now, k);
    BallotSound(st, id, choices, |choices|);
    AddedCounts(st.votes, k, st.elections[id].institutionId, choices, now, id, position, candidate);
  }

  /** A booth credential is good for its own election and its own voter only, once. */
  lemma BoothVoteIsHolders(st: Store, params: BlindRsa.PublicParams, id: string, token: string, signature: Credential,
                           endorsement: string, choices: seq<Choice>, now: int, k: VoterKey)
    requires Inv(st) && Holds(st, k, token)
    requires CastBooth(st, params, id, token, signature, endorsement, choices, now).1 == Done
    ensures k.electionId == id && !st.voters[k].hasVoted
    ensures var st' := CastBooth(st, params, id, token, signature, endorsement, choices, now).0;
            && st' == Recorded(st, k, st.elections[id].institutionId, choices, now)
            && forall j :: !Holds(st', j, token)
  {
    var st' := CastBooth(st, params, id, token, signature, endorsement, choices, now).0;
    assert Holder(st, token) == k;
    assert SignatureMatches(st, k);
    forall j ensures !Holds(st', j, token) {
      if j != k && Holds(st, j, token) { assert false; }
    }
  }

  // ---- statuses move forward -------------------------------------------------------------

  /** No status is ahead of what the calendar allows at the given time. */
  ghost predicate OnSchedule(st: Store, clock: int) {
    forall id :: id in st.elections ==>
      st.elections[id].status != Archived
      && (!Terminal(st.elections[id].status) ==> Rank(st.elections[id].status) <= Rank(Phase(st.elections[id], clock)))
  }

  lemma PhaseMonotone(e: Election, t: int, t': int)
    requires t <= t'
    ensures Rank(Phase(e, t)) <= Rank(Phase(e, t'))
  {
  }

  ghost predicate Forward(st: Store, st': Store) {
    forall id :: id in st.elections ==> id in st'.elections && Rank(st.elections[id].status) <= Rank(st'.elections[id].status)
  }

  /** What a single election may become between two instants. */
  ghost predicate Ahead(e: Election, e': Election, now: int) {
    && SameElection(e, e') && e'.status != Archived && Rank(e.status) <= Rank(e'.status)
    && (!Terminal(e'.status) ==> Rank(e'.status) <= Rank(Phase(e', now)))
  }

  lemma SyncedAhead(e: Election, clock: int, now: int)
    requires clock <= now && e.status != Archived
    requires !Terminal(e.status) ==> Rank(e.status) <= Rank(Phase(e, clock))
    ensures Ahead(e, Synced(e, now), now) && Ahead(e, e, now)
  {
    PhaseMonotone(e, clock, now);
  }

  lemma Elapsed(st: Store, clock: int, now: int)
    requires OnSchedule(st, clock) && clock <= now
    ensures OnSchedule(st, now)
  {
    forall id | id in st.elections { PhaseMonotone(st.elections[id], clock, now); }
  }

  lemma OneAhead(st: Store, id: string, e': Election, now: int)
    requires OnSchedule(st, now)
    requires id in st.elections ==> Ahead(st.elections[id], e', now)
    requires id !in st.elections ==> e'.status == Draft
    ensures OnSchedule(WithElection(st, id, e'), now) && Forward(st, WithElection(st, id, e'))
  {
  }

  lemma SyncForward(st: Store, id: string, now: int)
    requires OnSchedule(st, now)
    ensures var st' := Sync(st, id, now).0; OnSchedule(st', now) && Forward(st, st')
  {
    if id in st.elections {
      SyncedAhead(st.elections[id], now, now);
      OneAhead(st, id, Synced(st.elections[id], now), now);
    }
  }

  lemma CertifyForward(st: Store, id: string, workflow: string, now: int)
    requires OnSchedule(st, now)
    ensures var st' := StartCertification(st, id, workflow).0; OnSchedule(st', now) && Forward(st, st')
  {
    if id in st.elections && Rank(st.elections[id].status) <= Rank(CertificationPending) {
      OneAhead(st, id, st.elections[id].(status := CertificationPending, workflowInstanceId := Some(workflow)), now);
    }
  }

  lemma PublishForward(st: Store, id: string, missing: Reply, now: int)
    requires OnSchedule(st, now)
    ensures var st' := Publish(st, id, missing, now).0; OnSchedule(st', now) && Forward(st, st')
  {
    if id in st.elections {
      assert Rank(st.elections[id].status) <= Rank(Published);
      OneAhead(st, id, st.elections[id].(status := Published, resultsPublishedAt := Some(now)), now);
    }
  }

  lemma ElectionForward(st: Store, params: BlindRsa.PublicParams, call: Call, now: int)
    requires OnSchedule(st, now) && ElectionCall(call)
    ensures var st' := Step(st, params, call, now).0; OnSchedule(st', now) && Forward(st, st')
  {
    match call
    case CallCreate(id, e) =>
    case CallSync(id) => SyncForward(st, id, now);
    case CallStartCertification(id, workflow) => CertifyForward(st, id, workflow, now);
    case CallCompleteCertification(id) => PublishForward(st, id, Done, now);
    case CallPublish(id) => PublishForward(st, id, Refused(NotFound), now);
  }

  lemma StepForward(st: Store, params: BlindRsa.PublicParams, call: Call, clock: int, now: int)
    requires OnSchedule(st, clock) && clock <= now
    ensures var st' := Step(st, params, call, now).0; OnSchedule(st', now) && Forward(st, st')
  {
    Elapsed(st, clock, now);
    if ElectionCall(call) {
      ElectionForward(st, params, call, now);
    } else {
      assert Step(st, params, call, now).0.elections == st.elections;
    }
  }

  ghost predicate ClockRuns(clock: int, calls: seq<Timed>) {
    && (forall i :: 0 <= i < |calls| ==> clock <= calls[i].at)
    && (forall i, j :: 0 <= i < j < |calls| ==> calls[i].at <= calls[j].at)
  }

  function EndTime(clock: int, calls: seq<Timed>): int {
    if calls == [] then clock else calls[|calls| - 1].at
  }

  /** With a clock that never runs backwards no call ever moves an election to an earlier
      status, whatever its dates. */
  lemma {:induction false} RunForward(st: Store, params: BlindRsa.PublicParams, clock: int, calls: seq<Timed>)
    requires OnSchedule(st, clock) && ClockRuns(clock, calls)
    ensures OnSchedule(Run(st, params, calls), EndTime(clock, calls)) && Forward(st, Run(st, params, calls))
  {
    if calls != [] {
      var front, last := calls[..|calls| - 1], calls[|calls| - 1];
      RunForward(st, params, clock, front);
      StepForward(Run(st, params, front), params, last.call, EndTime(clock, front), last.at);
    }
  }

  /** Syncing twice at one instant is syncing once. */
  lemma SyncIdempotent(st: Store, id: string, now: int)
    ensures Sync(Sync(st, id, now).0, id, now) == Sync(st, id, now)
  {
    if id in st.elections {
      var once := Sync(st, id, now).0;
      assert Synced(Synced(st.elections[id], now), now) == Synced(st.elections[id], now);
      assert once.elections[id := once.elections[id]] == once.elections;
    }
  }

  /** A non-terminal election past its voting window reaches VOTING_CLOSED by syncing exactly
      if it had at least closed nominations; otherwise it keeps its status for good. */
  lemma ClosesExactly(e: Election, now: int)
    requires !Terminal(e.status) && Phase(e, now) == VotingClosed
    ensures Synced(e, now).status == VotingClosed <==> Rank(e.status) >= Rank(NominationsClosed)
    ensures Rank(e.status) < Rank(NominationsClosed) ==> forall t :: t >= now ==> Synced(e, t) == e
  {
    forall t | t >= now ensures Phase(e, t) == VotingClosed {
      PhaseMonotone(e, now, t);
    }
  }

  function VotesOf(votes: seq<Vote>, electionId: string): seq<Vote> {
    if votes == [] then []
    else VotesOf(votes[..|votes| - 1], electionId)
         + if votes[|votes| - 1].electionId == electionId then [votes[|votes| - 1]] else []
  }

  lemma {:induction false} VotesOfConcat(a: seq<Vote>, b: seq<Vote>, electionId: string)
    ensures VotesOf(a + b, electionId) == VotesOf(a, electionId) + VotesOf(b, electionId)
  {
    if b == [] {
      assert a + b == a;
    } else {
      assert (a + b)[..|a + b| - 1] == a + b[..|b| - 1];
      VotesOfConcat(a, b[..|b| - 1], electionId);
    }
  }

  lemma {:induction false} VotesOfNone(votes: seq<Vote>, electionId: string)
    requires forall i :: 0 <= i < |votes| ==> votes[i].electionId != electionId
    ensures VotesOf(votes, electionId) == []
  {
    if votes != [] { VotesOfNone(votes[..|votes| - 1], electionId); }
  }

  lemma RecordedElsewhere(st: Store, k: VoterKey, inst: string, choices: seq<Choice>, now: int, electionId: string)
    requires k.electionId != electionId
    ensures VotesOf(Recorded(st, k, inst, choices, now).votes, electionId) == VotesOf(st.votes, electionId)
  {
    var added := VotesFor(k.electionId, VoterHash(k.electionId, k.userId, inst), choices, now);
    VotesOfConcat(st.votes, added, electionId);
    VotesOfNone(added, electionId);
  }

  lemma CastFrozen(st: Store, k: VoterKey, eligible: bool, choices: seq<Choice>, now: int, electionId: string)
    requires electionId in st.elections && st.elections[electionId].status != VotingOpen
    ensures VotesOf(CastVote(st, k, eligible, choices, now).0.votes, electionId) == VotesOf(st.votes, electionId)
  {
    if k.electionId in st.elections && k.electionId != electionId {
      RecordedElsewhere(Upserted(st, k), k, st.elections[k.electionId].institutionId, choices, now, electionId);
    }
  }

  lemma BoothFrozen(st: Store, params: BlindRsa.PublicParams, id: string, token: string, signature: Credential,
                    endorsement: string, choices: seq<Choice>, now: int, electionId: string)
    requires VotersKnown(st) && electionId in st.elections && st.elections[electionId].status != VotingOpen
    ensures VotesOf(CastBooth(st, params, id, token, signature, endorsement, choices, now).0.votes, electionId)
            == VotesOf(st.votes, electionId)
  {
    if exists k :: Holds(st, k, token) {
      var k := Holder(st, token);
      if k.electionId != electionId {
        RecordedElsewhere(st, k, st.elections[k.electionId].institutionId, choices, now, electionId);
      }
    }
  }

  lemma StepFrozen(st: Store, params: BlindRsa.PublicParams, call: Call, now: int, electionId: string)
    requires Inv(st) && electionId in st.elections && st.elections[electionId].status != VotingOpen
    ensures VotesOf(Step(st, params, call, now).0.votes, electionId) == VotesOf(st.votes, electionId)
  {
    match call
    case CallCast(k, eligible, choices) => CastFrozen(st, k, eligible, choices, now, electionId);
    case CallBooth(id, token, signature, endorsement, choices) =>
      BoothFrozen(st, params, id, token, signature, endorsement, choices, now, electionId);
    case _ =>
      assert Step(st, params, call, now).0.votes == st.votes;
  }

  /** Once an election has left VOTING_OPEN no call ever changes its votes. */
  lemma {:induction false} TallyFrozen(st: Store, params: BlindRsa.PublicParams, clock: int, calls: seq<Timed>, electionId: string)
    requires Inv(st) && OnSchedule(st, clock) && ClockRuns(clock, calls)
    requires electionId in st.elections && Rank(st.elections[electionId].status) > Rank(VotingOpen)
    ensures VotesOf(Run(st, params, calls).votes, electionId) == VotesOf(st.votes, electionId)
  {
    if calls != [] {
      var front, last := calls[..|calls| - 1], calls[|calls| - 1];
      TallyFrozen(st, params, clock, front, electionId);
      RunInv(st, params, front);
      RunForward(st, params, clock, front);
      StepFrozen(Run(st, params, front), params, last.call, last.at, electionId);
    }
  }
}
