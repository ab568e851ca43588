/** Elections as a state machine: what one service call does to the stored rows. Each call is
    one atomic step; hashes and HMACs are injective constructors. */
module Elections {
  import opened Results
  import BlindRsa

  datatype Status =
    | Draft | NominationsOpen | NominationsClosed | VotingOpen | VotingClosed
    | CertificationPending | Published | Archived

  datatype Election = Election(
    institutionId: string, positions: seq<string>, status: Status,
    nominationOpen: int, nominationClose: int, votingOpen: int, votingClose: int,
    workflowInstanceId: Option<string>, resultsPublishedAt: Option<int>, votingNotifiedAt: Option<int>)

  /** HMAC of a booth token under the institution's secret. */
  datatype Credential = Credential(institutionId: string, electionId: string, token: string)

  datatype Voter = Voter(
    hasVoted: bool, ballotToken: Option<string>, ballotSignature: Option<Credential>,
    ballotExpiresAt: Option<int>, ballotCommitment: Option<string>)

  datatype VoterKey = VoterKey(electionId: string, userId: string)

  /** SHA-256 over election, user and institution secret. */
  datatype VoterHash = VoterHash(electionId: string, userId: string, institutionId: string)

  datatype Vote = Vote(electionId: string, voterHash: VoterHash, position: string, candidateId: string, castAt: int)

  datatype CandidateStatus = Pending | Approved | Rejected | Withdrawn

  datatype Candidate = Candidate(electionId: string, position: string, status: CandidateStatus)

  datatype Choice = Choice(position: string, candidateId: string)

  datatype Store = Store(
    elections: map<string, Election>, voters: map<VoterKey, Voter>, votes: seq<Vote>,
    candidates: map<string, Candidate>)

  datatype Refusal =
    | NotFound | NotOpen | NotEligible | AlreadyVoted | InvalidCredential | CredentialExpired | BadSignature
    | BadEndorsement | DuplicatePosition | InvalidCandidate | NotClosedForVoting | UniqueViolation | UnknownPosition

  datatype Reply = Done | Refused(refusal: Refusal)

  // ---- the calendar --------------------------------------------------------------------

  predicate Terminal(s: Status) { s == CertificationPending || s == Published || s == Archived }

  /** The status the dates alone suggest at time t. */
  function Phase(e: Election, t: int): Status {
    if t < e.nominationOpen then Draft
    else if t <= e.nominationClose then NominationsOpen
    else if t < e.votingOpen then NominationsClosed
    else if t <= e.votingClose then VotingOpen
    else VotingClosed
  }

  /** None keeps the status: terminal elections, and elections that reach the end of voting
      without ever having closed nominations or opened voting. */
  function DeriveElectionStatusFromDates(e: Election, now: int): Option<Status> {
    if Terminal(e.status) then None
    else if now < e.nominationOpen then Some(Draft)
    else if now <= e.nominationClose then Some(NominationsOpen)
    else if now < e.votingOpen then Some(NominationsClosed)
    else if now <= e.votingClose then Some(VotingOpen)
    else if e.status == VotingOpen || e.status == NominationsClosed || e.status == VotingClosed then Some(VotingClosed)
    else None
  }

  function Synced(e: Election, now: int): Election {
    e.(status := DeriveElectionStatusFromDates(e, now).GetOr(e.status))
  }

  predicate IsNominationPhase(e: Election, now: int) {
    e.status == NominationsOpen && e.nominationOpen <= now <= e.nominationClose
  }

  predicate IsVotingPhase(e: Election, now: int) {
    e.status == VotingOpen && e.votingOpen <= now <= e.votingClose
  }

  function Rank(s: Status): nat {
    match s
    case Draft => 0
    case NominationsOpen => 1
    case NominationsClosed => 2
    case VotingOpen => 3
    case VotingClosed => 4
    case CertificationPending => 5
    case Published => 6
    case Archived => 7
  }

  // ---- ballots -------------------------------------------------------------------------

  const NEW_VOTER := Voter(false, None, None, None, None)

  function VoterOr(st: Store, k: VoterKey): Voter { if k in st.voters then st.voters[k] else NEW_VOTER }

  /** The eligibility check creates the voter row if there is none. */
  function Upserted(st: Store, k: VoterKey): Store { st.(voters := st.voters[k := VoterOr(st, k)]) }

  predicate CandidateStands(st: Store, electionId: string, choice: Choice) {
    && choice.candidateId in st.candidates
    && st.candidates[choice.candidateId].electionId == electionId
    && st.candidates[choice.candidateId].status == Approved
    && st.candidates[choice.candidateId].position == choice.position
  }

  predicate SeenBefore(choices: seq<Choice>, n: nat)
    requires n < |choices|
  {
    exists i :: 0 <= i < n && choices[i].position == choices[n].position
  }

  /** The first complaint about the first n choices. */
  function BallotFault(st: Store, electionId: string, choices: seq<Choice>, n: nat): Option<Refusal>
    requires n <= |choices|
  {
    if n == 0 then None
    else if BallotFault(st, electionId, choices, n - 1).Some? then BallotFault(st, electionId, choices, n - 1)
    else if SeenBefore(choices, n - 1) then Some(DuplicatePosition)
    else if !CandidateStands(st, electionId, choices[n - 1]) then Some(InvalidCandidate)
    else None
  }

  function VotesFor(electionId: string, hash: VoterHash, choices: seq<Choice>, now: int): seq<Vote> {
    seq(|choices|, i requires 0 <= i < |choices| =>
      Vote(electionId, hash, choices[i].position, choices[i].candidateId, now))
  }

  /** Marks the voter, burns the booth credential and writes one vote for each choice. */
  function Recorded(st: Store, k: VoterKey, institutionId: string, choices: seq<Choice>, now: int): Store {
    var voter := VoterOr(st, k).(hasVoted := true, ballotToken := None, ballotSignature := None, ballotExpiresAt := None);
    var hash := VoterHash(k.electionId, k.userId, institutionId);
    st.(voters := st.voters[k := voter], votes := st.votes + VotesFor(k.electionId, hash, choices, now))
  }

  function RecordBallot(st: Store, k: VoterKey, institutionId: string, choices: seq<Choice>, now: int): (Store, Reply) {
    var fault := BallotFault(st, k.electionId, choices, |choices|);
    if fault.Some? then (st, Refused(fault.value)) else (Recorded(st, k, institutionId, choices, now), Done)
  }

  predicate TokenTaken(st: Store, k: VoterKey, token: string) {
    exists k' :: k' in st.voters && k' != k && st.voters[k'].ballotToken == Some(token)
  }

  predicate CommitmentTaken(st: Store, k: VoterKey, commitment: string) {
    exists k' :: k' in st.voters && k' != k && st.voters[k'].ballotCommitment == Some(commitment)
  }

  // ---- service calls -------------------------------------------------------------------

  function IssueBooth(st: Store, k: VoterKey, eligible: bool, token: string, commitment: string, now: int): (Store, Reply) {
    if k.electionId !in st.elections then (st, Refused(NotFound))
    else
      var e := st.elections[k.electionId];
      if !IsVotingPhase(e, now) then (st, Refused(NotOpen))
      else if !eligible then (st, Refused(NotEligible))
      else
        var up := Upserted(st, k);
        if up.voters[k].hasVoted then (up, Refused(AlreadyVoted))
        else if TokenTaken(up, k, token) || CommitmentTaken(up, k, commitment) then (up, Refused(UniqueViolation))
        else
          var row := up.voters[k].(
            ballotToken := Some(token), ballotSignature := Some(Credential(e.institutionId, k.electionId, token)),
            ballotExpiresAt := Some(e.votingClose), ballotCommitment := Some(commitment));
          (up.(voters := up.voters[k := row]), Done)
  }

  function CastVote(st: Store, k: VoterKey, eligible: bool, choices: seq<Choice>, now: int): (Store, Reply) {
    if k.electionId !in st.elections then (st, Refused(NotFound))
    else
      var e := st.elections[k.electionId];
      if !IsVotingPhase(e, now) then (st, Refused(NotOpen))
      else if !eligible then (st, Refused(NotEligible))
      else
        var up := Upserted(st, k);
        if up.voters[k].hasVoted then (up, Refused(AlreadyVoted))
        else RecordBallot(up, k, e.institutionId, choices, now)
  }

  predicate Holds(st: Store, k: VoterKey, token: string) {
    k in st.voters && st.voters[k].ballotToken == Some(token)
  }

  ghost function Holder(st: Store, token: string): (k: VoterKey)
    requires exists k :: Holds(st, k, token)
    ensures Holds(st, k, token)
  {
    var k :| Holds(st, k, token);
    k
  }

  /** The booth: the bearer of a token votes as the voter it was issued to. */
  ghost function CastBooth(st: Store, params: BlindRsa.PublicParams, electionId: string, token: string, signature: Credential,
                           endorsement: string, choices: seq<Choice>, now: int): (Store, Reply)
  {
    if !exists k :: Holds(st, k, token) then (st, Refused(InvalidCredential))
    else CastBoothAs(st, params, Holder(st, token), electionId, token, signature, endorsement, choices, now)
  }

  ghost function CastBoothAs(st: Store, params: BlindRsa.PublicParams, k: VoterKey, electionId: string, token: string,
                             signature: Credential, endorsement: string, choices: seq<Choice>, now: int): (Store, Reply)
    requires Holds(st, k, token)
  {
    var voter := st.voters[k];
    if k.electionId !in st.elections then (st, Refused(InvalidCredential))
    else
      var e := st.elections[k.electionId];
      if !IsVotingPhase(e, now) then (st, Refused(NotOpen))
      else if voter.hasVoted then (st, Refused(AlreadyVoted))
      else if voter.ballotExpiresAt.Some? && voter.ballotExpiresAt.value < now then (st, Refused(CredentialExpired))
      else if voter.ballotSignature.None? || signature != Credential(e.institutionId, electionId, token)
              || Some(signature) != voter.ballotSignature then (st, Refused(BadSignature))
      else if voter.ballotCommitment.None? || !BlindRsa.Verifies(voter.ballotCommitment.value, endorsement, params)
        then (st, Refused(BadEndorsement))
      else RecordBallot(st, k, e.institutionId, choices, now)
  }

  function WithElection(st: Store, id: string, e: Election): Store { st.(elections := st.elections[id := e]) }

  function Sync(st: Store, id: string, now: int): (Store, Reply) {
    if id !in st.elections then (st, Refused(NotFound))
    else (WithElection(st, id, Synced(st.elections[id], now)), Done)
  }

  function StartCertification(st: Store, id: string, workflow: string): (Store, Reply) {
    if id !in st.elections then (st, Refused(NotFound))
    else
      var e := st.elections[id];
      if e.status != VotingClosed && e.status != CertificationPending then (st, Refused(NotClosedForVoting))
      else if e.workflowInstanceId.Some? then (st, Done)
      else (WithElection(st, id, e.(status := CertificationPending, workflowInstanceId := Some(workflow))), Done)
  }

  /** Publishing looks at no earlier status; the workflow callback ignores a missing election. */
  function Publish(st: Store, id: string, missing: Reply, now: int): (Store, Reply) {
    if id !in st.elections then (st, missing)
    else (WithElection(st, id, st.elections[id].(status := Published, resultsPublishedAt := Some(now))), Done)
  }

  function Nominate(st: Store, id: string, candidateId: string, position: string, now: int): (Store, Reply) {
    if id !in st.elections then (st, Refused(NotFound))
    else if !IsNominationPhase(st.elections[id], now) then (st, Refused(NotOpen))
    else if position !in st.elections[id].positions then (st, Refused(UnknownPosition))
    else if candidateId in st.candidates then (st, Refused(UniqueViolation))
    else (st.(candidates := st.candidates[candidateId := Candidate(id, position, Pending)]), Done)
  }

  function Review(st: Store, id: string, candidateId: string, status: CandidateStatus): (Store, Reply) {
    if id !in st.elections || candidateId !in st.candidates || st.candidates[candidateId].electionId != id
    then (st, Refused(NotFound))
    else (st.(candidates := st.candidates[candidateId := st.candidates[candidateId].(status := status)]), Done)
  }

  function Create(st: Store, id: string, e: Election): (Store, Reply) {
    if id in st.elections then (st, Refused(UniqueViolation))
    else (WithElection(st, id, e.(status := Draft, workflowInstanceId := None, resultsPublishedAt := None,
                                  votingNotifiedAt := None)), Done)
  }

  datatype Call =
    | CallCreate(id: string, election: Election)
    | CallNominate(id: string, candidateId: string, position: string)
    | CallReview(id: string, candidateId: string, status: CandidateStatus)
    | CallSync(id: string)
    | CallIssue(k: VoterKey, eligible: bool, token: string, commitment: string)
    | CallCast(k: VoterKey, eligible: bool, choices: seq<Choice>)
    | CallBooth(id: string, token: string, signature: Credential, endorsement: string, choices: seq<Choice>)
    | CallStartCertification(id: string, workflow: string)
    | CallCompleteCertification(id: string)
    | CallPublish(id: string)

  ghost function Step(st: Store, params: BlindRsa.PublicParams, call: Call, now: int): (Store, Reply) {
    match call
    case CallCreate(id, e) => Create(st, id, e)
    case CallNominate(id, candidateId, position) => Nominate(st, id, candidateId, position, now)
    case CallReview(id, candidateId, status) => Review(st, id, candidateId, status)
    case CallSync(id) => Sync(st, id, now)
    case CallIssue(k, eligible, token, commitment) => IssueBooth(st, k, eligible, token, commitment, now)
    case CallCast(k, eligible, choices) => CastVote(st, k, eligible, choices, now)
    case CallBooth(id, token, signature, endorsement, choices) =>
      CastBooth(st, params, id, token, signature, endorsement, choices, now)
    case CallStartCertification(id, workflow) => StartCertification(st, id, workflow)
    case CallCompleteCertification(id) => Publish(st, id, Done, now)
    case CallPublish(id) => Publish(st, id, Refused(NotFound), now)
  }
}
