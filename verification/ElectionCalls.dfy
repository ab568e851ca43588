/** What the calendar opens and which calls are taken, said of the stored rows alone: four dates,
    a status, who has voted, who stands. */
module ElectionCalls {
  import opened Results
  import opened Elections
  import opened ElectionSafety
  import BlindRsa

  // ---- the calendar --------------------------------------------------------------------

  predicate Decided(e: Election) { e.status == CertificationPending || e.status == Published || e.status == Archived }

  predicate AllPast(e: Election, now: int) {
    e.nominationOpen <= now && e.nominationClose < now && e.votingOpen <= now && e.votingClose < now
  }

  predicate InVotingWindow(e: Election, now: int) {
    e.nominationOpen <= now && e.nominationClose < now && e.votingOpen <= now <= e.votingClose
  }

  /** What a sync leaves of an election's status, for every four dates, ordered or not, and every
      instant: an undecided election is open for voting exactly within its voting window once
      nominations are over, and so on. */
  lemma SyncLeaves(st: Store, id: string, now: int)
    requires id in st.elections
    ensures var e, after := st.elections[id], Sync(st, id, now).0;
            && id in after.elections && Sync(st, id, now).1 == Done
            && after == st.(elections := st.elections[id := e.(status := after.elections[id].status)])
            && var status := after.elections[id].status;
               && (Decided(e) ==> status == e.status)
               && (!Decided(e) ==>
                     && (status == VotingOpen <==> InVotingWindow(e, now))
                     && (status == NominationsClosed <==>
                           e.nominationOpen <= now && e.nominationClose < now < e.votingOpen)
                     && (status == NominationsOpen <==>
                           e.nominationOpen <= now <= e.nominationClose || (AllPast(e, now) && e.status == NominationsOpen))
                     && (status == Draft <==> now < e.nominationOpen || (AllPast(e, now) && e.status == Draft))
                     && (status == VotingClosed <==>
                           AllPast(e, now)
                           && (e.status == NominationsClosed || e.status == VotingOpen || e.status == VotingClosed)))
  {
  }

  // ---- which calls are taken -----------------------------------------------------------

  predicate OpenForVoting(st: Store, id: string, now: int) {
    id in st.elections && st.elections[id].status == VotingOpen
    && st.elections[id].votingOpen <= now <= st.elections[id].votingClose
  }

  predicate HasVoted(st: Store, k: VoterKey) { k in st.voters && st.voters[k].hasVoted }

  /** An approved candidate of this election, for the chosen position. */
  predicate Standing(st: Store, id: string, choice: Choice) {
    choice.candidateId in st.candidates
    && st.candidates[choice.candidateId] == Candidate(id, choice.position, Approved)
  }

  /** One standing candidate for each position chosen at most once. */
  ghost predicate FaultFree(st: Store, id: string, choices: seq<Choice>) {
    && (forall i :: 0 <= i < |choices| ==> Standing(st, id, choices[i]))
    && (forall i, j :: 0 <= i < j < |choices| ==> choices[i].position != choices[j].position)
  }

  lemma {:induction false} FaultExact(st: Store, id: string, choices: seq<Choice>, n: nat)
    requires n <= |choices|
    ensures BallotFault(st, id, choices, n).None? <==> FaultFree(st, id, choices[..n])
  {
    if n > 0 {
      var front := choices[..n - 1];
      FaultExact(st, id, choices, n - 1);
      assert choices[..n] == front + [choices[n - 1]];
      if FaultFree(st, id, choices[..n]) {
        assert forall i :: 0 <= i < n - 1 ==> choices[..n][i] == front[i];
        assert choices[..n][n - 1] == choices[n - 1];
        assert Standing(st, id, choices[n - 1]);
        forall i | 0 <= i < n - 1 ensures choices[i].position != choices[n - 1].position {
          assert choices[..n][i].position != choices[..n][n - 1].position;
        }
      }
    }
  }

  /** A ballot is taken exactly from an eligible voter who has not voted, within the window of an
      election open for voting, if it is free of faults; it then adds its votes and marks the
      voter, and nothing else changes but that voter's row. */
  lemma BallotTaken(st: Store, k: VoterKey, eligible: bool, choices: seq<Choice>, now: int)
    ensures CastVote(st, k, eligible, choices, now).1 == Done <==>
            OpenForVoting(st, k.electionId, now) && eligible && !HasVoted(st, k) && FaultFree(st, k.electionId, choices)
    ensures var (after, reply) := CastVote(st, k, eligible, choices, now);
            reply == Done ==>
              && HasVoted(after, k) && after.voters[k].ballotToken == None && st.votes <= after.votes
              && |after.votes| == |st.votes| + |choices|
              && (forall j :: j in st.voters && j != k ==> j in after.voters && after.voters[j] == st.voters[j])
              && after.elections == st.elections && after.candidates == st.candidates
  {
    if OpenForVoting(st, k.electionId, now) {
      FaultExact(Upserted(st, k), k.electionId, choices, |choices|);
      assert choices[..|choices|] == choices;
    }
  }

  /** The first choice that spoils the ballot says why. */
  lemma FirstFault(st: Store, id: string, choices: seq<Choice>, n: nat)
    requires n < |choices| && FaultFree(st, id, choices[..n]) && !FaultFree(st, id, choices[..n + 1])
    ensures BallotFault(st, id, choices, |choices|) ==
            Some(if exists i :: 0 <= i < n && choices[i].position == choices[n].position then DuplicatePosition else InvalidCandidate)
  {
    FaultExact(st, id, choices, n);
    FaultExact(st, id, choices, n + 1);
    FaultPersists(st, id, choices, n + 1, |choices|);
  }

  /** Why a ballot is refused: the first of these that applies, and only a voter's row may be new. */
  lemma BallotRefused(st: Store, k: VoterKey, eligible: bool, choices: seq<Choice>, now: int)
    ensures var (after, reply) := CastVote(st, k, eligible, choices, now);
            var open := OpenForVoting(st, k.electionId, now);
            && (reply == Refused(NotFound) <==> k.electionId !in st.elections)
            && (reply == Refused(NotOpen) <==> k.electionId in st.elections && !open)
            && (reply == Refused(NotEligible) <==> open && !eligible)
            && (reply == Refused(AlreadyVoted) <==> open && eligible && HasVoted(st, k))
            && (open && eligible && !HasVoted(st, k) && reply != Done ==>
                  BallotFault(st, k.electionId, choices, |choices|).Some?
                  && reply == Refused(BallotFault(st, k.electionId, choices, |choices|).value))
            && (reply != Done ==> after.votes == st.votes && forall j :: HasVoted(after, j) <==> HasVoted(st, j))
  {
    SameFault(st, Upserted(st, k), k.electionId, choices, |choices|);
  }

  lemma {:induction false} SameFault(a: Store, b: Store, id: string, choices: seq<Choice>, n: nat)
    requires a.candidates == b.candidates && n <= |choices|
    ensures BallotFault(a, id, choices, n) == BallotFault(b, id, choices, n)
    ensures BallotFault(a, id, choices, n).Some? ==>
              BallotFault(a, id, choices, n).value == DuplicatePosition || BallotFault(a, id, choices, n).value == InvalidCandidate
  {
    if n > 0 { SameFault(a, b, id, choices, n - 1); }
  }

  /** A booth credential is issued exactly to an eligible voter who has not voted, in an open
      election, if nobody else holds the token or the commitment; and it is the one asked for,
      good until voting closes. */
  lemma CredentialIssued(st: Store, k: VoterKey, eligible: bool, token: string, commitment: string, now: int)
    ensures IssueBooth(st, k, eligible, token, commitment, now).1 == Done <==>
            && OpenForVoting(st, k.electionId, now) && eligible && !HasVoted(st, k)
            && forall j :: j in st.voters && j != k ==>
                 st.voters[j].ballotToken != Some(token) && st.voters[j].ballotCommitment != Some(commitment)
    ensures var (after, reply) := IssueBooth(st, k, eligible, token, commitment, now);
            reply == Done ==>
              && k in after.voters && !after.voters[k].hasVoted && after.voters[k].ballotToken == Some(token)
              && after.voters[k].ballotCommitment == Some(commitment)
              && after.voters[k].ballotExpiresAt == Some(st.elections[k.electionId].votingClose)
              && after.votes == st.votes
  {
    var up := Upserted(st, k);
    forall j | j in up.voters && j != k ensures j in st.voters && up.voters[j] == st.voters[j] {
    }
    if OpenForVoting(st, k.electionId, now) && eligible && !HasVoted(st, k) && !TokenTaken(up, k, token)
       && !CommitmentTaken(up, k, commitment)
    {
      forall j | j in st.voters && j != k
        ensures st.voters[j].ballotToken != Some(token) && st.voters[j].ballotCommitment != Some(commitment)
      {
        assert j in up.voters && up.voters[j] == st.voters[j];
      }
    }
  }

  /** Somebody is nominated exactly while nominations are open, for a position of the election;
      a candidate comes to stand only by being approved. */
  lemma NominationTaken(st: Store, id: string, candidateId: string, position: string, now: int, choice: Choice)
    ensures var (after, reply) := Nominate(st, id, candidateId, position, now);
            && (reply == Done <==>
                  && id in st.elections && st.elections[id].status == NominationsOpen
                  && st.elections[id].nominationOpen <= now <= st.elections[id].nominationClose
                  && position in st.elections[id].positions && candidateId !in st.candidates)
            && (Standing(after, id, choice) <==> Standing(st, id, choice))
    ensures forall status ::
              var (after, reply) := Review(st, id, candidateId, status);
              && (reply == Done <==> id in st.elections && candidateId in st.candidates && st.candidates[candidateId].electionId == id)
              && (reply == Done ==>
                    (Standing(after, id, choice) <==>
                       if choice.candidateId == candidateId
                       then status == Approved && st.candidates[candidateId].position == choice.position
                       else Standing(st, id, choice)))
  {
  }

  /** An election goes to certification exactly when voting has closed, once. */
  lemma CertificationTaken(st: Store, id: string, workflow: string)
    ensures var (after, reply) := StartCertification(st, id, workflow);
            && (reply == Done <==>
                  id in st.elections
                  && (st.elections[id].status == VotingClosed || st.elections[id].status == CertificationPending))
            && (after != st ==>
                  && reply == Done && st.elections[id].workflowInstanceId == None
                  && after.elections[id].status == CertificationPending
                  && after.elections[id].workflowInstanceId == Some(workflow))
            && (reply == Done && st.elections[id].workflowInstanceId == None ==>
                  after.elections[id].status == CertificationPending)
  {
  }

  /** Publishing works on any election there is, dates the results and touches nothing else. */
  lemma PublicationTaken(st: Store, params: BlindRsa.PublicParams, id: string, now: int)
    ensures var (after, reply) := Step(st, params, CallPublish(id), now);
            && (reply == Done <==> id in st.elections) && after == Step(st, params, CallCompleteCertification(id), now).0
            && after == if id !in st.elections then st
                        else st.(elections := st.elections[id := st.elections[id].(status := Published, resultsPublishedAt := Some(now))])
  {
  }

  /** The credential is the holder's own, unexpired, and the endorsement is good for the
      commitment it was issued with. */
  ghost predicate GoodCredential(st: Store, params: BlindRsa.PublicParams, k: VoterKey, id: string, token: string,
                                 signature: Credential, endorsement: string, now: int)
    requires k in st.voters && k.electionId in st.elections
  {
    var row := st.voters[k];
    && (row.ballotExpiresAt.Some? ==> now <= row.ballotExpiresAt.value)
    && row.ballotSignature == Some(signature)
    && signature == Credential(st.elections[k.electionId].institutionId, id, token)
    && row.ballotCommitment.Some? && BlindRsa.Verifies(row.ballotCommitment.value, endorsement, params)
  }

  /** In the booth a ballot is taken exactly from the holder of a good credential who has not
      voted, within the window of that election, if it is free of faults. */
  lemma BoothBallotTaken(st: Store, params: BlindRsa.PublicParams, k: VoterKey, id: string, token: string, signature: Credential,
                         endorsement: string, choices: seq<Choice>, now: int)
    requires TokensUnique(st) && Holds(st, k, token)
    ensures CastBooth(st, params, id, token, signature, endorsement, choices, now).1 == Done <==>
            && OpenForVoting(st, k.electionId, now) && !HasVoted(st, k)
            && GoodCredential(st, params, k, id, token, signature, endorsement, now) && FaultFree(st, k.electionId, choices)
  {
    assert Holder(st, token) == k;
    FaultExact(st, k.electionId, choices, |choices|);
    assert choices[..|choices|] == choices;
  }

  // ---- voting opens and stays open -------------------------------------------------------

  predicate Publishes(call: Call, id: string) {
    (call.CallPublish? || call.CallCompleteCertification?) && call.id == id
  }

  /** Within the voting window nothing but publishing takes voting away. */
  lemma StepStaysOpen(st: Store, params: BlindRsa.PublicParams, call: Call, id: string, now: int)
    requires id in st.elections && st.elections[id].status == VotingOpen && InVotingWindow(st.elections[id], now)
    requires !Publishes(call, id)
    ensures var after := Step(st, params, call, now).0;
            id in after.elections && after.elections[id] == st.elections[id]
  {
    match call
    case CallBooth(eid, token, signature, endorsement, choices) =>
      if exists k :: Holds(st, k, token) {
        BoothOutcome(st, params, Holder(st, token), eid, token, signature, endorsement, choices, now);
      }
    case _ =>
  }

  ghost predicate DuringVoting(e: Election, id: string, calls: seq<Timed>) {
    forall i :: 0 <= i < |calls| ==> InVotingWindow(e, calls[i].at) && !Publishes(calls[i].call, id)
  }

  lemma {:induction false} RunStaysOpen(st: Store, params: BlindRsa.PublicParams, calls: seq<Timed>, id: string)
    requires id in st.elections && st.elections[id].status == VotingOpen && DuringVoting(st.elections[id], id, calls)
    ensures var after := Run(st, params, calls); id in after.elections && after.elections[id] == st.elections[id]
  {
    if calls != [] {
      var front, last := calls[..|calls| - 1], calls[|calls| - 1];
      RunStaysOpen(st, params, front, id);
      StepStaysOpen(Run(st, params, front), params, last.call, id, last.at);
    }
  }

  /** Once an undecided election has been synced within its voting window, and whatever is called
      until voting closes except publishing it, an eligible voter who has not voted by then has a
      ballot taken that is free of faults. */
  lemma VotersCanVote(st: Store, params: BlindRsa.PublicParams, id: string, synced: int, calls: seq<Timed>,
                      userId: string, choices: seq<Choice>, now: int)
    requires id in st.elections && !Decided(st.elections[id]) && InVotingWindow(st.elections[id], synced)
    requires DuringVoting(st.elections[id], id, calls) && InVotingWindow(st.elections[id], now)
    ensures var later := Run(Sync(st, id, synced).0, params, calls);
            !HasVoted(later, VoterKey(id, userId)) && FaultFree(later, id, choices) ==>
              CastVote(later, VoterKey(id, userId), true, choices, now).1 == Done
  {
    var begun := Sync(st, id, synced).0;
    SyncLeaves(st, id, synced);
    RunStaysOpen(begun, params, calls, id);
    BallotTaken(Run(begun, params, calls), VoterKey(id, userId), true, choices, now);
  }
}
