/** How long a booth credential stays good: over every run between its issue and its use. */
module BoothCredentials {
  import opened Results
  import opened Elections
  import opened ElectionSafety
  import opened NumberTheory
  import opened HexCodec
  import BlindRsa

  /** An accepted issue to a voter, or an accepted ballot of hers, direct or in the booth. */
  ghost predicate Touches(st: Store, params: BlindRsa.PublicParams, call: Call, now: int, k: VoterKey) {
    && Step(st, params, call, now).1 == Done
    && match call
       case CallIssue(k', _, _, _) => k' == k
       case CallCast(k', _, _) => k' == k
       case CallBooth(_, token, _, _, _) => Holds(st, k, token)
       case _ => false
  }

  ghost predicate Untouched(st: Store, params: BlindRsa.PublicParams, calls: seq<Timed>, k: VoterKey) {
    calls == []
    || (var front, last := calls[..|calls| - 1], calls[|calls| - 1];
        Untouched(st, params, front, k) && !Touches(Run(st, params, front), params, last.call, last.at, k))
  }

  /** Tokens are drawn at random; a drawn token is taken not to be drawn again. */
  predicate Draws(call: Call, token: string) { call.CallIssue? && call.token == token }

  predicate NeverDraws(calls: seq<Timed>, token: string) {
    forall i :: 0 <= i < |calls| ==> !Draws(calls[i].call, token)
  }

  /** At most this voter holds the token. */
  ghost predicate OnlyHolder(st: Store, k: VoterKey, token: string) {
    forall j :: Holds(st, j, token) ==> j == k
  }

  /** What one call leaves of a voter's row and of a token that it does not draw. */
  ghost predicate Leaves(st: Store, st': Store, touched: bool, k: VoterKey, token: string) {
    && (forall j :: Holds(st', j, token) ==> Holds(st, j, token))
    && (touched ==> !Holds(st', k, token))
    && (!touched && k in st.voters ==> k in st'.voters && st'.voters[k] == st.voters[k])
  }

  lemma IssueLeaves(st: Store, params: BlindRsa.PublicParams, k': VoterKey, eligible: bool, other: string, commitment: string,
                    now: int, k: VoterKey, token: string)
    requires other != token
    ensures Leaves(st, IssueBooth(st, k', eligible, other, commitment, now).0,
                   Touches(st, params, CallIssue(k', eligible, other, commitment), now, k), k, token)
  {
  }

  lemma RecordLeaves(st: Store, k': VoterKey, inst: string, choices: seq<Choice>, now: int, k: VoterKey, token: string)
    ensures Leaves(st, Recorded(st, k', inst, choices, now), k' == k, k, token)
  {
  }

  lemma CastLeaves(st: Store, params: BlindRsa.PublicParams, k': VoterKey, eligible: bool, choices: seq<Choice>, now: int,
                   k: VoterKey, token: string)
    ensures Leaves(st, CastVote(st, k', eligible, choices, now).0, Touches(st, params, CallCast(k', eligible, choices), now, k), k, token)
  {
    if CastVote(st, k', eligible, choices, now).1 == Done {
      RecordLeaves(Upserted(st, k'), k', st.elections[k'.electionId].institutionId, choices, now, k, token);
    }
  }

  lemma BoothLeaves(st: Store, params: BlindRsa.PublicParams, id: string, used: string, signature: Credential,
                    endorsement: string, choices: seq<Choice>, now: int, k: VoterKey, token: string)
    requires Inv(st)
    ensures Leaves(st, CastBooth(st, params, id, used, signature, endorsement, choices, now).0,
                   Touches(st, params, CallBooth(id, used, signature, endorsement, choices), now, k), k, token)
  {
    if CastBooth(st, params, id, used, signature, endorsement, choices, now).1 == Done {
      var h := Holder(st, used);
      BoothVoteIsHolders(st, params, id, used, signature, endorsement, choices, now, h);
      RecordLeaves(st, h, st.elections[id].institutionId, choices, now, k, token);
    }
  }

  lemma StepLeaves(st: Store, params: BlindRsa.PublicParams, call: Call, now: int, k: VoterKey, token: string)
    requires Inv(st) && !Draws(call, token)
    ensures Leaves(st, Step(st, params, call, now).0, Touches(st, params, call, now, k), k, token)
  {
    match call
    case CallIssue(k', eligible, other, commitment) => IssueLeaves(st, params, k', eligible, other, commitment, now, k, token);
    case CallCast(k', eligible, choices) => CastLeaves(st, params, k', eligible, choices, now, k, token);
    case CallBooth(id, used, signature, endorsement, choices) =>
      BoothLeaves(st, params, id, used, signature, endorsement, choices, now, k, token);
    case _ => assert Step(st, params, call, now).0.voters == st.voters;
  }

  /** Over a run the row stays as it was issued, or the token is dead for good. */
  lemma {:induction false} RunLeaves(st: Store, params: BlindRsa.PublicParams, calls: seq<Timed>, k: VoterKey, token: string)
    requires Inv(st) && k in st.voters && OnlyHolder(st, k, token) && NeverDraws(calls, token)
    ensures var after := Run(st, params, calls);
            && Inv(after) && OnlyHolder(after, k, token) && k in after.voters
            && if Untouched(st, params, calls, k) then after.voters[k] == st.voters[k] else !Holds(after, k, token)
  {
    if calls != [] {
      var front, last := calls[..|calls| - 1], calls[|calls| - 1];
      RunLeaves(st, params, front, k, token);
      StepLeaves(Run(st, params, front), params, last.call, last.at, k, token);
      RunInv(st, params, calls);
    }
  }

  lemma IssuedRow(st: Store, k: VoterKey, token: string, commitment: string, now: int)
    requires IssueBooth(st, k, true, token, commitment, now).1 == Done
    ensures k.electionId in st.elections && IsVotingPhase(st.elections[k.electionId], now)
    ensures var issued, e := IssueBooth(st, k, true, token, commitment, now).0, st.elections[k.electionId];
            && issued.elections == st.elections && k in issued.voters && Holds(issued, k, token)
            && issued.voters[k] == Voter(false, Some(token), Some(Credential(e.institutionId, k.electionId, token)),
                                         Some(e.votingClose), Some(commitment))
  {
  }

  /** With the row as issued only the phase, the endorsement and the choices are left to check. */
  lemma BoothAccepts(st: Store, params: BlindRsa.PublicParams, k: VoterKey, token: string, commitment: string,
                     endorsement: string, choices: seq<Choice>, now: int)
    requires Holds(st, k, token) && k.electionId in st.elections
    requires var e := st.elections[k.electionId];
             st.voters[k] == Voter(false, Some(token), Some(Credential(e.institutionId, k.electionId, token)),
                                   Some(e.votingClose), Some(commitment))
    ensures CastBoothAs(st, params, k, k.electionId, token,
                        Credential(st.elections[k.electionId].institutionId, k.electionId, token),
                        endorsement, choices, now).1 == Done
            <==> && IsVotingPhase(st.elections[k.electionId], now) && BlindRsa.Verifies(commitment, endorsement, params)
                 && BallotFault(st, k.electionId, choices, |choices|).None?
  {
  }

  /** A booth credential is honoured, with its own signature, exactly when its voter has since
      neither been issued another nor voted, the election is still open for voting and not
      past its close, the endorsement verifies, and the choices stand. */
  lemma IssuedCredentialWorks(st: Store, params: BlindRsa.PublicParams, k: VoterKey, token: string, commitment: string,
                              now: int, calls: seq<Timed>, endorsement: string, choices: seq<Choice>, later: int)
    requires Inv(st) && IssueBooth(st, k, true, token, commitment, now).1 == Done
    requires NeverDraws(calls, token) && now <= later
    ensures var issued := IssueBooth(st, k, true, token, commitment, now).0;
            var after, id := Run(issued, params, calls), k.electionId;
            && id in st.elections && id in after.elections
            && (CastBooth(after, params, id, token, Credential(st.elections[id].institutionId, id, token),
                          endorsement, choices, later).1 == Done
                <==> && Untouched(issued, params, calls, k)
                     && after.elections[id].status == VotingOpen && later <= st.elections[id].votingClose
                     && BlindRsa.Verifies(commitment, endorsement, params)
                     && BallotFault(after, id, choices, |choices|).None?)
  {
    var issued, id := IssueBooth(st, k, true, token, commitment, now).0, k.electionId;
    IssuedRow(st, k, token, commitment, now);
    InvIssue(st, k, true, token, commitment, now);
    assert OnlyHolder(issued, k, token);
    RunLeaves(issued, params, calls, k, token);
    RunInv(issued, params, calls);
    var after := Run(issued, params, calls);
    assert SameElection(issued.elections[id], after.elections[id]);
    if Untouched(issued, params, calls, k) {
      assert Holds(after, k, token) && Holder(after, token) == k;
      BoothAccepts(after, params, k, token, commitment, endorsement, choices, later);
    }
  }

  /** With a key that fits the field, the endorsement that blinding, signing and unblinding give
      a readable commitment is honoured in the booth exactly for commitments below the modulus,
      under the remaining conditions. */
  lemma EndorsedCredentialWorks(st: Store, params: BlindRsa.PublicParams, n: nat, e: nat, d: nat, p: nat, q: nat,
                                k: VoterKey, token: string, commitment: string, now: int, calls: seq<Timed>,
                                random: nat, endorsement: string, choices: seq<Choice>, later: int)
    requires Inv(st) && IssueBooth(st, k, true, token, commitment, now).1 == Done
    requires NeverDraws(calls, token) && now <= later
    requires BlindRsa.Published(params, n, e) && KeyPair(n, e, d, p, q) && 1 < n <= BlindRsa.FieldCapacity()
    requires BufferToBigInt(commitment).Some? && Coprime(BlindRsa.BlindingFactor(random, n), n)
    requires BufferToBigInt(endorsement)
             == Some(BlindRsa.Endorsement(BufferToBigInt(commitment).value, BlindRsa.BlindingFactor(random, n), n, e, d))
    ensures var issued := IssueBooth(st, k, true, token, commitment, now).0;
            var after, id := Run(issued, params, calls), k.electionId;
            && id in st.elections && id in after.elections
            && (CastBooth(after, params, id, token, Credential(st.elections[id].institutionId, id, token),
                          endorsement, choices, later).1 == Done
                <==> && Untouched(issued, params, calls, k)
                     && after.elections[id].status == VotingOpen && later <= st.elections[id].votingClose
                     && BufferToBigInt(commitment).value < n
                     && BallotFault(after, id, choices, |choices|).None?)
  {
    IssuedCredentialWorks(st, params, k, token, commitment, now, calls, endorsement, choices, later);
    EndorsementVerifies(params, n, e, d, p, q, commitment, random, endorsement);
  }

  lemma EndorsementVerifies(params: BlindRsa.PublicParams, n: nat, e: nat, d: nat, p: nat, q: nat,
                            commitment: string, random: nat, endorsement: string)
    requires BlindRsa.Published(params, n, e) && KeyPair(n, e, d, p, q) && 1 < n <= BlindRsa.FieldCapacity()
    requires BufferToBigInt(commitment).Some? && Coprime(BlindRsa.BlindingFactor(random, n), n)
    requires BufferToBigInt(endorsement)
             == Some(BlindRsa.Endorsement(BufferToBigInt(commitment).value, BlindRsa.BlindingFactor(random, n), n, e, d))
    ensures BlindRsa.Verifies(commitment, endorsement, params) <==> BufferToBigInt(commitment).value < n
  {
    var m := BufferToBigInt(commitment).value;
    BlindRsa.EndorsementFits(m, BlindRsa.BlindingFactor(random, n), n, e, d, p, q);
    BlindRsa.SignatureOpens(m, e, d, n, p, q);
    if m < n { ModSmall(m, n); }
  }
}
