# Verified model of the UniCore core

A Dafny model of six parts of the platform, with proofs about every input, every run or every
reachable state:

- **Timetabling.** The slot grid, the backtracking search with its shared `placed` and `solutions`,
  the three orderings, deduplication, scoring and ranking, the separate validator, and the part of
  the semester call that derives conflict groups from enrolments. The search is characterised
  exactly: the options are distinct feasible timetables, as many as asked for or as exist, and what
  is feasible is said of the input alone (`TimetableLegal`), as is what a score is worth
  (`TimetableMerit`).
- **Blind RSA.** Square-and-multiply, the extended Euclid inverse, the fixed-width byte codec and
  the blind, sign, unblind, verify round trip. The identity `x^(ed) = x (mod pq)` is derived from
  two primes (`NumberTheory`), after the primitives of RFC 8017, sections 4.1, 4.2, 5.2.1 and 5.2.2.
- **Elections.** Booth issue, direct and booth casting, date-driven phases, certification and
  publication as a state machine.
- **Settings.** The JSON settings tree with path get and set, patch validation and merge, and the
  entity, institution, platform cascade.
- **Sessions, billing, backfill.** Small stores whose safety is a property of every run: token
  rotation and session versions, dispute and lock lifecycles, invoice amounts, posting windows.
- **Redirects.** The web middleware as a step from a session and a path to an outcome.

Each service call is one atomic step; this matters in particular for voting, where the check of
`hasVoted` comes before the transaction. Services that change stored rows are classes whose methods
are tied to step functions; what holds over runs is proved of the step functions. Which calls are
taken and what they write is stated once more without those functions, over the stored rows
(`ElectionCalls`, `SessionCalls`, `BillingCalls`, `SettingsCascade`, `Landing`). `dafny verify
dfyconfig.toml` checks the whole project.

## What the code does that a reader may not expect

- The semester call compares students only between sections it schedules. By default it leaves
  scheduled sections where they are, and then a new section may be put on top of one that shares
  its students (`DefaultCallOverlaps`); `NewSectionExact` says when it cannot.
- When scheduled sections are scheduled again (`onlyUnscheduled` false), the new place of a section
  is invisible to the group check behind its old one, so it can meet a section with common students
  (`FullCallOverlaps`); `PairSafeExactly` says for which pairs. A plan with such a section never
  passes the validator (`OptionValid`); `SemesterFresh` says when there is none.
- With a day listed twice the search can return fewer options than exist: `GridExact`.
- A grid that names its own days keeps the days the registrar excluded, and opening hours wider
  than 8 to 18 count at either end only if the constraints widen them too (`MergedSlotsExact`).
- The faculty check asks only for overlap with an availability window, not containment:
  `AvailableOutside`.
- The random bytes of the blinding factor are written into a copy that is thrown away, so the factor
  is always 1 and the authority signs the commitment in the clear (`ConstantFactor`). The round trip
  still verifies. Even 32 drawn bytes would not hide commitments under usual keys (`HidingExact`).
- An election past its voting window that never left DRAFT or NOMINATIONS_OPEN stays there for good:
  `ClosesExactly`.
- A stored null is a value: it hides what the tiers below have (`CascadeExact`).
- An accepted entity patch can store an empty object under an institution-only key
  (`EmptyObjectEscapes`), and an empty top-level key is validated as another path than the one it
  is written to (`EmptyKeyEscapes`). `PatchFrame` says exactly which accepted patches stay near
  overridable keys.
- A key too large for the 256-byte field is accepted, but then some endorsements do not verify:
  `RoundTripExact`.
- Logging out does not end a grace period: a refresh token used less than a minute before still
  opens a session (`LogoutWithinGrace`). A new session version does end it (`BumpEndsSessions`).
  Without Redis a restart forgets every revocation (`RestartForgets`).
- Finalizing a draft by hand is the one way to lock an invoice in dispute
  (`OnlyFinalizeOverridesDisputes`). A lock does not stop a day of the month from being counted
  late, so a later roll-up can rise unless all days had been counted (`LockFreezesMonth`).
- The idempotence promised for retroactive invoices lasts while fewer than a hundred retroactive
  invoices are newer (`RepeatExact`, `RunBillsOnce`).
- Approving a backfill retires a wider overlapping window as a whole, so days outside the new one
  are lost (`CoverageKept`). A request is under review from the start, so it can never be cancelled
  (`RunSafe`). A workflow that completes overturns an office rejection (`RejectionOverturned`), and
  one that is rejected leaves the window of an approved request active (`ApprovalKept`).
- Publishing looks at no earlier status. It ends voting for good (`TallyFrozen`).
- `modPow` with exponent 0 gives 1 even for modulus 1 (`Residue`, used by `ModPow`).

## Model

| member | source | states |
|---|---|---|
| BlindRsa.ModPow | packages/utils/src/election-blind-rsa.ts:18-28 | the loop computes base^exp mod n, and fails exactly for modulus 0 |
| BlindRsa.ModInverse | packages/utils/src/election-blind-rsa.ts:30-40 | answers exactly when a is coprime to the modulus, with the inverse in range; terminates by the Bézout and balance invariants |
| BlindRsa.InverseUnique | packages/utils/src/election-blind-rsa.ts:30-40 | the inverse in range is the only one |
| NumberTheory.GcdOneIffCoprime | packages/utils/src/election-blind-rsa.ts:38 | the error condition gcd = 1 is coprimality |
| HexCodec.BufferValue | packages/utils/src/election-blind-rsa.ts:9-16 | the buffer has the given length and the value mod 256^length |
| HexCodec.FieldRoundTrip | packages/utils/src/election-blind-rsa.ts:5-16 | decoding an encoded value returns it exactly when it fits the field |
| HexCodec.HexReads | packages/utils/src/election-blind-rsa.ts:5-7 | text reads exactly if it is made of hex digits, empty text as zero |
| HexCodec.CaseFree | packages/utils/src/election-blind-rsa.ts:5-7 | capitals read like small letters |
| BlindRsa.BlindCommitment | packages/utils/src/election-blind-rsa.ts:56-69 | blinds with r^e for the normalised factor |
| BlindRsa.SignBlindedCommitment | apps/api/src/elections/election-blind-rsa.util.ts:96-102 | raises the blinded value to d in the signer's own codec |
| BlindRsa.UnblindSignature | packages/utils/src/election-blind-rsa.ts:71-81 | multiplies by the inverse of the factor, or fails when there is none |
| BlindRsa.VerifyBlindRsaSignature | packages/utils/src/election-blind-rsa.ts:83-95 | decides `Verifies` |
| NumberTheory.RsaIdentity | packages/utils/src/election-blind-rsa.ts:56-95 | x^(ed) = x mod pq for every x and every matching two-prime key |
| NumberTheory.Fermat | packages/utils/src/election-blind-rsa.ts:56-95 | a^p = a mod p, on which the identity rests |
| BlindRsa.UnblindedValue | packages/utils/src/election-blind-rsa.ts:71-81 | unblinding a signed blinded m gives m^d mod n |
| BlindRsa.SignatureOpens | packages/utils/src/election-blind-rsa.ts:83-95 | (m^d)^e = m mod n |
| BlindRsa.FinalizeBlindEndorsement | packages/utils/src/election-blind-rsa.ts:56-95 | the whole round trip for keys of any size: succeeds exactly for a readable commitment and an invertible factor; with a matching key that fits the field it yields m^d mod n, which verifies exactly for m below n |
| BlindRsa.RoundTripExact | packages/utils/src/election-blind-rsa.ts:56-95 | every commitment below the modulus survives every invertible factor exactly for keys that fit the 256-byte field |
| BlindRsa.ConstantFactor | packages/utils/src/election-blind-rsa.ts:42-69 | as written the factor is always 1, so the authority is shown the commitment, and two views agree exactly for commitments equal modulo n |
| BlindRsa.HidingExact | packages/utils/src/election-blind-rsa.ts:42-69 | were the 32 bytes drawn, every view of an invertible commitment would fit every other one, for every matching key, exactly up to moduli of 256^32 + 1 |
| BlindRsa.Unlinkable | packages/utils/src/election-blind-rsa.ts:56-69 | some invertible factor, of all below the modulus, gives another commitment the same blinded value |
| Timetable.BuildSlotGrid | apps/api/src/ai/timetabling-engine.util.ts:77-89 | the loops produce the specified grid |
| Timetable.GridShape | apps/api/src/ai/timetabling-engine.util.ts:77-89 | every slot has the set length inside the day, and distinct days give distinct starts |
| TimetableSearch.Search.Backtrack | apps/api/src/ai/timetabling-engine.util.ts:214-271 | leaves `placed` as it was and appends the feasible extensions, cut at the cap |
| TimetableTheory.ChoicesExact | apps/api/src/ai/timetabling-engine.util.ts:231-251 | the candidates tried are exactly the large enough rooms with usable slots |
| TimetableTheory.ExtensionsExact | apps/api/src/ai/timetabling-engine.util.ts:214-271 | soundness and completeness: a list is found if and only if it is feasible |
| TimetableTheory.ExtensionsDistinct | apps/api/src/ai/timetabling-engine.util.ts:214-271 | nothing is found twice |
| TimetableTheory.StepAdmissible | apps/api/src/ai/timetabling-engine.util.ts:124-151 | one step of the checks splits into fixed placements and earlier choices, despite looking only at a section's first placement |
| TimetableTheory.TablesFoundExact | apps/api/src/ai/timetabling-engine.util.ts:214-271 | as timetables, the search finds all feasible ones and no other |
| TimetableTheory.OrderIndependent | apps/api/src/ai/timetabling-engine.util.ts:287-306 | every ordering of the sections finds the same timetables |
| TimetableEngine.OrderingsPermute | apps/api/src/ai/timetabling-engine.util.ts:279-291 | the three orderings list the same sections |
| TimetableEngine.Deduplicate | apps/api/src/ai/timetabling-engine.util.ts:308-316 | keeps the first solution with each key |
| TimetableCount.DedupeExact | apps/api/src/ai/timetabling-engine.util.ts:308-316 | loses no key, invents no solution, repeats no key |
| TimetableCount.KeyDistinguishes | apps/api/src/ai/timetabling-engine.util.ts:310-314 | two solutions share a key exactly when they are the same timetable |
| TimetableCount.LaterKeysKnown | apps/api/src/ai/timetabling-engine.util.ts:293-316 | later orderings repeat what a complete first search found |
| TimetableEngine.BuildOptions | apps/api/src/ai/timetabling-engine.util.ts:318-339 | one option for each plan |
| TimetableEngine.GenerateTimetableOptions | apps/api/src/ai/timetabling-engine.util.ts:273-342 | the whole call computes `Options` |
| TimetableCount.PlansExact | apps/api/src/ai/timetabling-engine.util.ts:273-342 | exactly min(maxOptions, N) plans, feasible and pairwise different, N the number of feasible timetables, on grids without a repeated slot |
| TimetableCount.OptionsArePlans | apps/api/src/ai/timetabling-engine.util.ts:318-342 | the options are those of the plans; ranking and the final cut lose none |
| TimetableCount.OptionsExact | apps/api/src/ai/timetabling-engine.util.ts:318-342 | so their number is min(maxOptions, N) |
| TimetableLimits.GridExact | apps/api/src/ai/timetabling-engine.util.ts:273-342 | min(maxOptions, N) holds for every input on a grid exactly if no day is listed twice or no slot fits a day |
| TimetableLimits.AvailableOutside | apps/api/src/ai/timetabling-engine.util.ts:91-113 | for any stated windows: a lesson passes outside all of them exactly when some window begins or ends in its middle |
| Timetable.InTurnMinutes | apps/api/src/ai/timetabling-engine.util.ts:72-75 | two slots follow one another exactly if they have no minute in common, unless one is empty |
| TimetableLegal.MayHaveExact | apps/api/src/ai/timetabling-engine.util.ts:214-251 | the lessons tried for a section, said of the input alone: a room whose last row is large enough, a whole step into a listed day, the section's minutes, a window of the teacher's that shares a minute |
| TimetableLegal.PlanClear | apps/api/src/ai/timetabling-engine.util.ts:124-134 | in every plan of any input no minute finds two lessons in one room or one teacher in two, unless both were fixed before |
| TimetableLegal.LegalExact | apps/api/src/ai/timetabling-engine.util.ts:91-151 | the feasible timetables are those legal in days, minutes, rooms, teachers and groups, with no check of the engine named |
| TimetableLegal.OptionsLegal | apps/api/src/ai/timetabling-engine.util.ts:273-342 | min(maxOptions, N) options, three if nothing is asked, N the number of legal timetables; the plans are legal and pairwise different |
| TimetableLegal.OptionShows | apps/api/src/ai/timetabling-engine.util.ts:318-339 | an option has one row for each section, with its room, day, times and teacher |
| TimetableMerit.ScoreExact | apps/api/src/ai/timetabling-engine.util.ts:153-189 | forty points for the mean filled part of the rooms, five for each of ten points less the variance of teaching loads, fifteen for the part on preferred days, two for each lesson |
| TimetableMerit.ScoreMissing | apps/api/src/ai/timetabling-engine.util.ts:153-189 | no score exactly if a room without seats holds nobody; fifty for nothing placed |
| TimetableMerit.RoundedNear | apps/api/src/ai/timetabling-engine.util.ts:323 | the printed score has one decimal and is off by at most half of one |
| TimetableMerit.OrderingsSorted | apps/api/src/ai/timetabling-engine.util.ts:279-291 | the three orders: by weight descending, its mirror image, by course code |
| TimetableMerit.TiesKeepOrder | apps/api/src/ai/timetabling-engine.util.ts:341 | options of one score stay in the order in which they were found |
| TimetableCount.OptionsRanked | apps/api/src/ai/timetabling-engine.util.ts:341 | with positive capacities the scores are numbers and descend |
| StableSort.SortPermutes | apps/api/src/ai/timetabling-engine.util.ts:279-282 | ranking loses and repeats nothing |
| StableSort.SortOrdered | apps/api/src/ai/timetabling-engine.util.ts:341 | the sort orders by any consistent comparator |
| TimetableScore.ScoreSolution | apps/api/src/ai/timetabling-engine.util.ts:153-189 | the loop computes the score and its metrics |
| TimetableScore.CountLoads | apps/api/src/ai/timetabling-engine.util.ts:163-169 | the map holds each instructor's number of placements |
| TimetableScore.ScoreBounds | apps/api/src/ai/timetabling-engine.util.ts:153-189 | between 2n and 2n + 105 with positive capacities |
| TimeLabels.LabelRoundTrip | apps/api/src/ai/timetabling-engine.util.ts:66-70 | reading a printed time back gives the minutes exactly for 0 to 5999 |
| TimeLabels.ClockTimeReads | apps/api/src/ai/timetabling-engine.util.ts:390-394 | a clock time reads as its minutes |
| TimeLabels.OtherwiseMidnight | apps/api/src/ai/timetabling-engine.util.ts:390-394 | any other text reads as midnight |
| TimetableCheck.ValidateTimetableAssignments | apps/api/src/ai/timetabling-engine.util.ts:349-388 | the nested loops list the specified violations |
| TimetableCheck.ViolationsExact | apps/api/src/ai/timetabling-engine.util.ts:349-388 | no violation if and only if rooms, instructors and capacities are clean |
| TimetableCheck.ViolationsListed | apps/api/src/ai/timetabling-engine.util.ts:349-388 | which violations are listed: those of a room too small, or of a room or a teacher needed twice at once on that day |
| TimetableCheck.OptionValid | apps/api/src/ai/timetabling-engine.util.ts:318-388 | an option passes the validator if and only if the fixed placements are clean and none belongs to a section scheduled again |
| TimetableStudents.BuildOverlapGroups | apps/api/src/ai/timetabling.service.ts:165-179 | two sections share a group exactly when some two rosters with their ids share a student |
| TimetableStudents.GroupsExact | apps/api/src/ai/timetabling.service.ts:165-179 | the same, of the specification |
| TimetableStudents.SemesterFresh | apps/api/src/ai/timetabling.service.ts:60-110 | the engine is fed fresh ids exactly when scheduled sections are skipped or there are none |
| TimetableStudents.StudentsApart | apps/api/src/ai/timetabling.service.ts:43-123 | in no plan a student of both is due in two places, if neither section has a place already or one teacher gives both |
| TimetableConstraints.SchoolHours | apps/api/src/ai/timetable-constraints.util.ts:76-105 | the slots of the grids a semester call can pass are exactly the hours within MON to FRI, 8 to 18 |
| TimetableConstraints.MergedSlotsExact | apps/api/src/ai/timetable-constraints.util.ts:76-105 | for any base grid: the slots lie within the hours of both, on the base's own days or else on those not excluded |
| TimetableConstraints.SameHour | apps/api/src/ai/timetabling-engine.util.ts:77-89 | two hours of one grid that overlap are the same |
| TimetableStale.FirstFixed | apps/api/src/ai/timetabling-engine.util.ts:136-151 | the group check sees only the first fixed slot of a section |
| TimetableStale.MeetingNeeds | apps/api/src/ai/timetabling.service.ts:43-123 | two sections to be scheduled, with a common student, meet in a plan only if not kept apart and only at an hour of the grid that both teachers and both first fixed slots leave free |
| TimetableStale.PairOnGrid | apps/api/src/ai/timetabling.service.ts:43-123 | on each grid, with these two the only ones to schedule, they are apart in every plan exactly if kept apart or no such hour is left |
| TimetableStale.StudentsSafe | apps/api/src/ai/timetabling.service.ts:43-123 | in any semester they are apart in every plan on every grid the call can pass, if kept apart or no such school hour is left |
| TimetableStale.PairSafeExactly | apps/api/src/ai/timetabling.service.ts:43-123 | with these two the only ones to schedule that condition is exact |
| TimetableFixed.ClearOnGrid | apps/api/src/ai/timetabling.service.ts:82-102 | on each grid, a section alone to schedule keeps clear of one that stays exactly if every hour its teacher has free does |
| TimetableFixed.NewSectionSafe | apps/api/src/ai/timetabling.service.ts:82-102 | in any semester a new section keeps clear of one that stays if every school hour its teacher has free does |
| TimetableFixed.NewSectionExact | apps/api/src/ai/timetabling.service.ts:82-102 | exact for a section alone to schedule among any number that stay |
| TimetableFixed.NewSectionAgainstOne | apps/api/src/ai/timetabling.service.ts:82-102 | if its teacher has no other fixed lesson: exactly when the teacher has to be in both or the other lies outside school hours |
| TimetableFixed.NoPlanAtAll | apps/api/src/ai/timetabling.service.ts:43-123 | one section without a free school hour leaves the semester without any plan |
| TimetableFixed.SafeForWantOfPlans | apps/api/src/ai/timetabling.service.ts:43-123 | such a semester, in which a pair is safe that is not safe without it |
| TimetableFixed.DefaultCallOverlaps | apps/api/src/ai/ai-timetabling.controller.ts:45-65 | the default call on the default grid puts a new section on top of one with the same student |
| TimetableFixed.FullCallOverlaps | apps/api/src/ai/timetabling.service.ts:82-102 | a call that schedules everything again puts both at one hour of the default grid |
| TimetableStudents.PlanFeasible | apps/api/src/ai/timetabling-engine.util.ts:273-342 | any plan over fresh, distinct ids is feasible, whatever the grid |
| ElectionsService.Service.RecordBallotChoices | apps/api/src/elections/elections.service.ts:463-535 | all or nothing: one vote for each choice, the voter marked, the credential burnt |
| ElectionsService.Service.BuildResults | apps/api/src/elections/elections.service.ts:549-568 | every row shows its candidate's own votes, the rows of a position total its tally and no more than the people who voted, and they descend |
| ElectionsService.RowIsTally | apps/api/src/elections/elections.service.ts:549-568 | a grouped row is its candidate's tally, so no candidate has two rows |
| ElectionsService.GroupRowsTotal | apps/api/src/elections/elections.service.ts:549-568 | grouping loses no vote and invents none |
| ElectionsService.Service.SyncElectionPhases | apps/api/src/elections/election-scheduler.service.ts:18-62 | every election of the batch is advanced, no other changes |
| ElectionsService.AdvancedIsSync | apps/api/src/elections/election-scheduler.service.ts:33-40 | the job moves the status as a sync does |
| ElectionSafety.RunInv | apps/api/src/elections/elections.service.ts:287-535 | every run keeps: a live token means not yet voted, tokens unique, one vote for each voter and position, and marks are never reset |
| ElectionSafety.BallotCounts | apps/api/src/elections/elections.service.ts:376-535 | an accepted ballot adds one vote for each of its choices, none elsewhere, none in another election |
| ElectionSafety.BoothBallotCounts | apps/api/src/elections/elections.service.ts:429-535 | the same of a booth ballot |
| ElectionsService.ResultsBounded | apps/api/src/elections/elections.service.ts:463-568 | after every run the rows of a position total no more votes than people who voted |
| ElectionSafety.TallyWithinVoted | apps/api/src/elections/elections.service.ts:463-568 | the same of the tally in every state that keeps the invariant |
| ElectionSafety.BoothVoteIsHolders | apps/api/src/elections/elections.service.ts:429-461 | a credential serves its own voter in its own election, once |
| BoothCredentials.IssuedCredentialWorks | apps/api/src/elections/elections.service.ts:287-461 | after any run since its issue a credential is honoured exactly if its voter was not issued another and did not vote, voting is open, the endorsement verifies and the choices stand |
| BoothCredentials.EndorsedCredentialWorks | apps/api/src/elections/elections.service.ts:287-461 | with the endorsement that the round trip yields, exactly for commitments below the modulus |
| BoothCredentials.RunLeaves | apps/api/src/elections/elections.service.ts:287-535 | until touched the voter's row stays as issued, from then on the token is dead |
| ElectionSafety.RunForward | apps/api/src/elections/election-lifecycle.util.ts:4-39 | with a clock that never goes back no status goes back |
| ElectionSafety.SyncIdempotent | apps/api/src/elections/election-lifecycle.util.ts:4-39 | syncing twice at one instant is syncing once |
| ElectionSafety.ClosesExactly | apps/api/src/elections/election-lifecycle.util.ts:26-36 | voting closes by itself exactly for elections that had closed nominations |
| ElectionCalls.SyncLeaves | apps/api/src/elections/election-lifecycle.util.ts:4-39 | which status a sync leaves, for any four dates, any status and any instant |
| ElectionCalls.VotersCanVote | apps/api/src/elections/elections.service.ts:376-535 | once an undecided election is synced within its voting window, an eligible voter who has not voted has a fault-free ballot taken until it closes, whatever is called except publishing it |
| ElectionCalls.BallotTaken | apps/api/src/elections/elections.service.ts:376-535 | a ballot is taken exactly in an open window, from an eligible voter who has not voted, for approved candidates of that election and position, one for each position |
| ElectionCalls.BallotRefused | apps/api/src/elections/elections.service.ts:376-390 | why a ballot is refused, in order of precedence, and that nobody counts as having voted by it |
| ElectionCalls.FirstFault | apps/api/src/elections/elections.service.ts:463-495 | the first choice that spoils a ballot gives the reason |
| ElectionCalls.BoothBallotTaken | apps/api/src/elections/elections.service.ts:429-535 | the same in the booth, from the holder of an unexpired credential with a good endorsement |
| ElectionCalls.CredentialIssued | apps/api/src/elections/elections.service.ts:287-342 | a credential is issued exactly to such a voter, if nobody else holds the token or the commitment |
| ElectionCalls.NominationTaken | apps/api/src/elections/elections.service.ts:198-260 | nominations are taken exactly while open, and a candidate stands only once approved |
| ElectionCalls.CertificationTaken | apps/api/src/elections/elections.service.ts:611-647 | an election goes to certification exactly after voting has closed, once |
| ElectionCalls.PublicationTaken | apps/api/src/elections/elections.service.ts:651-672 | publishing works on any election and dates the results, from either caller |
| ElectionSafety.TallyFrozen | apps/api/src/elections/election-lifecycle.util.ts:52-61 | once voting is over no call changes the votes |
| SettingsTree.GetNestedValue | apps/api/src/customization/customization-settings.util.ts:38-49 | the loop walks the path |
| SettingsTree.SplitJoin | apps/api/src/customization/customization-settings.util.ts:42-43 | splitting joined dot-free segments returns them |
| SettingsTree.SetNestedIsSetPath | apps/api/src/customization/customization-settings.util.ts:51-69 | the recursion on the dotted path sets along its segments |
| SettingsTree.GetOfSet | apps/api/src/customization/customization-settings.util.ts:38-69 | reading what was written |
| SettingsTree.SetOfSet | apps/api/src/customization/customization-settings.util.ts:51-69 | the last write wins |
| SettingsTree.SetOfGet | apps/api/src/customization/customization-settings.util.ts:38-69 | writing what is there changes nothing |
| SettingsTree.GetElsewhere | apps/api/src/customization/customization-settings.util.ts:51-69 | paths that are no prefix of each other do not interfere, even through scalars |
| SettingsTree.NestedGetOfSet | apps/api/src/customization/customization-settings.util.ts:38-69 | the dotted round trip holds exactly for non-empty paths |
| Customization.FlattenPatchKeys | apps/api/src/customization/customization-settings.util.ts:8-20 | the keys are those of the leaves |
| Customization.MergeSettingsPatch | apps/api/src/customization/customization-settings.util.ts:71-98 | the loop merges entry after entry |
| Customization.EntitySettings.PatchEntitySettings | apps/api/src/customization/customization.service.ts:179-211 | stores the merge exactly when every flattened key may be overridden and the entity exists, else nothing |
| Customization.PatchFrame | apps/api/src/customization/customization-settings.util.ts:71-98 | whatever was stored, an accepted patch changes nothing except at, below or above an overridable key, exactly if it has no empty top-level key and no empty object elsewhere |
| Customization.EmptyObjectEscapes | apps/api/src/customization/customization-settings.util.ts:8-20 | an accepted patch that writes under an institution-only key |
| Customization.EmptyKeyEscapes | apps/api/src/customization/customization-settings.util.ts:8-20 | an accepted patch that is written elsewhere than where it was validated |
| Customization.EntityValueTakesEffect | apps/api/src/customization/customization-settings.util.ts:126-160 | a value an entity may set is accepted and becomes effective |
| Customization.EffectiveFrame | apps/api/src/customization/customization-settings.util.ts:126-148 | no patch reaches the effective value of an institution-only key, and no accepted patch of that kind one away from the overridable keys |
| SettingsCascade.EntityMayExact | apps/api/src/customization/customization-settings.util.ts:150-159 | which keys an entity may set: the listed ones and those below a plain one, unless kept for the institution |
| SettingsCascade.CascadeExact | apps/api/src/customization/customization-settings.util.ts:126-148 | which tier answers, exactly: the entity, at the key or its old one, unless the key is reserved; else the institution; else the default or null |
| SettingsCascade.OldLogoCounts | apps/api/src/customization/customization-settings.util.ts:100-124 | a logo kept under the old key is the effective one |
| SettingsCascade.MergedReads | apps/api/src/customization/customization-settings.util.ts:71-98 | merging an object replaces the fields it names and keeps the others |
| SettingsCascade.PatchKeepsRest | apps/api/src/customization/customization-settings.util.ts:71-98 | whatever was stored stays readable away from the keys of the patch |
| Sessions.AuthService.PruneRefreshRotationGrace | apps/api/src/auth/auth.service.ts:67-73 | removes exactly the expired entries |
| SessionSafety.RefreshExact | apps/api/src/auth/auth.service.ts:487-540 | accepted if and only if genuine, current, and never revoked or last used under a minute ago, as far as the process sees: everything with Redis, its own deeds since its start without |
| SessionSafety.RefreshOverRuns | apps/api/src/auth/auth.service.ts:487-555 | the same after every run from an empty store, on every process, with restarts and with or without Redis |
| SessionCalls.RefreshTaken | apps/api/src/auth/auth.service.ts:487-540 | the same with the times written out: a token lives a day and is usable for a minute after a use |
| SessionCalls.RefreshDenied | apps/api/src/auth/auth.service.ts:487-540 | why a refresh is denied, in order of precedence |
| SessionCalls.LogTells | apps/api/src/auth/auth.service.ts:487-744 | what counts as a revocation: a refresh, a logout or a switch that was taken, and nothing else |
| SessionCalls.SignInTaken | apps/api/src/auth/auth.service.ts:255-334 | exactly active users sign in, at their session version |
| SessionCalls.SwitchTaken | apps/api/src/auth/auth.service.ts:709-744 | a switch raises the session version, and opens a session exactly for active users |
| SessionCalls.AccessTaken | apps/api/src/auth/auth.service.ts:584-607 | which access tokens are good |
| SessionCalls.SwitchBlocks | apps/api/src/auth/auth.service.ts:709-744 | with Redis a switch blocks the access token for a quarter of an hour |
| SessionSafety.RestartForgets | apps/api/src/auth/auth.service.ts:487-555 | without Redis a restarted process takes back every token that is otherwise good |
| SessionSafety.LogoutForgotten | apps/api/src/auth/auth.service.ts:542-555 | a run in which a logged-out session is taken back after a restart |
| SessionSafety.PruneInvisible | apps/api/src/auth/auth.service.ts:67-89 | pruning never changes an answer |
| SessionSafety.StepInv | apps/api/src/auth/auth.service.ts:487-744 | every call keeps memory, Redis and tokens in step with what happened |
| SessionSafety.RunInv | apps/api/src/auth/auth.service.ts:487-744 | so does every run, and versions never fall |
| SessionSafety.BumpEndsSessions | apps/api/src/auth/auth.service.ts:584-607 | after a switch or a password reset no earlier refresh or access token of the user is ever accepted |
| SessionSafety.NewSessionWorks | apps/api/src/auth/auth.service.ts:255-334 | a session just opened is its user's, refreshes on every process, and passes the access check unless its id is blocked |
| SessionSafety.LogoutWithinGrace | apps/api/src/auth/auth.service.ts:542-555 | a logout does not end a running grace period |
| BillingService.Ledger.InitiateDispute | apps/api/src/billing/billing-dispute.service.ts:38-118 | a dispute as a step, verdict by verdict |
| BillingService.DeriveStatus | apps/api/src/billing/billing-dispute.service.ts:94-107 | the status by case |
| BillingSafety.StatusMeans | apps/api/src/billing/billing-dispute.service.ts:69-107 | accepted if none of the named students is active, rejected if all are, by hand if mixed or none named |
| BillingSafety.NextDispute | apps/api/src/billing/billing-dispute.service.ts:49-66 | a further dispute is refused exactly while the first is under review by hand |
| BillingSafety.ResolutionFinal | apps/api/src/billing/billing-dispute.service.ts:193-217 | the first resolution by hand is the last word in every run |
| BillingSafety.RunSafe | apps/api/src/billing/billing-dispute.service.ts:49-66 | after any run at most one active dispute for each invoice, none on a backfill invoice |
| BillingSafety.LockedForGood | apps/api/src/billing/billing-invoice.service.ts:264-327 | a locked invoice never changes and gains no active dispute |
| BillingSafety.FinalizedIsFinal | apps/api/src/billing/billing.repository.ts:47-61 | a finalized draft is open and locked at that instant for good |
| BillingSafety.JobLockIsFinal | apps/api/src/billing/billing-invoice.service.ts:264-327 | an invoice locked by the job is undisputed then and ever after |
| BillingCalls.LockTaken | apps/api/src/billing/billing-invoice.service.ts:264-327 | the job locks exactly a pending, undisputed invoice that is not retroactive and whose dispute window is over, with the head counts of its month; else nothing changes |
| BillingCalls.LockSkipped | apps/api/src/billing/billing-invoice.service.ts:264-302 | why the job skips an invoice, in order of precedence |
| BillingCalls.WindowKept | apps/api/src/billing/billing-invoice.service.ts:285-289 | in every run the job leaves an invoice disputable until its window is over |
| BillingCalls.DraftDisputable | apps/api/src/billing/billing-invoice.service.ts:351-463 | so a new draft can be disputed for the whole window from its making |
| BillingCalls.DisputeTaken | apps/api/src/billing/billing-dispute.service.ts:38-92 | a dispute is taken exactly on a pending, undisputed invoice with a reason of five characters and none but known students |
| BillingCalls.DisputeRefused | apps/api/src/billing/billing-dispute.service.ts:38-80 | why a dispute is refused, in order of precedence |
| Text.TrimExact | apps/api/src/billing/billing-dispute.service.ts:38-68 | trimming takes away the white space at both ends and nothing else |
| BillingCalls.DraftTaken | apps/api/src/billing/billing-invoice.service.ts:351-463 | a draft is made exactly outside a trial, with what it is |
| BillingCalls.FinalizeTaken | apps/api/src/billing/billing.repository.ts:47-61 | by hand exactly an unlocked draft is locked |
| BillingCalls.RetroactiveTaken | apps/api/src/billing/billing-invoice.service.ts:222-248 | a backfill's invoice is open, locked at once and bills the estimate |
| BillingCalls.CountsTaken | apps/api/src/billing/billing-snapshot.service.ts:239-260 | locking a range changes only the locks in it, and an amendment only an unlocked count |
| BillingSafety.OnlyFinalizeOverridesDisputes | apps/api/src/billing/billing.repository.ts:47-61 | an invoice comes to be locked in dispute exactly by finalizing a disputed draft |
| BillingSafety.CountedOnce | apps/api/src/billing/billing-snapshot.service.ts:35-62 | a day keeps its first count in every run until the platform amends that row |
| BillingService.Ledger.ComputeMonthlyBillable | apps/api/src/billing/billing-snapshot.service.ts:84-143 | rolls up the month; the watermark is the peak |
| BillingService.RollUp | apps/api/src/billing/billing-snapshot.service.ts:104-114 | the loop computes peak and sum |
| BillingSafety.WatermarkIsPeak | apps/api/src/billing/billing-snapshot.service.ts:104-114 | the rounded-up average never exceeds the peak |
| BillingService.Ledger.GenerateDraft | apps/api/src/billing/billing-invoice.service.ts:351-463 | amount, lines and the evidence with its own total agree |
| BillingService.BuildEvidence | apps/api/src/billing/billing-evidence.service.ts:58-117 | the evidence of every summary, and its total |
| BillingSafety.AmountIsPeaks | apps/api/src/billing/billing-invoice.service.ts:392-463 | the amount is the unit price times the peaks of the entities not exempt |
| BillingSafety.LockedMonth | apps/api/src/billing/billing-invoice.service.ts:306-327 | after the job's lock the month's peaks never fall while the platform unlocks nothing |
| BillingSafety.LockFreezesMonth | apps/api/src/billing/billing-invoice.service.ts:306-327 | an entity's roll-up is final in every such run exactly if its every day had been counted |
| BillingService.Ledger.GenerateRetroactiveInvoiceForBackfill | apps/api/src/billing/billing-invoice.service.ts:169-256 | the bounded look-back finds the newest matching invoice or creates one |
| BillingSafety.RepeatExact | apps/api/src/billing/billing-invoice.service.ts:178-208 | a repeat returns the first invoice exactly while fewer than a hundred are newer |
| BillingSafety.RunBillsOnce | apps/api/src/billing/billing-invoice.service.ts:169-256 | a run bills a request twice exactly if it asks for the invoice of a billed request all of whose invoices have a hundred newer ones |
| BillingSafety.BilledOnce | apps/api/src/billing/billing-invoice.service.ts:169-256 | so never while there are at most a hundred retroactive invoices |
| Backfill.BackfillService.SubmitRequest | apps/api/src/backfill/backfill-request.service.ts:92-139 | a submission as a step |
| Backfill.BackfillService.OpenWindowFor | apps/api/src/backfill/backfill-request.service.ts:238-269 | the transaction of an approval as a step |
| Backfill.RunSafe | apps/api/src/backfill/backfill-request.service.ts:92-351 | after any run active windows of a student are disjoint, at most one request is open, an approved request has exactly one window, nothing can be cancelled |
| Backfill.SubmissionHonoured | apps/api/src/backfill/backfill-request.service.ts:92-139 | what is accepted, exactly, and that a window it ever gets is the one asked for |
| Backfill.SubmissionCanBeApproved | apps/api/src/backfill/backfill-request.service.ts:226-303 | a submission can be approved until it is decided, and then covers all it asked for |
| Backfill.DecisionsTaken | apps/api/src/backfill/backfill-request.service.ts:226-330 | the office decides exactly undecided requests, the workflow exactly those whose instance runs |
| Backfill.OneWindowAt | apps/api/src/common/guards/student-record-posting.guard.ts:298-308 | the posting guard never has two windows to choose from |
| Backfill.CoveredAfter | apps/api/src/backfill/backfill-request.service.ts:239-261 | which instants are covered after an approval |
| Backfill.CoverageKept | apps/api/src/backfill/backfill-request.service.ts:239-261 | no covered instant is lost exactly when the new window engulfs all it overlaps |
| Backfill.ApprovalKept | apps/api/src/workflow-engine/workflow-completion.handler.ts:172-177 | windows belong to approved requests until, exactly, the workflow rejects an approved one |
| Backfill.RunApproved | apps/api/src/backfill/backfill-request.service.ts:226-351 | without workflow rejections the approved requests are those with a window |
| Backfill.RejectionOverturned | apps/api/src/workflow-engine/workflow-completion.handler.ts:332-364 | a completed workflow approves what the office rejected |
| BackfillBilling.OneWindowOneInvoice | apps/api/src/backfill/backfill-request.service.ts:226-303 | after any joint run with billing a billed request has one window and, up to a hundred retroactive invoices, one invoice, by whichever approval path |
| BackfillBilling.BooksOfRun | apps/api/src/workflow-engine/workflow-completion.handler.ts:324-399 | the books of a joint run are those of a run of billing |
| Redirects.PathMapsInverse | apps/web/src/middleware.ts:69-80 | the legacy and the rewrite map undo each other |
| Redirects.RoleRedirectSame | apps/web/src/middleware.ts:98-150 | a role is treated alike at a section and at its dashboard address |
| Redirects.CanonicalAgrees | apps/web/src/middleware.ts:152-196 | a section's own address only leads to its dashboard address, every other answer is the same |
| Redirects.RedirectedExactly | apps/web/src/middleware.ts:98-150 | a role is sent elsewhere exactly from the pages it may not see |
| Redirects.Settles | apps/web/src/middleware.ts:152-196 | every path settles within two redirects in every session |
| Redirects.SettlesAllowed | apps/web/src/middleware.ts:152-196 | and what is then shown is public, the password page or allowed for the role |
| Landing.LandsExactly | apps/web/src/middleware.ts:152-196 | the page every visit ends at, said of address and session: public as asked, else sign-in, terms, password page, the page if allowed, the role's home |
| Landing.GatesExactly | apps/web/src/middleware.ts:159-179 | sign-in exactly without a session, the terms exactly without acceptance, the password page for a forced change unless asked for |
| Landing.PublicExact | apps/web/src/middleware.ts:5-20 | which addresses are public |
| Landing.MaySeeExact | apps/web/src/middleware.ts:98-150 | which pages a role may see |
| Redirects.TwoRedirects | apps/web/src/middleware.ts:115-126 | two redirects are needed by a guardian who asks for administration |

The remaining methods of `ElectionsService.Service`, `Sessions.AuthService`, `BillingService.Ledger` and
`Backfill.BackfillService` have no loop; each is tied to the step function of its name, for which the rows above speak.

## Left out

- BoothCredentials.IssuedCredentialWorks: a drawn token is taken not to be drawn again in the run, as it is 256 random bits.
- TimetableStale.StudentsSafe: one direction for semesters with more than two sections to schedule, and likewise TimetableFixed.NewSectionSafe with more than one: there it also depends on whether the other sections can be placed at all (`NoPlanAtAll`), which is a colouring problem.
- StableSort.SortOrdered: `localeCompare` is a parameter, so the by-code ordering is any ordering.
- Interleavings within one service call: every call is one atomic step, including the check of `hasVoted` before the ballot's transaction.
- Tenant and campus scoping, permissions, soft deletion, audit rows, notifications and mail.
- Hashes, HMAC and JWT signatures: injective, or membership in the set of what was signed; the token type claim of refresh tokens.
- Redis calls that fail one at a time: Redis is there for a whole run or not at all, while the code swallows single failed writes and reads, after which a revocation is known to one process only.
- The two decimals of a stored invoice amount: a default unit price with more decimals is rounded by the database.
- Late head counts: a run may count any past day at any time, while in the code only a queued job for that day does.
- Random numbers, clocks and ids: arguments or counters; `BigInt` whitespace trimming of hexadecimal text.
- Free-text constraints, availability windows and stored schedules: taken as already read; a window that cannot be read is kept as such.
- The dedupe key as a joined string: kept as tuples, so ids are taken to be free of the separators.
- Floating-point rounding in scores, averages and fees: exact reals with NaN where the code divides zero by zero; the four-decimal rounding of stored averages and the two-decimal rounding of a retroactive fee, which is an argument.
- The calendar: a billed month is the pair of its first and last day; years and month numbers are not part of this model.
- Keys inherited from JavaScript's object prototype in settings trees.
- Elections' free `update`, the sign-in methods other than opening a session, institution suspension, snapshot anomaly warnings.
- The scheduler's limit of 200 elections: the batch is an argument.
- Query strings and the matcher of the middleware, which keeps a few asset paths from it altogether; the near copy of the middleware outside `src`.
- Stripe, SAML, storage, dashboards, academic and attendance records: plumbing or foreign code.
