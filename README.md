# Meeting scheduling core, modelled in Dafny

This project models the core of a meeting-scheduling service. A host creates
a meeting with candidate dates. Participants vote for the dates that suit
them. The meeting is then closed and confirmed on one date: either the single
leading date or, when dates are tied, the one the host selects. The model has
four parts:

- **The meeting service** (`MeetingService.kt`, over `Meeting.kt`). Each
  operation loads one meeting snapshot from a repository, checks the request
  against the business rules, and either saves one new snapshot or fails
  before anything is saved. The rules are pure functions over the snapshot
  (`meeting_rules.dfy`): the vote tally and tie-break (`vote_tally.dfy`) and
  the host dashboard (`host_dashboard.dfy`). The service itself is a class
  whose methods read and write a repository object holding a map
  (`meeting_service.dfy`). `topVotedDates` keeps the loops of the source.
- **The persistence reconciliation** of `MeetingAdapter.kt`
  (`meeting_adapter.dfy`). The stored meeting, participant and date rows are
  classes with mutable set fields. `updateDates`, `updateVoteDates` and
  `updateParticipants` change those sets in place, so that they match an
  incoming snapshot. `save` either updates the stored meeting or builds a
  new one.
- **Token rotation** of `AuthService.kt` (`auth_service.dfy`). An access
  token lives 30 days and a refresh token 90 days. A refresh token can be
  presented once, before it expires: it is then marked used and a new pair
  is issued. The two token repositories are classes holding maps keyed by
  token value.
- `seqs.dfy` holds generic helpers: filter, count and insertion sort.

Dates are whole day numbers. Token times are whole seconds, and a day is
86400 of them. The wall clock and the random draws (meeting ids, token
values) are parameters of the operations that use them.

## Model

| member | source | states |
|---|---|---|
| MeetingDomain.NewMeeting | domain/src/main/kotlin/com/nomoney/meeting/domain/Meeting.kt:15-26 | a meeting built with the data-class defaults has status VOTING and no finalized date, host user id or memo |
| MeetingDomain.IsVoteDatesAllowed | domain/src/main/kotlin/com/nomoney/meeting/domain/Meeting.kt:27-29 | a vote is allowed exactly when it is a subset of the candidate dates |
| MeetingDomain.AllowedVotes | domain/src/main/kotlin/com/nomoney/meeting/domain/Meeting.kt:27-29 | the empty vote and the full candidate set are always allowed; any subset of an allowed vote is allowed |
| VoteTally.VoteCount | core/src/main/kotlin/com/nomoney/meeting/service/MeetingService.kt:456-467 | a date's count is at most the number of participants; it is 0 exactly when no voted participant chose the date, and full exactly when all did |
| VoteTally.VoteCountAppend | core/src/main/kotlin/com/nomoney/meeting/service/MeetingService.kt:456-467 | the count over two lists is the sum of their counts |
| VoteTally.TopDates | core/src/main/kotlin/com/nomoney/meeting/service/MeetingService.kt:456-473 | the leading dates are a subset of the candidate dates, and exactly those no other candidate outscores |
| VoteTally.LeaderExists | core/src/main/kotlin/com/nomoney/meeting/service/MeetingService.kt:468-472 | some candidate date leads whenever there are candidate dates |
| VoteTally.TopDatesEmptyIff | core/src/main/kotlin/com/nomoney/meeting/service/MeetingService.kt:468-472 | there are no leading dates exactly when there are no candidate dates |
| VoteTally.TopDatesShareCount | core/src/main/kotlin/com/nomoney/meeting/service/MeetingService.kt:468-472 | all leading dates have the same count |
| VoteTally.NoVotesNoCount | core/src/main/kotlin/com/nomoney/meeting/service/MeetingService.kt:459-466 | when nobody has voted, every count is 0 |
| VoteTally.NoVotesAllTie | core/src/main/kotlin/com/nomoney/meeting/service/MeetingService.kt:456-473 | when nobody has voted, every candidate date leads |
| VoteTally.VoteCountOfVoted | core/src/main/kotlin/com/nomoney/meeting/service/MeetingService.kt:459-460 | dropping the participants who have not voted changes no count |
| VoteTally.TrimAll | core/src/main/kotlin/com/nomoney/meeting/service/MeetingService.kt:462-463 | every participant keeps only their votes for candidate dates, and the list keeps its length and order |
| VoteTally.VoteCountTrimmed | core/src/main/kotlin/com/nomoney/meeting/service/MeetingService.kt:462-466 | votes for dates that are not candidates change no candidate's count |
| VoteTally.TopDatesIgnoreStrayVotes | core/src/main/kotlin/com/nomoney/meeting/service/MeetingService.kt:456-473 | the leading dates ignore votes outside the candidates and the participants who have not voted |
| VoteTally.TopVotedDates | core/src/main/kotlin/com/nomoney/meeting/service/MeetingService.kt:456-473 | the method with the source's count map and loops returns exactly the leading dates of the tally |
| VoteTally.MinDate | core/src/main/kotlin/com/nomoney/meeting/service/MeetingService.kt:122 | the earliest date of a non-empty set is in the set and no later than any member |
| VoteTally.MinExists | core/src/main/kotlin/com/nomoney/meeting/service/MeetingService.kt:122 | a non-empty set of dates has an earliest member |
| VoteTally.ResolveFinalizedDate | core/src/main/kotlin/com/nomoney/meeting/service/MeetingService.kt:428-454 | the result is always a leading date, and is the selection when one is given; a single leader is accepted unless a different date is selected; on a tie the selection is required and must be a leader; every failure is InvalidRequest |
| MeetingRules.MeetIdFrom | core/src/main/kotlin/com/nomoney/meeting/service/MeetingService.kt:327-334 | a meeting id has 12 characters, each drawn from the 62-character alphabet |
| MeetingRules.FirstNamed | core/src/main/kotlin/com/nomoney/meeting/service/MeetingService.kt:233 | the first participant with the name, or none exactly when nobody has that name |
| MeetingRules.LastNamed | core/src/main/kotlin/com/nomoney/meeting/service/MeetingService.kt:384-402 | the last participant with the name (the one `associateBy` keeps), or none exactly when nobody has that name |
| MeetingRules.CreateMeeting | core/src/main/kotlin/com/nomoney/meeting/service/MeetingService.kt:23-43 | fails (InvalidRequest) exactly when a capacity below 1 is given; otherwise it is a VOTING meeting with the given fields, no participants and no finalized date |
| MeetingRules.AddParticipant | core/src/main/kotlin/com/nomoney/meeting/service/MeetingService.kt:168-191 | fails (InvalidRequest) exactly when a capacity is set and already reached; otherwise exactly one participant with id 0 and the given name, dates and flag is appended, and nothing else changes |
| MeetingRules.MarkVoted | core/src/main/kotlin/com/nomoney/meeting/service/MeetingService.kt:203-215 | the list keeps its length and order; every participant with the name gets the new vote dates and is marked voted; the others are untouched |
| MeetingRules.UpdateParticipant | core/src/main/kotlin/com/nomoney/meeting/service/MeetingService.kt:193-221 | dates outside the candidates fail with InvalidRequest, then an unknown name fails with NotFound; otherwise only the participants are rewritten, as MarkVoted does |
| MeetingRules.SubmitVote | core/src/main/kotlin/com/nomoney/meeting/service/MeetingService.kt:223-255 | dates outside the candidates fail; an unknown name joins through the capacity-checked add, marked voted; a voted name fails with DuplicateContent; an unvoted name other than the host's fails (IllegalArgument); the host's placeholder is filled and that always succeeds |
| MeetingRules.AnyVotedNamed | core/src/main/kotlin/com/nomoney/meeting/service/MeetingService.kt:257-262 | true exactly when some participant with the name has voted |
| MeetingRules.UpdateMeeting | core/src/main/kotlin/com/nomoney/meeting/service/MeetingService.kt:66-111 | succeeds exactly when the meeting is VOTING, the capacity is valid, the dates are not empty, the removal is allowed, every retained vote lies within the new dates and the capacity holds the retained participants; success replaces title, dates and capacity and keeps the retained participants in order; every failure is InvalidRequest |
| MeetingRules.SubsetIffNoRest | core/src/main/kotlin/com/nomoney/meeting/service/MeetingService.kt:411-426 | the set difference is empty exactly when one set is inside the other |
| MeetingRules.Close | core/src/main/kotlin/com/nomoney/meeting/service/MeetingService.kt:264-283 | VOTING becomes CLOSED without a finalized date and is saved; CLOSED is handed back unsaved; CONFIRMED fails with InvalidRequest |
| MeetingRules.Finalize | core/src/main/kotlin/com/nomoney/meeting/service/MeetingService.kt:285-325 | a confirmed meeting comes back unsaved when no date or its own date is selected, and fails otherwise; otherwise empty dates or a selection outside them fail; success is CONFIRMED on a leading candidate date (the selection when given) with every other field unchanged |
| MeetingRules.SortedByUpdatedAt | core/src/main/kotlin/com/nomoney/meeting/service/MeetingService.kt:49-60 | the same participants, most recently updated first, with every other field unchanged |
| MeetingRules.OperationsKeepFinalizedIffConfirmed | core/src/main/kotlin/com/nomoney/meeting/service/MeetingService.kt:264-325 | every operation keeps "a finalized date exactly when CONFIRMED" |
| MeetingRules.OperationsKeepVotesAllowed | core/src/main/kotlin/com/nomoney/meeting/service/MeetingService.kt:193-255 | vote, update, edit, close and finalize keep every vote within the candidate dates |
| MeetingRules.SubmitVoteKeepsNamesUnique | core/src/main/kotlin/com/nomoney/meeting/service/MeetingService.kt:223-255 | voting never gives two participants the same name |
| MeetingRules.RemainingKeepsNamesUnique | core/src/main/kotlin/com/nomoney/meeting/service/MeetingService.kt:87-88 | removing participants never gives two the same name |
| MeetingRules.UpdateMeetingKeepsHostAndVoters | core/src/main/kotlin/com/nomoney/meeting/service/MeetingService.kt:376-409 | with unique names, a successful edit keeps the host's participant and everyone who has voted |
| MeetingRules.RepeatedNameLetsVoterGo | core/src/main/kotlin/com/nomoney/meeting/service/MeetingService.kt:384-408 | with a repeated name, the removal guard looks only at the last participant of that name, so a voter can be removed |
| MeetingRules.RemainingKeepsOrder | core/src/main/kotlin/com/nomoney/meeting/service/MeetingService.kt:87-88 | the retained participants keep their relative order |
| MeetingRules.RemoveNothing | core/src/main/kotlin/com/nomoney/meeting/service/MeetingService.kt:87-88 | removing no names keeps every participant |
| MeetingRules.FirstNamedSameNames | core/src/main/kotlin/com/nomoney/meeting/service/MeetingService.kt:203-215 | rewriting votes does not change who is first with a name |
| MeetingRules.VoteOnlyOnce | core/src/main/kotlin/com/nomoney/meeting/service/MeetingService.kt:223-255 | after a successful vote the name has voted, and a second vote by it fails with DuplicateContent |
| MeetingRules.HostPlaceholderVotesAtCapacity | core/src/main/kotlin/com/nomoney/meeting/service/MeetingService.kt:246-253 | the host's unvoted placeholder takes a vote even at full capacity, and no participant is added |
| MeetingRules.CapacityBoundary | core/src/main/kotlin/com/nomoney/meeting/service/MeetingService.kt:366-374 | a capacity of n refuses the (n+1)-th participant and admits the n-th |
| MeetingRules.CloseIdempotent | core/src/main/kotlin/com/nomoney/meeting/service/MeetingService.kt:264-283 | closing a closed meeting writes nothing |
| MeetingRules.FinalizeIdempotent | core/src/main/kotlin/com/nomoney/meeting/service/MeetingService.kt:292-301 | finalizing again with the same date, or with none, writes nothing |
| MeetingRules.ScenarioSingleWinner | core/src/main/kotlin/com/nomoney/meeting/service/MeetingService.kt:428-454 | a single leading date is confirmed without a selection |
| MeetingRules.ScenarioTie | core/src/main/kotlin/com/nomoney/meeting/service/MeetingService.kt:428-454 | on a tie a missing selection fails and a tied date is accepted |
| MeetingRules.ScenarioSelectionOutsideDates | core/src/main/kotlin/com/nomoney/meeting/service/MeetingService.kt:310-315 | a selection outside the candidate dates fails |
| MeetingRules.ScenarioDuplicateVote | core/src/main/kotlin/com/nomoney/meeting/service/MeetingService.kt:243-245 | a name that has voted cannot vote again |
| MeetingRules.ScenarioNarrowedDates | core/src/main/kotlin/com/nomoney/meeting/service/MeetingService.kt:411-426 | the dates cannot be narrowed under an existing vote |
| HostDashboard.ProgressPercent | core/src/main/kotlin/com/nomoney/meeting/service/MeetingService.kt:132-136 | the percentage is 0 without a denominator and otherwise the floor of completed·100/total, so within 0..100 |
| HostDashboard.LeadingDate | core/src/main/kotlin/com/nomoney/meeting/service/MeetingService.kt:121-122 | the earliest leading date, present exactly when there are candidate dates |
| HostDashboard.MakeCard | core/src/main/kotlin/com/nomoney/meeting/service/MeetingService.kt:120-149 | a card carries the meeting's id, title, status and final date; the earliest leading date; a tie flag when several dates lead; the voted count, at most the total, which is the capacity (or the participant count) raised to the voted count; the progress; and days to the final date when confirmed, else to the leading date |
| HostDashboard.DDayOrderTotal | core/src/main/kotlin/com/nomoney/meeting/service/MeetingService.kt:161 | the day-count order relates every pair of cards |
| HostDashboard.Cards | core/src/main/kotlin/com/nomoney/meeting/service/MeetingService.kt:120 | one card per meeting, in order |
| HostDashboard.GetHostDashboard | core/src/main/kotlin/com/nomoney/meeting/service/MeetingService.kt:113-166 | the summary counts the host's meetings per status; the in-progress list holds the unconfirmed cards and the confirmed list the confirmed ones, each as a permutation sorted by day count, counts first |
| HostDashboard.StatusCountsAddUp | core/src/main/kotlin/com/nomoney/meeting/service/MeetingService.kt:154-158 | the three status counts add up to the number of meetings |
| HostDashboard.DashboardPartitionsHostMeetings | core/src/main/kotlin/com/nomoney/meeting/service/MeetingService.kt:117-165 | the two lists together hold every card of the host's meetings once, split by status; the summary sums to the host's meeting count |
| HostDashboard.DashboardShowsOnlyHostMeetings | core/src/main/kotlin/com/nomoney/meeting/service/MeetingService.kt:117-118 | every card shown is the card of a stored meeting of that host |
| HostDashboard.CardOfHosted | core/src/main/kotlin/com/nomoney/meeting/service/MeetingService.kt:117-120 | a card of the filtered meetings comes from a stored meeting of the host |
| MeetingService.MeetingRepository.FindByMeetingId | core/src/main/kotlin/com/nomoney/meeting/service/MeetingService.kt:45-47 | the stored meeting with the id, or none exactly when none is stored |
| MeetingService.MeetingRepository.Save | core/src/main/kotlin/com/nomoney/meeting/service/MeetingService.kt:42 | stores the meeting under its id and keeps every meeting under its own id |
| MeetingService.MeetingRepository.FindAll | core/src/main/kotlin/com/nomoney/meeting/service/MeetingService.kt:62-64 | lists each stored meeting once |
| MeetingService.MeetingService.CreateMeeting | core/src/main/kotlin/com/nomoney/meeting/service/MeetingService.kt:23-43 | the result is the creation rule's; on success the new meeting is saved under its id, on failure nothing is saved |
| MeetingService.MeetingService.GetMeetingInfo | core/src/main/kotlin/com/nomoney/meeting/service/MeetingService.kt:45-47 | the stored meeting, or none |
| MeetingService.MeetingService.GetMeetingInfoSortedByParticipantUpdatedAt | core/src/main/kotlin/com/nomoney/meeting/service/MeetingService.kt:49-60 | the stored meeting with its participants sorted newest first, or none |
| MeetingService.MeetingService.GetAllMeetings | core/src/main/kotlin/com/nomoney/meeting/service/MeetingService.kt:62-64 | every stored meeting once |
| MeetingService.MeetingService.UpdateMeeting | core/src/main/kotlin/com/nomoney/meeting/service/MeetingService.kt:66-111 | an unknown id fails with NotFound; otherwise the edit rule decides; only a success saves |
| MeetingService.MeetingService.GetHostMeetingDashboard | core/src/main/kotlin/com/nomoney/meeting/service/MeetingService.kt:113-166 | the dashboard of a listing of the stored meetings |
| MeetingService.MeetingService.AddParticipant | core/src/main/kotlin/com/nomoney/meeting/service/MeetingService.kt:168-191 | an unknown id fails with NotFound; otherwise the add rule decides; only a success saves |
| MeetingService.MeetingService.UpdateParticipant | core/src/main/kotlin/com/nomoney/meeting/service/MeetingService.kt:193-221 | an unknown id fails with NotFound; otherwise the update rule decides; only a success saves |
| MeetingService.MeetingService.SubmitVote | core/src/main/kotlin/com/nomoney/meeting/service/MeetingService.kt:223-255 | an unknown id fails with NotFound; otherwise the vote rule decides; only a success saves |
| MeetingService.MeetingService.ExistsVotedParticipantByName | core/src/main/kotlin/com/nomoney/meeting/service/MeetingService.kt:257-262 | true exactly when the meeting is stored and has a voted participant with the name |
| MeetingService.MeetingService.CloseMeeting | core/src/main/kotlin/com/nomoney/meeting/service/MeetingService.kt:264-283 | an unknown id fails with NotFound; otherwise the close rule decides whether it saves |
| MeetingService.MeetingService.FinalizeMeeting | core/src/main/kotlin/com/nomoney/meeting/service/MeetingService.kt:285-325 | an unknown id fails with NotFound; otherwise the finalize rule decides whether it saves |
| MeetingService.MeetingService.Apply | core/src/main/kotlin/com/nomoney/meeting/service/MeetingService.kt:264-325 | a failure saves nothing, a handed-back meeting saves nothing, and a changed meeting is saved under its id |
| MeetingAdapter.UpdateDates | adapter/rdb/src/main/kotlin/com/nomoney/meeting/adapter/MeetingAdapter.kt:79-91 | afterwards the date rows stand for exactly the given dates; a row is dropped exactly when its date is not given; each new row is fresh, for a date that was missing, one per date |
| MeetingAdapter.UpdateVoteDates | adapter/rdb/src/main/kotlin/com/nomoney/meeting/adapter/MeetingAdapter.kt:135-150 | afterwards the vote-date rows stand for exactly the given dates; kept rows are the same objects; each new row is fresh, for a missing date, one per date |
| MeetingAdapter.AddedPositions | adapter/rdb/src/main/kotlin/com/nomoney/meeting/adapter/MeetingAdapter.kt:108-131 | the positions that get a new row lie within the snapshot prefix |
| MeetingAdapter.AddedPositionsExactly | adapter/rdb/src/main/kotlin/com/nomoney/meeting/adapter/MeetingAdapter.kt:108-131 | a new row is made exactly for the participants with id 0 or an id no stored row has, each once, in snapshot order |
| MeetingAdapter.LastWithId | adapter/rdb/src/main/kotlin/com/nomoney/meeting/adapter/MeetingAdapter.kt:109-118 | the last participant with a given id lies within the prefix |
| MeetingAdapter.LastWithIdExactly | adapter/rdb/src/main/kotlin/com/nomoney/meeting/adapter/MeetingAdapter.kt:109-118 | none exactly when no participant has the id; otherwise that participant has the id and no later one does |
| MeetingAdapter.UpdateParticipants | adapter/rdb/src/main/kotlin/com/nomoney/meeting/adapter/MeetingAdapter.kt:93-133 | stored rows with an id the snapshot no longer carries are removed with their name and dates untouched, and rows without an id are kept and untouched; a stored row the snapshot refers to takes the name and dates of the last participant with its id; every other participant gets one fresh row with its id (or none for id 0), name and dates; nothing else changes |
| MeetingAdapter.ReconcileAll | adapter/rdb/src/main/kotlin/com/nomoney/meeting/adapter/MeetingAdapter.kt:108-132 | the loop creates rows exactly for the new participants, distinct and fresh, and leaves every stored row that is referred to mirroring its last participant |
| MeetingAdapter.ReconcileOne | adapter/rdb/src/main/kotlin/com/nomoney/meeting/adapter/MeetingAdapter.kt:109-131 | a participant with a stored id updates that row in place; any other gets a fresh row; either way the row mirrors the participant |
| MeetingAdapter.MirroredByLast | adapter/rdb/src/main/kotlin/com/nomoney/meeting/adapter/MeetingAdapter.kt:108-122 | a stored row the snapshot refers to mirrors the last participant with its id |
| MeetingAdapter.UniqueAfterUpdate | adapter/rdb/src/main/kotlin/com/nomoney/meeting/adapter/MeetingAdapter.kt:93-133 | when the snapshot's non-zero ids are distinct, no two rows share an id afterwards |
| MeetingAdapter.NoStoredIdsAddsAll | adapter/rdb/src/main/kotlin/com/nomoney/meeting/adapter/MeetingAdapter.kt:62-72 | for a new meeting row every participant gets a new row, in order |
| MeetingAdapter.KnownIdsAddOnlyNewcomers | adapter/rdb/src/main/kotlin/com/nomoney/meeting/adapter/MeetingAdapter.kt:123-131 | when every non-zero id is stored, the number of new rows is the number of participants with id 0 |
| MeetingAdapter.MeetingStore.Save | adapter/rdb/src/main/kotlin/com/nomoney/meeting/adapter/MeetingAdapter.kt:30-42 | a stored meeting keeps its row, which gets the new title while its other columns and dates stay; its participant rows are reconciled as UpdateParticipants states (stale rows removed and untouched, referred rows mirroring the last participant with their id, one fresh row per other participant). A new meeting gets a fresh row with id, title and dates, default columns and one fresh participant row per participant, in order |
| MeetingAdapter.MeetingStore.SaveAggregate | adapter/rdb/src/main/kotlin/com/nomoney/meeting/adapter/MeetingAdapter.kt:30-42 | corrected save: every column and the dates agree with the snapshot, for a stored meeting as for a new one, and the participant rows are reconciled with the snapshot's participants exactly as in Save |
| MeetingAdapter.WriteColumns | adapter/rdb/src/main/kotlin/com/nomoney/meeting/adapter/MeetingAdapter.kt:74-77 | every column takes the snapshot's value; title, dates and participants are untouched |
| MeetingAdapter.CloseIsNotStored | adapter/rdb/src/main/kotlin/com/nomoney/meeting/adapter/MeetingAdapter.kt:74-77 | a meeting stored while voting and then saved closed still reads as voting |
| MeetingAdapter.CloseIsStoredByAggregate | adapter/rdb/src/main/kotlin/com/nomoney/meeting/adapter/MeetingAdapter.kt:30-42 | with the corrected save, the closed meeting reads as closed |
| MeetingAdapter.UpdateFrom | adapter/rdb/src/main/kotlin/com/nomoney/meeting/adapter/MeetingAdapter.kt:74-77 | the title is written and the participants reconciled; the other columns and the dates stay |
| MeetingAdapter.ToEntity | adapter/rdb/src/main/kotlin/com/nomoney/meeting/adapter/MeetingAdapter.kt:62-72 | a fresh row with the snapshot's id, title and dates, default columns, and one fresh row per participant in order |
| Auth.NewAccessToken | core/src/main/kotlin/com/nomoney/auth/service/AuthService.kt:24-36 | the access token carries the user and its value and expires 30 days after it is issued |
| Auth.NewRefreshToken | core/src/main/kotlin/com/nomoney/auth/service/AuthService.kt:78-93 | the refresh token has id 0, is unused, carries the user and its value and expires 90 days after it is issued |
| Auth.IssuePair | core/src/main/kotlin/com/nomoney/auth/service/AuthService.kt:38-46 | both new tokens are stored under their values and returned together |
| Auth.MarkUsed | core/src/main/kotlin/com/nomoney/auth/service/AuthService.kt:60 | the token with the value is flagged used, every other token stays, and an unknown value changes nothing |
| Auth.CheckRefresh | core/src/main/kotlin/com/nomoney/auth/service/AuthService.kt:48-58 | a token is accepted exactly when it is known, unexpired and unused; otherwise it is refused as unknown, then as expired, then as used |
| Auth.RefreshStep | core/src/main/kotlin/com/nomoney/auth/service/AuthService.kt:48-63 | a refused token changes neither repository and keeps the check's reason; an accepted one is marked used, the new access and refresh tokens (unused, for the token's user, stamped with `now`) are the outcome, and the repositories afterwards hold exactly the old entries updated by those three writes |
| Auth.Validate | core/src/main/kotlin/com/nomoney/auth/service/AuthService.kt:65-76 | a known, unexpired access token yields its user; an unknown or expired one is refused |
| Auth.IssuedAccessTokenValidates | core/src/main/kotlin/com/nomoney/auth/service/AuthService.kt:24-76 | a freshly issued access token is accepted for its user up to 30 days on, and refused as expired after that |
| Auth.ReplayRefused | core/src/main/kotlin/com/nomoney/auth/service/AuthService.kt:56-62 | once a refresh token has been accepted, presenting it again is refused at any time |
| Auth.Run | core/src/main/kotlin/com/nomoney/auth/service/AuthService.kt:48-63 | a series of refresh requests yields one outcome per request; the first outcome is that of the first request on the initial repositories, and the rest are served on the repositories it leaves |
| Auth.UsedTokenAlwaysRefused | core/src/main/kotlin/com/nomoney/auth/service/AuthService.kt:56-58 | a used token stays used and is refused every time it is presented |
| Auth.AcceptedAtMostOnce | core/src/main/kotlin/com/nomoney/auth/service/AuthService.kt:48-63 | over any series of requests, a refresh token value is accepted at most once |
| Auth.AuthTokenStore.Save | core/src/main/kotlin/com/nomoney/auth/service/AuthService.kt:35 | stores the token under its value |
| Auth.AuthTokenStore.FindByTokenValue | core/src/main/kotlin/com/nomoney/auth/service/AuthService.kt:66-67 | the stored token with the value, or none exactly when none is stored |
| Auth.RefreshTokenStore.Save | core/src/main/kotlin/com/nomoney/auth/service/AuthService.kt:92 | stores the token under its value |
| Auth.RefreshTokenStore.FindByTokenValue | core/src/main/kotlin/com/nomoney/auth/service/AuthService.kt:49-50 | the stored token with the value, or none exactly when none is stored |
| Auth.RefreshTokenStore.MarkAsUsed | core/src/main/kotlin/com/nomoney/auth/service/AuthService.kt:60 | the repository afterwards is MarkUsed of the one before |
| Auth.AuthService.IssueToken | core/src/main/kotlin/com/nomoney/auth/service/AuthService.kt:24-36 | saves and returns the new access token |
| Auth.AuthService.IssueTokenPair | core/src/main/kotlin/com/nomoney/auth/service/AuthService.kt:38-46 | the repositories and the pair afterwards are those of IssuePair |
| Auth.RunConcat | core/src/main/kotlin/com/nomoney/auth/service/AuthService.kt:48-63 | serving two series one after the other gives the same repositories and the same outcomes, in order, as serving them as one series |
| Auth.RunLast | core/src/main/kotlin/com/nomoney/auth/service/AuthService.kt:48-63 | the last request of a series is served on the repositories the earlier requests left |
| Auth.AuthService.Refresh | core/src/main/kotlin/com/nomoney/auth/service/AuthService.kt:48-63 | the repositories and the outcome afterwards are those of RefreshStep |
| Auth.AuthService.ValidateToken | core/src/main/kotlin/com/nomoney/auth/service/AuthService.kt:65-76 | the outcome is Validate on the stored access tokens |
| Auth.AuthService.CreateRefreshToken | core/src/main/kotlin/com/nomoney/auth/service/AuthService.kt:78-93 | saves and returns the new refresh token |

## Left out

- I/O, the database, transactions and concurrency are not modelled. Each repository is a map held by an object. Concurrent read-modify-write races between requests are not modelled.
- The wall clock is a parameter (`now`, `today`) and the random draws are parameters. For meeting ids these are the 12 draws of `nextInt(62)`; for tokens they are the token values. `SecureRandom`, Base64 and the 32-byte token length are not modelled.
- `issueToken` and `createRefreshToken` read the clock twice, once for the expiry and once for the creation time; the model uses one `now` for both.
- Auth.AuthTokenStore.Save and Auth.RefreshTokenStore.Save return the token as given. The database-assigned refresh-token id and the creation timestamp read back from the row are not modelled. A duplicate token value, which the unique column would reject, overwrites the entry instead.
- Auth.ReplayRefused, Auth.AcceptedAtMostOnce and Auth.UsedTokenAlwaysRefused require that the value drawn for a new refresh token never equals the token in question (for UsedTokenAlwaysRefused, that the used token's value is never drawn again). With random 32-byte values a collision is negligible, but it is not excluded by the code.
- The dashboard's `dDay` is an unbounded integer; the `toInt()` truncation of a day difference beyond the 32-bit range is not modelled. The same holds for `completedVoteCount * 100` in the percentage.
- The sort stability of `sortedWith` is not modelled. The contracts state a sorted permutation, not the order among equal keys.
- `MeetingAdapter.toDomain` is not modelled. As written it does not construct the current `Meeting`: it drops the host name and forces the capacity to null.
- MeetingAdapter.ToEntity: as written, `toEntity` omits the required `hostName` argument of `MeetingJpaEntity.of` (adapter/rdb/src/main/kotlin/com/nomoney/meeting/entity/MeetingJpaEntity.kt:51-55). The model takes the field's default (null) for it and `of`'s defaults for the other columns, so a new meeting row has no host name. The entity's back-references to the meeting and participant rows are not modelled.
- MeetingAdapter.UpdateParticipants: the new participant rows join the meeting's set after the loop rather than during it; nothing in the loop reads that set, so the result is the same.
- MeetingAdapter.MeetingStore.Save: the store's invariant (each stored meeting's participant rows have distinct ids) is promised only when the snapshot's non-zero ids are distinct. The source does not check this, and duplicate ids in a snapshot give two rows with one id.
- `getFinalizePreview`, `checkFinalizedDateConflictAndFinalizeMeeting`, the per-date vote details and host filtering by `hostUserId` appear only in tests and transport types, not in the service code, and are not modelled.
- `addParticipant` does not check vote dates against the candidate dates, and the model does not either; "every vote lies within the candidate dates" is proved only for the operations that check it.
- MeetingRules.AddParticipant, MeetingRules.MarkVoted and MeetingRules.SortedByUpdatedAt: a participant's `updatedAt` is the time it joined, set once by AddParticipant. The database's audit refresh of that column on every write of a participant row (`@LastModifiedDate` at adapter/rdb/src/main/kotlin/com/nomoney/base/BaseJpaEntity.kt:18-20) is not modelled, so a vote does not move a participant to the front of the sorted list.
- The service model (`MeetingService`) works against a repository that stores and returns each snapshot as given. The database adapter is modelled separately (`MeetingAdapter`), and the two are not composed: the service's properties assume a faithful repository, which the finding below shows the adapter is not.
- The HTTP layer, the OAuth clients, the anonymous sign-in and the build files are outside this model.

## Findings

| source | as written | input that shows it | evidently intended | confidence | as-written member | corrected member |
|---|---|---|---|---|---|---|
| adapter/rdb/src/main/kotlin/com/nomoney/meeting/adapter/MeetingAdapter.kt:74-77 | `save` of a stored meeting writes only the title and the participants, so status, finalized date, host name, capacity, memo and dates are never updated | save a VOTING meeting, then save the same meeting with status CLOSED: the stored row still says VOTING | the stored row agrees with every field of the snapshot | not executed | MeetingAdapter.CloseIsNotStored | MeetingAdapter.MeetingStore.SaveAggregate |
