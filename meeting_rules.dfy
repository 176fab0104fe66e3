/** The business rules of the meeting service, each operation as a function
    from the loaded meeting snapshot and the request to the snapshot to write
    back (or to the failure that stops the operation before any write). */
module MeetingRules {
  import opened MeetingDomain
  import opened VoteTally
  import Seqs

  /** What an operation does with the snapshot it loaded: write a new one, or
      hand the loaded one back without writing. */
  datatype Change = Save(meeting: Meeting) | Keep(meeting: Meeting)

  /** The characters a meeting id is drawn from. */
  const MeetIdChars: string := "ABCDEFGHIJKLMNOPQRSTUVWXYZabcdefghijklmnopqrstuvwxyz0123456789"

  const MeetIdLength: nat := 12

  /** `generateMeetId`: one character of the alphabet per random draw; the
      draws stand for the values of `nextInt(62)`. */
  function MeetIdFrom(draws: seq<nat>): (id: MeetingId)
    requires |draws| == MeetIdLength
    requires forall i :: 0 <= i < |draws| ==> draws[i] < |MeetIdChars|
    ensures |id| == MeetIdLength
    ensures forall i :: 0 <= i < |id| ==> id[i] in MeetIdChars && id[i] == MeetIdChars[draws[i]]
  {
    seq(MeetIdLength, i requires 0 <= i < MeetIdLength => MeetIdChars[draws[i]])
  }

  // ----- guards -----

  /** `assertValidMaxParticipantCount`: a capacity, when given, is at least 1. */
  predicate ValidMaxParticipantCount(max: Option<int>) {
    max.None? || max.value >= 1
  }

  /** `assertAvailableParticipantCapacity`: one more participant still fits. */
  predicate HasRoom(m: Meeting) {
    m.maxParticipantCount.None? || |m.participants| < m.maxParticipantCount.value
  }

  /** The first participant with a name (`firstOrNull`). */
  function FirstNamed(ps: seq<Participant>, name: string): (r: Option<nat>)
    ensures r.None? <==> forall i :: 0 <= i < |ps| ==> ps[i].name != name
    ensures r.Some? ==> r.value < |ps| && ps[r.value].name == name
    ensures r.Some? ==> forall j :: 0 <= j < r.value ==> ps[j].name != name
  {
    if ps == [] then None
    else if ps[0].name == name then Some(0)
    else match FirstNamed(ps[1..], name)
      case None => None
      case Some(k) => Some(k + 1)
  }

  /** The last participant with a name: the one `associateBy` keeps. */
  function LastNamed(ps: seq<Participant>, name: string): (r: Option<nat>)
    ensures r.None? <==> forall i :: 0 <= i < |ps| ==> ps[i].name != name
    ensures r.Some? ==> r.value < |ps| && ps[r.value].name == name
    ensures r.Some? ==> forall j :: r.value < j < |ps| ==> ps[j].name != name
  {
    if ps == [] then None
    else if ps[|ps| - 1].name == name then Some(|ps| - 1)
    else
      assert forall i :: 0 <= i < |ps| - 1 ==> ps[..|ps| - 1][i] == ps[i];
      LastNamed(ps[..|ps| - 1], name)
  }

  predicate HasParticipantNamed(ps: seq<Participant>, name: string) {
    exists i :: 0 <= i < |ps| && ps[i].name == name
  }

  /** `assertRemovableParticipants`: every name to remove is a participant's,
      the host's name is not among them, and the participant `associateBy`
      keeps for each such name (the last one) has not voted. */
  predicate Removable(m: Meeting, removed: set<string>) {
    && (forall n :: n in removed ==> HasParticipantNamed(m.participants, n))
    && !(m.hostName.Some? && m.hostName.value in removed)
    && forall n :: n in removed ==>
         match LastNamed(m.participants, n)
         case Some(k) => !m.participants[k].hasVoted
         case None => true
  }

  /** The participants left after the named ones are removed, in order. */
  function Remaining(ps: seq<Participant>, removed: set<string>): seq<Participant> {
    Seqs.Filter(ps, NotRemoved(removed))
  }

  /** The test `filterNot { it.name in removed }` keeps. */
  function NotRemoved(removed: set<string>): Participant -> bool {
    (p: Participant) => p.name !in removed
  }

  /** `assertVoteDatesWithinCandidates`: no participant voted for a date
      outside `dates`. */
  predicate VotesWithin(ps: seq<Participant>, dates: set<Date>) {
    forall i :: 0 <= i < |ps| ==> ps[i].voteDates - dates == {}
  }

  // ----- operations -----

  /** `createMeeting`: a voting meeting without participants, refused when
      the capacity is below 1. */
  function CreateMeeting(id: MeetingId, title: string, hostName: Option<string>,
                         dates: set<Date>, max: Option<int>): (r: Result<Meeting>)
    ensures r.Err? <==> max.Some? && max.value < 1
    ensures r.Err? ==> r.error == InvalidRequest
    ensures r.Ok? ==> r.value.status == Voting && r.value.finalizedDate == None
    ensures r.Ok? ==> r.value.participants == [] && r.value.dates == dates
    ensures r.Ok? ==> r.value.id == id && r.value.title == title && r.value.hostName == hostName
    ensures r.Ok? ==> r.value.maxParticipantCount == max && FinalizedIffConfirmed(r.value)
  {
    if !ValidMaxParticipantCount(max) then Err(InvalidRequest)
    else Ok(NewMeeting(id, title, hostName, dates, max, []))
  }

  /** `addParticipant`: appends one participant with id 0 unless the meeting
      is full; the vote dates are not checked here. */
  function AddParticipant(m: Meeting, name: string, voteDates: set<Date>, hasVoted: bool,
                          now: int): (r: Result<Meeting>)
    ensures r.Err? <==> m.maxParticipantCount.Some? && |m.participants| >= m.maxParticipantCount.value
    ensures r.Err? ==> r.error == InvalidRequest
    ensures r.Ok? ==> |r.value.participants| == |m.participants| + 1
    ensures r.Ok? ==> r.value.participants[..|m.participants|] == m.participants
    ensures r.Ok? ==> r.value.participants[|m.participants|] == Participant(0, name, voteDates, hasVoted, now)
    ensures r.Ok? ==> r.value.(participants := m.participants) == m
  {
    if !HasRoom(m) then Err(InvalidRequest)
    else Ok(m.(participants := m.participants + [Participant(0, name, voteDates, hasVoted, now)]))
  }

  /** Every participant with the name gets the vote; the others stay. */
  function MarkVoted(ps: seq<Participant>, name: string, voteDates: set<Date>): (r: seq<Participant>)
    ensures |r| == |ps|
    ensures forall i :: 0 <= i < |ps| && ps[i].name != name ==> r[i] == ps[i]
    ensures forall i :: 0 <= i < |ps| && ps[i].name == name ==>
      r[i].hasVoted && r[i].voteDates == voteDates && r[i].(voteDates := ps[i].voteDates, hasVoted := ps[i].hasVoted) == ps[i]
  {
    seq(|ps|, i requires 0 <= i < |ps| =>
      if ps[i].name == name then ps[i].(voteDates := voteDates, hasVoted := true) else ps[i])
  }

  /** `updateParticipant`: records a vote for every participant with the
      name, after checking the dates and that such a participant exists. */
  function UpdateParticipant(m: Meeting, name: string, voteDates: set<Date>): (r: Result<Meeting>)
    ensures !(voteDates <= m.dates) ==> r == Err(InvalidRequest)
    ensures voteDates <= m.dates && !HasParticipantNamed(m.participants, name) ==> r == Err(NotFound)
    ensures r.Ok? <==> voteDates <= m.dates && HasParticipantNamed(m.participants, name)
    ensures r.Ok? ==> r.value == m.(participants := MarkVoted(m.participants, name, voteDates))
  {
    if !IsVoteDatesAllowed(m, voteDates) then Err(InvalidRequest)
    else if forall i :: 0 <= i < |m.participants| ==> m.participants[i].name != name then Err(NotFound)
    else Ok(m.(participants := MarkVoted(m.participants, name, voteDates)))
  }

  /** `submitVote`: a new name joins with its vote (capacity checked), a name
      that has voted is refused, and an unvoted name, which only the host's
      placeholder may be, fills that placeholder. */
  function SubmitVote(m: Meeting, name: string, voteDates: set<Date>, now: int): (r: Result<Meeting>)
    ensures !(voteDates <= m.dates) ==> r == Err(InvalidRequest)
    ensures voteDates <= m.dates && !HasParticipantNamed(m.participants, name) ==>
      r == AddParticipant(m, name, voteDates, true, now)
    ensures voteDates <= m.dates && FirstNamed(m.participants, name).Some? ==>
      var k := FirstNamed(m.participants, name).value;
      if m.participants[k].hasVoted then r == Err(DuplicateContent)
      else if m.hostName != Some(name) then r == Err(IllegalArgument)
      else r == UpdateParticipant(m, name, voteDates) && r.Ok?
  {
    if !IsVoteDatesAllowed(m, voteDates) then Err(InvalidRequest)
    else match FirstNamed(m.participants, name)
      case None => AddParticipant(m, name, voteDates, true, now)
      case Some(k) =>
        if m.participants[k].hasVoted then Err(DuplicateContent)
        else if m.hostName != Some(name) then Err(IllegalArgument)
        else UpdateParticipant(m, name, voteDates)
  }

  /** `existsVotedParticipantByName`, over the participant list. */
  function AnyVotedNamed(ps: seq<Participant>, name: string): (b: bool)
    ensures b <==> exists i :: 0 <= i < |ps| && ps[i].name == name && ps[i].hasVoted
  {
    if ps == [] then false
    else
      assert forall i :: 0 < i < |ps| ==> ps[1..][i - 1] == ps[i];
      (ps[0].name == name && ps[0].hasVoted) || AnyVotedNamed(ps[1..], name)
  }

  /** `updateMeeting`: only a voting meeting may be edited; the checks run
      in the source's order and all come before the write. */
  function UpdateMeeting(m: Meeting, title: string, dates: set<Date>, max: Option<int>,
                         removed: set<string>): (r: Result<Meeting>)
    ensures r.Err? ==> r.error == InvalidRequest
    ensures r.Ok? <==>
      && m.status == Voting && ValidMaxParticipantCount(max) && dates != {}
      && Removable(m, removed)
      && (forall i :: 0 <= i < |Remaining(m.participants, removed)| ==>
            Remaining(m.participants, removed)[i].voteDates <= dates)
      && (max.Some? ==> |Remaining(m.participants, removed)| <= max.value)
    ensures r.Ok? ==> r.value == m.(title := title, dates := dates, maxParticipantCount := max,
                                     participants := Remaining(m.participants, removed))
  {
    if m.status != Voting then Err(InvalidRequest)
    else if !ValidMaxParticipantCount(max) then Err(InvalidRequest)
    else if dates == {} then Err(InvalidRequest)
    else if !Removable(m, removed) then Err(InvalidRequest)
    else
      var remaining := Remaining(m.participants, removed);
      assert VotesWithin(remaining, dates) <==> forall i :: 0 <= i < |remaining| ==> remaining[i].voteDates <= dates by {
        forall i | 0 <= i < |remaining| ensures remaining[i].voteDates - dates == {} <==> remaining[i].voteDates <= dates {
          SubsetIffNoRest(remaining[i].voteDates, dates);
        }
      }
      if !VotesWithin(remaining, dates) then Err(InvalidRequest)
      else if max.Some? && max.value < |remaining| then Err(InvalidRequest)
      else Ok(m.(title := title, dates := dates, maxParticipantCount := max, participants := remaining))
  }

  lemma SubsetIffNoRest(a: set<Date>, b: set<Date>)
    ensures a - b == {} <==> a <= b
  {
    if a - b == {} {
      forall x | x in a ensures x in b {
        assert x !in a - b;
      }
    }
  }

  /** `closeMeeting`: a voting meeting closes without a finalized date, a
      closed one is handed back unwritten, a confirmed one cannot close. */
  function Close(m: Meeting): (r: Result<Change>)
    ensures m.status == Voting ==> r == Ok(Save(m.(status := Closed, finalizedDate := None)))
    ensures m.status == Closed ==> r == Ok(Keep(m))
    ensures m.status == Confirmed ==> r == Err(InvalidRequest)
  {
    match m.status
    case Voting => Ok(Save(m.(status := Closed, finalizedDate := None)))
    case Closed => Ok(Keep(m))
    case Confirmed => Err(InvalidRequest)
  }

  /** `finalizeMeeting`: a confirmed meeting is handed back unwritten when
      the selection is absent or repeats its date and is refused otherwise;
      any other meeting needs candidate dates, a selection among them, and a
      date `resolveFinalizedDate` accepts, and is then confirmed on it. */
  function Finalize(m: Meeting, selected: Option<Date>): (r: Result<Change>)
    ensures r.Err? ==> r.error == InvalidRequest
    ensures m.status == Confirmed ==>
      (r.Ok? <==> selected.None? || m.finalizedDate == selected) && (r.Ok? ==> r.value == Keep(m))
    ensures m.status != Confirmed && (m.dates == {} || (selected.Some? && selected.value !in m.dates)) ==>
      r.Err?
    ensures m.status != Confirmed && r.Ok? ==>
      && r.value.Save?
      && r.value.meeting.status == Confirmed
      && r.value.meeting.finalizedDate.Some?
      && r.value.meeting.finalizedDate.value in m.dates
      && r.value.meeting.finalizedDate.value in TopOf(m)
      && (selected.Some? ==> r.value.meeting.finalizedDate == selected)
      && r.value.meeting == m.(status := Confirmed, finalizedDate := r.value.meeting.finalizedDate)
    ensures m.status != Confirmed && m.dates != {} && (selected.None? || selected.value in m.dates) ==>
      (r.Ok? <==> ResolveFinalizedDate(m, selected).Ok?)
  {
    if m.status == Confirmed then
      if selected.None? || selected == m.finalizedDate then Ok(Keep(m)) else Err(InvalidRequest)
    else if m.dates == {} then Err(InvalidRequest)
    else if selected.Some? && selected.value !in m.dates then Err(InvalidRequest)
    else match ResolveFinalizedDate(m, selected)
      case Err(e) => Err(e)
      case Ok(d) => Ok(Save(m.(status := Confirmed, finalizedDate := Some(d))))
  }

  /** A later update is newer; `compareByDescending { updatedAt }`. */
  predicate NewerFirst(a: Participant, b: Participant) {
    a.updatedAt >= b.updatedAt
  }

  /** `getMeetingInfoSortedByParticipantUpdatedAt`: the participants, most
      recently updated first. */
  function SortedByUpdatedAt(m: Meeting): (r: Meeting)
    ensures multiset(r.participants) == multiset(m.participants)
    ensures forall i :: 0 < i < |r.participants| ==>
      r.participants[i - 1].updatedAt >= r.participants[i].updatedAt
    ensures r.(participants := m.participants) == m
  {
    if m.participants == [] then m
    else
      assert Seqs.Total(NewerFirst);
      var sorted := Seqs.InsertionSort(m.participants, NewerFirst);
      assert forall i :: 0 < i < |sorted| ==> NewerFirst(sorted[i - 1], sorted[i]);
      m.(participants := sorted)
  }

  // ----- invariants the operations keep -----

  /** Every participant's vote lies within the candidate dates. */
  predicate VotesAllowed(m: Meeting) {
    forall i :: 0 <= i < |m.participants| ==> m.participants[i].voteDates <= m.dates
  }

  /** No two participants share a name. */
  predicate UniqueNames(ps: seq<Participant>) {
    forall i, j :: 0 <= i < j < |ps| ==> ps[i].name != ps[j].name
  }

  /** Creation, closing and finalizing keep "a finalized date exactly when
      confirmed", and the participant operations touch neither field. */
  lemma OperationsKeepFinalizedIffConfirmed(m: Meeting)
    requires FinalizedIffConfirmed(m)
    ensures forall id, title, host, dates, max ::
      CreateMeeting(id, title, host, dates, max).Ok? ==> FinalizedIffConfirmed(CreateMeeting(id, title, host, dates, max).value)
    ensures Close(m).Ok? ==> FinalizedIffConfirmed(Close(m).value.meeting)
    ensures forall s :: Finalize(m, s).Ok? ==> FinalizedIffConfirmed(Finalize(m, s).value.meeting)
    ensures forall n, v, h, t :: AddParticipant(m, n, v, h, t).Ok? ==> FinalizedIffConfirmed(AddParticipant(m, n, v, h, t).value)
    ensures forall n, v :: UpdateParticipant(m, n, v).Ok? ==> FinalizedIffConfirmed(UpdateParticipant(m, n, v).value)
    ensures forall n, v, t :: SubmitVote(m, n, v, t).Ok? ==> FinalizedIffConfirmed(SubmitVote(m, n, v, t).value)
    ensures forall title, dates, max, removed :: UpdateMeeting(m, title, dates, max, removed).Ok? ==>
      FinalizedIffConfirmed(UpdateMeeting(m, title, dates, max, removed).value)
  {
  }

  /** The operations that check vote dates keep every vote within the
      candidate dates (adding a participant directly checks nothing). */
  lemma {:induction false} OperationsKeepVotesAllowed(m: Meeting, name: string, v: set<Date>, now: int,
                                                      title: string, dates: set<Date>, max: Option<int>,
                                                      removed: set<string>, selected: Option<Date>)
    requires VotesAllowed(m)
    ensures SubmitVote(m, name, v, now).Ok? ==> VotesAllowed(SubmitVote(m, name, v, now).value)
    ensures UpdateParticipant(m, name, v).Ok? ==> VotesAllowed(UpdateParticipant(m, name, v).value)
    ensures UpdateMeeting(m, title, dates, max, removed).Ok? ==> VotesAllowed(UpdateMeeting(m, title, dates, max, removed).value)
    ensures Close(m).Ok? ==> VotesAllowed(Close(m).value.meeting)
    ensures Finalize(m, selected).Ok? ==> VotesAllowed(Finalize(m, selected).value.meeting)
  {
    var ps := m.participants;
    if UpdateParticipant(m, name, v).Ok? {
      var qs := UpdateParticipant(m, name, v).value.participants;
      forall i | 0 <= i < |qs| ensures qs[i].voteDates <= m.dates {
        if ps[i].name == name {
          assert qs[i].voteDates == v;
        } else {
          assert qs[i] == ps[i];
        }
      }
    }
    var r := SubmitVote(m, name, v, now);
    if r.Ok? && !HasParticipantNamed(ps, name) {
      var qs := r.value.participants;
      forall i | 0 <= i < |qs| ensures qs[i].voteDates <= m.dates {
        if i < |ps| {
          assert qs[i] == qs[..|ps|][i] == ps[i];
        }
      }
    }
  }

  /** A vote through `submitVote` never gives two participants one name:
      a new participant joins only under a new name. */
  lemma SubmitVoteKeepsNamesUnique(m: Meeting, name: string, v: set<Date>, now: int)
    requires UniqueNames(m.participants)
    ensures SubmitVote(m, name, v, now).Ok? ==> UniqueNames(SubmitVote(m, name, v, now).value.participants)
  {
    var ps := m.participants;
    var r := SubmitVote(m, name, v, now);
    if r.Ok? && !HasParticipantNamed(ps, name) {
      var qs := r.value.participants;
      forall i, j | 0 <= i < j < |qs| ensures qs[i].name != qs[j].name {
        assert qs[i] == qs[..|ps|][i];
        if j < |ps| {
          assert qs[j] == qs[..|ps|][j];
        }
      }
    }
  }

  /** Dropping participants never gives two participants one name. */
  lemma {:induction false} RemainingKeepsNamesUnique(ps: seq<Participant>, removed: set<string>)
    requires UniqueNames(ps)
    ensures UniqueNames(Remaining(ps, removed))
  {
    if ps != [] {
      var init, last := ps[..|ps| - 1], ps[|ps| - 1];
      assert forall i :: 0 <= i < |init| ==> init[i] == ps[i];
      RemainingKeepsNamesUnique(init, removed);
      var r0 := Remaining(init, removed);
      if last.name !in removed {
        assert Remaining(ps, removed) == r0 + [last];
        forall i | 0 <= i < |r0| ensures r0[i].name != last.name {
          var k :| 0 <= k < |init| && init[k] == r0[i];
        }
      } else {
        assert Remaining(ps, removed) == r0;
      }
    }
  }

  /** `updateMeeting` keeps the host's participant and every participant who
      has voted, once names are unique (with a repeated name the guard looks
      only at the last participant of that name). */
  lemma UpdateMeetingKeepsHostAndVoters(m: Meeting, title: string, dates: set<Date>, max: Option<int>,
                                        removed: set<string>)
    requires UniqueNames(m.participants)
    ensures UpdateMeeting(m, title, dates, max, removed).Ok? ==>
      var qs := UpdateMeeting(m, title, dates, max, removed).value.participants;
      && UniqueNames(qs)
      && (forall i :: 0 <= i < |m.participants| && m.participants[i].hasVoted ==> m.participants[i] in qs)
      && (forall i :: 0 <= i < |m.participants| && m.hostName == Some(m.participants[i].name) ==> m.participants[i] in qs)
  {
    var ps := m.participants;
    RemainingKeepsNamesUnique(ps, removed);
    if UpdateMeeting(m, title, dates, max, removed).Ok? {
      var qs := Remaining(ps, removed);
      forall i | 0 <= i < |ps| && (ps[i].hasVoted || m.hostName == Some(ps[i].name)) ensures ps[i] in qs {
        if ps[i].name in removed {
          assert false;
        }
        assert multiset(qs)[ps[i]] == multiset(ps)[ps[i]];
      }
    }
  }

  /** With names repeated, a voter can be removed: the guard sees only the
      last participant of a name, which here has not voted. */
  lemma RepeatedNameLetsVoterGo()
    ensures var voter := Participant(1, "A", {20}, true, 0);
            var placeholder := Participant(2, "A", {}, false, 0);
            var m := NewMeeting("m", "t", Some("H"), {20}, None, [voter, placeholder]);
            UpdateMeeting(m, "t", {20}, None, {"A"}) == Ok(m.(participants := []))
  {
    var voter := Participant(1, "A", {20}, true, 0);
    var placeholder := Participant(2, "A", {}, false, 0);
    var ps := [voter, placeholder];
    var m := NewMeeting("m", "t", Some("H"), {20}, None, ps);
    assert LastNamed(ps, "A") == Some(1);
    assert Removable(m, {"A"});
    assert Remaining(ps, {"A"}) == [] by {
      assert Remaining([voter], {"A"}) == [];
    }
  }

  /** The retained participants keep their order: those before any position
      come before those after it. */
  lemma RemainingKeepsOrder(ps: seq<Participant>, removed: set<string>, j: nat)
    requires j <= |ps|
    ensures Remaining(ps, removed) == Remaining(ps[..j], removed) + Remaining(ps[j..], removed)
  {
    assert ps == ps[..j] + ps[j..];
    Seqs.FilterAppend(ps[..j], ps[j..], NotRemoved(removed));
  }

  /** Removing no names keeps every participant. */
  lemma RemoveNothing(ps: seq<Participant>)
    ensures Remaining(ps, {}) == ps
  {
    Seqs.FilterAllKept(ps, NotRemoved({}));
  }

  // ----- voting -----

  /** Two lists whose names agree position by position have the same first
      holder of every name. */
  lemma FirstNamedSameNames(ps: seq<Participant>, qs: seq<Participant>, name: string)
    requires |ps| == |qs| && forall i :: 0 <= i < |ps| ==> ps[i].name == qs[i].name
    ensures FirstNamed(ps, name) == FirstNamed(qs, name)
  {
  }

  /** A name votes once: after a successful vote the name has voted, and a
      second vote is refused as a duplicate. */
  lemma {:induction false} VoteOnlyOnce(m: Meeting, name: string, v: set<Date>, now: int, v2: set<Date>, now2: int)
    ensures SubmitVote(m, name, v, now).Ok? ==> AnyVotedNamed(SubmitVote(m, name, v, now).value.participants, name)
    ensures SubmitVote(m, name, v, now).Ok? && v2 <= m.dates ==>
      SubmitVote(SubmitVote(m, name, v, now).value, name, v2, now2) == Err(DuplicateContent)
  {
    var ps := m.participants;
    var r := SubmitVote(m, name, v, now);
    if r.Ok? {
      var m' := r.value;
      var qs := m'.participants;
      assert m'.dates == m.dates;
      if !HasParticipantNamed(ps, name) {
        assert qs[|ps|].name == name && qs[|ps|].hasVoted;
        forall j | 0 <= j < |ps| ensures qs[j].name != name {
          assert qs[j] == qs[..|ps|][j];
        }
        assert FirstNamed(qs, name) == Some(|ps|);
      } else {
        var k := FirstNamed(ps, name).value;
        assert qs == MarkVoted(ps, name, v);
        FirstNamedSameNames(ps, qs, name);
        assert qs[k].hasVoted;
      }
    }
  }

  /** The host's placeholder takes the host's vote even when the meeting is
      full, since filling it adds no participant. */
  lemma HostPlaceholderVotesAtCapacity(m: Meeting, host: string, v: set<Date>, now: int)
    requires m.hostName == Some(host) && v <= m.dates
    requires FirstNamed(m.participants, host).Some? && !m.participants[FirstNamed(m.participants, host).value].hasVoted
    ensures SubmitVote(m, host, v, now).Ok?
    ensures |SubmitVote(m, host, v, now).value.participants| == |m.participants|
    ensures AnyVotedNamed(SubmitVote(m, host, v, now).value.participants, host)
  {
    VoteOnlyOnce(m, host, v, now, v, now);
  }

  /** A capacity of `n` admits a participant while fewer than `n` are in and
      refuses one once `n` are. */
  lemma CapacityBoundary(m: Meeting, n: int, name: string, v: set<Date>, voted: bool, now: int)
    requires m.maxParticipantCount == Some(n)
    ensures |m.participants| == n ==> AddParticipant(m, name, v, voted, now) == Err(InvalidRequest)
    ensures |m.participants| == n - 1 ==> AddParticipant(m, name, v, voted, now).Ok?
    ensures |m.participants| <= n && AddParticipant(m, name, v, voted, now).Ok? ==>
      |AddParticipant(m, name, v, voted, now).value.participants| <= n
  {
  }

  // ----- lifecycle -----

  /** Closing twice is closing once: the second close writes nothing. */
  lemma CloseIdempotent(m: Meeting)
    requires FinalizedIffConfirmed(m)
    ensures Close(m).Ok? ==> Close(Close(m).value.meeting) == Ok(Keep(Close(m).value.meeting))
    ensures Close(m).Ok? ==> Close(m).value.meeting.status == Closed && Close(m).value.meeting.finalizedDate == None
  {
  }

  /** Finalizing again with the same selection, or with none, writes nothing. */
  lemma FinalizeIdempotent(m: Meeting, selected: Option<Date>)
    ensures Finalize(m, selected).Ok? ==>
      var m' := Finalize(m, selected).value.meeting;
      Finalize(m', selected) == Ok(Keep(m')) && Finalize(m', None) == Ok(Keep(m'))
  {
  }

  // ----- scenarios; dates are day numbers -----

  /** One leading date is confirmed without a selection. */
  lemma ScenarioSingleWinner()
    ensures var ps := [Participant(1, "A", {20}, true, 0), Participant(2, "B", {20}, true, 0),
                       Participant(3, "C", {21}, true, 0)];
            var m := NewMeeting("m", "t", None, {20, 21}, None, ps);
            Finalize(m, None) == Ok(Save(m.(status := Confirmed, finalizedDate := Some(20))))
  {
    var ps := [Participant(1, "A", {20}, true, 0), Participant(2, "B", {20}, true, 0),
               Participant(3, "C", {21}, true, 0)];
    var m := NewMeeting("m", "t", None, {20, 21}, None, ps);
    assert VoteCount(ps, 20) == 2 by {
      assert ps[..2][..1] == ps[..1];
    }
    assert VoteCount(ps, 21) == 1 by {
      assert ps[..2][..1] == ps[..1];
    }
    assert TopOf(m) == {20} by {
      assert Leads({20, 21}, ps, 20);
      assert !Leads({20, 21}, ps, 21);
    }
  }

  /** Two tied dates: a selection is needed, and one of them is accepted. */
  lemma ScenarioTie()
    ensures var ps := [Participant(1, "A", {20}, true, 0), Participant(2, "B", {21}, true, 0)];
            var m := NewMeeting("m", "t", None, {20, 21}, None, ps);
            && Finalize(m, None) == Err(InvalidRequest)
            && Finalize(m, Some(21)) == Ok(Save(m.(status := Confirmed, finalizedDate := Some(21))))
  {
    var ps := [Participant(1, "A", {20}, true, 0), Participant(2, "B", {21}, true, 0)];
    var m := NewMeeting("m", "t", None, {20, 21}, None, ps);
    assert ps[..1] == [ps[0]];
    assert VoteCount(ps, 20) == 1;
    assert VoteCount(ps, 21) == 1;
    assert TopOf(m) == {20, 21} by {
      assert Leads({20, 21}, ps, 20);
      assert Leads({20, 21}, ps, 21);
    }
    assert |TopOf(m)| == 2;
  }

  /** A selection outside the candidate dates is refused. */
  lemma ScenarioSelectionOutsideDates(ps: seq<Participant>)
    ensures Finalize(NewMeeting("m", "t", None, {20}, None, ps), Some(25)) == Err(InvalidRequest)
  {
  }

  /** A name that has voted cannot vote again. */
  lemma ScenarioDuplicateVote(v: set<Date>, now: int)
    ensures var m := NewMeeting("m", "t", None, {20, 21}, None, [Participant(1, "A", {20}, true, 0)]);
            v <= m.dates ==> SubmitVote(m, "A", v, now) == Err(DuplicateContent)
  {
  }

  /** Candidate dates cannot be narrowed under an existing vote. */
  lemma ScenarioNarrowedDates()
    ensures var m := NewMeeting("m", "t", None, {20, 21}, None, [Participant(1, "A", {21}, true, 0)]);
            UpdateMeeting(m, "t", {20}, None, {}) == Err(InvalidRequest)
  {
    RemoveNothing([Participant(1, "A", {21}, true, 0)]);
  }
}
