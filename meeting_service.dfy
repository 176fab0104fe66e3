/** The meeting service over its repository: each operation loads one
    meeting, applies the rule of `MeetingRules`, and saves the new snapshot
    only when the rule succeeds (and, for close and finalize, only when it
    asks for a write). */
module MeetingService {
  import opened MeetingDomain
  import opened MeetingRules
  import HostDashboard
  import Seqs

  /** The meeting repository: the stored meetings by id. */
  class MeetingRepository {
    var meetings: map<MeetingId, Meeting>

    /** Every meeting is stored under its own id. */
    ghost predicate Valid()
      reads this
    {
      forall id :: id in meetings ==> meetings[id].id == id
    }

    constructor ()
      ensures meetings == map[] && Valid()
    {
      meetings := map[];
    }

    /** `findByMeetingId`. */
    function FindByMeetingId(id: MeetingId): (r: Option<Meeting>)
      reads this
      ensures r.Some? <==> id in meetings
      ensures r.Some? ==> r.value == meetings[id]
    {
      if id in meetings then Some(meetings[id]) else None
    }

    /** `save`: stores the meeting under its id, replacing an older one. */
    method Save(m: Meeting) returns (saved: Meeting)
      requires Valid()
      modifies this
      ensures meetings == old(meetings)[m.id := m] && saved == m
      ensures Valid()
    {
      meetings := meetings[m.id := m];
      saved := m;
    }

    /** `findAll`: every stored meeting once, in no particular order. */
    method FindAll() returns (all: seq<Meeting>)
      requires Valid()
      ensures Listing(all, meetings)
    {
      all := [];
      var pending := meetings.Keys;
      while pending != {}
        invariant pending <= meetings.Keys
        invariant |all| + |pending| == |meetings.Keys|
        invariant forall i :: 0 <= i < |all| ==> all[i].id in meetings && all[i].id !in pending && meetings[all[i].id] == all[i]
        invariant forall id :: id in meetings && id !in pending ==> meetings[id] in all
        invariant forall i, j :: 0 <= i < j < |all| ==> all[i].id != all[j].id
        decreases pending
      {
        ghost var picked := Seqs.Pick(pending);
        var id :| id in pending;
        all := all + [meetings[id]];
        pending := pending - {id};
      }
    }
  }

  /** `all` lists the stored meetings, each once. */
  ghost predicate Listing(all: seq<Meeting>, meetings: map<MeetingId, Meeting>) {
    && |all| == |meetings.Keys|
    && (forall i :: 0 <= i < |all| ==> all[i].id in meetings && meetings[all[i].id] == all[i])
    && (forall id :: id in meetings ==> meetings[id] in all)
    && (forall i, j :: 0 <= i < j < |all| ==> all[i].id != all[j].id)
  }

  class MeetingService {
    const repository: MeetingRepository

    constructor (repository: MeetingRepository)
      ensures this.repository == repository
    {
      this.repository := repository;
    }

    /** Every stored meeting has a finalized date exactly when confirmed. */
    ghost predicate Consistent()
      reads this, repository
    {
      forall id :: id in repository.meetings ==> FinalizedIffConfirmed(repository.meetings[id])
    }

    /** `createMeeting`; `draws` are the random draws of `generateMeetId`. */
    method CreateMeeting(draws: seq<nat>, title: string, hostName: Option<string>, dates: set<Date>,
                         max: Option<int>) returns (r: Result<Meeting>)
      requires |draws| == MeetIdLength && forall i :: 0 <= i < |draws| ==> draws[i] < |MeetIdChars|
      requires repository.Valid()
      modifies repository
      ensures repository.Valid()
      ensures old(Consistent()) ==> Consistent()
      ensures r == MeetingRules.CreateMeeting(MeetIdFrom(draws), title, hostName, dates, max)
      ensures r.Ok? ==> repository.meetings == old(repository.meetings)[r.value.id := r.value]
      ensures r.Err? ==> repository.meetings == old(repository.meetings)
    {
      if !ValidMaxParticipantCount(max) {
        return Err(InvalidRequest);
      }
      var id := MeetIdFrom(draws);
      var saved := repository.Save(NewMeeting(id, title, hostName, dates, max, []));
      r := Ok(saved);
    }

    /** `getMeetingInfo`. */
    method GetMeetingInfo(id: MeetingId) returns (r: Option<Meeting>)
      ensures r.Some? <==> id in repository.meetings
      ensures r.Some? ==> r.value == repository.meetings[id]
    {
      r := repository.FindByMeetingId(id);
    }

    /** `getMeetingInfoSortedByParticipantUpdatedAt`. */
    method GetMeetingInfoSortedByParticipantUpdatedAt(id: MeetingId) returns (r: Option<Meeting>)
      ensures r.Some? <==> id in repository.meetings
      ensures r.Some? ==> r.value == SortedByUpdatedAt(repository.meetings[id])
    {
      var found := repository.FindByMeetingId(id);
      if found.None? {
        return None;
      }
      r := Some(SortedByUpdatedAt(found.value));
    }

    /** `getAllMeetings`. */
    method GetAllMeetings() returns (all: seq<Meeting>)
      requires repository.Valid()
      ensures Listing(all, repository.meetings)
    {
      all := repository.FindAll();
    }

    /** `updateMeeting`. */
    method UpdateMeeting(id: MeetingId, title: string, dates: set<Date>, max: Option<int>,
                         removed: set<string>) returns (r: Result<Meeting>)
      requires repository.Valid()
      modifies repository
      ensures repository.Valid()
      ensures old(Consistent()) ==> Consistent()
      ensures id !in old(repository.meetings) ==> r == Err(NotFound)
      ensures id in old(repository.meetings) ==>
        r == MeetingRules.UpdateMeeting(old(repository.meetings)[id], title, dates, max, removed)
      ensures r.Ok? ==> repository.meetings == old(repository.meetings)[id := r.value]
      ensures r.Err? ==> repository.meetings == old(repository.meetings)
    {
      var found := repository.FindByMeetingId(id);
      if found.None? {
        return Err(NotFound);
      }
      if Consistent() {
        OperationsKeepFinalizedIffConfirmed(found.value);
      }
      r := MeetingRules.UpdateMeeting(found.value, title, dates, max, removed);
      if r.Ok? {
        var saved := repository.Save(r.value);
      }
    }

    /** `getHostMeetingDashboard` over the stored meetings in the order
        `findAll` lists them. */
    method GetHostMeetingDashboard(hostName: string, today: Date) returns (d: HostDashboard.Dashboard)
      requires repository.Valid()
      ensures exists all :: Listing(all, repository.meetings) && d == HostDashboard.GetHostDashboard(all, hostName, today)
    {
      var all := repository.FindAll();
      d := HostDashboard.GetHostDashboard(all, hostName, today);
    }

    /** `addParticipant`. */
    method AddParticipant(id: MeetingId, name: string, voteDates: set<Date>, hasVoted: bool, now: int)
      returns (r: Result<Meeting>)
      requires repository.Valid()
      modifies repository
      ensures repository.Valid()
      ensures old(Consistent()) ==> Consistent()
      ensures id !in old(repository.meetings) ==> r == Err(NotFound)
      ensures id in old(repository.meetings) ==>
        r == MeetingRules.AddParticipant(old(repository.meetings)[id], name, voteDates, hasVoted, now)
      ensures r.Ok? ==> repository.meetings == old(repository.meetings)[id := r.value]
      ensures r.Err? ==> repository.meetings == old(repository.meetings)
    {
      var found := repository.FindByMeetingId(id);
      if found.None? {
        return Err(NotFound);
      }
      if Consistent() {
        OperationsKeepFinalizedIffConfirmed(found.value);
      }
      r := MeetingRules.AddParticipant(found.value, name, voteDates, hasVoted, now);
      if r.Ok? {
        var saved := repository.Save(r.value);
      }
    }

    /** `updateParticipant`. */
    method UpdateParticipant(id: MeetingId, name: string, voteDates: set<Date>) returns (r: Result<Meeting>)
      requires repository.Valid()
      modifies repository
      ensures repository.Valid()
      ensures old(Consistent()) ==> Consistent()
      ensures id !in old(repository.meetings) ==> r == Err(NotFound)
      ensures id in old(repository.meetings) ==>
        r == MeetingRules.UpdateParticipant(old(repository.meetings)[id], name, voteDates)
      ensures r.Ok? ==> repository.meetings == old(repository.meetings)[id := r.value]
      ensures r.Err? ==> repository.meetings == old(repository.meetings)
    {
      var found := repository.FindByMeetingId(id);
      if found.None? {
        return Err(NotFound);
      }
      if Consistent() {
        OperationsKeepFinalizedIffConfirmed(found.value);
      }
      r := MeetingRules.UpdateParticipant(found.value, name, voteDates);
      if r.Ok? {
        var saved := repository.Save(r.value);
      }
    }

    /** `submitVote`: the checks on the loaded meeting, then `addParticipant`
        or `updateParticipant`, which load the meeting again. */
    method SubmitVote(id: MeetingId, name: string, voteDates: set<Date>, now: int) returns (r: Result<Meeting>)
      requires repository.Valid()
      modifies repository
      ensures repository.Valid()
      ensures old(Consistent()) ==> Consistent()
      ensures id !in old(repository.meetings) ==> r == Err(NotFound)
      ensures id in old(repository.meetings) ==>
        r == MeetingRules.SubmitVote(old(repository.meetings)[id], name, voteDates, now)
      ensures r.Ok? ==> repository.meetings == old(repository.meetings)[id := r.value]
      ensures r.Err? ==> repository.meetings == old(repository.meetings)
    {
      var found := repository.FindByMeetingId(id);
      if found.None? {
        return Err(NotFound);
      }
      var m := found.value;
      if !IsVoteDatesAllowed(m, voteDates) {
        return Err(InvalidRequest);
      }
      var first := FirstNamed(m.participants, name);
      if first.None? {
        r := AddParticipant(id, name, voteDates, true, now);
      } else if m.participants[first.value].hasVoted {
        r := Err(DuplicateContent);
      } else if m.hostName != Some(name) {
        r := Err(IllegalArgument);
      } else {
        r := UpdateParticipant(id, name, voteDates);
      }
    }

    /** `existsVotedParticipantByName`: false for an unknown meeting. */
    method ExistsVotedParticipantByName(id: MeetingId, name: string) returns (b: bool)
      ensures b <==> (id in repository.meetings &&
        exists i :: 0 <= i < |repository.meetings[id].participants| &&
          repository.meetings[id].participants[i].name == name && repository.meetings[id].participants[i].hasVoted)
    {
      var found := repository.FindByMeetingId(id);
      if found.None? {
        return false;
      }
      b := AnyVotedNamed(found.value.participants, name);
    }

    /** `closeMeeting`. */
    method CloseMeeting(id: MeetingId) returns (r: Result<Meeting>)
      requires repository.Valid()
      modifies repository
      ensures repository.Valid()
      ensures old(Consistent()) ==> Consistent()
      ensures id !in old(repository.meetings) ==> r == Err(NotFound)
      ensures id in old(repository.meetings) ==>
        var c := Close(old(repository.meetings)[id]);
        && (c.Err? ==> r == Err(c.error) && repository.meetings == old(repository.meetings))
        && (c.Ok? && c.value.Keep? ==> r == Ok(c.value.meeting) && repository.meetings == old(repository.meetings))
        && (c.Ok? && c.value.Save? ==> r == Ok(c.value.meeting) && repository.meetings == old(repository.meetings)[id := c.value.meeting])
      ensures id !in old(repository.meetings) ==> repository.meetings == old(repository.meetings)
    {
      var found := repository.FindByMeetingId(id);
      if found.None? {
        return Err(NotFound);
      }
      if Consistent() {
        OperationsKeepFinalizedIffConfirmed(found.value);
      }
      r := Apply(Close(found.value));
    }

    /** `finalizeMeeting`. */
    method FinalizeMeeting(id: MeetingId, selected: Option<Date>) returns (r: Result<Meeting>)
      requires repository.Valid()
      modifies repository
      ensures repository.Valid()
      ensures old(Consistent()) ==> Consistent()
      ensures id !in old(repository.meetings) ==> r == Err(NotFound)
      ensures id in old(repository.meetings) ==>
        var c := Finalize(old(repository.meetings)[id], selected);
        && (c.Err? ==> r == Err(c.error) && repository.meetings == old(repository.meetings))
        && (c.Ok? && c.value.Keep? ==> r == Ok(c.value.meeting) && repository.meetings == old(repository.meetings))
        && (c.Ok? && c.value.Save? ==> r == Ok(c.value.meeting) && repository.meetings == old(repository.meetings)[id := c.value.meeting])
      ensures id !in old(repository.meetings) ==> repository.meetings == old(repository.meetings)
    {
      var found := repository.FindByMeetingId(id);
      if found.None? {
        return Err(NotFound);
      }
      if Consistent() {
        OperationsKeepFinalizedIffConfirmed(found.value);
      }
      r := Apply(Finalize(found.value, selected));
    }

    /** Saves a meeting the rule asks to write and hands back the meeting. */
    method Apply(c: Result<Change>) returns (r: Result<Meeting>)
      requires repository.Valid()
      modifies repository
      ensures repository.Valid()
      ensures c.Err? ==> r == Err(c.error) && repository.meetings == old(repository.meetings)
      ensures c.Ok? ==> r == Ok(c.value.meeting)
      ensures c.Ok? && c.value.Keep? ==> repository.meetings == old(repository.meetings)
      ensures c.Ok? && c.value.Save? ==> repository.meetings == old(repository.meetings)[c.value.meeting.id := c.value.meeting]
    {
      match c
      case Err(e) => r := Err(e);
      case Ok(Keep(m)) => r := Ok(m);
      case Ok(Save(m)) =>
        var saved := repository.Save(m);
        r := Ok(saved);
    }
  }
}
