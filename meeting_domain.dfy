/** The meeting aggregate: a meeting with its candidate dates and the
    participants who vote on them. A calendar date is a day number, so that
    "days between" is a subtraction. */
module MeetingDomain {

  datatype Option<+T> = None | Some(value: T)

  /** The client-facing failure kinds of the meeting service. `IllegalArgument`
      is the failed `require` of Kotlin (an `IllegalArgumentException`). */
  datatype Failure = NotFound | InvalidRequest | DuplicateContent | IllegalArgument

  datatype Result<+T> = Ok(value: T) | Err(error: Failure)

  /** A calendar date as a day number. */
  type Date = int

  type MeetingId = string

  /** The three lifecycle states of a meeting, and no others. */
  datatype MeetingStatus = Voting | Closed | Confirmed

  /** A participant of a meeting. Id 0 marks a participant not yet stored.
      `updatedAt` is a timestamp. */
  datatype Participant = Participant(
    id: int,
    name: string,
    voteDates: set<Date>,
    hasVoted: bool,
    updatedAt: int)

  datatype Meeting = Meeting(
    id: MeetingId,
    title: string,
    hostName: Option<string>,
    hostUserId: Option<int>,
    dates: set<Date>,
    maxParticipantCount: Option<int>,
    participants: seq<Participant>,
    memo: Option<string>,
    status: MeetingStatus,
    finalizedDate: Option<Date>)

  /** A meeting built with the defaults of the data class: no host user, no
      memo, status VOTING and no finalized date. */
  function NewMeeting(
    id: MeetingId, title: string, hostName: Option<string>, dates: set<Date>,
    maxParticipantCount: Option<int>, participants: seq<Participant>): (m: Meeting)
    ensures m.status == Voting && m.finalizedDate == None
    ensures m.hostUserId == None && m.memo == None
    ensures m.id == id && m.title == title && m.hostName == hostName && m.dates == dates
    ensures m.maxParticipantCount == maxParticipantCount && m.participants == participants
  {
    Meeting(id, title, hostName, None, dates, maxParticipantCount, participants, None, Voting, None)
  }

  /** Whether a participant may vote for `voteDates`: nothing is left once the
      candidate dates are taken away. */
  function IsVoteDatesAllowed(m: Meeting, voteDates: set<Date>): (allowed: bool)
    ensures allowed <==> voteDates <= m.dates
  {
    assert voteDates - m.dates == {} ==> voteDates <= m.dates by {
      if voteDates - m.dates == {} {
        forall x | x in voteDates ensures x in m.dates {
          assert x !in voteDates - m.dates;
        }
      }
    }
    voteDates - m.dates == {}
  }

  /** The empty vote and a vote for every candidate date are always allowed,
      and so is any part of an allowed vote. */
  lemma AllowedVotes(m: Meeting, v: set<Date>, w: set<Date>)
    ensures IsVoteDatesAllowed(m, {}) && IsVoteDatesAllowed(m, m.dates)
    ensures IsVoteDatesAllowed(m, v) && w <= v ==> IsVoteDatesAllowed(m, w)
  {
  }

  /** A meeting has a finalized date exactly when it is confirmed. */
  ghost predicate FinalizedIffConfirmed(m: Meeting) {
    m.finalizedDate.Some? <==> m.status == Confirmed
  }
}
