/** The host dashboard of `getHostMeetingDashboard`: one card per meeting of
    the host, a count per status, and the cards split into the meetings in
    progress and the confirmed ones, each ordered by days to go. */
module HostDashboard {
  import opened MeetingDomain
  import opened VoteTally
  import Seqs

  datatype Card = Card(
    meetingId: MeetingId,
    title: string,
    status: MeetingStatus,
    leadingDate: Option<Date>,
    isLeadingDateTied: bool,
    finalizedDate: Option<Date>,
    dDay: Option<int>,
    completedVoteCount: nat,
    totalVoteCount: nat,
    voteProgressPercent: nat)

  datatype Summary = Summary(votingCount: nat, closedCount: nat, confirmedCount: nat)

  datatype Dashboard = Dashboard(
    hostName: string,
    summary: Summary,
    inProgressMeetings: seq<Card>,
    confirmedMeetings: seq<Card>)

  /** The days from `today` to `date` (`ChronoUnit.DAYS.between`). */
  function DaysBetween(today: Date, date: Date): int {
    date - today
  }

  /** `completed * 100 / total` as a whole percentage, 0 without a
      denominator; with `completed <= total` it is at most 100. */
  function ProgressPercent(completed: nat, total: nat): (p: nat)
    requires completed <= total
    ensures p <= 100
    ensures total == 0 ==> p == 0
    ensures total > 0 ==> p * total <= completed * 100 < (p + 1) * total
  {
    if total == 0 then 0
    else
      var q := (completed * 100) / total;
      QuotientBounds(completed * 100, total);
      MulMonotone(completed, total, 100);
      assert q <= 100 by {
        if q > 100 {
          MulMonotone(101, q, total);
        }
      }
      q
  }

  lemma QuotientBounds(a: nat, b: nat)
    requires b > 0
    ensures (a / b) * b <= a < (a / b + 1) * b
  {
    assert a == (a / b) * b + a % b;
  }

  lemma MulMonotone(x: nat, y: nat, b: nat)
    requires x <= y
    ensures x * b <= y * b
  {
  }

  /** The earliest of the leading dates, none without candidate dates. */
  function LeadingDate(m: Meeting): (r: Option<Date>)
    ensures r.Some? <==> m.dates != {}
    ensures r.Some? ==> r.value in TopOf(m) && forall d :: d in TopOf(m) ==> r.value <= d
  {
    TopDatesEmptyIff(m.dates, m.participants);
    if TopOf(m) == {} then None else Some(MinDate(TopOf(m)))
  }

  /** The card of one meeting: the earliest leading date, whether the lead
      is shared, the vote progress as a whole percentage of a denominator
      never below the number of votes, and the days to the confirmed date
      (or, before confirmation, to the leading date). */
  function MakeCard(m: Meeting, today: Date): (c: Card)
    ensures c.meetingId == m.id && c.title == m.title && c.status == m.status
    ensures c.finalizedDate == m.finalizedDate
    ensures c.leadingDate.Some? <==> m.dates != {}
    ensures c.leadingDate.Some? ==>
      c.leadingDate.value in TopOf(m) && forall d :: d in TopOf(m) ==> c.leadingDate.value <= d
    ensures c.isLeadingDateTied <==> |TopOf(m)| > 1
    ensures c.completedVoteCount == |Voted(m.participants)|
    ensures c.completedVoteCount <= c.totalVoteCount
    ensures m.maxParticipantCount.None? ==> c.totalVoteCount == |m.participants|
    ensures m.maxParticipantCount.Some? ==>
      c.totalVoteCount == if m.maxParticipantCount.value < c.completedVoteCount then c.completedVoteCount
                          else m.maxParticipantCount.value
    ensures c.voteProgressPercent <= 100
    ensures c.voteProgressPercent == ProgressPercent(c.completedVoteCount, c.totalVoteCount)
    ensures var reference := if m.status == Confirmed then m.finalizedDate else c.leadingDate;
      c.dDay == if reference.Some? then Some(reference.value - today) else None
  {
    var top := TopOf(m);
    var leadingDate := LeadingDate(m);
    var reference := if m.status == Confirmed then m.finalizedDate else leadingDate;
    var completed := Seqs.Count(m.participants, HasVoted());
    var base := if m.maxParticipantCount.Some? then m.maxParticipantCount.value else |m.participants|;
    var total: nat := if base < completed then completed else base;
    var percent := ProgressPercent(completed, total);
    Card(m.id, m.title, m.status, leadingDate, |top| > 1, m.finalizedDate,
         if reference.Some? then Some(DaysBetween(today, reference.value)) else None,
         completed, total, percent)
  }

  /** `compareBy { dDay == null }.thenBy { dDay }`: cards with a day count
      first, by the count, and those without one last. */
  predicate DDayOrder(a: Card, b: Card) {
    match (a.dDay, b.dDay)
    case (Some(x), Some(y)) => x <= y
    case (Some(_), None) => true
    case (None, Some(_)) => false
    case (None, None) => true
  }

  lemma DDayOrderTotal()
    ensures Seqs.Total(DDayOrder)
  {
  }

  function HostedBy(hostName: string): Meeting -> bool {
    (m: Meeting) => m.hostName == Some(hostName)
  }

  function StatusIs(s: MeetingStatus): Meeting -> bool {
    (m: Meeting) => m.status == s
  }

  function CardConfirmed(): Card -> bool {
    (c: Card) => c.status == Confirmed
  }

  function CardNotConfirmed(): Card -> bool {
    (c: Card) => c.status != Confirmed
  }

  function Cards(ms: seq<Meeting>, today: Date): (cs: seq<Card>)
    ensures |cs| == |ms|
    ensures forall i :: 0 <= i < |ms| ==> cs[i] == MakeCard(ms[i], today)
  {
    seq(|ms|, i requires 0 <= i < |ms| => MakeCard(ms[i], today))
  }

  /** `getHostMeetingDashboard` over the stored meetings `all`: the host's
      meetings are those whose host name is `hostName`. */
  function GetHostDashboard(all: seq<Meeting>, hostName: string, today: Date): (d: Dashboard)
    ensures d.hostName == hostName
    ensures var hosted := Seqs.Filter(all, HostedBy(hostName));
      && d.summary.votingCount == Seqs.Count(hosted, StatusIs(Voting))
      && d.summary.closedCount == Seqs.Count(hosted, StatusIs(Closed))
      && d.summary.confirmedCount == Seqs.Count(hosted, StatusIs(Confirmed))
    ensures var cards := Cards(Seqs.Filter(all, HostedBy(hostName)), today);
      && multiset(d.inProgressMeetings) == multiset(Seqs.Filter(cards, CardNotConfirmed()))
      && multiset(d.confirmedMeetings) == multiset(Seqs.Filter(cards, CardConfirmed()))
    ensures Seqs.SortedBy(d.inProgressMeetings, DDayOrder) && Seqs.SortedBy(d.confirmedMeetings, DDayOrder)
  {
    var hosted := Seqs.Filter(all, HostedBy(hostName));
    var cards := Cards(hosted, today);
    DDayOrderTotal();
    Dashboard(
      hostName,
      Summary(Seqs.Count(hosted, StatusIs(Voting)), Seqs.Count(hosted, StatusIs(Closed)),
              Seqs.Count(hosted, StatusIs(Confirmed))),
      Seqs.InsertionSort(Seqs.Filter(cards, CardNotConfirmed()), DDayOrder),
      Seqs.InsertionSort(Seqs.Filter(cards, CardConfirmed()), DDayOrder))
  }

  /** Every meeting has one of the three statuses, so the status counts add
      up to the number of meetings. */
  lemma {:induction false} StatusCountsAddUp(ms: seq<Meeting>)
    ensures Seqs.Count(ms, StatusIs(Voting)) + Seqs.Count(ms, StatusIs(Closed)) + Seqs.Count(ms, StatusIs(Confirmed)) == |ms|
  {
    if ms != [] {
      StatusCountsAddUp(ms[..|ms| - 1]);
    }
  }

  /** The dashboard's two lists hold the card of every meeting of the host
      once, the unconfirmed ones in progress and the confirmed ones apart,
      and its summary counts every meeting of the host once. */
  lemma DashboardPartitionsHostMeetings(all: seq<Meeting>, hostName: string, today: Date)
    ensures var d := GetHostDashboard(all, hostName, today);
      var hosted := Seqs.Filter(all, HostedBy(hostName));
      && multiset(d.inProgressMeetings) + multiset(d.confirmedMeetings) == multiset(Cards(hosted, today))
      && (forall i :: 0 <= i < |d.inProgressMeetings| ==> d.inProgressMeetings[i].status != Confirmed)
      && (forall i :: 0 <= i < |d.confirmedMeetings| ==> d.confirmedMeetings[i].status == Confirmed)
      && d.summary.votingCount + d.summary.closedCount + d.summary.confirmedCount == |hosted|
  {
    var d := GetHostDashboard(all, hostName, today);
    var hosted := Seqs.Filter(all, HostedBy(hostName));
    var cards := Cards(hosted, today);
    StatusCountsAddUp(hosted);
    var ip, cf := Seqs.Filter(cards, CardNotConfirmed()), Seqs.Filter(cards, CardConfirmed());
    Seqs.FilterSplits(cards, CardNotConfirmed(), CardConfirmed());
    forall i | 0 <= i < |d.inProgressMeetings| ensures d.inProgressMeetings[i].status != Confirmed {
      var c := d.inProgressMeetings[i];
      assert c in multiset(d.inProgressMeetings);
      Seqs.FilterMember(cards, CardNotConfirmed(), c);
    }
    forall i | 0 <= i < |d.confirmedMeetings| ensures d.confirmedMeetings[i].status == Confirmed {
      var c := d.confirmedMeetings[i];
      assert c in multiset(d.confirmedMeetings);
      Seqs.FilterMember(cards, CardConfirmed(), c);
    }
  }

  /** Every card on the dashboard is the card of a stored meeting of the
      host, returned as `m`. */
  lemma DashboardShowsOnlyHostMeetings(all: seq<Meeting>, hostName: string, today: Date, c: Card)
    returns (m: Meeting)
    requires var d := GetHostDashboard(all, hostName, today);
      c in d.inProgressMeetings || c in d.confirmedMeetings
    ensures m in all && m.hostName == Some(hostName) && c == MakeCard(m, today)
  {
    var d := GetHostDashboard(all, hostName, today);
    var cards := Cards(Seqs.Filter(all, HostedBy(hostName)), today);
    if c in d.inProgressMeetings {
      assert c in multiset(d.inProgressMeetings);
      Seqs.FilterMember(cards, CardNotConfirmed(), c);
    } else {
      assert c in multiset(d.confirmedMeetings);
      Seqs.FilterMember(cards, CardConfirmed(), c);
    }
    m := CardOfHosted(all, hostName, today, c);
  }

  lemma CardOfHosted(all: seq<Meeting>, hostName: string, today: Date, c: Card) returns (m: Meeting)
    requires c in Cards(Seqs.Filter(all, HostedBy(hostName)), today)
    ensures m in all && m.hostName == Some(hostName) && c == MakeCard(m, today)
  {
    var hosted := Seqs.Filter(all, HostedBy(hostName));
    var cards := Cards(hosted, today);
    var k :| 0 <= k < |cards| && cards[k] == c;
    m := hosted[k];
    Seqs.FilterMember(all, HostedBy(hostName), m);
  }
}
