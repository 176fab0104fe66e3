/** The vote tally of a meeting: how many voted participants chose each
    candidate date, which dates lead, and how a final date is chosen among
    them (`topVotedDates` and `resolveFinalizedDate` of the meeting service). */
module VoteTally {
  import opened MeetingDomain
  import Seqs

  /** A participant's vote counts for `d` when they have voted and chose `d`. */
  predicate VotesFor(p: Participant, d: Date) {
    p.hasVoted && d in p.voteDates
  }

  /** The number of participants of `ps` whose vote counts for `d`. */
  function VoteCount(ps: seq<Participant>, d: Date): (n: nat)
    ensures n <= |ps|
    ensures n == 0 <==> forall i :: 0 <= i < |ps| ==> !VotesFor(ps[i], d)
    ensures n == |ps| <==> forall i :: 0 <= i < |ps| ==> VotesFor(ps[i], d)
  {
    if ps == [] then 0
    else
      var k := |ps| - 1;
      assert forall i :: 0 <= i < k ==> ps[..k][i] == ps[i];
      VoteCount(ps[..k], d) + if VotesFor(ps[k], d) then 1 else 0
  }

  /** Counting over two lists one after the other adds their counts. */
  lemma {:induction false} VoteCountAppend(a: seq<Participant>, b: seq<Participant>, d: Date)
    ensures VoteCount(a + b, d) == VoteCount(a, d) + VoteCount(b, d)
  {
    if b != [] {
      var k := |b| - 1;
      assert (a + b)[..|a + b| - 1] == a + b[..k];
      assert (a + b)[|a + b| - 1] == b[k];
      VoteCountAppend(a, b[..k], d);
      assert VoteCount(a + b, d) == VoteCount(a + b[..k], d) + (if VotesFor(b[k], d) then 1 else 0);
    } else {
      assert a + b == a;
    }
  }

  /** A candidate date leads when no candidate date has more votes. */
  ghost predicate Leads(dates: set<Date>, ps: seq<Participant>, d: Date) {
    d in dates && forall e :: e in dates ==> VoteCount(ps, e) <= VoteCount(ps, d)
  }

  /** The leading dates: the candidate dates that reach the highest count. */
  function TopDates(dates: set<Date>, ps: seq<Participant>): (top: set<Date>)
    ensures top <= dates
    ensures forall d :: d in top <==> Leads(dates, ps, d)
  {
    set d | d in dates && forall e :: e in dates ==> VoteCount(ps, e) <= VoteCount(ps, d)
  }

  /** The leading dates of a meeting's current votes. */
  function TopOf(m: Meeting): set<Date> {
    TopDates(m.dates, m.participants)
  }

  /** Some candidate date leads whenever there is a candidate date. */
  lemma {:induction false} LeaderExists(dates: set<Date>, ps: seq<Participant>)
    requires dates != {}
    ensures exists d :: Leads(dates, ps, d)
    decreases |dates|
  {
    var x := Seqs.Pick(dates);
    var rest := dates - {x};
    if rest == {} {
      assert dates == {x};
      assert Leads(dates, ps, x);
    } else {
      LeaderExists(rest, ps);
      var d :| Leads(rest, ps, d);
      if VoteCount(ps, x) <= VoteCount(ps, d) {
        assert Leads(dates, ps, d);
      } else {
        assert Leads(dates, ps, x);
      }
    }
  }

  /** The tally names no leader exactly when there are no candidate dates. */
  lemma TopDatesEmptyIff(dates: set<Date>, ps: seq<Participant>)
    ensures TopDates(dates, ps) == {} <==> dates == {}
  {
    if dates != {} {
      LeaderExists(dates, ps);
      var d :| Leads(dates, ps, d);
      assert d in TopDates(dates, ps);
    }
  }

  /** All leading dates have the same count. */
  lemma TopDatesShareCount(dates: set<Date>, ps: seq<Participant>, d: Date, e: Date)
    requires d in TopDates(dates, ps) && e in TopDates(dates, ps)
    ensures VoteCount(ps, d) == VoteCount(ps, e)
  {
  }

  /** Votes of participants who have not voted count for nothing. */
  lemma {:induction false} NoVotesNoCount(ps: seq<Participant>, d: Date)
    requires forall i :: 0 <= i < |ps| ==> !ps[i].hasVoted
    ensures VoteCount(ps, d) == 0
  {
    if ps != [] {
      var k := |ps| - 1;
      assert forall i :: 0 <= i < k ==> ps[..k][i] == ps[i];
      NoVotesNoCount(ps[..k], d);
    }
  }

  /** When nobody has voted, every candidate date leads. */
  lemma NoVotesAllTie(dates: set<Date>, ps: seq<Participant>)
    requires forall i :: 0 <= i < |ps| ==> !ps[i].hasVoted
    ensures TopDates(dates, ps) == dates
  {
    forall e | e in dates ensures VoteCount(ps, e) == 0 {
      NoVotesNoCount(ps, e);
    }
  }

  /** The participants who have voted. */
  function Voted(ps: seq<Participant>): seq<Participant> {
    Seqs.Filter(ps, HasVoted())
  }

  /** The test `{ it.hasVoted }`. */
  function HasVoted(): Participant -> bool {
    (p: Participant) => p.hasVoted
  }

  /** Leaving out the participants who have not voted changes no count. */
  lemma {:induction false} VoteCountOfVoted(ps: seq<Participant>, d: Date)
    ensures VoteCount(Voted(ps), d) == VoteCount(ps, d)
  {
    if ps != [] {
      var k := |ps| - 1;
      VoteCountOfVoted(ps[..k], d);
      var init := Voted(ps[..k]);
      if ps[k].hasVoted {
        assert Voted(ps) == init + [ps[k]];
        assert (init + [ps[k]])[..|init|] == init;
      } else {
        assert Voted(ps) == init;
      }
    }
  }

  /** The participant with only the votes that fall on candidate dates. */
  function Trimmed(p: Participant, dates: set<Date>): Participant {
    p.(voteDates := p.voteDates * dates)
  }

  function TrimAll(ps: seq<Participant>, dates: set<Date>): (r: seq<Participant>)
    ensures |r| == |ps|
    ensures forall i :: 0 <= i < |ps| ==> r[i] == Trimmed(ps[i], dates)
  {
    seq(|ps|, i requires 0 <= i < |ps| => Trimmed(ps[i], dates))
  }

  /** Votes for dates that are not candidates change no candidate's count. */
  lemma {:induction false} VoteCountTrimmed(ps: seq<Participant>, dates: set<Date>, d: Date)
    requires d in dates
    ensures VoteCount(TrimAll(ps, dates), d) == VoteCount(ps, d)
  {
    if ps != [] {
      var k := |ps| - 1;
      var t := TrimAll(ps, dates);
      VoteCountTrimmed(ps[..k], dates, d);
      assert t[..k] == TrimAll(ps[..k], dates);
      assert VotesFor(t[k], d) == VotesFor(ps[k], d);
      assert VoteCount(t, d) == VoteCount(t[..k], d) + (if VotesFor(t[k], d) then 1 else 0);
    }
  }

  /** The leading dates ignore votes for dates that are not candidates, and
      the participants who have not voted. */
  lemma TopDatesIgnoreStrayVotes(dates: set<Date>, ps: seq<Participant>)
    ensures TopDates(dates, TrimAll(ps, dates)) == TopDates(dates, ps)
    ensures TopDates(dates, Voted(ps)) == TopDates(dates, ps)
  {
    forall e | e in dates
      ensures VoteCount(TrimAll(ps, dates), e) == VoteCount(ps, e)
      ensures VoteCount(Voted(ps), e) == VoteCount(ps, e)
    {
      VoteCountTrimmed(ps, dates, e);
      VoteCountOfVoted(ps, e);
    }
  }

  /** The tally of `topVotedDates`: a count per candidate date, raised once
      for each voted participant and each of their dates that is a
      candidate, and then the dates whose count is the largest. */
  method TopVotedDates(m: Meeting) returns (top: set<Date>)
    ensures top == TopOf(m)
  {
    var ps := m.participants;
    var voteCounts: map<Date, nat> := map d | d in m.dates :: 0;
    var i := 0;
    while i < |ps|
      invariant 0 <= i <= |ps|
      invariant voteCounts.Keys == m.dates
      invariant forall d :: d in voteCounts ==> voteCounts[d] == VoteCount(ps[..i], d)
    {
      var p := ps[i];
      assert ps[..i + 1][..i] == ps[..i];
      if p.hasVoted {
        var pending := p.voteDates;
        while pending != {}
          invariant pending <= p.voteDates
          invariant voteCounts.Keys == m.dates
          invariant forall d :: d in voteCounts ==>
            voteCounts[d] == VoteCount(ps[..i], d) + if d in p.voteDates - pending then 1 else 0
          decreases pending
        {
          ghost var picked := Seqs.Pick(pending);
          var d :| d in pending;
          if d in voteCounts {
            voteCounts := voteCounts[d := voteCounts[d] + 1];
          }
          pending := pending - {d};
        }
      }
      i := i + 1;
    }
    assert ps[..i] == ps;

    // maxOfOrNull over the counts, with 0 when there are none
    var maxOrNull: Option<nat> := None;
    var unseen := voteCounts.Keys;
    while unseen != {}
      invariant unseen <= voteCounts.Keys
      invariant maxOrNull.None? <==> unseen == voteCounts.Keys
      invariant maxOrNull.Some? ==> exists d :: d in voteCounts && d !in unseen && voteCounts[d] == maxOrNull.value
      invariant maxOrNull.Some? ==> forall d :: d in voteCounts && d !in unseen ==> voteCounts[d] <= maxOrNull.value
      decreases unseen
    {
      ghost var picked := Seqs.Pick(unseen);
      var d :| d in unseen;
      if maxOrNull.None? || maxOrNull.value < voteCounts[d] {
        maxOrNull := Some(voteCounts[d]);
      }
      unseen := unseen - {d};
    }
    var maxCount := if maxOrNull.Some? then maxOrNull.value else 0;
    top := set d | d in voteCounts && voteCounts[d] == maxCount;
  }

  /** The earliest of a non-empty set of dates. */
  function MinDate(s: set<Date>): (r: Date)
    requires s != {}
    ensures r in s && forall y :: y in s ==> r <= y
  {
    MinExists(s);
    var x :| x in s && forall y :: y in s ==> x <= y;
    x
  }

  lemma {:induction false} MinExists(s: set<Date>)
    requires s != {}
    ensures exists x :: x in s && forall y :: y in s ==> x <= y
    decreases |s|
  {
    var z := Seqs.Pick(s);
    if s != {z} {
      MinExists(s - {z});
      var x :| x in s - {z} && forall y :: y in s - {z} ==> x <= y;
      var least := if z < x then z else x;
      forall y | y in s ensures least <= y {
        if y != z {
          assert y in s - {z};
        }
      }
    }
  }

  /** `resolveFinalizedDate`: a single leading date is the final date, and a
      different selection is refused; among tied leaders the selection is
      required and must be one of them. */
  function ResolveFinalizedDate(m: Meeting, selected: Option<Date>): (r: Result<Date>)
    ensures r.Err? ==> r.error == InvalidRequest
    ensures r.Ok? ==> r.value in TopOf(m)
    ensures selected.Some? && r.Ok? ==> r.value == selected.value
    ensures |TopOf(m)| == 1 ==> (r.Ok? <==> selected.None? || selected.value in TopOf(m))
    ensures |TopOf(m)| != 1 ==> (r.Ok? <==> selected.Some? && selected.value in TopOf(m))
  {
    var top := TopOf(m);
    if |top| == 1 then
      var topDate := MinDate(top);
      assert top == {topDate} by {
        assert top == (top - {topDate}) + {topDate};
        assert |top - {topDate}| == 0;
      }
      if selected.Some? && selected.value != topDate then Err(InvalidRequest)
      else Ok(topDate)
    else if selected.None? then Err(InvalidRequest)
    else if selected.value !in top then Err(InvalidRequest)
    else Ok(selected.value)
  }
}
