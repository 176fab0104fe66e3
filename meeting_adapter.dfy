/** The relational persistence of meetings: the stored entities hold
    mutable sets of child entities, and saving a meeting snapshot brings
    those sets in line with the snapshot in place, keeping the entities that
    still fit, dropping the others and creating entities only for what is
    missing. Entities are compared by identity, as the entity classes do not
    define equality. */
module MeetingAdapter {
  import opened MeetingDomain
  import Seqs

  /** A candidate date of a stored meeting. */
  class MeetingDateEntity {
    const availableDate: Date

    constructor (availableDate: Date)
      ensures this.availableDate == availableDate
    {
      this.availableDate := availableDate;
    }
  }

  /** One date of a stored participant's vote. */
  class VoteDateEntity {
    const voteDate: Date

    constructor (voteDate: Date)
      ensures this.voteDate == voteDate
    {
      this.voteDate := voteDate;
    }
  }

  /** A stored participant; the id is none until the database assigns one. */
  class ParticipantEntity {
    const participantId: Option<int>
    var name: string
    var voteDates: set<VoteDateEntity>

    constructor (participantId: Option<int>, name: string)
      ensures this.participantId == participantId && this.name == name && voteDates == {}
    {
      this.participantId := participantId;
      this.name := name;
      voteDates := {};
    }
  }

  /** A stored meeting. */
  class MeetingEntity {
    const meetId: MeetingId
    var title: string
    var hostName: Option<string>
    var hostUserId: Option<int>
    var maxParticipantCount: Option<int>
    var memo: Option<string>
    var status: MeetingStatus
    var finalizedDate: Option<Date>
    var dates: set<MeetingDateEntity>
    var participants: set<ParticipantEntity>

    /** `MeetingJpaEntity.of(meetId, title)`: the other columns at their
        defaults, and no dates or participants yet. */
    constructor (meetId: MeetingId, title: string)
      ensures this.meetId == meetId && this.title == title
      ensures hostName == None && hostUserId == None && maxParticipantCount == None && memo == None
      ensures status == Voting && finalizedDate == None
      ensures dates == {} && participants == {}
    {
      this.meetId := meetId;
      this.title := title;
      hostName := None;
      hostUserId := None;
      maxParticipantCount := None;
      memo := None;
      status := Voting;
      finalizedDate := None;
      dates := {};
      participants := {};
    }
  }

  /** The columns of a stored meeting other than its id, title and child
      collections. */
  datatype Columns = Columns(
    hostName: Option<string>, hostUserId: Option<int>, maxParticipantCount: Option<int>,
    memo: Option<string>, status: MeetingStatus, finalizedDate: Option<Date>)

  ghost function ColumnsOf(m: MeetingEntity): Columns
    reads m
  {
    Columns(m.hostName, m.hostUserId, m.maxParticipantCount, m.memo, m.status, m.finalizedDate)
  }

  /** The dates a set of date entities stands for. */
  function DateValues(s: set<MeetingDateEntity>): set<Date> {
    set e | e in s :: e.availableDate
  }

  function VoteDateValues(s: set<VoteDateEntity>): set<Date> {
    set e | e in s :: e.voteDate
  }

  lemma DateValuesAdd(s: set<MeetingDateEntity>, e: MeetingDateEntity)
    ensures DateValues(s + {e}) == DateValues(s) + {e.availableDate}
  {
  }

  lemma VoteDateValuesAdd(s: set<VoteDateEntity>, e: VoteDateEntity)
    ensures VoteDateValues(s + {e}) == VoteDateValues(s) + {e.voteDate}
  {
  }

  /** `updateDates`: afterwards the meeting's date entities stand for
      exactly `dates`; an entity is dropped exactly when its date is not
      in `dates`, and one new entity is created for each date that was
      missing. */
  method UpdateDates(m: MeetingEntity, dates: set<Date>)
    modifies m
    ensures DateValues(m.dates) == dates
    ensures forall e :: e in old(m.dates) ==> (e in m.dates <==> e.availableDate in dates)
    ensures forall e :: e in m.dates && e !in old(m.dates) ==>
      fresh(e) && e.availableDate !in DateValues(old(m.dates))
    ensures forall e1, e2 :: (e1 in m.dates && e2 in m.dates && e1 !in old(m.dates) && e2 !in old(m.dates) &&
       e1.availableDate == e2.availableDate) ==> e1 == e2
    ensures m.title == old(m.title) && ColumnsOf(m) == old(ColumnsOf(m)) && m.participants == old(m.participants)
  {
    m.dates := set e | e in m.dates && e.availableDate in dates;
    ghost var kept := m.dates;
    var toAdd := dates - DateValues(m.dates);
    while toAdd != {}
      invariant toAdd <= dates - DateValues(kept)
      invariant kept <= m.dates
      invariant DateValues(m.dates) == dates - toAdd
      invariant forall e :: e in m.dates && e !in kept ==>
        fresh(e) && e.availableDate in dates && e.availableDate !in DateValues(kept) && e.availableDate !in toAdd
      invariant forall e1, e2 :: (e1 in m.dates && e2 in m.dates && e1 !in kept && e2 !in kept &&
         e1.availableDate == e2.availableDate) ==> e1 == e2
      invariant m.title == old(m.title) && ColumnsOf(m) == old(ColumnsOf(m)) && m.participants == old(m.participants)
      decreases toAdd
    {
      ghost var picked := Seqs.Pick(toAdd);
      var date :| date in toAdd;
      var entity := new MeetingDateEntity(date);
      DateValuesAdd(m.dates, entity);
      m.dates := m.dates + {entity};
      toAdd := toAdd - {date};
    }
  }

  /** `updateVoteDates`: afterwards the participant's vote-date entities
      stand for exactly `voteDates`; those for kept dates are the same
      objects, and one new entity is created for each date that was
      missing. */
  method UpdateVoteDates(p: ParticipantEntity, voteDates: set<Date>)
    modifies p
    ensures VoteDateValues(p.voteDates) == voteDates
    ensures forall e :: e in old(p.voteDates) ==> (e in p.voteDates <==> e.voteDate in voteDates)
    ensures forall e :: e in p.voteDates && e !in old(p.voteDates) ==>
      fresh(e) && e.voteDate !in VoteDateValues(old(p.voteDates))
    ensures forall e1, e2 :: (e1 in p.voteDates && e2 in p.voteDates && e1 !in old(p.voteDates) && e2 !in old(p.voteDates) &&
       e1.voteDate == e2.voteDate) ==> e1 == e2
    ensures p.name == old(p.name)
  {
    p.voteDates := set e | e in p.voteDates && e.voteDate in voteDates;
    ghost var kept := p.voteDates;
    var toAdd := voteDates - VoteDateValues(p.voteDates);
    while toAdd != {}
      invariant toAdd <= voteDates - VoteDateValues(kept)
      invariant kept <= p.voteDates
      invariant VoteDateValues(p.voteDates) == voteDates - toAdd
      invariant forall e :: e in p.voteDates && e !in kept ==>
        fresh(e) && e.voteDate in voteDates && e.voteDate !in VoteDateValues(kept) && e.voteDate !in toAdd
      invariant forall e1, e2 :: (e1 in p.voteDates && e2 in p.voteDates && e1 !in kept && e2 !in kept &&
         e1.voteDate == e2.voteDate) ==> e1 == e2
      invariant p.name == old(p.name)
      decreases toAdd
    {
      ghost var picked := Seqs.Pick(toAdd);
      var date :| date in toAdd;
      var entity := new VoteDateEntity(date);
      VoteDateValuesAdd(p.voteDates, entity);
      p.voteDates := p.voteDates + {entity};
      toAdd := toAdd - {date};
    }
  }

  /** The ids the database has assigned among `s`. */
  function IdsOf(s: set<ParticipantEntity>): set<int> {
    set e | e in s && e.participantId.Some? :: e.participantId.value
  }

  /** The persisted ids a snapshot still refers to (id 0 marks a new one). */
  function IncomingIds(ps: seq<Participant>): set<int> {
    set i | 0 <= i < |ps| && ps[i].id != 0 :: ps[i].id
  }

  /** No two stored participants share an assigned id (it is their key). */
  predicate UniqueIds(s: set<ParticipantEntity>) {
    forall a, b :: a in s && b in s && a.participantId.Some? && a.participantId == b.participantId ==> a == b
  }

  /** The removal step keeps unsaved entities and those the snapshot still
      refers to. */
  predicate Kept(e: ParticipantEntity, incomingIds: set<int>) {
    e.participantId.None? || e.participantId.value in incomingIds
  }

  /** The positions among the first `n` of the snapshot's participants that
      get a new entity, in order: those with id 0 and those whose id no
      stored entity has. */
  function AddedPositions(ps: seq<Participant>, n: nat, ids: set<int>): (r: seq<nat>)
    requires n <= |ps|
    ensures forall j :: 0 <= j < |r| ==> r[j] < n
  {
    if n == 0 then []
    else
      var init := AddedPositions(ps, n - 1, ids);
      if ps[n - 1].id == 0 || ps[n - 1].id !in ids then init + [n - 1] else init
  }

  /** The positions that get a new entity are exactly those with id 0 or
      an unknown id, each once and in increasing order. */
  lemma {:induction false} AddedPositionsExactly(ps: seq<Participant>, n: nat, ids: set<int>)
    requires n <= |ps|
    ensures var r := AddedPositions(ps, n, ids);
      && (forall j :: 0 <= j < |r| ==> r[j] < n && (ps[r[j]].id == 0 || ps[r[j]].id !in ids))
      && (forall i :: 0 <= i < n && (ps[i].id == 0 || ps[i].id !in ids) ==> i in r)
      && (forall j, k :: 0 <= j < k < |r| ==> r[j] < r[k])
  {
    if n > 0 {
      AddedPositionsExactly(ps, n - 1, ids);
    }
  }

  lemma AddedPositionsNext(ps: seq<Participant>, i: nat, ids: set<int>)
    requires i < |ps|
    ensures ps[i].id == 0 || ps[i].id !in ids ==> AddedPositions(ps, i + 1, ids) == AddedPositions(ps, i, ids) + [i]
    ensures ps[i].id != 0 && ps[i].id in ids ==> AddedPositions(ps, i + 1, ids) == AddedPositions(ps, i, ids)
  {
  }

  /** The last position among the first `n` of the snapshot that carries
      id `k`. */
  function LastWithId(ps: seq<Participant>, n: nat, k: int): (r: Option<nat>)
    requires n <= |ps|
    ensures r.Some? ==> r.value < n
  {
    if n == 0 then None
    else if ps[n - 1].id == k then Some(n - 1)
    else LastWithId(ps, n - 1, k)
  }

  /** The last position with id `k` is there exactly when some position
      carries `k`, carries `k` itself, and no later position does. */
  lemma {:induction false} LastWithIdExactly(ps: seq<Participant>, n: nat, k: int)
    requires n <= |ps|
    ensures var r := LastWithId(ps, n, k);
      && (r.None? <==> forall i :: 0 <= i < n ==> ps[i].id != k)
      && (r.Some? ==> ps[r.value].id == k && forall j :: r.value < j < n ==> ps[j].id != k)
  {
    if n > 0 && ps[n - 1].id != k {
      LastWithIdExactly(ps, n - 1, k);
    }
  }

  /** The entity carries the participant's name and vote. */
  ghost predicate Mirrors(e: ParticipantEntity, p: Participant)
    reads e
  {
    e.name == p.name && VoteDateValues(e.voteDates) == p.voteDates
  }

  /** The entity created for participant `p`: unsaved for id 0, else with
      `p`'s id, and carrying `p`'s name and vote. */
  ghost predicate CreatedFor(e: ParticipantEntity, p: Participant)
    reads e
  {
    e.participantId == (if p.id == 0 then None else Some(p.id)) && Mirrors(e, p)
  }

  /** `updateParticipants`: the stored entities whose id the snapshot no
      longer carries are removed; an entity the snapshot refers to by id is
      updated in place (by the last participant with that id); every other
      participant of the snapshot gets a new entity, returned in `added` in
      the snapshot's order. Unsaved stored entities stay as they are. */
  method UpdateParticipants(m: MeetingEntity, incoming: seq<Participant>) returns (ghost added: seq<ParticipantEntity>)
    requires UniqueIds(m.participants)
    modifies m, m.participants
    ensures m.title == old(m.title) && ColumnsOf(m) == old(ColumnsOf(m)) && m.dates == old(m.dates)
    ensures m.participants == (set e | e in old(m.participants) && Kept(e, IncomingIds(incoming))) + (set e | e in added)
    ensures |added| == |AddedPositions(incoming, |incoming|, IdsOf(old(m.participants)))|
    ensures forall j :: 0 <= j < |added| ==>
      fresh(added[j]) && CreatedFor(added[j], incoming[AddedPositions(incoming, |incoming|, IdsOf(old(m.participants)))[j]])
    ensures forall j, k :: 0 <= j < k < |added| ==> added[j] != added[k]
    ensures forall e :: e in old(m.participants) && e.participantId.None? ==>
      e.name == old(e.name) && e.voteDates == old(e.voteDates)
    ensures forall e :: e in old(m.participants) && !Kept(e, IncomingIds(incoming)) ==>
      e.name == old(e.name) && e.voteDates == old(e.voteDates)
    ensures forall e :: e in old(m.participants) && e.participantId.Some? && e.participantId.value in IncomingIds(incoming) ==>
      LastWithId(incoming, |incoming|, e.participantId.value).Some? && Mirrors(e, incoming[LastWithId(incoming, |incoming|, e.participantId.value).value])
  {
    ghost var before := m.participants;
    var existingById := map e | e in m.participants && e.participantId.Some? :: e.participantId.value := e;
    assert existingById.Keys == IdsOf(before);
    var incomingIds := IncomingIds(incoming);
    RemoveStale(m, incomingIds);
    var currentIds := IdsOf(m.participants);
    assert forall k :: k in incomingIds ==> (k in currentIds <==> k in existingById) by {
      forall k | k in incomingIds && k in existingById ensures k in currentIds {
        assert existingById[k] in m.participants;
      }
    }
    var created;
    ghost var positions;
    created, positions := ReconcileAll(incoming, existingById, currentIds, incomingIds);
    // the new entities join the meeting as they are created; nothing in the
    // loop reads the meeting's participants, so adding them afterwards is the same
    label Join:
    JoinAll(m, created);
    added := created;
    forall j | 0 <= j < |added| ensures CreatedFor(added[j], incoming[positions[j]]) {
      assert old@Join(CreatedFor(added[j], incoming[positions[j]]));
    }
    MirroredByLast(incoming, before, existingById);
  }

  /** A stored entity with an id the snapshot still carries mirrors the last
      participant with that id. */
  lemma MirroredByLast(incoming: seq<Participant>, before: set<ParticipantEntity>, existingById: map<int, ParticipantEntity>)
    requires forall e :: e in before && e.participantId.Some? ==>
      e.participantId.value in existingById && existingById[e.participantId.value] == e
    requires StoredMirror(incoming, |incoming|, existingById)
    ensures forall e :: e in before && e.participantId.Some? && e.participantId.value in IncomingIds(incoming) ==>
      LastWithId(incoming, |incoming|, e.participantId.value).Some? &&
      Mirrors(e, incoming[LastWithId(incoming, |incoming|, e.participantId.value).value])
  {
    forall e | e in before && e.participantId.Some? && e.participantId.value in IncomingIds(incoming)
      ensures LastWithId(incoming, |incoming|, e.participantId.value).Some? &&
        Mirrors(e, incoming[LastWithId(incoming, |incoming|, e.participantId.value).value])
    {
      var k :| 0 <= k < |incoming| && incoming[k].id != 0 && incoming[k].id == e.participantId.value;
      LastWithIdExactly(incoming, |incoming|, e.participantId.value);
    }
  }

  /** No entity occurs twice. */
  predicate Distinct(s: seq<ParticipantEntity>) {
    forall j, k :: 0 <= j < k < |s| ==> s[j] != s[k]
  }

  /** Each new entity was created for the participant at its position. */
  ghost predicate AllCreatedFor(created: seq<ParticipantEntity>, incoming: seq<Participant>, positions: seq<nat>)
    reads set e | e in created
  {
    && |created| == |positions|
    && forall j :: 0 <= j < |created| ==> positions[j] < |incoming| && CreatedFor(created[j], incoming[positions[j]])
  }

  /** Every stored entity that one of the first `n` participants refers to
      mirrors the last of them. */
  ghost predicate StoredMirror(incoming: seq<Participant>, n: nat, existingById: map<int, ParticipantEntity>)
    requires n <= |incoming|
    reads existingById.Values
  {
    forall k :: k in existingById && k != 0 && LastWithId(incoming, n, k).Some? ==>
      Mirrors(existingById[k], incoming[LastWithId(incoming, n, k).value])
  }

  /** The removal step of `updateParticipants`. */
  method RemoveStale(m: MeetingEntity, incomingIds: set<int>)
    modifies m
    ensures m.participants == set e | e in old(m.participants) && Kept(e, incomingIds)
    ensures m.title == old(m.title) && ColumnsOf(m) == old(ColumnsOf(m)) && m.dates == old(m.dates)
  {
    m.participants := set e | e in m.participants && Kept(e, incomingIds);
  }

  /** The new entities joining the meeting. */
  method JoinAll(m: MeetingEntity, created: seq<ParticipantEntity>)
    modifies m
    ensures m.participants == old(m.participants) + set e | e in created
    ensures m.title == old(m.title) && ColumnsOf(m) == old(ColumnsOf(m)) && m.dates == old(m.dates)
  {
    m.participants := m.participants + set e | e in created;
  }

  /** The loop of `updateParticipants` over the snapshot's participants,
      after the removal step; it returns the new entities in order. */
  method ReconcileAll(incoming: seq<Participant>, existingById: map<int, ParticipantEntity>,
                      currentIds: set<int>, incomingIds: set<int>)
    returns (created: seq<ParticipantEntity>, ghost positions: seq<nat>)
    requires forall k :: k in existingById ==> existingById[k].participantId == Some(k)
    requires forall i :: 0 <= i < |incoming| && incoming[i].id != 0 ==> incoming[i].id in incomingIds
    requires forall k :: k in incomingIds ==> (k in currentIds <==> k in existingById)
    modifies set k | k in existingById && k in incomingIds :: existingById[k]
    ensures positions == AddedPositions(incoming, |incoming|, existingById.Keys)
    ensures forall j :: 0 <= j < |created| ==> fresh(created[j])
    ensures AllCreatedFor(created, incoming, positions)
    ensures Distinct(created)
    ensures StoredMirror(incoming, |incoming|, existingById)
  {
    created, positions := [], [];
    var i := 0;
    while i < |incoming|
      invariant 0 <= i <= |incoming|
      invariant positions == AddedPositions(incoming, i, existingById.Keys)
      invariant forall j :: 0 <= j < |created| ==> fresh(created[j])
      invariant AllCreatedFor(created, incoming, positions)
      invariant Distinct(created)
      invariant StoredMirror(incoming, i, existingById)
    {
      created, positions := ReconcileStep(incoming, i, existingById, currentIds, created, positions);
      i := i + 1;
    }
  }

  /** The pass for the participant at position `i`: the loop's facts about
      the first `i` participants become facts about the first `i + 1`. */
  method ReconcileStep(incoming: seq<Participant>, i: nat, existingById: map<int, ParticipantEntity>,
                       currentIds: set<int>, created: seq<ParticipantEntity>, ghost positions: seq<nat>)
    returns (created': seq<ParticipantEntity>, ghost positions': seq<nat>)
    requires i < |incoming|
    requires forall k :: k in existingById ==> existingById[k].participantId == Some(k)
    requires incoming[i].id != 0 ==> (incoming[i].id in currentIds <==> incoming[i].id in existingById)
    requires positions == AddedPositions(incoming, i, existingById.Keys)
    requires AllCreatedFor(created, incoming, positions)
    requires Distinct(created)
    requires StoredMirror(incoming, i, existingById)
    modifies if incoming[i].id != 0 && incoming[i].id in existingById then {existingById[incoming[i].id]} else {}
    ensures positions' == AddedPositions(incoming, i + 1, existingById.Keys)
    ensures |created| <= |created'| && created'[..|created|] == created
    ensures forall j :: |created| <= j < |created'| ==> fresh(created'[j])
    ensures AllCreatedFor(created', incoming, positions')
    ensures Distinct(created')
    ensures StoredMirror(incoming, i + 1, existingById)
  {
    var p := incoming[i];
    var entity, isNew := ReconcileOne(p, existingById, currentIds);
    if !isNew {
      AddedPositionsExactly(incoming, i, existingById.Keys);
      forall j | 0 <= j < |created| ensures created[j] != entity {
        assert old(CreatedFor(created[j], incoming[positions[j]]));
      }
    }
    forall j | 0 <= j < |created| ensures CreatedFor(created[j], incoming[positions[j]]) {
      assert old(CreatedFor(created[j], incoming[positions[j]]));
    }
    forall k | k in existingById && k != 0 && LastWithId(incoming, i + 1, k).Some?
      ensures Mirrors(existingById[k], incoming[LastWithId(incoming, i + 1, k).value])
    {
      if k != p.id {
        assert p.id in existingById ==> existingById[k] != existingById[p.id];
        assert old(Mirrors(existingById[k], incoming[LastWithId(incoming, i, k).value]));
      }
    }
    AddedPositionsNext(incoming, i, existingById.Keys);
    positions' := AddedPositions(incoming, i + 1, existingById.Keys);
    if isNew {
      assert forall j :: 0 <= j < |created| ==> created[j] != entity;
      created' := created + [entity];
      assert created'[..|created|] == created;
    } else {
      created' := created;
    }
  }

  /** One pass of the loop of `updateParticipants` for participant `p`:
      a non-zero id takes the stored entity with that id, or a new one with
      that id; id 0 takes a new unsaved entity. The entity gets `p`'s name
      and vote; it is new, and joins the meeting, when the id is 0 or not
      stored. */
  method ReconcileOne(p: Participant, existingById: map<int, ParticipantEntity>,
                      currentIds: set<int>) returns (entity: ParticipantEntity, isNew: bool)
    requires forall k :: k in existingById ==> existingById[k].participantId == Some(k)
    requires p.id != 0 ==> (p.id in currentIds <==> p.id in existingById)
    modifies if p.id != 0 && p.id in existingById then {existingById[p.id]} else {}
    ensures isNew <==> p.id == 0 || p.id !in existingById
    ensures !isNew ==> entity == existingById[p.id]
    ensures isNew ==> fresh(entity)
    ensures CreatedFor(entity, p)
  {
    if p.id != 0 {
      if p.id in existingById {
        entity := existingById[p.id];
      } else {
        entity := new ParticipantEntity(Some(p.id), p.name);
      }
      entity.name := p.name;
      UpdateVoteDates(entity, p.voteDates);
      isNew := p.id !in currentIds;
    } else {
      entity := new ParticipantEntity(None, p.name);
      UpdateVoteDates(entity, p.voteDates);
      isNew := true;
    }
  }

  /** The snapshot's non-zero ids are distinct: it refers to a stored
      participant at most once. */
  predicate DistinctNonZeroIds(ps: seq<Participant>) {
    forall i, j :: 0 <= i < j < |ps| && ps[i].id != 0 ==> ps[i].id != ps[j].id
  }

  /** The id a new entity gets for a participant of the snapshot. */
  function EntityIdFor(p: Participant): Option<int> {
    if p.id == 0 then None else Some(p.id)
  }

  /** After `updateParticipants`, no two entities share an assigned id, as
      long as the snapshot refers to each stored participant at most once. */
  lemma UniqueAfterUpdate(before: set<ParticipantEntity>, incoming: seq<Participant>, added: seq<ParticipantEntity>)
    requires UniqueIds(before)
    requires DistinctNonZeroIds(incoming)
    requires |added| == |AddedPositions(incoming, |incoming|, IdsOf(before))|
    requires forall j :: 0 <= j < |added| ==>
      added[j].participantId == EntityIdFor(incoming[AddedPositions(incoming, |incoming|, IdsOf(before))[j]])
    ensures UniqueIds((set e | e in before && Kept(e, IncomingIds(incoming))) + (set e | e in added))
  {
    var positions := AddedPositions(incoming, |incoming|, IdsOf(before));
    AddedPositionsExactly(incoming, |incoming|, IdsOf(before));
    var after := (set e | e in before && Kept(e, IncomingIds(incoming))) + (set e | e in added);
    forall a, b | a in after && b in after && a.participantId.Some? && a.participantId == b.participantId
      ensures a == b
    {
      if a !in before && b !in before {
        var j :| 0 <= j < |added| && added[j] == a;
        var k :| 0 <= k < |added| && added[k] == b;
      }
    }
  }

  /** A new meeting entity given the snapshot's dates and participants has a
      new entity for every participant, in order. */
  lemma NoStoredIdsAddsAll(ps: seq<Participant>, n: nat)
    requires n <= |ps|
    ensures AddedPositions(ps, n, {}) == seq(n, i => i)
  {
    if n > 0 {
      NoStoredIdsAddsAll(ps, n - 1);
      assert seq(n, i => i) == seq(n - 1, i => i) + [n - 1];
    }
  }

  /** The test `{ it.id == 0L }` of a snapshot participant nobody stored yet. */
  function HasNoId(): Participant -> bool {
    (p: Participant) => p.id == 0
  }

  /** When every non-zero id of the snapshot is stored, the new entities
      are one per participant with id 0. */
  lemma {:induction false} KnownIdsAddOnlyNewcomers(ps: seq<Participant>, n: nat, ids: set<int>)
    requires n <= |ps|
    requires forall i :: 0 <= i < n && ps[i].id != 0 ==> ps[i].id in ids
    ensures |AddedPositions(ps, n, ids)| == Seqs.Count(ps[..n], HasNoId())
  {
    if n > 0 {
      KnownIdsAddOnlyNewcomers(ps, n - 1, ids);
      assert ps[..n][..n - 1] == ps[..n - 1];
    }
  }

  /** The columns a meeting snapshot gives its entity. */
  function ColumnsFrom(m: Meeting): Columns {
    Columns(m.hostName, m.hostUserId, m.maxParticipantCount, m.memo, m.status, m.finalizedDate)
  }

  /** The meeting store: the stored entities by meeting id. */
  class MeetingStore {
    var entities: map<MeetingId, MeetingEntity>

    /** Every entity is stored under its own id, and no two participants of
        a meeting share an assigned id. */
    ghost predicate Valid()
      reads this, entities.Values
    {
      forall id :: id in entities ==> entities[id].meetId == id && UniqueIds(entities[id].participants)
    }

    constructor ()
      ensures entities == map[] && Valid()
    {
      entities := map[];
    }

    /** `save` as written: a stored meeting is updated by `updateFrom`, and
        a new one is built by `toEntity`. */
    method Save(meeting: Meeting) returns (entity: MeetingEntity, ghost added: seq<ParticipantEntity>)
      requires Valid()
      modifies this, if meeting.id in entities then {entities[meeting.id]} + entities[meeting.id].participants else {}
      ensures entities == old(entities)[meeting.id := entity]
      ensures meeting.id in old(entities) ==> entity == old(entities[meeting.id])
      ensures meeting.id !in old(entities) ==> fresh(entity) && fresh(entity.participants)
      ensures entity.meetId == meeting.id && entity.title == meeting.title
      ensures meeting.id in old(entities) ==>
        && ColumnsOf(entity) == old(ColumnsOf(entities[meeting.id]))
        && entity.dates == old(entities[meeting.id].dates)
      ensures meeting.id !in old(entities) ==>
        && ColumnsOf(entity) == Columns(None, None, None, None, Voting, None)
        && DateValues(entity.dates) == meeting.dates
      ensures meeting.id in old(entities) ==>
        entity.participants ==
          (set e | e in old(entities[meeting.id].participants) && Kept(e, IncomingIds(meeting.participants))) + (set e | e in added)
      ensures meeting.id in old(entities) ==>
        |added| == |AddedPositions(meeting.participants, |meeting.participants|, IdsOf(old(entities[meeting.id].participants)))|
      ensures meeting.id in old(entities) ==> forall j :: 0 <= j < |added| ==>
        fresh(added[j]) &&
        CreatedFor(added[j], meeting.participants[AddedPositions(meeting.participants, |meeting.participants|, IdsOf(old(entities[meeting.id].participants)))[j]])
      ensures meeting.id in old(entities) ==> forall e ::
        e in old(entities[meeting.id].participants) && e.participantId.Some? && e.participantId.value in IncomingIds(meeting.participants) ==>
          LastWithId(meeting.participants, |meeting.participants|, e.participantId.value).Some? &&
          Mirrors(e, meeting.participants[LastWithId(meeting.participants, |meeting.participants|, e.participantId.value).value])
      ensures meeting.id in old(entities) ==> forall e ::
        e in old(entities[meeting.id].participants) && !(e.participantId.Some? && e.participantId.value in IncomingIds(meeting.participants)) ==>
          e.name == old(e.name) && e.voteDates == old(e.voteDates)
      ensures meeting.id !in old(entities) ==>
        && entity.participants == (set e | e in added)
        && |added| == |meeting.participants|
        && forall j :: 0 <= j < |added| ==> fresh(added[j]) && CreatedFor(added[j], meeting.participants[j])
      ensures DistinctNonZeroIds(meeting.participants) ==> Valid()
    {
      if meeting.id in entities {
        entity := entities[meeting.id];
        added := UpdateFrom(entity, meeting);
      } else {
        entity, added := ToEntity(meeting);
      }
      entities := entities[meeting.id := entity];
    }

    /** `save` as evidently intended: the whole snapshot is written, to a
        stored meeting as to a new one, so that every column and the dates
        agree with the snapshot afterwards. */
    method SaveAggregate(meeting: Meeting) returns (entity: MeetingEntity, ghost added: seq<ParticipantEntity>)
      requires Valid()
      modifies this, if meeting.id in entities then {entities[meeting.id]} + entities[meeting.id].participants else {}
      ensures entities == old(entities)[meeting.id := entity]
      ensures meeting.id in old(entities) ==> entity == old(entities[meeting.id])
      ensures meeting.id !in old(entities) ==> fresh(entity) && fresh(entity.participants)
      ensures entity.meetId == meeting.id && entity.title == meeting.title
      ensures ColumnsOf(entity) == ColumnsFrom(meeting) && DateValues(entity.dates) == meeting.dates
      ensures meeting.id in old(entities) ==>
        entity.participants ==
          (set e | e in old(entities[meeting.id].participants) && Kept(e, IncomingIds(meeting.participants))) + (set e | e in added)
      ensures meeting.id in old(entities) ==>
        |added| == |AddedPositions(meeting.participants, |meeting.participants|, IdsOf(old(entities[meeting.id].participants)))|
      ensures meeting.id in old(entities) ==> forall j :: 0 <= j < |added| ==>
        fresh(added[j]) &&
        CreatedFor(added[j], meeting.participants[AddedPositions(meeting.participants, |meeting.participants|, IdsOf(old(entities[meeting.id].participants)))[j]])
      ensures meeting.id in old(entities) ==> forall e ::
        e in old(entities[meeting.id].participants) && e.participantId.Some? && e.participantId.value in IncomingIds(meeting.participants) ==>
          LastWithId(meeting.participants, |meeting.participants|, e.participantId.value).Some? &&
          Mirrors(e, meeting.participants[LastWithId(meeting.participants, |meeting.participants|, e.participantId.value).value])
      ensures meeting.id in old(entities) ==> forall e ::
        e in old(entities[meeting.id].participants) && !(e.participantId.Some? && e.participantId.value in IncomingIds(meeting.participants)) ==>
          e.name == old(e.name) && e.voteDates == old(e.voteDates)
      ensures meeting.id !in old(entities) ==>
        && entity.participants == (set e | e in added)
        && |added| == |meeting.participants|
        && forall j :: 0 <= j < |added| ==> fresh(added[j]) && CreatedFor(added[j], meeting.participants[j])
      ensures DistinctNonZeroIds(meeting.participants) ==> Valid()
    {
      if meeting.id in entities {
        entity := entities[meeting.id];
        added := UpdateFrom(entity, meeting);
        UpdateDates(entity, meeting.dates);
      } else {
        entity, added := ToEntity(meeting);
      }
      WriteColumns(entity, meeting);
      entities := entities[meeting.id := entity];
    }
  }

  /** Every column of the entity takes the snapshot's value. */
  method WriteColumns(entity: MeetingEntity, meeting: Meeting)
    modifies entity
    ensures ColumnsOf(entity) == ColumnsFrom(meeting)
    ensures entity.title == old(entity.title) && entity.dates == old(entity.dates)
    ensures entity.participants == old(entity.participants)
  {
    entity.hostName := meeting.hostName;
    entity.hostUserId := meeting.hostUserId;
    entity.maxParticipantCount := meeting.maxParticipantCount;
    entity.memo := meeting.memo;
    entity.status := meeting.status;
    entity.finalizedDate := meeting.finalizedDate;
  }

  /** A meeting that is stored while voting and then saved closed, as
      `closeMeeting` saves it, still reads as voting: `save` does not write
      the status of a stored meeting. */
  method CloseIsNotStored() returns (stored: MeetingStatus)
    ensures stored == Voting
  {
    var store := new MeetingStore();
    var voting := NewMeeting("m", "dinner", Some("host"), {1, 2}, None, []);
    var _, _ := store.Save(voting);
    var entity, _ := store.Save(voting.(status := Closed));
    stored := entity.status;
  }

  /** With the whole snapshot written, the closed meeting reads as closed. */
  method CloseIsStoredByAggregate() returns (stored: MeetingStatus)
    ensures stored == Closed
  {
    var store := new MeetingStore();
    var voting := NewMeeting("m", "dinner", Some("host"), {1, 2}, None, []);
    var _, _ := store.SaveAggregate(voting);
    var entity, _ := store.SaveAggregate(voting.(status := Closed));
    stored := entity.status;
  }

  /** `updateFrom`: only the title and the participants are written; the
      dates and every other column keep their stored values. */
  method UpdateFrom(entity: MeetingEntity, meeting: Meeting) returns (ghost added: seq<ParticipantEntity>)
    requires UniqueIds(entity.participants)
    modifies entity, entity.participants
    ensures entity.title == meeting.title
    ensures ColumnsOf(entity) == old(ColumnsOf(entity)) && entity.dates == old(entity.dates)
    ensures entity.participants ==
      (set e | e in old(entity.participants) && Kept(e, IncomingIds(meeting.participants))) + (set e | e in added)
    ensures |added| == |AddedPositions(meeting.participants, |meeting.participants|, IdsOf(old(entity.participants)))|
    ensures forall j :: 0 <= j < |added| ==>
      fresh(added[j]) &&
      CreatedFor(added[j], meeting.participants[AddedPositions(meeting.participants, |meeting.participants|, IdsOf(old(entity.participants)))[j]])
    ensures forall e :: e in old(entity.participants) && e.participantId.Some? && e.participantId.value in IncomingIds(meeting.participants) ==>
      LastWithId(meeting.participants, |meeting.participants|, e.participantId.value).Some? &&
      Mirrors(e, meeting.participants[LastWithId(meeting.participants, |meeting.participants|, e.participantId.value).value])
    ensures forall e :: e in old(entity.participants) && !(e.participantId.Some? && e.participantId.value in IncomingIds(meeting.participants)) ==>
      e.name == old(e.name) && e.voteDates == old(e.voteDates)
    ensures DistinctNonZeroIds(meeting.participants) ==> UniqueIds(entity.participants)
  {
    entity.title := meeting.title;
    ghost var before := entity.participants;
    added := UpdateParticipants(entity, meeting.participants);
    if DistinctNonZeroIds(meeting.participants) {
      UniqueAfterUpdate(before, meeting.participants, added);
    }
  }

  /** `toEntity`: a new entity with the snapshot's id and title and the other
      columns at their defaults (the host name, which `toEntity` does not
      pass, also at the field's default), given the snapshot's dates and a
      new participant entity for every participant, in order. */
  method ToEntity(meeting: Meeting) returns (entity: MeetingEntity, ghost added: seq<ParticipantEntity>)
    ensures fresh(entity) && fresh(entity.participants) && entity.meetId == meeting.id && entity.title == meeting.title
    ensures ColumnsOf(entity) == Columns(None, None, None, None, Voting, None)
    ensures DateValues(entity.dates) == meeting.dates
    ensures entity.participants == set e | e in added
    ensures |added| == |meeting.participants|
    ensures forall j :: 0 <= j < |added| ==> fresh(added[j]) && CreatedFor(added[j], meeting.participants[j])
    ensures DistinctNonZeroIds(meeting.participants) ==> UniqueIds(entity.participants)
  {
    entity := new MeetingEntity(meeting.id, meeting.title);
    UpdateDates(entity, meeting.dates);
    added := UpdateParticipants(entity, meeting.participants);
    NoStoredIdsAddsAll(meeting.participants, |meeting.participants|);
    assert IdsOf({}) == {};
    if DistinctNonZeroIds(meeting.participants) {
      UniqueAfterUpdate({}, meeting.participants, added);
    }
  }
}
