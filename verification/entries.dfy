/** The entry endpoints: availability of a race, creating an entry under the race's
    capacity, and the simulated payment that marks an entry paid. Availability is a
    function of the store; the two writing handlers return their answer and the store
    after it. */
module Entries {
  import opened Outcomes
  import opened Text
  import opened Store

  /** The body of `POST /races/:raceId/entries`; every field may be omitted. */
  datatype EntryForm = EntryForm(riderName: Option<string>, email: Option<string>,
                                 club: Option<string>, bcId: Option<string>,
                                 emergencyName: Option<string>, emergencyPhone: Option<string>)

  /** `{ capacity, taken, remaining }`; `remaining` is absent when the capacity is. */
  datatype Availability = Availability(capacity: Option<int>, taken: nat, remaining: Option<int>)

  datatype RaceSummary = RaceSummary(id: string, name: string)
  datatype EventSummary = EventSummary(id: string, name: string, date: int)
  datatype Payment = Payment(provider: string, clientSecret: string)
  datatype EntryCreated = EntryCreated(entryId: string, race: RaceSummary, event: EventSummary,
                                       payment: Payment)

  datatype PaymentStatus = Paid | AlreadyPaid

  /** `race.findUnique({ where: { id } })`. */
  function FindRace(races: seq<Race>, raceId: string): (r: Option<Race>)
    ensures r.Some? ==> r.value in races && r.value.id == raceId
    ensures r.None? <==> forall i :: 0 <= i < |races| ==> races[i].id != raceId
  {
    match IndexOf(races, RaceKey, raceId)
    case None => None
    case Some(k) => Some(races[k])
  }

  /** A race with `taken` entries accepts one more: it has no capacity, or is below it. */
  predicate HasRoom(race: Race, taken: nat)
    ensures HasRoom(race, taken) <==> Remaining(race.capacity, taken) != Some(0)
  {
    race.capacity.None? || taken < race.capacity.value
  }

  /** `!field?.trim()`: the field is omitted, or nothing but white space. */
  predicate Blank(field: Option<string>)
    ensures Blank(field) <==> field.None? || AllSpace(field.value)
  {
    field.None? || Trim(field.value) == []
  }

  /** `field?.trim()` for the optional fields. */
  function TrimOptional(field: Option<string>): (r: Option<string>)
    ensures r.None? <==> field.None?
    ensures r.Some? ==> r.value == Trim(field.value)
  {
    match field
    case None => None
    case Some(v) => Some(Trim(v))
  }

  /** `Math.max(0, capacity - taken)` when there is a capacity: the places still open. */
  function Remaining(capacity: Option<int>, taken: nat): (r: Option<int>)
    ensures r.None? <==> capacity.None?
    ensures r.Some? ==>
      var left, cap := r.value, capacity.value;
      && left >= 0
      && (cap >= 0 ==> left <= cap)
      && (left == 0 <==> taken >= cap)
      && (left > 0 ==> taken + left == cap)
  {
    match capacity
    case None => None
    case Some(cap) => Some(if cap - taken > 0 then cap - taken else 0)
  }

  /** `GET /races/:raceId/availability`: the race's capacity, its entry count and the
      places remaining. */
  function GetAvailability(s: Store, raceId: string): (r: Result<Availability>)
    ensures FindRace(s.races, raceId).None? <==> r.Err?
    ensures r.Err? ==> r.error == NotFound("Race not found")
    ensures r.Ok? ==>
      var race := FindRace(s.races, raceId).value;
      var taken := Taken(s.entries, raceId);
      r.value == Availability(race.capacity, taken, Remaining(race.capacity, taken))
  {
    match FindRace(s.races, raceId)
    case None => Err(NotFound("Race not found"))
    case Some(race) =>
      var count := Taken(s.entries, raceId);
      Ok(Availability(race.capacity, count, Remaining(race.capacity, count)))
  }

  /** The row `entry.create` inserts for a valid form. */
  function NewEntry(id: string, raceId: string, form: EntryForm): (e: Entry)
    requires !Blank(form.riderName) && !Blank(form.emergencyName) && !Blank(form.emergencyPhone)
    ensures e.id == id && e.raceId == raceId && !e.paid
    ensures e.riderName != [] && e.emergencyName != [] && e.emergencyPhone != []
    ensures !IsSpace(e.riderName[0]) && !IsSpace(e.riderName[|e.riderName| - 1])
  {
    Entry(id, raceId, Trim(form.riderName.value), TrimOptional(form.email),
          TrimOptional(form.club), TrimOptional(form.bcId), Trim(form.emergencyName.value),
          Trim(form.emergencyPhone.value), false)
  }

  /** `POST /races/:raceId/entries`. `freshId` is the identifier the database assigns to the
      new row. The race lookup comes first, then the capacity check, then the field checks. */
  function CreateEntry(s: Store, raceId: string, form: EntryForm, freshId: string)
    : (out: (Result<EntryCreated>, Store))
    requires EventsResolve(s)
    requires FreshEntryId(s, freshId)
    ensures out.0.Err? ==> out.1 == s
    ensures FindRace(s.races, raceId).None? ==> out.0 == Err(NotFound("Race not found"))
    ensures FindRace(s.races, raceId).Some? && !HasRoom(FindRace(s.races, raceId).value, Taken(s.entries, raceId))
            ==> out.0 == Err(BadRequest("Race is full"))
    ensures FindRace(s.races, raceId).Some? && HasRoom(FindRace(s.races, raceId).value, Taken(s.entries, raceId))
            ==> (Blank(form.riderName) ==> out.0 == Err(BadRequest("riderName required")))
                && (!Blank(form.riderName) && (Blank(form.emergencyName) || Blank(form.emergencyPhone))
                    ==> out.0 == Err(BadRequest("Emergency contact required")))
    ensures out.0.Ok? <==>
      && FindRace(s.races, raceId).Some?
      && HasRoom(FindRace(s.races, raceId).value, Taken(s.entries, raceId))
      && !Blank(form.riderName) && !Blank(form.emergencyName) && !Blank(form.emergencyPhone)
    ensures out.1.events == s.events && out.1.races == s.races && out.1.categories == s.categories
    ensures |out.1.entries| == |s.entries| + (if out.0.Ok? then 1 else 0)
    ensures out.1.entries[..|s.entries|] == s.entries
    ensures out.0.Ok? ==>
      var e := out.1.entries[|s.entries|];
      && e.id == freshId && e.raceId == raceId && !e.paid
      && e.riderName == Trim(form.riderName.value)
      && e.emergencyName == Trim(form.emergencyName.value)
      && e.emergencyPhone == Trim(form.emergencyPhone.value)
      && e.email == TrimOptional(form.email) && e.club == TrimOptional(form.club)
      && e.bcId == TrimOptional(form.bcId)
    ensures out.0.Ok? ==>
      && out.0.value.entryId == freshId
      && out.0.value.payment == Payment("sim", out.0.value.entryId)
      && out.0.value.race == RaceSummary(raceId, FindRace(s.races, raceId).value.name)
    ensures out.0.Ok? ==>
      var race := FindRace(s.races, raceId).value;
      && IndexOf(s.events, EventKey, race.eventId).Some?
      && var ev := s.events[IndexOf(s.events, EventKey, race.eventId).value];
      && ev.id == race.eventId
      && out.0.value.event == EventSummary(ev.id, ev.name, ev.date)
  {
    match FindRace(s.races, raceId)
    case None => (Err(NotFound("Race not found")), s)
    case Some(race) =>
      if race.capacity.Some? && Taken(s.entries, raceId) >= race.capacity.value then
        (Err(BadRequest("Race is full")), s)
      else if Blank(form.riderName) then
        (Err(BadRequest("riderName required")), s)
      else if Blank(form.emergencyName) || Blank(form.emergencyPhone) then
        (Err(BadRequest("Emergency contact required")), s)
      else
        var k := IndexOf(s.races, RaceKey, raceId).value;
        var ev := s.events[IndexOf(s.events, EventKey, s.races[k].eventId).value];
        var entry := NewEntry(freshId, raceId, form);
        var created := EntryCreated(freshId, RaceSummary(race.id, race.name),
                                    EventSummary(ev.id, ev.name, ev.date),
                                    Payment("sim", freshId));
        (Ok(created), s.(entries := s.entries + [entry]))
  }

  /** `POST /payments/simulate { entryId }`. A missing or empty id is refused before any lookup. */
  function SimulatePayment(s: Store, entryId: Option<string>): (out: (Result<PaymentStatus>, Store))
    ensures entryId.None? || entryId.value == [] ==> out == (Err(BadRequest("entryId required")), s)
    ensures out.0.Err? ==> out.1 == s
    ensures out.1.events == s.events && out.1.races == s.races && out.1.categories == s.categories
    ensures |out.1.entries| == |s.entries|
    ensures entryId.Some? && entryId.value != [] && IndexOf(s.entries, EntryKey, entryId.value).None?
            ==> out.0 == Err(NotFound("Entry not found"))
    ensures out.0.Ok? <==> entryId.Some? && entryId.value != [] && IndexOf(s.entries, EntryKey, entryId.value).Some?
    ensures out.0.Ok? ==>
      var k := IndexOf(s.entries, EntryKey, entryId.value).value;
      && (out.0.value == Paid <==> !s.entries[k].paid)
      && out.1.entries[k] == s.entries[k].(paid := true)
      && forall j :: 0 <= j < |s.entries| && j != k ==> out.1.entries[j] == s.entries[j]
    ensures out.0 == Ok(AlreadyPaid) ==> out.1 == s
  {
    if entryId.None? || entryId.value == [] then (Err(BadRequest("entryId required")), s)
    else match IndexOf(s.entries, EntryKey, entryId.value)
      case None => (Err(NotFound("Entry not found")), s)
      case Some(k) =>
        if s.entries[k].paid then (Ok(AlreadyPaid), s)
        else (Ok(Paid), s.(entries := s.entries[k := s.entries[k].(paid := true)]))
  }

  /** Run one request at a time, entry creation never takes a race past its capacity,
      whether it succeeds or fails, and keeps the store's keys unique. (Two concurrent
      requests can both pass the count before either inserts; that is not modelled.) */
  lemma CreateKeepsCapacity(s: Store, raceId: string, form: EntryForm, freshId: string)
    requires Valid(s) && WithinCapacity(s) && FreshEntryId(s, freshId)
    ensures Valid(CreateEntry(s, raceId, form, freshId).1)
    ensures WithinCapacity(CreateEntry(s, raceId, form, freshId).1)
  {
    var (r, s') := CreateEntry(s, raceId, form, freshId);
    if r.Ok? {
      var e := s'.entries[|s.entries|];
      assert s'.entries == s.entries + [e];
      var k := IndexOf(s.races, RaceKey, raceId).value;
      AppendKeepsCapacity(s, e, k);
    }
  }

  /** Storing an entry for the race at index `k` keeps every race within capacity when
      that race had room. */
  lemma AppendKeepsCapacity(s: Store, e: Entry, k: nat)
    requires UniqueKeys(s.races, RaceKey) && WithinCapacity(s)
    requires k < |s.races| && e.raceId == s.races[k].id
    requires HasRoom(s.races[k], Taken(s.entries, e.raceId))
    ensures WithinCapacity(s.(entries := s.entries + [e]))
  {
    var s' := s.(entries := s.entries + [e]);
    forall i | 0 <= i < |s'.races| && s'.races[i].capacity.Some?
      ensures Taken(s'.entries, s'.races[i].id) <= s'.races[i].capacity.value
    {
      TakenAppend(s.entries, e, s.races[i].id);
      if s.races[i].id == e.raceId {
        assert RaceKey(s.races[i]) == RaceKey(s.races[k]);
      }
    }
  }

  /** An entry that creation accepts (known race with room, complete form) is counted at
      once: availability reports one more taken place and, for a capacity-bearing race,
      one place fewer. */
  lemma CreateThenAvailability(s: Store, raceId: string, form: EntryForm, freshId: string)
    requires EventsResolve(s) && FreshEntryId(s, freshId)
    requires FindRace(s.races, raceId).Some?
    requires HasRoom(FindRace(s.races, raceId).value, Taken(s.entries, raceId))
    requires !Blank(form.riderName) && !Blank(form.emergencyName) && !Blank(form.emergencyPhone)
    ensures var before := GetAvailability(s, raceId);
            var after := GetAvailability(CreateEntry(s, raceId, form, freshId).1, raceId);
            && before.Ok? && after.Ok?
            && after.value.taken == before.value.taken + 1
            && after.value.capacity == before.value.capacity
            && (before.value.remaining.Some? ==>
                  before.value.remaining.value > 0
                  && after.value.remaining == Some(before.value.remaining.value - 1))
  {
    var s' := CreateEntry(s, raceId, form, freshId).1;
    var e := s'.entries[|s.entries|];
    assert s'.entries == s.entries + [e] && e.raceId == raceId;
    TakenAppend(s.entries, e, raceId);
    AvailabilityAfterOneMore(s, s', raceId);
  }

  /** Availability once one more entry for a race with room has been stored. */
  lemma AvailabilityAfterOneMore(s: Store, s': Store, raceId: string)
    requires s'.races == s.races && FindRace(s.races, raceId).Some?
    requires HasRoom(FindRace(s.races, raceId).value, Taken(s.entries, raceId))
    requires Taken(s'.entries, raceId) == Taken(s.entries, raceId) + 1
    ensures var before, after := GetAvailability(s, raceId), GetAvailability(s', raceId);
            && before.Ok? && after.Ok?
            && after.value.taken == before.value.taken + 1
            && after.value.capacity == before.value.capacity
            && (before.value.remaining.Some? ==>
                  before.value.remaining.value > 0
                  && after.value.remaining == Some(before.value.remaining.value - 1))
  {
  }

  /** What availability shows agrees with the capacity check of entry creation: a race
      reports no place left exactly when creating an entry in it fails as full. */
  lemma AvailabilityAgreesWithCreate(s: Store, raceId: string, form: EntryForm, freshId: string)
    requires EventsResolve(s) && FreshEntryId(s, freshId)
    requires GetAvailability(s, raceId).Ok?
    ensures GetAvailability(s, raceId).value.remaining == Some(0)
            <==> CreateEntry(s, raceId, form, freshId).0 == Err(BadRequest("Race is full"))
  {
  }

  /** The client's two-step flow: when creation accepts the entry, paying with the
      returned `clientSecret` marks exactly that entry paid. */
  lemma CreateThenPay(s: Store, raceId: string, form: EntryForm, freshId: string)
    requires EventsResolve(s) && FreshEntryId(s, freshId)
    requires FindRace(s.races, raceId).Some?
    requires HasRoom(FindRace(s.races, raceId).value, Taken(s.entries, raceId))
    requires !Blank(form.riderName) && !Blank(form.emergencyName) && !Blank(form.emergencyPhone)
    ensures var (created, s1) := CreateEntry(s, raceId, form, freshId);
            var (paid, s2) := SimulatePayment(s1, Some(created.value.payment.clientSecret));
            && paid == Ok(Paid)
            && s2.entries == s1.entries[|s.entries| := s1.entries[|s.entries|].(paid := true)]
  {
    var s1 := CreateEntry(s, raceId, form, freshId).1;
    var k := IndexOf(s1.entries, EntryKey, freshId);
    assert k.Some? by {
      assert EntryKey(s1.entries[|s.entries|]) == freshId;
    }
    assert k.value == |s.entries|;
  }

  /** Payment is idempotent: once a call succeeds, the next one with the same id answers
      `already_paid`, changes nothing, and the entry stays paid. */
  lemma PayTwice(s: Store, entryId: Option<string>)
    requires entryId.Some? && entryId.value != [] && IndexOf(s.entries, EntryKey, entryId.value).Some?
    ensures var (first, s1) := SimulatePayment(s, entryId);
            var (second, s2) := SimulatePayment(s1, entryId);
            var k := IndexOf(s.entries, EntryKey, entryId.value).value;
            && second == Ok(AlreadyPaid) && s2 == s1
            && s1.entries[k].paid && s2.entries[k].paid
  {
    var s1 := SimulatePayment(s, entryId).1;
    IndexOfSameKeys(s.entries, s1.entries, EntryKey, entryId.value);
  }

  /** Marking an entry paid moves no entry between races, so it keeps every race within
      its capacity and the store's keys unique. */
  lemma PaymentKeepsCapacity(s: Store, entryId: Option<string>)
    requires Valid(s) && WithinCapacity(s)
    ensures Valid(SimulatePayment(s, entryId).1)
    ensures WithinCapacity(SimulatePayment(s, entryId).1)
  {
    var s1 := SimulatePayment(s, entryId).1;
    forall i | 0 <= i < |s1.races| ensures Taken(s1.entries, s1.races[i].id) == Taken(s.entries, s.races[i].id) {
      TakenSameRaces(s.entries, s1.entries, s.races[i].id);
    }
    assert UniqueKeys(s1.entries, EntryKey) by {
      forall i, j | 0 <= i < j < |s1.entries| ensures EntryKey(s1.entries[i]) != EntryKey(s1.entries[j]) {
        assert EntryKey(s1.entries[i]) == EntryKey(s.entries[i]);
        assert EntryKey(s1.entries[j]) == EntryKey(s.entries[j]);
      }
    }
  }

  /** A race with capacity 2 and no entries takes two valid entries, each lowering the
      remaining places by one, and refuses a third as full without changing the store.
      `a`, `b` and `c` are the identifiers the database would assign. */
  lemma CapacityTwoFlow(s0: Store, raceId: string, form: EntryForm, a: string, b: string, c: string)
    requires EventsResolve(s0) && s0.entries == []
    requires FindRace(s0.races, raceId).Some? && FindRace(s0.races, raceId).value.capacity == Some(2)
    requires !Blank(form.riderName) && !Blank(form.emergencyName) && !Blank(form.emergencyPhone)
    requires a != [] && b != [] && c != [] && a != b && a != c && b != c
    ensures
      var (r1, s1) := CreateEntry(s0, raceId, form, a);
      && r1.Ok? && |s1.entries| == 1 && s1.entries[0].id == a
      && GetAvailability(s1, raceId) == Ok(Availability(Some(2), 1, Some(1)))
      && var (r2, s2) := CreateEntry(s1, raceId, form, b);
      && r2.Ok? && |s2.entries| == 2 && s2.entries[0].id == a && s2.entries[1].id == b
      && GetAvailability(s2, raceId) == Ok(Availability(Some(2), 2, Some(0)))
      && CreateEntry(s2, raceId, form, c) == (Err(BadRequest("Race is full")), s2)
  {
    assert GetAvailability(s0, raceId) == Ok(Availability(Some(2), 0, Some(2)));
    var s1 := CreateEntry(s0, raceId, form, a).1;
    CreateThenAvailability(s0, raceId, form, a);
    var s2 := CreateEntry(s1, raceId, form, b).1;
    CreateThenAvailability(s1, raceId, form, b);
    assert s2.entries[..1] == s1.entries;
    AvailabilityAgreesWithCreate(s2, raceId, form, c);
  }
}
