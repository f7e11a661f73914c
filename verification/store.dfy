/** The database behind the API as one immutable value: the rows of the Event, Race,
    RaceCategory and Entry tables, and the queries the handlers issue against them. */
module Store {
  import opened Outcomes
  import opened Seqs

  /** The event status enum. `PUBLISHED` is the only value the listings look at, so every
      other value of the enum is one case. */
  datatype EventStatus = Published | NotPublished

  /** A race day. Dates are instants, modelled as integers. */
  datatype Event = Event(id: string, organiserId: string, name: string, venue: Option<string>,
                         date: int, status: EventStatus)

  /** A race within an event; an absent capacity means unlimited entries. */
  datatype Race = Race(id: string, eventId: string, name: string, discipline: string,
                       startTime: Option<string>, laps: Option<int>, capacity: Option<int>)

  /** An entry class of a race; `gender` is free text, `open` and `women` in practice;
      `labelText` is the label column (`label` is a Dafny keyword). */
  datatype Category = Category(id: string, raceId: string, gender: string, labelText: string)

  /** A rider's registration for a race. */
  datatype Entry = Entry(id: string, raceId: string, riderName: string, email: Option<string>,
                         club: Option<string>, bcId: Option<string>, emergencyName: string,
                         emergencyPhone: string, paid: bool)

  datatype Store = Store(events: seq<Event>, races: seq<Race>, categories: seq<Category>,
                         entries: seq<Entry>)

  /** Position of the first element whose key is `id`: the model of `findUnique` on a key column. */
  function IndexOf<T>(s: seq<T>, key: T -> string, id: string): (r: Option<nat>)
    ensures r.Some? ==> r.value < |s| && key(s[r.value]) == id
    ensures r.Some? ==> forall j :: 0 <= j < r.value ==> key(s[j]) != id
    ensures r.None? <==> forall j :: 0 <= j < |s| ==> key(s[j]) != id
  {
    if |s| == 0 then None
    else if key(s[0]) == id then Some(0)
    else match IndexOf(s[1..], key, id)
      case None => None
      case Some(k) => Some(k + 1)
  }

  function EventKey(e: Event): string { e.id }
  function RaceKey(r: Race): string { r.id }
  function EntryKey(e: Entry): string { e.id }

  /** The `where: { raceId }` condition on entries. */
  function EntryOfRace(raceId: string): Entry -> bool {
    (e: Entry) => e.raceId == raceId
  }

  /** `entry.count({ where: { raceId } })`: how many entries name the race. */
  function Taken(entries: seq<Entry>, raceId: string): (t: nat)
    ensures t <= |entries|
  {
    |Filter(entries, EntryOfRace(raceId))|
  }

  /** No race's entry is stored exactly when its count is zero. */
  lemma TakenZero(entries: seq<Entry>, raceId: string)
    ensures Taken(entries, raceId) == 0 <==> forall i :: 0 <= i < |entries| ==> entries[i].raceId != raceId
  {
    var sel := Filter(entries, EntryOfRace(raceId));
    FilterMembers(entries, EntryOfRace(raceId));
    assert sel != [] ==> sel[0] in sel;
    assert forall i :: 0 <= i < |entries| && entries[i].raceId == raceId ==> entries[i] in sel;
  }

  /** One more entry for a race raises its count by one and leaves every other race's count alone. */
  lemma TakenAppend(entries: seq<Entry>, e: Entry, raceId: string)
    ensures Taken(entries + [e], raceId) == Taken(entries, raceId) + (if e.raceId == raceId then 1 else 0)
  {
    FilterSnoc(entries, e, EntryOfRace(raceId));
  }

  ghost predicate UniqueKeys<T>(s: seq<T>, key: T -> string) {
    forall i, j :: 0 <= i < j < |s| ==> key(s[i]) != key(s[j])
  }

  /** Every race's event row exists (the Race-to-Event foreign key). */
  ghost predicate EventsResolve(s: Store) {
    forall i :: 0 <= i < |s.races| ==> IndexOf(s.events, EventKey, s.races[i].eventId).Some?
  }

  /** What the schema guarantees of the tables the handlers use: primary keys are unique
      and races belong to existing events. */
  ghost predicate Valid(s: Store) {
    && UniqueKeys(s.events, EventKey)
    && UniqueKeys(s.races, RaceKey)
    && UniqueKeys(s.entries, EntryKey)
    && EventsResolve(s)
  }

  /** No race with a capacity holds more entries than that capacity. */
  ghost predicate WithinCapacity(s: Store) {
    forall i :: 0 <= i < |s.races| && s.races[i].capacity.Some? ==>
      Taken(s.entries, s.races[i].id) <= s.races[i].capacity.value
  }

  /** An identifier no entry carries yet, as the database generates for a new row. */
  ghost predicate FreshEntryId(s: Store, id: string) {
    id != [] && forall i :: 0 <= i < |s.entries| ==> s.entries[i].id != id
  }

  /** Counts depend only on which race each entry names. */
  lemma {:induction false} TakenSameRaces(a: seq<Entry>, b: seq<Entry>, raceId: string)
    requires |a| == |b|
    requires forall i :: 0 <= i < |a| ==> a[i].raceId == b[i].raceId
    ensures Taken(a, raceId) == Taken(b, raceId)
    decreases |a|
  {
    if |a| > 0 {
      var n := |a| - 1;
      assert a == a[..n] + [a[n]] && b == b[..n] + [b[n]];
      TakenSameRaces(a[..n], b[..n], raceId);
      TakenAppend(a[..n], a[n], raceId);
      TakenAppend(b[..n], b[n], raceId);
    }
  }

  /** A lookup depends only on the keys. */
  lemma {:induction false} IndexOfSameKeys<T>(a: seq<T>, b: seq<T>, key: T -> string, id: string)
    requires |a| == |b|
    requires forall i :: 0 <= i < |a| ==> key(a[i]) == key(b[i])
    ensures IndexOf(a, key, id) == IndexOf(b, key, id)
    decreases |a|
  {
    if |a| > 0 {
      IndexOfSameKeys(a[1..], b[1..], key, id);
    }
  }
}
