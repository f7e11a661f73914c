/** The read endpoints: the upcoming-events listing and the races of an event with their
    category labels grouped by gender. */
module Listings {
  import opened Outcomes
  import opened Seqs
  import opened Sorting
  import opened Text
  import opened Store

  // ---------------------------------------------------------------------------------
  // GET /events/upcoming

  /** `where: { date: { gte: now }, status: 'PUBLISHED' }`. */
  predicate IsUpcoming(e: Event, now: int) {
    e.date >= now && e.status == Published
  }

  function UpcomingAt(now: int): Event -> bool {
    (e: Event) => IsUpcoming(e, now)
  }

  /** `orderBy: { date: 'asc' }`. */
  predicate DateLe(a: Event, b: Event) {
    a.date <= b.date
  }

  /** The published events dated `now` or later, earliest first; `now` is the request's clock. */
  function Upcoming(events: seq<Event>, now: int): (r: seq<Event>)
    ensures forall i :: 0 <= i < |r| ==> IsUpcoming(r[i], now)
    ensures forall e :: multiset(r)[e] == if IsUpcoming(e, now) then multiset(events)[e] else 0
    ensures forall i, j :: 0 <= i < j < |r| ==> r[i].date <= r[j].date
  {
    assert TotalPreorder(DateLe);
    var selected := Filter(events, UpcomingAt(now));
    FilterMultiset(events, UpcomingAt(now));
    var r := Sort(selected, DateLe);
    assert forall i :: 0 <= i < |r| ==> IsUpcoming(r[i], now) by {
      forall i | 0 <= i < |r| ensures IsUpcoming(r[i], now) {
        assert r[i] in multiset(r);
      }
    }
    r
  }

  /** The listing holds exactly the published events that have not yet taken place. */
  lemma UpcomingMembers(events: seq<Event>, now: int, e: Event)
    ensures e in Upcoming(events, now) <==> e in events && IsUpcoming(e, now)
  {
    var r := Upcoming(events, now);
    assert e in r <==> multiset(r)[e] > 0;
    assert e in events <==> multiset(events)[e] > 0;
  }

  /** Example: published events a week ahead, three weeks ahead and a week ago are listed
      as the first two, nearest first. */
  lemma UpcomingExample(soon: Event, later: Event, past: Event, now: int)
    requires soon.status == Published && later.status == Published && past.status == Published
    requires soon.date == now + 7 && later.date == now + 21 && past.date == now - 7
    ensures Upcoming([soon, later, past], now) == [soon, later]
  {
    var r := Upcoming([soon, later, past], now);
    var m := multiset([soon, later, past]);
    assert multiset(r) == multiset{soon, later} by {
      assert forall e :: multiset(r)[e] == multiset{soon, later}[e];
    }
    assert |r| == 2 by {
      assert |multiset(r)| == |r|;
    }
    assert r[0] in multiset(r) && r[1] in multiset(r);
    assert r[0].date <= r[1].date;
    assert r[0] == soon;
    assert multiset(r) == multiset{r[0], r[1]} by {
      assert r == [r[0], r[1]];
    }
    assert r[1] == later;
  }

  // ---------------------------------------------------------------------------------
  // GET /events/:id/races

  /** The two label lists of a race: `categories: { open, women }`. */
  datatype CategoryLabels = CategoryLabels(open: seq<string>, women: seq<string>)

  /** One element of the response; a null laps or capacity is sent as an absent field,
      which this model cannot tell apart from null, so both stay `None`. */
  datatype RaceDto = RaceDto(id: string, name: string, discipline: string,
                             startTime: Option<string>, laps: Option<int>, capacity: Option<int>,
                             categories: CategoryLabels)

  /** Ascending order of start times: by code point, with absent start times last. */
  predicate StartLe(a: Option<string>, b: Option<string>) {
    match (a, b)
    case (Some(x), Some(y)) => LexLe(x, y)
    case (Some(_), None) => true
    case (None, None) => true
    case (None, Some(_)) => false
  }

  /** `orderBy: { startTime: 'asc' }`. */
  predicate RaceStartLe(a: Race, b: Race) {
    StartLe(a.startTime, b.startTime)
  }

  lemma RaceStartLeTotalPreorder()
    ensures TotalPreorder(RaceStartLe)
  {
    forall x: Race, y: Race ensures RaceStartLe(x, y) || RaceStartLe(y, x) {
      if x.startTime.Some? && y.startTime.Some? {
        LexLeTotal(x.startTime.value, y.startTime.value);
      }
    }
    forall x: Race, y: Race, z: Race | RaceStartLe(x, y) && RaceStartLe(y, z)
      ensures RaceStartLe(x, z)
    {
      if x.startTime.Some? && y.startTime.Some? && z.startTime.Some? {
        LexLeTransitive(x.startTime.value, y.startTime.value, z.startTime.value);
      }
    }
  }

  /** `where: { eventId }` on races. */
  function RaceOfEvent(eventId: string): Race -> bool {
    (r: Race) => r.eventId == eventId
  }

  /** The races of an event in the order the query returns them. */
  function EventRaces(races: seq<Race>, eventId: string): (sel: seq<Race>)
    ensures forall x :: multiset(sel)[x] == if x.eventId == eventId then multiset(races)[x] else 0
    ensures SortedBy(RaceStartLe, sel)
  {
    RaceStartLeTotalPreorder();
    FilterMultiset(races, RaceOfEvent(eventId));
    Sort(Filter(races, RaceOfEvent(eventId)), RaceStartLe)
  }

  /** `include: { categories: true }`: a race's categories, in table order. */
  function CategoryOfRace(raceId: string): Category -> bool {
    (c: Category) => c.raceId == raceId
  }

  function WithGender(gender: string): Category -> bool {
    (c: Category) => c.gender == gender
  }

  function LabelOf(c: Category): string { c.labelText }

  /** `categories.filter((c) => c.gender === gender).map((c) => c.label)`. */
  function LabelsWithGender(cats: seq<Category>, gender: string): (labels: seq<string>)
    ensures |labels| <= |cats|
  {
    Map(Filter(cats, WithGender(gender)), LabelOf)
  }

  /** The response element for one race. */
  function ToDto(s: Store, race: Race): (d: RaceDto)
    ensures d.id == race.id && d.name == race.name && d.discipline == race.discipline
    ensures d.startTime == race.startTime && d.laps == race.laps && d.capacity == race.capacity
  {
    var cats := Filter(s.categories, CategoryOfRace(race.id));
    RaceDto(race.id, race.name, race.discipline, race.startTime, race.laps, race.capacity,
            CategoryLabels(LabelsWithGender(cats, "open"), LabelsWithGender(cats, "women")))
  }

  /** `GET /events/:id/races`: never an error; an event without races gives an empty list. */
  function RacesForEvent(s: Store, eventId: string): (r: seq<RaceDto>)
    ensures |r| == |EventRaces(s.races, eventId)|
    ensures forall i :: 0 <= i < |r| ==> r[i] == ToDto(s, EventRaces(s.races, eventId)[i])
    ensures forall i, j :: 0 <= i < j < |r| ==> StartLe(r[i].startTime, r[j].startTime)
  {
    var sel := EventRaces(s.races, eventId);
    Map(sel, (race: Race) => ToDto(s, race))
  }

  /** Every race of the event appears in the response. */
  lemma RacesForEventComplete(s: Store, eventId: string, race: Race)
    requires race in s.races && race.eventId == eventId
    ensures ToDto(s, race) in RacesForEvent(s, eventId)
  {
    var sel := EventRaces(s.races, eventId);
    assert multiset(sel)[race] > 0;
    var k :| 0 <= k < |sel| && sel[k] == race;
    assert RacesForEvent(s, eventId)[k] == ToDto(s, race);
  }

  /** Every element of the response describes a race of the event. */
  lemma RacesForEventSound(s: Store, eventId: string, i: nat)
    requires i < |RacesForEvent(s, eventId)|
    ensures exists race :: race in s.races && race.eventId == eventId
                           && RacesForEvent(s, eventId)[i] == ToDto(s, race)
  {
    var sel := EventRaces(s.races, eventId);
    assert sel[i] in multiset(sel);
    assert sel[i] in s.races && sel[i].eventId == eventId;
  }

  /** An event id that no race carries, known or not, yields an empty list. */
  lemma RacesForUnknownEvent(s: Store, eventId: string)
    requires forall i :: 0 <= i < |s.races| ==> s.races[i].eventId != eventId
    ensures RacesForEvent(s, eventId) == []
  {
    var sel := EventRaces(s.races, eventId);
    assert forall x :: multiset(sel)[x] == 0;
  }

  /** A label list follows the category rows in order: labels of a concatenation are the
      labels of each part, in turn. */
  lemma LabelsConcat(a: seq<Category>, b: seq<Category>, gender: string)
    ensures LabelsWithGender(a + b, gender) == LabelsWithGender(a, gender) + LabelsWithGender(b, gender)
  {
    FilterConcat(a, b, WithGender(gender));
  }

  /** `open` holds exactly the labels of the `open` categories, `women` those of the
      `women` categories; a category of any other gender is in neither. */
  lemma LabelsExact(cats: seq<Category>, gender: string, l: string)
    ensures l in LabelsWithGender(cats, gender) <==>
              exists c :: c in cats && c.gender == gender && c.labelText == l
  {
    var sel := Filter(cats, WithGender(gender));
    FilterMembers(cats, WithGender(gender));
    if l in LabelsWithGender(cats, gender) {
      var k :| 0 <= k < |sel| && LabelOf(sel[k]) == l;
      assert sel[k] in sel;
    }
    if exists c :: c in cats && c.gender == gender && c.labelText == l {
      var c :| c in cats && c.gender == gender && c.labelText == l;
      assert c in sel;
      var k :| 0 <= k < |sel| && sel[k] == c;
      assert LabelsWithGender(cats, gender)[k] == l;
    }
  }

  predicate OtherGender(c: Category) {
    c.gender != "open" && c.gender != "women"
  }

  /** One more category row extends its gender's list by its label, and no other list. */
  lemma LabelsSnoc(cats: seq<Category>, c: Category, gender: string)
    ensures LabelsWithGender(cats + [c], gender)
            == LabelsWithGender(cats, gender) + (if c.gender == gender then [c.labelText] else [])
  {
    var sel := Filter(cats, WithGender(gender));
    FilterSnoc(cats, c, WithGender(gender));
    if c.gender == gender {
      assert Map(sel + [c], LabelOf) == Map(sel, LabelOf) + [c.labelText];
    }
  }

  /** No label is lost or duplicated: every category lands in exactly one of `open`,
      `women` and the ignored rest. */
  lemma {:induction false} CategoryPartitionCount(cats: seq<Category>)
    ensures |LabelsWithGender(cats, "open")| + |LabelsWithGender(cats, "women")|
            + |Filter(cats, OtherGender)| == |cats|
    decreases |cats|
  {
    if |cats| > 0 {
      var init := cats[..|cats| - 1];
      var c := cats[|cats| - 1];
      assert cats == init + [c];
      CategoryPartitionCount(init);
      LabelsSnoc(init, c, "open");
      LabelsSnoc(init, c, "women");
      FilterSnoc(init, c, OtherGender);
    }
  }

  /** When every gender is `open` or `women`, the two lists together hold exactly the
      category labels, each as often as it occurs. */
  lemma {:induction false} CategoryPartition(cats: seq<Category>)
    requires forall i :: 0 <= i < |cats| ==> !OtherGender(cats[i])
    ensures multiset(LabelsWithGender(cats, "open") + LabelsWithGender(cats, "women"))
            == multiset(Map(cats, LabelOf))
    decreases |cats|
  {
    if |cats| > 0 {
      var init := cats[..|cats| - 1];
      var c := cats[|cats| - 1];
      assert cats == init + [c];
      CategoryPartition(init);
      LabelsSnoc(init, c, "open");
      LabelsSnoc(init, c, "women");
      assert Map(cats, LabelOf) == Map(init, LabelOf) + [c.labelText];
    }
  }

  /** The label lists of each race in the response come from that race's own category
      rows: a label is listed under `open` (or `women`) exactly when a category of the race
      has that gender and that label. */
  lemma RacesForEventCategories(s: Store, eventId: string, i: nat, l: string)
    requires i < |RacesForEvent(s, eventId)|
    ensures var d := RacesForEvent(s, eventId)[i];
            l in d.categories.open <==>
              exists c :: c in s.categories && c.raceId == d.id && c.gender == "open" && c.labelText == l
    ensures var d := RacesForEvent(s, eventId)[i];
            l in d.categories.women <==>
              exists c :: c in s.categories && c.raceId == d.id && c.gender == "women" && c.labelText == l
  {
    var race := EventRaces(s.races, eventId)[i];
    var cats := Filter(s.categories, CategoryOfRace(race.id));
    FilterMembers(s.categories, CategoryOfRace(race.id));
    LabelsExact(cats, "open", l);
    LabelsExact(cats, "women", l);
  }
}
