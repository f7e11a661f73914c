# Racecraft entry and listing rules in Dafny

Racecraft registers riders for cycling races. Organisers publish events. Each event has
races, and each race has categories and an optional capacity. Riders enter a race and then
pay through a simulated payment step. This project models the rules behind the API's
request handlers, plus one string helper of the web front end:

- **Entries** (`apps/api/src/entries.controller.ts`):
  - race availability (`taken`, `remaining`);
  - entry creation: race lookup, then the capacity check, then the checks on the trimmed required fields, then the insert;
  - the simulated payment, which moves an entry from unpaid to paid and answers `already_paid` after that.
- **Listings** (`apps/api/src/app.controller.ts`):
  - the upcoming-events listing, which keeps published events dated now or later, earliest first;
  - the races of an event, ordered by start time, with each race's category labels split into `open` and `women` lists.
- **Initials** (`apps/web/src/app/page.tsx`): the organiser badge, made of the upper-cased first letters of the first two space-separated words of a name.

The database is one immutable value (module `Store`), holding the rows of the Event, Race,
RaceCategory and Entry tables. The read handlers (availability, the upcoming listing and
the races of an event) are pure functions of that value. The two writing handlers (entry
creation and payment) are pure functions from that value to their answer and the value
after it. Every failing path the model covers (unknown ids,
a full race, blank required fields) answers `NotFound` or `BadRequest` with the source's
message and leaves the store unchanged. Every successful path makes
exactly the one change stated in its contract. Supporting modules:

- `Outcomes` holds the `Option` and `Result` types and the error kinds.
- `Seqs` provides order-preserving selection.
- `Sorting` is an insertion sort over any total preorder. It stands in for the database's `orderBy ... 'asc'`.
- `Text` holds the ASCII `trim` and `toUpperCase`, and the code-point order of strings.

Modelling choices:
- Dates are integers, and the request's `now` is a parameter.
- The identifier the database gives a new entry is a parameter of `CreateEntry`. A precondition requires it to be non-empty and unused.
- A row lookup by key returns the first row carrying that key. The store invariant `Valid` says event, race and entry ids are unique, so the first row is the only one.
- `CreateEntry` echoes the race's event, so it needs each race's event to exist (the foreign key, `EventsResolve`).
- The capacity invariant (`WithinCapacity`) is proved for requests handled one at a time. Concurrent requests are not modelled.

## Model

| member | source | states |
|---|---|---|
| Entries.FindRace | apps/api/src/entries.controller.ts:47-51 | The race lookup finds a race carrying the requested id, and finds none exactly when no race has that id |
| Entries.Remaining | apps/api/src/entries.controller.ts:34-37 | Remaining places are absent exactly when the capacity is. They are never negative and never above a non-negative capacity. They are zero exactly when the race is full, and otherwise make up the capacity together with the taken places |
| Entries.GetAvailability | apps/api/src/entries.controller.ts:27-39 | An unknown race gives NotFound("Race not found"). Otherwise the answer echoes the capacity, counts the race's entries as `taken`, and reports `max(0, capacity - taken)` places, or none when there is no capacity |
| Entries.Blank | apps/api/src/entries.controller.ts:60-62 | A required field is rejected exactly when it is omitted or holds only white space |
| Entries.TrimOptional | apps/api/src/entries.controller.ts:68-70 | An optional field stays absent when omitted, and is otherwise stored trimmed |
| Entries.CreateEntry | apps/api/src/entries.controller.ts:43-84 | The checks run in order: unknown race gives NotFound, a full race gives "Race is full" whatever the body holds, then blank required fields give the rider or emergency-contact BadRequest. Any failure leaves the store unchanged. Creation succeeds exactly when all checks pass. Success appends one unpaid entry with the fresh id, the race id and trimmed fields, keeps every earlier entry and every other table, and returns the id as both `entryId` and the `sim` payment's `clientSecret`, together with the race's id and name and the id, name and date of the event the race belongs to |
| Entries.SimulatePayment | apps/api/src/entries.controller.ts:88-101 | A missing or empty id gives BadRequest and an unknown id gives NotFound, both leaving the store unchanged. A non-empty id that an entry carries always succeeds. Otherwise only the matched entry's `paid` flag becomes true and every other entry is kept. The answer is `paid` exactly when the entry was unpaid, and `already_paid` leaves the store unchanged |
| Entries.CreateKeepsCapacity | apps/api/src/entries.controller.ts:54-75 | When requests are handled one at a time, creating an entry, whether it succeeds or fails, keeps every capacity-bearing race within its capacity and keeps race and entry ids unique |
| Entries.AppendKeepsCapacity | apps/api/src/entries.controller.ts:54-57 | Storing an entry for a race that passed the capacity check keeps all races within capacity |
| Entries.CreateThenAvailability | apps/api/src/entries.controller.ts:33-75 | After a successful entry, availability shows one more place taken, the same capacity, and one place fewer remaining |
| Entries.AvailabilityAfterOneMore | apps/api/src/entries.controller.ts:33-38 | One more stored entry for a race with room raises `taken` by one and lowers `remaining` by one |
| Entries.AvailabilityAgreesWithCreate | apps/api/src/entries.controller.ts:34-56 | Availability reports zero places left exactly when entry creation would fail with "Race is full" |
| Entries.CreateThenPay | apps/api/src/entries.controller.ts:78-100 | Paying with the `clientSecret` of a newly created entry answers `paid` and marks exactly that entry paid |
| Entries.PayTwice | apps/api/src/entries.controller.ts:95-100 | After a successful payment, a second payment with the same id answers `already_paid` and changes nothing, and the entry stays paid |
| Entries.PaymentKeepsCapacity | apps/api/src/entries.controller.ts:96-99 | Marking an entry paid keeps every race within capacity and keeps ids unique |
| Entries.CapacityTwoFlow | apps/api/src/entries.controller.ts:54-75 | A race with capacity 2 and no entries accepts two valid entries, leaving 1 and then 0 places. A third is refused as "Race is full" and the store is unchanged |
| Store.IndexOf | apps/api/src/entries.controller.ts:90-94 | A key lookup finds the first row carrying the key, and finds none exactly when no row carries it |
| Store.Taken | apps/api/src/entries.controller.ts:33 | A race's entry count is at most the number of entries |
| Store.TakenZero | apps/api/src/entries.controller.ts:33 | A race's entry count is zero exactly when no entry names the race |
| Entries.HasRoom | apps/api/src/entries.controller.ts:54-56 | A race passes the capacity check exactly when its remaining places are not zero: a race without a capacity always passes |
| Entries.NewEntry | apps/api/src/entries.controller.ts:64-75 | The stored entry carries the fresh id and the race id, starts unpaid, and holds a non-empty rider name and emergency contact whose rider name neither starts nor ends with white space |
| Store.TakenAppend | apps/api/src/entries.controller.ts:55-75 | Storing an entry adds one to its own race's count and leaves every other race's count unchanged |
| Store.TakenSameRaces | apps/api/src/entries.controller.ts:96-99 | Entry counts depend only on which race each entry names |
| Store.IndexOfSameKeys | apps/api/src/entries.controller.ts:90-99 | The result of a lookup depends only on the rows' keys |
| Text.Trim | apps/api/src/entries.controller.ts:60-72 | The trimmed string is no longer than the input and neither starts nor ends with white space. It is empty exactly when the input is all white space |
| Text.TrimKeepsInterior | apps/api/src/entries.controller.ts:67-72 | A string with no white space at either end is its own trim |
| Text.TrimIdempotent | apps/api/src/entries.controller.ts:67-72 | Trimming a second time changes nothing |
| Text.TrimRemovesOnlySpace | apps/api/src/entries.controller.ts:67-72 | The input is its trim with only white space added before and after |
| Text.ToUpper | apps/web/src/app/page.tsx:35 | Lower-case ASCII letters move to upper case, and every other character is unchanged |
| Text.LexLeTotal | apps/api/src/app.controller.ts:56 | Any two start times can be compared |
| Text.LexLeTransitive | apps/api/src/app.controller.ts:56 | The start-time order is transitive |
| Text.LexLeAntisymmetric | apps/api/src/app.controller.ts:56 | Two start times that each come no later than the other are equal |
| Sorting.Insert | apps/api/src/app.controller.ts:28 | Inserting into a sorted list keeps it sorted and adds exactly that one element |
| Sorting.Sort | apps/api/src/app.controller.ts:28 | The ordered result is a permutation of its input and is sorted by the given total preorder |
| Seqs.Filter | apps/api/src/app.controller.ts:68-69 | Selection never yields more elements than its input |
| Seqs.FilterConcat | apps/api/src/app.controller.ts:68-69 | Selection keeps the original order: selecting from a concatenation selects from each part in turn |
| Seqs.FilterMultiset | apps/api/src/app.controller.ts:27 | Selection keeps each qualifying element as often as it occurs, and no other element |
| Listings.Upcoming | apps/api/src/app.controller.ts:24-31 | The filter (`IsUpcoming`) keeps PUBLISHED events dated `now` or later. Every listed event is PUBLISHED and dated `now` or later. Each such event is listed as often as it occurs in the table, and no other event is listed. The list is in ascending date order |
| Listings.UpcomingMembers | apps/api/src/app.controller.ts:26-27 | An event is listed exactly when it is in the table, PUBLISHED, and dated `now` or later |
| Listings.UpcomingExample | apps/api/src/app.controller.ts:26-28 | For published events a week ahead, three weeks ahead and a week ago, the listing holds the first two, nearest first |
| Listings.RaceStartLeTotalPreorder | apps/api/src/app.controller.ts:56 | Ordering races by start time (`StartLe`: code-point order, with absent start times last) is a total preorder |
| Listings.EventRaces | apps/api/src/app.controller.ts:54-58 | The selected races are exactly the event's races, each as often as it occurs, in ascending start-time order |
| Listings.LabelsWithGender | apps/api/src/app.controller.ts:68-69 | A label list has at most as many labels as the race has categories |
| Listings.ToDto | apps/api/src/app.controller.ts:60-66 | The race's id, name, discipline, start time, laps and capacity are copied unchanged. A null laps or capacity stays absent |
| Listings.RacesForEvent | apps/api/src/app.controller.ts:51-74 | There is one element per race of the event, in ascending start-time order, and each is that race's description |
| Listings.RacesForEventComplete | apps/api/src/app.controller.ts:55 | Every race of the event is in the response |
| Listings.RacesForEventSound | apps/api/src/app.controller.ts:55 | Every element of the response describes a race of the event |
| Listings.RacesForUnknownEvent | apps/api/src/app.controller.ts:54-58 | An event id that no race carries gives an empty list rather than an error |
| Listings.LabelsConcat | apps/api/src/app.controller.ts:68-69 | Label lists follow the category rows' order |
| Listings.LabelsSnoc | apps/api/src/app.controller.ts:68-69 | One more category extends its own gender's list by its label and leaves the other lists unchanged |
| Listings.LabelsExact | apps/api/src/app.controller.ts:68-69 | A label is in a gender's list exactly when a category of the race has that gender and that label. Categories of any other gender are in neither list |
| Listings.RacesForEventCategories | apps/api/src/app.controller.ts:66-70 | In each race of the response, a label is in the `open` list (or the `women` list) exactly when one of that race's own category rows has that gender and that label |
| Listings.CategoryPartitionCount | apps/api/src/app.controller.ts:67-70 | The `open` categories, the `women` categories and the ignored rest together number exactly the race's categories |
| Listings.CategoryPartition | apps/api/src/app.controller.ts:67-70 | When every gender is `open` or `women`, the two lists together hold exactly the race's labels, with none lost or duplicated |
| Initials.SplitOnSpace | apps/web/src/app/page.tsx:32 | Splitting gives at least one piece, and no piece contains a space |
| Initials.SplitJoin | apps/web/src/app/page.tsx:32 | Joining the pieces with single spaces gives back the original name |
| Initials.SplitConcat | apps/web/src/app/page.tsx:32 | Splitting around one space splits each side separately |
| Initials.Words | apps/web/src/app/page.tsx:32-33 | Words are non-empty and contain no space |
| Initials.WordsConcat | apps/web/src/app/page.tsx:32-33 | The words around a space are the words of each side, in order |
| Initials.WordsWithoutSpace | apps/web/src/app/page.tsx:32-33 | A name with no space is a single word, or no word at all when it is empty |
| Initials.NoWordsIffBlank | apps/web/src/app/page.tsx:31-33 | A name has no words exactly when it is empty or made only of spaces |
| Initials.Initials | apps/web/src/app/page.tsx:30-37 | The result has at most two characters, one per word up to two. Each is the upper-cased first character of its word (`FirstUpper`), and they are joined in word order (`Concat`). The result is empty exactly when the name is empty or all spaces |
| Initials.LaterWordsIgnored | apps/web/src/app/page.tsx:34 | Anything after the second word does not change the initials |
| Initials.SpaceRunsCollapse | apps/web/src/app/page.tsx:32-33 | Two spaces separate words exactly as one space does |
| Initials.TabDoesNotSeparate | apps/web/src/app/page.tsx:32 | A tab does not separate words: `"a\tb"` is one word, with initials `"A"` |

## Left out

- The concurrency of count-then-insert in `createEntry`: the real handler does not insert atomically, so concurrent requests can overbook. The capacity invariant holds only for the sequential model.
- The database itself: `findUnique`, `findMany`, `count`, `create` and `update` are functions over the store value. Database failures, which surface as HTTP 500, are not modelled.
- Request bodies that are not shaped as declared: `EntryForm` fields are strings or absent, and the payment id is a string or absent. A missing body, or a form field holding a number, object or array (whose `.trim()` throws), gives a server error in the source. A truthy non-string `entryId` reaches the database query, and a falsy one such as `0` gets "entryId required". None of these paths is modelled.
- The values of the event status enum other than `PUBLISHED`: the Prisma schema is not part of this model, and the listing only tests for `PUBLISHED`, so every other value is the one case `NotPublished`.
- `upcoming`'s `include: { organiser: true }` join: the model lists events without attaching their organiser.
- `createEntry` echoes the race's event summary, and the model requires the foreign key that guarantees it exists.
- Database ordering details:
  - ties in `orderBy` are broken by insertion sort, where the database leaves them unspecified;
  - start times compare by code point, not by the database's collation;
  - absent start times sort last.
- The order of a race's categories under `include: { categories: true }` is taken to be table order.
- Full Unicode `trim` and `toUpperCase`: the model strips ASCII white space (tab, line feed, vertical tab, form feed, carriage return, space) and upper-cases only `a` to `z`. JavaScript can upper-case one character into two (`ß` becomes `SS`), so the two-character bound of `Initials` holds only for the modelled ASCII behaviour.
- `n[0]` reads one UTF-16 code unit in JavaScript. The model reads one character.
- JSON's distinction between an absent field and `null` (`laps ?? undefined`): both are `None`.
- `eventById` (apps/api/src/app.controller.ts:35-47): a single lookup that passes through and returns null for a missing id.
- Process and wiring code: `apps/api/src/main.ts` (bootstrap, CORS, health route, port) and `apps/api/src/app.module.ts` (dependency-injection wiring).
- The seed scripts (`apps/api/prisma/seed.ts` and its compiled copy `seed.js`) consist of fixture-loading database calls.
- From `apps/web/src/app/page.tsx`:
  - the JSX rendering;
  - the `getUpcoming` fetch (network);
  - `dayParts`, which depends on locale-aware date formatting.
