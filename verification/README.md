# ArtCor events — a Dafny model of the attendance tracker's core

ArtCor's events app keeps three things: a roster of members (id, name,
role), a list of events (id, name, date, attendee ids), and an id counter
shared by both. The class `ArtCorEventsApp` in `app.js` implements the
core:

- it seeds the counter from the stored data;
- it adds, edits and deletes members, refusing to delete a member still
  listed in an event;
- it saves and deletes events;
- it lists events newest first;
- it groups events into a year → month → day tree;
- it computes each member's attendance percentage over a window and puts
  the percentage into a low/medium/high band.

This project models that core as pure functions over an immutable
`Store(members, events, nextId)` and proves properties about them.

Modules:

- `Wrappers` — `Option` and `Result`.
- `Seqs` — an order-preserving `Filter` (the model of `Array.prototype.filter`) and its lemmas.
- `Text` — `trim` over the JavaScript white-space set, and `toLowerCase` over ASCII and Latin-1.
- `Model` — dates, members, events, the store, the lookups, and the store invariants:
  - ids are below the counter;
  - ids are unique, and member and event ids are disjoint;
  - every attendee id names a member.
- `Ids` — counter seeding and allocation.
- `Roster` — `addMember`, `editMember` and `deleteMember`, plus the attendee-name lookup with `"Desconocido"`.
- `EventStore` — `saveEvent`, `deleteEvent` and the newest-first sort.
- `EventTree` — the year/month/day grouping and its lookups.
- `Stats` — `calculateMemberStats`, the rounding, the percentage band and the per-member report.
- `StoreInvariants` — every mutating operation preserves the store invariants.

Three behaviours of the code that the model keeps as they are:

- `editMember` and `deleteMember` return early on an unknown id
  (app.js:406, app.js:423), so the store is left unchanged.
- Editing a member does not check whether the new name is already taken.
  Only `addMember` refuses duplicate names (app.js:379).
- `saveEvent` decides between update and add by the truthiness of the
  current event id (app.js:225, app.js:237). A current id of `0` therefore
  adds a new event.

## Model

| member | source | states |
|---|---|---|
| Model.FindMember | app.js:405 | the first index whose member has the id, or None exactly when no member has it |
| Model.FindEvent | app.js:239 | the first index whose event has the id, or None exactly when no event has it |
| Ids.MaxId | app.js:9-13 | the seed maximum over member or event ids: it is at least 0, bounds every id, and is 0 or one of the ids |
| Ids.Load | app.js:9-13 | the loaded counter is at least 1 and above every stored id, and is either 1 or one above a live id |
| Ids.Allocate | app.js:225 | the handed-out id is the counter's value and the counter moves on by one; when the ids are below the counter, that id belongs to no member or event; the collections are untouched |
| StoreInvariants.LoadIsValid | app.js:9-13 | loading stored data with unique ids gives a store whose invariants hold |
| Text.TrimShape | app.js:370-371 | the result is a contiguous slice of the input, everything cut off is white space, and the result neither starts nor ends with white space |
| Text.TrimEmptyIffBlank | app.js:373 | a trimmed field is empty exactly when the raw field is all white space |
| Text.TrimIdempotent | app.js:370-371 | trimming twice is the same as trimming once |
| Text.ToLower | app.js:379 | same length; each upper-case letter becomes the letter 32 code points above it (its lower-case form), no upper-case letter is left, and every other character is kept |
| Roster.AddMember | app.js:367-391 | fails with EmptyField exactly when name or role is blank, and with DuplicateName exactly when both are present and the trimmed name equals an existing name ignoring case; it succeeds exactly when both fields are non-blank and the name is new, and then appends a member with the trimmed fields under the counter's id, bumps the counter, and leaves the events alone |
| Roster.EditMember | app.js:404-419 | for an unknown id or a cancelled or blank prompt the store is unchanged; otherwise only the first member with the id gets the trimmed name and role; every id and all events are kept |
| Roster.NamesCover | app.js:431 | the list of blocking names shown to the user includes the name of every event in the list |
| Roster.DeleteMember | app.js:421-442 | an unknown id leaves the store unchanged; deletion is refused exactly when some event lists the member, and the refusal names every such event; otherwise the roster becomes the order-preserving filter of the members whose id differs, and events and counter are kept |
| Roster.DeleteMemberCutsOne | app.js:437 | with unique ids, deleting the member at index i removes that one entry and keeps the others in order |
| Roster.AttendeeNames | app.js:468-471 | one name per attendee id, in order: the first matching member's name, or "Desconocido" for a dangling id |
| Roster.KnownAttendeeIsNamed | app.js:468-471 | when every attendee is a member, each attendee is shown under the name of the first member carrying its id, not the placeholder |
| EventStore.CheckedAttendees | app.js:232-235 | the attendee list is the roster's ids filtered by the checkbox state, so it holds exactly the checked ids of roster members, in roster order |
| EventStore.SaveEvent | app.js:215-246 | fails exactly when the name is blank; an edit replaces the first event with the current id and keeps the id, the others and the counter; an add appends an event under the counter's id and bumps the counter |
| EventStore.UpdateReplacesAttendees | app.js:237-240 | an update replaces the whole attendee list with the checked ids |
| EventStore.DeleteEvent | app.js:264-266 | the events become the order-preserving filter of those whose id differs (each survivor once, in store order); members and counter untouched |
| EventStore.DeleteEventCutsOne | app.js:266 | with unique ids, deleting the event at index i removes that one entry and keeps the others in order |
| Model.BeforeIsStrictTotalOrder | app.js:454-456 | the date order used by the sort is irreflexive, transitive and total on distinct dates |
| EventStore.InsertNewestFirst | app.js:454-456 | inserting into a newest-first list adds exactly one event |
| EventStore.InsertKeepsNewestFirst | app.js:454-456 | inserting into a newest-first list keeps it newest first |
| EventStore.SortNewestFirst | app.js:454-456 | the result is newest first, is a permutation of the input, and keeps events with the same date in their original order (stability) |
| EventStore.InsertKeepsDateOrder | app.js:454-456 | insertion keeps the relative order of events on each date |
| EventTree.DistinctDescending | app.js:554 | the group keys are exactly the keys present, strictly descending |
| EventTree.KeysAreUsed | app.js:532-550 | every key the grouping produces files at least one event, and events produce at least one key |
| EventTree.BuildTree | app.js:522-594 | years, months inside each year and days inside each month are strictly descending; no year, month or day bucket is empty; the tree is empty exactly when there are no events |
| EventTree.LookupFindsDate | app.js:524-550 | following year, month and day in the tree finds exactly the events on that date, in input order, and finds nothing for an absent date |
| EventTree.TreeKeepsEvents | app.js:524-550 | flattening the tree gives back every event exactly once (same multiset, same count) |
| EventTree.GroupingScenario | app.js:522-594 | events on 2023-05-01, 2023-05-15 and 2024-01-01 give year 2024 (January, day 1) before year 2023 (May, with day 15 before day 1) |
| Stats.Relevant | app.js:740-759 | "all" keeps every event; "year" and "month" are the order-preserving filter of the events on or after the cutoff (so each such event, once, in store order); any other filter keeps none |
| Stats.RoundPercent | app.js:766-767 | the percentage is at most 100 and lies within half a point of 100·attended/total |
| Stats.RoundPercentIsNearest | app.js:767 | no integer is closer to 100·attended/total than the rounded percentage |
| Stats.RoundPercentMonotone | app.js:767 | attending more events never lowers the percentage |
| Stats.CalculateMemberStats | app.js:736-767 | total is the window's event count and attended the count of those listing the member; attended ≤ total; an empty window gives 0 %; otherwise the percentage is the rounded ratio |
| Stats.FullAttendance | app.js:761-767 | a member listed in every event of a non-empty window gets 100 % |
| Stats.NoAttendance | app.js:761-767 | a member listed in no event of a window gets 0 % |
| Stats.StatsScenario | app.js:736-767 | two events, member 1 at both and member 2 at one: 2/2 gives 100 % and 1/2 gives 50 % |
| Stats.Classify | app.js:710-712 | High exactly when the percentage is ≥ 75, Medium exactly when 50 ≤ p < 75, Low otherwise |
| Stats.ClassifyMonotone | app.js:710-712 | a higher percentage never gets a lower band |
| Stats.AttendanceReport | app.js:689-734 | no members gives the no-members notice; members but no events gives the no-events notice; otherwise one row per member, in roster order, carrying that member's statistics and band |
| StoreInvariants.AddMemberKeepsInvariants | app.js:385-391 | adding a member keeps ids unique and below the counter, and keeps attendees known |
| StoreInvariants.EditMemberKeepsInvariants | app.js:412-413 | editing a member keeps the invariants |
| StoreInvariants.DeleteMemberKeepsInvariants | app.js:426-437 | deleting a member keeps the invariants; attendees stay known because a listed member is never deleted |
| StoreInvariants.SaveEventKeepsInvariants | app.js:224-244 | saving an event (update or add) keeps the invariants, including that every attendee is a member |
| StoreInvariants.DeleteEventKeepsInvariants | app.js:266 | deleting an event keeps the invariants |

## Left out

- Rendering, modals, notifications, focus handling and form resets are left out. The model covers only the data they show.
- The `confirm` dialogs in `deleteMember` and `deleteEvent` are taken as accepted.
- The two `prompt` answers of `editMember` are parameters: `None` stands for a cancelled prompt.
- Persistence (`saveToLocalStorage`, JSON parsing at start-up) is left out. The stored arrays are parameters of `Ids.Load`.
- The offline service worker (`sw.js`) is not part of this model.
- Dates are (year, month, day) triples. JavaScript date-string parsing, time zones, invalid or empty dates and locale month and day names are left out.
- EventTree.BuildTree: month keys are the date's month number, not the 0-based `getMonth()` value. The offset is constant and does not change the order.
- Stats.Relevant: the "year" and "month" cutoffs are parameters. The model does not compute them with `setFullYear`/`setMonth` on the current clock, with their day overflow. It also compares whole dates, not midnight against the time of day.
- Stats.RoundPercent: `Math.round` on the floating-point value attended/total·100 is modelled as exact half-up rounding. The two differ where the product of doubles falls just below an exact half: (23/40)·100 is 57.49999999999999 in IEEE double arithmetic, so the source shows 57 where the model gives 58 (likewise 29/200, 57/200 and 113/200). No such case crosses the 50 or 75 band threshold.
- The "details" sentence built by `calculateMemberStats` is not modelled.
- Text.ToLower: covers ASCII and Latin-1 letters only, not the full Unicode case mapping of `toLowerCase`.
- EventStore.SaveEvent: an update requires the current id to name an event. The source's write to index -1 for a vanished event is not modelled.
- Ids.Load: every stored record carries an integer id, so a record without one (read as 0 by `e.id || 0`) is not representable. Ids are unbounded integers, not JavaScript numbers.
