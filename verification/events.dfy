/** The event store: saving (adding or updating) and deleting events, and the
    newest-first order of the event list. */
module EventStore {
  import opened Wrappers
  import opened Seqs
  import opened Text
  import opened Model
  import Ids

  /** JavaScript truthiness of the event being edited: absent or 0 means "new". */
  predicate Editing(current: Option<int>) {
    current.Some? && current.value != 0
  }

  /** The id's checkbox is ticked. */
  function IsChecked(checked: set<int>): int -> bool {
    (a: int) => a in checked
  }

  /** The attendee list the checklist yields: the ids of the roster's members
      whose box is checked, in roster order. */
  function CheckedAttendees(ms: seq<Member>, checked: set<int>): (r: seq<int>)
    ensures |r| <= |ms|
    ensures r == Filter(MemberIds(ms), IsChecked(checked))
    ensures forall a :: a in r <==> a in checked && HasMember(ms, a)
  {
    if ms == [] then []
    else
      var rest := CheckedAttendees(ms[1..], checked);
      assert MemberIds(ms)[1..] == MemberIds(ms[1..]);
      assert forall a :: HasMember(ms, a) <==> ms[0].id == a || HasMember(ms[1..], a) by {
        forall a | HasMember(ms, a) && ms[0].id != a ensures HasMember(ms[1..], a) {
          var i :| 0 <= i < |ms| && ms[i].id == a;
          assert ms[1..][i - 1].id == a;
        }
        forall a | HasMember(ms[1..], a) ensures HasMember(ms, a) {
          var i :| 0 <= i < |ms[1..]| && ms[1..][i].id == a;
          assert ms[i + 1].id == a;
        }
      }
      (if ms[0].id in checked then [ms[0].id] else []) + rest
  }

  /** The event form: a blank name is refused; otherwise the event being edited
      is replaced whole at its place (same id, the new attendee list and no
      trace of the old one), or a new event is appended under the next id. */
  function SaveEvent(s: Store, current: Option<int>, rawName: string, date: Date, checked: set<int>): (r: Result<Store, Error>)
    requires Editing(current) ==> HasEvent(s.events, current.value)
    ensures r.Failure? <==> Blank(rawName)
    ensures r.Failure? ==> r.error == EmptyField
    ensures r.Success? ==> r.value.members == s.members
    ensures r.Success? && Editing(current) ==>
      var i := FindEvent(s.events, current.value).value;
      && r.value.nextId == s.nextId
      && |r.value.events| == |s.events|
      && r.value.events[i] == Event(current.value, Trim(rawName), date, CheckedAttendees(s.members, checked))
      && (forall j :: 0 <= j < |s.events| && j != i ==> r.value.events[j] == s.events[j])
    ensures r.Success? && !Editing(current) ==>
      && r.value.nextId == s.nextId + 1
      && |r.value.events| == |s.events| + 1
      && r.value.events[..|s.events|] == s.events
      && r.value.events[|s.events|] == Event(s.nextId, Trim(rawName), date, CheckedAttendees(s.members, checked))
  {
    TrimEmptyIffBlank(rawName);
    var name := Trim(rawName);
    if name == [] then Failure(EmptyField)
    else
      var attendees := CheckedAttendees(s.members, checked);
      if Editing(current) then
        var i := FindEvent(s.events, current.value).value;
        Success(s.(events := s.events[i := Event(current.value, name, date, attendees)]))
      else
        var (id, s') := Ids.Allocate(s);
        var events := s.events + [Event(id, name, date, attendees)];
        assert events[..|s.events|] == s.events;
        Success(s'.(events := events))
  }

  /** An update replaces the attendee list rather than merging it: afterwards
      the edited event lists exactly the checked members, whatever it listed before. */
  lemma UpdateReplacesAttendees(s: Store, id: int, rawName: string, date: Date, checked: set<int>)
    requires id != 0 && HasEvent(s.events, id) && !Blank(rawName)
    ensures var r := SaveEvent(s, Some(id), rawName, date, checked);
      && r.Success?
      && var i := FindEvent(s.events, id).value;
         forall a :: a in r.value.events[i].attendees <==> a in checked && HasMember(s.members, a)
  {
  }

  /** The events other than those carrying `id`. */
  function NotId(id: int): Event -> bool {
    (e: Event) => e.id != id
  }

  /** Deleting an event (the confirmation accepted): every event with `id` goes,
      the rest keep their order; nothing checks who attended. */
  function DeleteEvent(s: Store, id: int): (r: Store)
    ensures r.members == s.members && r.nextId == s.nextId
    ensures r.events == Filter(s.events, NotId(id))
    ensures forall e :: e in r.events <==> e in s.events && e.id != id
    ensures !HasEvent(s.events, id) ==> r == s
  {
    var events := Filter(s.events, NotId(id));
    FilterMembers(s.events, NotId(id));
    if !HasEvent(s.events, id) then
      assert forall e :: e in s.events ==> NotId(id)(e);
      FilterKeepsAll(s.events, NotId(id));
      s.(events := events)
    else s.(events := events)
  }

  /** With ids unique, deleting an event cuts exactly that one out. */
  lemma DeleteEventCutsOne(s: Store, id: int, i: nat)
    requires UniqueIds(s)
    requires i < |s.events| && s.events[i].id == id
    ensures DeleteEvent(s, id).events == s.events[..i] + s.events[i + 1..]
  {
    FilterDropsOne(s.events, NotId(id), i);
  }

  /** No event is older than one listed after it. */
  predicate NewestFirst(es: seq<Event>) {
    forall i, j :: 0 <= i < j < |es| ==> !Before(es[i].date, es[j].date)
  }

  /** Puts `e` before the first event that is not strictly newer than it. */
  function InsertNewestFirst(e: Event, es: seq<Event>): (r: seq<Event>)
    ensures multiset(r) == multiset(es) + multiset{e}
  {
    if es == [] then [e]
    else if Before(e.date, es[0].date) then
      assert es == [es[0]] + es[1..];
      [es[0]] + InsertNewestFirst(e, es[1..])
    else
      [e] + es
  }

  /** Insertion keeps the list newest first. */
  lemma {:induction false} InsertKeepsNewestFirst(e: Event, es: seq<Event>)
    requires NewestFirst(es)
    ensures NewestFirst(InsertNewestFirst(e, es))
  {
    var r := InsertNewestFirst(e, es);
    if es == [] {
    } else if Before(e.date, es[0].date) {
      var tail := InsertNewestFirst(e, es[1..]);
      InsertKeepsNewestFirst(e, es[1..]);
      assert multiset(tail) == multiset(es[1..]) + multiset{e};
      forall j | 0 <= j < |tail| ensures !Before(es[0].date, tail[j].date) {
        assert tail[j] in multiset(tail);
        if tail[j] != e {
          assert tail[j] in es[1..];
        }
      }
      assert r == [es[0]] + tail;
    } else {
      forall j | 0 <= j < |es| ensures !Before(e.date, es[j].date) {
        if j > 0 { assert !Before(es[0].date, es[j].date); }
      }
    }
  }

  /** The event list's order: newest date first, and events on the same date
      in store order, as a stable sort with the comparator `b.date - a.date`
      leaves them. */
  function SortNewestFirst(es: seq<Event>): (r: seq<Event>)
    ensures NewestFirst(r)
    ensures multiset(r) == multiset(es)
    ensures forall d :: Filter(r, OnDate(d)) == Filter(es, OnDate(d))
  {
    if es == [] then []
    else
      var rest := SortNewestFirst(es[1..]);
      var r := InsertNewestFirst(es[0], rest);
      InsertKeepsNewestFirst(es[0], rest);
      assert es == [es[0]] + es[1..];
      forall d ensures Filter(r, OnDate(d)) == Filter(es, OnDate(d)) {
        InsertKeepsDateOrder(es[0], rest, d);
        FilterAppend([es[0]], rest, OnDate(d));
        FilterAppend([es[0]], es[1..], OnDate(d));
      }
      r
  }

  /** Inserting `e` only moves it past events of strictly later dates, so the
      events of any one date stay in the order they had with `e` in front. */
  lemma {:induction false} InsertKeepsDateOrder(e: Event, es: seq<Event>, d: Date)
    ensures Filter(InsertNewestFirst(e, es), OnDate(d)) == Filter([e] + es, OnDate(d))
  {
    var p := OnDate(d);
    if es != [] && Before(e.date, es[0].date) {
      var x, rest := es[0], es[1..];
      var ins := InsertNewestFirst(e, rest);
      assert es == [x] + rest;
      assert InsertNewestFirst(e, es) == [x] + ins;
      FilterAppend([x], ins, p);
      InsertKeepsDateOrder(e, rest, d);
      FilterAppend([e], rest, p);
      FilterAppend([x], rest, p);
      FilterAppend([e], es, p);
      FilterSingle(x, p);
      FilterSingle(e, p);
      OneSideEmpty(Filter([x], p), Filter([e], p), Filter(rest, p));
    }
  }

  /** Two pieces of which one is empty can trade places. */
  lemma OneSideEmpty(a: seq<Event>, b: seq<Event>, c: seq<Event>)
    requires a == [] || b == []
    ensures a + (b + c) == b + (a + c)
  {
  }
}
