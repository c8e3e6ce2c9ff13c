/** The entities of the attendance tracker and the invariants its store keeps. */
module Model {
  import opened Wrappers
  import opened Seqs

  /** A calendar date without time of day, as the date input yields it. */
  datatype Date = Date(year: int, month: int, day: int)

  /** `a` is strictly earlier than `b`: lexicographic on (year, month, day). */
  predicate Before(a: Date, b: Date) {
    || a.year < b.year
    || (a.year == b.year && a.month < b.month)
    || (a.year == b.year && a.month == b.month && a.day < b.day)
  }

  /** Earlier dates come strictly before later ones, and any two dates are comparable. */
  lemma BeforeIsStrictTotalOrder(a: Date, b: Date, c: Date)
    ensures !Before(a, a)
    ensures Before(a, b) ==> !Before(b, a)
    ensures Before(a, b) && Before(b, c) ==> Before(a, c)
    ensures a == b || Before(a, b) || Before(b, a)
  {
  }

  datatype Member = Member(id: int, name: string, role: string)

  /** An event; `attendees` holds member ids, which may dangle after the fact. */
  datatype Event = Event(id: int, name: string, date: Date, attendees: seq<int>)

  /** The whole data set: the roster, the events and the id counter. */
  datatype Store = Store(members: seq<Member>, events: seq<Event>, nextId: int)

  /** Why an operation was refused. */
  datatype Error =
    | EmptyField                       // a required field is blank after trimming
    | DuplicateName                    // the roster already has this name, ignoring case
    | InUse(eventNames: seq<string>)   // the member is still an attendee of these events

  predicate HasMember(ms: seq<Member>, id: int) {
    exists i :: 0 <= i < |ms| && ms[i].id == id
  }

  predicate HasEvent(es: seq<Event>, id: int) {
    exists i :: 0 <= i < |es| && es[i].id == id
  }

  /** The first member carrying `id`, as `Array.prototype.find` returns it. */
  function FindMember(ms: seq<Member>, id: int): (r: Option<nat>)
    ensures r.None? <==> !HasMember(ms, id)
    ensures r.Some? ==> r.value < |ms| && ms[r.value].id == id
    ensures r.Some? ==> forall j :: 0 <= j < r.value ==> ms[j].id != id
  {
    if ms == [] then None
    else if ms[0].id == id then Some(0)
    else match FindMember(ms[1..], id)
      case None => None
      case Some(k) => Some(k + 1)
  }

  /** The first event carrying `id`, as `Array.prototype.findIndex` locates it. */
  function FindEvent(es: seq<Event>, id: int): (r: Option<nat>)
    ensures r.None? <==> !HasEvent(es, id)
    ensures r.Some? ==> r.value < |es| && es[r.value].id == id
    ensures r.Some? ==> forall j :: 0 <= j < r.value ==> es[j].id != id
  {
    if es == [] then None
    else if es[0].id == id then Some(0)
    else match FindEvent(es[1..], id)
      case None => None
      case Some(k) => Some(k + 1)
  }

  function MemberId(m: Member): int {
    m.id
  }

  /** The roster's ids, in roster order. */
  function MemberIds(ms: seq<Member>): (r: seq<int>)
    ensures |r| == |ms|
    ensures forall i :: 0 <= i < |ms| ==> r[i] == ms[i].id
  {
    seq(|ms|, i requires 0 <= i < |ms| => ms[i].id)
  }

  function EventId(e: Event): int {
    e.id
  }

  /** The counter lies above every live id, so the next one handed out is fresh. */
  ghost predicate IdsBelowCounter(s: Store) {
    && (forall m :: m in s.members ==> m.id < s.nextId)
    && (forall e :: e in s.events ==> e.id < s.nextId)
  }

  /** No two live entities share an id: members and events draw from one counter. */
  ghost predicate UniqueIds(s: Store) {
    && KeysDistinct(s.members, MemberId)
    && KeysDistinct(s.events, EventId)
    && (forall m, e :: m in s.members && e in s.events ==> m.id != e.id)
  }

  /** The event lists member `id` among its attendees. */
  function AttendedBy(id: int): Event -> bool {
    (e: Event) => id in e.attendees
  }

  /** The event falls on day `d`. */
  function OnDate(d: Date): Event -> bool {
    (e: Event) => e.date == d
  }

  /** Every attendee id names a member of the roster: no dangling reference. */
  ghost predicate AttendeesKnown(s: Store) {
    forall e, a :: e in s.events && a in e.attendees ==> HasMember(s.members, a)
  }

  ghost predicate Valid(s: Store) {
    IdsBelowCounter(s) && UniqueIds(s)
  }
}
