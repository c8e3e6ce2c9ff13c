/** The roster: adding, editing and deleting members, and naming attendees. */
module Roster {
  import opened Wrappers
  import opened Seqs
  import opened Text
  import opened Model
  import Ids

  /** The placeholder shown for an attendee id that no member carries. */
  const Unknown: string := "Desconocido"

  /** Some member of the roster already has `name`, ignoring case. */
  predicate NameTaken(ms: seq<Member>, name: string) {
    exists i :: 0 <= i < |ms| && SameIgnoringCase(ms[i].name, name)
  }

  /** The add-member form: both fields are trimmed and required, and the name
      must be new ignoring case; on success the member is appended with the
      next id and the counter moves on. */
  function AddMember(s: Store, rawName: string, rawRole: string): (r: Result<Store, Error>)
    ensures r == Failure(EmptyField) <==> Blank(rawName) || Blank(rawRole)
    ensures r == Failure(DuplicateName) <==>
      !Blank(rawName) && !Blank(rawRole) && NameTaken(s.members, Trim(rawName))
    ensures r.Success? <==>
      !Blank(rawName) && !Blank(rawRole) && !NameTaken(s.members, Trim(rawName))
    ensures r.Success? ==>
      && r.value.members == s.members + [Member(s.nextId, Trim(rawName), Trim(rawRole))]
      && r.value.events == s.events
      && r.value.nextId == s.nextId + 1
    ensures r.Success? && IdsBelowCounter(s) ==> !HasMember(s.members, s.nextId) && !HasEvent(s.events, s.nextId)
  {
    TrimEmptyIffBlank(rawName);
    TrimEmptyIffBlank(rawRole);
    var name, role := Trim(rawName), Trim(rawRole);
    if name == [] || role == [] then Failure(EmptyField)
    else if NameTaken(s.members, name) then Failure(DuplicateName)
    else
      var (id, s') := Ids.Allocate(s);
      Success(s'.(members := s.members + [Member(id, name, role)]))
  }

  /** `ms` with the member at `i` replaced by `m`. */
  function Replace(ms: seq<Member>, i: nat, m: Member): (r: seq<Member>)
    requires i < |ms|
    ensures |r| == |ms| && r[i] == m
    ensures forall j :: 0 <= j < |ms| && j != i ==> r[j] == ms[j]
  {
    ms[i := m]
  }

  /** Both prompts were answered (not cancelled) with something non-blank. */
  predicate EditAccepted(newName: Option<string>, newRole: Option<string>) {
    newName.Some? && !Blank(newName.value) && newRole.Some? && !Blank(newRole.value)
  }

  /** Editing a member through the two prompts: an unknown id, a cancelled
      prompt or a blank answer changes nothing; otherwise the first member with
      `id` takes the trimmed name and role and keeps its id. */
  function EditMember(s: Store, id: int, newName: Option<string>, newRole: Option<string>): (r: Store)
    ensures !HasMember(s.members, id) || !EditAccepted(newName, newRole) ==> r == s
    ensures r.events == s.events && r.nextId == s.nextId
    ensures |r.members| == |s.members|
    ensures forall j :: 0 <= j < |s.members| ==> r.members[j].id == s.members[j].id
    ensures forall j :: 0 <= j < |s.members| && s.members[j].id != id ==> r.members[j] == s.members[j]
    ensures HasMember(s.members, id) && EditAccepted(newName, newRole) ==>
      var i := FindMember(s.members, id).value;
      && r.members[i] == Member(id, Trim(newName.value), Trim(newRole.value))
      && (forall j :: 0 <= j < |s.members| && j != i ==> r.members[j] == s.members[j])
  {
    match FindMember(s.members, id)
    case None => s
    case Some(i) =>
      // An answer is refused when it trims to nothing, i.e. when it is blank.
      if EditAccepted(newName, newRole) then
        s.(members := Replace(s.members, i, Member(id, Trim(newName.value), Trim(newRole.value))))
      else s
  }

  /** The names of `es`, in order. */
  function Names(es: seq<Event>): (r: seq<string>)
    ensures |r| == |es|
    ensures forall k :: 0 <= k < |es| ==> r[k] == es[k].name
  {
    seq(|es|, k requires 0 <= k < |es| => es[k].name)
  }

  lemma NamesCover(es: seq<Event>)
    ensures forall e :: e in es ==> e.name in Names(es)
  {
    forall e | e in es ensures e.name in Names(es) {
      var k :| 0 <= k < |es| && es[k] == e;
      assert Names(es)[k] == e.name;
    }
  }

  /** The members other than those carrying `id`. */
  function NotId(id: int): Member -> bool {
    (m: Member) => m.id != id
  }

  /** Deleting a member (the confirmation accepted): an unknown id changes
      nothing; a member still listed by some event is refused with the names of
      exactly those events, in store order; otherwise every member with that id
      leaves the roster and the others keep their order. */
  function DeleteMember(s: Store, id: int): (r: Result<Store, Error>)
    ensures !HasMember(s.members, id) ==> r == Success(s)
    ensures r.Failure? <==>
      HasMember(s.members, id) && exists i :: 0 <= i < |s.events| && id in s.events[i].attendees
    ensures r.Failure? ==>
      && r.error.InUse?
      && r.error.eventNames == Names(Filter(s.events, AttendedBy(id)))
      && (forall i :: 0 <= i < |s.events| && id in s.events[i].attendees ==> s.events[i].name in r.error.eventNames)
    ensures r.Success? ==>
      && r.value.events == s.events && r.value.nextId == s.nextId
      && r.value.members == Filter(s.members, NotId(id))
      && (forall m :: m in r.value.members <==> m in s.members && m.id != id)
      && |r.value.members| <= |s.members|
  {
    if !HasMember(s.members, id) then
      assert forall m :: m in s.members ==> NotId(id)(m);
      FilterKeepsAll(s.members, NotId(id));
      Success(s)
    else
      var holding := Filter(s.events, AttendedBy(id));
      FilterMembers(s.events, AttendedBy(id));
      FilterMembers(s.members, NotId(id));
      if |holding| > 0 then
        assert holding[0] in s.events && AttendedBy(id)(holding[0]);
        NamesCover(holding);
        Failure(InUse(Names(holding)))
      else
        assert forall i :: 0 <= i < |s.events| ==> s.events[i] !in holding;
        Success(s.(members := Filter(s.members, NotId(id))))
  }

  /** With ids unique, a successful delete cuts exactly the one member out of
      the roster, leaving the others in their order. */
  lemma DeleteMemberCutsOne(s: Store, id: int, i: nat)
    requires UniqueIds(s)
    requires i < |s.members| && s.members[i].id == id
    requires forall k :: 0 <= k < |s.events| ==> id !in s.events[k].attendees
    ensures DeleteMember(s, id) == Success(s.(members := s.members[..i] + s.members[i + 1..]))
  {
    assert HasMember(s.members, id);
    forall e | e in s.events ensures !AttendedBy(id)(e) {
      var k :| 0 <= k < |s.events| && s.events[k] == e;
    }
    FilterKeepsNone(s.events, AttendedBy(id));
    FilterDropsOne(s.members, NotId(id), i);
  }

  /** The attendee names of an event as the list view shows them: the first
      member with each id, or the placeholder for a dangling id. */
  function AttendeeNames(ms: seq<Member>, e: Event): (r: seq<string>)
    ensures |r| == |e.attendees|
    ensures forall k :: 0 <= k < |r| && !HasMember(ms, e.attendees[k]) ==> r[k] == Unknown
    ensures forall k :: 0 <= k < |r| && HasMember(ms, e.attendees[k]) ==>
      r[k] == ms[FindMember(ms, e.attendees[k]).value].name
  {
    seq(|e.attendees|, k requires 0 <= k < |e.attendees| =>
      match FindMember(ms, e.attendees[k])
      case Some(j) => ms[j].name
      case None => Unknown)
  }

  /** When every attendee is a member, each attendee is shown under the name
      of the first member carrying its id, never under the placeholder
      (unless that member is itself called so). */
  lemma KnownAttendeeIsNamed(s: Store, i: nat, k: nat)
    requires AttendeesKnown(s)
    requires i < |s.events| && k < |s.events[i].attendees|
    ensures var a := s.events[i].attendees[k];
      && FindMember(s.members, a).Some?
      && var j := FindMember(s.members, a).value;
         s.members[j].id == a && AttendeeNames(s.members, s.events[i])[k] == s.members[j].name
  {
    var a := s.events[i].attendees[k];
    assert a in s.events[i].attendees;
    assert HasMember(s.members, a);
  }
}
