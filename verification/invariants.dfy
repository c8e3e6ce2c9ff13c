/** The store's invariants across every operation: ids stay below the counter
    and unique, and attendee lists only name members of the roster. */
module StoreInvariants {
  import opened Wrappers
  import opened Seqs
  import opened Model
  import opened Roster
  import opened EventStore
  import Ids

  /** A store loaded from persisted collections with distinct ids is valid. */
  lemma {:induction false} LoadIsValid(ms: seq<Member>, es: seq<Event>)
    requires UniqueIds(Store(ms, es, 0))
    ensures Valid(Ids.Load(ms, es))
  {
  }

  lemma {:induction false} AddMemberKeepsInvariants(s: Store, rawName: string, rawRole: string)
    requires Valid(s) && AddMember(s, rawName, rawRole).Success?
    ensures Valid(AddMember(s, rawName, rawRole).value)
    ensures AttendeesKnown(s) ==> AttendeesKnown(AddMember(s, rawName, rawRole).value)
  {
    var r := AddMember(s, rawName, rawRole).value;
    AppendMemberKeepsInvariants(s, r);
  }

  /** Appending a member under the counter's id and moving the counter on
      keeps the invariants. */
  lemma {:induction false} AppendMemberKeepsInvariants(s: Store, r: Store)
    requires Valid(s)
    requires r.events == s.events && r.nextId == s.nextId + 1 && |r.members| == |s.members| + 1
    requires r.members[..|s.members|] == s.members && r.members[|s.members|].id == s.nextId
    ensures Valid(r)
    ensures AttendeesKnown(s) ==> AttendeesKnown(r)
  {
    var n := |s.members|;
    assert r.members == s.members + [r.members[n]];
    forall i, j | 0 <= i < j < |r.members| ensures MemberId(r.members[i]) != MemberId(r.members[j]) {
      if j == n {
        assert s.members[i] in s.members;
      } else {
        assert MemberId(s.members[i]) != MemberId(s.members[j]);
      }
    }
    forall a | HasMember(s.members, a) ensures HasMember(r.members, a) {
      var i :| 0 <= i < |s.members| && s.members[i].id == a;
      assert r.members[i] == s.members[i];
    }
  }

  lemma {:induction false} EditMemberKeepsInvariants(s: Store, id: int, newName: Option<string>, newRole: Option<string>)
    requires Valid(s)
    ensures Valid(EditMember(s, id, newName, newRole))
    ensures AttendeesKnown(s) ==> AttendeesKnown(EditMember(s, id, newName, newRole))
  {
    var r := EditMember(s, id, newName, newRole);
    RenameKeepsInvariants(s, r);
  }

  /** Changing members' names and roles in place, ids untouched, keeps the
      invariants. */
  lemma {:induction false} RenameKeepsInvariants(s: Store, r: Store)
    requires Valid(s)
    requires r.events == s.events && r.nextId == s.nextId && |r.members| == |s.members|
    requires forall j :: 0 <= j < |s.members| ==> r.members[j].id == s.members[j].id
    ensures Valid(r)
    ensures AttendeesKnown(s) ==> AttendeesKnown(r)
  {
    forall i, j | 0 <= i < j < |r.members| ensures MemberId(r.members[i]) != MemberId(r.members[j]) {
      assert MemberId(s.members[i]) != MemberId(s.members[j]);
    }
    forall m | m in r.members ensures m.id < s.nextId && forall e :: e in s.events ==> m.id != e.id {
      var i :| 0 <= i < |r.members| && r.members[i] == m;
      assert s.members[i] in s.members;
    }
    forall a | HasMember(s.members, a) ensures HasMember(r.members, a) {
      var i :| 0 <= i < |s.members| && s.members[i].id == a;
      assert r.members[i].id == a;
    }
  }

  /** Deleting a member keeps the invariants, and in particular never leaves an
      event naming a member that is gone. */
  lemma {:induction false} DeleteMemberKeepsInvariants(s: Store, id: int)
    requires Valid(s) && DeleteMember(s, id).Success?
    ensures Valid(DeleteMember(s, id).value)
    ensures AttendeesKnown(s) ==> AttendeesKnown(DeleteMember(s, id).value)
  {
    var r := DeleteMember(s, id).value;
    if HasMember(s.members, id) {
      forall e | e in s.events ensures id !in e.attendees {
        var k :| 0 <= k < |s.events| && s.events[k] == e;
      }
      RemoveMemberKeepsInvariants(s, r, id);
    }
  }

  /** Dropping the members with `id` that no event lists keeps the invariants. */
  lemma {:induction false} RemoveMemberKeepsInvariants(s: Store, r: Store, id: int)
    requires Valid(s)
    requires r.events == s.events && r.nextId == s.nextId
    requires r.members == Filter(s.members, Roster.NotId(id))
    requires forall e :: e in s.events ==> id !in e.attendees
    ensures Valid(r)
    ensures AttendeesKnown(s) ==> AttendeesKnown(r)
  {
    FilterMembers(s.members, Roster.NotId(id));
    FilterKeepsKeysDistinct(s.members, Roster.NotId(id), MemberId);
    if AttendeesKnown(s) {
      forall e, a | e in r.events && a in e.attendees ensures HasMember(r.members, a) {
        assert a != id;
        assert HasMember(s.members, a);
        var i :| 0 <= i < |s.members| && s.members[i].id == a;
        assert s.members[i] in r.members;
        var j :| 0 <= j < |r.members| && r.members[j] == s.members[i];
      }
    }
  }

  lemma {:induction false} SaveEventKeepsInvariants(s: Store, current: Option<int>, rawName: string, date: Date, checked: set<int>)
    requires Editing(current) ==> HasEvent(s.events, current.value)
    requires Valid(s) && SaveEvent(s, current, rawName, date, checked).Success?
    ensures Valid(SaveEvent(s, current, rawName, date, checked).value)
    ensures AttendeesKnown(s) ==> AttendeesKnown(SaveEvent(s, current, rawName, date, checked).value)
  {
    var r := SaveEvent(s, current, rawName, date, checked).value;
    var attendees := CheckedAttendees(s.members, checked);
    if Editing(current) {
      UpdateKeepsInvariants(s, FindEvent(s.events, current.value).value, r, attendees);
    } else {
      AppendKeepsInvariants(s, r, attendees);
    }
  }

  /** Replacing the event at `i` by one with the same id and attendees drawn
      from the roster keeps the invariants. */
  lemma {:induction false} UpdateKeepsInvariants(s: Store, i: nat, r: Store, attendees: seq<int>)
    requires Valid(s) && i < |s.events|
    requires r.members == s.members && r.nextId == s.nextId && |r.events| == |s.events|
    requires r.events[i].id == s.events[i].id && r.events[i].attendees == attendees
    requires forall j :: 0 <= j < |s.events| && j != i ==> r.events[j] == s.events[j]
    requires forall a :: a in attendees ==> HasMember(s.members, a)
    ensures Valid(r)
    ensures AttendeesKnown(s) ==> AttendeesKnown(r)
  {
    forall j, k | 0 <= j < k < |r.events| ensures EventId(r.events[j]) != EventId(r.events[k]) {
      assert EventId(s.events[j]) != EventId(s.events[k]);
    }
    forall e | e in r.events ensures e.id < r.nextId && forall m :: m in r.members ==> m.id != e.id {
      var k :| 0 <= k < |r.events| && r.events[k] == e;
      assert s.events[k] in s.events;
    }
    if AttendeesKnown(s) {
      forall e, a | e in r.events && a in e.attendees ensures HasMember(r.members, a) {
        var k :| 0 <= k < |r.events| && r.events[k] == e;
        if k != i { assert s.events[k] in s.events; }
      }
    }
  }

  /** Appending an event under the counter's id, with attendees drawn from the
      roster, and moving the counter on keeps the invariants. */
  lemma {:induction false} AppendKeepsInvariants(s: Store, r: Store, attendees: seq<int>)
    requires Valid(s)
    requires r.members == s.members && r.nextId == s.nextId + 1 && |r.events| == |s.events| + 1
    requires r.events[..|s.events|] == s.events
    requires r.events[|s.events|].id == s.nextId && r.events[|s.events|].attendees == attendees
    requires forall a :: a in attendees ==> HasMember(s.members, a)
    ensures Valid(r)
    ensures AttendeesKnown(s) ==> AttendeesKnown(r)
  {
    var n := |s.events|;
    assert r.events == s.events + [r.events[n]];
    forall j, k | 0 <= j < k < |r.events| ensures EventId(r.events[j]) != EventId(r.events[k]) {
      if k == n { assert s.events[j] in s.events; }
      else { assert EventId(s.events[j]) != EventId(s.events[k]); }
    }
    if AttendeesKnown(s) {
      forall e, a | e in r.events && a in e.attendees ensures HasMember(r.members, a) {
        if e != r.events[n] {
          assert e in s.events;
        }
      }
    }
  }

  lemma {:induction false} DeleteEventKeepsInvariants(s: Store, id: int)
    requires Valid(s)
    ensures Valid(DeleteEvent(s, id))
    ensures AttendeesKnown(s) ==> AttendeesKnown(DeleteEvent(s, id))
  {
    var r := DeleteEvent(s, id);
    if HasEvent(s.events, id) {
      assert r.events == Filter(s.events, EventStore.NotId(id));
      FilterKeepsKeysDistinct(s.events, EventStore.NotId(id), EventId);
    }
  }
}
