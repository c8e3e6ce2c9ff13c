/** The id allocator: one counter shared by members and events, seeded on load. */
module Ids {
  import opened Model

  /** The largest of the ids `key` reads off `xs`, or 0 when there is no
      positive one: the `Math.max(..., 0)` that seeds the counter. */
  function MaxId<T>(xs: seq<T>, key: T -> int): (r: int)
    ensures r >= 0
    ensures forall i :: 0 <= i < |xs| ==> key(xs[i]) <= r
    ensures r == 0 || exists i :: 0 <= i < |xs| && key(xs[i]) == r
  {
    if xs == [] then 0
    else
      var rest := MaxId(xs[1..], key);
      if key(xs[0]) > rest then key(xs[0]) else rest
  }

  /** The store as the application builds it from the persisted collections: the
      counter starts one above the largest id present, and at 1 when there is none. */
  function Load(members: seq<Member>, events: seq<Event>): (s: Store)
    ensures s.members == members && s.events == events
    ensures s.nextId >= 1
    ensures IdsBelowCounter(s)
    ensures s.nextId == 1 || HasMember(members, s.nextId - 1) || HasEvent(events, s.nextId - 1)
  {
    var m, e := MaxId(members, MemberId), MaxId(events, EventId);
    Store(members, events, (if m > e then m else e) + 1)
  }

  /** Taking the counter's value for a new entity and incrementing it: the id
      handed out collides with no live id, and the counter grows. */
  function Allocate(s: Store): (r: (int, Store))
    ensures IdsBelowCounter(s) ==> !HasMember(s.members, r.0) && !HasEvent(s.events, r.0)
    ensures r.0 == s.nextId && r.1.nextId == s.nextId + 1
    ensures r.1.members == s.members && r.1.events == s.events
  {
    (s.nextId, s.(nextId := s.nextId + 1))
  }
}
