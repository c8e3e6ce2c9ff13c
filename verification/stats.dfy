/** Attendance statistics: per member, how many events of the chosen window
    they attended, and the rounded percentage with its colour band. */
module Stats {
  import opened Seqs
  import opened Model

  /** The first dates the rolling windows keep, derived from "now" by the
      caller: one calendar year back and one calendar month back. */
  datatype Cutoffs = Cutoffs(lastYear: Date, lastMonth: Date)

  datatype MemberStats = MemberStats(attended: nat, total: nat, percentage: nat)

  /** The event is on or after `cutoff`. */
  function OnOrAfter(cutoff: Date): Event -> bool {
    (e: Event) => !Before(e.date, cutoff)
  }

  /** The events the filter button selects: "all" keeps every event, "year" and
      "month" keep those on or after the matching cutoff, anything else none. */
  function Relevant(es: seq<Event>, filter: string, c: Cutoffs): (r: seq<Event>)
    ensures |r| <= |es|
    ensures filter == "all" ==> r == es
    ensures filter == "year" ==> r == Filter(es, OnOrAfter(c.lastYear))
    ensures filter == "month" ==> r == Filter(es, OnOrAfter(c.lastMonth))
    ensures filter == "year" ==> forall e :: e in r <==> e in es && !Before(e.date, c.lastYear)
    ensures filter == "month" ==> forall e :: e in r <==> e in es && !Before(e.date, c.lastMonth)
    ensures filter != "all" && filter != "year" && filter != "month" ==> r == []
  {
    if filter == "all" then es
    else if filter == "year" then
      FilterMembers(es, OnOrAfter(c.lastYear));
      Filter(es, OnOrAfter(c.lastYear))
    else if filter == "month" then
      FilterMembers(es, OnOrAfter(c.lastMonth));
      Filter(es, OnOrAfter(c.lastMonth))
    else []
  }

  /** `Math.round(attended / total * 100)` on exact rationals: the integer
      nearest to 100·attended/total, halves rounded up. */
  function RoundPercent(attended: nat, total: nat): (p: nat)
    requires 0 < total && attended <= total
    ensures p <= 100
    ensures total * (2 * p - 1) <= 200 * attended < total * (2 * p + 1)
  {
    var p := (200 * attended + total) / (2 * total);
    RoundingBounds(attended, total, p);
    p
  }

  lemma RoundingBounds(a: nat, t: nat, p: nat)
    requires 0 < t && a <= t && p == (200 * a + t) / (2 * t)
    ensures p <= 100
    ensures t * (2 * p - 1) <= 200 * a < t * (2 * p + 1)
  {
    var n, d := 200 * a + t, 2 * t;
    assert d * (n / d) + n % d == n;
    assert 0 <= n % d < d;
    var tp := t * p;
    assert d * p == 2 * tp;
    assert t * (2 * p - 1) == 2 * tp - t;
    assert t * (2 * p + 1) == 2 * tp + t;
    if p > 100 {
      MulMono(t, 101, p);
      assert false;
    }
  }

  /** No other integer is closer to 100·attended/total than the rounded percentage. */
  lemma {:induction false} RoundPercentIsNearest(attended: nat, total: nat, q: int)
    requires 0 < total && attended <= total
    ensures var p := RoundPercent(attended, total);
      Abs(100 * attended - total * p) <= Abs(100 * attended - total * q)
  {
    var p: int := RoundPercent(attended, total);
    var t: int := total;
    var tp, tq := t * p, t * q;
    Distribute(t, p);
    if q > p {
      MulStep(t, p, q);
    } else if q < p {
      MulStep(t, q, p);
    }
    NearestOfLinear(100 * attended, t, tp, tq);
  }

  lemma Distribute(t: int, p: int)
    ensures t * (2 * p - 1) == 2 * (t * p) - t
    ensures t * (2 * p + 1) == 2 * (t * p) + t
  {
  }

  /** A step up in the factor adds at least `k` to the product. */
  lemma MulStep(k: nat, a: int, b: int)
    requires a < b
    ensures k * a + k <= k * b
  {
    MulMono(k, a + 1, b);
    assert k * (a + 1) == k * a + k;
  }

  /** Within half a step of `tp`, and a whole step away from it at `tq`. */
  lemma NearestOfLinear(x: int, t: int, tp: int, tq: int)
    requires 2 * tp - t <= 2 * x < 2 * tp + t
    requires tq == tp || tq >= tp + t || tq <= tp - t
    ensures Abs(x - tp) <= Abs(x - tq)
  {
  }

  function Abs(x: int): nat {
    if x < 0 then -x else x
  }

  lemma MulMono(k: nat, a: int, b: int)
    requires a <= b
    ensures k * a <= k * b
  {
    assert k * b - k * a == k * (b - a);
  }

  /** Attending more of the same events never lowers the percentage. */
  lemma {:induction false} RoundPercentMonotone(a: nat, b: nat, total: nat)
    requires 0 < total && a <= b <= total
    ensures RoundPercent(a, total) <= RoundPercent(b, total)
  {
    var p, q := RoundPercent(a, total), RoundPercent(b, total);
    if p > q {
      MulMono(total, 2 * q + 1, 2 * p - 1);
    }
  }

  /** A member's statistics for a filter: the window's events, how many of them
      list the member, and the rounded percentage (0 for an empty window). */
  function CalculateMemberStats(es: seq<Event>, memberId: int, filter: string, c: Cutoffs): (r: MemberStats)
    ensures r.total == |Relevant(es, filter, c)|
    ensures r.attended == |Filter(Relevant(es, filter, c), AttendedBy(memberId))|
    ensures r.attended <= r.total
    ensures r.percentage <= 100
    ensures r.total == 0 ==> r.percentage == 0
    ensures r.total > 0 ==> r.total * (2 * r.percentage - 1) <= 200 * r.attended < r.total * (2 * r.percentage + 1)
  {
    var relevant := Relevant(es, filter, c);
    var total := |relevant|;
    var attended := |Filter(relevant, AttendedBy(memberId))|;
    MemberStats(attended, total, if total > 0 then RoundPercent(attended, total) else 0)
  }

  /** A member listed by every event of a non-empty window scores 100. */
  lemma {:induction false} FullAttendance(es: seq<Event>, memberId: int, filter: string, c: Cutoffs)
    requires Relevant(es, filter, c) != []
    requires forall e :: e in Relevant(es, filter, c) ==> memberId in e.attendees
    ensures CalculateMemberStats(es, memberId, filter, c).percentage == 100
  {
    var rel := Relevant(es, filter, c);
    FilterKeepsAll(rel, AttendedBy(memberId));
    PercentOfAll(|rel|);
  }

  lemma PercentOfAll(t: nat)
    requires 0 < t
    ensures RoundPercent(t, t) == 100
  {
    var p: int := RoundPercent(t, t);
    if p < 100 {
      MulMono(t, 2 * p + 1, 199);
    }
  }

  lemma PercentOfNone(t: nat)
    requires 0 < t
    ensures RoundPercent(0, t) == 0
  {
    var p: int := RoundPercent(0, t);
    if p > 0 {
      MulMono(t, 1, 2 * p - 1);
    }
  }

  /** A member listed by no event of the window scores 0. */
  lemma {:induction false} NoAttendance(es: seq<Event>, memberId: int, filter: string, c: Cutoffs)
    requires forall e :: e in Relevant(es, filter, c) ==> memberId !in e.attendees
    ensures CalculateMemberStats(es, memberId, filter, c).percentage == 0
  {
    var rel := Relevant(es, filter, c);
    FilterKeepsNone(rel, AttendedBy(memberId));
    if rel != [] {
      PercentOfNone(|rel|);
    }
  }

  /** Members 1 and 2; an event attended by 1 and one attended by both: over
      all events member 1 scores 2 of 2 (100%) and member 2 scores 1 of 2 (50%). */
  lemma StatsScenario(c: Cutoffs)
    ensures
      var es := [Event(1, "E1", Date(2024, 1, 10), [1]), Event(2, "E2", Date(2024, 1, 20), [1, 2])];
      && CalculateMemberStats(es, 1, "all", c) == MemberStats(2, 2, 100)
      && CalculateMemberStats(es, 2, "all", c) == MemberStats(1, 2, 50)
  {
    var es := [Event(1, "E1", Date(2024, 1, 10), [1]), Event(2, "E2", Date(2024, 1, 20), [1, 2])];
    assert Filter(es, AttendedBy(1)) == es;
    assert Filter(es, AttendedBy(2)) == [es[1]];
  }

  /** The colour band of a percentage. */
  datatype Band = Low | Medium | High

  /** At least 75 is high, at least 50 medium, anything less low. */
  function Classify(percentage: int): (b: Band)
    ensures b == High <==> percentage >= 75
    ensures b == Medium <==> 50 <= percentage < 75
    ensures b == Low <==> percentage < 50
  {
    if percentage >= 75 then High
    else if percentage >= 50 then Medium
    else Low
  }

  function Rank(b: Band): nat {
    match b
    case Low => 0
    case Medium => 1
    case High => 2
  }

  /** A higher percentage never falls into a lower band. */
  lemma ClassifyMonotone(p: int, q: int)
    requires p <= q
    ensures Rank(Classify(p)) <= Rank(Classify(q))
  {
  }

  datatype Row = Row(member: Member, stats: MemberStats, band: Band)

  /** What the statistics panel shows: a notice when there are no members or
      no events, otherwise one row per member in roster order. */
  datatype Report = NoMembers | NoEvents | Rows(rows: seq<Row>)

  function AttendanceReport(ms: seq<Member>, es: seq<Event>, filter: string, c: Cutoffs): (r: Report)
    ensures ms == [] <==> r == NoMembers
    ensures r == NoEvents <==> ms != [] && es == []
    ensures r.Rows? ==>
      && |r.rows| == |ms|
      && forall i :: 0 <= i < |ms| ==>
           && r.rows[i].member == ms[i]
           && r.rows[i].stats == CalculateMemberStats(es, ms[i].id, filter, c)
           && r.rows[i].stats.percentage <= 100
           && r.rows[i].band == Classify(r.rows[i].stats.percentage)
  {
    if ms == [] then NoMembers
    else if es == [] then NoEvents
    else Rows(seq(|ms|, i requires 0 <= i < |ms| =>
      var st := CalculateMemberStats(es, ms[i].id, filter, c);
      Row(ms[i], st, Classify(st.percentage))))
  }
}
