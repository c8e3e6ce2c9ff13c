/** The navigation tree: events grouped by year, then month, then day, each
    level in strictly descending order and each day's events in store order. */
module EventTree {
  import opened Wrappers
  import opened Seqs
  import opened Model

  /** The three levels of the tree and the date component each one groups by. */
  datatype Level = ByYear | ByMonth | ByDay

  function KeyAt(d: Date, l: Level): int {
    match l
    case ByYear => d.year
    case ByMonth => d.month
    case ByDay => d.day
  }

  /** The event's date has component `k` at level `l`. */
  function HasKey(l: Level, k: int): Event -> bool {
    (e: Event) => KeyAt(e.date, l) == k
  }

  /** A bucket of the tree: a key and what is grouped under it. */
  datatype Node<C> = Node(key: int, children: C)

  type DayBucket = Node<seq<Event>>
  type MonthBucket = Node<seq<DayBucket>>
  type YearBucket = Node<seq<MonthBucket>>
  type Tree = seq<YearBucket>

  predicate StrictlyDescending(ks: seq<int>) {
    forall i, j :: 0 <= i < j < |ks| ==> ks[i] > ks[j]
  }

  predicate KeysDescending<C>(ns: seq<Node<C>>) {
    forall i, j :: 0 <= i < j < |ns| ==> ns[i].key > ns[j].key
  }

  /** The components at level `l` of the events' dates, in store order. */
  function Keys(es: seq<Event>, l: Level): (r: seq<int>)
    ensures |r| == |es|
    ensures forall i :: 0 <= i < |es| ==> r[i] == KeyAt(es[i].date, l)
  {
    seq(|es|, i requires 0 <= i < |es| => KeyAt(es[i].date, l))
  }

  /** Adds `k` to a strictly descending sequence, unless it is already there. */
  function InsertDescending(k: int, ks: seq<int>): (r: seq<int>)
    ensures forall x :: x in r <==> x == k || x in ks
    ensures StrictlyDescending(ks) ==> StrictlyDescending(r)
  {
    if ks == [] then [k]
    else if k > ks[0] then [k] + ks
    else if k == ks[0] then ks
    else
      var tail := InsertDescending(k, ks[1..]);
      assert ks == [ks[0]] + ks[1..];
      assert StrictlyDescending(ks) ==> forall j :: 0 <= j < |tail| ==> ks[0] > tail[j] by {
        if StrictlyDescending(ks) {
          forall j | 0 <= j < |tail| ensures ks[0] > tail[j] {
            assert tail[j] in tail;
            if tail[j] != k {
              var m :| 0 <= m < |ks[1..]| && ks[1..][m] == tail[j];
              assert ks[m + 1] == tail[j];
            }
          }
        }
      }
      [ks[0]] + tail
  }

  /** The distinct values of `ks`, largest first: the sorted keys of the
      object the grouping fills. */
  function DistinctDescending(ks: seq<int>): (r: seq<int>)
    ensures forall x :: x in r <==> x in ks
    ensures StrictlyDescending(r)
  {
    if ks == [] then []
    else
      var r := InsertDescending(ks[0], DistinctDescending(ks[1..]));
      assert ks == [ks[0]] + ks[1..];
      r
  }

  /** One bucket per key of `ks`, in that order, each holding what `build`
      makes of the events with that key. */
  function Nodes<C>(es: seq<Event>, ks: seq<int>, l: Level, build: seq<Event> -> C): (r: seq<Node<C>>)
    ensures |r| == |ks|
    ensures forall i :: 0 <= i < |ks| ==> r[i] == Node(ks[i], build(Filter(es, HasKey(l, ks[i]))))
  {
    if ks == [] then []
    else [Node(ks[0], build(Filter(es, HasKey(l, ks[0]))))] + Nodes(es, ks[1..], l, build)
  }

  function DayEvents(es: seq<Event>): seq<Event> {
    es
  }

  /** Every key the grouping produces files at least one event, and some key
      is produced as soon as there is an event: a bucket is only created for
      an event put into it. */
  lemma {:induction false} KeysAreUsed(es: seq<Event>, l: Level)
    ensures es != [] ==> DistinctDescending(Keys(es, l)) != []
    ensures forall k :: k in DistinctDescending(Keys(es, l)) ==> Filter(es, HasKey(l, k)) != []
  {
    var ks := Keys(es, l);
    if es != [] {
      assert ks[0] in ks;
    }
    forall k | k in DistinctDescending(ks) ensures Filter(es, HasKey(l, k)) != [] {
      var i :| 0 <= i < |ks| && ks[i] == k;
      FilterMembers(es, HasKey(l, k));
      assert es[i] in Filter(es, HasKey(l, k));
    }
  }

  /** The day buckets of events that share a month. */
  function BuildDays(es: seq<Event>): (r: seq<DayBucket>)
    ensures KeysDescending(r)
    ensures es != [] ==> r != []
    ensures forall j :: 0 <= j < |r| ==> r[j].children != []
  {
    KeysAreUsed(es, ByDay);
    Nodes(es, DistinctDescending(Keys(es, ByDay)), ByDay, DayEvents)
  }

  /** The month buckets of events that share a year. */
  function BuildMonths(es: seq<Event>): (r: seq<MonthBucket>)
    ensures KeysDescending(r)
    ensures forall j :: 0 <= j < |r| ==> KeysDescending(r[j].children)
    ensures es != [] ==> r != []
    ensures forall j :: 0 <= j < |r| ==> r[j].children != []
    ensures forall j, d :: 0 <= j < |r| && 0 <= d < |r[j].children| ==> r[j].children[d].children != []
  {
    KeysAreUsed(es, ByMonth);
    Nodes(es, DistinctDescending(Keys(es, ByMonth)), ByMonth, BuildDays)
  }

  /** The whole tree: years, months and days each in strictly descending order,
      and no bucket at any level without events under it. */
  function BuildTree(es: seq<Event>): (t: Tree)
    ensures es == [] <==> t == []
    ensures KeysDescending(t)
    ensures forall i :: 0 <= i < |t| ==> KeysDescending(t[i].children)
    ensures forall i, j :: 0 <= i < |t| && 0 <= j < |t[i].children| ==> KeysDescending(t[i].children[j].children)
    ensures forall i :: 0 <= i < |t| ==> t[i].children != []
    ensures forall i, j :: 0 <= i < |t| && 0 <= j < |t[i].children| ==> t[i].children[j].children != []
    ensures forall i, j, d :: 0 <= i < |t| && 0 <= j < |t[i].children| && 0 <= d < |t[i].children[j].children| ==>
      t[i].children[j].children[d].children != []
  {
    KeysAreUsed(es, ByYear);
    Nodes(es, DistinctDescending(Keys(es, ByYear)), ByYear, BuildMonths)
  }

  /** The first bucket under key `k`. */
  function Find<C>(ns: seq<Node<C>>, k: int): (r: Option<C>)
    ensures r.None? <==> forall i :: 0 <= i < |ns| ==> ns[i].key != k
    ensures r.Some? ==> exists i :: 0 <= i < |ns| && ns[i].key == k && ns[i].children == r.value
  {
    if ns == [] then None
    else if ns[0].key == k then Some(ns[0].children)
    else
      var r := Find(ns[1..], k);
      assert forall i :: 1 <= i < |ns| ==> ns[i] == ns[1..][i - 1];
      r
  }

  /** The events the tree files under date `d`, if it has a bucket for it. */
  function Lookup(t: Tree, d: Date): Option<seq<Event>> {
    match Find(t, d.year)
    case None => None
    case Some(months) => LookupInYear(months, d)
  }

  /** The events a year's buckets file under date `d`, if any. */
  function LookupInYear(months: seq<MonthBucket>, d: Date): Option<seq<Event>> {
    match Find(months, d.month)
    case None => None
    case Some(days) => Find(days, d.day)
  }

  predicate HasDate(es: seq<Event>, d: Date) {
    exists i :: 0 <= i < |es| && es[i].date == d
  }

  /** Bucket lookup on the built nodes: a key has a bucket exactly when it is
      one of the keys, holding what `build` makes of that key's events. */
  lemma {:induction false} FindNodes<C>(es: seq<Event>, ks: seq<int>, l: Level, build: seq<Event> -> C, k: int)
    ensures Find(Nodes(es, ks, l, build), k) ==
      if k in ks then Some(build(Filter(es, HasKey(l, k)))) else None
  {
    var ns := Nodes(es, ks, l, build);
    if k in ks {
      var i :| 0 <= i < |ks| && ks[i] == k;
      assert ns[i].key == k;
    }
  }

  /** Events of one month: the day bucket for `d` exists exactly when some
      event falls on `d`, and holds exactly those events. */
  lemma {:induction false} LookupDays(xs: seq<Event>, d: Date)
    requires forall e :: e in xs ==> e.date.year == d.year && e.date.month == d.month
    ensures Find(BuildDays(xs), d.day) ==
      if HasDate(xs, d) then Some(Filter(xs, OnDate(d))) else None
  {
    var ds := DistinctDescending(Keys(xs, ByDay));
    FindNodes(xs, ds, ByDay, DayEvents, d.day);
    if HasDate(xs, d) {
      var i :| 0 <= i < |xs| && xs[i].date == d;
      assert Keys(xs, ByDay)[i] == d.day;
    }
    if d.day in ds {
      var i :| 0 <= i < |xs| && Keys(xs, ByDay)[i] == d.day;
      assert xs[i] in xs;
      assert xs[i].date == d;
    }
    forall e | e in xs ensures HasKey(ByDay, d.day)(e) == OnDate(d)(e) {
    }
    FilterAgree(xs, HasKey(ByDay, d.day), OnDate(d));
  }

  /** Narrowing the events to a test that every event on `d` passes keeps
      the events on `d` and their order. */
  lemma {:induction false} NarrowKeepsDate(xs: seq<Event>, p: Event -> bool, d: Date)
    requires forall e: Event :: e.date == d ==> p(e)
    ensures HasDate(Filter(xs, p), d) == HasDate(xs, d)
    ensures Filter(Filter(xs, p), OnDate(d)) == Filter(xs, OnDate(d))
  {
    var ys := Filter(xs, p);
    FilterMembers(xs, p);
    FilterTwice(xs, p, OnDate(d), OnDate(d));
    if HasDate(xs, d) {
      var i :| 0 <= i < |xs| && xs[i].date == d;
      assert xs[i] in ys;
    }
    if HasDate(ys, d) {
      var i :| 0 <= i < |ys| && ys[i].date == d;
      assert ys[i] in xs;
    }
  }

  /** A key that no event has gets no bucket, and no event has a date with it. */
  lemma {:induction false} MissingKeyMeansNoDate(xs: seq<Event>, l: Level, d: Date)
    requires KeyAt(d, l) !in Keys(xs, l)
    ensures !HasDate(xs, d)
  {
    forall i | 0 <= i < |xs| ensures xs[i].date != d {
      assert Keys(xs, l)[i] == KeyAt(xs[i].date, l);
    }
  }

  /** Events of one year: the same, one level up. */
  lemma {:induction false} LookupMonths(xs: seq<Event>, d: Date)
    requires forall e :: e in xs ==> e.date.year == d.year
    ensures LookupInYear(BuildMonths(xs), d) == if HasDate(xs, d) then Some(Filter(xs, OnDate(d))) else None
  {
    var ms := DistinctDescending(Keys(xs, ByMonth));
    FindNodes(xs, ms, ByMonth, BuildDays, d.month);
    if d.month in ms {
      var ys := Filter(xs, HasKey(ByMonth, d.month));
      FilterMembers(xs, HasKey(ByMonth, d.month));
      LookupDays(ys, d);
      NarrowKeepsDate(xs, HasKey(ByMonth, d.month), d);
    } else {
      MissingKeyMeansNoDate(xs, ByMonth, d);
    }
  }

  /** Grouping files every event under its own date and nowhere else: the tree
      has a bucket for date `d` exactly when some event falls on `d`, and that
      bucket holds exactly the events of that date, in store order. */
  lemma {:induction false} LookupFindsDate(es: seq<Event>, d: Date)
    ensures Lookup(BuildTree(es), d) ==
      if HasDate(es, d) then Some(Filter(es, OnDate(d))) else None
  {
    var ys := DistinctDescending(Keys(es, ByYear));
    FindNodes(es, ys, ByYear, BuildMonths, d.year);
    if d.year in ys {
      var xs := Filter(es, HasKey(ByYear, d.year));
      FilterMembers(es, HasKey(ByYear, d.year));
      LookupMonths(xs, d);
      NarrowKeepsDate(es, HasKey(ByYear, d.year), d);
    } else {
      MissingKeyMeansNoDate(es, ByYear, d);
    }
  }

  /** The events of a level of the tree, bucket after bucket. */
  function Flatten<C>(ns: seq<Node<C>>, f: C -> seq<Event>): seq<Event> {
    if ns == [] then [] else f(ns[0].children) + Flatten(ns[1..], f)
  }

  function MonthEvents(ds: seq<DayBucket>): seq<Event> {
    Flatten(ds, DayEvents)
  }

  function YearEvents(ms: seq<MonthBucket>): seq<Event> {
    Flatten(ms, MonthEvents)
  }

  /** Every event of the tree, in display order. */
  function TreeEvents(t: Tree): seq<Event> {
    Flatten(t, YearEvents)
  }

  /** The events grouped under each key of `ks` at level `l`, pooled. */
  function Spread(es: seq<Event>, l: Level, ks: seq<int>): multiset<Event> {
    if ks == [] then multiset{}
    else multiset(Filter(es, HasKey(l, ks[0]))) + Spread(es, l, ks[1..])
  }

  /** Flattening the built buckets pools each key's events, provided each
      bucket's contents flatten back to the events it was built from. */
  lemma {:induction false} FlattenNodes<C>(es: seq<Event>, ks: seq<int>, l: Level,
                                           build: seq<Event> -> C, f: C -> seq<Event>)
    requires forall xs :: multiset(f(build(xs))) == multiset(xs)
    ensures multiset(Flatten(Nodes(es, ks, l, build), f)) == Spread(es, l, ks)
  {
    if ks != [] {
      var ns := Nodes(es, ks, l, build);
      assert ns[1..] == Nodes(es, ks[1..], l, build);
      FlattenNodes(es, ks[1..], l, build, f);
    }
  }

  /** Spreading an event list with one more event in front adds that event
      once if its key is among the (distinct) keys, and not at all otherwise. */
  lemma {:induction false} SpreadCons(e: Event, es: seq<Event>, l: Level, ks: seq<int>)
    requires StrictlyDescending(ks)
    ensures Spread([e] + es, l, ks) ==
      Spread(es, l, ks) + (if KeyAt(e.date, l) in ks then multiset{e} else multiset{})
  {
    if ks != [] {
      var p := HasKey(l, ks[0]);
      SpreadCons(e, es, l, ks[1..]);
      FilterAppend([e], es, p);
      FilterSingle(e, p);
      assert KeyAt(e.date, l) in ks <==> KeyAt(e.date, l) == ks[0] || KeyAt(e.date, l) in ks[1..];
      if KeyAt(e.date, l) == ks[0] {
        assert KeyAt(e.date, l) !in ks[1..];
      }
    }
  }

  /** Spreading over distinct keys that cover every event gives back exactly
      the events: each lands in one bucket, once. */
  lemma {:induction false} SpreadIsWhole(es: seq<Event>, l: Level, ks: seq<int>)
    requires StrictlyDescending(ks)
    requires forall i :: 0 <= i < |es| ==> KeyAt(es[i].date, l) in ks
    ensures Spread(es, l, ks) == multiset(es)
  {
    if es == [] {
      SpreadOfNothing(l, ks);
    } else {
      assert es == [es[0]] + es[1..];
      SpreadIsWhole(es[1..], l, ks);
      SpreadCons(es[0], es[1..], l, ks);
    }
  }

  lemma {:induction false} SpreadOfNothing(l: Level, ks: seq<int>)
    ensures Spread([], l, ks) == multiset{}
  {
    if ks != [] {
      SpreadOfNothing(l, ks[1..]);
    }
  }

  /** Grouping at level `l` and flattening returns the events, when each
      bucket's contents already do. */
  lemma {:induction false} GroupingKeepsEvents<C>(es: seq<Event>, l: Level, build: seq<Event> -> C, f: C -> seq<Event>)
    requires forall xs :: multiset(f(build(xs))) == multiset(xs)
    ensures multiset(Flatten(Nodes(es, DistinctDescending(Keys(es, l)), l, build), f)) == multiset(es)
  {
    var ks := DistinctDescending(Keys(es, l));
    FlattenNodes(es, ks, l, build, f);
    forall i | 0 <= i < |es| ensures KeyAt(es[i].date, l) in ks {
      assert Keys(es, l)[i] == KeyAt(es[i].date, l);
    }
    SpreadIsWhole(es, l, ks);
  }

  /** The tree is a partition of the events: flattened, it holds every event
      exactly as often as the store does, so its size is the number of events. */
  lemma {:induction false} TreeKeepsEvents(es: seq<Event>)
    ensures multiset(TreeEvents(BuildTree(es))) == multiset(es)
    ensures |TreeEvents(BuildTree(es))| == |es|
  {
    forall xs: seq<Event> ensures multiset(MonthEvents(BuildDays(xs))) == multiset(xs) {
      GroupingKeepsEvents(xs, ByDay, DayEvents, DayEvents);
    }
    forall xs: seq<Event> ensures multiset(YearEvents(BuildMonths(xs))) == multiset(xs) {
      GroupingKeepsEvents(xs, ByMonth, BuildDays, MonthEvents);
    }
    GroupingKeepsEvents(es, ByYear, BuildMonths, YearEvents);
    assert |multiset(TreeEvents(BuildTree(es)))| == |multiset(es)|;
  }

  /** Events on 2023-05-01, 2023-05-15 and 2024-01-01 give the years 2024 then
      2023, one month under each, and the two May events under May by day. */
  lemma {:induction false} GroupingScenario(e1: Event, e2: Event, e3: Event)
    requires e1.date == Date(2023, 5, 1) && e2.date == Date(2023, 5, 15) && e3.date == Date(2024, 1, 1)
    ensures BuildTree([e1, e2, e3]) ==
      [ Node(2024, [Node(1, [Node(1, [e3])])]),
        Node(2023, [Node(5, [Node(15, [e2]), Node(1, [e1])])]) ]
  {
    var es := [e1, e2, e3];
    ScenarioYears(e1, e2, e3);
    ScenarioMay(e1, e2);
    ScenarioJanuary(e3);
    TwoNodes(es, 2024, 2023, ByYear, BuildMonths);
  }

  /** The years of the scenario: 2024 holds the third event, 2023 the first two. */
  lemma {:induction false} ScenarioYears(e1: Event, e2: Event, e3: Event)
    requires e1.date.year == 2023 && e2.date.year == 2023 && e3.date.year == 2024
    ensures BuildTree([e1, e2, e3]) == Nodes([e1, e2, e3], [2024, 2023], ByYear, BuildMonths)
    ensures Filter([e1, e2, e3], HasKey(ByYear, 2024)) == [e3]
    ensures Filter([e1, e2, e3], HasKey(ByYear, 2023)) == [e1, e2]
  {
    var es := [e1, e2, e3];
    assert Keys(es, ByYear) == [2023, 2023, 2024];
    ScenarioYearKeys();
    ScenarioYearFilters(e1, e2, e3);
  }

  lemma {:induction false} ScenarioYearFilters(e1: Event, e2: Event, e3: Event)
    requires e1.date.year == 2023 && e2.date.year == 2023 && e3.date.year == 2024
    ensures Filter([e1, e2, e3], HasKey(ByYear, 2024)) == [e3]
    ensures Filter([e1, e2, e3], HasKey(ByYear, 2023)) == [e1, e2]
  {
    var p, q := HasKey(ByYear, 2024), HasKey(ByYear, 2023);
    assert !p(e1) && !p(e2) && p(e3);
    assert q(e1) && q(e2) && !q(e3);
    FilterOfThree(e1, e2, e3, p);
    FilterOfThree(e1, e2, e3, q);
  }

  lemma ScenarioYearKeys()
    ensures DistinctDescending([2023, 2023, 2024]) == [2024, 2023]
  {
    assert [2023, 2023, 2024][1..] == [2023, 2024];
    DistinctOfTwo(2023, 2024);
    assert [2024, 2023][1..] == [2023];
    assert InsertDescending(2023, [2023]) == [2023];
    assert InsertDescending(2023, [2024, 2023]) == [2024] + InsertDescending(2023, [2023]);
  }

  lemma {:induction false} ScenarioMay(e1: Event, e2: Event)
    requires e1.date == Date(2023, 5, 1) && e2.date == Date(2023, 5, 15)
    ensures BuildMonths([e1, e2]) == [Node(5, [Node(15, [e2]), Node(1, [e1])])]
  {
    var y := [e1, e2];
    assert Keys(y, ByMonth) == [5, 5];
    DistinctOfSame(5);
    assert BuildMonths(y) == Nodes(y, [5], ByMonth, BuildDays);
    FilterOfTwo(e1, e2, HasKey(ByMonth, 5));
    assert HasKey(ByMonth, 5)(e1) && HasKey(ByMonth, 5)(e2);
    assert Filter(y, HasKey(ByMonth, 5)) == y;
    ScenarioMayDays(e1, e2);
    OneNode(y, 5, ByMonth, BuildDays);
  }

  lemma {:induction false} ScenarioMayDays(e1: Event, e2: Event)
    requires e1.date.day == 1 && e2.date.day == 15
    ensures BuildDays([e1, e2]) == [Node(15, [e2]), Node(1, [e1])]
  {
    var y := [e1, e2];
    assert Keys(y, ByDay) == [1, 15];
    DistinctOfTwo(1, 15);
    assert BuildDays(y) == Nodes(y, [15, 1], ByDay, DayEvents);
    FilterOfTwo(e1, e2, HasKey(ByDay, 15));
    FilterOfTwo(e1, e2, HasKey(ByDay, 1));
    assert !HasKey(ByDay, 15)(e1) && HasKey(ByDay, 15)(e2);
    assert HasKey(ByDay, 1)(e1) && !HasKey(ByDay, 1)(e2);
    TwoNodes(y, 15, 1, ByDay, DayEvents);
    assert Filter(y, HasKey(ByDay, 15)) == [e2];
    assert Filter(y, HasKey(ByDay, 1)) == [e1];
    assert Nodes(y, [15, 1], ByDay, DayEvents)[0] == Node(15, [e2]);
  }

  lemma {:induction false} ScenarioJanuary(e3: Event)
    requires e3.date.month == 1 && e3.date.day == 1
    ensures BuildMonths([e3]) == [Node(1, [Node(1, [e3])])]
  {
    assert Keys([e3], ByMonth) == [1] && Keys([e3], ByDay) == [1];
    DistinctOfOne(1);
    FilterSingle(e3, HasKey(ByMonth, 1));
    FilterSingle(e3, HasKey(ByDay, 1));
    OneNode([e3], 1, ByDay, DayEvents);
    OneNode([e3], 1, ByMonth, BuildDays);
  }

  lemma DistinctOfOne(a: int)
    ensures DistinctDescending([a]) == [a]
  {
    assert [a][1..] == [];
  }

  lemma DistinctOfSame(a: int)
    ensures DistinctDescending([a, a]) == [a]
  {
    assert [a, a][1..] == [a];
    DistinctOfOne(a);
  }

  lemma DistinctOfTwo(a: int, b: int)
    requires a < b
    ensures DistinctDescending([a, b]) == [b, a]
  {
    assert [a, b][1..] == [b];
    DistinctOfOne(b);
    assert [b][1..] == [];
    assert InsertDescending(a, []) == [a];
    assert InsertDescending(a, [b]) == [b] + InsertDescending(a, []);
  }

  lemma OneNode<C>(es: seq<Event>, k: int, l: Level, build: seq<Event> -> C)
    ensures Nodes(es, [k], l, build) == [Node(k, build(Filter(es, HasKey(l, k))))]
  {
  }

  lemma TwoNodes<C>(es: seq<Event>, k1: int, k2: int, l: Level, build: seq<Event> -> C)
    ensures Nodes(es, [k1, k2], l, build) ==
      [Node(k1, build(Filter(es, HasKey(l, k1)))), Node(k2, build(Filter(es, HasKey(l, k2))))]
  {
  }

  lemma FilterOfTwo(a: Event, b: Event, p: Event -> bool)
    ensures Filter([a, b], p) == (if p(a) then [a] else []) + (if p(b) then [b] else [])
  {
    assert [a, b] == [a] + [b];
    FilterAppend([a], [b], p);
    FilterSingle(a, p);
    FilterSingle(b, p);
  }

  lemma FilterOfThree(a: Event, b: Event, c: Event, p: Event -> bool)
    ensures Filter([a, b, c], p) == (if p(a) then [a] else []) + (if p(b) then [b] else []) + (if p(c) then [c] else [])
  {
    assert [a, b, c] == [a, b] + [c];
    FilterAppend([a, b], [c], p);
    FilterOfTwo(a, b, p);
    FilterSingle(c, p);
  }
}
