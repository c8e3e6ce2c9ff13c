/** Order-preserving filtering of sequences, the building block of every derived view. */
module Seqs {

  /** The elements of `xs` that satisfy `p`, in their original order. */
  function Filter<T(!new)>(xs: seq<T>, p: T -> bool): (r: seq<T>)
    ensures |r| <= |xs|
  {
    if xs == [] then []
    else (if p(xs[0]) then [xs[0]] else []) + Filter(xs[1..], p)
  }

  /** What survives a filter is exactly the elements that pass it. */
  lemma {:induction false} FilterMembers<T(!new)>(xs: seq<T>, p: T -> bool)
    ensures forall x :: x in Filter(xs, p) <==> x in xs && p(x)
  {
    if xs != [] {
      FilterMembers(xs[1..], p);
      assert xs == [xs[0]] + xs[1..];
    }
  }

  /** A one-element sequence survives filtering exactly when its element passes. */
  lemma FilterSingle<T(!new)>(x: T, p: T -> bool)
    ensures Filter([x], p) == if p(x) then [x] else []
  {
    assert [x][1..] == [];
  }

  /** Filtering distributes over concatenation. */
  lemma {:induction false} FilterAppend<T(!new)>(xs: seq<T>, ys: seq<T>, p: T -> bool)
    ensures Filter(xs + ys, p) == Filter(xs, p) + Filter(ys, p)
  {
    if xs == [] {
      assert xs + ys == ys;
    } else {
      var head := if p(xs[0]) then [xs[0]] else [];
      calc {
        Filter(xs + ys, p);
      ==  { assert (xs + ys)[0] == xs[0] && (xs + ys)[1..] == xs[1..] + ys; }
        head + Filter(xs[1..] + ys, p);
      ==  { FilterAppend(xs[1..], ys, p); }
        head + (Filter(xs[1..], p) + Filter(ys, p));
        (head + Filter(xs[1..], p)) + Filter(ys, p);
        Filter(xs, p) + Filter(ys, p);
      }
    }
  }

  /** A filter that every element passes keeps the whole sequence. */
  lemma {:induction false} FilterKeepsAll<T(!new)>(xs: seq<T>, p: T -> bool)
    requires forall x :: x in xs ==> p(x)
    ensures Filter(xs, p) == xs
  {
    if xs != [] {
      FilterKeepsAll(xs[1..], p);
    }
  }

  /** A filter that no element passes leaves nothing. */
  lemma {:induction false} FilterKeepsNone<T(!new)>(xs: seq<T>, p: T -> bool)
    requires forall x :: x in xs ==> !p(x)
    ensures Filter(xs, p) == []
  {
    if xs != [] {
      FilterKeepsNone(xs[1..], p);
    }
  }

  /** Two tests that agree on every element filter alike. */
  lemma {:induction false} FilterAgree<T(!new)>(xs: seq<T>, p: T -> bool, q: T -> bool)
    requires forall x :: x in xs ==> p(x) == q(x)
    ensures Filter(xs, p) == Filter(xs, q)
  {
    if xs != [] {
      FilterAgree(xs[1..], p, q);
    }
  }

  /** Filtering twice is filtering once by the conjunction. */
  lemma {:induction false} FilterTwice<T(!new)>(xs: seq<T>, p: T -> bool, q: T -> bool, pq: T -> bool)
    requires forall x :: pq(x) == (p(x) && q(x))
    ensures Filter(Filter(xs, p), q) == Filter(xs, pq)
  {
    if xs != [] {
      FilterTwice(xs[1..], p, q, pq);
      if p(xs[0]) {
        assert Filter(xs, p) == [xs[0]] + Filter(xs[1..], p);
        assert Filter(xs, p)[1..] == Filter(xs[1..], p);
      } else {
        assert Filter(xs, p) == Filter(xs[1..], p);
      }
    }
  }

  /** Filtering out the element at index `i` alone leaves the sequence with that slot cut out. */
  lemma {:induction false} FilterDropsOne<T(!new)>(xs: seq<T>, p: T -> bool, i: nat)
    requires i < |xs| && !p(xs[i])
    requires forall j :: 0 <= j < |xs| && j != i ==> p(xs[j])
    ensures Filter(xs, p) == xs[..i] + xs[i + 1..]
  {
    assert xs == xs[..i] + ([xs[i]] + xs[i + 1..]);
    SliceAllPass(xs, p, 0, i);
    SliceAllPass(xs, p, i + 1, |xs|);
    assert xs[0..i] == xs[..i] && xs[i + 1..|xs|] == xs[i + 1..];
    FilterSkipsOne(xs[..i], xs[i], xs[i + 1..], p);
  }

  /** A slice whose every element passes survives filtering intact. */
  lemma {:induction false} SliceAllPass<T(!new)>(xs: seq<T>, p: T -> bool, lo: nat, hi: nat)
    requires lo <= hi <= |xs|
    requires forall j :: lo <= j < hi ==> p(xs[j])
    ensures Filter(xs[lo..hi], p) == xs[lo..hi]
  {
    var ys := xs[lo..hi];
    forall y | y in ys ensures p(y) {
      var j :| 0 <= j < |ys| && ys[j] == y;
      assert xs[lo + j] == y;
    }
    FilterKeepsAll(ys, p);
  }

  /** Filtering drops a single failing element between two surviving runs. */
  lemma {:induction false} FilterSkipsOne<T(!new)>(front: seq<T>, x: T, back: seq<T>, p: T -> bool)
    requires Filter(front, p) == front && Filter(back, p) == back && !p(x)
    ensures Filter(front + ([x] + back), p) == front + back
  {
    assert Filter([x], p) == [] by {
      assert [x][1..] == [];
    }
    calc {
      Filter(front + ([x] + back), p);
    ==  { FilterAppend(front, [x] + back, p); }
      Filter(front, p) + Filter([x] + back, p);
    ==  { FilterAppend([x], back, p); }
      front + (Filter([x], p) + back);
    ==  { assert Filter([x], p) + back == back; }
      front + back;
    }
  }

  /** No two positions of `xs` carry the same key. */
  predicate KeysDistinct<T>(xs: seq<T>, key: T -> int) {
    forall i, j :: 0 <= i < j < |xs| ==> key(xs[i]) != key(xs[j])
  }

  /** Filtering keeps keys distinct: it only ever drops elements. */
  lemma {:induction false} FilterKeepsKeysDistinct<T(!new)>(xs: seq<T>, p: T -> bool, key: T -> int)
    requires KeysDistinct(xs, key)
    ensures KeysDistinct(Filter(xs, p), key)
  {
    if xs != [] {
      var tail := Filter(xs[1..], p);
      FilterKeepsKeysDistinct(xs[1..], p, key);
      FilterMembers(xs[1..], p);
      forall j | 0 <= j < |tail| ensures key(xs[0]) != key(tail[j]) {
        assert tail[j] in xs[1..];
        var k :| 0 <= k < |xs[1..]| && xs[1..][k] == tail[j];
        assert xs[k + 1] == tail[j];
      }
    }
  }
}
