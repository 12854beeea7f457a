/** Sequence helpers shared by the backend and frontend models: order
    preserving filtering (`Array.prototype.filter`, a SQL `WHERE`) and
    subsequences. */
module Seqs {

  /** `a` is `b` with some elements left out, the rest in the same order. */
  predicate IsSubseq<T(==)>(a: seq<T>, b: seq<T>)
    decreases |b|
  {
    if |a| == 0 then true
    else if |b| == 0 then false
    else if a[0] == b[0] && IsSubseq(a[1..], b[1..]) then true
    else IsSubseq(a, b[1..])
  }

  /** The elements of `xs` that satisfy `keep`, in their original order. */
  function Filter<T>(xs: seq<T>, keep: T -> bool): (r: seq<T>)
    ensures |r| <= |xs|
    ensures forall i :: 0 <= i < |r| ==> keep(r[i])
  {
    if |xs| == 0 then []
    else if keep(xs[0]) then [xs[0]] + Filter(xs[1..], keep)
    else Filter(xs[1..], keep)
  }

  /** Filter keeps exactly the elements that satisfy `keep`, in order. */
  lemma {:induction false} FilterMembers<T>(xs: seq<T>, keep: T -> bool)
    ensures forall x :: x in Filter(xs, keep) <==> x in xs && keep(x)
    ensures IsSubseq(Filter(xs, keep), xs)
  {
    if |xs| > 0 {
      FilterMembers(xs[1..], keep);
      var r := Filter(xs, keep);
      if keep(xs[0]) {
        assert r[1..] == Filter(xs[1..], keep);
      }
      forall x ensures x in xs <==> x == xs[0] || x in xs[1..] {
        assert xs == [xs[0]] + xs[1..];
      }
    }
  }

  /** Filtering by a predicate and by its negation splits the sequence. */
  lemma {:induction false} FilterComplement<T>(xs: seq<T>, keep: T -> bool, drop: T -> bool)
    requires forall x :: drop(x) <==> !keep(x)
    ensures |Filter(xs, keep)| + |Filter(xs, drop)| == |xs|
  {
    if |xs| > 0 {
      FilterComplement(xs[1..], keep, drop);
    }
  }

  /** Filtering with an always-true predicate is the identity. */
  lemma {:induction false} FilterAll<T>(xs: seq<T>, keep: T -> bool)
    requires forall i :: 0 <= i < |xs| ==> keep(xs[i])
    ensures Filter(xs, keep) == xs
  {
    if |xs| > 0 {
      FilterAll(xs[1..], keep);
      assert [xs[0]] + xs[1..] == xs;
    }
  }

  /** Filtering with a predicate nothing satisfies gives the empty sequence. */
  lemma {:induction false} FilterNone<T>(xs: seq<T>, keep: T -> bool)
    requires forall i :: 0 <= i < |xs| ==> !keep(xs[i])
    ensures Filter(xs, keep) == []
  {
    if |xs| > 0 {
      FilterNone(xs[1..], keep);
    }
  }

  /** Filtering distributes over concatenation. */
  lemma {:induction false} FilterAppend<T>(a: seq<T>, b: seq<T>, keep: T -> bool)
    ensures Filter(a + b, keep) == Filter(a, keep) + Filter(b, keep)
  {
    if |a| > 0 {
      FilterAppend(a[1..], b, keep);
      assert (a + b)[0] == a[0];
      assert (a + b)[1..] == a[1..] + b;
    } else {
      assert a + b == b;
    }
  }

  /** The window `[offset, offset + limit)` of `xs`, clipped to its length;
      a non-positive offset starts at the beginning and a negative limit
      means no limit (SQL `LIMIT ... OFFSET ...` as the ORM emits it). */
  function Window<T>(xs: seq<T>, offset: int, limit: int): (r: seq<T>)
    ensures |r| <= |xs|
    ensures limit >= 0 ==> |r| <= limit
    ensures offset >= 0 && limit >= 0 ==>
              forall j :: 0 <= j < |r| ==> offset + j < |xs| && r[j] == xs[offset + j]
  {
    var lo := if offset <= 0 then 0 else if offset < |xs| then offset else |xs|;
    var hi := if limit < 0 || lo + limit > |xs| then |xs| else lo + limit;
    xs[lo..hi]
  }

  /** Whatever the offset, a window holds only records of the sequence. */
  lemma WindowMembers<T>(xs: seq<T>, offset: int, limit: int, i: int)
    requires 0 <= i < |Window(xs, offset, limit)|
    ensures Window(xs, offset, limit)[i] in xs
  {
    var lo := if offset <= 0 then 0 else if offset < |xs| then offset else |xs|;
    assert Window(xs, offset, limit)[i] == xs[lo + i];
  }
}
