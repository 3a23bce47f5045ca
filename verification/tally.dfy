/**
  Grouping a sequence of keys the way a Python `dict` filled in a loop does:
  the distinct keys in order of first occurrence, and how often each occurs.
 */
module Tally {

  /** Number of occurrences of `x` in `xs`. */
  function Count<T(==,!new)>(xs: seq<T>, x: T): (n: nat)
    ensures n <= |xs|
    ensures n > 0 <==> x in xs
  {
    if xs == [] then 0
    else
      var front := xs[..|xs| - 1];
      assert xs == front + [xs[|xs| - 1]];
      Count(front, x) + (if xs[|xs| - 1] == x then 1 else 0)
  }

  lemma CountAppend<T(!new)>(xs: seq<T>, y: T, x: T)
    ensures Count(xs + [y], x) == Count(xs, x) + (if y == x then 1 else 0)
  {
    assert (xs + [y])[..|xs|] == xs;
  }

  predicate Distinct<T(==,!new)>(s: seq<T>) {
    forall i, j :: 0 <= i < j < |s| ==> s[i] != s[j]
  }

  /** The distinct elements of `xs`, in order of first occurrence (the keys of a dict filled from `xs`). */
  function Dedup<T(==,!new)>(xs: seq<T>): (ds: seq<T>)
    ensures forall x :: x in ds <==> x in xs
  {
    if xs == [] then []
    else
      var front := xs[..|xs| - 1];
      var last := xs[|xs| - 1];
      assert xs == front + [last];
      var d := Dedup(front);
      if last in d then d else d + [last]
  }

  lemma DedupAppend<T(!new)>(xs: seq<T>, y: T)
    ensures Dedup(xs + [y]) == if y in xs then Dedup(xs) else Dedup(xs) + [y]
  {
    assert (xs + [y])[..|xs|] == xs;
  }

  /** Index of the first occurrence of `x`. */
  function First<T(==,!new)>(xs: seq<T>, x: T): (i: nat)
    requires x in xs
    ensures i < |xs| && xs[i] == x && x !in xs[..i]
  {
    if xs[0] == x then 0
    else
      var i := 1 + First(xs[1..], x);
      assert xs[..i] == [xs[0]] + xs[1..][..i - 1];
      i
  }

  /** A position holding `x` with no `x` before it is the first occurrence. */
  lemma FirstIs<T(!new)>(xs: seq<T>, x: T, k: nat)
    requires k < |xs| && xs[k] == x && x !in xs[..k]
    ensures First(xs, x) == k
  {
    var i := First(xs, x);
    forall t | 0 <= t < k ensures xs[t] != x {
      assert xs[..k][t] == xs[t];
    }
    forall t | 0 <= t < i ensures xs[t] != x {
      assert xs[..i][t] == xs[t];
    }
  }

  lemma FirstAppend<T(!new)>(xs: seq<T>, y: T, x: T)
    requires x in xs + [y]
    ensures First(xs + [y], x) == if x in xs then First(xs, x) else |xs|
  {
    if x in xs {
      var j := First(xs, x);
      assert (xs + [y])[..j] == xs[..j];
      FirstIs(xs + [y], x, j);
    } else {
      assert (xs + [y])[..|xs|] == xs;
      FirstIs(xs + [y], x, |xs|);
    }
  }

  /**
    The keys come out distinct, exactly the elements of `xs`, and in order
    of first occurrence.
   */
  lemma {:induction false} DedupSpec<T(!new)>(xs: seq<T>)
    ensures var ds := Dedup(xs);
      Distinct(ds)
      && (forall x :: x in ds <==> x in xs)
      && (forall i, j :: 0 <= i < j < |ds| ==> First(xs, ds[i]) < First(xs, ds[j]))
    decreases |xs|
  {
    if xs != [] {
      var front := xs[..|xs| - 1];
      var last := xs[|xs| - 1];
      assert xs == front + [last];
      DedupSpec(front);
      DedupAppend(front, last);
      var d := Dedup(front);
      var ds := Dedup(xs);
      forall k | 0 <= k < |d| ensures First(xs, d[k]) == First(front, d[k]) {
        FirstAppend(front, last, d[k]);
      }
      if last !in front {
        assert ds == d + [last];
        FirstAppend(front, last, last);
        forall i, j | 0 <= i < j < |ds| ensures First(xs, ds[i]) < First(xs, ds[j]) && ds[i] != ds[j] {
          if j == |d| {
            assert ds[i] == d[i] && ds[i] in front;
          }
        }
      }
    }
  }

  /** A sequence without repeats has as many elements as its set. */
  lemma {:induction false} DistinctCard<T(!new)>(s: seq<T>)
    requires Distinct(s)
    ensures |set x | x in s| == |s|
    decreases |s|
  {
    if s != [] {
      var front := s[..|s| - 1];
      var last := s[|s| - 1];
      assert s == front + [last];
      DistinctCard(front);
      assert last !in front by {
        forall i | 0 <= i < |front| ensures front[i] != last {
          assert front[i] == s[i];
        }
      }
      assert (set x | x in s) == (set x | x in front) + {last};
    }
  }

  /** The number of distinct keys is the size of the set of keys, as `len(set(...))` computes it. */
  lemma DedupCard<T(!new)>(xs: seq<T>)
    ensures |Dedup(xs)| == |set x | x in xs|
  {
    DedupSpec(xs);
    DistinctCard(Dedup(xs));
    assert (set x | x in Dedup(xs)) == (set x | x in xs);
  }

  /** The sum of the counts in `xs` of the keys `ds`. */
  function SumCounts<T(==,!new)>(ds: seq<T>, xs: seq<T>): nat {
    if ds == [] then 0 else SumCounts(ds[..|ds| - 1], xs) + Count(xs, ds[|ds| - 1])
  }

  lemma {:induction false} SumCountsAppend<T(!new)>(ds: seq<T>, xs: seq<T>, y: T)
    requires Distinct(ds)
    ensures SumCounts(ds, xs + [y]) == SumCounts(ds, xs) + (if y in ds then 1 else 0)
    decreases |ds|
  {
    if ds != [] {
      var front := ds[..|ds| - 1];
      var last := ds[|ds| - 1];
      assert ds == front + [last];
      assert Distinct(front) by {
        forall i, j | 0 <= i < j < |front| ensures front[i] != front[j] {
          assert front[i] == ds[i] && front[j] == ds[j];
        }
      }
      assert last !in front by {
        forall i | 0 <= i < |front| ensures front[i] != last {
          assert front[i] == ds[i];
        }
      }
      SumCountsAppend(front, xs, y);
      CountAppend(xs, y, last);
    }
  }

  lemma SumCountsGrow<T(!new)>(ds: seq<T>, xs: seq<T>, y: T)
    ensures SumCounts(ds + [y], xs) == SumCounts(ds, xs) + Count(xs, y)
  {
    assert (ds + [y])[..|ds|] == ds;
  }

  /** Every element is counted under exactly one key: the counts add up to the length. */
  lemma {:induction false} CountsSum<T(!new)>(xs: seq<T>)
    ensures SumCounts(Dedup(xs), xs) == |xs|
    decreases |xs|
  {
    if xs != [] {
      var front := xs[..|xs| - 1];
      var last := xs[|xs| - 1];
      assert xs == front + [last];
      CountsSum(front);
      DedupSpec(front);
      DedupAppend(front, last);
      var d := Dedup(front);
      SumCountsAppend(d, front, last);
      if last !in front {
        SumCountsGrow(d, xs, last);
        CountAppend(front, last, last);
      }
    }
  }

  /** Position of `x` among the keys of `t`, or `|t|` when absent. */
  function KeyIndex<T(==,!new), V>(t: seq<(T, V)>, x: T): (j: nat)
    ensures j <= |t|
    ensures j < |t| ==> t[j].0 == x
    ensures j == |t| ==> forall i :: 0 <= i < |t| ==> t[i].0 != x
  {
    if t == [] then 0
    else if t[0].0 == x then 0
    else 1 + KeyIndex(t[1..], x)
  }

  /** `d[x] = d.get(x, 0) + 1` on a dict kept as its list of items. */
  function Bump<T(==,!new)>(t: seq<(T, nat)>, x: T): seq<(T, nat)> {
    var j := KeyIndex(t, x);
    if j < |t| then t[j := (x, t[j].1 + 1)] else t + [(x, 1)]
  }

  /** The reference tally: each distinct key, in first-seen order, with its count. */
  function Tallied<T(==,!new)>(xs: seq<T>): (t: seq<(T, nat)>)
    ensures |t| == |Dedup(xs)|
  {
    var ds := Dedup(xs);
    seq(|ds|, i requires 0 <= i < |ds| => (ds[i], Count(xs, ds[i])))
  }

  /** One step of the counting loop turns the tally of `xs` into the tally of `xs + [x]`. */
  lemma TalliedStep<T(!new)>(xs: seq<T>, x: T)
    ensures Tallied(xs + [x]) == Bump(Tallied(xs), x)
  {
    DedupAppend(xs, x);
    DedupSpec(xs);
    if x in xs {
      TalliedSeen(xs, x);
    } else {
      TalliedFresh(xs, x);
    }
  }

  lemma TalliedSeen<T(!new)>(xs: seq<T>, x: T)
    requires x in Dedup(xs) && Dedup(xs + [x]) == Dedup(xs) && Distinct(Dedup(xs))
    ensures Tallied(xs + [x]) == Bump(Tallied(xs), x)
  {
    var t := Tallied(xs);
    var ds := Dedup(xs);
    var j := KeyIndex(t, x);
    assert j < |t| by {
      var k :| 0 <= k < |ds| && ds[k] == x;
      assert t[k].0 == x;
    }
    assert ds[j] == x;
    BumpFound(t, x);
    var t' := Tallied(xs + [x]);
    forall i | 0 <= i < |t| ensures t'[i] == Bump(t, x)[i] {
      TalliedSeenAt(xs, x, i);
      if i != j {
        assert ds[i] != ds[j];
      }
    }
  }

  lemma BumpFound<T(!new)>(t: seq<(T, nat)>, x: T)
    requires KeyIndex(t, x) < |t|
    ensures var j := KeyIndex(t, x);
      |Bump(t, x)| == |t| && Bump(t, x)[j] == (x, t[j].1 + 1)
      && forall i :: 0 <= i < |t| && i != j ==> Bump(t, x)[i] == t[i]
  {
  }

  lemma TalliedSeenAt<T(!new)>(xs: seq<T>, x: T, i: nat)
    requires Dedup(xs + [x]) == Dedup(xs) && i < |Dedup(xs)|
    ensures Tallied(xs + [x])[i] == if Dedup(xs)[i] == x then (x, Count(xs, x) + 1) else Tallied(xs)[i]
  {
    CountAppend(xs, x, Dedup(xs)[i]);
  }

  lemma TalliedFresh<T(!new)>(xs: seq<T>, x: T)
    requires x !in xs && Dedup(xs + [x]) == Dedup(xs) + [x]
    ensures Tallied(xs + [x]) == Bump(Tallied(xs), x)
  {
    var t := Tallied(xs);
    var ds := Dedup(xs);
    assert KeyIndex(t, x) == |t| by {
      forall i | 0 <= i < |t| ensures t[i].0 != x {
        assert t[i].0 == ds[i] && ds[i] in xs;
      }
    }
    var t' := Tallied(xs + [x]);
    forall i | 0 <= i < |t'| ensures t'[i] == (t + [(x, 1)])[i] {
      CountAppend(xs, x, (ds + [x])[i]);
    }
  }

  /** The sum of the counts of a tally. */
  function Total<T>(t: seq<(T, nat)>): nat {
    if t == [] then 0 else Total(t[..|t| - 1]) + t[|t| - 1].1
  }

  lemma {:induction false} TotalPrefix<T(!new)>(xs: seq<T>, k: nat)
    requires k <= |Dedup(xs)|
    ensures Total(Tallied(xs)[..k]) == SumCounts(Dedup(xs)[..k], xs)
  {
    if k > 0 {
      TotalPrefix(xs, k - 1);
      assert Tallied(xs)[..k][..k - 1] == Tallied(xs)[..k - 1];
      assert Dedup(xs)[..k][..k - 1] == Dedup(xs)[..k - 1];
    }
  }

  /** The tallied counts add up to the number of keys tallied. */
  lemma TalliedTotal<T(!new)>(xs: seq<T>)
    ensures Total(Tallied(xs)) == |xs|
  {
    TotalPrefix(xs, |Dedup(xs)|);
    assert Tallied(xs)[..|Dedup(xs)|] == Tallied(xs);
    assert Dedup(xs)[..|Dedup(xs)|] == Dedup(xs);
    CountsSum(xs);
  }
}
