/** Sequence helpers shared by the entry-list modules. */
module SeqUtil {

  /** No value occurs twice. */
  predicate Distinct<T(==)>(xs: seq<T>) {
    forall a, b :: 0 <= a < b < |xs| ==> xs[a] != xs[b]
  }

  lemma DistinctCons<T>(x: T, xs: seq<T>)
    ensures Distinct([x] + xs) <==> x !in xs && Distinct(xs)
  {
    var ys := [x] + xs;
    if x !in xs && Distinct(xs) {
      forall a, b | 0 <= a < b < |ys| ensures ys[a] != ys[b] {
        assert ys[b] == xs[b - 1];
        if a > 0 { assert ys[a] == xs[a - 1]; }
      }
    }
    if Distinct(ys) {
      forall a, b | 0 <= a < b < |xs| ensures xs[a] != xs[b] {
        assert ys[a + 1] == xs[a] && ys[b + 1] == xs[b];
      }
      forall k | 0 <= k < |xs| ensures xs[k] != x {
        assert ys[0] == x && ys[k + 1] == xs[k];
        assert ys[0] != ys[k + 1];
      }
    }
  }

  /** The sequence without position k. */
  function RemoveAt<T(==)>(xs: seq<T>, k: nat): (r: seq<T>)
    requires k < |xs|
    ensures |r| == |xs| - 1
    ensures multiset(r) + multiset{xs[k]} == multiset(xs)
  {
    assert xs == xs[..k] + [xs[k]] + xs[k + 1..];
    xs[..k] + xs[k + 1..]
  }

  /** Removing one position of a repetition-free sequence removes exactly that value. */
  lemma RemoveAtDistinct<T>(xs: seq<T>, k: nat)
    requires k < |xs| && Distinct(xs)
    ensures Distinct(RemoveAt(xs, k))
    ensures forall x :: x in RemoveAt(xs, k) <==> x in xs && x != xs[k]
  {
    var r := RemoveAt(xs, k);
    assert forall i :: 0 <= i < |r| ==> r[i] == if i < k then xs[i] else xs[i + 1];
    forall x ensures x in r <==> x in xs && x != xs[k] {
      if x in xs && x != xs[k] {
        var i :| 0 <= i < |xs| && xs[i] == x;
        if i < k { assert r[i] == x; } else { assert r[i - 1] == x; }
      }
    }
  }

  /** The values of a sequence, each once (the last occurrence is kept). */
  function Unique<T(==)>(xs: seq<T>): (r: seq<T>)
    decreases |xs|
    ensures forall i :: 0 <= i < |r| ==> r[i] in xs
    ensures forall i :: 0 <= i < |xs| ==> xs[i] in r
    ensures Distinct(r)
  {
    if xs == [] then []
    else
      var rest := Unique(xs[1..]);
      DistinctCons(xs[0], rest);
      if xs[0] in xs[1..] then rest else [xs[0]] + rest
  }

  /** The elements not in `drop`, in order. */
  function Without<T(==)>(xs: seq<T>, drop: set<T>): (r: seq<T>)
    decreases |xs|
    ensures forall i :: 0 <= i < |r| ==> r[i] in xs && r[i] !in drop
    ensures forall i :: 0 <= i < |xs| && xs[i] !in drop ==> xs[i] in r
  {
    if xs == [] then []
    else (if xs[0] in drop then [] else [xs[0]]) + Without(xs[1..], drop)
  }

  /** A value occurs at most once in a repetition-free sequence. */
  lemma {:induction false} DistinctCount<T>(xs: seq<T>, x: T)
    requires Distinct(xs)
    ensures multiset(xs)[x] <= 1
    decreases |xs|
  {
    if xs != [] {
      DistinctCons(xs[0], xs[1..]);
      assert xs == [xs[0]] + xs[1..];
      DistinctCount(xs[1..], x);
    }
  }

  /** A sequence is repetition-free exactly when no value occurs twice in its multiset. */
  lemma DistinctIffCounts<T>(xs: seq<T>)
    ensures Distinct(xs) <==> forall x :: multiset(xs)[x] <= 1
  {
    if Distinct(xs) {
      forall x ensures multiset(xs)[x] <= 1 { DistinctCount(xs, x); }
    } else {
      var a, b :| 0 <= a < b < |xs| && xs[a] == xs[b];
      assert xs == xs[..b] + [xs[b]] + xs[b + 1..];
      assert xs[..b][a] == xs[a];
      assert multiset(xs)[xs[a]] >= multiset(xs[..b])[xs[a]] + 1;
    }
  }
}
