/** Byte-string search and replace-all with the semantics of Python's
    bytearray.index and bytearray.replace: leftmost occurrence, and every
    non-overlapping occurrence scanning left to right. */
module ByteReplace {
  import opened Wrappers
  import opened Bytes

  /** p occurs in s starting at position i. */
  predicate OccursAt(s: seq<Byte>, p: seq<Byte>, i: int) {
    0 <= i && i + |p| <= |s| && s[i..i + |p|] == p
  }

  /** The leftmost occurrence of p in s at or after position i. */
  function FindFrom(s: seq<Byte>, p: seq<Byte>, i: nat): (r: Option<nat>)
    decreases |s| - i
    ensures r.Some? ==> i <= r.value && OccursAt(s, p, r.value)
    ensures r.Some? ==> forall j :: i <= j < r.value ==> !OccursAt(s, p, j)
    ensures r.None? ==> forall j :: i <= j ==> !OccursAt(s, p, j)
  {
    if i + |p| > |s| then None
    else if s[i..i + |p|] == p then Some(i)
    else FindFrom(s, p, i + 1)
  }

  /** bytearray.index: the leftmost occurrence, or None where Python raises. */
  function Find(s: seq<Byte>, p: seq<Byte>): Option<nat> {
    FindFrom(s, p, 0)
  }



  /** Positions ms lie in [base, len - n] and each starts at or after the end
      of the window of width n before it: the windows do not overlap. */
  predicate Spaced(ms: seq<nat>, n: nat, base: nat, len: nat)
    decreases |ms|
  {
    ms == [] || (base <= ms[0] && ms[0] + n <= len && Spaced(ms[1..], n, ms[0] + n, len))
  }

  /** The same, position by position. */
  lemma {:induction false} SpacedApart(ms: seq<nat>, n: nat, base: nat, len: nat)
    requires Spaced(ms, n, base, len)
    decreases |ms|
    ensures forall k :: 0 <= k < |ms| ==> base <= ms[k] && ms[k] + n <= len
    ensures forall a, b :: 0 <= a < b < |ms| ==> ms[a] + n <= ms[b]
  {
    if ms != [] {
      SpacedApart(ms[1..], n, ms[0] + n, len);
      assert forall k :: 0 < k < |ms| ==> ms[k] == ms[1..][k - 1];
    }
  }

  /** Every occurrence at or after base is either listed or starts inside an
      earlier listed one: the leftmost-first, non-overlapping choice. */
  predicate Greedy(s: seq<Byte>, p: seq<Byte>, ms: seq<nat>, base: nat) {
    forall j :: base <= j < |s| && OccursAt(s, p, j) ==>
      j in ms || exists k :: 0 <= k < |ms| && ms[k] < j < ms[k] + |p|
  }

  /** Start positions of the occurrences bytearray.replace rewrites, scanning from i. */
  function MatchesFrom(s: seq<Byte>, p: seq<Byte>, i: nat): (ms: seq<nat>)
    requires |p| > 0
    decreases |s| - i
    ensures Spaced(ms, |p|, i, |s|)
  {
    if i + |p| > |s| then []
    else if s[i..i + |p|] == p then [i] + MatchesFrom(s, p, i + |p|)
    else MatchesFrom(s, p, i + 1)
  }

  /** Every listed position is an occurrence. */
  lemma {:induction false} MatchesOccur(s: seq<Byte>, p: seq<Byte>, i: nat)
    requires |p| > 0
    decreases |s| - i
    ensures forall k :: 0 <= k < |MatchesFrom(s, p, i)| ==> OccursAt(s, p, MatchesFrom(s, p, i)[k])
  {
    if i + |p| > |s| {
    } else if s[i..i + |p|] == p {
      MatchesOccur(s, p, i + |p|);
    } else {
      MatchesOccur(s, p, i + 1);
    }
  }

  /** No occurrence is skipped except one overlapping an earlier rewritten one. */
  lemma {:induction false} MatchesGreedy(s: seq<Byte>, p: seq<Byte>, i: nat)
    requires |p| > 0
    decreases |s| - i
    ensures Greedy(s, p, MatchesFrom(s, p, i), i)
  {
    var ms := MatchesFrom(s, p, i);
    if i + |p| > |s| {
    } else if s[i..i + |p|] == p {
      MatchesGreedy(s, p, i + |p|);
      var rest := MatchesFrom(s, p, i + |p|);
      assert ms == [i] + rest;
      forall j | i <= j < |s| && OccursAt(s, p, j)
        ensures j in ms || exists k :: 0 <= k < |ms| && ms[k] < j < ms[k] + |p|
      {
        if j == i {
        } else if j < i + |p| {
          assert ms[0] < j < ms[0] + |p|;
        } else if j !in rest {
          var k :| 0 <= k < |rest| && rest[k] < j < rest[k] + |p|;
          assert ms[k + 1] == rest[k];
        }
      }
    } else {
      MatchesGreedy(s, p, i + 1);
    }
  }

  /** The first rewritten occurrence is the one bytearray.index finds, and there
      is none exactly when index fails. */
  lemma {:induction false} MatchesStartAtFind(s: seq<Byte>, p: seq<Byte>, i: nat)
    requires |p| > 0
    decreases |s| - i
    ensures MatchesFrom(s, p, i) == [] <==> FindFrom(s, p, i).None?
    ensures MatchesFrom(s, p, i) != [] ==> FindFrom(s, p, i) == Some(MatchesFrom(s, p, i)[0])
  {
    if i + |p| > |s| {
    } else if s[i..i + |p|] == p {
    } else {
      MatchesStartAtFind(s, p, i + 1);
    }
  }

  /** Replace-all for a non-empty pattern, scanning from position i. */
  function ReplaceFrom(s: seq<Byte>, p: seq<Byte>, r: seq<Byte>, i: nat): seq<Byte>
    requires |p| > 0 && i <= |s|
    decreases |s| - i
  {
    if i + |p| > |s| then s[i..]
    else if s[i..i + |p|] == p then r + ReplaceFrom(s, p, r, i + |p|)
    else [s[i]] + ReplaceFrom(s, p, r, i + 1)
  }

  /** Replacing the empty pattern inserts r before every byte and at the end. */
  function Interleave(s: seq<Byte>, r: seq<Byte>): seq<Byte> {
    if s == [] then r else r + [s[0]] + Interleave(s[1..], r)
  }

  /** bytearray.replace(p, r). */
  function ReplaceAll(s: seq<Byte>, p: seq<Byte>, r: seq<Byte>): seq<Byte> {
    if |p| == 0 then Interleave(s, r) else ReplaceFrom(s, p, r, 0)
  }

  /** Number of occurrences ReplaceAll rewrites (every gap, for the empty pattern). */
  function Count(s: seq<Byte>, p: seq<Byte>): nat {
    if |p| == 0 then |s| + 1 else |MatchesFrom(s, p, 0)|
  }

  /** Independent description of the result: the bytes of s between the given
      occurrences, kept in place, with r standing for each occurrence. */
  function Splice(s: seq<Byte>, ms: seq<nat>, n: nat, r: seq<Byte>, base: nat): seq<Byte>
    requires base <= |s| && Spaced(ms, n, base, |s|)
    decreases |ms|
  {
    if ms == [] then s[base..]
    else s[base..ms[0]] + r + Splice(s, ms[1..], n, r, ms[0] + n)
  }

  lemma {:induction false} SpliceStep(s: seq<Byte>, ms: seq<nat>, n: nat, r: seq<Byte>, base: nat)
    requires base < |s| && Spaced(ms, n, base + 1, |s|)
    ensures Splice(s, ms, n, r, base) == [s[base]] + Splice(s, ms, n, r, base + 1)
  {
    if ms == [] {
      assert s[base..] == [s[base]] + s[base + 1..];
    } else {
      assert Spaced(ms[1..], n, ms[0] + n, |s|);
      var rest := Splice(s, ms[1..], n, r, ms[0] + n);
      assert Splice(s, ms, n, r, base) == s[base..ms[0]] + r + rest;
      assert Splice(s, ms, n, r, base + 1) == s[base + 1..ms[0]] + r + rest;
      assert s[base..ms[0]] == [s[base]] + s[base + 1..ms[0]];
    }
  }

  lemma SpliceAtBase(s: seq<Byte>, rest: seq<nat>, n: nat, r: seq<Byte>, base: nat)
    requires base <= |s| && Spaced([base] + rest, n, base, |s|)
    ensures Spaced(rest, n, base + n, |s|)
    ensures Splice(s, [base] + rest, n, r, base) == r + Splice(s, rest, n, r, base + n)
  {
    var ms := [base] + rest;
    assert ms[1..] == rest;
    assert Splice(s, ms, n, r, base) == s[base..base] + r + Splice(s, rest, n, r, base + n);
    assert s[base..base] + r == r;
  }

  /** One rewritten occurrence at i: the replacement, then the rest. */
  lemma ReplaceMatchStep(s: seq<Byte>, p: seq<Byte>, r: seq<Byte>, i: nat)
    requires |p| > 0 && i + |p| <= |s| && s[i..i + |p|] == p
    requires ReplaceFrom(s, p, r, i + |p|) == Splice(s, MatchesFrom(s, p, i + |p|), |p|, r, i + |p|)
    ensures ReplaceFrom(s, p, r, i) == Splice(s, MatchesFrom(s, p, i), |p|, r, i)
  {
    var rest := MatchesFrom(s, p, i + |p|);
    assert ReplaceFrom(s, p, r, i) == r + ReplaceFrom(s, p, r, i + |p|);
    assert MatchesFrom(s, p, i) == [i] + rest;
    SpliceAtBase(s, rest, |p|, r, i);
  }

  /** No occurrence at i: byte i is kept, then the rest. */
  lemma ReplaceSkipStep(s: seq<Byte>, p: seq<Byte>, r: seq<Byte>, i: nat)
    requires |p| > 0 && i + |p| <= |s| && s[i..i + |p|] != p
    requires ReplaceFrom(s, p, r, i + 1) == Splice(s, MatchesFrom(s, p, i + 1), |p|, r, i + 1)
    ensures ReplaceFrom(s, p, r, i) == Splice(s, MatchesFrom(s, p, i), |p|, r, i)
  {
    assert MatchesFrom(s, p, i) == MatchesFrom(s, p, i + 1);
    SpliceStep(s, MatchesFrom(s, p, i + 1), |p|, r, i);
  }

  /** Replace-all rewrites exactly the greedy occurrences and keeps every other byte. */
  lemma {:induction false} ReplaceIsSplice(s: seq<Byte>, p: seq<Byte>, r: seq<Byte>, i: nat)
    requires |p| > 0 && i <= |s|
    decreases |s| - i
    ensures ReplaceFrom(s, p, r, i) == Splice(s, MatchesFrom(s, p, i), |p|, r, i)
  {
    if i + |p| > |s| {
    } else if s[i..i + |p|] == p {
      ReplaceIsSplice(s, p, r, i + |p|);
      ReplaceMatchStep(s, p, r, i);
    } else {
      ReplaceIsSplice(s, p, r, i + 1);
      ReplaceSkipStep(s, p, r, i);
    }
  }

  lemma {:induction false} ReplaceFromLength(s: seq<Byte>, p: seq<Byte>, r: seq<Byte>, i: nat)
    requires |p| > 0 && i <= |s|
    decreases |s| - i
    ensures |ReplaceFrom(s, p, r, i)| == |s| - i + |MatchesFrom(s, p, i)| * (|r| - |p|)
  {
    var d := |r| - |p|;
    if i + |p| > |s| {
    } else if s[i..i + |p|] == p {
      ReplaceFromLength(s, p, r, i + |p|);
      var k := |MatchesFrom(s, p, i + |p|)|;
      var tail := |ReplaceFrom(s, p, r, i + |p|)|;
      assert tail == |s| - (i + |p|) + k * d;
      assert |ReplaceFrom(s, p, r, i)| == |r| + tail;
      assert |MatchesFrom(s, p, i)| == k + 1;
      MulSucc(k, d);
    } else {
      ReplaceFromLength(s, p, r, i + 1);
      assert |ReplaceFrom(s, p, r, i)| == 1 + |ReplaceFrom(s, p, r, i + 1)|;
      assert MatchesFrom(s, p, i) == MatchesFrom(s, p, i + 1);
    }
  }

  lemma MulSucc(k: int, d: int)
    ensures (k + 1) * d == k * d + d
  {
  }

  lemma {:induction false} InterleaveLength(s: seq<Byte>, r: seq<Byte>)
    ensures |Interleave(s, r)| == |s| + (|s| + 1) * |r|
  {
    if s != [] {
      InterleaveLength(s[1..], r);
      assert (|s| + 1) * |r| == |s| * |r| + |r|;
    }
  }

  /** Each rewritten occurrence changes the length by |r| - |p|. */
  lemma ReplaceAllLength(s: seq<Byte>, p: seq<Byte>, r: seq<Byte>)
    ensures |ReplaceAll(s, p, r)| == |s| + Count(s, p) * (|r| - |p|)
  {
    if |p| == 0 {
      InterleaveLength(s, r);
    } else {
      ReplaceFromLength(s, p, r, 0);
    }
  }

  lemma {:induction false} ReplaceFromSame(s: seq<Byte>, p: seq<Byte>, i: nat)
    requires |p| > 0 && i <= |s|
    decreases |s| - i
    ensures ReplaceFrom(s, p, p, i) == s[i..]
  {
    if i + |p| > |s| {
    } else if s[i..i + |p|] == p {
      ReplaceFromSame(s, p, i + |p|);
      assert s[i..] == s[i..i + |p|] + s[i + |p|..];
    } else {
      ReplaceFromSame(s, p, i + 1);
      assert s[i..] == [s[i]] + s[i + 1..];
    }
  }

  lemma {:induction false} InterleaveEmpty(s: seq<Byte>)
    ensures Interleave(s, []) == s
  {
    if s != [] {
      InterleaveEmpty(s[1..]);
    }
  }

  /** Replacing a pattern with itself changes nothing. */
  lemma ReplaceAllSame(s: seq<Byte>, p: seq<Byte>)
    ensures ReplaceAll(s, p, p) == s
  {
    if |p| == 0 {
      InterleaveEmpty(s);
    } else {
      ReplaceFromSame(s, p, 0);
    }
  }

  /** Without an occurrence of a non-empty pattern, replace-all is the identity. */
  lemma ReplaceAllAbsent(s: seq<Byte>, p: seq<Byte>, r: seq<Byte>)
    requires |p| > 0 && Find(s, p).None?
    ensures ReplaceAll(s, p, r) == s
  {
    ReplaceIsSplice(s, p, r, 0);
    MatchesStartAtFind(s, p, 0);
    assert s[0..] == s;
  }
}
