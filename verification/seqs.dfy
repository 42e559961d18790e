/** Sequence helpers shared by both pages: order-preserving filtering,
    the prefix taken by JavaScript's `Array.prototype.slice(0, k)`, sums
    and maxima. */
module Seqs {

  /** The elements of `s` that satisfy `p`, in their original order
      (JavaScript's `Array.prototype.filter`). */
  function Filter<T>(s: seq<T>, p: T -> bool): (r: seq<T>)
    ensures |r| <= |s|
  {
    if |s| == 0 then []
    else (if p(s[0]) then [s[0]] else []) + Filter(s[1..], p)
  }

  /** The filtered sequence holds exactly the elements of `s` that satisfy
      `p`. */
  lemma {:induction false} FilterMembers<T>(s: seq<T>, p: T -> bool)
    ensures forall i :: 0 <= i < |Filter(s, p)| ==> Filter(s, p)[i] in s && p(Filter(s, p)[i])
    ensures forall i :: 0 <= i < |s| && p(s[i]) ==> s[i] in Filter(s, p)
  {
    if |s| > 0 {
      FilterMembers(s[1..], p);
      var r := Filter(s, p);
      var rest := Filter(s[1..], p);
      assert r == (if p(s[0]) then [s[0]] else []) + rest;
      forall i | 0 <= i < |r|
        ensures r[i] in s && p(r[i])
      {
        if !(p(s[0]) && i == 0) {
          var k := if p(s[0]) then i - 1 else i;
          assert r[i] == rest[k];
          assert rest[k] in s[1..];
        }
      }
      forall i | 0 <= i < |s| && p(s[i])
        ensures s[i] in r
      {
        if i > 0 {
          assert s[i] == s[1..][i - 1];
        }
      }
    }
  }

  /** Filtering distributes over concatenation, so the kept elements keep
      their relative order. */
  lemma {:induction false} FilterAppend<T>(a: seq<T>, b: seq<T>, p: T -> bool)
    ensures Filter(a + b, p) == Filter(a, p) + Filter(b, p)
  {
    if |a| == 0 {
      assert a + b == b;
    } else {
      var head := if p(a[0]) then [a[0]] else [];
      assert (a + b)[0] == a[0];
      assert (a + b)[1..] == a[1..] + b;
      assert Filter(a + b, p) == head + Filter(a[1..] + b, p);
      FilterAppend(a[1..], b, p);
      assert Filter(a, p) == head + Filter(a[1..], p);
    }
  }

  /** Nothing survives a filter that rejects every element. */
  lemma {:induction false} FilterNone<T>(s: seq<T>, p: T -> bool)
    requires forall i :: 0 <= i < |s| ==> !p(s[i])
    ensures Filter(s, p) == []
  {
    if |s| > 0 {
      FilterNone(s[1..], p);
    }
  }

  /** A filter every element passes keeps the whole sequence. */
  lemma {:induction false} FilterAll<T>(s: seq<T>, p: T -> bool)
    requires forall i :: 0 <= i < |s| ==> p(s[i])
    ensures Filter(s, p) == s
  {
    if |s| > 0 {
      FilterAll(s[1..], p);
      assert s == [s[0]] + s[1..];
    }
  }

  function Min(a: int, b: int): int { if a <= b then a else b }

  function Max(a: int, b: int): int { if a <= b then b else a }

  /** `s.slice(0, k)` in JavaScript: a non-negative `k` keeps the first
      `k` elements (all of them when `k` exceeds the length); a negative
      `k` counts from the end and drops the last `-k` elements. */
  function SlicePrefix<T>(s: seq<T>, k: int): (r: seq<T>)
    ensures |r| <= |s| && r == s[..|r|]
    ensures k >= 0 ==> |r| == Min(k, |s|)
    ensures k < 0 ==> |r| == Max(|s| + k, 0)
  {
    if k >= 0 then s[..Min(k, |s|)] else s[..Max(|s| + k, 0)]
  }

  /** The first `n` elements of `s`, or all of them when `n >= |s|`:
      `slice(0, n)` for a count that cannot be negative. */
  function Take<T>(s: seq<T>, n: nat): (r: seq<T>)
    ensures |r| == Min(n, |s|)
    ensures r == s[..|r|]
  {
    SlicePrefix(s, n)
  }

  /** `d3.sum` over a sequence of numbers. */
  function Sum(s: seq<real>): real
  {
    if |s| == 0 then 0.0 else s[0] + Sum(s[1..])
  }

  /** The largest element of a non-empty sequence (`d3.max`). */
  function MaxOf(s: seq<real>): (m: real)
    requires |s| > 0
    ensures m in s
    ensures forall i :: 0 <= i < |s| ==> s[i] <= m
  {
    if |s| == 1 then s[0]
    else
      var rest := MaxOf(s[1..]);
      assert forall i :: 1 <= i < |s| ==> s[i] == s[1..][i - 1];
      if s[0] >= rest then s[0] else rest
  }
}
