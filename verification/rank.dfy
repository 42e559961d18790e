/** The rank transform inside `spearman` (site/src/main.ts): pair every
    value with its position, stable-sort the pairs by value, and give the
    pair at sorted position `k` the rank `k + 1`. Equal values are ranked
    by position (first occurrence first), not averaged. */
module Rank {
  import opened StableSort

  /** `{ v, i }`: a value and its position in the input. */
  datatype Entry = Entry(v: real, i: int)

  function Value(e: Entry): real { e.v }

  /** `arr.map((v, i) => ({ v, i }))` */
  function Enumerate(arr: seq<real>): (r: seq<Entry>)
    ensures |r| == |arr|
    ensures forall k :: 0 <= k < |r| ==> r[k] == Entry(arr[k], k)
  {
    seq(|arr|, k requires 0 <= k < |arr| => Entry(arr[k], k))
  }

  /** `.sort((x, y) => x.v - y.v)` */
  function Order(arr: seq<real>): seq<Entry>
  {
    Sort(Enumerate(arr), Value)
  }

  /** `a` is strictly before `b` in the order `(value, position)`. */
  predicate Before(a: Entry, b: Entry)
  {
    a.v < b.v || (a.v == b.v && a.i < b.i)
  }

  predicate LexSorted(s: seq<Entry>)
  {
    forall k, l :: 0 <= k < l < |s| ==> Before(s[k], s[l])
  }

  predicate IndicesAscending(s: seq<Entry>)
  {
    forall k, l :: 0 <= k < l < |s| ==> s[k].i < s[l].i
  }

  lemma {:induction false} InsertLex(x: Entry, t: seq<Entry>)
    requires LexSorted(t)
    requires forall k :: 0 <= k < |t| ==> x.i < t[k].i
    ensures LexSorted(Insert(x, t, Value))
  {
    if |t| > 0 && x.v > t[0].v {
      InsertLex(x, t[1..]);
      InsertPermutes(x, t[1..], Value);
      var rest := Insert(x, t[1..], Value);
      assert Insert(x, t, Value) == [t[0]] + rest;
      forall l | 0 <= l < |rest|
        ensures Before(t[0], rest[l])
      {
        assert rest[l] in multiset(rest);
        if rest[l] != x {
          assert rest[l] in multiset(t[1..]);
          var j :| 0 <= j < |t[1..]| && t[1..][j] == rest[l];
          assert t[j + 1] == rest[l];
        }
      }
    }
  }

  /** Stability, in the form the ranks need: sorting entries whose
      positions ascend orders them by value and then by position. */
  lemma {:induction false} SortLex(s: seq<Entry>)
    requires IndicesAscending(s)
    ensures LexSorted(Sort(s, Value))
  {
    if |s| > 0 {
      var sorted := Sort(s[1..], Value);
      SortLex(s[1..]);
      SortPermutes(s[1..], Value);
      forall k | 0 <= k < |sorted|
        ensures s[0].i < sorted[k].i
      {
        assert sorted[k] in multiset(s[1..]);
        var j :| 0 <= j < |s[1..]| && s[1..][j] == sorted[k];
        assert s[j + 1] == sorted[k];
      }
      InsertLex(s[0], sorted);
    }
  }

  /** The sorted entries are the input's entries: position `k` holds some
      input position `j` with its value. */
  lemma OrderEntries(arr: seq<real>)
    ensures |Order(arr)| == |arr|
    ensures forall k :: 0 <= k < |arr| ==>
      0 <= Order(arr)[k].i < |arr| && Order(arr)[k].v == arr[Order(arr)[k].i]
    ensures forall a :: 0 <= a < |arr| ==> Entry(arr[a], a) in Order(arr)
  {
    var e, o := Enumerate(arr), Order(arr);
    SortPermutes(e, Value);
    forall k | 0 <= k < |arr|
      ensures 0 <= o[k].i < |arr| && o[k].v == arr[o[k].i]
    {
      assert o[k] in multiset(e);
      var j :| 0 <= j < |e| && e[j] == o[k];
    }
    forall a | 0 <= a < |arr|
      ensures Entry(arr[a], a) in o
    {
      assert e[a] in multiset(o);
    }
  }

  /** The sorted entries are in `(value, position)` order, so no position
      occurs twice. */
  lemma OrderLex(arr: seq<real>)
    ensures LexSorted(Order(arr))
    ensures forall k, l :: 0 <= k < |Order(arr)| && 0 <= l < |Order(arr)| && k != l ==>
      Order(arr)[k].i != Order(arr)[l].i
  {
    SortLex(Enumerate(arr));
    OrderEntries(arr);
  }

  /** `r[order[k].i] = k + 1` for `k = 0, 1, ...` over a fresh array of
      `n` slots, whose unwritten slots read as 0. */
  function Place(order: seq<Entry>, n: nat): (r: seq<int>)
    requires forall k :: 0 <= k < |order| ==> 0 <= order[k].i < n
    ensures |r| == n
  {
    if |order| == 0 then seq(n, _ => 0)
    else Place(order[..|order| - 1], n)[order[|order| - 1].i := |order|]
  }

  /** With distinct positions no write overwrites another: the slot of
      the `k`-th entry ends up holding `k + 1`. */
  lemma {:induction false} PlaceAt(order: seq<Entry>, n: nat)
    requires forall k :: 0 <= k < |order| ==> 0 <= order[k].i < n
    requires forall k, l :: 0 <= k < |order| && 0 <= l < |order| && k != l ==> order[k].i != order[l].i
    ensures forall k :: 0 <= k < |order| ==> Place(order, n)[order[k].i] == k + 1
  {
    if |order| > 0 {
      var init := order[..|order| - 1];
      PlaceAt(init, n);
      forall k | 0 <= k < |order|
        ensures Place(order, n)[order[k].i] == k + 1
      {
        if k < |order| - 1 {
          assert order[k] == init[k];
        }
      }
    }
  }

  /** `rank(arr)` */
  function Rank(arr: seq<real>): (r: seq<int>)
    ensures |r| == |arr|
  {
    OrderEntries(arr);
    Place(Order(arr), |arr|)
  }

  /** Every value's rank is one more than the sorted position of its
      entry. */
  lemma RankIsSortedPosition(arr: seq<real>)
    ensures |Order(arr)| == |arr|
    ensures forall k :: 0 <= k < |arr| ==>
      0 <= Order(arr)[k].i < |arr| && Rank(arr)[Order(arr)[k].i] == k + 1
  {
    OrderEntries(arr);
    OrderLex(arr);
    PlaceAt(Order(arr), |arr|);
  }

  /** `a` is ranked below `b`: a smaller value, or the same value earlier
      in the input. */
  predicate Precedes(arr: seq<real>, a: int, b: int)
    requires 0 <= a < |arr| && 0 <= b < |arr|
  {
    arr[a] < arr[b] || (arr[a] == arr[b] && a < b)
  }

  /** The ranks follow the values, with ties broken by position. */
  lemma RankFollowsValues(arr: seq<real>, a: int, b: int)
    requires 0 <= a < |arr| && 0 <= b < |arr|
    ensures Rank(arr)[a] < Rank(arr)[b] <==> Precedes(arr, a, b)
    ensures 1 <= Rank(arr)[a] <= |arr|
  {
    var o := Order(arr);
    OrderEntries(arr);
    OrderLex(arr);
    RankIsSortedPosition(arr);
    var p :| 0 <= p < |o| && o[p] == Entry(arr[a], a);
    var q :| 0 <= q < |o| && o[q] == Entry(arr[b], b);
    if p < q {
      assert Before(o[p], o[q]);
    } else if q < p {
      assert Before(o[q], o[p]);
    }
  }

  /** The ranks are a permutation of `1..n`: each lies in `1..n`, no two
      positions share one, and each of `1..n` is someone's rank. */
  lemma RankIsPermutation(arr: seq<real>)
    ensures forall a :: 0 <= a < |arr| ==> 1 <= Rank(arr)[a] <= |arr|
    ensures forall a, b :: 0 <= a < |arr| && 0 <= b < |arr| && a != b ==> Rank(arr)[a] != Rank(arr)[b]
    ensures forall m :: 1 <= m <= |arr| ==> m in Rank(arr)
  {
    forall a, b | 0 <= a < |arr| && 0 <= b < |arr|
      ensures 1 <= Rank(arr)[a] <= |arr|
      ensures a != b ==> Rank(arr)[a] != Rank(arr)[b]
    {
      RankFollowsValues(arr, a, b);
      RankFollowsValues(arr, b, a);
    }
    OrderEntries(arr);
    RankIsSortedPosition(arr);
    forall m | 1 <= m <= |arr|
      ensures m in Rank(arr)
    {
      var a := Order(arr)[m - 1].i;
      assert Rank(arr)[a] == m;
    }
  }

  // ---------------------------------------------------------------------
  // Invariance under increasing transforms

  ghost predicate StrictlyIncreasing(f: real -> real)
  {
    forall x: real, y: real :: x < y ==> f(x) < f(y)
  }

  /** `f` applied to every value. */
  function Apply(f: real -> real, arr: seq<real>): (r: seq<real>)
    ensures |r| == |arr|
    ensures forall k :: 0 <= k < |r| ==> r[k] == f(arr[k])
  {
    seq(|arr|, k requires 0 <= k < |arr| => f(arr[k]))
  }

  /** `f` applied to every entry's value, positions kept. */
  function Relabel(f: real -> real, s: seq<Entry>): (r: seq<Entry>)
    ensures |r| == |s|
    ensures forall k :: 0 <= k < |r| ==> r[k] == Entry(f(s[k].v), s[k].i)
  {
    seq(|s|, k requires 0 <= k < |s| => Entry(f(s[k].v), s[k].i))
  }

  lemma IncreasingPreservesOrder(f: real -> real, x: real, y: real)
    requires StrictlyIncreasing(f)
    ensures x <= y <==> f(x) <= f(y)
  {
    if y < x {
      assert f(y) < f(x);
    }
  }

  lemma RelabelCons(f: real -> real, e: Entry, t: seq<Entry>)
    ensures Relabel(f, [e] + t) == [Entry(f(e.v), e.i)] + Relabel(f, t)
  {
  }

  /** An increasing relabelling takes every insertion decision the same
      way. */
  lemma {:induction false} InsertRelabel(f: real -> real, x: Entry, t: seq<Entry>)
    requires StrictlyIncreasing(f)
    ensures Insert(Entry(f(x.v), x.i), Relabel(f, t), Value) == Relabel(f, Insert(x, t, Value))
  {
    var fx, ft := Entry(f(x.v), x.i), Relabel(f, t);
    if |t| == 0 {
      RelabelCons(f, x, t);
    } else {
      IncreasingPreservesOrder(f, x.v, t[0].v);
      assert ft[0] == Entry(f(t[0].v), t[0].i);
      if x.v <= t[0].v {
        RelabelCons(f, x, t);
      } else {
        assert t == [t[0]] + t[1..];
        RelabelCons(f, t[0], t[1..]);
        InsertRelabel(f, x, t[1..]);
        RelabelCons(f, t[0], Insert(x, t[1..], Value));
      }
    }
  }

  lemma {:induction false} SortRelabel(f: real -> real, s: seq<Entry>)
    requires StrictlyIncreasing(f)
    ensures Sort(Relabel(f, s), Value) == Relabel(f, Sort(s, Value))
  {
    if |s| > 0 {
      var fs := Relabel(f, s);
      SortRelabel(f, s[1..]);
      assert fs[0] == Entry(f(s[0].v), s[0].i);
      assert fs[1..] == Relabel(f, s[1..]);
      InsertRelabel(f, s[0], Sort(s[1..], Value));
    }
  }

  /** `Place` reads only the positions of the sorted entries. */
  lemma {:induction false} PlaceReadsPositions(o1: seq<Entry>, o2: seq<Entry>, n: nat)
    requires |o1| == |o2|
    requires forall k :: 0 <= k < |o1| ==> o1[k].i == o2[k].i && 0 <= o1[k].i < n
    ensures Place(o1, n) == Place(o2, n)
  {
    if |o1| > 0 {
      PlaceReadsPositions(o1[..|o1| - 1], o2[..|o2| - 1], n);
    }
  }

  /** Applying a strictly increasing function to the values does not change
      any rank. */
  lemma RankInvariant(f: real -> real, arr: seq<real>)
    requires StrictlyIncreasing(f)
    ensures Rank(Apply(f, arr)) == Rank(arr)
  {
    var e := Enumerate(arr);
    assert Enumerate(Apply(f, arr)) == Relabel(f, e);
    SortRelabel(f, e);
    OrderEntries(arr);
    OrderEntries(Apply(f, arr));
    PlaceReadsPositions(Order(Apply(f, arr)), Order(arr), |arr|);
  }

  /** Ranks as the numbers `pearson` reads. */
  function AsReals(r: seq<int>): (x: seq<real>)
    ensures |x| == |r|
    ensures forall k :: 0 <= k < |r| ==> x[k] == r[k] as real
  {
    seq(|r|, k requires 0 <= k < |r| => r[k] as real)
  }

  /** `spearman(a, b)`: `pearson` over the two rank vectors. The
      correlation itself is a parameter. */
  function Spearman(a: seq<real>, b: seq<real>, pearson: (seq<real>, seq<real>) -> real): real
  {
    pearson(AsReals(Rank(a)), AsReals(Rank(b)))
  }

  /** Spearman's coefficient is unchanged by a strictly increasing
      transform of either input, whatever `pearson` computes. */
  lemma SpearmanInvariant(f: real -> real, g: real -> real, a: seq<real>, b: seq<real>,
                          pearson: (seq<real>, seq<real>) -> real)
    requires StrictlyIncreasing(f) && StrictlyIncreasing(g)
    ensures Spearman(Apply(f, a), Apply(g, b), pearson) == Spearman(a, b, pearson)
  {
    RankInvariant(f, a);
    RankInvariant(g, b);
  }
}
