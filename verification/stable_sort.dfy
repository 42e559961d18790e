/** The stable sort both pages rely on. JavaScript's `Array.prototype.sort`
    is stable, and both call sites compare by a numeric key (`a.dSq - b.dSq`,
    `x.v - y.v`, `d3.ascending`), so the sort is modelled as an insertion
    sort by a real-valued key that puts an element before the first later
    element whose key is not smaller. */
module StableSort {
  import opened Seqs

  predicate SortedBy<T>(s: seq<T>, key: T -> real)
  {
    forall i, j :: 0 <= i < j < |s| ==> key(s[i]) <= key(s[j])
  }

  /** Inserts `x` into `s` before the first element whose key is at least
      `key(x)`. */
  function Insert<T>(x: T, s: seq<T>, key: T -> real): (r: seq<T>)
    ensures |r| == |s| + 1
  {
    if |s| == 0 then [x]
    else if key(x) <= key(s[0]) then [x] + s
    else [s[0]] + Insert(x, s[1..], key)
  }

  lemma {:induction false} InsertPermutes<T>(x: T, s: seq<T>, key: T -> real)
    ensures multiset(Insert(x, s, key)) == multiset(s) + multiset{x}
  {
    if |s| > 0 && key(x) > key(s[0]) {
      InsertPermutes(x, s[1..], key);
      assert s == [s[0]] + s[1..];
    }
  }

  lemma {:induction false} InsertSorted<T>(x: T, s: seq<T>, key: T -> real)
    requires SortedBy(s, key)
    ensures SortedBy(Insert(x, s, key), key)
  {
    if |s| > 0 && key(x) > key(s[0]) {
      InsertSorted(x, s[1..], key);
      InsertPermutes(x, s[1..], key);
      var rest := Insert(x, s[1..], key);
      forall i | 0 <= i < |rest|
        ensures key(s[0]) <= key(rest[i])
      {
        assert rest[i] in multiset(rest);
        if rest[i] != x {
          assert rest[i] in multiset(s[1..]);
          var j :| 0 <= j < |s[1..]| && s[1..][j] == rest[i];
          assert s[j + 1] == rest[i];
        }
      }
    }
  }

  /** Sorts `s` by `key`, keeping elements with equal keys in their
      original order. */
  function Sort<T>(s: seq<T>, key: T -> real): (r: seq<T>)
    ensures |r| == |s|
    ensures SortedBy(r, key)
  {
    if |s| == 0 then []
    else
      InsertSorted(s[0], Sort(s[1..], key), key);
      Insert(s[0], Sort(s[1..], key), key)
  }

  lemma SortSingleton<T>(x: T, key: T -> real)
    ensures Sort([x], key) == [x]
  {
    assert [x][1..] == [];
  }

  lemma SortPair<T>(x: T, y: T, key: T -> real)
    requires key(x) <= key(y)
    ensures Sort([x, y], key) == [x, y]
  {
    SortSingleton(y, key);
    assert [x, y][0] == x && [x, y][1..] == [y];
  }

  /** The sort only reorders: the output is a permutation of the input. */
  lemma {:induction false} SortPermutes<T>(s: seq<T>, key: T -> real)
    ensures multiset(Sort(s, key)) == multiset(s)
  {
    if |s| > 0 {
      SortPermutes(s[1..], key);
      InsertPermutes(s[0], Sort(s[1..], key), key);
      assert s == [s[0]] + s[1..];
    }
  }

  /** When `x` goes in front, the survivors of `t` all come after it. */
  lemma FilterInsertFront<T>(x: T, t: seq<T>, key: T -> real, p: T -> bool)
    requires |t| > 0 && SortedBy(t, key) && key(x) <= key(t[0])
    ensures Filter(Insert(x, t, key), p) == (if p(x) then Insert(x, Filter(t, p), key) else Filter(t, p))
  {
    var ft := Filter(t, p);
    var r := [x] + t;
    assert Insert(x, t, key) == r;
    assert r[0] == x && r[1..] == t;
    assert Filter(r, p) == (if p(x) then [x] else []) + ft;
    InsertBeforeSurvivors(x, t, key, p);
  }

  /** An element no greater than the head of a sorted sequence goes in
      front of the survivors of any filter. */
  lemma InsertBeforeSurvivors<T>(x: T, t: seq<T>, key: T -> real, p: T -> bool)
    requires |t| > 0 && SortedBy(t, key) && key(x) <= key(t[0])
    ensures Insert(x, Filter(t, p), key) == [x] + Filter(t, p)
  {
    var ft := Filter(t, p);
    if |ft| > 0 {
      FilterMembers(t, p);
      assert ft[0] in t;
      var j :| 0 <= j < |t| && t[j] == ft[0];
    }
  }

  /** Inserting and then filtering is filtering and then inserting (when
      the inserted element survives the filter). */
  lemma {:induction false} FilterInsert<T>(x: T, t: seq<T>, key: T -> real, p: T -> bool)
    requires SortedBy(t, key)
    ensures Filter(Insert(x, t, key), p) == (if p(x) then Insert(x, Filter(t, p), key) else Filter(t, p))
  {
    if |t| == 0 {
      assert Insert(x, t, key) == [x];
    } else if key(x) <= key(t[0]) {
      FilterInsertFront(x, t, key, p);
    } else {
      var ft := Filter(t, p);
      var rest := Insert(x, t[1..], key);
      var r := [t[0]] + rest;
      assert Insert(x, t, key) == r;
      assert r[0] == t[0] && r[1..] == rest;
      assert Filter(r, p) == (if p(t[0]) then [t[0]] else []) + Filter(rest, p);
      assert SortedBy(t[1..], key);
      FilterInsert(x, t[1..], key, p);
      assert ft == (if p(t[0]) then [t[0]] else []) + Filter(t[1..], p);
      if p(x) && p(t[0]) {
        assert ft[0] == t[0] && ft[1..] == Filter(t[1..], p);
        assert Insert(x, ft, key) == [t[0]] + Insert(x, Filter(t[1..], p), key);
      } else if p(x) {
        assert ft == Filter(t[1..], p);
      }
    }
  }

  /** The stable sort commutes with filtering by ANY predicate: the
      survivors of a sorted sequence are the sorted survivors. */
  lemma {:induction false} FilterSort<T>(s: seq<T>, key: T -> real, p: T -> bool)
    ensures Filter(Sort(s, key), p) == Sort(Filter(s, p), key)
  {
    if |s| > 0 {
      FilterSort(s[1..], key, p);
      FilterInsert(s[0], Sort(s[1..], key), key, p);
      var fs := Filter(s, p);
      if p(s[0]) {
        assert fs == [s[0]] + Filter(s[1..], p);
        assert fs[0] == s[0] && fs[1..] == Filter(s[1..], p);
        assert Sort(fs, key) == Insert(s[0], Sort(Filter(s[1..], p), key), key);
      } else {
        assert fs == Filter(s[1..], p);
      }
    }
  }

  function HasKey<T>(key: T -> real, v: real): T -> bool
  {
    e => key(e) == v
  }

  /** A sequence whose keys are all equal is already in stable order. */
  lemma {:induction false} SortConstantKey<T>(s: seq<T>, key: T -> real, v: real)
    requires forall i :: 0 <= i < |s| ==> key(s[i]) == v
    ensures Sort(s, key) == s
  {
    if |s| > 0 {
      SortConstantKey(s[1..], key, v);
      assert s == [s[0]] + s[1..];
    }
  }

  /** Stability: for every key value, the elements carrying that key appear
      in the sorted output in exactly their input order. */
  lemma SortIsStable<T>(s: seq<T>, key: T -> real, v: real)
    ensures Filter(Sort(s, key), HasKey(key, v)) == Filter(s, HasKey(key, v))
  {
    var same := Filter(s, HasKey(key, v));
    FilterSort(s, key, HasKey(key, v));
    FilterMembers(s, HasKey(key, v));
    SortConstantKey(same, key, v);
  }

  function AtMost<T>(key: T -> real, bound: real): T -> bool
  {
    e => key(e) <= bound
  }

  /** In a sorted sequence the elements whose key is at most `bound` form a
      prefix, so keeping the first `n` elements and then dropping those
      above `bound` keeps the first `n` elements at most `bound`. */
  lemma {:induction false} FilterSortedPrefix<T>(s: seq<T>, key: T -> real, bound: real, n: nat)
    requires SortedBy(s, key)
    ensures Filter(Take(s, n), AtMost(key, bound)) == Take(Filter(s, AtMost(key, bound)), n)
  {
    var p := AtMost(key, bound);
    if |s| > 0 && n > 0 {
      var t := Take(s, n);
      assert t == [s[0]] + Take(s[1..], n - 1);
      assert t[0] == s[0] && t[1..] == Take(s[1..], n - 1);
      if key(s[0]) <= bound {
        FilterSortedPrefix(s[1..], key, bound, n - 1);
        var fs := Filter(s, p);
        assert fs == [s[0]] + Filter(s[1..], p);
        assert Take(fs, n) == [s[0]] + Take(Filter(s[1..], p), n - 1);
      } else {
        assert forall i :: 0 <= i < |s| ==> key(s[0]) <= key(s[i]);
        FilterNone(s, p);
        FilterNone(t, p);
      }
    }
  }
}
