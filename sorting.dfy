/** Ranges and the order `from_raw_ranges` walks them in.
    scope.rs sorts its ranges with itertools' `sorted_by_key(|r| r.start)`,
    a stable sort by start; this module gives that effect as a function and
    proves it sorted, a permutation and stable. */
module Sorting {

  /** A half-open range `[start, end)` of indices, as `std::ops::Range<usize>`. */
  datatype Range = Range(start: nat, end: nat)

  /** Starts never decrease from left to right. */
  predicate SortedByStart(rs: seq<Range>) {
    forall i, j :: 0 <= i < j < |rs| ==> rs[i].start <= rs[j].start
  }

  /** No two positions hold ranges with the same start. */
  predicate DistinctStarts(rs: seq<Range>) {
    forall i, j :: 0 <= i < j < |rs| ==> rs[i].start != rs[j].start
  }

  /** The ranges of `rs` that start at `k`, in their order in `rs`.
      Stability means the sort keeps this subsequence for every `k`. */
  function WithStart(rs: seq<Range>, k: nat): seq<Range> {
    if rs == [] then []
    else (if rs[0].start == k then [rs[0]] else []) + WithStart(rs[1..], k)
  }

  /** Puts `x` before the first range of `s` whose start is not smaller,
      so that `x` stays ahead of ranges with an equal start. */
  function Insert(x: Range, s: seq<Range>): (r: seq<Range>)
    ensures |r| == |s| + 1
    ensures multiset(r) == multiset(s) + multiset{x}
    ensures r[0] == x || (s != [] && r[0] == s[0])
  {
    if s == [] || x.start <= s[0].start then [x] + s
    else
      assert s == [s[0]] + s[1..];
      [s[0]] + Insert(x, s[1..])
  }

  lemma {:induction false} InsertSorted(x: Range, s: seq<Range>)
    requires SortedByStart(s)
    ensures SortedByStart(Insert(x, s))
  {
    if s != [] && x.start > s[0].start {
      var rest := Insert(x, s[1..]);
      InsertSorted(x, s[1..]);
      assert Insert(x, s) == [s[0]] + rest;
      forall j | 0 <= j < |rest| ensures s[0].start <= rest[j].start {
        assert rest[0].start <= rest[j].start;
      }
    }
  }

  /** The stable sort by start (insertion sort, last range first). */
  function SortByStart(rs: seq<Range>): (r: seq<Range>)
    ensures |r| == |rs|
    ensures multiset(r) == multiset(rs)
    ensures SortedByStart(r)
  {
    if rs == [] then []
    else
      assert rs == [rs[0]] + rs[1..];
      InsertSorted(rs[0], SortByStart(rs[1..]));
      Insert(rs[0], SortByStart(rs[1..]))
  }

  lemma WithStartCons(x: Range, s: seq<Range>, k: nat)
    ensures WithStart([x] + s, k) == (if x.start == k then [x] else []) + WithStart(s, k)
  {
  }

  lemma {:induction false} WithStartInsert(x: Range, s: seq<Range>, k: nat)
    ensures WithStart(Insert(x, s), k) == WithStart([x] + s, k)
  {
    if s != [] && x.start > s[0].start {
      var rest := Insert(x, s[1..]);
      assert Insert(x, s) == [s[0]] + rest;
      assert s == [s[0]] + s[1..];
      WithStartCons(s[0], rest, k);
      WithStartInsert(x, s[1..], k);
      WithStartCons(x, s[1..], k);
      WithStartCons(x, s, k);
      WithStartCons(s[0], s[1..], k);
    }
  }

  /** Ranges with equal starts leave the sort in the order they came in. */
  lemma {:induction false} SortByStartStable(rs: seq<Range>, k: nat)
    ensures WithStart(SortByStart(rs), k) == WithStart(rs, k)
  {
    if rs != [] {
      SortByStartStable(rs[1..], k);
      WithStartInsert(rs[0], SortByStart(rs[1..]), k);
      assert ([rs[0]] + SortByStart(rs[1..]))[1..] == SortByStart(rs[1..]);
    }
  }

  /** Ranges that already arrive sorted by start are walked as given. */
  lemma {:induction false} SortByStartOfSorted(rs: seq<Range>)
    requires SortedByStart(rs)
    ensures SortByStart(rs) == rs
  {
    if rs != [] {
      assert SortedByStart(rs[1..]);
      SortByStartOfSorted(rs[1..]);
      assert rs == [rs[0]] + rs[1..];
    }
  }

  lemma {:induction false} SortedPermutationUnique(s: seq<Range>, t: seq<Range>)
    requires SortedByStart(s) && SortedByStart(t) && DistinctStarts(s)
    requires multiset(s) == multiset(t)
    ensures s == t
  {
    assert |s| == |multiset(s)| == |multiset(t)| == |t|;
    if s != [] {
      SameHead(s, t);
      SameTail(s, t);
      SortedPermutationUnique(s[1..], t[1..]);
      assert s == [s[0]] + s[1..] && t == [t[0]] + t[1..];
    }
  }

  lemma SameHead(s: seq<Range>, t: seq<Range>)
    requires SortedByStart(s) && SortedByStart(t) && DistinctStarts(s)
    requires multiset(s) == multiset(t) && s != [] && t != []
    ensures s[0] == t[0]
  {
    assert s[0] in multiset(t);
    var k :| 0 <= k < |t| && t[k] == s[0];
    assert t[0] in multiset(s);
    var m :| 0 <= m < |s| && s[m] == t[0];
    assert s[0].start <= s[m].start == t[0].start <= t[k].start == s[0].start;
    assert m == 0;
  }

  lemma SameTail(s: seq<Range>, t: seq<Range>)
    requires multiset(s) == multiset(t) && s != [] && t != [] && s[0] == t[0]
    ensures multiset(s[1..]) == multiset(t[1..])
  {
    assert s == [s[0]] + s[1..] && t == [t[0]] + t[1..];
    assert multiset(s[1..]) == multiset(s) - multiset{s[0]};
    assert multiset(t[1..]) == multiset(t) - multiset{t[0]};
  }

  /** With distinct starts, the order the ranges arrive in does not matter. */
  lemma SortByStartOrderIndependent(a: seq<Range>, b: seq<Range>)
    requires multiset(a) == multiset(b)
    requires DistinctStarts(a)
    ensures SortByStart(a) == SortByStart(b)
  {
    DistinctStartsPermutation(a, SortByStart(a));
    SortedPermutationUnique(SortByStart(a), SortByStart(b));
  }

  lemma DistinctStartsPermutation(a: seq<Range>, b: seq<Range>)
    requires multiset(a) == multiset(b)
    requires DistinctStarts(a)
    ensures DistinctStarts(b)
  {
    forall i, j | 0 <= i < j < |b| ensures b[i].start != b[j].start {
      assert b[i] in multiset(a) && b[j] in multiset(a);
      var p :| 0 <= p < |a| && a[p] == b[i];
      var q :| 0 <= q < |a| && a[q] == b[j];
      if b[i] == b[j] {
        TwoPositions(b, i, j);
        OnlyOnce(a, p);
        assert false;
      } else {
        assert p != q;
        if p < q { assert a[p].start != a[q].start; } else { assert a[q].start != a[p].start; }
      }
    }
  }

  lemma {:induction false} TwoPositions(s: seq<Range>, i: nat, j: nat)
    requires i < j < |s| && s[i] == s[j]
    ensures multiset(s)[s[i]] >= 2
  {
    assert s == s[..i] + [s[i]] + s[i+1..j] + [s[j]] + s[j+1..];
  }

  lemma {:induction false} OnlyOnce(s: seq<Range>, p: nat)
    requires p < |s| && DistinctStarts(s)
    ensures multiset(s)[s[p]] == 1
  {
    assert s == s[..p] + [s[p]] + s[p+1..];
    forall q | 0 <= q < |s| && q != p ensures s[q] != s[p] {
      if q < p { assert s[q].start != s[p].start; } else { assert s[p].start != s[q].start; }
    }
    assert s[p] !in multiset(s[..p]) && s[p] !in multiset(s[p+1..]);
  }
}
