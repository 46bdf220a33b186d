/** `ROScopes::from_raw_ranges`: partitioning an input string into `In` scopes
    for the given ranges and `Out` scopes for the gaps between them. */
module Partition {
  import opened Sorting
  import opened Scoping

  /** The slices the loop over `ranges` (already sorted) takes are all in
      bounds, starting from `last`: every range lies inside the input and
      begins no earlier than the previous one ended. Anything else panics. */
  predicate InBoundsFrom(input: string, rs: seq<Range>, last: nat) {
    && last <= |input|
    && (forall i :: 0 <= i < |rs| ==> rs[i].start <= rs[i].end <= |input|)
    && (|rs| > 0 ==> last <= rs[0].start)
    && (forall i :: 0 <= i < |rs| - 1 ==> rs[i].end <= rs[i + 1].start)
  }

  /** The precondition of `from_raw_ranges`, on its input ranges. */
  predicate ValidRanges(input: string, ranges: seq<Range>) {
    InBoundsFrom(input, SortByStart(ranges), 0)
  }

  /** The end of the range before position `i`, or `last` before the first. */
  function PrevEnd(rs: seq<Range>, last: nat, i: nat): nat
    requires i <= |rs|
  {
    if i == 0 then last else rs[i - 1].end
  }

  /** The scopes the loop pushes, before empty ones are dropped: a gap and a
      range per range, then the rest of the input if any is left. */
  function RawScopes(input: string, rs: seq<Range>, last: nat): seq<ROScope>
    requires InBoundsFrom(input, rs, last)
    decreases |rs|
  {
    if rs == [] then
      if last < |input| then [Out(input[last..])] else []
    else
      [Out(input[last..rs[0].start]), In(input[rs[0].start..rs[0].end])]
      + RawScopes(input, rs[1..], rs[0].end)
  }

  /** `retain(|s| !s.is_empty())`. */
  function DropEmpty(ss: seq<ROScope>): (r: seq<ROScope>)
    ensures forall i :: 0 <= i < |r| ==> !IsEmpty(r[i])
  {
    if ss == [] then []
    else if IsEmpty(ss[0]) then DropEmpty(ss[1..])
    else
      var r := [ss[0]] + DropEmpty(ss[1..]);
      assert r[1..] == DropEmpty(ss[1..]);
      r
  }

  /** Dropping empty scopes keeps the concatenated text. */
  lemma {:induction false} DropEmptyText(ss: seq<ROScope>)
    ensures Text(DropEmpty(ss)) == Text(ss)
  {
    if ss != [] {
      DropEmptyText(ss[1..]);
      if !IsEmpty(ss[0]) {
        var r := DropEmpty(ss);
        assert r == [ss[0]] + DropEmpty(ss[1..]);
        assert r[1..] == DropEmpty(ss[1..]);
      }
    }
  }

  /** What `from_raw_ranges(input, ranges)` returns. */
  function PartitionOf(input: string, ranges: seq<Range>): seq<ROScope>
    requires ValidRanges(input, ranges)
  {
    DropEmpty(RawScopes(input, SortByStart(ranges), 0))
  }

  /** One turn of the loop: the pair pushed for `rs[i]` and what is left. */
  lemma InBoundsTail(input: string, rs: seq<Range>, last: nat)
    requires rs != [] && InBoundsFrom(input, rs, last)
    ensures InBoundsFrom(input, rs[1..], rs[0].end)
  {
  }

  lemma RawStep(input: string, rs: seq<Range>, i: nat, last: nat)
    requires i < |rs| && InBoundsFrom(input, rs[i..], last)
    ensures InBoundsFrom(input, rs[i + 1..], rs[i].end)
    ensures last <= rs[i].start <= rs[i].end <= |input|
    ensures RawScopes(input, rs[i..], last)
      == [Out(input[last..rs[i].start]), In(input[rs[i].start..rs[i].end])]
         + RawScopes(input, rs[i + 1..], rs[i].end)
  {
  }

  lemma DropEmptyStep(ss: seq<ROScope>, j: nat)
    requires j < |ss|
    ensures DropEmpty(ss[j..]) == (if IsEmpty(ss[j]) then [] else [ss[j]]) + DropEmpty(ss[j + 1..])
  {
  }

  /** `ROScopes::from_raw_ranges`. */
  method FromRawRanges(input: string, ranges: seq<Range>) returns (scopes: seq<ROScope>)
    requires ValidRanges(input, ranges)
    ensures scopes == PartitionOf(input, ranges)
    ensures Text(scopes) == input
    ensures forall i :: 0 <= i < |scopes| ==> !IsEmpty(scopes[i])
    ensures ranges == [] ==> scopes == (if input == [] then [] else [Out(input)])
  {
    var sorted := SortByStart(ranges);
    ghost var raw := RawScopes(input, sorted, 0);
    scopes := [];
    var lastEnd: nat := 0;
    var i := 0;
    while i < |sorted|
      invariant 0 <= i <= |sorted|
      invariant InBoundsFrom(input, sorted[i..], lastEnd)
      invariant scopes + RawScopes(input, sorted[i..], lastEnd) == raw
    {
      var r := sorted[i];
      RawStep(input, sorted, i, lastEnd);
      var gap, range := Out(input[lastEnd..r.start]), In(input[r.start..r.end]);
      ghost var rest := RawScopes(input, sorted[i + 1..], r.end);
      assert scopes + ([gap, range] + rest) == (scopes + [gap] + [range]) + rest;
      scopes := scopes + [gap];
      scopes := scopes + [range];
      lastEnd := r.end;
      i := i + 1;
    }
    assert sorted[i..] == [];
    if lastEnd < |input| {
      scopes := scopes + [Out(input[lastEnd..])];
    }
    assert scopes == raw;
    scopes := Retain(scopes);
    PartitionText(input, ranges);
    if ranges == [] {
      PartitionNoRanges(input, ranges);
    }
  }

  /** `Vec::retain(|s| !s.is_empty())`, in place on the pushed scopes. */
  method Retain(scopes: seq<ROScope>) returns (kept: seq<ROScope>)
    ensures kept == DropEmpty(scopes)
  {
    assert scopes[0..] == scopes;
    kept := [];
    var j := 0;
    while j < |scopes|
      invariant 0 <= j <= |scopes|
      invariant kept + DropEmpty(scopes[j..]) == DropEmpty(scopes)
    {
      DropEmptyStep(scopes, j);
      ghost var later := DropEmpty(scopes[j + 1..]);
      if !IsEmpty(scopes[j]) {
        assert kept + ([scopes[j]] + later) == (kept + [scopes[j]]) + later;
        kept := kept + [scopes[j]];
      } else {
        assert kept + ([] + later) == kept + later;
      }
      j := j + 1;
    }
  }

  /** Concatenating the scopes pushed from `last` on gives back the input from `last` on. */
  lemma {:induction false} RawText(input: string, rs: seq<Range>, last: nat)
    requires InBoundsFrom(input, rs, last)
    ensures Text(RawScopes(input, rs, last)) == input[last..]
  {
    if rs == [] {
      if last < |input| {
        assert Text([Out(input[last..])]) == input[last..] + Text([]);
      }
    } else {
      var r := rs[0];
      InBoundsTail(input, rs, last);
      var rest := RawScopes(input, rs[1..], r.end);
      RawText(input, rs[1..], r.end);
      var pair := [Out(input[last..r.start]), In(input[r.start..r.end])];
      TextConcat(pair, rest);
      assert pair[1..][1..] == [];
      assert Text(pair) == input[last..r.start] + input[r.start..r.end];
      assert input[last..] == input[last..r.start] + input[r.start..r.end] + input[r.end..];
    }
  }

  /** Reconstruction: the partition's texts concatenate to the input. */
  lemma PartitionText(input: string, ranges: seq<Range>)
    requires ValidRanges(input, ranges)
    ensures Text(PartitionOf(input, ranges)) == input
  {
    RawText(input, SortByStart(ranges), 0);
    DropEmptyText(RawScopes(input, SortByStart(ranges), 0));
    assert input[0..] == input;
  }

  /** With no ranges the whole input is one `Out` scope, or nothing when it is empty. */
  lemma PartitionNoRanges(input: string, ranges: seq<Range>)
    requires ranges == []
    ensures ValidRanges(input, ranges)
    ensures PartitionOf(input, ranges) == if input == [] then [] else [Out(input)]
  {
    assert SortByStart(ranges) == [];
    assert input[0..] == input;
    if input != [] {
      DropEmptyOne(Out(input));
    }
  }

  /** Before dropping empties, position `2 * i` holds the gap before the
      `i`-th sorted range as `Out`, and position `2 * i + 1` the range itself as `In`. */
  lemma {:induction false} RawAt(input: string, rs: seq<Range>, last: nat, i: nat)
    requires InBoundsFrom(input, rs, last) && i < |rs|
    ensures PrevEnd(rs, last, i) <= rs[i].start
    ensures 2 * i + 1 < |RawScopes(input, rs, last)|
    ensures RawScopes(input, rs, last)[2 * i] == Out(input[PrevEnd(rs, last, i)..rs[i].start])
    ensures RawScopes(input, rs, last)[2 * i + 1] == In(input[rs[i].start..rs[i].end])
  {
    if i > 0 {
      InBoundsTail(input, rs, last);
      RawAt(input, rs[1..], rs[0].end, i - 1);
      assert rs[1..][i - 1] == rs[i];
      assert PrevEnd(rs[1..], rs[0].end, i - 1) == PrevEnd(rs, last, i);
    }
  }

  /** Before dropping empties there are two scopes per range, then one
      trailing `Out` with the rest of the input exactly when the last range
      ends before the input does. */
  lemma {:induction false} RawTail(input: string, rs: seq<Range>, last: nat)
    requires InBoundsFrom(input, rs, last)
    ensures PrevEnd(rs, last, |rs|) <= |input|
    ensures |RawScopes(input, rs, last)| == 2 * |rs| + (if PrevEnd(rs, last, |rs|) < |input| then 1 else 0)
    ensures PrevEnd(rs, last, |rs|) < |input| ==>
      RawScopes(input, rs, last)[2 * |rs|] == Out(input[PrevEnd(rs, last, |rs|)..])
  {
    if rs != [] {
      InBoundsTail(input, rs, last);
      RawTail(input, rs[1..], rs[0].end);
      assert PrevEnd(rs[1..], rs[0].end, |rs| - 1) == PrevEnd(rs, last, |rs|);
    }
  }

  lemma DropEmptyCons(x: ROScope, rest: seq<ROScope>)
    ensures DropEmpty([x] + rest) == (if IsEmpty(x) then [] else [x]) + DropEmpty(rest)
  {
  }

  /** Dropping empties distributes over concatenation. */
  lemma {:induction false} DropEmptyConcat(a: seq<ROScope>, b: seq<ROScope>)
    ensures DropEmpty(a + b) == DropEmpty(a) + DropEmpty(b)
  {
    if a == [] {
      assert a + b == b;
    } else {
      assert (a + b)[0] == a[0] && (a + b)[1..] == a[1..] + b;
      DropEmptyConcat(a[1..], b);
    }
  }

  /** The texts of the `In` scopes, in order. */
  function InTexts(ss: seq<ROScope>): seq<string> {
    if ss == [] then []
    else (if ss[0].In? then [ss[0].v] else []) + InTexts(ss[1..])
  }

  lemma {:induction false} InTextsConcat(a: seq<ROScope>, b: seq<ROScope>)
    ensures InTexts(a + b) == InTexts(a) + InTexts(b)
  {
    if a == [] {
      assert a + b == b;
    } else {
      assert (a + b)[0] == a[0] && (a + b)[1..] == a[1..] + b;
      InTextsConcat(a[1..], b);
    }
  }

  /** The texts of the non-empty ranges, in the order given. */
  function RangeTexts(input: string, rs: seq<Range>): seq<string>
    requires forall i :: 0 <= i < |rs| ==> rs[i].start <= rs[i].end <= |input|
  {
    if rs == [] then []
    else
      (if rs[0].start < rs[0].end then [input[rs[0].start..rs[0].end]] else [])
      + RangeTexts(input, rs[1..])
  }

  lemma DropEmptyOne(x: ROScope)
    ensures DropEmpty([x]) == if IsEmpty(x) then [] else [x]
  {
  }

  lemma InTextsOne(x: ROScope)
    ensures InTexts([x]) == if x.In? then [x.v] else []
  {
  }

  /** The `In` texts kept from one pushed gap and range, then the rest. */
  lemma PairInTexts(gap: string, range: string, rest: seq<ROScope>)
    ensures InTexts(DropEmpty([Out(gap), In(range)] + rest))
      == (if range != [] then [range] else []) + InTexts(DropEmpty(rest))
  {
  }

  lemma {:induction false} RawInTexts(input: string, rs: seq<Range>, last: nat)
    requires InBoundsFrom(input, rs, last)
    ensures InTexts(DropEmpty(RawScopes(input, rs, last))) == RangeTexts(input, rs)
  {
    if rs == [] {
      if last < |input| {
        DropEmptyOne(Out(input[last..]));
        InTextsOne(Out(input[last..]));
      }
    } else {
      var r := rs[0];
      InBoundsTail(input, rs, last);
      var rest := RawScopes(input, rs[1..], r.end);
      PairInTexts(input[last..r.start], input[r.start..r.end], rest);
      assert |input[r.start..r.end]| == r.end - r.start;
      RawInTexts(input, rs[1..], r.end);
    }
  }

  /** Every non-empty range becomes one `In` scope with that range's text, in
      the order of the ranges sorted by start, and nothing else is `In`. */
  lemma PartitionInTexts(input: string, ranges: seq<Range>)
    requires ValidRanges(input, ranges)
    ensures InTexts(PartitionOf(input, ranges)) == RangeTexts(input, SortByStart(ranges))
  {
    RawInTexts(input, SortByStart(ranges), 0);
  }

  /** Valid ranges, once sorted, do not overlap and follow one another. */
  lemma {:induction false} ValidRangesDisjoint(input: string, ranges: seq<Range>, i: nat, j: nat)
    requires ValidRanges(input, ranges)
    requires i < j < |ranges|
    ensures SortByStart(ranges)[i].end <= SortByStart(ranges)[j].start
  {
    var rs := SortByStart(ranges);
    if j > i + 1 {
      ValidRangesDisjoint(input, ranges, i, j - 1);
      assert rs[j - 1].start <= rs[j - 1].end <= rs[j].start;
    }
  }

  /** With distinct starts, the order in which the ranges arrive changes nothing. */
  lemma PartitionOrderIndependent(input: string, a: seq<Range>, b: seq<Range>)
    requires multiset(a) == multiset(b) && DistinctStarts(a)
    requires ValidRanges(input, a)
    ensures ValidRanges(input, b)
    ensures PartitionOf(input, a) == PartitionOf(input, b)
  {
    SortByStartOrderIndependent(a, b);
  }

  /** In valid sorted ranges, a range followed by another with the same start is empty. */
  lemma SharedStartIsEmpty(input: string, s: seq<Range>, last: nat, k: nat)
    requires InBoundsFrom(input, s, last) && SortedByStart(s)
    requires 0 < k < |s| && s[k].start == s[0].start
    ensures s[0].end == s[0].start
  {
    assert s[0].end <= s[1].start <= s[k].start;
  }

  lemma SameValidHead(input: string, s: seq<Range>, t: seq<Range>, last: nat)
    requires InBoundsFrom(input, s, last) && SortedByStart(s)
    requires InBoundsFrom(input, t, last) && SortedByStart(t)
    requires multiset(s) == multiset(t) && s != [] && t != []
    ensures s[0] == t[0]
  {
    assert s[0] in multiset(t) && t[0] in multiset(s);
    var k :| 0 <= k < |t| && t[k] == s[0];
    var m :| 0 <= m < |s| && s[m] == t[0];
    assert s[0].start <= s[m].start && t[0].start <= t[k].start;
    if k > 0 {
      SharedStartIsEmpty(input, t, last, k);
    }
    if m > 0 {
      SharedStartIsEmpty(input, s, last, m);
    }
  }

  /** Valid ranges sorted by start are fixed by their multiset, equal starts included. */
  lemma {:induction false} ValidSortedUnique(input: string, s: seq<Range>, t: seq<Range>, last: nat)
    requires InBoundsFrom(input, s, last) && SortedByStart(s)
    requires InBoundsFrom(input, t, last) && SortedByStart(t)
    requires multiset(s) == multiset(t)
    ensures s == t
  {
    assert |s| == |multiset(s)| == |multiset(t)| == |t|;
    if s != [] {
      SameValidHead(input, s, t, last);
      SameTail(s, t);
      InBoundsTail(input, s, last);
      InBoundsTail(input, t, last);
      ValidSortedUnique(input, s[1..], t[1..], s[0].end);
      assert s == [s[0]] + s[1..] && t == [t[0]] + t[1..];
    }
  }

  /** Two valid arrival orders of the same ranges give the same scopes, even when
      starts repeat (as with several empty ranges at one index). */
  lemma PartitionPermutationInvariant(input: string, a: seq<Range>, b: seq<Range>)
    requires multiset(a) == multiset(b)
    requires ValidRanges(input, a) && ValidRanges(input, b)
    ensures PartitionOf(input, a) == PartitionOf(input, b)
  {
    ValidSortedUnique(input, SortByStart(a), SortByStart(b), 0);
  }
}
