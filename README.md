# Scopes of srgn, modelled in Dafny

This project models the scope layer of srgn (`src/scoping/scope.rs`). A scope
marks a part of an input string as `In` scope (to be processed) or `Out` of
scope (view-only). `from_raw_ranges` cuts an input into scopes: every given
range becomes `In`, every gap before a range becomes `Out`, a trailing rest
becomes `Out`, and empty scopes are dropped. `invert` swaps `In` and `Out`.
A read-only scope converts to a read-write one whose `In` payload is a
copy-on-write string that starts out borrowed.

Files:

- `sorting.dfy` (module `Sorting`): the `Range` type and `SortByStart`, the
  stable sort by start that `from_raw_ranges` walks its ranges in. It is
  proved sorted, a permutation, stable, the identity on sorted input, and
  independent of arrival order when starts are distinct.
- `scope.dfy` (module `Scoping`): `Scope<T>`, `ROScope`, `Cow`, `RWScope`; the
  two `&str` views; `IsEmpty`; `ToRW`; and `Invert` with its lemmas.
- `from_raw_ranges.dfy` (module `Partition`): `FromRawRanges`, a method with the
  loop of scope.rs. It is proved equal to the function `PartitionOf`. Its
  `Retain` step drops the empty scopes and is proved equal to the function
  `DropEmpty`. Lemmas about `PartitionOf` cover reconstruction, the shape of
  the pushed scopes, the `In` texts, disjointness and order independence.

`from_raw_ranges` panics when a slice it takes is out of bounds. That happens
when a sorted range ends before it starts, ends past the input, or starts
before the previous range ended. `ValidRanges` is exactly the condition under
which no slice panics, and `FromRawRanges` requires it. The condition is stated on the
ranges after the stable sort. So for ranges with equal starts, arrival order
matters: `[3,3)` then `[3,5)` is accepted, while `[3,5)` then `[3,3)` panics.

Invalid or overlapping ranges make `from_raw_ranges` panic (scope.rs:58-59).
It returns no error value and has no rule for resolving overlaps. With no
ranges it returns `[Out(input)]`, or `[]` for empty input (scope.rs:63-67).

## Model

| member | source | states |
|---|---|---|
| Sorting.SortByStart | src/scoping/scope.rs:57 | the ranges as walked: same length, a permutation of the given ranges (multiset), sorted by start |
| Sorting.SortByStartStable | src/scoping/scope.rs:57 | ranges with equal start keep their arrival order (the sort is stable) |
| Sorting.SortByStartOfSorted | src/scoping/scope.rs:57 | ranges already sorted by start are walked exactly as given |
| Sorting.SortedPermutationUnique | src/scoping/scope.rs:57 | two start-sorted permutations of each other with distinct starts are equal |
| Sorting.SortByStartOrderIndependent | src/scoping/scope.rs:57 | with distinct starts, any arrival order of the same ranges is walked in the same order |
| Scoping.IsEmptyMeaning | src/scoping/scope.rs:36-39 | `is_empty` holds exactly when the scope adds nothing to the concatenated text, and exactly when its read-write form's view is empty; inverting a scope keeps it empty or non-empty |
| Scoping.ToRW | src/scoping/scope.rs:92-121 | RO to RW conversion keeps the tag and the text: the RW `&str` view (`RWView`, scope.rs:112-121) equals the RO `&str` view (`View`, scope.rs:92-101), and an `In` payload becomes borrowed |
| Scoping.InvertScope | src/scoping/scope.rs:81-84 | one scope inverted: same text, `In` exactly when it was `Out` |
| Scoping.Invert | src/scoping/scope.rs:76-89 | same length; each position keeps its text and has its tag flipped |
| Scoping.InvertInvolution | src/scoping/scope.rs:76-89 | inverting twice gives back the original scopes |
| Scoping.InvertText | src/scoping/scope.rs:76-89 | inversion leaves the concatenated text unchanged |
| Partition.DropEmpty | src/scoping/scope.rs:67 | every kept scope is non-empty |
| Partition.DropEmptyText | src/scoping/scope.rs:67 | dropping empty scopes keeps the concatenated text |
| Partition.DropEmptyConcat | src/scoping/scope.rs:67 | dropping empty scopes works element by element, keeping order |
| Partition.Retain | src/scoping/scope.rs:67 | the loop that drops empty scopes computes `DropEmpty` |
| Partition.RawStep | src/scoping/scope.rs:57-60 | one loop turn pushes `Out(input[last..start])`, `In(input[start..end])` and continues from `end` |
| Partition.FromRawRanges | src/scoping/scope.rs:53-72 | the loop computes `PartitionOf`; its result concatenates to the input, has no empty scope, and is `[Out(input)]` or `[]` with no ranges |
| Partition.RawText | src/scoping/scope.rs:56-65 | the scopes pushed from `last` on concatenate to `input[last..]` |
| Partition.PartitionText | src/scoping/scope.rs:53-67 | reconstruction: the partition concatenates to the input |
| Partition.PartitionNoRanges | src/scoping/scope.rs:56-67 | with no ranges the result is `[Out(input)]`, or `[]` for empty input |
| Partition.RawAt | src/scoping/scope.rs:57-60 | before filtering, position `2i` is the gap before the `i`-th sorted range as `Out` and `2i+1` that range as `In` |
| Partition.RawTail | src/scoping/scope.rs:63-65 | before filtering there are two scopes per range and one trailing `Out(input[last_end..])` exactly when `last_end < len` |
| Partition.RawInTexts | src/scoping/scope.rs:57-67 | after filtering, the `In` texts are the texts of the non-empty ranges in walking order |
| Partition.PartitionInTexts | src/scoping/scope.rs:57-67 | the `In` scopes of the result are the non-empty ranges' texts, in ascending order of start |
| Partition.ValidRangesDisjoint | src/scoping/scope.rs:49-59 | for valid ranges, each sorted range ends no later than any later one starts |
| Partition.PartitionOrderIndependent | src/scoping/scope.rs:57-59 | with distinct starts, permuting the ranges keeps them valid and yields the same scopes |
| Partition.ValidSortedUnique | src/scoping/scope.rs:57-59 | two start-sorted range lists that both pass the no-panic condition and hold the same ranges are equal, even with repeated starts |
| Partition.PartitionPermutationInvariant | src/scoping/scope.rs:57-59 | any two valid arrival orders of the same ranges give the same scopes, equal starts included |

## Left out

- Logging: the `debug!` and `trace!` calls are instrumentation and are not modelled.
- Lifetimes and borrowing: `Cow` is a two-variant value; nothing here writes to a payload, so `Owned` is never produced.
- Bytes and UTF-8: the input is a `seq<char>` and ranges index characters, so a slice cannot split a character; that panic is not modelled.
- `usize` is modelled as `nat`: indices are bounded by the input length in every valid call, so overflow cannot arise.
- Panics: the out-of-bounds case is documented as a panic (scope.rs:49-51). Reversed and overlapping ranges also panic, at the slices of scope.rs:58-59, without being documented. All three are the precondition `ValidRanges`, not an error result.
- `ROScopes` and `RWScopes` are plain sequences, not wrapper types; `RWScopes` has no operations in this file.
- The itertools sort is modelled by its effect only: a stable sort by start, written as an insertion sort.
- `Vec::with_capacity` is a performance hint and is not modelled.
- The gaps after filtering are stated through `RawAt` and `RawTail` before filtering, plus `DropEmpty`; there is no separate lemma listing the final `Out` texts.
- `src/modules/german/mod.rs` only declares sub-modules and re-exports; the casing classifier and special-character machine are not part of this model.
