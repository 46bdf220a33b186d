/** Scopes: the parts of an input string that are in or out of scope for
    processing, in their read-only and read-write forms. */
module Scoping {

  /** Whether a part of the input is in scope. `Out` parts are view-only. */
  datatype Scope<T> = In(v: T) | Out(s: string)

  /** A read-only scope: both variants hold a view of the input. */
  type ROScope = Scope<string>

  /** A copy-on-write string: a borrowed view until first written, then owned. */
  datatype Cow = Borrowed(b: string) | Owned(o: string)

  /** A read-write scope: the `In` payload is copy-on-write, `Out` stays a view. */
  type RWScope = Scope<Cow>

  /** The string slice behind a read-only scope (`From<&ROScope> for &str`). */
  function View(s: ROScope): string {
    match s
    case In(t) => t
    case Out(t) => t
  }

  /** The string a copy-on-write payload dereferences to. */
  function CowText(c: Cow): string {
    match c
    case Borrowed(t) => t
    case Owned(t) => t
  }

  /** The string slice behind a read-write scope (`From<&RWScope> for &str`). */
  function RWView(s: RWScope): string {
    match s
    case In(c) => CowText(c)
    case Out(t) => t
  }

  /** `ROScope::is_empty`. */
  predicate IsEmpty(s: ROScope) {
    |View(s)| == 0
  }

  /** The texts of all scopes, concatenated in order. */
  function Text(ss: seq<ROScope>): string {
    if ss == [] then [] else View(ss[0]) + Text(ss[1..])
  }

  lemma {:induction false} TextConcat(a: seq<ROScope>, b: seq<ROScope>)
    ensures Text(a + b) == Text(a) + Text(b)
  {
    if a == [] {
      assert a + b == b;
    } else {
      assert (a + b)[1..] == a[1..] + b;
      TextConcat(a[1..], b);
    }
  }

  /** `From<ROScope> for RWScope`: the tag and the text are kept, and an
      `In` payload starts out borrowed. */
  function ToRW(s: ROScope): (r: RWScope)
    ensures RWView(r) == View(s)
    ensures r.In? <==> s.In?
    ensures r.In? ==> r.v.Borrowed?
  {
    match s
    case In(t) => In(Borrowed(t))
    case Out(t) => Out(t)
  }

  /** One step of `ROScopes::invert`: the tag flips, the text stays. */
  function InvertScope(s: ROScope): (r: ROScope)
    ensures View(r) == View(s)
    ensures r.In? <==> s.Out?
  {
    match s
    case In(t) => Out(t)
    case Out(t) => In(t)
  }

  /** `ROScopes::invert`: every scope flips its tag, in place and in order. */
  function Invert(ss: seq<ROScope>): (r: seq<ROScope>)
    ensures |r| == |ss|
    ensures forall i :: 0 <= i < |ss| ==> View(r[i]) == View(ss[i]) && (r[i].In? <==> ss[i].Out?)
  {
    if ss == [] then [] else [InvertScope(ss[0])] + Invert(ss[1..])
  }

  /** Inverting twice gives back the original scopes. */
  lemma InvertInvolution(ss: seq<ROScope>)
    ensures Invert(Invert(ss)) == ss
  {
  }

  /** Inversion leaves the concatenated text unchanged. */
  lemma {:induction false} InvertText(ss: seq<ROScope>)
    ensures Text(Invert(ss)) == Text(ss)
  {
    if ss != [] {
      InvertText(ss[1..]);
      var r := Invert(ss);
      assert r[1..] == Invert(ss[1..]);
    }
  }

  /** An empty scope is one that contributes nothing to the text, whichever
      tag it has and whether it is held read-only or read-write; inverting
      it does not change that. */
  lemma IsEmptyMeaning(s: ROScope)
    ensures IsEmpty(s) <==> Text([s]) == []
    ensures IsEmpty(s) <==> RWView(ToRW(s)) == []
    ensures IsEmpty(InvertScope(s)) == IsEmpty(s)
  {
  }
}
