/** Generic sequence operations mirroring the JavaScript array methods the
    storefront uses: `Array.prototype.filter` and `Array.prototype.find`. */
module Seqs {
  import opened Wrappers

  /** `r` is `s` with some elements deleted: the elements of `r` occur in
      `s` in the same relative order. */
  ghost predicate IsSubseq<T>(r: seq<T>, s: seq<T>)
    decreases |s|
  {
    if |r| == 0 then true
    else if |s| == 0 then false
    else (r[0] == s[0] && IsSubseq(r[1..], s[1..])) || IsSubseq(r, s[1..])
  }

  /** `Array.prototype.filter`: the elements of `s` that satisfy `f`, kept in
      order. What it keeps is stated by `FilterSpec`. */
  function Filter<T>(f: T -> bool, s: seq<T>): (r: seq<T>)
    ensures |r| <= |s|
  {
    if |s| == 0 then []
    else (if f(s[0]) then [s[0]] else []) + Filter(f, s[1..])
  }

  /** A filter keeps exactly the elements satisfying `f`, each as often as
      `s` holds it, in their order in `s`. */
  lemma {:induction false} FilterSpec<T(!new)>(f: T -> bool, s: seq<T>)
    ensures forall x :: x in Filter(f, s) <==> x in s && f(x)
    ensures forall x :: multiset(Filter(f, s))[x] == if f(x) then multiset(s)[x] else 0
    ensures IsSubseq(Filter(f, s), s)
    decreases |s|
  {
    if |s| > 0 {
      var rest := Filter(f, s[1..]);
      FilterSpec(f, s[1..]);
      assert s == [s[0]] + s[1..];
      if f(s[0]) {
        assert Filter(f, s) == [s[0]] + rest;
        assert ([s[0]] + rest)[1..] == rest;
      } else {
        assert Filter(f, s) == rest;
      }
    }
  }

  /** Filtering distributes over concatenation. */
  lemma {:induction false} FilterAppend<T>(f: T -> bool, a: seq<T>, b: seq<T>)
    ensures Filter(f, a + b) == Filter(f, a) + Filter(f, b)
    decreases |a|
  {
    if |a| == 0 {
      assert a + b == b;
    } else {
      assert (a + b)[1..] == a[1..] + b;
      FilterAppend(f, a[1..], b);
      calc {
        Filter(f, a + b);
        (if f(a[0]) then [a[0]] else []) + Filter(f, a[1..] + b);
        (if f(a[0]) then [a[0]] else []) + (Filter(f, a[1..]) + Filter(f, b));
        ((if f(a[0]) then [a[0]] else []) + Filter(f, a[1..])) + Filter(f, b);
      }
    }
  }

  /** One step of a filter: the head is kept exactly when it satisfies `f`. */
  lemma FilterCons<T>(f: T -> bool, x: T, s: seq<T>)
    ensures Filter(f, [x] + s) == (if f(x) then [x] else []) + Filter(f, s)
  {
    assert ([x] + s)[1..] == s;
  }

  /** A filter that keeps every element returns its input unchanged. */
  lemma {:induction false} FilterAll<T>(f: T -> bool, s: seq<T>)
    requires forall i :: 0 <= i < |s| ==> f(s[i])
    ensures Filter(f, s) == s
    decreases |s|
  {
    if |s| > 0 {
      FilterAll(f, s[1..]);
    }
  }

  /** Filters with predicates that agree on every element agree. */
  lemma {:induction false} FilterExt<T>(f: T -> bool, g: T -> bool, s: seq<T>)
    requires forall i :: 0 <= i < |s| ==> f(s[i]) == g(s[i])
    ensures Filter(f, s) == Filter(g, s)
    decreases |s|
  {
    if |s| > 0 {
      FilterExt(f, g, s[1..]);
    }
  }

  /** A filter that keeps no element returns the empty sequence. */
  lemma {:induction false} FilterNone<T>(f: T -> bool, s: seq<T>)
    requires forall i :: 0 <= i < |s| ==> !f(s[i])
    ensures Filter(f, s) == []
    decreases |s|
  {
    if |s| > 0 {
      FilterNone(f, s[1..]);
    }
  }

  /** The index of the first element of `s` that satisfies `f`, if any
      (`Array.prototype.findIndex`, with -1 as None). */
  function FirstIndex<T>(f: T -> bool, s: seq<T>): (r: Option<nat>)
    ensures r.Some? ==> r.value < |s| && f(s[r.value])
    ensures r.Some? ==> forall j :: 0 <= j < r.value ==> !f(s[j])
    ensures r.None? <==> forall j :: 0 <= j < |s| ==> !f(s[j])
  {
    if |s| == 0 then None
    else if f(s[0]) then Some(0)
    else
      match FirstIndex(f, s[1..])
      case None => None
      case Some(i) => Some(i + 1)
  }

  /** `Array.prototype.find`: the first element satisfying `f`, or None. */
  function Find<T>(f: T -> bool, s: seq<T>): (r: Option<T>)
    ensures r.None? <==> forall j :: 0 <= j < |s| ==> !f(s[j])
    ensures r.Some? ==>
      exists i :: 0 <= i < |s| && s[i] == r.value && f(s[i]) &&
        forall j :: 0 <= j < i ==> !f(s[j])
  {
    match FirstIndex(f, s)
    case None => None
    case Some(i) => Some(s[i])
  }
}
