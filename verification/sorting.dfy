/** Stable sorting by an integer key: the behaviour `Array.prototype.sort`
    must have (section 23.1.3.30 of ECMA-262, stable since ES2019) when it
    is given a comparator of the form `(a, b) => key(a) - key(b)`. */
module StableSort {
  import Seqs

  /** Keys never decrease from left to right. */
  ghost predicate SortedBy<T>(key: T -> int, s: seq<T>) {
    forall i, j :: 0 <= i < j < |s| ==> key(s[i]) <= key(s[j])
  }

  function KeyIs<T>(key: T -> int, k: int): T -> bool {
    (x: T) => key(x) == k
  }

  /** The elements of `s` whose key is `k`, in their order in `s`. */
  function WithKey<T>(key: T -> int, k: int, s: seq<T>): seq<T> {
    Seqs.Filter(KeyIs(key, k), s)
  }

  /** `r` is a stable sort of `s`: ordered by key, a permutation of `s`, and
      elements with equal keys keep their relative order. */
  ghost predicate IsStableSortOf<T>(key: T -> int, r: seq<T>, s: seq<T>) {
    && SortedBy(key, r)
    && multiset(r) == multiset(s)
    && forall k :: WithKey(key, k, r) == WithKey(key, k, s)
  }

  lemma WithKeyCons<T>(key: T -> int, k: int, x: T, s: seq<T>)
    ensures WithKey(key, k, [x] + s) == (if key(x) == k then [x] else []) + WithKey(key, k, s)
  {
    Seqs.FilterCons(KeyIs(key, k), x, s);
  }

  lemma WithKeyMembers<T(!new)>(key: T -> int, k: int, s: seq<T>)
    ensures forall y :: y in WithKey(key, k, s) <==> y in s && key(y) == k
  {
    Seqs.FilterSpec(KeyIs(key, k), s);
  }

  /** Inserts `x` before the first element whose key is not smaller. */
  function Insert<T>(key: T -> int, x: T, s: seq<T>): (r: seq<T>)
    ensures multiset(r) == multiset(s) + multiset{x}
  {
    if |s| == 0 then [x]
    else if key(x) <= key(s[0]) then
      assert s == [s[0]] + s[1..];
      [x] + s
    else
      assert s == [s[0]] + s[1..];
      [s[0]] + Insert(key, x, s[1..])
  }

  /** The head of a sorted sequence has the smallest key. */
  lemma HeadIsLeast<T>(key: T -> int, s: seq<T>, y: T)
    requires SortedBy(key, s) && y in s
    ensures key(s[0]) <= key(y)
  {
    var i :| 0 <= i < |s| && s[i] == y;
    if i > 0 {
      assert key(s[0]) <= key(s[i]);
    }
  }

  lemma TailSorted<T>(key: T -> int, s: seq<T>)
    requires |s| > 0 && SortedBy(key, s)
    ensures SortedBy(key, s[1..])
  {
    forall i, j | 0 <= i < j < |s[1..]|
      ensures key(s[1..][i]) <= key(s[1..][j])
    {
      assert s[1..][i] == s[i + 1] && s[1..][j] == s[j + 1];
    }
  }

  /** A head no larger than every element of a sorted tail gives a sorted
      sequence. */
  lemma ConsSorted<T(!new)>(key: T -> int, h: T, t: seq<T>)
    requires SortedBy(key, t)
    requires forall y :: y in t ==> key(h) <= key(y)
    ensures SortedBy(key, [h] + t)
  {
    var r := [h] + t;
    forall i, j | 0 <= i < j < |r|
      ensures key(r[i]) <= key(r[j])
    {
      assert r[j] == t[j - 1];
      if i > 0 {
        assert r[i] == t[i - 1];
      } else {
        assert r[j] in t;
      }
    }
  }

  lemma InsertMembers<T(!new)>(key: T -> int, x: T, s: seq<T>)
    ensures forall y :: y in Insert(key, x, s) <==> y == x || y in s
  {
    var r := Insert(key, x, s);
    forall y
      ensures y in r <==> y == x || y in s
    {
      assert y in r <==> y in multiset(r);
      assert y in s <==> y in multiset(s);
    }
  }

  /** Inserting into a sorted sequence keeps it sorted. */
  lemma {:induction false} InsertSorted<T(!new)>(key: T -> int, x: T, s: seq<T>)
    requires SortedBy(key, s)
    ensures SortedBy(key, Insert(key, x, s))
    decreases |s|
  {
    if |s| == 0 {
    } else if key(x) <= key(s[0]) {
      forall y | y in s
        ensures key(x) <= key(y)
      {
        HeadIsLeast(key, s, y);
      }
      ConsSorted(key, x, s);
    } else {
      var rest := Insert(key, x, s[1..]);
      TailSorted(key, s);
      InsertSorted(key, x, s[1..]);
      InsertMembers(key, x, s[1..]);
      forall y | y in rest
        ensures key(s[0]) <= key(y)
      {
        if y != x {
          assert y in Insert(key, x, s[1..]);
          assert y in s[1..];
          var i :| 0 <= i < |s[1..]| && s[1..][i] == y;
          assert s[i + 1] == y;
          HeadIsLeast(key, s, y);
        }
      }
      ConsSorted(key, s[0], rest);
    }
  }

  /** Insertion sort; each element goes before the equal-key elements that
      follow it in the input, which keeps the sort stable. */
  function Sort<T(!new)>(key: T -> int, s: seq<T>): (r: seq<T>)
    ensures multiset(r) == multiset(s)
    ensures SortedBy(key, r)
  {
    if |s| == 0 then []
    else
      assert s == [s[0]] + s[1..];
      InsertSorted(key, s[0], Sort(key, s[1..]));
      Insert(key, s[0], Sort(key, s[1..]))
  }

  /** Inserting `x` puts it first among the elements with its key and moves
      no other element relative to those with its own key. */
  lemma {:induction false} InsertWithKey<T>(key: T -> int, k: int, x: T, s: seq<T>)
    ensures WithKey(key, k, Insert(key, x, s)) ==
      (if key(x) == k then [x] else []) + WithKey(key, k, s)
    decreases |s|
  {
    if |s| == 0 {
      WithKeyCons(key, k, x, []);
    } else if key(x) <= key(s[0]) {
      WithKeyCons(key, k, x, s);
    } else {
      InsertWithKey(key, k, x, s[1..]);
      WithKeyCons(key, k, s[0], Insert(key, x, s[1..]));
      WithKeyCons(key, k, s[0], s[1..]);
      assert [s[0]] + s[1..] == s;
    }
  }

  /** The insertion sort is a stable sort. */
  lemma {:induction false} SortIsStable<T(!new)>(key: T -> int, s: seq<T>)
    ensures IsStableSortOf(key, Sort(key, s), s)
    decreases |s|
  {
    if |s| > 0 {
      SortIsStable(key, s[1..]);
      forall k
        ensures WithKey(key, k, Sort(key, s)) == WithKey(key, k, s)
      {
        InsertWithKey(key, k, s[0], Sort(key, s[1..]));
        WithKeyCons(key, k, s[0], s[1..]);
        assert [s[0]] + s[1..] == s;
      }
    }
  }

  /** A sequence with no element of any key is empty. */
  lemma NoKeysIsEmpty<T(!new)>(key: T -> int, s: seq<T>)
    requires forall k :: WithKey(key, k, s) == []
    ensures s == []
  {
    if |s| > 0 {
      WithKeyMembers(key, key(s[0]), s);
    }
  }

  /** Two sequences ordered by key that agree on the elements of every key
      begin with the same element. */
  lemma SameHead<T(!new)>(key: T -> int, a: seq<T>, b: seq<T>)
    requires |a| > 0 && |b| > 0
    requires SortedBy(key, a) && SortedBy(key, b)
    requires forall k :: WithKey(key, k, a) == WithKey(key, k, b)
    ensures a[0] == b[0]
  {
    var ka, kb := key(a[0]), key(b[0]);
    WithKeyMembers(key, ka, a);
    WithKeyMembers(key, ka, b);
    assert a[0] in WithKey(key, ka, b);
    HeadIsLeast(key, b, a[0]);
    WithKeyMembers(key, kb, a);
    WithKeyMembers(key, kb, b);
    assert b[0] in WithKey(key, kb, a);
    HeadIsLeast(key, a, b[0]);
    assert ka == kb;
    assert a == [a[0]] + a[1..];
    assert b == [b[0]] + b[1..];
    WithKeyCons(key, ka, a[0], a[1..]);
    WithKeyCons(key, ka, b[0], b[1..]);
    assert WithKey(key, ka, a)[0] == a[0];
    assert WithKey(key, ka, b)[0] == b[0];
  }

  /** Two sequences ordered by key that agree on the elements of every key
      are equal. */
  lemma {:induction false} SortedWithKeysUnique<T(!new)>(key: T -> int, a: seq<T>, b: seq<T>)
    requires SortedBy(key, a) && SortedBy(key, b)
    requires forall k :: WithKey(key, k, a) == WithKey(key, k, b)
    ensures a == b
    decreases |a|
  {
    if |a| == 0 {
      NoKeysIsEmpty(key, b);
    } else if |b| == 0 {
      NoKeysIsEmpty(key, a);
    } else {
      SameHead(key, a, b);
      assert a == [a[0]] + a[1..];
      assert b == [b[0]] + b[1..];
      forall k
        ensures WithKey(key, k, a[1..]) == WithKey(key, k, b[1..])
      {
        WithKeyCons(key, k, a[0], a[1..]);
        WithKeyCons(key, k, b[0], b[1..]);
        var p := if key(a[0]) == k then [a[0]] else [];
        assert WithKey(key, k, a[1..]) == WithKey(key, k, a)[|p|..];
        assert WithKey(key, k, b[1..]) == WithKey(key, k, b)[|p|..];
      }
      TailSorted(key, a);
      TailSorted(key, b);
      SortedWithKeysUnique(key, a[1..], b[1..]);
    }
  }

  /** Every stable sort of `s` is `Sort(key, s)`: the result of a stable
      sort is determined by the keys alone. */
  lemma StableSortUnique<T(!new)>(key: T -> int, r: seq<T>, s: seq<T>)
    requires IsStableSortOf(key, r, s)
    ensures r == Sort(key, s)
  {
    SortIsStable(key, s);
    SortedWithKeysUnique(key, r, Sort(key, s));
  }

  /** When all keys are equal (a comparator that always answers 0) a stable
      sort leaves the sequence as it was. */
  lemma SortConstantKey<T(!new)>(key: T -> int, s: seq<T>)
    requires forall x :: key(x) == 0
    ensures Sort(key, s) == s
  {
    assert IsStableSortOf(key, s, s);
    StableSortUnique(key, s, s);
  }
}
