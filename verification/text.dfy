/** String helpers the storefront takes from JavaScript's built-ins:
    `toLowerCase` (ASCII letters only), `includes`, the decimal rendering of
    integers by `toString` and `toFixed(2)`, and `join`. The parsers and
    `split` are not called by the storefront: they are the inverses through
    which the rendered text is read back. Strings are sequences of Unicode
    scalar values. */
module Text {
  import opened Wrappers

  // ---------------------------------------------------------------------
  // Case folding

  predicate IsAsciiUpper(c: char) {
    'A' <= c <= 'Z'
  }

  /** Lower-cases one character; only the ASCII letters A-Z are mapped. */
  function LowerChar(c: char): (r: char)
    ensures !IsAsciiUpper(r)
    ensures r == c || (IsAsciiUpper(c) && r as int - c as int == 'a' as int - 'A' as int)
  {
    if IsAsciiUpper(c) then (c as int + ('a' as int - 'A' as int)) as char else c
  }

  /** `String.prototype.toLowerCase` restricted to ASCII: same length,
      character by character, and no upper-case ASCII letter survives. */
  function Lower(s: string): (r: string)
    ensures |r| == |s|
    ensures forall i :: 0 <= i < |s| ==> r[i] == LowerChar(s[i])
    ensures forall i :: 0 <= i < |r| ==> !IsAsciiUpper(r[i])
  {
    seq(|s|, i requires 0 <= i < |s| => LowerChar(s[i]))
  }

  /** Lower-casing twice is the same as lower-casing once. */
  lemma LowerIdempotent(s: string)
    ensures Lower(Lower(s)) == Lower(s)
  {
  }

  // ---------------------------------------------------------------------
  // Substring search

  /** `q` occurs in `s` starting at index `i`. */
  ghost predicate OccursAt(s: string, q: string, i: nat) {
    i + |q| <= |s| && s[i..i + |q|] == q
  }

  lemma OccursShift(s: string, q: string)
    requires |s| > 0
    ensures forall i: nat :: OccursAt(s[1..], q, i) <==> OccursAt(s, q, i + 1)
  {
    forall i: nat
      ensures OccursAt(s[1..], q, i) <==> OccursAt(s, q, i + 1)
    {
      if i + |q| <= |s[1..]| {
        assert s[1..][i..i + |q|] == s[i + 1..i + 1 + |q|];
      }
    }
  }

  /** `String.prototype.includes`: does `q` occur somewhere in `s`?
      Scans the start positions left to right. */
  function Includes(s: string, q: string): (r: bool)
    ensures r <==> exists i: nat :: i <= |s| && OccursAt(s, q, i)
    decreases |s|
  {
    if |q| <= |s| && s[..|q|] == q then
      assert OccursAt(s, q, 0);
      true
    else if |s| == 0 then
      false
    else
      OccursShift(s, q);
      var r := Includes(s[1..], q);
      assert !OccursAt(s, q, 0);
      assert r ==> exists i: nat :: i <= |s| && OccursAt(s, q, i) by {
        if r {
          var j: nat :| j <= |s[1..]| && OccursAt(s[1..], q, j);
          assert OccursAt(s, q, j + 1);
        }
      }
      assert (exists i: nat :: i <= |s| && OccursAt(s, q, i)) ==> r by {
        if exists i: nat :: i <= |s| && OccursAt(s, q, i) {
          var j: nat :| j <= |s| && OccursAt(s, q, j);
          assert j != 0;
          assert OccursAt(s[1..], q, j - 1);
        }
      }
      r
  }

  /** Every string includes the empty string. */
  lemma IncludesEmpty(s: string)
    ensures Includes(s, "")
  {
    assert OccursAt(s, "", 0);
  }

  // ---------------------------------------------------------------------
  // Decimal rendering of integers and its inverse

  predicate IsDigit(c: char) {
    '0' <= c <= '9'
  }

  function DigitChar(d: nat): (c: char)
    requires d < 10
    ensures IsDigit(c) && c as int - '0' as int == d
  {
    (d + '0' as int) as char
  }

  predicate AllDigits(s: string) {
    forall i :: 0 <= i < |s| ==> IsDigit(s[i])
  }

  /** A numeral as JavaScript prints it: at least one character and no
      leading zero unless the numeral is "0" itself. */
  predicate NoLeadingZero(s: string) {
    |s| >= 1 && (s[0] == '0' ==> |s| == 1)
  }

  /** The number a string of decimal digits denotes, most significant first. */
  function DigitsValue(s: string): nat
    requires AllDigits(s)
  {
    if |s| == 0 then 0
    else 10 * DigitsValue(s[..|s| - 1]) + (s[|s| - 1] as int - '0' as int)
  }

  /** The decimal digits of `n` as `Number.prototype.toString` prints them
      for a non-negative integer `n < 1e21`: at least one digit, no leading
      zero, and the digits denote `n`. */
  function NatToDecimal(n: nat): (r: string)
    ensures AllDigits(r) && NoLeadingZero(r)
    ensures r[0] == '0' ==> n == 0
    ensures DigitsValue(r) == n
  {
    if n < 10 then [DigitChar(n)]
    else
      var r := NatToDecimal(n / 10) + [DigitChar(n % 10)];
      assert r[..|r| - 1] == NatToDecimal(n / 10);
      r
  }

  /** A leading digit other than 0 makes the value at least 1. */
  lemma {:induction false} LeadingDigitPositive(s: string)
    requires |s| >= 1 && AllDigits(s) && s[0] != '0'
    ensures DigitsValue(s) >= 1
    decreases |s|
  {
    if |s| > 1 {
      var p := s[..|s| - 1];
      assert p[0] == s[0];
      LeadingDigitPositive(p);
    }
  }

  /** A numeral with no leading zero is the decimal form of its value. */
  lemma {:induction false} DecimalOfDigits(s: string)
    requires AllDigits(s)
    ensures NoLeadingZero(s) ==> NatToDecimal(DigitsValue(s)) == s
    decreases |s|
  {
    if NoLeadingZero(s) && |s| > 1 {
      var p := s[..|s| - 1];
      var d := s[|s| - 1] as int - '0' as int;
      assert p[0] == s[0];
      LeadingDigitPositive(p);
      DecimalOfDigits(p);
      DecimalAppend(DigitsValue(p), d);
      assert DigitChar(d) == s[|s| - 1];
      assert s == p + [s[|s| - 1]];
    }
  }

  /** Appending a digit to the decimal form of a positive number gives the
      decimal form of ten times it plus that digit. */
  lemma DecimalAppend(a: nat, d: nat)
    requires a >= 1 && d < 10
    ensures NatToDecimal(10 * a + d) == NatToDecimal(a) + [DigitChar(d)]
  {
    var n := 10 * a + d;
    assert n / 10 == a && n % 10 == d;
  }

  /** Reads a non-empty string of decimal digits. A numeral without a
      leading zero is read to the number whose decimal form it is. */
  function ParseNat(s: string): (r: Option<nat>)
    ensures r.Some? <==> |s| > 0 && AllDigits(s)
    ensures r.Some? && NoLeadingZero(s) ==> NatToDecimal(r.value) == s
  {
    if |s| > 0 && AllDigits(s) then
      DecimalOfDigits(s);
      Some(DigitsValue(s))
    else None
  }

  /** `String(n)` for an integer `n` with `|n| < 1e21`: a minus sign for
      negative values, then the decimal digits of the magnitude. */
  function IntToString(n: int): (r: string)
    ensures |r| >= 1
    ensures forall i :: 0 <= i < |r| ==> IsDigit(r[i]) || r[i] == '-'
    ensures r[0] == '-' <==> n < 0
    ensures NoLeadingZero(if n < 0 then r[1..] else r)
    ensures ParseInt(r) == Some(n)
  {
    if n < 0 then "-" + NatToDecimal(-n) else NatToDecimal(n)
  }

  /** Reads an optionally negative decimal integer. */
  function ParseInt(s: string): Option<int> {
    if |s| > 0 && s[0] == '-' then
      match ParseNat(s[1..])
      case Some(v) => var n: int := v; Some(-n)
      case None => None
    else
      match ParseNat(s)
      case Some(v) => Some(v)
      case None => None
  }

  const FixedSuffix := ".00"

  /** `n.toFixed(2)` for an integer `n`: the integer followed by ".00".
      The text holds only digits, a leading minus sign and the point, the
      part before the point is `String(n)`, so it carries no leading zero,
      and reading it back gives `n`. */
  function Fixed2(n: int): (r: string)
    ensures |r| >= 4
    ensures r[|r| - 3..] == FixedSuffix
    ensures forall i :: 0 <= i < |r| ==> IsDigit(r[i]) || r[i] == '-' || r[i] == '.'
    ensures r[..|r| - 3] == IntToString(n)
    ensures ParseFixed2(r) == Some(n)
  {
    var r := IntToString(n) + FixedSuffix;
    assert r[..|r| - 3] == IntToString(n);
    r
  }

  /** Reads back a "<integer>.00" amount. */
  function ParseFixed2(s: string): Option<int> {
    if |s| >= 3 && s[|s| - 3..] == FixedSuffix then ParseInt(s[..|s| - 3]) else None
  }

  // ---------------------------------------------------------------------
  // Joining and splitting

  /** `Array.prototype.join`: the parts with `sep` between neighbours. */
  function Join(parts: seq<string>, sep: string): string {
    if |parts| == 0 then ""
    else if |parts| == 1 then parts[0]
    else parts[0] + sep + Join(parts[1..], sep)
  }

  /** Joining two non-empty lists of parts puts one separator between the
      two joins. */
  lemma {:induction false} JoinAppend(a: seq<string>, b: seq<string>, sep: string)
    requires |a| > 0 && |b| > 0
    ensures Join(a + b, sep) == Join(a, sep) + sep + Join(b, sep)
    decreases |a|
  {
    if |a| == 1 {
      assert (a + b)[1..] == b;
    } else {
      assert (a + b)[1..] == a[1..] + b;
      JoinAppend(a[1..], b, sep);
    }
  }

  lemma Join3(x: string, y: string, z: string, sep: string)
    ensures Join([x, y, z], sep) == x + sep + y + sep + z
  {
    assert [x, y, z][1..] == [y, z];
    assert [y, z][1..] == [z];
    assert Join([y, z], sep) == y + sep + z;
    assert x + sep + (y + sep + z) == x + sep + y + sep + z;
  }

  /** `s` begins with `p`. */
  predicate StartsWith(s: string, p: string) {
    |p| <= |s| && s[..|p|] == p
  }

  /** `s` ends with `p`. */
  predicate EndsWith(s: string, p: string) {
    |p| <= |s| && s[|s| - |p|..] == p
  }

  lemma StartsWithAppend(a: string, b: string)
    ensures StartsWith(a + b, a)
  {
    assert (a + b)[..|a|] == a;
  }

  lemma StartsWithExtend(s: string, p: string, t: string)
    requires StartsWith(s, p)
    ensures StartsWith(s + t, p)
  {
    assert (s + t)[..|p|] == s[..|p|];
  }

  lemma EndsWithAppend(a: string, b: string)
    ensures EndsWith(a + b, b)
  {
    assert (a + b)[|a|..] == b;
  }

  /** `String.prototype.split` on a single character: the maximal pieces
      free of `sep`, which `Join` puts back together to give `s`. */
  function Split(s: string, sep: char): (r: seq<string>)
    ensures |r| >= 1
    ensures forall i :: 0 <= i < |r| ==> sep !in r[i]
    ensures Join(r, [sep]) == s
  {
    if |s| == 0 then [""]
    else
      var rest := Split(s[1..], sep);
      if s[0] == sep then
        assert ([""] + rest)[1..] == rest;
        [""] + rest
      else
        var r := [[s[0]] + rest[0]] + rest[1..];
        assert r[1..] == rest[1..];
        r
  }

  lemma {:induction false} SplitPrefix(a: string, t: string, sep: char)
    requires sep !in a
    ensures Split(a + t, sep) == [a + Split(t, sep)[0]] + Split(t, sep)[1..]
    decreases |a|
  {
    if |a| == 0 {
      assert a + t == t;
      assert a + Split(t, sep)[0] == Split(t, sep)[0];
      assert Split(t, sep) == [Split(t, sep)[0]] + Split(t, sep)[1..];
    } else {
      assert (a + t)[1..] == a[1..] + t;
      SplitPrefix(a[1..], t, sep);
      assert [a[0]] + (a[1..] + Split(t, sep)[0]) == a + Split(t, sep)[0];
    }
  }

  /** A separator in front adds one empty piece. */
  lemma SplitAfterSep(rest: string, sep: char)
    ensures Split([sep] + rest, sep) == [""] + Split(rest, sep)
  {
    assert ([sep] + rest)[1..] == rest;
  }

  /** Splitting a join recovers the parts, provided no part contains the
      separator. */
  lemma {:induction false} SplitJoin(parts: seq<string>, sep: char)
    requires |parts| >= 1
    requires forall i :: 0 <= i < |parts| ==> sep !in parts[i]
    ensures Split(Join(parts, [sep]), sep) == parts
    decreases |parts|
  {
    if |parts| == 1 {
      SplitPrefix(parts[0], "", sep);
      assert parts[0] + "" == parts[0];
    } else {
      var head, tail := parts[0], parts[1..];
      var rest := Join(tail, [sep]);
      assert Join(parts, [sep]) == head + ([sep] + rest);
      SplitJoin(tail, sep);
      SplitAfterSep(rest, sep);
      SplitPrefix(head, [sep] + rest, sep);
      assert head + "" == head;
      assert [head] + tail == parts;
    }
  }

}
