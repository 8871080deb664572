/** `encodeURIComponent` and `decodeURIComponent` (section 19.2.6 of
    ECMA-262): every character outside the unreserved set is written as the
    percent-encoded octets (section 2.1 of RFC 3986) of its UTF-8 form
    (section 3 of RFC 3629). Strings are sequences of Unicode scalar values,
    so the lone surrogates on which the encoder throws cannot occur. */
module UriComponent {
  import opened Wrappers

  type Byte = b: int | 0 <= b < 256

  /** The characters `encodeURIComponent` copies unchanged: ASCII letters,
      digits and `- _ . ! ~ * ' ( )`. */
  predicate IsUnreserved(c: char) {
    || ('A' <= c <= 'Z') || ('a' <= c <= 'z') || ('0' <= c <= '9')
    || c == '-' || c == '_' || c == '.' || c == '!' || c == '~'
    || c == '*' || c == '\'' || c == '(' || c == ')'
  }

  // ---------------------------------------------------------------------
  // Hexadecimal digits

  const HexDigits := "0123456789ABCDEF"

  predicate IsUpperHex(c: char) {
    ('0' <= c <= '9') || ('A' <= c <= 'F')
  }

  /** The upper-case hexadecimal digit for `d`. */
  function HexDigit(d: nat): (c: char)
    requires d < 16
    ensures IsUpperHex(c)
  {
    HexDigits[d]
  }

  /** A hexadecimal digit of either case. */
  predicate IsHex(c: char) {
    IsUpperHex(c) || ('a' <= c <= 'f')
  }

  /** The upper-case form of a hexadecimal digit. */
  function UpperHex(c: char): char {
    if 'a' <= c <= 'f' then (c as int - 'a' as int + 'A' as int) as char else c
  }

  /** The value of a hexadecimal digit of either case: exactly the hex
      digits read as a value, and that value is written back as the same
      digit in upper case. */
  function HexValue(c: char): (r: Option<nat>)
    ensures r.Some? <==> IsHex(c)
    ensures r.Some? ==> r.value < 16 && HexDigits[r.value] == UpperHex(c)
  {
    if '0' <= c <= '9' then Some(c as int - '0' as int)
    else if 'A' <= c <= 'F' then Some(c as int - 'A' as int + 10)
    else if 'a' <= c <= 'f' then Some(c as int - 'a' as int + 10)
    else None
  }

  lemma HexRoundTrip(d: nat)
    requires d < 16
    ensures HexValue(HexDigit(d)) == Some(d)
  {
  }

  // ---------------------------------------------------------------------
  // UTF-8

  predicate IsContinuation(b: Byte) {
    0x80 <= b < 0xC0
  }

  /** The sequence length a UTF-8 lead byte announces; 0 for a byte that
      cannot start a sequence. */
  function LeadLength(b: Byte): nat {
    if b < 0x80 then 1
    else if b < 0xC0 then 0
    else if b < 0xE0 then 2
    else if b < 0xF0 then 3
    else if b < 0xF8 then 4
    else 0
  }

  /** The smallest code point that needs `n` octets. */
  function MinCodePoint(n: nat): nat {
    if n <= 1 then 0 else if n == 2 then 0x80 else if n == 3 then 0x800 else 0x10000
  }

  /** The UTF-8 octets of one scalar value: one to four octets, the lead
      octet announcing the length and the others continuation octets, the
      length being the least that holds the code point. */
  function Utf8(c: char): (bs: seq<Byte>)
    ensures 1 <= |bs| <= 4
    ensures LeadLength(bs[0]) == |bs|
    ensures forall i :: 1 <= i < |bs| ==> IsContinuation(bs[i])
    ensures MinCodePoint(|bs|) <= c as int
    ensures |bs| < 4 ==> c as int < MinCodePoint(|bs| + 1)
  {
    var cp := c as int;
    if cp < 0x80 then [cp]
    else if cp < 0x800 then [0xC0 + cp / 64, 0x80 + cp % 64]
    else if cp < 0x10000 then [0xE0 + cp / 4096, 0x80 + (cp / 64) % 64, 0x80 + cp % 64]
    else [0xF0 + cp / 262144, 0x80 + (cp / 4096) % 64, 0x80 + (cp / 64) % 64, 0x80 + cp % 64]
  }

  /** The code point a well-shaped octet sequence carries. */
  function CodePoint(bs: seq<Byte>): int
    requires 1 <= |bs| <= 4
  {
    var b0: int := bs[0];
    if |bs| == 1 then b0
    else
      var b1: int := bs[1];
      if |bs| == 2 then (b0 - 0xC0) * 64 + (b1 - 0x80)
      else
        var b2: int := bs[2];
        if |bs| == 3 then (b0 - 0xE0) * 4096 + (b1 - 0x80) * 64 + (b2 - 0x80)
        else
          var b3: int := bs[3];
          (b0 - 0xF0) * 262144 + (b1 - 0x80) * 4096 + (b2 - 0x80) * 64 + (b3 - 0x80)
  }

  /** Decodes the octets of exactly one scalar value, rejecting a bad lead
      octet, a missing continuation octet, an overlong form, a surrogate and
      a code point above U+10FFFF. */
  function Utf8Decode(bs: seq<Byte>): Option<char> {
    if |bs| == 0 || LeadLength(bs[0]) != |bs| then None
    else if exists i :: 1 <= i < |bs| && !IsContinuation(bs[i]) then None
    else
      var cp := CodePoint(bs);
      if cp < MinCodePoint(|bs|) || (0xD800 <= cp < 0xE000) || cp > 0x10FFFF then None
      else Some(cp as char)
  }

  lemma Split64(n: nat)
    ensures n == 64 * (n / 64) + n % 64
    ensures (n / 64) / 64 == n / 4096
    ensures (n / 4096) / 64 == n / 262144
  {
  }

  /** Decoding the UTF-8 form of a scalar value gives it back. */
  lemma Utf8RoundTrip(c: char)
    ensures Utf8Decode(Utf8(c)) == Some(c)
  {
    var cp := c as int;
    var bs := Utf8(c);
    Split64(cp);
    Split64(cp / 64);
    Split64(cp / 4096);
    assert CodePoint(bs) == cp;
  }

  lemma DivMod64(n: int, q: int, r: int)
    requires n == 64 * q + r && 0 <= r < 64
    ensures n / 64 == q && n % 64 == r
  {
  }

  /** Decoding accepts only the UTF-8 form: octets that decode to `c` are
      exactly the octets of `c`. */
  lemma Utf8DecodeOnlyCanonical(bs: seq<Byte>, c: char)
    requires Utf8Decode(bs) == Some(c)
    ensures bs == Utf8(c)
  {
    var cp := c as int;
    assert CodePoint(bs) == cp;
    var b0: int := bs[0];
    Split64(cp);
    Split64(cp / 64);
    if |bs| == 2 {
      var b1: int := bs[1];
      DivMod64(cp, b0 - 0xC0, b1 - 0x80);
    } else if |bs| == 3 {
      var b1: int, b2: int := bs[1], bs[2];
      assert IsContinuation(bs[1]) && IsContinuation(bs[2]);
      DivMod64(cp, (b0 - 0xE0) * 64 + (b1 - 0x80), b2 - 0x80);
      DivMod64(cp / 64, b0 - 0xE0, b1 - 0x80);
    } else if |bs| == 4 {
      var b1: int, b2: int, b3: int := bs[1], bs[2], bs[3];
      assert IsContinuation(bs[1]) && IsContinuation(bs[2]) && IsContinuation(bs[3]);
      Split64(cp / 4096);
      DivMod64(cp, ((b0 - 0xF0) * 64 + (b1 - 0x80)) * 64 + (b2 - 0x80), b3 - 0x80);
      DivMod64(cp / 64, (b0 - 0xF0) * 64 + (b1 - 0x80), b2 - 0x80);
      DivMod64(cp / 4096, b0 - 0xF0, b1 - 0x80);
    }
  }

  // ---------------------------------------------------------------------
  // Percent-encoding

  /** One octet as `%HH` with upper-case hexadecimal digits. */
  function PercentByte(b: Byte): string {
    ['%', HexDigit(b / 16), HexDigit(b % 16)]
  }

  /** The octets as consecutive `%HH` triples, three characters per octet. */
  function PercentOctets(bs: seq<Byte>): (t: string)
    ensures |t| == 3 * |bs|
  {
    if |bs| == 0 then "" else PercentByte(bs[0]) + PercentOctets(bs[1..])
  }

  /** How one character is written: itself when unreserved, otherwise its
      UTF-8 octets percent-encoded. */
  function EncodeChar(c: char): string {
    if IsUnreserved(c) then [c] else PercentOctets(Utf8(c))
  }

  /** `encodeURIComponent`. */
  function Encode(s: string): string {
    if |s| == 0 then "" else EncodeChar(s[0]) + Encode(s[1..])
  }

  // ---------------------------------------------------------------------
  // Percent-decoding

  /** The octet written as `%HH` at the start of `t`, if any. */
  function OctetAt(t: string): Option<Byte> {
    if |t| >= 3 && t[0] == '%' then
      match (HexValue(t[1]), HexValue(t[2]))
      case (Some(h), Some(l)) => Some(16 * h + l)
      case _ => None
    else None
  }

  /** Reads `n` consecutive `%HH` octets from the start of `t`. */
  function ReadOctets(t: string, n: nat): (r: Option<seq<Byte>>)
    ensures r.Some? ==> |r.value| == n && 3 * n <= |t|
  {
    if n == 0 then Some([])
    else
      match OctetAt(t)
      case None => None
      case Some(b) =>
        match ReadOctets(t[3..], n - 1)
        case None => None
        case Some(rest) => Some([b] + rest)
  }

  /** `decodeURIComponent`: characters other than `%` stand for themselves;
      `%HH` octets are read as many as the lead octet announces and decoded
      as UTF-8. Any malformed escape gives None (`URIError`). */
  function Decode(t: string): Option<string>
    decreases |t|
  {
    if |t| == 0 then Some("")
    else if t[0] != '%' then
      match Decode(t[1..])
      case None => None
      case Some(rest) => Some([t[0]] + rest)
    else
      match OctetAt(t)
      case None => None
      case Some(b0) =>
        var n := LeadLength(b0);
        if n == 0 then None
        else
          match ReadOctets(t, n)
          case None => None
          case Some(bs) =>
            match Utf8Decode(bs)
            case None => None
            case Some(c) =>
              match Decode(t[3 * n..])
              case None => None
              case Some(rest) => Some([c] + rest)
  }

  // ---------------------------------------------------------------------
  // Round trip

  lemma OctetRoundTrip(b: Byte, rest: string)
    ensures OctetAt(PercentByte(b) + rest) == Some(b)
  {
    HexRoundTrip(b / 16);
    HexRoundTrip(b % 16);
  }

  lemma {:induction false} ReadOctetsRoundTrip(bs: seq<Byte>, rest: string)
    ensures ReadOctets(PercentOctets(bs) + rest, |bs|) == Some(bs)
    decreases |bs|
  {
    if |bs| > 0 {
      var t := PercentOctets(bs) + rest;
      assert t == PercentByte(bs[0]) + (PercentOctets(bs[1..]) + rest);
      OctetRoundTrip(bs[0], PercentOctets(bs[1..]) + rest);
      assert t[3..] == PercentOctets(bs[1..]) + rest;
      ReadOctetsRoundTrip(bs[1..], rest);
      assert [bs[0]] + bs[1..] == bs;
    }
  }

  /** Decoding escaped octets followed by more text decodes the character
      they encode and then the text. */
  lemma DecodeEscaped(bs: seq<Byte>, c: char, rest: string)
    requires 1 <= |bs| && LeadLength(bs[0]) == |bs| && Utf8Decode(bs) == Some(c)
    ensures Decode(PercentOctets(bs) + rest) ==
      match Decode(rest)
      case None => None
      case Some(r) => Some([c] + r)
  {
    var t := PercentOctets(bs) + rest;
    assert t == PercentByte(bs[0]) + (PercentOctets(bs[1..]) + rest);
    OctetRoundTrip(bs[0], PercentOctets(bs[1..]) + rest);
    assert OctetAt(t) == Some(bs[0]);
    ReadOctetsRoundTrip(bs, rest);
    assert t[3 * |bs|..] == rest;
    assert t[0] == '%';
  }

  /** Decoding a character's encoding followed by more text decodes the
      character and then the text. */
  lemma DecodeEncodeChar(c: char, rest: string)
    ensures Decode(EncodeChar(c) + rest) ==
      match Decode(rest)
      case None => None
      case Some(r) => Some([c] + r)
  {
    if IsUnreserved(c) {
      var t := EncodeChar(c) + rest;
      assert t[0] == c && t[1..] == rest;
    } else {
      Utf8RoundTrip(c);
      DecodeEscaped(Utf8(c), c, rest);
    }
  }

  /** `decodeURIComponent(encodeURIComponent(s)) == s`. */
  lemma {:induction false} RoundTrip(s: string)
    ensures Decode(Encode(s)) == Some(s)
    decreases |s|
  {
    if |s| > 0 {
      RoundTrip(s[1..]);
      DecodeEncodeChar(s[0], Encode(s[1..]));
      assert [s[0]] + s[1..] == s;
    }
  }

  /** Encoding is injective: different messages give different texts. */
  lemma EncodeInjective(s1: string, s2: string)
    requires Encode(s1) == Encode(s2)
    ensures s1 == s2
  {
    RoundTrip(s1);
    RoundTrip(s2);
  }

  // ---------------------------------------------------------------------
  // Shape of the encoded text

  /** Text made only of unreserved characters and `%HH` triples with
      upper-case hexadecimal digits. */
  ghost predicate WellFormed(t: string)
    decreases |t|
  {
    if |t| == 0 then true
    else if IsUnreserved(t[0]) then WellFormed(t[1..])
    else |t| >= 3 && t[0] == '%' && IsUpperHex(t[1]) && IsUpperHex(t[2]) && WellFormed(t[3..])
  }

  lemma {:induction false} WellFormedAppend(a: string, b: string)
    requires WellFormed(a) && WellFormed(b)
    ensures WellFormed(a + b)
    decreases |a|
  {
    if |a| == 0 {
      assert a + b == b;
    } else if IsUnreserved(a[0]) {
      assert (a + b)[1..] == a[1..] + b;
      WellFormedAppend(a[1..], b);
    } else {
      assert (a + b)[3..] == a[3..] + b;
      WellFormedAppend(a[3..], b);
    }
  }


  /** Escaped octets are well-formed encoded text. */
  lemma {:induction false} PercentOctetsWellFormed(bs: seq<Byte>)
    ensures WellFormed(PercentOctets(bs))
    decreases |bs|
  {
    if |bs| > 0 {
      PercentOctetsWellFormed(bs[1..]);
      var t := PercentOctets(bs);
      assert t[3..] == PercentOctets(bs[1..]);
    }
  }

  /** The encoder writes only unreserved characters and `%HH` triples. */
  lemma {:induction false} EncodeWellFormed(s: string)
    ensures WellFormed(Encode(s))
    decreases |s|
  {
    if |s| > 0 {
      EncodeWellFormed(s[1..]);
      if IsUnreserved(s[0]) {
        assert EncodeChar(s[0])[1..] == "";
      } else {
        PercentOctetsWellFormed(Utf8(s[0]));
      }
      WellFormedAppend(EncodeChar(s[0]), Encode(s[1..]));
    }
  }

  /** Every character of well-formed text is unreserved or `%`. */
  lemma {:induction false} WellFormedChars(t: string)
    requires WellFormed(t)
    ensures forall i :: 0 <= i < |t| ==> IsUnreserved(t[i]) || t[i] == '%'
    decreases |t|
  {
    if |t| > 0 {
      if IsUnreserved(t[0]) {
        WellFormedChars(t[1..]);
        assert forall i :: 1 <= i < |t| ==> t[i] == t[1..][i - 1];
      } else {
        WellFormedChars(t[3..]);
        assert forall i :: 3 <= i < |t| ==> t[i] == t[3..][i - 3];
      }
    }
  }

  /** Text made only of unreserved characters is copied unchanged. */
  lemma {:induction false} EncodeUnreservedIsIdentity(s: string)
    requires forall i :: 0 <= i < |s| ==> IsUnreserved(s[i])
    ensures Encode(s) == s
    decreases |s|
  {
    if |s| > 0 {
      EncodeUnreservedIsIdentity(s[1..]);
      assert [s[0]] + s[1..] == s;
    }
  }

  /** Encoding works character by character: the encoding of a
      concatenation is the concatenation of the encodings. */
  lemma {:induction false} EncodeAppend(a: string, b: string)
    ensures Encode(a + b) == Encode(a) + Encode(b)
    decreases |a|
  {
    if |a| == 0 {
      assert a + b == b;
    } else {
      assert (a + b)[0] == a[0] && (a + b)[1..] == a[1..] + b;
      EncodeAppend(a[1..], b);
    }
  }

  /** An unreserved character is copied unchanged wherever it stands,
      whatever surrounds it. */
  lemma EncodeKeepsUnreserved(a: string, c: char, b: string)
    requires IsUnreserved(c)
    ensures Encode(a + [c] + b) == Encode(a) + [c] + Encode(b)
  {
    EncodeAppend(a + [c], b);
    EncodeAppend(a, [c]);
    assert Encode([c]) == [c] by {
      assert [c][1..] == "";
    }
  }

  /** An octet that spells an unreserved ASCII character. */
  predicate IsUnreservedOctet(b: Byte) {
    b < 0x80 && IsUnreserved(b as char)
  }

  /** Upper-case hexadecimal digits `h` and `l` of an octet that spells no
      unreserved character. */
  predicate EscapesReserved(h: char, l: char) {
    IsUpperHex(h) && IsUpperHex(l)
    && !IsUnreservedOctet(16 * HexValue(h).value + HexValue(l).value)
  }

  /** The encoder's own spelling: well-formed text in which no `%HH` triple
      spells an unreserved character (those are written as themselves). */
  ghost predicate Canonical(t: string)
    decreases |t|
  {
    if |t| == 0 then true
    else if IsUnreserved(t[0]) then Canonical(t[1..])
    else |t| >= 3 && t[0] == '%' && EscapesReserved(t[1], t[2]) && Canonical(t[3..])
  }

  lemma {:induction false} CanonicalAppend(a: string, b: string)
    requires Canonical(a) && Canonical(b)
    ensures Canonical(a + b)
    decreases |a|
  {
    if |a| == 0 {
      assert a + b == b;
    } else if IsUnreserved(a[0]) {
      assert (a + b)[1..] == a[1..] + b;
      CanonicalAppend(a[1..], b);
    } else {
      assert (a + b)[3..] == a[3..] + b;
      CanonicalAppend(a[3..], b);
    }
  }

  /** Escaped octets none of which spells an unreserved character are
      canonical. */
  lemma {:induction false} PercentOctetsCanonical(bs: seq<Byte>)
    requires forall i :: 0 <= i < |bs| ==> !IsUnreservedOctet(bs[i])
    ensures Canonical(PercentOctets(bs))
    decreases |bs|
  {
    if |bs| > 0 {
      PercentOctetsCanonical(bs[1..]);
      var t := PercentOctets(bs);
      assert t == PercentByte(bs[0]) + PercentOctets(bs[1..]);
      HexRoundTrip(bs[0] / 16);
      HexRoundTrip(bs[0] % 16);
      assert t[3..] == PercentOctets(bs[1..]);
    }
  }

  /** An unreserved character is one ASCII octet, and that octet spells it. */
  lemma Utf8OfUnreserved(c: char)
    requires IsUnreserved(c)
    ensures Utf8(c) == [c as int] && IsUnreservedOctet(c as int)
  {
  }

  /** No octet of a reserved character's UTF-8 form spells an unreserved
      character: a one-octet form is the reserved character itself, and the
      octets of a longer form are all at least 0x80. */
  lemma Utf8OfReserved(c: char)
    requires !IsUnreserved(c)
    ensures forall i :: 0 <= i < |Utf8(c)| ==> !IsUnreservedOctet(Utf8(c)[i])
  {
    var bs := Utf8(c);
    if |bs| == 1 {
      assert bs[0] as char == c;
    } else {
      assert bs[0] >= 0xC0;
    }
  }

  /** The encoder writes the canonical spelling. */
  lemma {:induction false} EncodeCanonical(s: string)
    ensures Canonical(Encode(s))
    decreases |s|
  {
    if |s| > 0 {
      EncodeCanonical(s[1..]);
      if IsUnreserved(s[0]) {
        assert EncodeChar(s[0])[1..] == "";
      } else {
        Utf8OfReserved(s[0]);
        PercentOctetsCanonical(Utf8(s[0]));
      }
      CanonicalAppend(EncodeChar(s[0]), Encode(s[1..]));
    }
  }

  /** A `%HH` triple with upper-case digits is the encoder's spelling of
      the octet it carries. */
  lemma UpperTriple(t: string, b: Byte)
    requires |t| >= 3 && IsUpperHex(t[1]) && IsUpperHex(t[2]) && OctetAt(t) == Some(b)
    ensures t[..3] == PercentByte(b)
  {
    OctetAtShape(t, b);
    UpperTripleDigits(t[1], t[2], b);
    assert t[..3] == ['%', t[1], t[2]];
  }

  lemma UpperTripleDigits(hc: char, lc: char, b: Byte)
    requires IsUpperHex(hc) && IsUpperHex(lc)
    requires b == 16 * HexValue(hc).value + HexValue(lc).value
    ensures PercentByte(b) == ['%', hc, lc]
  {
    UpperHexDigit(hc);
    UpperHexDigit(lc);
    DivMod16(b, HexValue(hc).value, HexValue(lc).value);
  }

  /** The octet read at the head of text is the value of the two hex digits
      after a `%`. */
  lemma OctetAtShape(t: string, b: Byte)
    requires OctetAt(t) == Some(b)
    ensures |t| >= 3 && t[0] == '%' && IsHex(t[1]) && IsHex(t[2])
    ensures b == 16 * HexValue(t[1]).value + HexValue(t[2]).value
  {
  }

  /** An upper-case hexadecimal digit is written back as itself. */
  lemma UpperHexDigit(c: char)
    requires IsUpperHex(c)
    ensures HexValue(c).Some? && HexDigit(HexValue(c).value) == c
  {
  }

  lemma DivMod16(b: int, h: int, l: int)
    requires b == 16 * h + l && 0 <= l < 16
    ensures b / 16 == h && b % 16 == l
  {
  }

  /** A `%` at the head of canonical text opens the encoder's spelling of an
      octet that spells no unreserved character, and the text after the
      triple is canonical. */
  lemma CanonicalTriple(t: string, b: Byte)
    requires Canonical(t) && OctetAt(t) == Some(b)
    ensures |t| >= 3 && t[..3] == PercentByte(b)
    ensures !IsUnreservedOctet(b) && Canonical(t[3..])
  {
    OctetAtShape(t, b);
    CanonicalEscape(t);
    UpperTriple(t, b);
  }

  /** Canonical text that starts with `%` starts with a triple escaping a
      reserved octet, and continues canonically. */
  lemma CanonicalEscape(t: string)
    requires Canonical(t) && |t| > 0 && t[0] == '%'
    ensures |t| >= 3 && EscapesReserved(t[1], t[2]) && Canonical(t[3..])
  {
    assert !IsUnreserved(t[0]);
  }

  /** Canonical text from which `n` octets are read starts with the
      encoder's spelling of those octets and continues canonically. */
  lemma {:induction false} ReadCanonicalOctets(t: string, n: nat, bs: seq<Byte>)
    requires Canonical(t) && ReadOctets(t, n) == Some(bs)
    ensures 3 * n <= |t| && t[..3 * n] == PercentOctets(bs) && Canonical(t[3 * n..])
    decreases n
  {
    if n == 0 {
      assert t[3 * n..] == t;
    } else {
      ReadOctetsStep(t, n, bs);
      CanonicalTriple(t, bs[0]);
      ReadCanonicalOctets(t[3..], n - 1, bs[1..]);
      GlueTriple(t, n, PercentByte(bs[0]), PercentOctets(bs[1..]));
      PercentOctetsCons(bs);
    }
  }

  /** No octet read from canonical text spells an unreserved character. */
  lemma {:induction false} CanonicalOctetsReserved(t: string, n: nat, bs: seq<Byte>)
    requires Canonical(t) && ReadOctets(t, n) == Some(bs)
    ensures forall i :: 0 <= i < n ==> !IsUnreservedOctet(bs[i])
    decreases n
  {
    if n > 0 {
      ReadOctetsStep(t, n, bs);
      CanonicalTriple(t, bs[0]);
      CanonicalOctetsReserved(t[3..], n - 1, bs[1..]);
      assert forall i :: 1 <= i < n ==> bs[i] == bs[1..][i - 1];
    }
  }

  /** Text that starts with the triple `head` and continues with `tail` of
      `n - 1` more triples starts with both. */
  lemma GlueTriple(t: string, n: nat, head: string, tail: string)
    requires n > 0 && 3 * n <= |t| && t[..3] == head && t[3..][..3 * (n - 1)] == tail
    ensures t[..3 * n] == head + tail && t[3 * n..] == t[3..][3 * (n - 1)..]
  {
    assert t[..3 * n] == t[..3] + t[3..][..3 * (n - 1)];
  }

  lemma PercentOctetsCons(bs: seq<Byte>)
    requires |bs| > 0
    ensures PercentOctets(bs) == PercentByte(bs[0]) + PercentOctets(bs[1..])
  {
  }

  /** Reading `n > 0` octets reads one `%HH` octet and then `n - 1` more. */
  lemma ReadOctetsStep(t: string, n: nat, bs: seq<Byte>)
    requires n > 0 && ReadOctets(t, n) == Some(bs)
    ensures |t| >= 3 && t[0] == '%' && OctetAt(t) == Some(bs[0])
    ensures ReadOctets(t[3..], n - 1) == Some(bs[1..])
  {
  }

  /** Canonical text whose leading octets decode to a character starts
      with the encoder's spelling of that character. */
  lemma CanonicalEscapedChar(t: string, n: nat, bs: seq<Byte>, c: char)
    requires Canonical(t) && ReadOctets(t, n) == Some(bs) && Utf8Decode(bs) == Some(c)
    ensures 3 * n <= |t| && t[..3 * n] == EncodeChar(c) && Canonical(t[3 * n..])
  {
    ReadCanonicalOctets(t, n, bs);
    CanonicalOctetsReserved(t, n, bs);
    Utf8DecodeOnlyCanonical(bs, c);
    if IsUnreserved(c) {
      Utf8OfUnreserved(c);
      assert false;
    }
  }

  /** Non-empty canonical text starts with the encoder's spelling of the
      first character it decodes to, and the canonical rest decodes to the
      remaining characters. */
  lemma CanonicalStep(t: string, s: string) returns (k: nat)
    requires Canonical(t) && |t| > 0 && Decode(t) == Some(s)
    ensures 1 <= k <= |t| && |s| > 0 && t[..k] == EncodeChar(s[0])
    ensures Canonical(t[k..]) && Decode(t[k..]) == Some(s[1..])
  {
    if IsUnreserved(t[0]) {
      assert t[0] != '%';
      k := 1;
    } else {
      var n := LeadLength(OctetAt(t).value);
      var bs := ReadOctets(t, n).value;
      var c := Utf8Decode(bs).value;
      CanonicalEscapedChar(t, n, bs, c);
      k := 3 * n;
    }
  }

  /** Canonical text is the encoding of what it decodes to, so the
      encoder's output is the only canonical spelling of a message. */
  lemma {:induction false} CanonicalIsEncoding(t: string, s: string)
    requires Canonical(t) && Decode(t) == Some(s)
    ensures t == Encode(s)
    decreases |t|
  {
    if |t| > 0 {
      var k := CanonicalStep(t, s);
      CanonicalIsEncoding(t[k..], s[1..]);
      assert t == t[..k] + t[k..];
    }
  }

  /** Worked examples: a space, an em dash and the shopping-cart emoji. */
  lemma EncodeExamples()
    ensures EncodeChar(' ') == "%20"
    ensures EncodeChar('\U{2014}') == "%E2%80%94"
    ensures EncodeChar('\U{1F6D2}') == "%F0%9F%9B%92"
  {
    EncodeSpace();
    EncodeEmDash();
    EncodeCart();
  }

  lemma EncodeSpace()
    ensures EncodeChar(' ') == "%20"
  {
    assert Utf8(' ') == [0x20];
    assert PercentOctets([0x20]) == PercentByte(0x20);
  }

  lemma EncodeEmDash()
    ensures EncodeChar('\U{2014}') == "%E2%80%94"
  {
    Utf8EmDash();
    PercentOctetsOfThree(0xE2, 0x80, 0x94);
    assert PercentByte(0xE2) == "%E2";
    assert PercentByte(0x80) == "%80";
    assert PercentByte(0x94) == "%94";
  }

  lemma Utf8EmDash()
    ensures Utf8('\U{2014}') == [0xE2, 0x80, 0x94]
  {
  }

  lemma PercentOctetsOfThree(a: Byte, b: Byte, c: Byte)
    ensures PercentOctets([a, b, c]) == PercentByte(a) + PercentByte(b) + PercentByte(c)
  {
    PercentOctetsCons([a, b, c]);
    assert [a, b, c][1..] == [b, c];
    PercentOctetsCons([b, c]);
    assert [b, c][1..] == [c];
    PercentOctetsCons([c]);
    assert [c][1..] == [];
  }

  lemma EncodeCart()
    ensures EncodeChar('\U{1F6D2}') == "%F0%9F%9B%92"
  {
    Utf8Cart();
    PercentOctetsOfFour(0xF0, 0x9F, 0x9B, 0x92);
    assert PercentByte(0xF0) == "%F0";
    assert PercentByte(0x9F) == "%9F";
    assert PercentByte(0x9B) == "%9B";
    assert PercentByte(0x92) == "%92";
  }

  lemma Utf8Cart()
    ensures Utf8('\U{1F6D2}') == [0xF0, 0x9F, 0x9B, 0x92]
  {
  }

  lemma PercentOctetsOfFour(a: Byte, b: Byte, c: Byte, d: Byte)
    ensures PercentOctets([a, b, c, d])
      == PercentByte(a) + PercentByte(b) + PercentByte(c) + PercentByte(d)
  {
    PercentOctetsCons([a, b, c, d]);
    assert [a, b, c, d][1..] == [b, c, d];
    PercentOctetsCons([b, c, d]);
    assert [b, c, d][1..] == [c, d];
    PercentOctetsCons([c, d]);
    assert [c, d][1..] == [d];
    PercentOctetsCons([d]);
    assert [d][1..] == [];
  }


}
