/**
 * Percent-encoding of a text for use in a URL path, as `requests.utils.quote`
 * does it with its default safe set `/`: the text is encoded as UTF-8 and every
 * byte outside the unreserved set of section 2.3 of RFC 3986 (and `/`) becomes
 * `%` followed by two upper-case hexadecimal digits (section 2.1 of RFC 3986).
 * The decoders are the partners that the round-trip lemmas relate it to.
 */
module Quote {
  import opened Options

  type byte = x: int | 0 <= x < 256

  // ---------------------------------------------------------------------------
  // UTF-8
  // ---------------------------------------------------------------------------

  /** The UTF-8 encoding of one Unicode scalar value. */
  function Utf8Char(c: char): (r: seq<byte>)
    ensures 1 <= |r| <= 4
    ensures (c as int < 0x80) <==> (|r| == 1 && r[0] == c as int)
  {
    var n := c as int;
    if n < 0x80 then [n]
    else if n < 0x800 then [0xC0 + n / 0x40, 0x80 + n % 0x40]
    else if n < 0x1_0000 then [0xE0 + n / 0x1000, 0x80 + (n / 0x40) % 0x40, 0x80 + n % 0x40]
    else [0xF0 + n / 0x4_0000, 0x80 + (n / 0x1000) % 0x40, 0x80 + (n / 0x40) % 0x40, 0x80 + n % 0x40]
  }

  /** `s.encode("utf-8")` */
  function Utf8Encode(s: string): (r: seq<byte>)
    decreases |s|
  {
    if s == [] then [] else Utf8Char(s[0]) + Utf8Encode(s[1..])
  }

  predicate IsContinuation(b: byte) { 0x80 <= b < 0xC0 }

  /** Decodes the first scalar value of a UTF-8 byte sequence, with the number of
      bytes it takes; `None` for a malformed, overlong or surrogate encoding. */
  function Utf8DecodeFirst(bs: seq<byte>): (r: Option<(char, nat)>)
    ensures r.Some? ==> 1 <= r.value.1 <= |bs|
  {
    if bs == [] then None
    else if bs[0] < 0x80 then Some((bs[0] as char, 1))
    else if 0xC0 <= bs[0] < 0xE0 && |bs| >= 2 && IsContinuation(bs[1]) then
      var n := (bs[0] as int - 0xC0) * 0x40 + (bs[1] as int - 0x80);
      if n < 0x80 then None else Some((n as char, 2))
    else if 0xE0 <= bs[0] < 0xF0 && |bs| >= 3 && IsContinuation(bs[1]) && IsContinuation(bs[2]) then
      var n := (bs[0] as int - 0xE0) * 0x1000 + (bs[1] as int - 0x80) * 0x40 + (bs[2] as int - 0x80);
      if n < 0x800 || 0xD800 <= n < 0xE000 then None else Some((n as char, 3))
    else if 0xF0 <= bs[0] < 0xF8 && |bs| >= 4 && IsContinuation(bs[1]) && IsContinuation(bs[2]) && IsContinuation(bs[3]) then
      var n := (bs[0] as int - 0xF0) * 0x4_0000 + (bs[1] as int - 0x80) * 0x1000 + (bs[2] as int - 0x80) * 0x40 + (bs[3] as int - 0x80);
      if n < 0x1_0000 || n >= 0x11_0000 then None else Some((n as char, 4))
    else None
  }

  /** `bs.decode("utf-8")`, `None` when `bs` is not well-formed UTF-8. */
  function Utf8Decode(bs: seq<byte>): Option<string>
    decreases |bs|
  {
    if bs == [] then Some([])
    else match Utf8DecodeFirst(bs)
      case None => None
      case Some((c, n)) =>
        match Utf8Decode(bs[n..])
        case None => None
        case Some(rest) => Some([c] + rest)
  }

  /** The first scalar value of `Utf8Char(c) + rest` decodes to `c`. */
  lemma Utf8CharDecodes(c: char, rest: seq<byte>)
    ensures Utf8DecodeFirst(Utf8Char(c) + rest) == Some((c, |Utf8Char(c)|))
  {
    var n := c as int;
    if n < 0x80 {
    } else if n < 0x800 {
      Utf8TwoBytes(c, rest);
    } else if n < 0x1_0000 {
      Utf8ThreeBytes(c, rest);
    } else {
      Utf8FourBytes(c, rest);
    }
  }

  lemma Utf8TwoBytes(c: char, rest: seq<byte>)
    requires 0x80 <= c as int < 0x800
    ensures Utf8DecodeFirst(Utf8Char(c) + rest) == Some((c, 2))
  {
    var n := c as int;
    var hi, lo := n / 0x40, n % 0x40;
    assert hi * 0x40 + lo == n && hi < 0x20;
    var bs := Utf8Char(c) + rest;
    assert bs[0] == 0xC0 + hi && bs[1] == 0x80 + lo;
  }

  lemma Utf8ThreeBytes(c: char, rest: seq<byte>)
    requires 0x800 <= c as int < 0x1_0000
    ensures Utf8DecodeFirst(Utf8Char(c) + rest) == Some((c, 3))
  {
    var n := c as int;
    var top, mid, lo := n / 0x1000, (n / 0x40) % 0x40, n % 0x40;
    assert top * 0x1000 + mid * 0x40 + lo == n && top < 0x10;
    var bs := Utf8Char(c) + rest;
    assert bs[0] == 0xE0 + top && bs[1] == 0x80 + mid && bs[2] == 0x80 + lo;
  }

  lemma Utf8FourBytes(c: char, rest: seq<byte>)
    requires 0x1_0000 <= c as int
    ensures Utf8DecodeFirst(Utf8Char(c) + rest) == Some((c, 4))
  {
    var n := c as int;
    SixBitGroups(n);
    var bs := Utf8Char(c) + rest;
    assert bs[0] == 0xF0 + n / 0x4_0000 && bs[1] == 0x80 + (n / 0x1000) % 0x40;
    assert bs[2] == 0x80 + (n / 0x40) % 0x40 && bs[3] == 0x80 + n % 0x40;
  }

  /** A scalar value is the sum of its six-bit groups. */
  lemma SixBitGroups(n: nat)
    requires n < 0x11_0000
    ensures n / 0x4_0000 < 8
    ensures (n / 0x4_0000) * 0x4_0000 + ((n / 0x1000) % 0x40) * 0x1000 + ((n / 0x40) % 0x40) * 0x40 + n % 0x40 == n
  {
    var a, r0 := n / 0x40, n % 0x40;
    var b, r1 := a / 0x40, a % 0x40;
    var t, r2 := b / 0x40, b % 0x40;
    assert n == 0x1000 * b + (0x40 * r1 + r0);
    assert n / 0x1000 == b;
    assert n == 0x4_0000 * t + (0x1000 * r2 + 0x40 * r1 + r0);
    assert n / 0x4_0000 == t;
  }

  /** UTF-8 decoding undoes UTF-8 encoding. */
  lemma {:induction false} Utf8RoundTrip(s: string)
    ensures Utf8Decode(Utf8Encode(s)) == Some(s)
    decreases |s|
  {
    if s != [] {
      var bs := Utf8Encode(s);
      Utf8CharDecodes(s[0], Utf8Encode(s[1..]));
      assert bs[|Utf8Char(s[0])|..] == Utf8Encode(s[1..]);
      Utf8RoundTrip(s[1..]);
      assert [s[0]] + s[1..] == s;
    }
  }

  // ---------------------------------------------------------------------------
  // Percent-encoding
  // ---------------------------------------------------------------------------

  /** Section 2.3 of RFC 3986: ALPHA / DIGIT / "-" / "." / "_" / "~". */
  predicate IsUnreserved(b: byte) {
    'A' as int <= b <= 'Z' as int || 'a' as int <= b <= 'z' as int || '0' as int <= b <= '9' as int
    || b == '-' as int || b == '.' as int || b == '_' as int || b == '~' as int
  }

  /** The bytes `quote` leaves as they are: the unreserved ones and its default safe `/`. */
  predicate IsSafe(b: byte) {
    IsUnreserved(b) || b == '/' as int
  }

  function HexDigit(n: nat): (c: char)
    requires n < 16
  {
    if n < 10 then ('0' as int + n) as char else ('A' as int + n - 10) as char
  }

  /** The value of a hexadecimal digit of either case. */
  function HexValue(c: char): (r: Option<nat>)
    ensures r.Some? ==> r.value < 16
  {
    if '0' <= c <= '9' then Some(c as int - '0' as int)
    else if 'A' <= c <= 'F' then Some(c as int - 'A' as int + 10)
    else if 'a' <= c <= 'f' then Some(c as int - 'a' as int + 10)
    else None
  }

  lemma HexDigitValue(n: nat)
    requires n < 16
    ensures HexValue(HexDigit(n)) == Some(n)
  {
  }

  function EncodeByte(b: byte): (r: string)
    ensures |r| == 1 || |r| == 3
  {
    if IsSafe(b) then [b as char] else ['%', HexDigit(b / 16), HexDigit(b % 16)]
  }

  /** Section 2.1 of RFC 3986 applied to every byte that is not safe. */
  function PercentEncode(bs: seq<byte>): string
    decreases |bs|
  {
    if bs == [] then [] else EncodeByte(bs[0]) + PercentEncode(bs[1..])
  }

  /** Recovers the bytes from a percent-encoded text; `None` for a character that
      is neither safe nor part of a well-formed `%HH` triplet. */
  function PercentDecode(s: string): Option<seq<byte>>
    decreases |s|
  {
    if s == [] then Some([])
    else if s[0] == '%' then
      if |s| < 3 then None
      else match (HexValue(s[1]), HexValue(s[2]), PercentDecode(s[3..]))
        case (Some(h), Some(l), Some(rest)) => Some([h * 16 + l] + rest)
        case _ => None
    else if s[0] as int < 256 && IsSafe(s[0] as int) then
      match PercentDecode(s[1..])
      case Some(rest) => Some([s[0] as int] + rest)
      case None => None
    else None
  }

  /** Percent-decoding undoes percent-encoding. */
  lemma {:induction false} PercentRoundTrip(bs: seq<byte>)
    ensures PercentDecode(PercentEncode(bs)) == Some(bs)
    decreases |bs|
  {
    if bs != [] {
      var b := bs[0];
      var e := EncodeByte(b);
      var s := PercentEncode(bs);
      PercentRoundTrip(bs[1..]);
      assert s == e + PercentEncode(bs[1..]);
      assert s[|e|..] == PercentEncode(bs[1..]);
      if IsSafe(b) {
        assert s[0] == b as char && s[0] != '%';
      } else {
        HexDigitValue(b / 16);
        HexDigitValue(b % 16);
        assert s[0] == '%' && s[1] == HexDigit(b / 16) && s[2] == HexDigit(b % 16);
      }
      assert [b] + bs[1..] == bs;
    }
  }

  /** The characters a percent-encoded text is made of. */
  predicate IsEncodedChar(c: char) {
    (c as int < 256 && IsSafe(c as int)) || c == '%'
  }

  /** A percent-encoded text holds only safe characters and `%`, so in particular
      no space, `?`, `&` or `#` that would end or split a URL path. */
  lemma {:induction false} PercentEncodedChars(bs: seq<byte>)
    ensures forall i :: 0 <= i < |PercentEncode(bs)| ==> IsEncodedChar(PercentEncode(bs)[i])
    decreases |bs|
  {
    if bs != [] {
      PercentEncodedChars(bs[1..]);
      var e := EncodeByte(bs[0]);
      var s := PercentEncode(bs);
      forall i | 0 <= i < |s| ensures IsEncodedChar(s[i]) {
        if i >= |e| {
          assert s[i] == PercentEncode(bs[1..])[i - |e|];
        } else if !IsSafe(bs[0]) && i > 0 {
          assert s[i] == HexDigit(if i == 1 then bs[0] / 16 else bs[0] % 16);
        }
      }
    }
  }

  // ---------------------------------------------------------------------------
  // quote and its inverse
  // ---------------------------------------------------------------------------

  /** `requests.utils.quote(s)` */
  function QuoteText(s: string): string {
    PercentEncode(Utf8Encode(s))
  }

  /** `urllib.parse.unquote` in its strict form: `None` for anything `QuoteText`
      cannot produce the bytes of. */
  function UnquoteText(u: string): Option<string> {
    match PercentDecode(u)
    case None => None
    case Some(bs) => Utf8Decode(bs)
  }

  /** Quoting loses nothing: the prompt can be read back from its quoted form. */
  lemma QuoteRoundTrip(s: string)
    ensures UnquoteText(QuoteText(s)) == Some(s)
  {
    PercentRoundTrip(Utf8Encode(s));
    Utf8RoundTrip(s);
  }

  /** A quoted text contains no character that ends a URL path. */
  lemma QuoteIsPathSafe(s: string)
    ensures forall i :: 0 <= i < |QuoteText(s)| ==> IsEncodedChar(QuoteText(s)[i])
    ensures ' ' !in QuoteText(s) && '?' !in QuoteText(s) && '&' !in QuoteText(s) && '#' !in QuoteText(s)
  {
    PercentEncodedChars(Utf8Encode(s));
  }

  /** An unreserved ASCII text is left exactly as it is. */
  lemma {:induction false} QuoteKeepsUnreserved(s: string)
    requires forall i :: 0 <= i < |s| ==> s[i] as int < 128 && IsSafe(s[i] as int)
    ensures QuoteText(s) == s
    decreases |s|
  {
    if s != [] {
      QuoteKeepsUnreserved(s[1..]);
      assert [s[0]] + s[1..] == s;
    }
  }
}
