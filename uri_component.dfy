/**
 * `encodeURIComponent` (ECMA-262, section "encodeURIComponent"): every
 * character outside the unreserved set is replaced by the percent-escapes of
 * its UTF-8 bytes. Its partner is the decoding a mail client applies to a
 * header value of a `mailto:` URI (RFC 6068, section 2): percent-decoding,
 * then UTF-8 decoding. The round trip is proved for every string.
 */
module UriComponent {
  import opened Wrappers
  import opened Sequences

  type Byte = b: int | 0 <= b < 256

  /** The characters `encodeURIComponent` leaves as they are: letters, digits and - _ . ! ~ * ' ( ). */
  predicate IsUnreserved(c: char) {
    || ('A' <= c <= 'Z') || ('a' <= c <= 'z') || ('0' <= c <= '9')
    || c == '-' || c == '_' || c == '.' || c == '!' || c == '~' || c == '*' || c == '\'' || c == '(' || c == ')'
  }

  /** The UTF-8 encoding of one Unicode scalar value (RFC 3629). */
  function Utf8(c: char): (bs: seq<Byte>)
    ensures 1 <= |bs| <= 4
  {
    var n := c as int;
    if n < 0x80 then [n]
    else if n < 0x800 then [0xC0 + n / 64, 0x80 + n % 64]
    else if n < 0x10000 then [0xE0 + n / 4096, 0x80 + (n / 64) % 64, 0x80 + n % 64]
    else [0xF0 + n / 0x40000, 0x80 + (n / 4096) % 64, 0x80 + (n / 64) % 64, 0x80 + n % 64]
  }

  function Utf8String(s: string): seq<Byte> {
    if s == [] then [] else Utf8(s[0]) + Utf8String(s[1..])
  }

  const UpperHex: string := "0123456789ABCDEF"

  /** A byte as "%" and two upper-case hexadecimal digits. */
  function Escape(b: Byte): string {
    ['%', UpperHex[b / 16], UpperHex[b % 16]]
  }

  function EscapeAll(bs: seq<Byte>): string {
    if bs == [] then [] else Escape(bs[0]) + EscapeAll(bs[1..])
  }

  function EncodeChar(c: char): string {
    if IsUnreserved(c) then [c] else EscapeAll(Utf8(c))
  }

  /** Only unreserved characters and "%": none of the query delimiters "?", "&", "=" and "#". */
  predicate QuerySafe(t: string) {
    forall k :: 0 <= k < |t| ==> IsUnreserved(t[k]) || t[k] == '%'
  }

  lemma {:induction false} QuerySafeConcat(a: string, b: string)
    requires QuerySafe(a) && QuerySafe(b)
    ensures QuerySafe(a + b)
  {
    forall k | 0 <= k < |a + b| ensures IsUnreserved((a + b)[k]) || (a + b)[k] == '%' {
      if k < |a| { assert (a + b)[k] == a[k]; } else { assert (a + b)[k] == b[k - |a|]; }
    }
  }

  lemma {:induction false} EscapeAllSafe(bs: seq<Byte>)
    ensures QuerySafe(EscapeAll(bs))
  {
    if bs != [] {
      EscapeAllSafe(bs[1..]);
      EscapeSafe(bs[0]);
      QuerySafeConcat(Escape(bs[0]), EscapeAll(bs[1..]));
    }
  }

  /** An escape is "%" and two hexadecimal digits, all safe in a query. */
  lemma {:induction false} EscapeSafe(b: Byte)
    ensures QuerySafe(Escape(b))
  {
    var e := Escape(b);
    HexValueOfDigit(b / 16);
    HexValueOfDigit(b % 16);
    assert HexValue(e[1]).Some? && HexValue(e[2]).Some?;
    assert e[0] == '%' && IsUnreserved(e[1]) && IsUnreserved(e[2]);
    forall k | 0 <= k < |e| ensures IsUnreserved(e[k]) || e[k] == '%' {
      assert k == 0 || k == 1 || k == 2;
    }
  }

  lemma {:induction false} EncodeCharSafe(c: char)
    ensures QuerySafe(EncodeChar(c))
  {
    if !IsUnreserved(c) {
      EscapeAllSafe(Utf8(c));
    }
  }

  /**
   * `encodeURIComponent(s)`. The result holds only unreserved characters and
   * "%", so none of the delimiters "?", "&", "=" and "#" of a URI query.
   */
  function EncodeURIComponent(s: string): (t: string)
    ensures QuerySafe(t)
  {
    if s == [] then []
    else
      EncodeCharSafe(s[0]);
      QuerySafeConcat(EncodeChar(s[0]), EncodeURIComponent(s[1..]));
      EncodeChar(s[0]) + EncodeURIComponent(s[1..])
  }

  /* ---------------- decoding ---------------- */

  function HexValue(c: char): Option<nat> {
    if '0' <= c <= '9' then Some(c as int - '0' as int)
    else if 'A' <= c <= 'F' then Some(c as int - 'A' as int + 10)
    else if 'a' <= c <= 'f' then Some(c as int - 'a' as int + 10)
    else None
  }

  lemma {:induction false} HexValueOfDigit(v: nat)
    requires v < 16
    ensures HexValue(UpperHex[v]) == Some(v)
  {
  }

  /** Percent-decoding: each "%XY" becomes the byte 0xXY, any other character its UTF-8 bytes. */
  function PercentDecode(t: string): Option<seq<Byte>>
    decreases |t|
  {
    if t == [] then Some([])
    else if t[0] == '%' then
      if |t| >= 3 && HexValue(t[1]).Some? && HexValue(t[2]).Some? then
        match PercentDecode(t[3..])
        case None => None
        case Some(rest) => Some([16 * HexValue(t[1]).value + HexValue(t[2]).value] + rest)
      else None
    else
      match PercentDecode(t[1..])
      case None => None
      case Some(rest) => Some(Utf8(t[0]) + rest)
  }

  predicate IsContinuation(b: Byte) {
    0x80 <= b < 0xC0
  }

  /** The six payload bits of a continuation byte. */
  function Payload(b: Byte): int {
    b as int - 0x80
  }

  predicate IsScalar(v: int) {
    (0 <= v < 0xD800) || (0xE000 <= v <= 0x10FFFF)
  }

  /** The first character of a UTF-8 byte sequence and its length in bytes; overlong forms, surrogates and values beyond U+10FFFF are refused. */
  function DecodeFirst(bs: seq<Byte>): (r: Option<(char, nat)>)
    requires bs != []
    ensures r.Some? ==> 1 <= r.value.1 <= |bs|
  {
    var b0 := bs[0] as int;
    if b0 < 0x80 then Some((b0 as char, 1))
    else if 0xC0 <= b0 < 0xE0 && |bs| >= 2 && IsContinuation(bs[1]) then
      var v := (b0 - 0xC0) * 64 + Payload(bs[1]);
      if 0x80 <= v then Some((v as char, 2)) else None
    else if 0xE0 <= b0 < 0xF0 && |bs| >= 3 && IsContinuation(bs[1]) && IsContinuation(bs[2]) then
      var v := (b0 - 0xE0) * 4096 + Payload(bs[1]) * 64 + Payload(bs[2]);
      if 0x800 <= v && IsScalar(v) then Some((v as char, 3)) else None
    else if 0xF0 <= b0 < 0xF8 && |bs| >= 4 && IsContinuation(bs[1]) && IsContinuation(bs[2]) && IsContinuation(bs[3]) then
      var v := (b0 - 0xF0) * 0x40000 + Payload(bs[1]) * 4096 + Payload(bs[2]) * 64 + Payload(bs[3]);
      if 0x10000 <= v && IsScalar(v) then Some((v as char, 4)) else None
    else None
  }

  function Utf8Decode(bs: seq<Byte>): Option<string>
    decreases |bs|
  {
    if bs == [] then Some([])
    else
      match DecodeFirst(bs)
      case None => None
      case Some((c, n)) =>
        match Utf8Decode(bs[n..])
        case None => None
        case Some(rest) => Some([c] + rest)
  }

  /** `decodeURIComponent` on the strings it accepts. */
  function DecodeURIComponent(t: string): Option<string> {
    match PercentDecode(t)
    case None => None
    case Some(bs) => Utf8Decode(bs)
  }

  /* ---------------- the round trip ---------------- */

  lemma {:induction false} DecodeTwoBytes(n: int, rest: seq<Byte>)
    requires 0x80 <= n < 0x800
    ensures var bs := [0xC0 + n / 64, 0x80 + n % 64] + rest;
      (bs[0] - 0xC0) * 64 + (bs[1] - 0x80) == n
  {
  }

  lemma {:induction false} DecodeThreeBytes(n: int)
    requires 0x800 <= n < 0x10000
    ensures (n / 4096) * 4096 + ((n / 64) % 64) * 64 + n % 64 == n
  {
    var a := n / 64;
    assert n == 64 * a + n % 64;
    assert a == 64 * (a / 64) + a % 64;
    assert a / 64 == n / 4096;
  }

  lemma {:induction false} DecodeFourBytes(n: int)
    requires 0x10000 <= n <= 0x10FFFF
    ensures (n / 0x40000) * 0x40000 + ((n / 4096) % 64) * 4096 + ((n / 64) % 64) * 64 + n % 64 == n
    ensures n / 0x40000 < 8
  {
    var a := n / 64;
    var b := a / 64;
    assert n == 64 * a + n % 64;
    assert a == 64 * b + a % 64;
    assert b == 64 * (b / 64) + b % 64;
    assert b == n / 4096;
    assert b / 64 == n / 0x40000;
  }

  /** The decoder reads back the character the encoder wrote, and how many bytes it took. */
  lemma {:induction false} DecodeFirstOfUtf8(c: char, rest: seq<Byte>)
    ensures DecodeFirst(Utf8(c) + rest) == Some((c, |Utf8(c)|))
  {
    var n := c as int;
    if n < 0x80 {
      assert (Utf8(c) + rest)[0] == n;
    } else if n < 0x800 {
      DecodeFirstOfTwoBytes(c, rest);
    } else if n < 0x10000 {
      DecodeFirstOfThreeBytes(c, rest);
    } else {
      DecodeFirstOfFourBytes(c, rest);
    }
  }

  lemma {:induction false} DecodeFirstOfTwoBytes(c: char, rest: seq<Byte>)
    requires 0x80 <= c as int < 0x800
    ensures DecodeFirst(Utf8(c) + rest) == Some((c, 2))
  {
    var n := c as int;
    var bs := Utf8(c) + rest;
    assert bs[0] == 0xC0 + n / 64 && bs[1] == 0x80 + n % 64;
    DecodeTwoBytes(n, rest);
    assert (n as char) == c;
  }

  lemma {:induction false} DecodeFirstOfThreeBytes(c: char, rest: seq<Byte>)
    requires 0x800 <= c as int < 0x10000
    ensures DecodeFirst(Utf8(c) + rest) == Some((c, 3))
  {
    var n := c as int;
    var bs := Utf8(c) + rest;
    assert bs[0] == 0xE0 + n / 4096 && bs[1] == 0x80 + (n / 64) % 64 && bs[2] == 0x80 + n % 64;
    DecodeThreeBytes(n);
    assert bs[0] as int - 0xE0 == n / 4096 && Payload(bs[1]) == (n / 64) % 64 && Payload(bs[2]) == n % 64;
  }

  lemma {:induction false} DecodeFirstOfFourBytes(c: char, rest: seq<Byte>)
    requires 0x10000 <= c as int
    ensures DecodeFirst(Utf8(c) + rest) == Some((c, 4))
  {
    var n := c as int;
    var bs := Utf8(c) + rest;
    assert bs[0] == 0xF0 + n / 0x40000 && bs[1] == 0x80 + (n / 4096) % 64;
    assert bs[2] == 0x80 + (n / 64) % 64 && bs[3] == 0x80 + n % 64;
    DecodeFourBytes(n);
    assert bs[0] as int - 0xF0 == n / 0x40000;
    assert Payload(bs[1]) == (n / 4096) % 64 && Payload(bs[2]) == (n / 64) % 64 && Payload(bs[3]) == n % 64;
  }

  lemma {:induction false} Utf8RoundTrip(s: string)
    ensures Utf8Decode(Utf8String(s)) == Some(s)
  {
    if s != [] {
      var bs := Utf8String(s);
      DecodeFirstOfUtf8(s[0], Utf8String(s[1..]));
      assert bs[|Utf8(s[0])|..] == Utf8String(s[1..]);
      Utf8RoundTrip(s[1..]);
      assert [s[0]] + s[1..] == s;
    }
  }

  /** A well-formed "%XY" in front decodes to the byte 0xXY, followed by the decoding of the rest. */
  lemma {:induction false} PercentDecodeAtEscape(u: string, hi: nat, lo: nat, r: seq<Byte>)
    requires |u| >= 3 && u[0] == '%' && HexValue(u[1]) == Some(hi) && HexValue(u[2]) == Some(lo)
    requires PercentDecode(u[3..]) == Some(r)
    ensures PercentDecode(u) == Some([16 * hi + lo] + r)
  {
  }

  lemma {:induction false} PercentDecodeOfEscape(b: Byte, t: string, r: seq<Byte>)
    requires PercentDecode(t) == Some(r)
    ensures PercentDecode(Escape(b) + t) == Some([b] + r)
  {
    var hi, lo := b / 16, b % 16;
    var u := Escape(b) + t;
    assert u[3..] == t;
    assert u[0] == '%' && u[1] == UpperHex[hi] && u[2] == UpperHex[lo];
    HexValueOfDigit(hi);
    HexValueOfDigit(lo);
    PercentDecodeAtEscape(u, hi, lo, r);
    assert 16 * hi + lo == b;
  }

  lemma {:induction false} PercentDecodeEscapes(bs: seq<Byte>, t: string, r: seq<Byte>)
    requires PercentDecode(t) == Some(r)
    ensures PercentDecode(EscapeAll(bs) + t) == Some(bs + r)
  {
    if bs != [] {
      var e, u := Escape(bs[0]), EscapeAll(bs[1..]) + t;
      assert EscapeAll(bs) == e + EscapeAll(bs[1..]);
      Associative(e, EscapeAll(bs[1..]), t);
      assert bs == [bs[0]] + bs[1..];
      Associative([bs[0]], bs[1..], r);
      PercentDecodeEscapes(bs[1..], t, r);
      PercentDecodeOfEscape(bs[0], u, bs[1..] + r);
    } else {
      assert EscapeAll(bs) + t == t && bs + r == r;
    }
  }

  lemma {:induction false} PercentDecodeEncodeChar(c: char, t: string, r: seq<Byte>)
    requires PercentDecode(t) == Some(r)
    ensures PercentDecode(EncodeChar(c) + t) == Some(Utf8(c) + r)
  {
    if IsUnreserved(c) {
      assert ([c] + t)[1..] == t;
    } else {
      PercentDecodeEscapes(Utf8(c), t, r);
    }
  }

  lemma {:induction false} PercentDecodeOfEncode(s: string)
    ensures PercentDecode(EncodeURIComponent(s)) == Some(Utf8String(s))
  {
    if s != [] {
      PercentDecodeOfEncode(s[1..]);
      PercentDecodeEncodeChar(s[0], EncodeURIComponent(s[1..]), Utf8String(s[1..]));
    }
  }

  /** Decoding what `encodeURIComponent` produced gives back the original string, for every string. */
  lemma {:induction false} EncodeURIComponentRoundTrip(s: string)
    ensures DecodeURIComponent(EncodeURIComponent(s)) == Some(s)
  {
    PercentDecodeOfEncode(s);
    Utf8RoundTrip(s);
  }
}
