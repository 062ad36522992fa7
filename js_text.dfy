/**
 * The JavaScript string and number primitives the browser script relies on:
 * the character classes of its regular expressions, `indexOf`, `replace`
 * with a one-character string pattern, `substring`, the UTF-16 `length`,
 * and `parseInt` without a radix.
 *
 * A JavaScript string is modelled as a Dafny `string`, a sequence of Unicode
 * scalar values; a character outside the Basic Multilingual Plane counts as
 * two code units wherever the script measures a length.
 */
module JsText {
  import opened Wrappers

  /** `\d`: an ASCII decimal digit. `\D` is its complement. */
  predicate IsDigit(c: char) {
    '0' <= c <= '9'
  }

  predicate AllDigits(s: string) {
    forall k :: 0 <= k < |s| ==> IsDigit(s[k])
  }

  /**
   * `\s`: the WhiteSpace and LineTerminator characters of ECMA-262, which are
   * also the characters `parseInt` skips at the front (StrWhiteSpaceChar).
   * `\S` is its complement.
   */
  predicate IsSpace(c: char) {
    || c == '\t' || c == '\n' || c == '\U{B}' || c == '\U{C}' || c == '\r'
    || c == ' ' || c == '\U{A0}' || c == '\U{1680}'
    || ('\U{2000}' <= c <= '\U{200A}')
    || c == '\U{2028}' || c == '\U{2029}' || c == '\U{202F}' || c == '\U{205F}'
    || c == '\U{3000}' || c == '\U{FEFF}'
  }

  /** `s.indexOf(c)`: the index of the first `c`, or -1 when there is none. */
  function IndexOf(s: string, c: char): (i: int)
    ensures -1 <= i < |s|
    ensures i == -1 <==> c !in s
    ensures 0 <= i ==> s[i] == c && c !in s[..i]
  {
    if s == [] then -1
    else if s[0] == c then 0
    else
      var j := IndexOf(s[1..], c);
      assert s[1..][..if j < 0 then 0 else j] == s[1..if j < 0 then 1 else j + 1];
      if j < 0 then -1 else j + 1
  }

  /** The index of the first `c` is the one index holding `c` with none before it. */
  lemma {:induction false} IndexOfAt(s: string, c: char, i: nat)
    requires i < |s| && s[i] == c && c !in s[..i]
    ensures IndexOf(s, c) == i
  {
  }

  /**
   * `s.replace(c, "")` with a one-character string pattern: only the FIRST
   * occurrence of `c` is removed (a string pattern is not a global regular
   * expression).
   */
  function RemoveFirst(s: string, c: char): (r: string)
    ensures c !in s ==> r == s
    ensures c in s ==> |r| == |s| - 1
    ensures c in s ==> r[..IndexOf(s, c)] == s[..IndexOf(s, c)] && c !in r[..IndexOf(s, c)]
  {
    var i := IndexOf(s, c);
    if i < 0 then s
    else
      assert s == s[..i] + [s[i]] + s[i + 1..];
      s[..i] + s[i + 1..]
  }

  /** Removing the first `c` when it stands at index i. */
  lemma {:induction false} RemoveFirstAt(s: string, c: char, i: nat)
    requires i < |s| && s[i] == c && c !in s[..i]
    ensures RemoveFirst(s, c) == s[..i] + s[i + 1..]
  {
    IndexOfAt(s, c, i);
  }

  /** `s.substring(0, n)` for `n >= 0`: at most the first `n` characters. */
  function Take(s: string, n: nat): (r: string)
    ensures |r| == if |s| < n then |s| else n
    ensures r <= s
  {
    if |s| <= n then s else s[..n]
  }

  /** `s.substring(1)`: everything after the first character ("" stays ""). */
  function DropFirst(s: string): (r: string)
    ensures s != [] ==> s == [s[0]] + r
    ensures s == [] ==> r == []
  {
    if s == [] then [] else s[1..]
  }

  /** `s.replace(/\D/g, "")`: the ASCII digits of `s`, in order. */
  function Digits(s: string): (d: string)
    ensures AllDigits(d)
    ensures |d| <= |s|
  {
    if s == [] then []
    else (if IsDigit(s[0]) then [s[0]] else []) + Digits(s[1..])
  }

  lemma {:induction false} DigitsAppend(a: string, b: string)
    ensures Digits(a + b) == Digits(a) + Digits(b)
  {
    if a == [] {
      assert a + b == b;
    } else {
      assert (a + b)[1..] == a[1..] + b;
      DigitsAppend(a[1..], b);
    }
  }

  /** Removing the non-digits of a string that has none changes nothing. */
  lemma {:induction false} DigitsOfDigits(d: string)
    requires AllDigits(d)
    ensures Digits(d) == d
  {
    if d != [] {
      DigitsOfDigits(d[1..]);
    }
  }

  /** A string without digits loses everything. */
  lemma {:induction false} DigitsOfNonDigits(s: string)
    requires forall k :: 0 <= k < |s| ==> !IsDigit(s[k])
    ensures Digits(s) == []
  {
    if s != [] {
      DigitsOfNonDigits(s[1..]);
    }
  }

  /** Every character of `s` is a single UTF-16 code unit. */
  predicate InBmp(s: string) {
    forall k :: 0 <= k < |s| ==> s[k] as int < 0x10000
  }

  /** `s.length`: the number of UTF-16 code units of `s`. */
  function Utf16Length(s: string): (n: nat)
    ensures |s| <= n <= 2 * |s|
    ensures InBmp(s) ==> n == |s|
  {
    if s == [] then 0
    else (if s[0] as int < 0x10000 then 1 else 2) + Utf16Length(s[1..])
  }

  /* ---------------- parseInt ---------------- */

  /** The value of a radix-`radix` digit, or `radix` itself when `c` is none. */
  function DigitValue(c: char, radix: nat): (v: nat)
    requires radix == 10 || radix == 16
    ensures v <= radix
  {
    if '0' <= c <= '9' then (c as int - '0' as int)
    else if radix == 16 && 'a' <= c <= 'f' then (c as int - 'a' as int) + 10
    else if radix == 16 && 'A' <= c <= 'F' then (c as int - 'A' as int) + 10
    else radix
  }

  predicate IsRadixDigit(c: char, radix: nat)
    requires radix == 10 || radix == 16
  {
    DigitValue(c, radix) < radix
  }

  /** The longest prefix of `s` made of radix-`radix` digits. */
  function RadixPrefix(s: string, radix: nat): (z: string)
    requires radix == 10 || radix == 16
    ensures z <= s
    ensures forall k :: 0 <= k < |z| ==> IsRadixDigit(z[k], radix)
    ensures |z| < |s| ==> !IsRadixDigit(s[|z|], radix)
  {
    if s == [] || !IsRadixDigit(s[0], radix) then []
    else [s[0]] + RadixPrefix(s[1..], radix)
  }

  /** The number a string of radix-`radix` digits denotes, most significant first. */
  function RadixValue(z: string, radix: nat): (v: nat)
    requires radix == 10 || radix == 16
    requires forall k :: 0 <= k < |z| ==> IsRadixDigit(z[k], radix)
  {
    if z == [] then 0
    else RadixValue(z[..|z| - 1], radix) * radix + DigitValue(z[|z| - 1], radix)
  }

  /** The number a string of decimal digits denotes. */
  function DecimalValue(d: string): (v: nat)
    requires AllDigits(d)
  {
    RadixValue(d, 10)
  }

  /** The leading white space `parseInt` skips. */
  function TrimStart(s: string): (t: string)
    ensures |t| <= |s| && t == s[|s| - |t|..]
    ensures t != [] ==> !IsSpace(t[0])
    ensures forall k :: 0 <= k < |s| - |t| ==> IsSpace(s[k])
  {
    if s != [] && IsSpace(s[0]) then TrimStart(s[1..]) else s
  }

  /**
   * `parseInt(s)` with the radix left undefined, as ECMA-262 defines it: skip
   * leading white space, read an optional sign, switch to radix 16 after a
   * "0x" or "0X" prefix, then read the longest run of digits; no digits
   * gives NaN, here `None`. The result is exact (JavaScript rounds it to a
   * double).
   */
  function ParseInt(s: string): (n: Option<int>)
  {
    ParseSigned(TrimStart(s))
  }

  /** The sign and digits that follow the skipped white space. */
  function ParseSigned(t: string): (n: Option<int>)
  {
    if t != [] && t[0] == '-' then
      match ParseMagnitude(t[1..])
      case None => None
      case Some(m) => Some(-(m as int))
    else if t != [] && t[0] == '+' then ParseMagnitude(t[1..])
    else ParseMagnitude(t)
  }

  /** The longest run of digits after an optional "0x"/"0X" prefix. */
  function ParseMagnitude(u: string): (n: Option<nat>)
  {
    if |u| >= 2 && u[0] == '0' && (u[1] == 'x' || u[1] == 'X') then
      var z := RadixPrefix(u[2..], 16);
      if z == [] then None else Some(RadixValue(z, 16))
    else
      var z := RadixPrefix(u, 10);
      if z == [] then None else Some(RadixValue(z, 10))
  }

  function Pow10(n: nat): (p: nat)
    ensures p >= 1
  {
    if n == 0 then 1 else 10 * Pow10(n - 1)
  }

  /** Appending digits shifts the value of the front part by a power of ten. */
  lemma {:induction false} DecimalValueAppend(a: string, b: string)
    requires AllDigits(a) && AllDigits(b)
    ensures AllDigits(a + b)
    ensures DecimalValue(a + b) == DecimalValue(a) * Pow10(|b|) + DecimalValue(b)
  {
    assert AllDigits(a + b) by {
      forall k | 0 <= k < |a + b| ensures IsDigit((a + b)[k]) {
        if k < |a| { assert (a + b)[k] == a[k]; } else { assert (a + b)[k] == b[k - |a|]; }
      }
    }
    if b == [] {
      assert a + b == a;
    } else {
      var b' := b[..|b| - 1];
      assert (a + b)[..|a + b| - 1] == a + b';
      assert AllDigits(b');
      DecimalValueAppend(a, b');
    }
  }

  /** The decimal digit run at the front of `d + rest` is exactly `d`. */
  lemma {:induction false} DigitPrefixOf(d: string, rest: string)
    requires AllDigits(d)
    requires rest == [] || !IsDigit(rest[0])
    ensures RadixPrefix(d + rest, 10) == d
  {
    var v := d + rest;
    if d == [] {
      assert v == rest;
      assert rest != [] ==> !IsRadixDigit(rest[0], 10);
    } else {
      assert v[1..] == d[1..] + rest;
      assert [d[0]] + d[1..] == d;
      assert v[0] == d[0] && IsRadixDigit(d[0], 10);
      DigitPrefixOf(d[1..], rest);
    }
  }

  /**
   * `parseInt` reads a leading run of decimal digits and ignores what follows
   * it, unless the run is a lone "0" followed by an "x" (a hexadecimal prefix).
   */
  lemma {:induction false} ParseIntOfDigits(d: string, rest: string)
    requires d != [] && AllDigits(d)
    requires rest == [] || !IsDigit(rest[0])
    requires |d| == 1 && d[0] == '0' ==> rest == [] || (rest[0] != 'x' && rest[0] != 'X')
    ensures ParseInt(d + rest) == Some(DecimalValue(d))
  {
    var v := d + rest;
    assert v[0] == d[0];
    var hex := |v| >= 2 && v[0] == '0' && (v[1] == 'x' || v[1] == 'X');
    if |d| >= 2 {
      assert v[1] == d[1];
    } else if |v| >= 2 {
      assert v[1] == rest[0];
    }
    assert !hex;
    DigitPrefixOf(d, rest);
    ParseIntOfLeadingDigit(v);
  }

  /** A string starting with a digit and without a "0x" prefix parses as a decimal run. */
  lemma {:induction false} ParseIntOfLeadingDigit(v: string)
    requires v != [] && IsDigit(v[0])
    requires !(|v| >= 2 && v[0] == '0' && (v[1] == 'x' || v[1] == 'X'))
    ensures RadixPrefix(v, 10) != []
    ensures ParseInt(v) == Some(RadixValue(RadixPrefix(v, 10), 10))
  {
    var z := RadixPrefix(v, 10);
    assert IsRadixDigit(v[0], 10);
    assert z != [];
    assert ParseMagnitude(v) == Some(RadixValue(z, 10));
    assert ParseSigned(v) == ParseMagnitude(v);
    ParseIntOfNonSpace(v);
  }

  /** `parseInt("")` is NaN. */
  lemma {:induction false} ParseIntOfEmpty()
    ensures ParseInt([]) == None
  {
    assert TrimStart([]) == [];
    assert RadixPrefix([], 10) == [];
    assert ParseMagnitude([]) == None;
  }

  /** With no white space in front, `parseInt` goes straight to the sign. */
  lemma {:induction false} ParseIntOfNonSpace(v: string)
    requires v != [] && !IsSpace(v[0])
    ensures ParseInt(v) == ParseSigned(v)
  {
    assert TrimStart(v) == v;
  }

  /** A whole string of decimal digits parses to its value. */
  lemma {:induction false} ParseIntOfAllDigits(d: string)
    requires d != [] && AllDigits(d)
    ensures ParseInt(d) == Some(DecimalValue(d))
  {
    assert d + [] == d;
    ParseIntOfDigits(d, []);
  }

  /** `parseInt` ignores leading white space. */
  lemma {:induction false} ParseIntSkipsSpace(w: string, s: string)
    requires forall k :: 0 <= k < |w| ==> IsSpace(w[k])
    ensures ParseInt(w + s) == ParseInt(s)
  {
    TrimStartSkipsSpace(w, s);
  }

  lemma {:induction false} TrimStartSkipsSpace(w: string, s: string)
    requires forall k :: 0 <= k < |w| ==> IsSpace(w[k])
    ensures TrimStart(w + s) == TrimStart(s)
  {
    if w != [] {
      assert (w + s)[0] == w[0];
      assert (w + s)[1..] == w[1..] + s;
      TrimStartSkipsSpace(w[1..], s);
    } else {
      assert w + s == s;
    }
  }
}
