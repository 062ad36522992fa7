/**
 * The currency text field of the donation section: `formatNumber` groups the
 * digits of a string in thousands, and `formatCurrency` rewrites the field's
 * text as "£" + grouped pounds + an optional fraction, on every key-up and on
 * blur, and moves the caret by the change in length.
 */
module CurrencyFormat {
  import opened JsText

  const Pound: char := '\U{A3}'

  /**
   * Where `/\B(?=(\d{3})+(?!\d))/g` matches inside a run of `n` digits: at
   * an inner position `p` (not a word boundary) after which a positive
   * multiple of three digits, and nothing more, remain.
   */
  predicate SeparatorBefore(n: nat, p: nat) {
    0 < p < n && (n - p) % 3 == 0
  }

  /** The replace of that regex by "," over the digit run `d`, from position `i` on. */
  function GroupFrom(d: string, i: nat): string
    requires i <= |d|
    decreases |d| - i
  {
    if i == |d| then []
    else (if SeparatorBefore(|d|, i) then [','] else []) + [d[i]] + GroupFrom(d, i + 1)
  }

  /** `formatNumber`: drop every non-digit, then insert the thousands separators. */
  function FormatNumber(s: string): string {
    GroupFrom(Digits(s), 0)
  }

  /** Thousands grouping as usually stated: split off three digits at a time from the right. */
  function Thousands(d: string): string {
    if |d| <= 3 then d else Thousands(d[..|d| - 3]) + [','] + d[|d| - 3..]
  }

  lemma {:induction false} GroupFromShort(d: string, i: nat)
    requires |d| <= 3 && i <= |d|
    ensures GroupFrom(d, i) == d[i..]
    decreases |d| - i
  {
    if i < |d| {
      GroupFromShort(d, i + 1);
      assert d[i..] == [d[i]] + d[i + 1..];
    }
  }

  /** The last three digits of a run longer than three: a separator, then the digits. */
  lemma {:induction false} GroupFromLastThree(d: string)
    requires |d| > 3
    ensures GroupFrom(d, |d| - 3) == [','] + d[|d| - 3..]
  {
    var n := |d|;
    LastSeparators(n);
    var a, b, c := d[n - 3], d[n - 2], d[n - 1];
    assert GroupFrom(d, n) == [];
    GroupFromStep(d, n - 1, []);
    assert GroupFrom(d, n - 1) == [c];
    GroupFromStep(d, n - 2, []);
    assert GroupFrom(d, n - 2) == [b, c];
    GroupFromStep(d, n - 3, [',']);
    assert GroupFrom(d, n - 3) == [',', a, b, c];
    assert d[n - 3..] == [a, b, c];
    assert [','] + [a, b, c] == [',', a, b, c];
  }

  /** One step of the replacement: the separator before position i, then the digit there. */
  lemma {:induction false} GroupFromStep(d: string, i: nat, sep: string)
    requires i < |d| && sep == (if SeparatorBefore(|d|, i) then [','] else [])
    ensures GroupFrom(d, i) == sep + [d[i]] + GroupFrom(d, i + 1)
  {
  }

  lemma {:induction false} LastSeparators(n: nat)
    requires n > 3
    ensures !SeparatorBefore(n, n - 1) && !SeparatorBefore(n, n - 2) && SeparatorBefore(n, n - 3)
  {
  }

  /** Cutting the last three digits off leaves the separators in front of them unchanged. */
  lemma {:induction false} GroupFromDropLastThree(d: string, i: nat)
    requires |d| > 3 && i <= |d| - 3
    ensures GroupFrom(d, i) == GroupFrom(d[..|d| - 3], i) + [','] + d[|d| - 3..]
    decreases |d| - 3 - i
  {
    var n := |d|;
    var e := d[..n - 3];
    if i == n - 3 {
      GroupFromLastThree(d);
      assert GroupFrom(e, i) == [];
    } else {
      var t := d[n - 3..];
      var sep := if SeparatorBefore(n, i) then [','] else [];
      var x := GroupFrom(e, i + 1);
      Regroup(sep + [d[i]], x, t);
      GroupFromDropLastThree(d, i + 1);
      SameSeparator(n, i);
      calc {
        GroupFrom(d, i);
        sep + [d[i]] + GroupFrom(d, i + 1);
        sep + [d[i]] + (x + [','] + t);
        (sep + [d[i]] + x) + [','] + t;
        { assert e[i] == d[i]; }
        GroupFrom(e, i) + [','] + t;
      }
    }
  }

  lemma {:induction false} SameSeparator(n: nat, i: nat)
    requires i < n - 3
    ensures SeparatorBefore(n, i) == SeparatorBefore(n - 3, i)
  {
    assert (n - i) % 3 == (n - 3 - i) % 3;
  }

  lemma {:induction false} Regroup(a: string, b: string, t: string)
    ensures a + (b + [','] + t) == (a + b) + [','] + t
  {
  }

  /** The regex places its separators exactly where right-to-left grouping in threes does. */
  lemma {:induction false} GroupingIsThousands(d: string)
    ensures GroupFrom(d, 0) == Thousands(d)
    decreases |d|
  {
    if |d| <= 3 {
      GroupFromShort(d, 0);
    } else {
      GroupFromDropLastThree(d, 0);
      GroupingIsThousands(d[..|d| - 3]);
    }
  }

  /** Thousands grouping only adds commas: dropping them gives the digits back. */
  lemma {:induction false} ThousandsDigits(d: string)
    requires AllDigits(d)
    ensures Digits(Thousands(d)) == d
    decreases |d|
  {
    if |d| <= 3 {
      DigitsOfDigits(d);
    } else {
      var e := d[..|d| - 3];
      var t := d[|d| - 3..];
      assert d == e + t;
      assert AllDigits(e) && AllDigits(t);
      ThousandsDigits(e);
      var re := Thousands(e);
      DigitsAppend(re, [',']);
      DigitsAppend(re + [','], t);
      DigitsOfComma();
      DigitsOfDigits(t);
      calc {
        Digits(Thousands(d));
        Digits(re + [','] + t);
        Digits(re + [',']) + Digits(t);
        Digits(re) + Digits([',']) + t;
        { assert e + [] == e; }
        d;
      }
    }
  }

  lemma {:induction false} DigitsOfComma()
    ensures Digits([',']) == []
  {
    DigitsOfNonDigits([',']);
  }

  /** Thousands grouping holds nothing but commas and digits. */
  lemma {:induction false} ThousandsCommasAndDigits(d: string)
    requires AllDigits(d)
    ensures CommasAndDigits(Thousands(d))
    decreases |d|
  {
    if |d| <= 3 {
    } else {
      var e := d[..|d| - 3];
      var t := d[|d| - 3..];
      assert AllDigits(e) && AllDigits(t);
      ThousandsCommasAndDigits(e);
      CommasAndDigitsAppend(Thousands(e), t);
    }
  }


  /** Every character a comma or a digit. */
  predicate CommasAndDigits(r: string) {
    forall k :: 0 <= k < |r| ==> r[k] == ',' || IsDigit(r[k])
  }

  lemma {:induction false} CommasAndDigitsAppend(re: string, t: string)
    requires CommasAndDigits(re) && AllDigits(t)
    ensures CommasAndDigits(re + [','] + t)
  {
    var r := re + [','] + t;
    forall k | 0 <= k < |r| ensures r[k] == ',' || IsDigit(r[k]) {
      if k < |re| {
        assert r[k] == re[k];
      } else if k > |re| {
        assert r[k] == t[k - |re| - 1];
      }
    }
  }

  /** A comma exactly at the inner positions a multiple of four from the end. */
  predicate CommaEveryFourth(r: string) {
    forall k :: 0 <= k < |r| ==> (r[k] == ',' <==> 0 < k && (|r| - k) % 4 == 0)
  }

  lemma {:induction false} CommaEveryFourthAppend(re: string, t: string)
    requires re != [] && CommaEveryFourth(re) && |t| == 3 && AllDigits(t)
    ensures CommaEveryFourth(re + [','] + t)
  {
    var r := re + [','] + t;
    forall k | 0 <= k < |r|
      ensures r[k] == ',' <==> 0 < k && (|r| - k) % 4 == 0
    {
      if k < |re| {
        assert r[k] == re[k];
        ShiftByFour(|re| - k);
      } else if k > |re| {
        assert r[k] == t[k - |re| - 1];
      }
    }
  }

  lemma {:induction false} ShiftByFour(a: int)
    ensures (a + 4) % 4 == a % 4
  {
  }

  /**
   * The shape of a grouped run of n >= 1 digits: its length is n + (n - 1) / 3,
   * and a comma stands exactly at the inner positions that are a multiple of
   * four characters from the end, so the first group has one to three digits,
   * every later group three, and no comma leads or trails.
   */
  lemma {:induction false} ThousandsShape(d: string)
    requires d != [] && AllDigits(d)
    ensures |Thousands(d)| == |d| + (|d| - 1) / 3
    ensures forall k :: 0 <= k < |Thousands(d)| ==>
      (Thousands(d)[k] == ',' <==> 0 < k && (|Thousands(d)| - k) % 4 == 0)
    decreases |d|
  {
    var r := Thousands(d);
    if |d| <= 3 {
    } else {
      var e := d[..|d| - 3];
      var t := d[|d| - 3..];
      assert AllDigits(e) && AllDigits(t);
      ThousandsShape(e);
      var re := Thousands(e);
      assert r == re + [','] + t;
      CommaEveryFourthAppend(re, t);
    }
  }

  /**
   * `formatNumber` keeps exactly the ASCII digits of its input, in order, and
   * groups them in thousands (the shape of `ThousandsShape`); without digits
   * it yields "".
   */
  lemma {:induction false} FormatNumberSpec(s: string)
    ensures Digits(s) == [] ==> FormatNumber(s) == []
    ensures Digits(s) != [] ==> FormatNumber(s) == Thousands(Digits(s))
    ensures Digits(FormatNumber(s)) == Digits(s)
    ensures forall k :: 0 <= k < |FormatNumber(s)| ==> FormatNumber(s)[k] == ',' || IsDigit(FormatNumber(s)[k])
    ensures Digits(s) != [] ==> |FormatNumber(s)| == |Digits(s)| + (|Digits(s)| - 1) / 3
    ensures forall k :: 0 <= k < |FormatNumber(s)| ==>
      (FormatNumber(s)[k] == ',' <==> 0 < k && (|FormatNumber(s)| - k) % 4 == 0)
  {
    GroupingIsThousands(Digits(s));
    ThousandsDigits(Digits(s));
    ThousandsCommasAndDigits(Digits(s));
    if Digits(s) != [] {
      ThousandsShape(Digits(s));
    }
  }

  /** Formatting an already formatted number changes nothing. */
  lemma {:induction false} FormatNumberIdempotent(s: string)
    ensures FormatNumber(FormatNumber(s)) == FormatNumber(s)
  {
    FormatNumberSpec(s);
  }

  /* ---------------- formatCurrency ---------------- */

  /**
   * The fractional text of `formatCurrency`: the part from the first "." on
   * goes through `formatNumber` as well (so the "." and any other non-digit
   * disappear, and a comma can appear), gets "00" appended on blur, and is
   * cut to its first two characters.
   */
  function FractionText(right: string, blur: bool): string {
    Take(FormatNumber(right) + (if blur then "00" else ""), 2)
  }

  /** The text `formatCurrency` writes into a non-empty field holding `v`. */
  function FormatValue(v: string, blur: bool): string {
    var p := IndexOf(v, '.');
    if p >= 0 then [Pound] + FormatNumber(v[..p]) + "." + FractionText(v[p..], blur)
    else [Pound] + FormatNumber(v) + (if blur then ".00" else "")
  }

  /**
   * `setSelectionRange(pos, pos)`: the position is converted to an unsigned
   * 32-bit integer (so a negative one wraps around) and then clamped to the
   * length of the text.
   */
  function CaretAfter(pos: int, len: nat): (c: nat)
    ensures c <= len
    ensures 0 <= pos <= len && pos < 0x1_0000_0000 ==> c == pos
    ensures -0x1_0000_0000 + len < pos < 0 ==> c == len
  {
    var u := pos % 0x1_0000_0000;
    if u > len then len else u
  }

  lemma {:induction false} GroupedLengthMod(n: nat)
    requires n >= 1
    ensures (n - 1 + (n - 1) / 3) % 4 == (n - 1) % 3
  {
    var q, m := (n - 1) / 3, (n - 1) % 3;
    assert n - 1 == 3 * q + m;
    assert n - 1 + (n - 1) / 3 == 4 * q + m;
    FourQPlusM(q, m);
  }

  lemma {:induction false} FourQPlusM(q: nat, m: nat)
    requires m < 4
    ensures (4 * q + m) % 4 == m
  {
  }

  /** The second character of a grouped run of at least two digits is a comma iff the first group has one digit. */
  lemma {:induction false} TwoDigitsCommaFree(fd: string, r: string)
    requires |fd| >= 2 && AllDigits(fd) && r == Thousands(fd)
    ensures r[1] == ',' <==> |fd| % 3 == 1
    ensures r[1] != ',' ==> r[..2] == fd[..2]
  {
    ThousandsShape(fd);
    ThousandsDigits(fd);
    ThousandsCommasAndDigits(fd);
    SecondCharOfGrouped(fd, r);
  }

  lemma {:induction false} SecondCharOfGrouped(fd: string, r: string)
    requires |fd| >= 2 && AllDigits(fd)
    requires |r| == |fd| + (|fd| - 1) / 3
    requires forall k :: 0 <= k < |r| ==> (r[k] == ',' <==> 0 < k && (|r| - k) % 4 == 0)
    requires forall k :: 0 <= k < |r| ==> r[k] == ',' || IsDigit(r[k])
    requires Digits(r) == fd
    ensures r[1] == ',' <==> |fd| % 3 == 1
    ensures r[1] != ',' ==> r[..2] == fd[..2]
  {
    SecondSlotIsComma(|fd|, |r|);
    assert r[1] == ',' <==> (|r| - 1) % 4 == 0;
    if r[1] != ',' {
      assert r[0] != ',';
      LeadingDigitsKept(r);
    }
  }

  /** Position 1 of a grouped run of n >= 2 digits is a multiple of four from the end iff n % 3 == 1. */
  lemma {:induction false} SecondSlotIsComma(n: nat, len: nat)
    requires n >= 2 && len == n + (n - 1) / 3
    ensures (len - 1) % 4 == 0 <==> n % 3 == 1
  {
    var q, m := (n - 1) / 3, (n - 1) % 3;
    assert n - 1 == 3 * q + m;
    GroupedLengthMod(n);
    assert (len - 1) % 4 == m;
    if m < 2 {
      ThreeQPlusM(q, m + 1);
    } else {
      ThreeQPlusM(q + 1, 0);
    }
  }

  lemma {:induction false} ThreeQPlusM(q: nat, m: nat)
    requires m < 3
    ensures (3 * q + m) % 3 == m
  {
  }

  lemma {:induction false} LeadingDigitsKept(r: string)
    requires |r| >= 2 && IsDigit(r[0]) && IsDigit(r[1])
    ensures |Digits(r)| >= 2 && Digits(r)[..2] == r[..2]
  {
    assert r == r[..2] + r[2..];
    DigitsAppend(r[..2], r[2..]);
    DigitsOfDigits(r[..2]);
  }

  /**
   * The fraction has at most two characters, exactly two on blur. It holds a
   * comma exactly when four, seven, ten, ... fractional digits were typed;
   * otherwise it is the first two fractional digits, padded with zeros on blur.
   */
  lemma {:induction false} FractionTextSpec(right: string, blur: bool)
    ensures |FractionText(right, blur)| <= 2
    ensures blur ==> |FractionText(right, blur)| == 2
    ensures ',' in FractionText(right, blur) <==> |Digits(right)| >= 4 && |Digits(right)| % 3 == 1
    ensures ',' !in FractionText(right, blur) ==>
      FractionText(right, blur) == Take(Digits(right) + (if blur then "00" else ""), 2)
    ensures ',' in FractionText(right, blur) ==> FractionText(right, blur) == [Digits(right)[0], ',']
  {
    var fd := Digits(right);
    GroupingIsThousands(fd);
    assert FormatNumber(right) == Thousands(fd);
    if |fd| <= 3 {
      FractionOfShortRun(fd, blur);
    } else {
      FractionOfLongRun(fd, blur);
    }
  }

  lemma {:induction false} FractionOfShortRun(fd: string, blur: bool)
    requires |fd| <= 3 && AllDigits(fd)
    ensures Thousands(fd) == fd
    ensures var f := Take(fd + (if blur then "00" else ""), 2);
      AllDigits(f) && ',' !in f && |f| <= 2 && (blur ==> |f| == 2)
  {
    var g := fd + (if blur then "00" else "");
    assert AllDigits(g);
    var f := Take(g, 2);
    assert forall k :: 0 <= k < |f| ==> f[k] == g[k];
  }

  lemma {:induction false} FractionOfLongRun(fd: string, blur: bool)
    requires |fd| > 3 && AllDigits(fd)
    ensures var f := Take(Thousands(fd) + (if blur then "00" else ""), 2);
      && |f| == 2
      && (',' in f <==> |fd| % 3 == 1)
      && (',' !in f ==> f == Take(fd + (if blur then "00" else ""), 2))
      && (',' in f ==> f == [fd[0], ','])
  {
    var g := Thousands(fd);
    TwoDigitsCommaFree(fd, g);
    ThousandsShape(fd);
    var f := Take(g + (if blur then "00" else ""), 2);
    assert f == g[..2];
    assert g[0] != ',';
    if g[1] == ',' {
      ThousandsDigits(fd);
      ThousandsCommasAndDigits(fd);
      LeadingDigitKept(g);
    }
  }

  lemma {:induction false} LeadingDigitKept(r: string)
    requires |r| >= 1 && IsDigit(r[0])
    ensures |Digits(r)| >= 1 && Digits(r)[0] == r[0]
  {
  }

  lemma {:induction false} InBmpConcat(a: string, b: string)
    requires InBmp(a) && InBmp(b)
    ensures InBmp(a + b)
  {
    forall k | 0 <= k < |a + b| ensures (a + b)[k] as int < 0x10000 {
      if k < |a| { assert (a + b)[k] == a[k]; } else { assert (a + b)[k] == b[k - |a|]; }
    }
  }

  lemma {:induction false} FormatNumberInBmp(s: string)
    ensures InBmp(FormatNumber(s))
  {
    FormatNumberSpec(s);
  }

  /** The formatted text holds only "£", digits, "," and ".", so its UTF-16 length is its length. */
  lemma {:induction false} FormatValueLength(v: string, blur: bool)
    ensures Utf16Length(FormatValue(v, blur)) == |FormatValue(v, blur)|
  {
    var p := IndexOf(v, '.');
    if p >= 0 {
      var l := FormatNumber(v[..p]);
      var g := FormatNumber(v[p..]) + (if blur then "00" else "");
      FormatNumberInBmp(v[..p]);
      FormatNumberInBmp(v[p..]);
      InBmpConcat(FormatNumber(v[p..]), if blur then "00" else "");
      var f := FractionText(v[p..], blur);
      assert f <= g;
      assert InBmp(f) by {
        forall k | 0 <= k < |f| ensures f[k] as int < 0x10000 { assert f[k] == g[k]; }
      }
      InBmpConcat([Pound], l);
      InBmpConcat([Pound] + l, ".");
      InBmpConcat([Pound] + l + ".", f);
    } else {
      FormatNumberInBmp(v);
      InBmpConcat([Pound], FormatNumber(v));
      InBmpConcat([Pound] + FormatNumber(v), if blur then ".00" else "");
    }
  }

  /** Formatting again what `formatNumber` produced, behind any non-digit prefix, gives it back. */
  lemma {:induction false} FormatNumberBehindNonDigit(c: char, s: string)
    requires !IsDigit(c)
    ensures FormatNumber([c] + FormatNumber(s)) == FormatNumber(s)
    ensures '.' !in FormatNumber(s)
  {
    FormatNumberSpec(s);
    DigitsAppend([c], FormatNumber(s));
    assert Digits([c]) == [];
    assert [] + Digits(FormatNumber(s)) == Digits(s);
    assert forall k :: 0 <= k < |FormatNumber(s)| ==> FormatNumber(s)[k] != '.';
  }

  /** A fraction of at most two digits is reproduced by formatting it again. */
  lemma {:induction false} FractionTextOfDigits(f: string, blur: bool)
    requires |f| <= 2 && AllDigits(f)
    requires blur ==> |f| == 2
    ensures FractionText("." + f, blur) == f
  {
    DigitsAppend(".", f);
    DigitsOfDigits(f);
    assert Digits(".") == [];
    assert Digits("." + f) == f;
    GroupFromShort(f, 0);
    assert FormatNumber("." + f) == f;
    if blur {
      assert (f + "00")[..2] == f;
    }
  }

  /**
   * The field is formatted again on every key-up, so formatting must be
   * stable on its own output: reformatting changes nothing unless the
   * fraction shows the comma of `FractionTextSpec`.
   */
  lemma {:induction false} ReformatStable(v: string, blur: bool)
    requires IndexOf(v, '.') >= 0 ==> ',' !in FractionText(v[IndexOf(v, '.')..], blur)
    ensures FormatValue(FormatValue(v, blur), blur) == FormatValue(v, blur)
  {
    var p := IndexOf(v, '.');
    if p >= 0 {
      var l := FormatNumber(v[..p]);
      var f := FractionText(v[p..], blur);
      FractionTextSpec(v[p..], blur);
      assert AllDigits(f);
      FractionTextOfDigits(f, blur);
      calc {
        FormatValue(v, blur);
        [Pound] + l + "." + f;
        ([Pound] + l) + ("." + f);
      }
      ReformatPoundDot(v[..p], f, blur);
    } else if blur {
      FractionTextOfDigits("00", true);
      calc {
        FormatValue(v, blur);
        [Pound] + FormatNumber(v) + ".00";
        ([Pound] + FormatNumber(v)) + ("." + "00");
      }
      ReformatPoundDot(v, "00", true);
    } else {
      ReformatNoDot(v);
    }
  }

  lemma {:induction false} ReformatNoDot(v: string)
    requires '.' !in v
    ensures FormatValue(FormatValue(v, false), false) == FormatValue(v, false)
  {
    var l := FormatNumber(v);
    FormatNumberBehindNonDigit(Pound, v);
    var r := [Pound] + l;
    assert FormatValue(v, false) == r;
    assert '.' !in r;
    assert FormatValue(r, false) == [Pound] + FormatNumber(r);
  }

  /** Reformatting "£" + formatNumber(x) + "." + f, where f survives being formatted again. */
  lemma {:induction false} ReformatPoundDot(x: string, f: string, blur: bool)
    requires FractionText("." + f, blur) == f
    ensures FormatValue(([Pound] + FormatNumber(x)) + ("." + f), blur) == ([Pound] + FormatNumber(x)) + ("." + f)
  {
    var l := FormatNumber(x);
    var r := ([Pound] + l) + ("." + f);
    FormatNumberBehindNonDigit(Pound, x);
    assert r[..1 + |l|] == [Pound] + l;
    assert r[1 + |l|..] == "." + f;
    assert '.' !in r[..1 + |l|];
    IndexOfAt(r, '.', 1 + |l|);
    var p := 1 + |l|;
    calc {
      FormatValue(r, blur);
      [Pound] + FormatNumber(r[..p]) + "." + FractionText(r[p..], blur);
      [Pound] + FormatNumber([Pound] + l) + "." + FractionText("." + f, blur);
      [Pound] + l + "." + f;
    }
  }

  /** A field of digits without a point: "£", the digits grouped in threes, and ".00" on blur. */
  lemma {:induction false} FormatWholePounds(d: string, blur: bool)
    requires AllDigits(d)
    ensures FormatValue(d, blur) == [Pound] + Thousands(d) + (if blur then ".00" else "")
  {
    assert '.' !in d;
    DigitsOfDigits(d);
    GroupingIsThousands(d);
  }

  /** At most three fractional digits are kept as typed, cut to two and padded on blur. */
  lemma {:induction false} FractionOfFewDigits(f: string, blur: bool)
    requires AllDigits(f) && |f| <= 3
    ensures FractionText("." + f, blur) == Take(f + (if blur then "00" else ""), 2)
  {
    FractionOfDot(f);
    GroupingIsThousands(f);
    assert Thousands(f) == f;
  }

  /** Digits, a point and at most three digits: the fraction keeps two, padded with zeros on blur. */
  lemma {:induction false} FormatPoundsAndPence(l: string, f: string, blur: bool)
    requires AllDigits(l) && AllDigits(f) && |f| <= 3
    ensures FormatValue(l + "." + f, blur) ==
      [Pound] + Thousands(l) + "." + Take(f + (if blur then "00" else ""), 2)
  {
    var v := l + "." + f;
    assert v[..|l|] == l && v[|l|] == '.' && '.' !in l;
    assert v[|l|..] == "." + f;
    DigitsOfDigits(l);
    GroupingIsThousands(l);
    FractionOfFewDigits(f, blur);
    IndexOfAt(v, '.', |l|);
  }

  /** The digits of "." + f are those of f. */
  lemma {:induction false} FractionOfDot(f: string)
    requires AllDigits(f)
    ensures Digits("." + f) == f
  {
    DigitsAppend(".", f);
    DigitsOfNonDigits(".");
    DigitsOfDigits(f);
  }

  /**
   * Four fractional digits are grouped like an integer part, so the fraction
   * shows its first digit and a separator; the next key-up drops the
   * separator and the digits after it are lost.
   */
  lemma {:induction false} FractionSeparatorCollapses(f: string)
    requires |f| == 4 && AllDigits(f)
    ensures FormatValue("." + f, false) == [Pound] + "." + [f[0], ',']
    ensures FormatValue([Pound] + "." + [f[0], ','], false) == [Pound] + "." + [f[0]]
  {
    FourFractionDigits(f);
    FractionBehindSeparator(f[0]);
  }

  lemma {:induction false} FourFractionDigits(f: string)
    requires |f| == 4 && AllDigits(f)
    ensures FormatValue("." + f, false) == [Pound] + "." + [f[0], ',']
  {
    var v := "." + f;
    IndexOfAt(v, '.', 0);
    assert v[..0] == [] && v[0..] == v;
    DigitsOfNonDigits([]);
    GroupFromShort([], 0);
    FractionOfDot(f);
    FractionTextSpec(v, false);
  }

  lemma {:induction false} FractionBehindSeparator(c: char)
    requires IsDigit(c)
    ensures FormatValue([Pound] + "." + [c, ','], false) == [Pound] + "." + [c]
  {
    var w := [Pound] + "." + [c, ','];
    var r := ['.', c, ','];
    assert w[1] == '.' && w[..1] == [Pound] && w[1..] == r;
    DigitsOfSeparatedDigit(c);
    GroupFromShort([c], 0);
    assert FractionText(r, false) == [c];
    DigitsOfNonDigits([Pound]);
    GroupFromShort([], 0);
    assert FormatNumber([Pound]) == [];
    IndexOfAt(w, '.', 1);
  }

  /** The digits of "." + c + "," are c alone. */
  lemma {:induction false} DigitsOfSeparatedDigit(c: char)
    requires IsDigit(c)
    ensures Digits(['.', c, ',']) == [c]
  {
    var r := ['.', c, ','];
    assert r[1..] == [c, ','] && [c, ','][1..] == [','] && [','][1..] == [];
    assert Digits([',']) == [];
    assert Digits([c, ',']) == [c];
  }

  /**
   * The new text and caret of a non-empty field holding `v` with the caret
   * at `caret`: the text is `FormatValue` of it and the caret moves by the
   * change in length, in UTF-16 code units.
   */
  function Reformatted(v: string, caret: nat, blur: bool): (field: (string, nat))
    ensures field.0 == FormatValue(v, blur)
    ensures field.1 == CaretAfter(|field.0| - Utf16Length(v) + caret, |field.0|)
  {
    var text := FormatValue(v, blur);
    FormatValueLength(v, blur);
    (text, CaretAfter(Utf16Length(text) - Utf16Length(v) + caret, Utf16Length(text)))
  }

  /**
   * With the caret inside the old text, the new caret is the old one moved by
   * the change in length; when the text shrank by more than the caret's
   * position, the negative position wraps around and the caret lands at the end.
   */
  lemma {:induction false} CaretFollowsLengthChange(v: string, caret: nat, blur: bool)
    requires caret <= Utf16Length(v) < 0x1_0000_0000 && |FormatValue(v, blur)| < 0x1_0000_0000
    ensures var (text, c) := Reformatted(v, caret, blur);
      Utf16Length(v) <= |text| + caret ==> c == caret + |text| - Utf16Length(v)
    ensures var (text, c) := Reformatted(v, caret, blur);
      |text| + caret < Utf16Length(v) ==> c == |text|
  {
    var field := Reformatted(v, caret, blur);
    var len := |field.0|;
    var pos := len - Utf16Length(v) + caret;
    assert field.1 == CaretAfter(pos, len);
    assert pos <= len < 0x1_0000_0000 && -0x1_0000_0000 + len < pos;
  }

  /** The `input[data-type='currency']` field: its text and its (collapsed) selection. */
  class CurrencyInput {
    var value: string
    var selectionStart: nat
    var selectionEnd: nat

    constructor (text: string, caret: nat)
      ensures value == text && selectionStart == caret && selectionEnd == caret
    {
      value := text;
      selectionStart, selectionEnd := caret, caret;
    }

    /**
     * `formatCurrency(input, blur)`, run on every key-up (`blur` false) and
     * when the field loses focus (`blur` true). An empty field is left alone;
     * otherwise the text is replaced by `FormatValue` of it and the caret is
     * moved by the change in length (in UTF-16 code units).
     */
    method FormatCurrency(blur: bool)
      modifies this
      ensures old(value) == [] ==>
        value == old(value) && selectionStart == old(selectionStart) && selectionEnd == old(selectionEnd)
      ensures old(value) != [] ==>
        (value, selectionStart) == Reformatted(old(value), old(selectionStart), blur) && selectionEnd == selectionStart
    {
      if value == [] {
        return;
      }
      var field := Reformatted(value, selectionStart, blur);
      value, selectionStart, selectionEnd := field.0, field.1, field.1;
    }
  }
}
