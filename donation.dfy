/**
 * The donation form: preset amount buttons, the custom amount button with
 * its text field, the checkout button and the amount the form submits.
 * Amounts are in pence; None is the NaN that parseInt yields for text that
 * does not start with a number.
 */
module Donation {
  import opened Wrappers
  import opened JsText
  import opened CurrencyFormat
  import opened Sequences

  /** `n * 100`, with NaN staying NaN. */
  function Times100(n: Option<int>): (r: Option<int>)
    ensures r.None? <==> n.None?
    ensures r.Some? ==> r.value == 100 * n.value
  {
    match n
    case None => None
    case Some(v) => Some(v * 100)
  }

  /**
   * `parseInt(text.replace("£", "")) * 100`: the amount, in pence, of a preset
   * button's label and of the custom field while it is being typed into.
   */
  function AmountInPence(text: string): Option<int> {
    Times100(ParseInt(RemoveFirst(text, Pound)))
  }

  /**
   * The amount the submit handler reads from the custom field: the first "£",
   * the first "." and the first "," are removed and the rest parsed, with no
   * scaling to pence.
   */
  function SubmitAmount(value: string): Option<int> {
    ParseInt(RemoveFirst(RemoveFirst(RemoveFirst(value, Pound), '.'), ','))
  }

  /** The donate buttons, the custom amount field and the checkout button. */
  class DonationForm {
    /** The text of each `.donate-button`, in document order. */
    const labels: seq<string>
    /** Which of the buttons is `#custom-amount`. */
    const custom: nat
    var active: seq<bool>
    var inputHidden: bool
    var inputValue: string
    var checkoutDisabled: bool
    var selectedAmount: Option<int>

    predicate Valid()
      reads this
    {
      custom < |labels| && |active| == |labels|
    }

    /** The form as the page loads it, with the selected amount starting at 0. */
    constructor(labels: seq<string>, custom: nat, active: seq<bool>, inputHidden: bool,
                inputValue: string, checkoutDisabled: bool)
      requires custom < |labels| && |active| == |labels|
      ensures Valid()
      ensures this.labels == labels && this.custom == custom && this.active == active
      ensures this.inputHidden == inputHidden && this.inputValue == inputValue
      ensures this.checkoutDisabled == checkoutDisabled && selectedAmount == Some(0)
    {
      this.labels := labels;
      this.custom := custom;
      this.active := active;
      this.inputHidden := inputHidden;
      this.inputValue := inputValue;
      this.checkoutDisabled := checkoutDisabled;
      selectedAmount := Some(0);
    }

    /** Checkout is disabled exactly when the selected amount is 0 (NaN enables it). */
    method UpdateCheckoutButtonState()
      modifies this
      ensures checkoutDisabled == (selectedAmount == Some(0))
      ensures active == old(active) && inputHidden == old(inputHidden) && inputValue == old(inputValue)
      ensures selectedAmount == old(selectedAmount)
    {
      checkoutDisabled := selectedAmount == Some(0);
    }

    /**
     * A click on button k: only k is active, the custom field shows only for
     * the custom button and is emptied when hidden, and the amount becomes 0
     * for the custom button or the label's amount in pence.
     */
    method Click(k: nat)
      requires Valid() && k < |labels|
      modifies this
      ensures Valid()
      ensures forall j :: 0 <= j < |labels| ==> (active[j] <==> j == k)
      ensures inputHidden == (k != custom)
      ensures inputValue == if k != custom then "" else old(inputValue)
      ensures selectedAmount == if k == custom then Some(0) else AmountInPence(labels[k])
      ensures checkoutDisabled == (selectedAmount == Some(0))
    {
      checkoutDisabled := false;
      var j := 0;
      while j < |active|
        invariant 0 <= j <= |active| == |labels|
        invariant forall i :: 0 <= i < j ==> !active[i]
        invariant inputValue == old(inputValue)
      {
        active := active[j := false];
        j := j + 1;
      }
      active := active[k := true];
      inputHidden := k != custom;
      inputValue := if inputHidden then "" else inputValue;
      selectedAmount := if k == custom then Some(0) else AmountInPence(labels[k]);
      UpdateCheckoutButtonState();
    }

    /** One of the `input` listeners on the custom field. */
    method OnInput()
      modifies this
      ensures selectedAmount == AmountInPence(inputValue)
      ensures checkoutDisabled == (selectedAmount == Some(0))
      ensures active == old(active) && inputHidden == old(inputHidden) && inputValue == old(inputValue)
    {
      var text := inputValue;
      var value := RemoveFirst(text, Pound);
      checkoutDisabled := value == "";
      selectedAmount := Times100(ParseInt(value));
      assert selectedAmount == AmountInPence(text);
      UpdateCheckoutButtonState();
    }

    /**
     * The user changes the custom field to `text`: one `input` listener was
     * registered per donate button, and all of them run; the result is that
     * of a single run.
     */
    method Input(text: string)
      requires Valid()
      modifies this
      ensures Valid()
      ensures inputValue == text
      ensures selectedAmount == AmountInPence(text)
      ensures checkoutDisabled == (selectedAmount == Some(0))
      ensures active == old(active) && inputHidden == old(inputHidden)
    {
      inputValue := text;
      var n := 0;
      while n < |labels|
        invariant Valid() && inputValue == text
        invariant active == old(active) && inputHidden == old(inputHidden)
        invariant n > 0 ==> selectedAmount == AmountInPence(text)
        invariant n > 0 ==> checkoutDisabled == (selectedAmount == Some(0))
      {
        OnInput();
        n := n + 1;
      }
    }

    /**
     * The submit handler: with the custom button active the amount is read
     * again from the field by SubmitAmount; the amount that would be posted
     * is returned.
     */
    method Submit() returns (amount: Option<int>)
      requires Valid()
      modifies this
      ensures Valid()
      ensures selectedAmount == if active[custom] then SubmitAmount(inputValue) else old(selectedAmount)
      ensures amount == selectedAmount
      ensures active == old(active) && inputHidden == old(inputHidden) && inputValue == old(inputValue)
      ensures checkoutDisabled == old(checkoutDisabled)
    {
      if active[custom] {
        selectedAmount := SubmitAmount(inputValue);
      }
      amount := selectedAmount;
    }
  }

  /** A field emptied, or holding only "£", parses as NaN, and NaN leaves checkout enabled. */
  lemma {:induction false} EmptyFieldEnablesCheckout()
    ensures AmountInPence("") == None && AmountInPence([Pound]) == None
  {
    assert RemoveFirst([], Pound) == [];
    DropLeadingPound([]);
    assert [Pound] + [] == [Pound];
    ParseIntOfEmpty();
  }

  /** The leading "£" is the one `replace("£", "")` removes. */
  lemma {:induction false} DropLeadingPound(s: string)
    ensures RemoveFirst([Pound] + s, Pound) == s
  {
    var v := [Pound] + s;
    assert Pound !in v[..0];
    RemoveFirstAt(v, Pound, 0);
    assert v[1..] == s;
  }

  /** Removing the first c from t + [c] + u, where t holds no c, leaves t + u. */
  lemma {:induction false} DropFirstOccurrence(t: string, c: char, u: string)
    requires c !in t
    ensures RemoveFirst(t + [c] + u, c) == t + u
  {
    var v := t + [c] + u;
    assert v[..|t|] == t && v[|t|] == c;
    RemoveFirstAt(v, c, |t|);
    assert v[|t| + 1..] == u;
  }

  /** A run of digits typed without "£" is read as pounds. */
  lemma {:induction false} AmountOfDigits(d: string)
    requires d != [] && AllDigits(d)
    ensures AmountInPence(d) == Some(100 * DecimalValue(d))
  {
    assert Pound !in d;
    ParseIntOfAllDigits(d);
  }

  /** A label or field "£" followed by digits is that many pounds, in pence. */
  lemma {:induction false} AmountOfPounds(d: string)
    requires d != [] && AllDigits(d)
    ensures AmountInPence([Pound] + d) == Some(100 * DecimalValue(d))
  {
    DropLeadingPound(d);
    ParseIntOfAllDigits(d);
  }

  /** The digits of d followed by "00" are d pounds counted in pence. */
  lemma {:induction false} ParsePoundsAsPence(d: string)
    requires d != [] && AllDigits(d)
    ensures ParseInt(d + "00") == Some(100 * DecimalValue(d))
  {
    var x := d + "00";
    TwoZeros();
    DecimalValueAppend(d, "00");
    assert DecimalValue(x) == 100 * DecimalValue(d);
    ParseIntOfAllDigits(x);
  }

  lemma {:induction false} TwoZeros()
    ensures AllDigits("00") && DecimalValue("00") == 0 && Pow10(2) == 100
  {
    assert "00"[..1] == "0";
    assert DecimalValue("0") == 0;
  }

  /** Grouping at most six digits puts in at most one separator. */
  lemma {:induction false} ShortGrouping(d: string)
    requires 4 <= |d| <= 6
    ensures Thousands(d) == d[..|d| - 3] + [','] + d[|d| - 3..]
  {
    assert Thousands(d[..|d| - 3]) == d[..|d| - 3];
  }

  /** Removing the one separator from a grouped run of four to six digits restores the run. */
  lemma {:induction false} DropSeparator(d: string)
    requires 1 <= |d| <= 6 && AllDigits(d)
    ensures RemoveFirst(Thousands(d) + "00", ',') == d + "00"
  {
    if |d| <= 3 {
      assert Thousands(d) == d;
      assert ',' !in d + "00";
    } else {
      var h, t := d[..|d| - 3], d[|d| - 3..];
      var u := t + "00";
      assert d == h + t;
      Associative(h, t, "00");
      Associative(h + [','], t, "00");
      assert ',' !in h;
      ShortGrouping(d);
      DropFirstOccurrence(h, ',', u);
    }
  }

  /** Removing the "." of "£" + t + ".00", where t holds no ".", leaves t + "00". */
  lemma {:induction false} DropPoundAndDot(t: string)
    requires '.' !in t
    ensures RemoveFirst(RemoveFirst([Pound] + t + ".00", Pound), '.') == t + "00"
  {
    assert [Pound] + t + ".00" == [Pound] + (t + ".00");
    DropLeadingPound(t + ".00");
    assert t + ".00" == t + ['.'] + "00";
    DropFirstOccurrence(t, '.', "00");
  }

  /** Thousands grouping of at most six digits holds no ".". */
  lemma {:induction false} ThousandsNoDot(d: string)
    requires |d| <= 6 && AllDigits(d)
    ensures '.' !in Thousands(d)
  {
    if |d| > 3 {
      ShortGrouping(d);
    }
  }

  /**
   * Up to six digits, once the field is left (and formatted as "£1,234.00"),
   * submit 100 times the digits: the same amount in pence as the digits
   * themselves read as pounds.
   */
  lemma {:induction false} BlurredFieldSubmitsTypedAmount(d: string)
    requires 1 <= |d| <= 6 && AllDigits(d)
    ensures SubmitAmount(FormatValue(d, true)) == AmountInPence(d)
    ensures AmountInPence(d) == Some(100 * DecimalValue(d))
  {
    var t := Thousands(d);
    FormatWholePounds(d, true);
    ThousandsNoDot(d);
    DropPoundAndDot(t);
    DropSeparator(d);
    ParsePoundsAsPence(d);
    AmountOfDigits(d);
  }

  /** Grouping seven to nine digits puts in exactly two separators. */
  lemma {:induction false} MidGrouping(d: string)
    requires 7 <= |d| <= 9
    ensures Thousands(d) == d[..|d| - 6] + [','] + d[|d| - 6..|d| - 3] + [','] + d[|d| - 3..]
  {
    var e := d[..|d| - 3];
    assert Thousands(e[..|e| - 3]) == e[..|e| - 3];
    assert e[..|e| - 3] == d[..|d| - 6] && e[|e| - 3..] == d[|d| - 6..|d| - 3];
  }

  /** Only the first of two separators is removed before parsing. */
  lemma {:induction false} SubmitOfTwoSeparators(h: string, m: string, l: string)
    requires h != [] && AllDigits(h) && AllDigits(m) && AllDigits(l)
    ensures SubmitAmount([Pound] + (h + [','] + m + [','] + l) + ".00") == Some(DecimalValue(h + m))
  {
    var u := m + [','] + l;
    var t := h + [','] + m + [','] + l;
    var w := [','] + l + "00";
    assert t == h + [','] + u;
    Associative(h + [','], u, "00");
    assert u + "00" == m + w;
    Associative(h, m, w);
    assert '.' !in h && '.' !in m && '.' !in l;
    assert '.' !in t && ',' !in h;
    var x := [Pound] + t + ".00";
    DropPoundAndDot(t);
    DropFirstOccurrence(h, ',', u + "00");
    DecimalValueAppend(h, m);
    ParseIntOfDigits(h + m, w);
  }

  /**
   * Seven to nine digits carry two separators once the field is left, and
   * only the first is removed: "£1,234,567.00" submits 1234, the digits
   * before the second separator, where the digits stand for 123456700 pence.
   */
  lemma {:induction false} SubmitStopsAtSecondSeparator(d: string)
    requires 7 <= |d| <= 9 && AllDigits(d)
    ensures AmountInPence(d) == Some(100 * DecimalValue(d))
    ensures SubmitAmount(FormatValue(d, true)) == Some(DecimalValue(d[..|d| - 3]))
  {
    var h, m, l := d[..|d| - 6], d[|d| - 6..|d| - 3], d[|d| - 3..];
    assert h + m == d[..|d| - 3];
    assert AllDigits(h) && AllDigits(m) && AllDigits(l);
    MidGrouping(d);
    FormatWholePounds(d, true);
    SubmitOfTwoSeparators(h, m, l);
    AmountOfDigits(d);
  }

  /**
   * A field submitted while still unformatted, or formatted without the
   * blur's ".00", is read as pounds rather than pence: "£12" submits 12, not
   * the 1200 pence that "£" + the digits stands for.
   */
  lemma {:induction false} UnblurredFieldSubmitsPounds(d: string)
    requires d != [] && AllDigits(d)
    ensures AmountInPence([Pound] + d) == Some(100 * DecimalValue(d))
    ensures SubmitAmount([Pound] + d) == Some(DecimalValue(d))
  {
    AmountOfPounds(d);
    DropLeadingPound(d);
    assert '.' !in d && ',' !in d;
    ParseIntOfAllDigits(d);
  }

  /**
   * What the input listener reads from a field with a separator in it:
   * parseInt stops at the ",", so only the digits in front of it count.
   */
  lemma {:induction false} ListenerStopsAtSeparator(h: string, t: string)
    requires h != [] && AllDigits(h)
    ensures AmountInPence([Pound] + h + [','] + t) == Some(100 * DecimalValue(h))
  {
    var r := [','] + t;
    assert [Pound] + h + [','] + t == [Pound] + (h + r);
    DropLeadingPound(h + r);
    ParseIntOfDigits(h, r);
  }

  /**
   * The input event fires before the key-up that regroups the field, so a
   * digit typed at the end of "£1,234" is read from "£1,2345": the listener
   * reads 100 pence, the digits before the separator, while the key-up that
   * follows shows "£12,345".
   */
  lemma {:induction false} TypedDigitReadBeforeRegrouping(d: string, c: char)
    requires 4 <= |d| <= 6 && AllDigits(d) && IsDigit(c)
    ensures AmountInPence(FormatValue(d, false) + [c]) == Some(100 * DecimalValue(d[..|d| - 3]))
    ensures FormatValue(FormatValue(d, false) + [c], false) == [Pound] + Thousands(d + [c])
  {
    var h, l := d[..|d| - 3], d[|d| - 3..];
    var t := l + [c];
    TypedAfterGrouping(d, c);
    ListenerStopsAtSeparator(h, t);
    TypedTextDigits(h, t);
    SplitThenAppend(d, |d| - 3, c);
    FormatWholePoundsOfText([Pound] + h + [','] + t, d + [c]);
  }

  /** A digit typed at the end of a grouped run of four to six digits follows the last group. */
  lemma {:induction false} TypedAfterGrouping(d: string, c: char)
    requires 4 <= |d| <= 6 && AllDigits(d) && IsDigit(c)
    ensures FormatValue(d, false) + [c] == [Pound] + d[..|d| - 3] + [','] + (d[|d| - 3..] + [c])
    ensures AllDigits(d[..|d| - 3]) && AllDigits(d[|d| - 3..] + [c])
    ensures '.' !in [Pound] + d[..|d| - 3] + [','] + (d[|d| - 3..] + [c])
  {
    FormatWholePounds(d, false);
    ShortGrouping(d);
  }

  /** Splitting s at k and appending c to the back part is appending c to s. */
  lemma {:induction false} SplitThenAppend(s: string, k: nat, c: char)
    requires k <= |s|
    ensures s[..k] + (s[k..] + [c]) == s + [c]
  {
    assert s == s[..k] + s[k..];
    Associative(s[..k], s[k..], [c]);
  }

  /** The digits of "£" + h + "," + t are those of h and t. */
  lemma {:induction false} TypedTextDigits(h: string, t: string)
    requires AllDigits(h) && AllDigits(t)
    ensures Digits([Pound] + h + [','] + t) == h + t
  {
    DigitsAppend([Pound] + h + [','], t);
    DigitsAppend([Pound] + h, [',']);
    DigitsAppend([Pound], h);
    DigitsOfNonDigits([Pound]);
    DigitsOfNonDigits([',']);
    DigitsOfDigits(h);
    DigitsOfDigits(t);
  }

  /** A field without "." whose digits are d is regrouped, unblurred, as "£" and d grouped in threes. */
  lemma {:induction false} FormatWholePoundsOfText(x: string, d: string)
    requires '.' !in x && d != [] && Digits(x) == d
    ensures FormatValue(x, false) == [Pound] + Thousands(d)
  {
    FormatNumberSpec(x);
  }
}
