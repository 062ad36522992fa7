# Verified model of the site script `client/main.js`

This project models the logic of the masjid website's browser script:

- **The donation section's currency field.** `formatNumber` drops every
  non-digit and inserts thousands separators. `formatCurrency` rewrites the
  field as "£" + pounds + an optional fraction, on every key-up and on blur,
  and moves the caret by the change in length.
- **In-page navigation.** A click on a `#id` link scrolls to the target
  section, 70 pixels higher for `donate` and `about-us`. `activateLink`, the
  scroll-spy, picks the current section and highlights the matching navbar
  links.
- **The donation form.** The preset and custom amount buttons, the custom
  amount field, the checkout button and the amount the submit handler would
  send.
- **The contact form's `validateForm`.** Four checks run in order. When they
  all pass, a summary is shown for confirmation and a `mailto:` link is built.

Modules:

| module | file | what it holds |
|---|---|---|
| `Wrappers` | wrappers.dfy | `Option`: an absent element, or JavaScript's `NaN` |
| `Sequences` | sequences.dfy | associativity of concatenation, cited by the proofs |
| `JsText` | js_text.dfy | the JavaScript primitives the script relies on (see below) |
| `CurrencyFormat` | currency_format.dfy | `formatNumber`, `formatCurrency` and the class `CurrencyInput` |
| `ScrollNav` | scroll_nav.dfy | the scroll target, the spy scan (a `while` loop) and the class `Navbar` |
| `Donation` | donation.dfy | the class `DonationForm` and the amounts it reads and submits |
| `UriComponent` | uri_component.dfy | `encodeURIComponent` and the decoding a mail client applies |
| `ContactForm` | contact_form.dfy | `validateForm` as a function from the form's fields and the visitor's answer |

The JavaScript primitives in `JsText` are:

- `\d`, `\D` and `\s`
- `indexOf`
- `replace` with a string pattern, which removes only the first occurrence
- `replace(/\D/g, "")`
- `substring`
- the UTF-16 `length`
- `parseInt` with no radix, following ECMA-262: leading white space, a sign,
  the "0x" prefix, then the longest digit run; `NaN` when there is none

State the script changes in place is modelled as classes:

- `CurrencyInput`: the field's `value` and its selection.
- `Navbar`: the `option-selected` flag of each link.
- `DonationForm`: the buttons' active flags, the custom field's `hidden` and
  `value`, `checkoutButton.disabled` and the closure variable
  `selectedAmount`.

Their methods state the new state in full. The pure parts are functions,
and lemmas prove the properties below. Several quirks of the script are kept
as written and stated as lemmas:

- The fraction also goes through `formatNumber`, so four fractional digits
  show a separator, which the next key-up drops.
- The submit handler removes only the first "," and does not scale the
  custom amount to pence.
- A jump to `donate` or `about-us` leaves the previous section highlighted.
- `NaN` leaves checkout enabled.
- The input event comes before the key-up that regroups the field, so from
  the fifth digit typed on, the listener reads a text with a separator in
  the wrong place ("£1,2345") and takes only the digits before it.

Strings are sequences of Unicode scalar values. Wherever the script measures
a length, the model counts UTF-16 code units. Numbers are unbounded integers;
`scrollY` is a `real`.

## Model

| member | source | states |
|---|---|---|
| JsText.IndexOf | client/main.js:101-102 | the index of the first occurrence of the character, or -1 exactly when it does not occur |
| JsText.RemoveFirst | client/main.js:179 | a string pattern replaces only its first occurrence: without one the string is unchanged; otherwise one character shorter, with the prefix before the first occurrence kept |
| JsText.RemoveFirstAt | client/main.js:192-197 | when the first occurrence is at index i, the result is everything before i followed by everything after it |
| JsText.Take | client/main.js:113 | `substring(0, n)` is the prefix of length min(n, length) |
| JsText.DropFirst | client/main.js:10 | `substring(1)` is everything after the first character, and "" for "" |
| JsText.Digits | client/main.js:91 | `replace(/\D/g, "")` yields only digits and is no longer than its input |
| JsText.DigitsAppend | client/main.js:91 | removing the non-digits distributes over concatenation |
| JsText.Utf16Length | client/main.js:98 | `.length` counts between one and two code units per character, and exactly one when all characters are in the Basic Multilingual Plane |
| JsText.TrimStart | client/main.js:181 | `parseInt` skips exactly the leading white space: the rest starts with no white space and everything dropped is white space |
| JsText.RadixPrefix | client/main.js:181 | the digit run `parseInt` reads is the longest prefix of digits of the radix |
| JsText.ParseIntOfDigits | client/main.js:181 | `parseInt` of a digit run followed by a non-digit is the run's decimal value, unless the run is a lone "0" before an "x" |
| JsText.ParseIntOfLeadingDigit | client/main.js:193-197 | a string starting with a digit and without a "0x" prefix parses to the value of its leading digit run |
| JsText.ParseIntOfEmpty | client/main.js:181 | `parseInt("")` is NaN |
| JsText.ParseIntSkipsSpace | client/main.js:181 | leading white space does not change what `parseInt` reads |
| JsText.DecimalValueAppend | client/main.js:181 | appending digits multiplies the value of the front part by a power of ten and adds the value of the back part |
| CurrencyFormat.GroupingIsThousands | client/main.js:91 | the `\B(?=(\d{3})+(?!\d))` replace inserts its separators exactly where right-to-left grouping in threes does |
| CurrencyFormat.ThousandsShape | client/main.js:91 | a grouped run of n digits has length n + (n - 1) / 3, with a comma exactly at the inner positions a multiple of four from the end: a first group of one to three digits, later groups of three, no leading or trailing comma |
| CurrencyFormat.ThousandsDigits | client/main.js:91 | removing the separators from the grouped run gives back the digits |
| CurrencyFormat.FormatNumberSpec | client/main.js:90-91 | `formatNumber` keeps exactly the input's ASCII digits in order, holds only digits and commas, has the grouped shape, and is "" when there are no digits |
| CurrencyFormat.FormatNumberIdempotent | client/main.js:90-91 | formatting a formatted number again changes nothing |
| CurrencyFormat.FractionTextSpec | client/main.js:104-113 | the fraction has at most two characters, exactly two on blur. It has a comma exactly when 4, 7, 10, … fractional digits were typed, and is then the first digit and ","; otherwise it is the first two digits, padded with zeros on blur |
| CurrencyFormat.FormatWholePounds | client/main.js:115-121 | a field of digits without a "." becomes "£", the digits grouped in threes, and ".00" on blur |
| CurrencyFormat.FormatPoundsAndPence | client/main.js:101-114 | digits, ".", and at most three digits become "£" + grouped pounds + "." + the first two fractional digits, padded with zeros on blur |
| CurrencyFormat.FractionSeparatorCollapses | client/main.js:106-113 | with four fractional digits the field shows their first digit and ","; the next key-up drops the "," and loses the digits typed after it |
| CurrencyFormat.ReformatStable | client/main.js:83-86 | formatting the field's own output again in the same mode (a key-up after a key-up, a blur after a blur) changes nothing, unless the fraction shows a comma |
| CurrencyFormat.FormatValueLength | client/main.js:125 | the UTF-16 length of the formatted text equals its number of characters, since all of them are in the Basic Multilingual Plane |
| CurrencyFormat.CaretAfter | client/main.js:127 | `setSelectionRange` converts the position to an unsigned 32-bit integer and clamps it to the length: an in-range position is kept, a slightly negative one lands at the end |
| CurrencyFormat.Reformatted | client/main.js:93-127 | the new text is the formatted value, and the new caret is the old caret moved by the change in length (UTF-16 length before, length after) as `setSelectionRange` places it |
| CurrencyFormat.CaretFollowsLengthChange | client/main.js:98-99 | with the caret inside the old text, the new caret is the old caret plus the change in length; when the text shrank by more than the caret's position, the caret goes to the end |
| CurrencyFormat.CurrencyInput.FormatCurrency | client/main.js:93-128 | an empty field is left alone (text and selection); otherwise the text becomes the formatted value and both ends of the selection the new caret |
| ScrollNav.GetElementById | client/main.js:11 | the first element with the id, none for "" or when there is no such element |
| ScrollNav.ScrollTarget | client/main.js:10-19 | no scroll exactly when no element has the id; otherwise the target's `offsetTop`, less 70 for `donate` and `about-us` |
| ScrollNav.SpyFrom | client/main.js:34 | scanning down from section i stops at the first reached section, or at 0; every section skipped is not reached |
| ScrollNav.SpyIndex | client/main.js:31-34 | the section picked is the last one whose top is at most `scrollY` + 60, or section 0 (whose top the loop never compares) when none is |
| ScrollNav.SpyIndexUnique | client/main.js:31-34 | those two properties determine the index: any index with them is the one picked |
| ScrollNav.FindCurrentSection | client/main.js:32-34 | the `while (--index && …)` loop stops at the spy's index |
| ScrollNav.Navbar.ActivateLink | client/main.js:30-48 | with no sections the scan reads `sections[-1]` and throws before any link changes; otherwise exactly the links whose href, less its first character, is the current section's id are highlighted, plus link 0 in `cta` and `intro` |
| ScrollNav.OnlyItsLinkSelected | client/main.js:39-46 | with distinct link targets, only the current section's link is highlighted |
| ScrollNav.FirstLinkForCtaAndIntro | client/main.js:40-42 | in the `cta` and `intro` sections, which have no link of their own, only the first link is highlighted |
| ScrollNav.JumpHighlightsTarget | client/main.js:10-19 | a jump to an unadjusted section lands on its top, and the spy picks that section when the next one starts more than 60 pixels lower |
| ScrollNav.JumpToAdjustedHighlightsPrevious | client/main.js:16-17 | a jump to `donate` or `about-us` stops 70 pixels short, more than the spy's 60, so the spy picks the section before it whenever that section starts at least 10 pixels higher |
| ScrollNav.SpyExamples | client/main.js:31-34 | sections at 0, 500 and 1200 scrolled to 560 give the second; at the top, the first |
| Donation.DonationForm.UpdateCheckoutButtonState | client/main.js:186-187 | checkout is disabled exactly when the selected amount is 0, where `NaN` is not 0; nothing else changes |
| Donation.DonationForm.Click | client/main.js:152-176 | only the clicked button is active; the custom field shows only for the custom button and is emptied when hidden; the amount becomes 0 for the custom button, or else the label's amount in pence; checkout is disabled exactly when that amount is 0 |
| Donation.DonationForm.OnInput | client/main.js:178-183 | one input listener: the amount becomes the field's amount in pence (first "£" removed), checkout is disabled exactly when it is 0, the buttons and the field are unchanged |
| Donation.DonationForm.Input | client/main.js:151-184 | typing runs the listener once per donate button, and the result is that of a single run |
| Donation.DonationForm.Submit | client/main.js:189-198 | with the custom button active, the amount is read again from the field with the first "£", "." and "," removed and not scaled; otherwise it is kept; the amount returned is the one the request would carry |
| Donation.EmptyFieldEnablesCheckout | client/main.js:179-181 | an emptied field, or one holding only "£", parses as `NaN`, so checkout ends enabled even though line 180 disables it first |
| Donation.AmountOfPounds | client/main.js:172 | a label "£" + digits is that many pounds, in pence |
| Donation.AmountOfDigits | client/main.js:181 | digits typed without "£" are read as pounds, in pence |
| Donation.BlurredFieldSubmitsTypedAmount | client/main.js:192-197 | after one to six digits are typed and the field is blurred ("£1,234.00"), submit reads 100 times the digits: the digits counted as pounds, in pence |
| Donation.SubmitStopsAtSecondSeparator | client/main.js:192-197 | with seven to nine digits the blurred field has two separators; only the first is removed, so submit reads the digits before the second ("£1,234,567.00" gives 1234) |
| Donation.UnblurredFieldSubmitsPounds | client/main.js:192-197 | "£" + digits, not yet blurred, is 100 times the digits in pence to the input listener but submits the digits themselves |
| Donation.ListenerStopsAtSeparator | client/main.js:179-181 | the input listener reads a field "£" + digits + "," + anything as 100 times the digits before the ",": `parseInt` stops at the separator |
| Donation.TypedDigitReadBeforeRegrouping | client/main.js:178-183 | a digit typed at the end of a field grouped from four to six digits ("£1,234" + "5") is read by the input listener, which runs before the key-up regroups the field, as 100 times the digits before the separator; the key-up then shows all the digits grouped ("£12,345") |
| UriComponent.EncodeURIComponent | client/main.js:290-292 | the encoding holds only unreserved characters and "%", so none of the query delimiters "?", "&", "=" and "#" |
| UriComponent.DecodeFirstOfUtf8 | client/main.js:290-292 | the UTF-8 decoder reads back the character the encoder wrote, and its number of bytes |
| UriComponent.Utf8RoundTrip | client/main.js:290-292 | UTF-8 decoding inverts UTF-8 encoding on every string |
| UriComponent.PercentDecodeOfEncode | client/main.js:290-292 | percent-decoding the encoding gives the string's UTF-8 bytes |
| UriComponent.EncodeURIComponentRoundTrip | client/main.js:290-292 | decoding what `encodeURIComponent` produced gives back the original string, for every string |
| ContactForm.SliceMatchesIffMatchAt | client/main.js:251 | a match of `\S+@\S+\.\S+` exists around a given "@" and "." exactly when the characters next to them qualify |
| ContactForm.DotAfterSound | client/main.js:251 | the scan after an "@" finds a "." exactly when a match with that "@" exists from that point on |
| ContactForm.AtFromSound | client/main.js:251 | the scan from position p answers exactly whether a match has its "@" at p or later |
| ContactForm.EmailPatternTestSpec | client/main.js:250-257 | the e-mail test holds exactly when the unanchored pattern matches some slice of the address |
| ContactForm.ValidateForm | client/main.js:224-298 | the checks run in order (required fields without the contact preference, e-mail pattern, phone `^0\d{10}$`, equal addresses) and each rejection happens exactly when every earlier check passed and it failed; otherwise the summary is shown, and a `mailto:` navigation to the link happens exactly when the visitor confirms |
| ContactForm.DecodeEncodedHeader | client/main.js:290-292 | a field "name=" + an encoded value reads back as the header (name, value) and holds no "&" |
| ContactForm.ReadMailtoOfEncoded | client/main.js:290-292 | a link "mailto:" + recipient + "?subject=" + es + "&body=" + eb reads back as the recipient and the two decoded headers |
| ContactForm.MailtoLinkReadsBack | client/main.js:290-292 | a mail client reading the link (RFC 6068, section 2) finds the fixed recipient and exactly the headers "subject" (the form's subject) and "body" (the message, "\nFrom " and the full name), whatever characters they contain |
| ContactForm.EmailMismatchExample | client/main.js:270-276 | a well-formed address whose confirmation differs is refused with the mismatch alert |
| ContactForm.PhoneExamples | client/main.js:260-267 | "07123456789" is a phone number, "123456" is not |

## Left out

- The checkout request: the axios POST, reading `response.data.url` and the redirect (client/main.js:199-210). This is network I/O in an async handler; only the amount the request would carry is modelled.
- Dialogs, navigation and logging: `alert`, `confirm`, `window.location.href` and `console`. They become values. `ValidateForm` returns an `Outcome`, takes the visitor's answer as `confirmed`, and `AlertText` gives the alert for each rejection.
- Setup: DOM queries, `addEventListener` wiring, the `DOMContentLoaded` initialiser, the missing-element guards (client/main.js:140-149) and `setupCurrencyInputField` (client/main.js:76-87). The elements are the constructor arguments of the classes.
- The mobile menu toggle (client/main.js:57-73): two class flags flipped together.
- `requestAnimationFrame` and the smooth `window.scrollTo` (client/main.js:19, 51-53). `ScrollTarget` is the requested top; the browser's clamping of it to the page is not modelled.
- JavaScript numbers are doubles; the model's are unbounded integers. Very long digit strings, which lose precision in `parseInt`, are therefore not modelled.
- Lone surrogates cannot occur in a Dafny `string`. For them, `encodeURIComponent`'s `URIError` is not modelled.
- Every navbar link is assumed to have an `href`; `getAttribute` returning `null` would throw.
- `Donation.DonationForm`: the custom amount button is assumed to be one of the `.donate-button` elements (index `custom`), and `#donate-input` is the field the click and input handlers use. The key-up and blur formatting of the same field is `CurrencyFormat.CurrencyInput.FormatCurrency`, called separately.
- CurrencyFormat.CaretFollowsLengthChange: assumes the old and new texts are shorter than 2^32 code units. Beyond that, the 32-bit wrap-around places the caret differently; browsers cap string lengths far below it.
- Donation.SubmitStopsAtSecondSeparator: stated for seven to nine digits; amounts of ten or more digits, whose blurred field carries three or more separators, are not covered.
- JsText.DropFirst: drops the first character, where JavaScript's `substring(1)` drops the first UTF-16 code unit. An `href` whose first character lies outside the Basic Multilingual Plane would keep a lone low surrogate in JavaScript; Dafny strings cannot hold one.
