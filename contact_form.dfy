/**
 * `validateForm`: the contact form's submit handler. It checks the required
 * fields, the e-mail pattern, the phone pattern and the e-mail confirmation,
 * in that order, stopping at the first failure with an alert; when all pass it
 * shows a summary in a confirm dialog and, if the visitor accepts, navigates to
 * a `mailto:` URI (RFC 6068) that carries the subject and the message.
 *
 * The alerts, the dialog and the navigation become the returned `Outcome`;
 * the visitor's answer to the dialog is the parameter `confirmed`.
 */
module ContactForm {
  import opened Wrappers
  import opened JsText
  import opened UriComponent

  /** The values of the form's fields at submit time. */
  datatype ContactDetails = ContactDetails(
    firstName: string,
    lastName: string,
    email: string,
    confirmEmail: string,
    phone: string,
    contactPreference: string,
    subject: string,
    message: string)

  datatype Rejection = MissingField | InvalidEmail | InvalidPhone | EmailMismatch

  datatype Outcome =
    | Rejected(reason: Rejection)                 // an alert, nothing else happens
    | Declined(prompt: string)                    // the summary was shown and cancelled
    | OpenMailClient(prompt: string, href: string) // the summary was accepted: navigate to href

  const Recipient: string := "darussalammasjiddarlaston@gmail.com"

  /** The text of the alert shown for each failed check. */
  function AlertText(r: Rejection): string {
    match r
    case MissingField => "Please fill in all required fields."
    case InvalidEmail => "Please enter a valid email address"
    case InvalidPhone => "Please enter a valid phone number"
    case EmailMismatch => "Emails do not match. Please confirm your email."
  }

  /** Every field but the contact preference must be non-empty. */
  predicate RequiredFilled(f: ContactDetails) {
    && f.firstName != [] && f.lastName != [] && f.email != [] && f.confirmEmail != []
    && f.phone != [] && f.subject != [] && f.message != []
  }

  /* ---------------- the e-mail pattern /\S+@\S+\.\S+/ ---------------- */

  /**
   * The unanchored pattern matches the slice s[i..j] with its "@" at p and its
   * "." at q: one or more non-space characters, "@", one or more non-space
   * characters, ".", one or more non-space characters.
   */
  ghost predicate SliceMatches(s: string, i: int, p: int, q: int, j: int) {
    && 0 <= i < p && p + 1 < q && q + 1 < j <= |s|
    && s[p] == '@' && s[q] == '.'
    && (forall m :: i <= m < j ==> !IsSpace(s[m]))
  }

  /** A match with its "@" at p and its "." at q, cut down to one character on each side. */
  predicate MatchAt(s: string, p: int, q: int) {
    && 0 < p && p + 1 < q && q + 1 < |s|
    && s[p] == '@' && s[q] == '.'
    && !IsSpace(s[p - 1]) && !IsSpace(s[q + 1])
    && (forall m :: p < m < q ==> !IsSpace(s[m]))
  }

  /** Any match can be shortened to the characters next to its "@" and ".", and such a short one is a match. */
  lemma {:induction false} SliceMatchesIffMatchAt(s: string, p: int, q: int)
    ensures (exists i, j :: SliceMatches(s, i, p, q, j)) <==> MatchAt(s, p, q)
  {
    if MatchAt(s, p, q) {
      assert SliceMatches(s, p - 1, p, q, q + 2);
    }
  }

  /** Scanning for a "." that ends a run of non-space characters after the "@" at p. */
  function DotAfter(s: string, p: nat, m: nat): bool
    requires 0 < p < m <= |s|
    decreases |s| - m
  {
    if m == |s| || IsSpace(s[m]) then false
    else if s[m] == '.' && m >= p + 2 && m + 1 < |s| && !IsSpace(s[m + 1]) then true
    else DotAfter(s, p, m + 1)
  }

  function AtFrom(s: string, p: nat): bool
    requires p <= |s|
    decreases |s| - p
  {
    if p == |s| then false
    else (s[p] == '@' && p > 0 && !IsSpace(s[p - 1]) && DotAfter(s, p, p + 1)) || AtFrom(s, p + 1)
  }

  /** `/\S+@\S+\.\S+/.test(s)`. */
  function EmailPatternTest(s: string): bool {
    AtFrom(s, 0)
  }

  lemma {:induction false} DotAfterSound(s: string, p: nat, m: nat)
    requires 0 < p < m <= |s|
    requires s[p] == '@' && !IsSpace(s[p - 1])
    requires forall k :: p < k < m ==> !IsSpace(s[k])
    ensures DotAfter(s, p, m) <==> exists q :: m <= q && MatchAt(s, p, q)
    decreases |s| - m
  {
    if m == |s| {
    } else if IsSpace(s[m]) {
      assert forall q :: m <= q ==> !MatchAt(s, p, q) by {
        forall q | m <= q ensures !MatchAt(s, p, q) {
          if q == m { assert s[q] != '.'; } else { assert p < m < q; }
        }
      }
    } else if s[m] == '.' && m >= p + 2 && m + 1 < |s| && !IsSpace(s[m + 1]) {
      assert MatchAt(s, p, m);
    } else {
      DotAfterSound(s, p, m + 1);
      assert !MatchAt(s, p, m);
      assert forall q :: m <= q && MatchAt(s, p, q) ==> m + 1 <= q;
    }
  }

  lemma {:induction false} AtFromSound(s: string, p: nat)
    requires p <= |s|
    ensures AtFrom(s, p) <==> exists a, q :: p <= a && MatchAt(s, a, q)
    decreases |s| - p
  {
    if p < |s| {
      AtFromSound(s, p + 1);
      if s[p] == '@' && p > 0 && !IsSpace(s[p - 1]) {
        DotAfterSound(s, p, p + 1);
      }
      assert forall a, q :: p <= a && MatchAt(s, a, q) && a != p ==> p + 1 <= a;
      assert forall q :: MatchAt(s, p, q) ==> p + 1 <= q;
    }
  }

  /** The scan answers exactly whether the pattern matches somewhere in `s`. */
  lemma {:induction false} EmailPatternTestSpec(s: string)
    ensures EmailPatternTest(s) <==> exists p, q, i, j :: SliceMatches(s, i, p, q, j)
  {
    AtFromSound(s, 0);
    if EmailPatternTest(s) {
      var p, q :| MatchAt(s, p, q);
      SliceMatchesIffMatchAt(s, p, q);
    }
    if exists p, q, i, j :: SliceMatches(s, i, p, q, j) {
      var p, q, i, j :| SliceMatches(s, i, p, q, j);
      SliceMatchesIffMatchAt(s, p, q);
      assert 0 <= p && MatchAt(s, p, q);
    }
  }

  /* ---------------- the phone pattern /^0\d{10}$/ ---------------- */

  /** `/^0\d{10}$/.test(s)`: a "0" and exactly ten more ASCII digits, nothing else. */
  predicate PhonePatternTest(s: string) {
    |s| == 11 && s[0] == '0' && AllDigits(s[1..])
  }

  /* ---------------- summary and mailto link ---------------- */

  function FullName(f: ContactDetails): string {
    f.firstName + " " + f.lastName
  }

  function Summary(f: ContactDetails): string {
    "To " + Recipient + " \nName: " + FullName(f) + "\nEmail: " + f.email + "\nPhone: " + f.phone
    + "\nContact Preference: " + f.contactPreference + "\nSubject: " + f.subject + "\nMessage: " + f.message
  }

  function ConfirmPrompt(f: ContactDetails): string {
    Summary(f) + "\nPress OK to confirm."
  }

  function MailBody(f: ContactDetails): string {
    f.message + "\nFrom " + FullName(f)
  }

  function MailtoLink(f: ContactDetails): string {
    "mailto:" + Recipient + "?subject=" + EncodeURIComponent(f.subject) + "&body=" + EncodeURIComponent(MailBody(f))
  }

  /**
   * `validateForm()` with the visitor's answer to the confirm dialog. The
   * checks run in order and the first failure decides the outcome; a
   * `mailto:` navigation happens exactly when every check passes and the
   * visitor confirms.
   */
  function ValidateForm(f: ContactDetails, confirmed: bool): (o: Outcome)
    ensures o == Rejected(MissingField) <==> !RequiredFilled(f)
    ensures o == Rejected(InvalidEmail) <==>
      RequiredFilled(f) && !(exists p, q, i, j :: SliceMatches(f.email, i, p, q, j))
    ensures o == Rejected(InvalidPhone) <==>
      RequiredFilled(f) && (exists p, q, i, j :: SliceMatches(f.email, i, p, q, j)) && !PhonePatternTest(f.phone)
    ensures o == Rejected(EmailMismatch) <==>
      RequiredFilled(f) && (exists p, q, i, j :: SliceMatches(f.email, i, p, q, j)) && PhonePatternTest(f.phone)
      && f.email != f.confirmEmail
    ensures !o.Rejected? ==> o.prompt == ConfirmPrompt(f)
    ensures o.OpenMailClient? <==> !o.Rejected? && confirmed
    ensures o.OpenMailClient? ==> o.href == MailtoLink(f)
  {
    EmailPatternTestSpec(f.email);
    if !RequiredFilled(f) then Rejected(MissingField)
    else if !EmailPatternTest(f.email) then Rejected(InvalidEmail)
    else if !PhonePatternTest(f.phone) then Rejected(InvalidPhone)
    else if f.email != f.confirmEmail then Rejected(EmailMismatch)
    else if confirmed then OpenMailClient(ConfirmPrompt(f), MailtoLink(f))
    else Declined(ConfirmPrompt(f))
  }

  /* ---------------- reading the link back (RFC 6068, section 2) ---------------- */

  /** A `mailto:` URI as a mail client reads it: the recipient and the decoded header fields. */
  datatype Mailto = Mailto(to: string, headers: seq<(string, string)>)

  /** The pieces of `s` between the separators `c`. */
  function SplitOn(s: string, c: char): (parts: seq<string>)
    ensures |parts| >= 1
    decreases |s|
  {
    var i := IndexOf(s, c);
    if i < 0 then [s] else [s[..i]] + SplitOn(s[i + 1..], c)
  }

  /** hfield = hfname "=" hfvalue, both percent-decoded. */
  function DecodeHeader(field: string): Option<(string, string)> {
    var i := IndexOf(field, '=');
    var name := if i < 0 then field else field[..i];
    var value := if i < 0 then [] else field[i + 1..];
    match (DecodeURIComponent(name), DecodeURIComponent(value))
    case (Some(n), Some(v)) => Some((n, v))
    case _ => None
  }

  function DecodeHeaders(fields: seq<string>): Option<seq<(string, string)>> {
    if fields == [] then Some([])
    else
      match (DecodeHeader(fields[0]), DecodeHeaders(fields[1..]))
      case (Some(h), Some(hs)) => Some([h] + hs)
      case _ => None
  }

  /** mailtoURI = "mailto:" [ to ] [ "?" hfields ], hfields separated by "&". */
  function ReadMailto(u: string): Option<Mailto> {
    if |u| < 7 || u[..7] != "mailto:" then None
    else
      var rest := u[7..];
      var i := IndexOf(rest, '?');
      if i < 0 then Some(Mailto(rest, []))
      else
        match DecodeHeaders(SplitOn(rest[i + 1..], '&'))
        case None => None
        case Some(hs) => Some(Mailto(rest[..i], hs))
  }

  lemma {:induction false} QuerySafeExcludes(t: string)
    requires QuerySafe(t)
    ensures '&' !in t && '=' !in t && '?' !in t
  {
  }

  predicate AllUnreserved(name: string) {
    forall k :: 0 <= k < |name| ==> IsUnreserved(name[k])
  }

  lemma {:induction false} HeaderNamesUnreserved()
    ensures AllUnreserved("subject") && AllUnreserved("body")
  {
  }

  /** A field "name=" + e, where e decodes to v, reads back as the header (name, v). */
  lemma {:induction false} DecodeEncodedHeader(name: string, e: string, v: string)
    requires AllUnreserved(name) && QuerySafe(e) && DecodeURIComponent(e) == Some(v)
    ensures DecodeHeader(name + "=" + e) == Some((name, v))
    ensures '&' !in name + "=" + e
  {
    var field := name + "=" + e;
    QuerySafeExcludes(e);
    assert '&' !in name && '=' !in name;
    assert field[..|name|] == name;
    IndexOfAt(field, '=', |name|);
    assert field[|name| + 1..] == e;
    UnreservedDecodes(name);
  }

  /** A string of unreserved characters decodes to itself. */
  lemma {:induction false} UnreservedDecodes(name: string)
    requires AllUnreserved(name)
    ensures DecodeURIComponent(name) == Some(name)
  {
    UnreservedEncodesToItself(name);
    EncodeURIComponentRoundTrip(name);
  }

  lemma {:induction false} UnreservedEncodesToItself(name: string)
    requires AllUnreserved(name)
    ensures EncodeURIComponent(name) == name
  {
    if name != [] {
      UnreservedEncodesToItself(name[1..]);
      assert [name[0]] + name[1..] == name;
    }
  }

  /** The recipient ends at the first "?", the header fields follow it. */
  lemma {:induction false} ReadMailtoParts(to: string, q: string)
    requires '?' !in to
    ensures ReadMailto("mailto:" + to + "?" + q) ==
      match DecodeHeaders(SplitOn(q, '&'))
      case None => None
      case Some(hs) => Some(Mailto(to, hs))
  {
    var u := "mailto:" + to + "?" + q;
    assert u[..7] == "mailto:";
    var rest := u[7..];
    assert rest == to + "?" + q;
    assert rest[..|to|] == to;
    IndexOfAt(rest, '?', |to|);
    assert rest[|to| + 1..] == q;
  }

  /** Two fields joined by "&", neither holding an "&", split back into the two. */
  lemma {:induction false} SplitTwoFields(h1: string, h2: string)
    requires '&' !in h1 && '&' !in h2
    ensures SplitOn(h1 + "&" + h2, '&') == [h1, h2]
  {
    var q := h1 + "&" + h2;
    assert q[..|h1|] == h1;
    IndexOfAt(q, '&', |h1|);
    assert q[|h1| + 1..] == h2;
  }

  /** Two fields that decode on their own decode together, in order. */
  lemma {:induction false} DecodeTwoHeaders(h1: string, h2: string, d1: (string, string), d2: (string, string))
    requires DecodeHeader(h1) == Some(d1) && DecodeHeader(h2) == Some(d2)
    ensures DecodeHeaders([h1, h2]) == Some([d1, d2])
  {
    assert DecodeHeaders([]) == Some([]);
    assert [h2][1..] == [];
    assert [h2][0] == h2;
    assert [d2] + [] == [d2];
    assert DecodeHeaders([h2]) == Some([d2]);
    assert [h1, h2][0] == h1 && [h1, h2][1..] == [h2];
    assert [d1] + [d2] == [d1, d2];
  }

  /** Two fields joined by "&" read back as their two headers. */
  lemma {:induction false} TwoFieldsRead(h1: string, h2: string, d1: (string, string), d2: (string, string))
    requires '&' !in h1 && '&' !in h2
    requires DecodeHeader(h1) == Some(d1) && DecodeHeader(h2) == Some(d2)
    ensures DecodeHeaders(SplitOn(h1 + "&" + h2, '&')) == Some([d1, d2])
  {
    SplitTwoFields(h1, h2);
    DecodeTwoHeaders(h1, h2, d1, d2);
  }

  lemma {:induction false} JoinFields(h1: string, n2: string, e2: string)
    ensures h1 + "&" + n2 + "=" + e2 == h1 + "&" + (n2 + "=" + e2)
  {
  }

  /** Two encoded fields "n1=e1&n2=e2" read back as the headers (n1, v1), (n2, v2). */
  lemma {:induction false} EncodedFieldsRead(n1: string, e1: string, v1: string, n2: string, e2: string, v2: string)
    requires AllUnreserved(n1) && QuerySafe(e1) && DecodeURIComponent(e1) == Some(v1)
    requires AllUnreserved(n2) && QuerySafe(e2) && DecodeURIComponent(e2) == Some(v2)
    ensures DecodeHeaders(SplitOn(n1 + "=" + e1 + "&" + n2 + "=" + e2, '&')) ==
      Some([(n1, v1), (n2, v2)])
  {
    var h1 := n1 + "=" + e1;
    var h2 := n2 + "=" + e2;
    JoinFields(h1, n2, e2);
    DecodeEncodedHeader(n1, e1, v1);
    DecodeEncodedHeader(n2, e2, v2);
    TwoFieldsRead(h1, h2, (n1, v1), (n2, v2));
  }

  /** The query "subject=" + es + "&body=" + eb reads back as its two headers. */
  lemma {:induction false} QueryReadsBack(es: string, eb: string, subject: string, body: string)
    requires QuerySafe(es) && DecodeURIComponent(es) == Some(subject)
    requires QuerySafe(eb) && DecodeURIComponent(eb) == Some(body)
    ensures DecodeHeaders(SplitOn("subject=" + es + "&body=" + eb, '&')) ==
      Some([("subject", subject), ("body", body)])
  {
    assert "subject=" + es + "&body=" + eb == "subject" + "=" + es + "&" + "body" + "=" + eb;
    HeaderNamesUnreserved();
    EncodedFieldsRead("subject", es, subject, "body", eb, body);
  }

  lemma {:induction false} RecipientHasNoQuery()
    ensures '?' !in Recipient
  {
  }

  lemma {:induction false} MailtoPrefix(es: string, eb: string)
    ensures "mailto:" + Recipient + "?subject=" + es + "&body=" + eb ==
      "mailto:" + Recipient + "?" + ("subject=" + es + "&body=" + eb)
  {
  }

  lemma {:induction false} ReadMailtoOfEncoded(es: string, eb: string, subject: string, body: string)
    requires QuerySafe(es) && DecodeURIComponent(es) == Some(subject)
    requires QuerySafe(eb) && DecodeURIComponent(eb) == Some(body)
    ensures ReadMailto("mailto:" + Recipient + "?subject=" + es + "&body=" + eb) ==
      Some(Mailto(Recipient, [("subject", subject), ("body", body)]))
  {
    var q := "subject=" + es + "&body=" + eb;
    MailtoPrefix(es, eb);
    RecipientHasNoQuery();
    ReadMailtoParts(Recipient, q);
    QueryReadsBack(es, eb, subject, body);
  }

  /**
   * A mail client reading the link finds the fixed recipient, then exactly two
   * header fields: "subject" with the form's subject and "body" with the
   * message followed by "\nFrom " and the sender's full name, whatever
   * characters those contain.
   */
  lemma {:induction false} MailtoLinkReadsBack(f: ContactDetails)
    ensures ReadMailto(MailtoLink(f)) ==
      Some(Mailto(Recipient, [("subject", f.subject), ("body", MailBody(f))]))
  {
    EncodeURIComponentRoundTrip(f.subject);
    EncodeURIComponentRoundTrip(MailBody(f));
    ReadMailtoOfEncoded(EncodeURIComponent(f.subject), EncodeURIComponent(MailBody(f)), f.subject, MailBody(f));
  }

  /** The worked examples: a mismatched confirmation is refused, an 11-digit number starting with 0 is a phone number. */
  lemma {:induction false} EmailMismatchExample()
    ensures ValidateForm(ContactDetails("A", "B", "a@b.com", "a@b.co", "07123456789", "", "S", "M"), true)
      == Rejected(EmailMismatch)
  {
    var email := "a@b.com";
    assert MatchAt(email, 1, 3);
    SliceMatchesIffMatchAt(email, 1, 3);
    PhoneExamples();
  }

  lemma {:induction false} PhoneExamples()
    ensures PhonePatternTest("07123456789") && !PhonePatternTest("123456")
  {
  }

}
