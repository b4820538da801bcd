/**
 * The demo-request form: the field validator `validateDemoForm` with its
 * e-mail pattern, and what one submit event does given how the webhook
 * request ends.
 */
module DemoForm {
  import opened Wrappers
  import opened JsText

  /** The three form fields as the page holds them (untrimmed). */
  datatype Fields = Fields(name: string, email: string, message: string)

  /** The outcome of `validateDemoForm`: the first failing field, or acceptance. */
  datatype Verdict = Ok | NameMissing | EmailInvalid | MessageMissing

  const NameAlert := "Please enter your name"
  const EmailAlert := "Please enter a valid email address"
  const MessageAlert := "Please tell us about your cooperative or organization"

  // ---------------------------------------------------------------------
  // The e-mail pattern /^[^\s@]+@[^\s@]+\.[^\s@]+$/
  // ---------------------------------------------------------------------

  /** The character class [^\s@]. */
  predicate IsAddressChar(c: char)
  {
    !IsWhitespace(c) && c != '@'
  }

  ghost predicate AllAddressChars(s: string)
  {
    forall i :: 0 <= i < |s| ==> IsAddressChar(s[i])
  }

  /** `s` matches the pattern with its literal '@' at index `at` and its
      literal '.' at index `dot`: three non-empty runs of [^\s@] around them. */
  ghost predicate SplitsAsEmail(s: string, at: nat, dot: nat)
  {
    && 0 < at && at + 1 < dot && dot + 1 < |s|
    && s[at] == '@' && s[dot] == '.'
    && AllAddressChars(s[..at]) && AllAddressChars(s[at + 1..dot]) && AllAddressChars(s[dot + 1..])
  }

  /** The whole string matches the anchored pattern (the regular expression
      may choose any '.' after the '@' by backtracking). */
  ghost predicate MatchesEmailPattern(s: string)
  {
    exists at: nat, dot: nat :: SplitsAsEmail(s, at, dot)
  }

  /** The first index of `c` in `s`. */
  function IndexOf(s: string, c: char): (r: nat)
    requires c in s
    ensures r < |s| && s[r] == c && c !in s[..r]
  {
    if s[0] == c then 0 else 1 + IndexOf(s[1..], c)
  }

  /** An index holding `c` with no `c` before it is the one `IndexOf` finds. */
  lemma IndexOfFirst(s: string, c: char, i: nat)
    requires i < |s| && s[i] == c && c !in s[..i]
    ensures IndexOf(s, c) == i
  {
  }

  /** A '.' somewhere other than the first or last position. */
  predicate HasInnerDot(d: string)
  {
    exists k :: 0 < k < |d| - 1 && d[k] == '.'
  }

  /** The pattern stated character by character: no white space, exactly
      one '@', a non-empty part before it, and a '.' strictly inside the
      part after it. */
  predicate IsValidEmail(s: string)
  {
    && NoWhitespace(s)
    && multiset(s)['@'] == 1
    && '@' in s
    && var at := IndexOf(s, '@');
       at > 0 && HasInnerDot(s[at + 1..])
  }

  lemma PatternGivesValid(s: string, at: nat, dot: nat)
    requires SplitsAsEmail(s, at, dot)
    ensures IsValidEmail(s)
  {
    var local, left, right := s[..at], s[at + 1..dot], s[dot + 1..];
    assert s == local + ['@'] + left + ['.'] + right;
    assert s[at + 1..] == left + ['.'] + right;
    assert '@' !in local && '@' !in left && '@' !in right by {
      assert forall i :: 0 <= i < |local| ==> IsAddressChar(local[i]);
      assert forall i :: 0 <= i < |left| ==> IsAddressChar(left[i]);
      assert forall i :: 0 <= i < |right| ==> IsAddressChar(right[i]);
    }
    assert multiset(s)['@'] == 1;
    forall i | 0 <= i < |s| ensures !IsWhitespace(s[i]) {
      if i < at {
        assert s[i] == local[i];
      } else if at < i < dot {
        assert s[i] == left[i - at - 1];
      } else if dot < i {
        assert s[i] == right[i - dot - 1];
      }
    }
    IndexOfFirst(s, '@', at);
    assert s[at + 1..][dot - at - 1] == '.';
  }

  lemma ValidGivesPattern(s: string)
    requires IsValidEmail(s)
    ensures MatchesEmailPattern(s)
  {
    var at := IndexOf(s, '@');
    var d := s[at + 1..];
    var k :| 0 < k < |d| - 1 && d[k] == '.';
    var dot := at + 1 + k;
    assert s == s[..at] + [s[at]] + d;
    assert multiset(d)['@'] == 0;
    forall i | 0 <= i < |s| && i != at ensures IsAddressChar(s[i]) {
      if i < at {
        assert s[..at][i] == s[i];
      } else {
        assert d[i - at - 1] == s[i];
      }
    }
    var local, left, right := s[..at], s[at + 1..dot], s[dot + 1..];
    assert AllAddressChars(local) by {
      forall i | 0 <= i < |local| ensures IsAddressChar(local[i]) { assert local[i] == s[i]; }
    }
    assert AllAddressChars(left) by {
      forall i | 0 <= i < |left| ensures IsAddressChar(left[i]) { assert left[i] == s[at + 1 + i]; }
    }
    assert AllAddressChars(right) by {
      forall i | 0 <= i < |right| ensures IsAddressChar(right[i]) { assert right[i] == s[dot + 1 + i]; }
    }
    assert SplitsAsEmail(s, at, dot);
  }

  /** The character-level test accepts exactly the strings the regular
      expression matches. */
  lemma EmailPatternIffValid(s: string)
    ensures MatchesEmailPattern(s) <==> IsValidEmail(s)
  {
    if MatchesEmailPattern(s) {
      var at: nat, dot: nat :| SplitsAsEmail(s, at, dot);
      PatternGivesValid(s, at, dot);
    }
    if IsValidEmail(s) {
      ValidGivesPattern(s);
    }
  }

  /** A string whose characters are all of [^\s@] except an '@' at `at` and
      a '.' at `dot`, with non-empty runs around them, passes the test. */
  lemma MarkedSplitGivesValid(s: string, at: nat, dot: nat)
    requires 0 < at && at + 1 < dot && dot + 1 < |s|
    requires s[at] == '@' && s[dot] == '.'
    requires forall k :: 0 <= k < |s| && k != at && k != dot ==> IsAddressChar(s[k])
    ensures IsValidEmail(s)
  {
    var local, left, right := s[..at], s[at + 1..dot], s[dot + 1..];
    assert AllAddressChars(local) by {
      forall i | 0 <= i < |local| ensures IsAddressChar(local[i]) { assert local[i] == s[i]; }
    }
    assert AllAddressChars(left) by {
      forall i | 0 <= i < |left| ensures IsAddressChar(left[i]) { assert left[i] == s[at + 1 + i]; }
    }
    assert AllAddressChars(right) by {
      forall i | 0 <= i < |right| ensures IsAddressChar(right[i]) { assert right[i] == s[dot + 1 + i]; }
    }
    PatternGivesValid(s, at, dot);
  }

  /** The company's own address passes the pattern. */
  lemma CompanyAddressAccepted()
    ensures IsValidEmail("info@marketmatchag.com")
  {
    var s := "info@marketmatchag.com";
    assert forall k :: 0 <= k < |s| && k != 4 && k != 18 ==> IsAddressChar(s[k]);
    MarkedSplitGivesValid(s, 4, 18);
  }

  /** No '.' after the '@'. */
  lemma MissingDotRejected()
    ensures !IsValidEmail("a@b")
  {
  }

  /** The '.' right after the '@': the domain's first run is empty. */
  lemma LeadingDotRejected()
    ensures !IsValidEmail("a@.bc")
  {
  }

  /** White space inside the address. */
  lemma InnerSpaceRejected()
    ensures !IsValidEmail("a b@c.d")
  {
  }

  /** A second '@'. */
  lemma SecondAtRejected()
    ensures !IsValidEmail("a@b@c.d")
  {
  }

  /** Addresses the pattern rejects: no dot after the '@', a dot right
      after the '@', white space inside, and a second '@'. */
  lemma MalformedAddressesRejected()
    ensures !IsValidEmail("a@b")
    ensures !IsValidEmail("a@.bc")
    ensures !IsValidEmail("a b@c.d")
    ensures !IsValidEmail("a@b@c.d")
  {
    MissingDotRejected();
    LeadingDotRejected();
    InnerSpaceRejected();
    SecondAtRejected();
  }

  // ---------------------------------------------------------------------
  // validateDemoForm
  // ---------------------------------------------------------------------

  /** Trims each field, then checks name, e-mail and message in that order
      and reports the first failure. */
  function ValidateDemoForm(f: Fields): (v: Verdict)
    ensures v == NameMissing <==> IsBlank(f.name)
    ensures v == EmailInvalid <==> !IsBlank(f.name) && !MatchesEmailPattern(Trim(f.email))
    ensures v == MessageMissing <==>
              !IsBlank(f.name) && MatchesEmailPattern(Trim(f.email)) && IsBlank(f.message)
    ensures v == Ok <==>
              !IsBlank(f.name) && MatchesEmailPattern(Trim(f.email)) && !IsBlank(f.message)
  {
    var name, email, message := Trim(f.name), Trim(f.email), Trim(f.message);
    TrimEmptyIffBlank(f.name);
    TrimEmptyIffBlank(f.message);
    EmailPatternIffValid(email);
    if name == [] then NameMissing
    else if email == [] || !IsValidEmail(email) then EmailInvalid
    else if message == [] then MessageMissing
    else Ok
  }

  /** The blocking alert `validateDemoForm` shows; none when it returns true. */
  function ValidationAlert(v: Verdict): (a: Option<string>)
    ensures a.None? <==> v == Ok
  {
    match v
    case Ok => None
    case NameMissing => Some(NameAlert)
    case EmailInvalid => Some(EmailAlert)
    case MessageMissing => Some(MessageAlert)
  }

  /** The fields with `before` put in front of them and `after` behind them. */
  function Padded(before: Fields, f: Fields, after: Fields): Fields
  {
    Fields(before.name + f.name + after.name,
           before.email + f.email + after.email,
           before.message + f.message + after.message)
  }

  /** Each failing verdict has its own alert text, so the alert tells the
      user which field to correct. */
  lemma AlertIdentifiesField(v: Verdict, w: Verdict)
    ensures ValidationAlert(v) == ValidationAlert(w) ==> v == w
  {
  }

  /** Only the trimmed values are judged: white space typed before or after
      any of the fields never changes the verdict. */
  lemma ValidationIgnoresSurroundingSpace(before: Fields, f: Fields, after: Fields)
    requires IsBlank(before.name) && IsBlank(before.email) && IsBlank(before.message)
    requires IsBlank(after.name) && IsBlank(after.email) && IsBlank(after.message)
    ensures ValidateDemoForm(Padded(before, f, after)) == ValidateDemoForm(f)
  {
    var g := Padded(before, f, after);
    TrimPadded(before.name, f.name, after.name);
    TrimPadded(before.email, f.email, after.email);
    TrimPadded(before.message, f.message, after.message);
    TrimEmptyIffBlank(f.name);
    TrimEmptyIffBlank(f.message);
    TrimEmptyIffBlank(g.name);
    TrimEmptyIffBlank(g.message);
  }

  /** Validating the already trimmed fields gives the same verdict. */
  lemma ValidationJudgesTrimmedFields(f: Fields)
    ensures ValidateDemoForm(Fields(Trim(f.name), Trim(f.email), Trim(f.message))) == ValidateDemoForm(f)
  {
    TrimIdempotent(f.name);
    TrimIdempotent(f.email);
    TrimIdempotent(f.message);
    TrimEmptyIffBlank(f.name);
    TrimEmptyIffBlank(f.message);
    TrimEmptyIffBlank(Trim(f.name));
    TrimEmptyIffBlank(Trim(f.message));
  }

  // ---------------------------------------------------------------------
  // The submit event
  // ---------------------------------------------------------------------

  const SuccessAlert := "Thank you! We will contact you soon."
  const ErrorAlert := "Error submitting form. Please try again."

  /** How the webhook request ends: a response with its `ok` flag, or a
      rejected `fetch` (a network failure). */
  datatype FetchOutcome = Responded(ok: bool) | Rejected

  /** What a submit event does: whether the default navigation is prevented,
      the body that is posted, the alerts in the order they appear, the field
      values afterwards, and whether an error is written to the console. */
  datatype SubmitEffect = SubmitEffect(
    prevented: bool,
    posted: Fields,
    alerts: seq<string>,
    fieldsAfter: Fields,
    errorLogged: bool)

  /** The asynchronous submit listener alone: it always prevents the default
      action and posts the raw field values; on an ok response it thanks the
      user and resets the form to its `defaults`, otherwise it shows the
      generic error and leaves the fields as they were. */
  function HandleSubmit(f: Fields, defaults: Fields, outcome: FetchOutcome): (e: SubmitEffect)
    ensures e.prevented && e.posted == f
    ensures outcome == Responded(true) ==> e.alerts == [SuccessAlert] && e.fieldsAfter == defaults && !e.errorLogged
    ensures outcome != Responded(true) ==> e.alerts == [ErrorAlert] && e.fieldsAfter == f
    ensures e.errorLogged <==> outcome.Rejected?
  {
    match outcome
    case Responded(ok) =>
      if ok then SubmitEffect(true, f, [SuccessAlert], defaults, false)
      else SubmitEffect(true, f, [ErrorAlert], f, false)
    case Rejected =>
      SubmitEffect(true, f, [ErrorAlert], f, true)
  }

  /** One submit event dispatched to both listeners: the asynchronous one,
      registered first, prevents the default and starts the request; the
      validating one then runs `validateDemoForm`, whose alert therefore
      comes before the request's own alert, and whose verdict does not
      stop the request. */
  function SubmitEvent(f: Fields, defaults: Fields, outcome: FetchOutcome): (e: SubmitEffect)
    ensures e.prevented && e.posted == f
    ensures e.fieldsAfter == (if outcome == Responded(true) then defaults else f)
    ensures ValidateDemoForm(f) == Ok ==> |e.alerts| == 1
    ensures ValidateDemoForm(f) != Ok ==>
              |e.alerts| == 2 && Some(e.alerts[0]) == ValidationAlert(ValidateDemoForm(f))
    ensures e.alerts[|e.alerts| - 1] == (if outcome == Responded(true) then SuccessAlert else ErrorAlert)
    ensures e.errorLogged <==> outcome.Rejected?
  {
    var verdict := ValidateDemoForm(f);
    var async := HandleSubmit(f, defaults, outcome);
    if verdict == Ok then async
    else async.(alerts := [ValidationAlert(verdict).value] + async.alerts)
  }

  /** A non-ok response and a network failure look the same to the user:
      the same alerts and the same field values; only the console differs. */
  lemma TransportErrorsLookAlike(f: Fields, defaults: Fields)
    ensures SubmitEvent(f, defaults, Responded(false)).alerts == SubmitEvent(f, defaults, Rejected).alerts
    ensures SubmitEvent(f, defaults, Responded(false)).fieldsAfter == SubmitEvent(f, defaults, Rejected).fieldsAfter
  {
  }
}
