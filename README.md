# MarketMatch Ag page script — a Dafny model

The MarketMatch Ag marketing site runs one browser script, `script.js`.
Most of it is DOM and network glue. This project models the decision logic
inside it and proves what that logic does:

- **Demo-form validator** (`validateDemoForm`). It trims the name, e-mail
  and message fields and checks them in that order. It reports the first
  failing field, or accepts. The e-mail test is the regular expression
  `^[^\s@]+@[^\s@]+\.[^\s@]+$`. It is modelled two ways: as the regex's own
  decomposition `local@left.right`, and as a character-level test (no white
  space, exactly one `@`, a non-empty local part, a `.` strictly inside the
  domain). A lemma proves the two agree.
- **Submit event.** Submitting the form runs two listeners. The asynchronous
  one was registered first. It always prevents the default action and posts
  the untrimmed fields. The validating listener runs after it. So the
  validator's verdict never stops the request: an invalid form is still
  posted, its validation alert comes first, and then the request's own alert
  follows. An ok response resets the form to its default values. A non-ok
  response and a network failure look the same to the user.
- **Anchor clicks.** Anchors whose `href` starts with `#` get a click
  listener. A bare `#` link, or an `href` containing `wa.me`, keeps the
  browser default. Every other link has its default prevented, and it
  scrolls only when `document.querySelector(href)` finds an element.
- **Active-section highlighter** (scroll listener). The probe position is
  `scrollY + 200`. Sections are visited in document order. Each section
  with a non-empty id whose range `[top, top + height)` holds the probe
  clears `active` from every navigation link, then sets it on the first
  link whose href is `#<id>`. The last such section wins. With no such
  section the links are left as they were. Sections without an id never
  matter.
- **Lazy-load callback.** Every intersecting entry marks its image `loaded`
  and stops observing it. Batching does not matter.
- **`toggleMobileMenu`** flips the class `show` on `nav ul`, when it exists.
- **`showNotification`** builds the class name `notification
  notification-<type>`. The type defaults to `info` and the duration to
  3000 ms, and a default applies only when the argument is `undefined`.

The files are `js_text.dfy` (JavaScript white space, `trim`, `includes`),
`demo_form.dfy`, `anchors.dfy`, `highlight.dfy`, `lazy_load.dfy`,
`mobile_menu.dfy`, `notification.dfy` and `wrappers.dfy` (an `Option` type).
Code that updates the DOM in place is modelled imperatively: a `NavLinks`
class holding an `array<bool>` of link flags, an `ImageObserver` class with
the observed and loaded sets, and a `NavMenu` class with its class set. Each
method is proved against a specification function. The properties are proved
about those functions.

DOM reads become parameters. The field values are a `Fields` record. The
outcome of `fetch` is a `FetchOutcome` (`Responded(ok)` or `Rejected`). The
result of `querySelector(href)` is a `Lookup` (`Found`, `NotFound` or
`Malformed`, the last when the browser throws on an invalid selector).
`offsetTop`, `offsetHeight` and `scrollY` are integers, and
`form.reset()` restores a `defaults` record holding the form's initial values.

JavaScript's `trim` and the regex escape `\s` strip and match the same set
of characters. That set is ECMAScript's WhiteSpace plus LineTerminator:
TAB, LF, VT, FF, CR, SPACE, U+00A0, U+1680, U+2000–U+200A, U+2028, U+2029,
U+202F, U+205F, U+3000 and U+FEFF. Dafny strings hold Unicode scalar values
while the regex (no `u` flag) sees UTF-16 code units. No character outside
the Basic Multilingual Plane is white space or `@`, so `[^\s@]+` accepts
the same strings either way.

One might expect a failed validation to prevent the POST. The code does
not do that: the request listener has already prevented the default and
started `fetch` before `validateDemoForm` runs. The model follows the code;
`DemoForm.SubmitEvent` states this.

## Model

| member | source | states |
|---|---|---|
| `JsText.IsWhitespace` | script.js:173-178 | the characters `trim()` strips and `\s` matches: ECMAScript's WhiteSpace and LineTerminator code points, listed one by one |
| `JsText.LeadingBlanks` | script.js:173-175 | counts the white space a field starts with: everything before that index is white space and the character at it is not |
| `JsText.TrailingBlanks` | script.js:173-175 | finds where the white space a field ends with begins: everything from that index on is white space and the character before it is not |
| `JsText.Trim` | script.js:173-175 | `trim()` gives an infix `s[i..j]` with only white space outside it, and it neither starts nor ends with white space |
| `JsText.TrimEmptyIffBlank` | script.js:180 | a trimmed field is empty (falsy) exactly when the field is all white space, so a whitespace-only field is rejected |
| `JsText.TrimIdempotent` | script.js:173-175 | trimming twice is trimming once |
| `JsText.TrimPadded` | script.js:173-175 | white space typed before or after a value is removed again: `trim(p + s + q) == trim(s)` for blank `p` and `q` |
| `JsText.Includes` | script.js:66 | `href.includes(t)` holds exactly when `t` occurs at some index of `href` |
| `DemoForm.SplitsAsEmail` | script.js:178 | one way the anchored pattern can match: a non-empty run of `[^\s@]`, the literal `@` at `at`, a non-empty run, the literal `.` at `dot`, and a non-empty run to the end |
| `DemoForm.MatchesEmailPattern` | script.js:178 | `emailPattern.test(s)`: some choice of the `@` and of the `.` after it splits `s` as the pattern demands, as backtracking finds one |
| `DemoForm.IsValidEmail` | script.js:178-184 | the same test stated on characters: no white space, exactly one `@`, at least one character before it, and a `.` strictly inside the part after it |
| `DemoForm.EmailPatternIffValid` | script.js:178 | a string matches `^[^\s@]+@[^\s@]+\.[^\s@]+$` exactly when it has no white space, exactly one `@`, a non-empty local part and a `.` strictly inside the domain |
| `DemoForm.CompanyAddressAccepted` | script.js:178 | `info@marketmatchag.com` passes the pattern |
| `DemoForm.MalformedAddressesRejected` | script.js:178 | `a@b`, `a@.bc`, `a b@c.d` and `a@b@c.d` fail the pattern |
| `DemoForm.ValidateDemoForm` | script.js:172-196 | `NameMissing` exactly when the name is blank; otherwise `EmailInvalid` exactly when the trimmed e-mail fails the pattern; otherwise `MessageMissing` exactly when the message is blank; `Ok` (the `true` return) only when all three pass |
| `DemoForm.ValidationAlert` | script.js:180-195 | a blocking alert is shown for every failing verdict and none when the form is accepted |
| `DemoForm.AlertIdentifiesField` | script.js:180-195 | the three alert texts differ, so equal alerts mean equal verdicts and the alert names the failing field |
| `DemoForm.ValidationIgnoresSurroundingSpace` | script.js:173-175 | white space added before or after any of the three fields never changes the verdict |
| `DemoForm.ValidationJudgesTrimmedFields` | script.js:173-175 | validating the already trimmed fields gives the same verdict as validating the fields |
| `DemoForm.HandleSubmit` | script.js:13-51 | the request listener always prevents the default and posts the untrimmed fields; only an ok response thanks the user and resets the form; a non-ok response or a rejected fetch shows the generic error and leaves the fields as they were; only a rejected fetch logs to the console |
| `DemoForm.SubmitEvent` | script.js:220-229 | with both listeners the raw fields are posted whatever the verdict; an invalid form shows its validation alert first and the transport alert second; the fields are reset on an ok response even when the form was invalid; an error is logged exactly when the fetch is rejected |
| `DemoForm.TransportErrorsLookAlike` | script.js:37-50 | a non-ok response and a network failure give the user the same alerts and the same field values |
| `Anchors.Intercepts` | script.js:66 | the negation of the listener's early return: the href is not `#` and `href.includes('wa.me')` is false |
| `Anchors.OnAnchorClick` | script.js:62-80 | a click is prevented exactly when the href is not `#` and contains no `wa.me`; it scrolls exactly when it is prevented and the selector finds an element |
| `Anchors.WhatsAppLinksPassThrough` | script.js:65-68 | any href with `wa.me` somewhere in it is neither prevented nor scrolled |
| `Anchors.SectionLinksScrollWhenFound` | script.js:62-78 | a link `#<id>` to an id without `wa.me` is one `a[href^="#"]` gives the listener; it is intercepted, and scrolls only if the target exists |
| `Highlight.FirstLink` | script.js:114 | the link found for an href is the first one in document order carrying it, and none is found exactly when no link carries it |
| `Highlight.FirstLinkAt` | script.js:114 | link `i` is the one found exactly when it carries the href and no earlier link does |
| `Highlight.AfterSection` | script.js:102-117 | one pass of the `forEach` body: a section with a truthy id whose range holds the probe clears every flag and sets the first link for `#<id>`; any other section leaves the flags alone |
| `Highlight.Highlighted` | script.js:101-119 | the whole `forEach`: the flags after visiting the sections in document order, one `AfterSection` step each |
| `Highlight.LastSelected` | script.js:101-109 | the last section in document order with an id whose range holds the probe, or none when no section qualifies |
| `Highlight.LastSelectedWins` | script.js:101-118 | after the update the link flags are those set by the last qualifying section, or unchanged if there is none |
| `Highlight.OnlyTheMatchingLinkIsActive` | script.js:109-117 | after an update with a qualifying section, a link is active exactly when it is the first whose href is `#<id>` of the last such section; with no such link none is active |
| `Highlight.NoSelectionKeepsLinks` | script.js:109-118 | when no section with an id holds the probe, every link keeps its previous state |
| `Highlight.AtMostOneActive` | script.js:111-116 | after an update that found a section, no two links are active |
| `Highlight.WithIds` | script.js:102-103 | keeps exactly the sections whose id is present and non-empty (membership; order is stated by `WithIdsConcat`) |
| `Highlight.WithIdsConcat` | script.js:101-103 | the filter keeps document order and repetitions: it distributes over concatenation and keeps a single section exactly when it has an id |
| `Highlight.UnidentifiedSectionsIgnored` | script.js:102-103 | removing the sections without an id does not change the outcome |
| `Highlight.NavLinks.ClearActive` | script.js:111 | afterwards no link carries `active` |
| `Highlight.NavLinks.OnScroll` | script.js:91-120 | the new link flags are those the specification function gives for the old flags, probe `scrollY + 200` and the sections in order |
| `LazyLoad.Revealed` | script.js:133-135 | the revealed images are exactly the targets of intersecting entries |
| `LazyLoad.RevealedConcat` | script.js:132-141 | two batches of entries reveal what their concatenation reveals |
| `LazyLoad.ImageObserver.constructor` | script.js:144 | all product images start observed and none loaded |
| `LazyLoad.ImageObserver.OnIntersect` | script.js:132-141 | revealed images are added to `loaded` and removed from the observed set; nothing else changes; no image is both observed and loaded |
| `MobileMenu.Toggled` | script.js:159 | the token's presence flips and every other class stays |
| `MobileMenu.ToggleTwiceRestores` | script.js:159 | toggling `show` twice restores the classes |
| `MobileMenu.ToggleMobileMenu` | script.js:156-161 | with a `nav ul` element its classes are toggled on `show`; with none nothing happens |
| `Notification.ArgOr` | script.js:283 | a default parameter applies only to an `undefined` argument |
| `Notification.ClassName` | script.js:285 | the template `notification notification-${type}`; for a type without ASCII white space its class tokens are exactly `notification` and `notification-<type>` |
| `Notification.ShowNotification` | script.js:283-286 | the toast's text is the message unchanged; a given duration and type are used as they are, and only undefined ones become 3000 and `info`; for a type without ASCII white space the toast carries exactly the classes `notification` and `notification-<type>` |
| `Notification.DefaultsApply` | script.js:283-285 | called with a message only, the toast is `notification notification-info` for 3000 ms |

## Left out

- The `fetch` POST itself, `JSON.stringify`, the webhook URL and headers, `alert` and `console` output are I/O (script.js:26-49, 306-317). The model keeps the posted fields, the alert texts in order and whether an error is logged.
- The script is assumed to run before `DOMContentLoaded`, with `#demoForm` present, so that both submit listeners exist. This is the order the page relies on.
- The three inputs `input[name="name"]`, `input[name="email"]` and `textarea[name="message"]` are assumed to exist. A missing one makes `.value` throw, before any fetch in the request listener (script.js:18-20) and inside the validator (script.js:173-175); the model does not cover that case.
- Smooth scrolling by `scrollIntoView`, and the `scrollToElement` helper, are browser animation (script.js:74-77, 242-250). Only "scrolls or not" is modelled.
- IntersectionObserver scheduling and the `'IntersectionObserver' in window` capability check are browser behaviour (script.js:131, 145). Only the callback's effect on the two sets is modelled.
- The `setTimeout` steps of `showNotification` are timer behaviour: adding `show` after 10 ms, and removing the toast after the duration plus 300 ms (script.js:288-297). Appending the element to the body is left out too.
- `getQueryParameter` is a thin wrapper over `URLSearchParams` (script.js:257-260).
- `trackEvent`/`gtag` and the Bootstrap tooltip set-up call optional foreign globals (script.js:211-218, 268-275).
- Fractional `scrollY`, `offsetTop` and `offsetHeight`: positions are integers.
- Notification.ShowNotification: takes the type as a string or `undefined` only, so a `null` or non-string type, which the template would stringify, is not modelled.
- Highlight.NavLinks.OnScroll: does not model how the section id is read inside the CSS string of `nav a[href="#…"]`. An id containing a double quote or a line break (LF, CR or FF) makes the selector invalid, and the browser throws in the middle of the loop, after the links were cleared. A single quote is an ordinary character inside that double-quoted string. An id containing a backslash starts a CSS escape, so the selector may instead match a link with a different href. The model looks for the href `#<id>` as written.
- Highlight.NavLinks.OnScroll: takes the link list and the sections as given for one event. The script re-queries them on every scroll event, and the model does not track how the page changes between events.
