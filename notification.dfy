/**
 * `showNotification(message, type = 'info', duration = 3000)`: the toast
 * element it builds, with its class name, its text and how long it stays.
 */
module Notification {
  import opened Wrappers

  const DefaultType := "info"
  const DefaultDuration := 3000
  const BaseClass := "notification"

  /** The element the function appends to the body: its `className`, its
      `textContent`, and the delay before it starts to fade out. */
  datatype Toast = Toast(className: string, text: string, duration: int)

  /** A JavaScript default parameter: it applies only when the argument is
      `undefined` (here `None`). */
  function ArgOr<T>(arg: Option<T>, default: T): (r: T)
    ensures arg.Some? ==> r == arg.value
    ensures arg.None? ==> r == default
  {
    match arg
    case Some(v) => v
    case None => default
  }

  /** The template `notification notification-${type}`: for a type without
      white space it names exactly the classes `notification` and
      `notification-<type>`. */
  function ClassName(kind: string): (r: string)
    ensures NoAsciiWhitespace(kind) ==> Tokens(r) == [BaseClass, BaseClass + "-" + kind]
  {
    var r := BaseClass + " " + BaseClass + "-" + kind;
    if NoAsciiWhitespace(kind) then
      ClassTokens(kind);
      r
    else
      r
  }

  /** The toast built for a call: the text is the message itself, and the
      type and the duration fall back to `info` and 3000 ms only when they
      are `undefined`. */
  function ShowNotification(message: string, kind: Option<string>, duration: Option<int>): (t: Toast)
    ensures t.text == message
    ensures duration.Some? ==> t.duration == duration.value
    ensures duration.None? ==> t.duration == DefaultDuration
    ensures kind.Some? ==> t.className == ClassName(kind.value)
    ensures kind.None? ==> t.className == ClassName(DefaultType)
    ensures NoAsciiWhitespace(ArgOr(kind, DefaultType)) ==>
              Tokens(t.className) == [BaseClass, BaseClass + "-" + ArgOr(kind, DefaultType)]
  {
    Toast(ClassName(ArgOr(kind, DefaultType)), message, ArgOr(duration, DefaultDuration))
  }

  // ---------------------------------------------------------------------
  // How a class name becomes class tokens (DOMTokenList)
  // ---------------------------------------------------------------------

  /** The ASCII white space that separates tokens of the `class` attribute. */
  predicate IsAsciiWhitespace(c: char)
  {
    c == '\t' || c == '\n' || c == '\U{C}' || c == '\r' || c == ' '
  }

  predicate NoAsciiWhitespace(s: string)
  {
    forall i :: 0 <= i < |s| ==> !IsAsciiWhitespace(s[i])
  }

  /** Length of the run of non-white-space characters at the start of `s`. */
  function WordLength(s: string): (n: nat)
    ensures n <= |s|
    ensures forall i :: 0 <= i < n ==> !IsAsciiWhitespace(s[i])
    ensures n < |s| ==> IsAsciiWhitespace(s[n])
  {
    if s == [] || IsAsciiWhitespace(s[0]) then 0 else 1 + WordLength(s[1..])
  }

  /** The tokens of a class attribute, in order. The DOM's ordered-set
      parser also drops a token that repeats an earlier one; `Tokens` keeps
      repeats, which makes no difference for the two distinct toast
      classes. */
  function Tokens(s: string): seq<string>
    decreases |s|
  {
    if s == [] then []
    else if IsAsciiWhitespace(s[0]) then Tokens(s[1..])
    else
      var n := WordLength(s);
      [s[..n]] + Tokens(s[n..])
  }

  /** A word followed by white space (or nothing) is the first token. */
  lemma {:induction false} WordThenRest(w: string, rest: string)
    requires w != [] && NoAsciiWhitespace(w)
    requires rest == [] || IsAsciiWhitespace(rest[0])
    ensures Tokens(w + rest) == [w] + Tokens(rest)
  {
    var s := w + rest;
    WordLengthOfWord(w, rest);
    assert s[..|w|] == w && s[|w|..] == rest;
  }

  lemma {:induction false} WordLengthOfWord(w: string, rest: string)
    requires NoAsciiWhitespace(w)
    requires rest == [] || IsAsciiWhitespace(rest[0])
    ensures WordLength(w + rest) == |w|
  {
    if w != [] {
      assert (w + rest)[1..] == w[1..] + rest;
      WordLengthOfWord(w[1..], rest);
    }
  }

  /** The class name built for a type without white space splits into the
      base class and the type's own class. */
  lemma ClassTokens(kind: string)
    requires NoAsciiWhitespace(kind)
    ensures Tokens(BaseClass + " " + BaseClass + "-" + kind) == [BaseClass, BaseClass + "-" + kind]
  {
    var suffix := BaseClass + "-" + kind;
    assert NoAsciiWhitespace(suffix) by {
      forall i | 0 <= i < |suffix| ensures !IsAsciiWhitespace(suffix[i]) {
        if i >= |BaseClass| + 1 {
          assert suffix[i] == kind[i - |BaseClass| - 1];
        }
      }
    }
    assert BaseClass + " " + BaseClass + "-" + kind == BaseClass + (" " + suffix);
    WordThenRest(BaseClass, " " + suffix);
    assert (" " + suffix)[1..] == suffix;
    WordThenRest(suffix, []);
    assert suffix + [] == suffix;
  }

  /** Called with a message only, the toast is an `info` toast shown for
      three seconds. */
  lemma DefaultsApply(message: string)
    ensures ShowNotification(message, None, None) == Toast("notification notification-info", message, 3000)
  {
    assert ClassName(DefaultType) == "notification notification-info";
  }
}
