/**
 * The click listener attached to every anchor whose `href` starts with '#':
 * it lets bare '#' links and WhatsApp deep links through, and otherwise
 * replaces the browser's jump with a scroll to the element the `href`
 * selects, when there is one.
 */
module Anchors {
  import opened JsText

  /** What `document.querySelector(href)` gives: an element, nothing, or a
      thrown syntax error for an `href` that is not a valid selector. */
  datatype Lookup = Found | NotFound | Malformed

  /** The effect of one click: whether the default navigation is
      prevented and whether the page scrolls to a target. */
  datatype ClickEffect = ClickEffect(prevented: bool, scrolled: bool)

  const WhatsAppHost := "wa.me"

  /** The selector `a[href^="#"]` that picks the anchors given the listener. */
  predicate IsInPageAnchor(href: string)
  {
    |href| > 0 && href[0] == '#'
  }

  /** The listener's early-return test, negated: the click is taken over. */
  predicate Intercepts(href: string)
  {
    href != "#" && !Includes(href, WhatsAppHost)
  }

  /** A click is prevented exactly when it is intercepted, and it scrolls
      exactly when it is intercepted and the selector finds an element. A
      malformed selector throws after the default was already prevented. */
  function OnAnchorClick(href: string, target: Lookup): (e: ClickEffect)
    ensures e.prevented <==> href != "#" && !(exists i: nat :: OccursAt(href, WhatsAppHost, i))
    ensures e.scrolled <==> e.prevented && target == Found
  {
    if !Intercepts(href) then ClickEffect(false, false)
    else ClickEffect(true, target == Found)
  }

  /** A link to a WhatsApp chat, wherever "wa.me" appears in it, keeps the
      browser's default behaviour. */
  lemma WhatsAppLinksPassThrough(prefix: string, suffix: string, target: Lookup)
    ensures OnAnchorClick(prefix + WhatsAppHost + suffix, target) == ClickEffect(false, false)
  {
    var href := prefix + WhatsAppHost + suffix;
    assert href[|prefix|..|prefix| + |WhatsAppHost|] == WhatsAppHost;
    assert OccursAt(href, WhatsAppHost, |prefix|);
  }

  /** A link "#" + id to a section whose id does not contain "wa.me" is one
      the selector gives the listener; it is intercepted, and scrolls only
      when the target exists. */
  lemma SectionLinksScrollWhenFound(id: string, target: Lookup)
    requires id != [] && !Includes(id, WhatsAppHost)
    ensures IsInPageAnchor("#" + id)
    ensures OnAnchorClick("#" + id, target) == ClickEffect(true, target == Found)
  {
    var href := "#" + id;
    assert href != "#";
    OccursInTail(href, WhatsAppHost);
    assert href[1..] == id;
    assert !OccursAt(href, WhatsAppHost, 0) by {
      assert |href| < 5 || href[0..5][0] == '#';
    }
  }
}
