/**
 * The scroll listener that highlights the navigation link of the section
 * in view. The probe position is `scrollY + 200`; the sections are visited
 * in document order and every section with an id whose vertical range
 * holds the probe clears `active` from all navigation links and then sets
 * it on the first link whose href is '#' followed by that id.
 */
module Highlight {
  import opened Wrappers

  /** Distance below the top of the viewport at which sections are probed. */
  const ScrollOffset := 200

  /** A `section` or `header` element: its `id` attribute (absent or
      present), `offsetTop` and `offsetHeight`. */
  datatype Section = Section(id: Option<string>, top: int, height: int)

  /** `getAttribute('id')` is truthy: present and not empty. */
  predicate HasId(s: Section)
  {
    s.id.Some? && s.id.value != ""
  }

  /** The probe lies in the half-open range [top, top + height). */
  predicate Covers(s: Section, pos: int)
  {
    s.top <= pos < s.top + s.height
  }

  /** The section takes part in the update at probe position `pos`. */
  predicate Selects(s: Section, pos: int)
  {
    HasId(s) && Covers(s, pos)
  }

  /** The href a navigation link needs to belong to section `id`. */
  function LinkHref(id: string): string
  {
    "#" + id
  }

  /** `document.querySelector('nav a[href="…"]')` over the navigation links
      in document order: the first link with that href, if any. */
  function FirstLink(hrefs: seq<string>, href: string): (r: Option<nat>)
    ensures r.Some? ==> r.value < |hrefs| && hrefs[r.value] == href
    ensures r.Some? ==> forall j :: 0 <= j < r.value ==> hrefs[j] != href
    ensures r.None? <==> href !in hrefs
  {
    if hrefs == [] then None
    else if hrefs[0] == href then Some(0)
    else
      match FirstLink(hrefs[1..], href)
      case None => None
      case Some(k) => Some(k + 1)
  }

  /** Link `i` is the one `FirstLink` finds exactly when it has the href and
      no link before it does. */
  lemma FirstLinkAt(hrefs: seq<string>, href: string, i: nat)
    requires i < |hrefs|
    ensures FirstLink(hrefs, href) == Some(i) <==> hrefs[i] == href && href !in hrefs[..i]
  {
  }

  /** Link flags with `active` on link `k` only (on none when `k` is None). */
  function OnlyActive(n: nat, k: Option<nat>): seq<bool>
  {
    seq(n, i => k == Some(i))
  }

  /** The effect of visiting one section during the update. */
  function AfterSection(hrefs: seq<string>, active: seq<bool>, pos: int, s: Section): seq<bool>
  {
    if Selects(s, pos) then OnlyActive(|hrefs|, FirstLink(hrefs, LinkHref(s.id.value)))
    else active
  }

  /** The link flags after visiting `sections` in order, from `active`. */
  function Highlighted(hrefs: seq<string>, active: seq<bool>, pos: int, sections: seq<Section>): seq<bool>
  {
    if sections == [] then active
    else
      var n := |sections| - 1;
      AfterSection(hrefs, Highlighted(hrefs, active, pos, sections[..n]), pos, sections[n])
  }

  /** The index of the last section, in document order, that takes part in
      the update at `pos`. */
  function LastSelected(sections: seq<Section>, pos: int): (r: Option<nat>)
    ensures r.Some? ==> r.value < |sections| && Selects(sections[r.value], pos)
    ensures r.Some? ==> forall j :: r.value < j < |sections| ==> !Selects(sections[j], pos)
    ensures r.None? <==> forall j :: 0 <= j < |sections| ==> !Selects(sections[j], pos)
  {
    if sections == [] then None
    else
      var n := |sections| - 1;
      if Selects(sections[n], pos) then Some(n)
      else
        var r := LastSelected(sections[..n], pos);
        assert forall j :: 0 <= j < n ==> sections[..n][j] == sections[j];
        r
  }

  /** The last selected section wins: the flags afterwards are those it sets,
      and when no section is selected the flags are what they were. */
  lemma {:induction false} LastSelectedWins(hrefs: seq<string>, active: seq<bool>, pos: int, sections: seq<Section>)
    ensures Highlighted(hrefs, active, pos, sections) ==
              match LastSelected(sections, pos)
              case None => active
              case Some(k) => OnlyActive(|hrefs|, FirstLink(hrefs, LinkHref(sections[k].id.value)))
  {
    if sections != [] {
      var n := |sections| - 1;
      var init := sections[..n];
      LastSelectedWins(hrefs, active, pos, init);
      var prev := Highlighted(hrefs, active, pos, init);
      assert Highlighted(hrefs, active, pos, sections) == AfterSection(hrefs, prev, pos, sections[n]);
      if Selects(sections[n], pos) {
        assert LastSelected(sections, pos) == Some(n);
      } else {
        var k := LastSelected(init, pos);
        assert LastSelected(sections, pos) == k;
        assert Highlighted(hrefs, active, pos, sections) == prev;
        if k.Some? {
          assert init[k.value] == sections[k.value];
        }
      }
    }
  }

  /** After an update in which some section with an id holds the probe,
      exactly one link is active, the first whose href names the last such
      section, or none if no link names it. */
  lemma OnlyTheMatchingLinkIsActive(hrefs: seq<string>, active: seq<bool>, pos: int, sections: seq<Section>, k: nat)
    requires k < |sections| && Selects(sections[k], pos)
    requires forall j :: k < j < |sections| ==> !Selects(sections[j], pos)
    ensures var r := Highlighted(hrefs, active, pos, sections);
            var href := LinkHref(sections[k].id.value);
            && |r| == |hrefs|
            && (forall i :: 0 <= i < |r| ==> (r[i] <==> hrefs[i] == href && href !in hrefs[..i]))
            && (href !in hrefs ==> forall i :: 0 <= i < |r| ==> !r[i])
  {
  }

  /** An update in which no section with an id holds the probe leaves
      every link as it was. */
  lemma NoSelectionKeepsLinks(hrefs: seq<string>, active: seq<bool>, pos: int, sections: seq<Section>)
    requires forall j :: 0 <= j < |sections| ==> !Selects(sections[j], pos)
    ensures Highlighted(hrefs, active, pos, sections) == active
  {
  }

  /** At most one link is active after an update that found a section. */
  lemma AtMostOneActive(hrefs: seq<string>, active: seq<bool>, pos: int, sections: seq<Section>)
    requires exists j :: 0 <= j < |sections| && Selects(sections[j], pos)
    ensures var r := Highlighted(hrefs, active, pos, sections);
            forall i, j :: 0 <= i < j < |r| ==> !(r[i] && r[j])
  {
  }

  /** The sections, in order, whose `id` attribute is present and not empty. */
  function WithIds(sections: seq<Section>): (r: seq<Section>)
    ensures forall s :: s in r <==> s in sections && HasId(s)
  {
    if sections == [] then []
    else
      var n := |sections| - 1;
      var rest := WithIds(sections[..n]);
      assert sections == sections[..n] + [sections[n]];
      if HasId(sections[n]) then rest + [sections[n]] else rest
  }

  /** Filtering keeps the document order and the repetitions: it
      distributes over concatenation, and keeps a single section exactly
      when it has an id. */
  lemma {:induction false} WithIdsConcat(a: seq<Section>, b: seq<Section>)
    ensures WithIds(a + b) == WithIds(a) + WithIds(b)
    ensures |b| == 1 ==> WithIds(b) == (if HasId(b[0]) then b else [])
  {
    if b == [] {
      assert a + b == a;
    } else {
      var n := |b| - 1;
      assert (a + b)[..|a| + n] == a + b[..n];
      assert (a + b)[|a| + n] == b[n];
      WithIdsConcat(a, b[..n]);
    }
  }

  /** Sections without an id never change the outcome of an update. */
  lemma {:induction false} UnidentifiedSectionsIgnored(hrefs: seq<string>, active: seq<bool>, pos: int, sections: seq<Section>)
    ensures Highlighted(hrefs, active, pos, sections) == Highlighted(hrefs, active, pos, WithIds(sections))
  {
    if sections != [] {
      var n := |sections| - 1;
      UnidentifiedSectionsIgnored(hrefs, active, pos, sections[..n]);
      var rest := WithIds(sections[..n]);
      if HasId(sections[n]) {
        assert (rest + [sections[n]])[..|rest|] == rest;
      }
    }
  }

  /** The navigation links `nav a[href^="#"]`: their hrefs in document
      order and, per link, whether it carries the class `active`. */
  class NavLinks {
    const hrefs: seq<string>
    const active: array<bool>

    ghost predicate Valid()
    {
      active.Length == |hrefs|
    }

    constructor (hrefs: seq<string>, initial: seq<bool>)
      requires |initial| == |hrefs|
      ensures Valid() && this.hrefs == hrefs && active[..] == initial && fresh(active)
    {
      this.hrefs := hrefs;
      active := new bool[|initial|](i requires 0 <= i < |initial| => initial[i]);
    }

    /** Removes the class `active` from every navigation link. */
    method ClearActive()
      requires Valid()
      modifies active
      ensures active[..] == OnlyActive(|hrefs|, None)
    {
      var i := 0;
      while i < active.Length
        invariant 0 <= i <= active.Length
        invariant forall j :: 0 <= j < i ==> !active[j]
      {
        active[i] := false;
        i := i + 1;
      }
    }

    /** The scroll listener: visits the sections in order and, for each one
        with an id holding the probe, clears every link and activates the
        first link for its id. */
    method OnScroll(scrollY: int, sections: seq<Section>)
      requires Valid()
      modifies active
      ensures active[..] == Highlighted(hrefs, old(active[..]), scrollY + ScrollOffset, sections)
    {
      var pos := scrollY + ScrollOffset;
      var i := 0;
      while i < |sections|
        invariant 0 <= i <= |sections|
        invariant active[..] == Highlighted(hrefs, old(active[..]), pos, sections[..i])
      {
        var s := sections[i];
        if HasId(s) {
          if pos >= s.top && pos < s.top + s.height {
            ClearActive();
            var link := FirstLink(hrefs, LinkHref(s.id.value));
            if link.Some? {
              active[link.value] := true;
            }
          }
        }
        assert sections[..i + 1][..i] == sections[..i];
        i := i + 1;
      }
      assert sections[..|sections|] == sections;
    }
  }
}
