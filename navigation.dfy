/** The navigation bar's scroll handler (the `scrolled` class and the auto-hide on narrow
    windows) and `updateActiveNavLink`, which marks the link of the section under the top of
    the window. */
module Navigation {
  import opened Chars
  import opened Styles
  import opened Measures

  // ---------------------------------------------------------------------------
  // Navbar scroll effect

  /** `window.pageYOffset || document.documentElement.scrollTop`. */
  function ScrollTop(pageYOffset: int, documentScrollTop: int): int
  {
    if pageYOffset != 0 then pageYOffset else documentScrollTop
  }

  /** The bar's `scrolled` class, its inline `display` and the handler's `lastScrollTop`. */
  datatype NavState = NavState(scrolled: bool, display: Display, lastScrollTop: int)

  /** The scroll handler on one scroll position and one window width. */
  function NavbarStep(s: NavState, scrollTop: int, innerWidth: int): (r: NavState)
    ensures r.scrolled <==> scrollTop > 100
    ensures IsMobile(innerWidth) ==>
              (r.display == DisplayNone <==> scrollTop > s.lastScrollTop && scrollTop > 100)
              && (r.display == DisplayBlock <==> !(scrollTop > s.lastScrollTop && scrollTop > 100))
    ensures !IsMobile(innerWidth) ==> r.display == s.display
    ensures r.lastScrollTop == scrollTop
  {
    var display :=
      if innerWidth <= MobileMax then
        (if scrollTop > s.lastScrollTop && scrollTop > 100 then DisplayNone else DisplayBlock)
      else s.display;
    NavState(scrollTop > 100, display, scrollTop)
  }

  /** On a narrow window, scrolling back up (or not moving) always brings the bar back, and
      the next step down past the first hundred pixels hides it again. */
  lemma NavbarHidesDownShowsUp(s: NavState, down: int, up: int, width: int)
    requires IsMobile(width) && down > s.lastScrollTop && down > 100 && up <= down
    ensures NavbarStep(s, down, width).display == DisplayNone
    ensures NavbarStep(NavbarStep(s, down, width), up, width).display == DisplayBlock
    ensures NavbarStep(NavbarStep(s, down, width), up, width).scrolled <==> up > 100
  {
  }

  class Navbar {
    var state: NavState

    /** `lastScrollTop` starts at 0; the bar has no `scrolled` class and no inline display. */
    constructor ()
      ensures state == NavState(false, DisplayUnset, 0)
    {
      state := NavState(false, DisplayUnset, 0);
    }

    /** The `scroll` listener. */
    method OnScroll(pageYOffset: int, documentScrollTop: int, innerWidth: int)
      modifies this
      ensures state == NavbarStep(old(state), ScrollTop(pageYOffset, documentScrollTop), innerWidth)
    {
      var scrollTop := ScrollTop(pageYOffset, documentScrollTop);
      var scrolled := scrollTop > 100;
      var display := state.display;
      if innerWidth <= 768 {
        if scrollTop > state.lastScrollTop && scrollTop > 100 {
          display := DisplayNone;
        } else {
          display := DisplayBlock;
        }
      }
      state := NavState(scrolled, display, scrollTop);
    }
  }

  // ---------------------------------------------------------------------------
  // updateActiveNavLink

  /** A `section[id]`: its `offsetTop`, `offsetHeight` and `id`. */
  datatype Section = Section(top: int, height: int, id: string)

  /** A navigation link: its `data-section` (`None` when absent) and its `active` class. */
  datatype NavLink = NavLink(section: Option<string>, active: bool)

  /** The section's vertical span contains the position. */
  predicate Contains(s: Section, pos: int) { s.top <= pos < s.top + s.height }

  /** The id of the last section, in document order, whose span contains `pos`. */
  function LastContaining(sections: seq<Section>, pos: int): (r: Option<string>)
    ensures r.None? <==> forall i :: 0 <= i < |sections| ==> !Contains(sections[i], pos)
    ensures r.Some? ==> exists i :: 0 <= i < |sections| && Contains(sections[i], pos)
                          && sections[i].id == r.value
                          && forall j :: i < j < |sections| ==> !Contains(sections[j], pos)
  {
    if sections == [] then None
    else
      var last := sections[|sections| - 1];
      if Contains(last, pos) then Some(last.id)
      else
        var init := sections[..|sections| - 1];
        var r := LastContaining(init, pos);
        assert forall i :: 0 <= i < |init| ==> init[i] == sections[i];
        assert r.Some? ==> exists i :: 0 <= i < |sections| && Contains(sections[i], pos)
                             && sections[i].id == r.value
                             && forall j :: i < j < |sections| ==> !Contains(sections[j], pos) by {
          if r.Some? {
            var i :| 0 <= i < |init| && Contains(init[i], pos) && init[i].id == r.value
                     && forall j :: i < j < |init| ==> !Contains(init[j], pos);
            assert forall j :: i < j < |sections| ==> !Contains(sections[j], pos);
          }
        }
        r
  }

  /** Every link active exactly when it names the section. */
  function Highlight(links: seq<NavLink>, id: string): (r: seq<NavLink>)
    ensures |r| == |links|
    ensures forall i :: 0 <= i < |links| ==>
              r[i].section == links[i].section && (r[i].active <==> links[i].section == Some(id))
  {
    seq(|links|, i requires 0 <= i < |links| => links[i].(active := links[i].section == Some(id)))
  }

  /** The specification of `updateActiveNavLink`: the links of the last section under
      `scrollY + 100` become the active ones; with no such section nothing changes. */
  function ActiveLinks(links: seq<NavLink>, sections: seq<Section>, scrollY: int): seq<NavLink>
  {
    match LastContaining(sections, scrollY + 100)
    case None => links
    case Some(id) => Highlight(links, id)
  }

  /** Highlighting twice is highlighting once with the later section: only the last matching
      section decides, which is why the handler's sweep over all sections agrees with
      `ActiveLinks`. */
  lemma HighlightTwice(links: seq<NavLink>, a: string, b: string)
    ensures Highlight(Highlight(links, a), b) == Highlight(links, b)
  {
  }

  /** The handler: for each section containing `scrollY + 100`, every link loses `active` and
      regains it when it names that section. */
  method UpdateActiveNavLink(links: array<NavLink>, sections: seq<Section>, scrollY: int)
    modifies links
    ensures links[..] == ActiveLinks(old(links[..]), sections, scrollY)
  {
    var pos := scrollY + 100;
    var k := 0;
    while k < |sections|
      invariant 0 <= k <= |sections|
      invariant links[..] == ActiveLinks(old(links[..]), sections[..k], scrollY)
    {
      var section := sections[k];
      assert sections[..k + 1][..k] == sections[..k];
      if pos >= section.top && pos < section.top + section.height {
        HighlightAll(links, section.id);
        match LastContaining(sections[..k], pos)
        case None =>
        case Some(prev) => HighlightTwice(old(links[..]), prev, section.id);
      }
      k := k + 1;
    }
    assert sections[..k] == sections;
  }

  /** The inner sweep over the links for one section. */
  method HighlightAll(links: array<NavLink>, id: string)
    modifies links
    ensures links[..] == Highlight(old(links[..]), id)
  {
    var i := 0;
    while i < links.Length
      invariant 0 <= i <= links.Length
      invariant forall j :: 0 <= j < i ==> links[j] == old(links[j]).(active := old(links[j]).section == Some(id))
      invariant forall j :: i <= j < links.Length ==> links[j] == old(links[j])
    {
      links[i] := links[i].(active := false);
      if links[i].section == Some(id) {
        links[i] := links[i].(active := true);
      }
      i := i + 1;
    }
  }
}
