/** The page's event handlers over the abstract document: one `active` flag
    per element, the navbar's inline style, and the handlers the script
    registers when the document is ready. */
module PageScript {
  import opened Dom
  import opened Menu
  import opened ActiveSection
  import opened Toggle
  import opened ScrollRules
  import Throttle

  class Page {
    /** The elements the script queries; see `Dom.Structure`. */
    const dom: Structure
    /** The `active` class of every element of the document. */
    const active: array<bool>
    /** The navbar's inline style; None until the first scroll writes one. */
    var navbarStyle: Option<NavbarStyle>
    /** The one throttle wrapper the scroll listener was registered with. */
    const gate: Throttle.Gate

    ghost predicate Valid()
      reads this
    {
      WellFormed(dom) && active.Length == |dom.ids|
    }

    /** The document is ready: the flags are those of the markup, and the
        navigation is highlighted once for the initial scroll position. */
    constructor Load(dom: Structure, markup: seq<bool>, sections: seq<Section>, scrollY: int)
      requires WellFormed(dom) && |markup| == |dom.ids|
      ensures Valid() && this.dom == dom && fresh(active)
      ensures active[..] == Highlighted(markup, dom.navLinks, CurrentId(sections, scrollY))
      ensures navbarStyle == None
      ensures fresh(gate) && !gate.inThrottle
    {
      this.dom := dom;
      active := new bool[|markup|](i requires 0 <= i < |markup| => markup[i]);
      navbarStyle := None;
      gate := new Throttle.Gate();
      new;
      assert active[..] == markup;
      UpdateActiveNavigation(sections, scrollY);
    }

    method OnHamburgerClick()
      requires Valid()
      modifies active
      ensures Valid()
      ensures active[..] == HamburgerClick(old(active[..]), dom.navMenu, dom.hamburger)
    {
      if dom.navMenu.Some? && dom.hamburger.Some? {
        var menu, burger := dom.navMenu.value, dom.hamburger.value;
        active[menu] := !active[menu];
        active[burger] := !active[burger];
      }
    }

    method OnMenuLinkClick()
      requires Valid()
      modifies active
      ensures Valid()
      ensures active[..] == MenuLinkClick(old(active[..]), dom.navMenu, dom.hamburger)
    {
      if dom.navMenu.Some? && dom.hamburger.Some? {
        active[dom.navMenu.value] := false;
        active[dom.hamburger.value] := false;
      }
    }

    method OnKeyDown(key: string)
      requires Valid()
      modifies active
      ensures Valid()
      ensures active[..] == KeyDown(old(active[..]), dom.navMenu, dom.hamburger, key)
    {
      if key == "Escape" && dom.navMenu.Some? && active[dom.navMenu.value] {
        active[dom.navMenu.value] := false;
        if dom.hamburger.Some? {
          active[dom.hamburger.value] := false;
        }
      }
    }

    /** Find the current section, then walk the navigation links: each loses
        `active` and regains it when its href is '#' + current. */
    method UpdateActiveNavigation(sections: seq<Section>, scrollY: int)
      requires Valid()
      modifies active
      ensures Valid()
      ensures active[..] == Highlighted(old(active[..]), dom.navLinks, CurrentId(sections, scrollY))
    {
      var current := FindCurrent(sections, scrollY);
      var links := dom.navLinks;
      var i := 0;
      while i < |links|
        invariant 0 <= i <= |links|
        invariant active[..] == Highlighted(old(active[..]), links[..i], current)
      {
        assert links[..i + 1][..i] == links[..i];
        active[links[i].node] := false;
        if links[i].href == "#" + current {
          active[links[i].node] := true;
        }
        i := i + 1;
      }
      assert links[..i] == links;
    }

    /** A click on button `b` of a toggle group: clear the group's buttons,
        then its views, mark the button, then mark the element its target
        attribute names when one exists. */
    method ClickInGroup(g: ToggleGroup, b: nat)
      requires Valid() && GroupWellFormed(g, active.Length) && b < |g.buttons|
      modifies active
      ensures Valid()
      ensures active[..] == Clicked(old(active[..]), dom.ids, g, b)
    {
      var i := 0;
      while i < |g.buttons|
        invariant 0 <= i <= |g.buttons|
        invariant active[..] == Cleared(old(active[..]), g.buttons[..i])
      {
        assert g.buttons[..i + 1][..i] == g.buttons[..i];
        active[g.buttons[i]] := false;
        i := i + 1;
      }
      assert g.buttons[..i] == g.buttons;
      ghost var buttonsCleared := active[..];
      i := 0;
      while i < |g.views|
        invariant 0 <= i <= |g.views|
        invariant active[..] == Cleared(buttonsCleared, g.views[..i])
      {
        assert g.views[..i + 1][..i] == g.views[..i];
        active[g.views[i]] := false;
        i := i + 1;
      }
      assert g.views[..i] == g.views;
      active[g.buttons[b]] := true;
      var target := FindById(dom.ids, TargetKey(g.targets[b]));
      if target.Some? {
        active[target.value] := true;
      }
    }

    method OnComparisonClick(b: nat)
      requires Valid() && b < |dom.comparison.buttons|
      modifies active
      ensures Valid()
      ensures active[..] == Clicked(old(active[..]), dom.ids, dom.comparison, b)
    {
      ClickInGroup(dom.comparison, b);
    }

    method OnToolsClick(b: nat)
      requires Valid() && b < |dom.tools.buttons|
      modifies active
      ensures Valid()
      ensures active[..] == Clicked(old(active[..]), dom.ids, dom.tools, b)
    {
      ClickInGroup(dom.tools, b);
    }

    /** A click on a same-page anchor, given the layout's element tops: the
        position the window is asked to scroll to, if any. No flag changes. */
    method OnAnchorClick(href: string, tops: seq<int>) returns (request: Option<int>)
      requires Valid() && |tops| == |dom.ids| && |href| > 0 && href[0] == '#'
      ensures request.Some? <==> ResolveAnchor(dom.ids, href).Some?
      ensures request.Some? ==> request.value == tops[ResolveAnchor(dom.ids, href).value] - HeaderOffset
    {
      request := ScrollRequest(dom.ids, tops, href);
    }

    /** One scroll event, through the three listeners in the order they were
        registered: the plain navigation update, the navbar style, and the
        throttled navigation update. The navigation ends as after a single
        update whether or not the throttle lets its call through. */
    method OnScroll(sections: seq<Section>, scrollY: int)
      requires Valid()
      modifies this, active, gate
      ensures Valid()
      ensures active[..] == Highlighted(old(active[..]), dom.navLinks, CurrentId(sections, scrollY))
      ensures navbarStyle == if dom.hasNavbar then Some(NavbarStyleAt(scrollY)) else old(navbarStyle)
      ensures gate.inThrottle
    {
      UpdateActiveNavigation(sections, scrollY);
      if dom.hasNavbar {
        navbarStyle := Some(NavbarStyleAt(scrollY));
      }
      var ran := gate.Invoke();
      if ran {
        UpdateActiveNavigation(sections, scrollY);
        HighlightedIdempotent(old(active[..]), dom.navLinks, CurrentId(sections, scrollY));
      }
    }

    /** The cooldown timer that the throttle's last run scheduled fires. */
    method OnThrottleTimer()
      requires Valid() && gate.inThrottle
      modifies gate
      ensures Valid() && !gate.inThrottle
    {
      gate.TimerExpired();
    }
  }
}
