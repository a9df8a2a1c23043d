/** The mobile menu: the `active` class of the `.nav-menu` element and of
    the `.hamburger` element, as transitions of the document's flags. */
module Menu {
  import opened Dom

  /** A hamburger click toggles the menu's flag, then the hamburger's. The
      handler exists only when both elements were found. */
  function HamburgerClick(f: seq<bool>, menu: Option<nat>, burger: Option<nat>): (r: seq<bool>)
    requires Within(menu, |f|) && Within(burger, |f|)
    ensures |r| == |f|
    ensures forall k :: 0 <= k < |f| && Some(k) != menu && Some(k) != burger ==> r[k] == f[k]
    ensures menu.None? || burger.None? ==> r == f
  {
    if menu.Some? && burger.Some? then
      var toggledMenu := f[menu.value := !f[menu.value]];
      toggledMenu[burger.value := !toggledMenu[burger.value]]
    else
      f
  }

  /** A click on any link of the menu removes `active` from both elements.
      The handlers exist only when both elements were found. */
  function MenuLinkClick(f: seq<bool>, menu: Option<nat>, burger: Option<nat>): (r: seq<bool>)
    requires Within(menu, |f|) && Within(burger, |f|)
    ensures |r| == |f|
    ensures forall k :: 0 <= k < |f| && Some(k) != menu && Some(k) != burger ==> r[k] == f[k]
    ensures menu.None? || burger.None? ==> r == f
  {
    if menu.Some? && burger.Some? then
      f[menu.value := false][burger.value := false]
    else
      f
  }

  /** A key press closes the menu when the key is Escape and the menu element
      exists and is active. Only the menu is checked: when the hamburger is
      missing, the menu is cleared and the hamburger's removal is what fails. */
  function KeyDown(f: seq<bool>, menu: Option<nat>, burger: Option<nat>, key: string): (r: seq<bool>)
    requires Within(menu, |f|) && Within(burger, |f|)
    ensures |r| == |f|
    ensures forall k :: 0 <= k < |f| && Some(k) != menu && Some(k) != burger ==> r[k] == f[k]
    ensures menu.None? ==> r == f
  {
    if key == "Escape" && menu.Some? && f[menu.value] then
      var closed := f[menu.value := false];
      if burger.Some? then closed[burger.value := false] else closed
    else
      f
  }

  /** A hamburger click inverts both flags (two distinct elements). */
  lemma HamburgerInverts(f: seq<bool>, m: nat, h: nat)
    requires m < |f| && h < |f| && m != h
    ensures HamburgerClick(f, Some(m), Some(h))[m] == !f[m]
    ensures HamburgerClick(f, Some(m), Some(h))[h] == !f[h]
  {
  }

  /** Two consecutive hamburger clicks restore the document's flags. */
  lemma HamburgerTwiceRestores(f: seq<bool>, menu: Option<nat>, burger: Option<nat>)
    requires Within(menu, |f|) && Within(burger, |f|)
    ensures HamburgerClick(HamburgerClick(f, menu, burger), menu, burger) == f
  {
  }

  /** Menu and hamburger that start in the same state stay in the same state
      under every event of the menu. */
  lemma MenuStaysInSync(f: seq<bool>, m: nat, h: nat, key: string)
    requires m < |f| && h < |f| && f[m] == f[h]
    ensures HamburgerClick(f, Some(m), Some(h))[m] == HamburgerClick(f, Some(m), Some(h))[h]
    ensures MenuLinkClick(f, Some(m), Some(h))[m] == MenuLinkClick(f, Some(m), Some(h))[h]
    ensures KeyDown(f, Some(m), Some(h), key)[m] == KeyDown(f, Some(m), Some(h), key)[h]
  {
  }

  /** A menu-link click leaves both elements inactive whatever they were. */
  lemma MenuLinkCloses(f: seq<bool>, m: nat, h: nat)
    requires m < |f| && h < |f|
    ensures !MenuLinkClick(f, Some(m), Some(h))[m] && !MenuLinkClick(f, Some(m), Some(h))[h]
  {
  }

  /** Escape on an open menu closes it; every other key, and Escape on a
      closed menu, changes nothing. */
  lemma EscapeClosesOnlyOpenMenu(f: seq<bool>, m: nat, burger: Option<nat>, key: string)
    requires m < |f| && Within(burger, |f|)
    ensures key == "Escape" && f[m] ==>
      !KeyDown(f, Some(m), burger, key)[m] && (burger.Some? ==> !KeyDown(f, Some(m), burger, key)[burger.value])
    ensures key != "Escape" || !f[m] ==> KeyDown(f, Some(m), burger, key) == f
  {
  }

  /** No menu event ever opens a closed menu except the hamburger click. */
  lemma OnlyHamburgerOpens(f: seq<bool>, m: nat, burger: Option<nat>, key: string)
    requires m < |f| && Within(burger, |f|) && !f[m]
    ensures !MenuLinkClick(f, Some(m), burger)[m]
    ensures !KeyDown(f, Some(m), burger, key)[m]
  {
  }
}
