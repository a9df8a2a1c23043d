/** The two integer rules of the page: where a same-page anchor scrolls to,
    and when the navbar switches to its opaque style. */
module ScrollRules {
  import opened Dom

  /** Height of the fixed header that a smooth scroll leaves room for. */
  const HeaderOffset: int := 80

  /** Scroll position beyond which the navbar is opaque. */
  const NavbarThreshold: int := 50

  /** `document.querySelector(href)` for an href that starts with '#': the
      first element, in document order, whose id is the rest of the href.
      The bare "#" is not a valid selector, so the lookup throws and nothing
      is found. */
  function ResolveAnchor(ids: seq<string>, href: string): (r: Option<nat>)
    requires |href| > 0 && href[0] == '#'
    ensures r.Some? ==> r.value < |ids| && "#" + ids[r.value] == href
    ensures r.Some? ==> ids[r.value] != ""
    ensures r.Some? ==> forall k :: 0 <= k < r.value ==> "#" + ids[k] != href
    ensures r.None? ==> forall k :: 0 <= k < |ids| ==> ids[k] == "" || "#" + ids[k] != href
  {
    var r := FindById(ids, href[1..]);
    assert r.Some? ==> "#" + ids[r.value] == href by {
      if r.Some? { assert href == "#" + href[1..]; }
    }
    assert r.Some? ==> forall k :: 0 <= k < r.value ==> "#" + ids[k] != href by {
      if r.Some? {
        forall k | 0 <= k < r.value ensures "#" + ids[k] != href {
          assert ("#" + ids[k])[1..] == ids[k];
        }
      }
    }
    assert forall k :: 0 <= k < |ids| && "#" + ids[k] == href ==> ids[k] == href[1..] by {
      forall k | 0 <= k < |ids| && "#" + ids[k] == href ensures ids[k] == href[1..] {
        assert ("#" + ids[k])[1..] == ids[k];
      }
    }
    r
  }

  /** The position a click on a same-page anchor asks the window to scroll
      to: the target's top less the header height, or no scroll at all when
      the href resolves to no element. */
  function ScrollRequest(ids: seq<string>, tops: seq<int>, href: string): (r: Option<int>)
    requires |tops| == |ids| && |href| > 0 && href[0] == '#'
    ensures r.Some? <==> ResolveAnchor(ids, href).Some?
    ensures r.Some? ==> r.value + HeaderOffset == tops[ResolveAnchor(ids, href).value]
  {
    match ResolveAnchor(ids, href)
    case None => None
    case Some(t) => Some(tops[t] - HeaderOffset)
  }

  /** A target whose top is 500 is scrolled to 420; a missing id and the bare
      "#" request nothing, even when some element has no id. */
  lemma ScrollRequestExample()
    ensures ScrollRequest(["intro", "tools"], [0, 500], "#tools") == Some(420)
    ensures ScrollRequest(["intro", "tools"], [0, 500], "#missing") == None
    ensures ScrollRequest(["intro", "tools"], [0, 500], "#") == None
    ensures ScrollRequest(["", "tools"], [0, 500], "#") == None
  {
  }

  /** The inline style the navbar listener writes. */
  datatype NavbarStyle = NavbarStyle(background: string, boxShadow: string)

  const Opaque := NavbarStyle("rgba(255, 255, 255, 0.98)", "0 2px 10px rgba(0, 0, 0, 0.1)")
  const Translucent := NavbarStyle("rgba(255, 255, 255, 0.95)", "none")

  /** The navbar's style at a scroll position: opaque strictly beyond the
      threshold, translucent at or below it. */
  function NavbarStyleAt(scrollY: int): (r: NavbarStyle)
    ensures r == Opaque <==> scrollY > NavbarThreshold
    ensures r == Translucent <==> scrollY <= NavbarThreshold
  {
    if scrollY > NavbarThreshold then Opaque else Translucent
  }

  /** Once opaque, the navbar stays opaque while the page scrolls further
      down; translucent at 0 and at 50, opaque at 51. */
  lemma NavbarMonotone(y1: int, y2: int)
    requires y1 <= y2 && NavbarStyleAt(y1) == Opaque
    ensures NavbarStyleAt(y2) == Opaque
    ensures NavbarStyleAt(0) == Translucent && NavbarStyleAt(50) == Translucent && NavbarStyleAt(51) == Opaque
  {
  }
}
