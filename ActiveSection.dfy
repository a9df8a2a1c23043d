/** Active-section tracking: which section the reader has scrolled to, and
    the `active` class that mirrors it onto the navigation links. */
module ActiveSection {
  import opened Dom

  /** How far above a section's top the scroll position already counts as
      inside that section. */
  const SectionThreshold: int := 100

  /** A `section[id]` element: its id attribute and its `offsetTop`. */
  datatype Section = Section(id: string, offsetTop: int)

  predicate Reached(s: Section, scrollY: int) {
    scrollY >= s.offsetTop - SectionThreshold
  }

  /** The position of the last section, in document order, that the scroll
      position has reached; None when it has reached none. */
  function LastReached(sections: seq<Section>, scrollY: int): (r: Option<nat>)
    ensures r.Some? ==> r.value < |sections| && Reached(sections[r.value], scrollY)
    ensures r.Some? ==> forall j :: r.value < j < |sections| ==> !Reached(sections[j], scrollY)
    ensures r.None? ==> forall j :: 0 <= j < |sections| ==> !Reached(sections[j], scrollY)
  {
    if sections == [] then None
    else if Reached(sections[|sections| - 1], scrollY) then Some(|sections| - 1)
    else LastReached(sections[..|sections| - 1], scrollY)
  }

  /** The id the navigation mirrors: that of the last reached section, or
      the empty string. */
  function CurrentId(sections: seq<Section>, scrollY: int): string {
    match LastReached(sections, scrollY)
    case None => ""
    case Some(i) => sections[i].id
  }

  /** The scan of `updateActiveNavigation`: walk the sections in document
      order and overwrite `current` with every section already reached. */
  method FindCurrent(sections: seq<Section>, scrollY: int) returns (current: string)
    ensures current == CurrentId(sections, scrollY)
  {
    current := "";
    var i := 0;
    while i < |sections|
      invariant 0 <= i <= |sections|
      invariant current == CurrentId(sections[..i], scrollY)
    {
      assert sections[..i + 1][..i] == sections[..i];
      if scrollY >= sections[i].offsetTop - SectionThreshold {
        current := sections[i].id;
      }
      i := i + 1;
    }
    assert sections[..i] == sections;
  }

  /** Scrolling further down never moves the selection back up the page. */
  lemma ScrollingDownNeverMovesUp(sections: seq<Section>, y1: int, y2: int)
    requires y1 <= y2 && LastReached(sections, y1).Some?
    ensures LastReached(sections, y2).Some?
    ensures LastReached(sections, y1).value <= LastReached(sections, y2).value
  {
  }

  predicate AscendingTops(sections: seq<Section>) {
    forall i, j :: 0 <= i < j < |sections| ==> sections[i].offsetTop <= sections[j].offsetTop
  }

  /** With sections laid out top to bottom, the reached sections are exactly
      those up to the selected one: the selection is the lowest section whose
      threshold the scroll position has passed. */
  lemma AscendingReachedPrefix(sections: seq<Section>, scrollY: int)
    requires AscendingTops(sections)
    ensures forall j :: 0 <= j < |sections| ==>
      (Reached(sections[j], scrollY) <==> LastReached(sections, scrollY).Some? && j <= LastReached(sections, scrollY).value)
  {
  }

  /** The `active` class after `updateActiveNavigation` walks the links:
      each link loses it, then gets it back when its href is '#' + current.
      Afterwards a link is active exactly when its href is '#' + current, and
      elements that are not links keep their flag. */
  function Highlighted(f: seq<bool>, links: seq<Link>, current: string): (r: seq<bool>)
    requires LinksWithin(links, |f|) && DistinctLinks(links)
    ensures |r| == |f|
    ensures forall j :: 0 <= j < |links| ==> r[links[j].node] == (links[j].href == "#" + current)
    ensures forall k :: 0 <= k < |f| && (forall j :: 0 <= j < |links| ==> links[j].node != k) ==> r[k] == f[k]
  {
    if links == [] then f
    else
      var last := links[|links| - 1];
      Highlighted(f, links[..|links| - 1], current)[last.node := last.href == "#" + current]
  }

  /** With no section reached, a link whose href is exactly "#" is active. */
  lemma BareHashWhenNothingReached(f: seq<bool>, links: seq<Link>, sections: seq<Section>, scrollY: int, j: nat)
    requires LinksWithin(links, |f|) && DistinctLinks(links)
    requires j < |links| && links[j].href == "#"
    requires forall i :: 0 <= i < |sections| ==> !Reached(sections[i], scrollY)
    ensures Highlighted(f, links, CurrentId(sections, scrollY))[links[j].node]
  {
  }

  /** When the links' hrefs differ, at most one link is active afterwards. */
  lemma AtMostOneLinkActive(f: seq<bool>, links: seq<Link>, current: string, i: nat, j: nat)
    requires LinksWithin(links, |f|) && DistinctLinks(links)
    requires i < |links| && j < |links| && links[i].href != links[j].href
    ensures !(Highlighted(f, links, current)[links[i].node] && Highlighted(f, links, current)[links[j].node])
  {
  }

  /** Running the update twice gives what running it once gives. */
  lemma HighlightedIdempotent(f: seq<bool>, links: seq<Link>, current: string)
    requires LinksWithin(links, |f|) && DistinctLinks(links)
    ensures Highlighted(Highlighted(f, links, current), links, current) == Highlighted(f, links, current)
  {
  }
}
