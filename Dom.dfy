/** The page's document, abstracted to what the interaction script reads:
    every element has an index in document order and an `id` attribute
    (the empty string when it has none), and the script works on the
    indices of the elements its selectors match. */
module Dom {

  datatype Option<T> = None | Some(value: T)

  /** An anchor inside the navigation menu whose `href` starts with '#'. */
  datatype Link = Link(node: nat, href: string)

  /** One toggle group: its buttons, the `data-view` / `data-tool` attribute
      of each button (None when the attribute is missing) and its views. */
  datatype ToggleGroup = ToggleGroup(buttons: seq<nat>, targets: seq<Option<string>>, views: seq<nat>)

  /** The elements the script looks up. The navigation links are queried
      again on every navigation update, but the script never changes which
      elements match, so one list serves every query. */
  datatype Structure = Structure(
    ids: seq<string>,
    hamburger: Option<nat>,
    navMenu: Option<nat>,
    navLinks: seq<Link>,
    comparison: ToggleGroup,
    tools: ToggleGroup,
    hasNavbar: bool)

  predicate Within(o: Option<nat>, n: nat) {
    o.Some? ==> o.value < n
  }

  predicate Distinct(nodes: seq<nat>) {
    forall i, j :: 0 <= i < j < |nodes| ==> nodes[i] != nodes[j]
  }

  predicate AllWithin(nodes: seq<nat>, n: nat) {
    forall j :: 0 <= j < |nodes| ==> nodes[j] < n
  }

  predicate LinksWithin(links: seq<Link>, n: nat) {
    forall j :: 0 <= j < |links| ==> links[j].node < n
  }

  predicate DistinctLinks(links: seq<Link>) {
    forall i, j :: 0 <= i < j < |links| ==> links[i].node != links[j].node
  }

  /** A group as a node list returns it: distinct elements of the document,
      one target attribute per button. */
  predicate GroupWellFormed(g: ToggleGroup, n: nat) {
    && |g.targets| == |g.buttons|
    && AllWithin(g.buttons, n) && Distinct(g.buttons)
    && AllWithin(g.views, n) && Distinct(g.views)
  }

  predicate WellFormed(d: Structure) {
    var n := |d.ids|;
    && Within(d.hamburger, n)
    && Within(d.navMenu, n)
    && LinksWithin(d.navLinks, n)
    && DistinctLinks(d.navLinks)
    && (forall j :: 0 <= j < |d.navLinks| ==> |d.navLinks[j].href| > 0 && d.navLinks[j].href[0] == '#')
    && GroupWellFormed(d.comparison, n)
    && GroupWellFormed(d.tools, n)
  }

  /** The first element at or after position `from` whose id is `id`. */
  function IndexFrom(ids: seq<string>, id: string, from: nat): (r: Option<nat>)
    requires from <= |ids|
    ensures r.Some? ==> from <= r.value < |ids| && ids[r.value] == id
    ensures r.Some? ==> forall k :: from <= k < r.value ==> ids[k] != id
    ensures r.None? ==> forall k :: from <= k < |ids| ==> ids[k] != id
    decreases |ids| - from
  {
    if from == |ids| then None
    else if ids[from] == id then Some(from)
    else IndexFrom(ids, id, from + 1)
  }

  /** `document.getElementById(id)`: the first element in document order
      whose id is `id`; an empty id names no element. */
  function FindById(ids: seq<string>, id: string): (r: Option<nat>)
    ensures r.Some? ==> id != "" && r.value < |ids| && ids[r.value] == id
    ensures r.Some? ==> forall k :: 0 <= k < r.value ==> ids[k] != id
    ensures r.None? ==> id == "" || forall k :: 0 <= k < |ids| ==> ids[k] != id
  {
    if id == "" then None else IndexFrom(ids, id, 0)
  }
}
