/** The two exclusive toggle groups (comparison views, tool views): a click
    clears every button and every view of its group, marks the clicked
    button, and marks the element its target attribute names. */
module Toggle {
  import opened Dom

  /** The id looked up for a button: its `data-view` / `data-tool`
      attribute, or the string "null" when the attribute is missing. */
  function TargetKey(attr: Option<string>): string {
    match attr
    case Some(s) => s
    case None => "null"
  }

  /** The element a button's click shows, if any. */
  function TargetOf(ids: seq<string>, g: ToggleGroup, b: nat): Option<nat>
    requires b < |g.targets|
  {
    FindById(ids, TargetKey(g.targets[b]))
  }

  /** `nodes.forEach(n => n.classList.remove('active'))`: exactly the
      listed elements end inactive, the rest keep their flag. */
  function Cleared(f: seq<bool>, nodes: seq<nat>): (r: seq<bool>)
    requires AllWithin(nodes, |f|)
    ensures |r| == |f|
    ensures forall k :: 0 <= k < |f| ==> r[k] == (k !in nodes && f[k])
  {
    if nodes == [] then f
    else Cleared(f, nodes[..|nodes| - 1])[nodes[|nodes| - 1] := false]
  }

  /** The flags after button `b` of group `g` is clicked: the clicked
      button and the target element are active, the rest of the group is
      inactive, and every other element keeps its flag. */
  function Clicked(f: seq<bool>, ids: seq<string>, g: ToggleGroup, b: nat): (r: seq<bool>)
    requires |ids| == |f| && GroupWellFormed(g, |f|) && b < |g.buttons|
    ensures |r| == |f|
    ensures forall k :: 0 <= k < |f| ==>
      r[k] == (k == g.buttons[b] || TargetOf(ids, g, b) == Some(k) || (k !in g.buttons && k !in g.views && f[k]))
  {
    var shown := Cleared(Cleared(f, g.buttons), g.views)[g.buttons[b] := true];
    match TargetOf(ids, g, b)
    case None => shown
    case Some(t) => shown[t := true]
  }

  /** A click leaves the clicked button active and every other button of the
      group inactive, unless that other button is itself the target. */
  lemma ClickedButtons(f: seq<bool>, ids: seq<string>, g: ToggleGroup, b: nat)
    requires |ids| == |f| && GroupWellFormed(g, |f|) && b < |g.buttons|
    ensures forall j :: 0 <= j < |g.buttons| ==>
      Clicked(f, ids, g, b)[g.buttons[j]] == (j == b || TargetOf(ids, g, b) == Some(g.buttons[j]))
  {
  }

  /** A view of the group is active after a click exactly when it is the
      target (or the clicked button itself); an unresolved target leaves
      every view inactive. */
  lemma ClickedViews(f: seq<bool>, ids: seq<string>, g: ToggleGroup, b: nat)
    requires |ids| == |f| && GroupWellFormed(g, |f|) && b < |g.buttons|
    ensures forall i :: 0 <= i < |g.views| ==>
      Clicked(f, ids, g, b)[g.views[i]] == (g.views[i] == g.buttons[b] || TargetOf(ids, g, b) == Some(g.views[i]))
    ensures TargetOf(ids, g, b).None? && g.buttons[b] !in g.views ==>
      forall i :: 0 <= i < |g.views| ==> !Clicked(f, ids, g, b)[g.views[i]]
  {
  }

  /** Elements outside the group that the click does not target are
      untouched; in particular the other group, when the target lies outside
      it. */
  lemma OtherGroupUntouched(f: seq<bool>, ids: seq<string>, g: ToggleGroup, b: nat, other: seq<nat>)
    requires |ids| == |f| && GroupWellFormed(g, |f|) && b < |g.buttons| && AllWithin(other, |f|)
    requires forall j :: 0 <= j < |other| ==> other[j] !in g.buttons && other[j] !in g.views
    requires forall j :: 0 <= j < |other| ==> TargetOf(ids, g, b) != Some(other[j])
    ensures forall j :: 0 <= j < |other| ==> Clicked(f, ids, g, b)[other[j]] == f[other[j]]
  {
  }

  /** Clicking the same button again changes nothing. */
  lemma ClickIdempotent(f: seq<bool>, ids: seq<string>, g: ToggleGroup, b: nat)
    requires |ids| == |f| && GroupWellFormed(g, |f|) && b < |g.buttons|
    ensures Clicked(Clicked(f, ids, g, b), ids, g, b) == Clicked(f, ids, g, b)
  {
  }

  /** Every button's target names a view of its group, and no element is
      both a button and a view: the markup the page is written for. */
  predicate Wired(ids: seq<string>, g: ToggleGroup)
    requires |g.targets| == |g.buttons|
  {
    && (forall j :: 0 <= j < |g.buttons| ==> TargetOf(ids, g, j).Some? && TargetOf(ids, g, j).value in g.views)
    && (forall j :: 0 <= j < |g.buttons| ==> g.buttons[j] !in g.views)
  }

  /** In a wired group, after any click exactly one button and exactly one
      view carry `active`: the clicked button and its view. */
  lemma ExactlyOneActive(f: seq<bool>, ids: seq<string>, g: ToggleGroup, b: nat)
    requires |ids| == |f| && GroupWellFormed(g, |f|) && b < |g.buttons| && Wired(ids, g)
    ensures forall j :: 0 <= j < |g.buttons| ==> (Clicked(f, ids, g, b)[g.buttons[j]] <==> j == b)
    ensures exists i :: 0 <= i < |g.views| && Clicked(f, ids, g, b)[g.views[i]]
    ensures forall i, i' ::
      0 <= i < |g.views| && 0 <= i' < |g.views| && Clicked(f, ids, g, b)[g.views[i]] && Clicked(f, ids, g, b)[g.views[i']]
      ==> i == i'
  {
  }
}
