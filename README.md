# Page interaction script, modelled in Dafny

This project models the interaction layer of a static guide page (`script.js`).
Once the document is ready, the script wires event handlers that switch an
`active` CSS class on elements and write a few inline styles:

- the mobile menu (hamburger click, menu-link click, Escape);
- the scroll-driven highlighting of the navigation link for the current section;
- the two exclusive toggle groups, comparison views and tool views;
- the smooth-scroll target of same-page anchors;
- the navbar's opaque/translucent style;
- the `throttle` wrapper.

The DOM is abstracted to what the handlers read and write. Every element has an
index in document order. `Dom.Structure` holds each element's `id` attribute and
the indices of the elements the script looks up. The navigation links are
queried again on every `updateActiveNavigation` call (script.js:43-44), but no
handler changes which elements match `.nav-menu a[href^="#"]`, so one list serves
every query. The `active` class of
every element is one `bool` in the array `PageScript.Page.active`. Menu,
hamburger, navigation links, toggle buttons and views are indices into that
array. `document.getElementById` therefore searches the whole document
(`Dom.FindById`), as in the source. A toggle button whose `data-view` names an
element outside its own group marks that element.

Module by module:

- `Dom`: the document structure and `getElementById`.
- `Menu`: the menu transitions as functions on the flags, and their properties.
- `ActiveSection`: the section scan (a method with a loop, proved against
  `LastReached` / `CurrentId`) and the link highlighting (`Highlighted`).
- `Toggle`: the clear-then-set click of a toggle group (`Cleared`, `Clicked`)
  and what a click leaves active.
- `ScrollRules`: the scroll offset of an anchor click and the navbar style.
- `Throttle`: the one-flag gate as a transition function, event traces over it,
  and the `Gate` class holding the closure's `inThrottle` flag.
- `PageScript`: the class `Page` with one method per event handler. Each method
  is proved to leave the flags equal to the corresponding function of the old
  flags.

Edge cases the model keeps from the code:

- `getElementById("")` finds nothing, because an empty id is no id.
- A button without its data attribute looks up the id `"null"`, which is what
  `getAttribute` returning `null` turns into.
- An anchor whose href is exactly `#` requests no scroll. `querySelector('#')`
  throws, and the default jump was already prevented.
- The Escape handler checks only the menu element. If the menu is active but the
  hamburger is missing, the menu is cleared before the failing hamburger access.
- The hamburger handler toggles the menu, then the hamburger. If both selectors
  matched the same element, a click would leave it unchanged.
- `section.clientHeight` is read in `updateActiveNavigation` but never used, so
  the model has no section height.
- `updateActiveNavigation` is registered twice on scroll, once plainly
  (script.js:64) and once through `throttle` (script.js:235).
  `PageScript.Page.OnScroll` runs the listeners in registration order.
  `ActiveSection.HighlightedIdempotent` shows that the throttled second run
  changes nothing, so the throttle does not rate-limit this page.

Two consequences of the code that are easy to miss:

- When no section is reached, `current` stays `''`, so a link whose href is
  exactly `#` becomes active (`ActiveSection.BareHashWhenNothingReached`).
- A toggle click leaves no view active when the target id does not resolve, and
  it can mark an element outside its group. Exactly one view is active only in a
  group whose buttons all target its own views (`Toggle.ExactlyOneActive`, under
  `Toggle.Wired`).

## Model

| member | source | states |
|---|---|---|
| Dom.FindById | script.js:83-86 | `getElementById`: the result is the first element in document order carrying the id; nothing is found for the empty id or an id no element carries |
| Menu.HamburgerClick | script.js:8-12 | a hamburger click changes only the menu and hamburger flags, and changes nothing when either element is missing |
| Menu.MenuLinkClick | script.js:8-20 | a menu-link click changes only the menu and hamburger flags, and changes nothing when either element is missing |
| Menu.KeyDown | script.js:164-170 | a key press changes only the menu and hamburger flags, and changes nothing when the menu element is missing |
| Menu.HamburgerInverts | script.js:9-12 | a hamburger click inverts both the menu and the hamburger flag |
| Menu.HamburgerTwiceRestores | script.js:9-12 | two consecutive hamburger clicks restore every flag of the document |
| Menu.MenuStaysInSync | script.js:9-20 | if the menu and hamburger flags start equal, they are still equal after a hamburger click, a link click or a key press |
| Menu.MenuLinkCloses | script.js:15-20 | after a menu-link click both flags are false, whatever they were before |
| Menu.EscapeClosesOnlyOpenMenu | script.js:164-170 | Escape on an active menu clears the menu and the hamburger if present; any other key, or Escape on an inactive menu, changes nothing |
| Menu.OnlyHamburgerOpens | script.js:14-170 | neither a link click nor a key press ever makes an inactive menu active |
| ActiveSection.LastReached | script.js:46-53 | the chosen section is reached (`scrollY >= offsetTop - 100`) and no later section is reached; None exactly when no section is reached |
| ActiveSection.FindCurrent | script.js:46-53 | the overwriting scan returns the id of the last reached section in document order, or `''` when none is reached |
| ActiveSection.ScrollingDownNeverMovesUp | script.js:47-53 | a larger scroll position selects the same section or a later one |
| ActiveSection.AscendingReachedPrefix | script.js:47-53 | with section tops ascending, a section is reached exactly when it is at or before the selected one |
| ActiveSection.Highlighted | script.js:55-60 | after the link walk, a link is active exactly when its href equals `'#' + current`; every element that is not a link keeps its flag |
| ActiveSection.BareHashWhenNothingReached | script.js:55-60 | when no section is reached, a link whose href is exactly `#` ends active |
| ActiveSection.AtMostOneLinkActive | script.js:55-60 | two links with different hrefs are never both active after the update |
| ActiveSection.HighlightedIdempotent | script.js:234-237 | running the update a second time with the same layout changes nothing |
| Toggle.Cleared | script.js:76-77 | clearing a node list leaves exactly the listed elements inactive and every other element unchanged |
| Toggle.Clicked | script.js:71-88 | after a click, the clicked button and the element its target id names are active; every other button and view of the group is inactive; all other elements keep their flag |
| Toggle.ClickedButtons | script.js:76-80 | the clicked button is the only active button of its group, unless another button is itself the target |
| Toggle.ClickedViews | script.js:83-86 | a view is active after a click exactly when it is the target (or the clicked button); an unresolved target leaves every view inactive |
| Toggle.OtherGroupUntouched | script.js:94-111 | elements outside the clicked group that are not its target, e.g. the other group's buttons and views, keep their flags |
| Toggle.ClickIdempotent | script.js:71-88 | clicking the same button twice leaves the same flags as clicking it once |
| Toggle.ExactlyOneActive | script.js:75-86 | in a group whose buttons all target views of that group, after any click exactly one button (the clicked one) and exactly one view are active |
| ScrollRules.ResolveAnchor | script.js:27 | the anchor's target is the first element, in document order, whose id is the href after `#`; nothing is found when no element has that id or the href is the bare `#`, even when some element has no id |
| PageScript.Page.OnAnchorClick | script.js:24-38 | a same-page anchor click requests a scroll exactly when its href resolves, to the target's `offsetTop - 80`; it changes no flag |
| ScrollRules.ScrollRequest | script.js:27-37 | a scroll is requested exactly when the target resolves, and the requested position plus 80 is the target's `offsetTop` |
| ScrollRules.ScrollRequestExample | script.js:29-31 | a target at top 500 is scrolled to 420; a missing target and the bare `#` request nothing, also in a document with an element that has no id |
| ScrollRules.NavbarStyleAt | script.js:117-123 | the navbar gets the opaque background and shadow exactly when `scrollY > 50`, and the translucent background without shadow otherwise |
| ScrollRules.NavbarMonotone | script.js:117 | scrolling further down keeps an opaque navbar opaque; it is translucent at 0 and 50 and opaque at 51 |
| Throttle.Step | script.js:226-229 | a call runs the function exactly when the gate is not throttled; after a call the gate is throttled, after an expiry it is not |
| Throttle.ThrottledCallsDropped | script.js:226-230 | any number of calls to a throttled gate run nothing and leave it throttled |
| Throttle.BurstRunsOnce | script.js:221-232 | a burst of n > 0 calls with no expiry between them runs the function exactly once |
| Throttle.SpacedCallsAllRun | script.js:221-232 | n calls, each followed by the timer's expiry, run the function n times |
| Throttle.DroppedCallsLeaveNoTrace | script.js:226-229 | calls dropped while throttled are not queued: later events run exactly as if those calls had not been made |
| Throttle.OnlyExpiryClears | script.js:229 | without an expiry a throttled gate stays throttled |
| Throttle.RunsBoundedByExpiries | script.js:221-232 | over any trace, the runs are at most the expiries plus one (plus none when the gate starts throttled) |
| Throttle.ExpiriesBoundedByRuns | script.js:221-232 | in a trace where timers fire only when scheduled, every expiry is matched by a run (or by the timer already pending) |
| Throttle.Gate.constructor | script.js:222 | a fresh wrapper is not throttled |
| Throttle.Gate.Invoke | script.js:223-230 | a call follows `Step`: it runs the function exactly when the gate was not throttled, and leaves the gate throttled |
| Throttle.Gate.TimerExpired | script.js:229 | the timer's expiry clears the flag |
| PageScript.Page.Load | script.js:63-65 | the initial flags are the markup's, highlighted once for the initial scroll position; no navbar style is written yet; the page's one throttle wrapper starts open |
| PageScript.Page.OnHamburgerClick | script.js:9-12 | the new flags are `Menu.HamburgerClick` of the old ones |
| PageScript.Page.OnMenuLinkClick | script.js:15-20 | the new flags are `Menu.MenuLinkClick` of the old ones |
| PageScript.Page.OnKeyDown | script.js:164-170 | the new flags are `Menu.KeyDown` of the old ones for the pressed key |
| PageScript.Page.UpdateActiveNavigation | script.js:42-61 | the new flags are the old ones with the links highlighted for the section the scan selects |
| PageScript.Page.ClickInGroup | script.js:71-88 | the clear-then-set loops leave the flags equal to `Toggle.Clicked` of the old ones |
| PageScript.Page.OnComparisonClick | script.js:67-88 | a comparison button click is `Toggle.Clicked` on the comparison group |
| PageScript.Page.OnToolsClick | script.js:90-111 | a tools button click is `Toggle.Clicked` on the tools group |
| PageScript.Page.OnScroll | script.js:64-237 | a scroll event runs the listeners of lines 64, 116 and 235 in order: the links end highlighted as after one update, whether or not the page's throttle lets its call through; the navbar style is set for the position when the navbar exists; the throttle ends throttled |
| PageScript.Page.OnThrottleTimer | script.js:229 | the timer scheduled by the page throttle's last run fires and reopens the throttle |

## Left out

- Fade-in animations (script.js:128-149): the `IntersectionObserver` callback and opacity/transform strings are platform callbacks and presentation only.
- Hover transforms, focus outlines and the load handler (script.js:152-161, 173-195): the handlers write cosmetic inline styles, and the load handler also adds the `loaded` class to `document.body` (script.js:174). The model tracks only the `active` class.
- `trackClick` and the click-tracking listeners (script.js:198-208): they only write to the console.
- `safeQuerySelector` (script.js:211-218): a try/catch wrapper around a browser lookup that nothing calls.
- The service-worker hook (script.js:243-248): it is inert.
- The browser's `window.scrollTo` animation: the model returns the requested position (`ScrollRules.ScrollRequest`) instead of scrolling.
- `setTimeout` timing: the 100 ms cooldown is not modelled, and timer expiry is an explicit event (`PageScript.Page.OnThrottleTimer`, `Throttle.Gate.TimerExpired`, `Throttle.Event.Expire`).
- Event dispatch order across event types, and the browser's layout: section tops and the scroll position are inputs.
- `window.scrollY` can be fractional in browsers; the model uses integer scroll positions.
- ScrollRules.ResolveAnchor: treats everything after `#` as a plain id. CSS selector syntax in an href (an id starting with a digit, or a `.` or `[` inside it) makes `querySelector` throw or match differently, and that is not modelled.
- Throttle.Step: a wrapped function that throws leaves the gate open and schedules no timer (script.js:227-229), so the next call runs again. This is not modelled, because the page's only wrapped function, the navigation update, does not throw.
- PageScript.Page.OnScroll: states only that the gate is throttled afterwards, not whether the throttled call ran. The navigation result is the same either way.
- The exception thrown by the Escape handler when the hamburger element is missing is not modelled; only its effect on the flags is.
