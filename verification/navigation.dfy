/**
 The mobile navigation menu of both pages as a transition system over the
 `active` classes of the menu and its toggle button, and the anchor-link
 scrolling rule of index.js.
 */
module Navigation {

  /** The `active` class of the menu (`#nav-menu` / `.nav-menu`) and of its
      toggle button (`#nav-toggle` / `.nav-toggle`). */
  datatype MenuState = MenuState(menuActive: bool, toggleActive: bool)

  const Closed := MenuState(false, false)

  /** The events the pages listen to. A document click carries whether its
      target lies inside the navbar; a key press carries `event.key`. */
  datatype NavEvent =
    | ToggleClick
    | LinkClick
    | DocumentClick(insideNavbar: bool)
    | KeyDown(key: string)

  /** Menu and toggle agree: both open or both closed. */
  predicate Consistent(s: MenuState) {
    s.menuActive == s.toggleActive
  }

  // ---------------------------------------------------------------------
  // index.js
  // ---------------------------------------------------------------------

  /** One event handled by index.js: the toggle flips both classes, a link
      click removes both, a click outside the navbar removes both, and Escape
      removes both when the menu is open. */
  function IndexStep(s: MenuState, e: NavEvent): (r: MenuState)
    ensures Consistent(s) ==> Consistent(r)
    ensures e == KeyDown("Escape") ==> !r.menuActive
    ensures e.LinkClick? ==> r == Closed
    ensures e.DocumentClick? ==> r == if e.insideNavbar then s else Closed
    ensures e.KeyDown? && e.key != "Escape" ==> r == s
  {
    match e
    case ToggleClick => MenuState(!s.menuActive, !s.toggleActive)
    case LinkClick => Closed
    case DocumentClick(inside) => if inside then s else Closed
    case KeyDown(key) => if key == "Escape" && s.menuActive then Closed else s
  }

  /** The state after a sequence of events, oldest first. */
  function IndexRun(s: MenuState, events: seq<NavEvent>): MenuState
    decreases |events|
  {
    if events == [] then s
    else IndexStep(IndexRun(s, events[..|events| - 1]), events[|events| - 1])
  }

  /** Every index.js event keeps menu and toggle in agreement. */
  lemma IndexStepConsistent(s: MenuState, e: NavEvent)
    requires Consistent(s)
    ensures Consistent(IndexStep(s, e))
  {
  }

  /** So does every sequence of events. */
  lemma {:induction false} IndexRunConsistent(s: MenuState, events: seq<NavEvent>)
    requires Consistent(s)
    ensures Consistent(IndexRun(s, events))
    decreases |events|
  {
    if events != [] {
      IndexRunConsistent(s, events[..|events| - 1]);
      IndexStepConsistent(IndexRun(s, events[..|events| - 1]), events[|events| - 1]);
    }
  }

  /** Escape closes the menu in every state, and closes both classes while they agree. */
  lemma EscapeCloses(s: MenuState)
    ensures !IndexStep(s, KeyDown("Escape")).menuActive
    ensures Consistent(s) ==> IndexStep(s, KeyDown("Escape")) == Closed
  {
  }

  /** Escape only looks at the menu: with the menu closed and the toggle
      marked active, the toggle keeps its class. */
  lemma EscapeKeepsStrayToggle()
    ensures IndexStep(MenuState(false, true), KeyDown("Escape")) == MenuState(false, true)
  {
  }

  /** Two toggle clicks restore any state. */
  lemma ToggleTwice(s: MenuState)
    ensures IndexStep(IndexStep(s, ToggleClick), ToggleClick) == s
    ensures CafeStep(CafeStep(s, ToggleClick), ToggleClick) == s
  {
  }

  /** A click on the toggle or on a menu link also bubbles up to the
      document listener. When the clicked element lies inside the navbar the
      bubbled click changes nothing; when it lies outside, the menu ends closed. */
  lemma BubbledClicks(s: MenuState, e: NavEvent, inside: bool)
    requires e.ToggleClick? || e.LinkClick?
    ensures IndexStep(IndexStep(s, e), DocumentClick(inside))
         == if inside then IndexStep(s, e) else Closed
  {
  }

  /** `n` toggle clicks. */
  function Toggles(n: nat): (es: seq<NavEvent>)
    ensures |es| == n && forall i :: 0 <= i < n ==> es[i] == ToggleClick
  {
    seq(n, _ => ToggleClick)
  }

  /** Starting closed, the menu is open after `n` toggle clicks exactly when `n` is odd,
      and the toggle button agrees with it. */
  lemma {:induction false} ToggleParity(n: nat)
    ensures IndexRun(Closed, Toggles(n)) == MenuState(n % 2 == 1, n % 2 == 1)
  {
    if n > 0 {
      assert Toggles(n)[..n - 1] == Toggles(n - 1);
      ToggleParity(n - 1);
    }
  }

  // ---------------------------------------------------------------------
  // IgarapeCafe.js
  // ---------------------------------------------------------------------

  /** One event handled by IgarapeCafe.js: only the toggle and the menu links
      have listeners; document clicks and key presses change nothing. */
  function CafeStep(s: MenuState, e: NavEvent): (r: MenuState)
    ensures Consistent(s) ==> Consistent(r)
    ensures e.LinkClick? ==> r == Closed
    ensures e.DocumentClick? || e.KeyDown? ==> r == s
  {
    match e
    case ToggleClick => MenuState(!s.menuActive, !s.toggleActive)
    case LinkClick => Closed
    case _ => s
  }

  /** The three hamburger bars: crossed into an X, or drawn as plain bars. */
  datatype Bars = Crossed | Plain

  /** The bars after an event: the toggle listener draws them from the
      toggle's new class, the link listener resets them. */
  function CafeBars(s: MenuState, e: NavEvent, bars: Bars): (r: Bars)
    ensures e.ToggleClick? ==> (r == Crossed <==> CafeStep(s, e).toggleActive)
    ensures e.LinkClick? ==> r == Plain
  {
    match e
    case ToggleClick => if !s.toggleActive then Crossed else Plain
    case LinkClick => Plain
    case _ => bars
  }

  /** Bars, toggle and menu agree after every IgarapeCafe.js event when they agreed before. */
  lemma CafeStepConsistent(s: MenuState, e: NavEvent, bars: Bars)
    requires Consistent(s) && (bars == Crossed <==> s.toggleActive)
    ensures Consistent(CafeStep(s, e))
    ensures CafeBars(s, e, bars) == Crossed <==> CafeStep(s, e).toggleActive
  {
  }

  // ---------------------------------------------------------------------
  // index.js: smooth scrolling to anchors
  // ---------------------------------------------------------------------

  /** The fixed header height index.js subtracts from the target's top. */
  const HeaderOffset: int := 90

  /** What a click on an `a[href^="#"]` anchor does. */
  datatype AnchorOutcome =
    | FollowLink        // the handler returns early; the browser follows the link
    | NoScroll          // default prevented, no target element found
    | ScrollTo(top: int)

  /** The anchor-click handler of index.js; `targets` maps a selector to the
      `offsetTop` of the element it finds. */
  function AnchorClick(href: string, targets: map<string, int>): (r: AnchorOutcome)
    ensures r.FollowLink? <==> href == "#" || href == ""
    ensures r.ScrollTo? <==> href != "#" && href != "" && href in targets
    ensures r.ScrollTo? ==> r.top + HeaderOffset == targets[href]
  {
    if href == "#" || href == "" then FollowLink
    else if href in targets then ScrollTo(targets[href] - HeaderOffset)
    else NoScroll
  }
}
