/*
 * The navigation controller of the portfolio's Navbar component, as a pure
 * reducer: the component's state, the events it reacts to, and one transition
 * per event that runs the event handler and then the effects whose
 * dependencies changed, as React does after the re-render.
 */
module NavSpec {

  datatype Option<T> = None | Some(value: T)

  /** One entry of `navLinks`: the label shown and the id of the section it scrolls to. */
  datatype NavLink = NavLink(name: string, to: string)

  /** The value written to `document.body.style.overflow`. */
  datatype Overflow = Hidden | Auto

  /** A pending `setTimeout`: the handle it returned and the target its callback captured. */
  datatype Timer = Timer(handle: nat, target: string)

  /**
   * The component's state. `pendingTimer` is the timer held in `timeoutRef`
   * that has neither fired nor been cleared; `nextHandle` is the handle the
   * next `setTimeout` returns; `bodyOverflow` is the document body's overflow.
   */
  datatype NavState = NavState(
    isOpen: bool,
    scrolled: bool,
    activeSection: string,
    isManualScroll: bool,
    targetSection: Option<string>,
    pendingTimer: Option<Timer>,
    nextHandle: nat,
    bodyOverflow: Overflow)

  /** The events the component handles, one at a time. */
  datatype Event =
    | MenuToggled                 // the menu button
    | WindowScrolled(scrollY: real) // the window's scroll listener
    | NavClicked(sectionId: string) // a nav link or the logo
    | SpyReported(to: string)      // `onSetActive` from the scroll-spy links
    | TimerFired(handle: nat)      // the browser runs the timer with this handle
    | OverlayClicked               // the dimmed overlay behind the mobile menu

  /** Scroll offset beyond which the header counts as scrolled. */
  const ScrolledThreshold: real := 50.0

  const NavLinks: seq<NavLink> := [
    NavLink("Home", "home"),
    NavLink("About", "about"),
    NavLink("Knowledge", "knowledge"),
    NavLink("Projects", "projects"),
    NavLink("Contact", "contact")
  ]

  /** The id of a section that some nav link scrolls to. */
  predicate IsSectionId(id: string) {
    exists i :: 0 <= i < |NavLinks| && NavLinks[i].to == id
  }

  /** A link is highlighted exactly when it points at the active section. */
  function IsActive(activeSection: string, link: NavLink): bool {
    activeSection == link.to
  }

  /** JavaScript truthiness of `targetSection`: neither null nor the empty string. */
  predicate Truthy(target: Option<string>) {
    target.Some? && target.value != ""
  }

  function OverflowFor(isOpen: bool): Overflow {
    if isOpen then Hidden else Auto
  }

  /** The state after mounting: the `useState` initial values, no timer, body scrollable. */
  const Initial: NavState :=
    NavState(false, false, "home", false, None, None, 0, OverflowFor(false))

  /** The state update an event handler makes, before React re-renders. */
  function Handle(s: NavState, e: Event): NavState {
    match e
    case MenuToggled => s.(isOpen := !s.isOpen)
    case WindowScrolled(scrollY) => s.(scrolled := scrollY > ScrolledThreshold)
    case NavClicked(id) =>
      // `if (isOpen) setIsOpen(false)` leaves the menu closed either way
      s.(targetSection := Some(id), isManualScroll := true, isOpen := false)
    case SpyReported(to) =>
      if !s.isManualScroll then s.(activeSection := to) else s
    case TimerFired(h) =>
      if s.pendingTimer.Some? && s.pendingTimer.value.handle == h then
        s.(isManualScroll := false, activeSection := s.pendingTimer.value.target, pendingTimer := None)
      else
        s  // a cleared timer never runs
    case OverlayClicked => s.(isOpen := false)
  }

  /**
   * The manual-navigation effect, whose dependencies are `isManualScroll` and
   * `targetSection`: when either differs from the previous render and both are
   * truthy, the pending timer is cleared and a new one armed with the target.
   */
  function ManualNavigationEffect(prev: NavState, s: NavState): NavState {
    if (s.isManualScroll != prev.isManualScroll || s.targetSection != prev.targetSection)
       && s.isManualScroll && Truthy(s.targetSection)
    then
      s.(pendingTimer := Some(Timer(s.nextHandle, s.targetSection.value)),
         nextHandle := s.nextHandle + 1)
    else
      s
  }

  /** The body-overflow effect, whose dependency is `isOpen`. */
  function OverflowEffect(prev: NavState, s: NavState): NavState {
    if s.isOpen != prev.isOpen then s.(bodyOverflow := OverflowFor(s.isOpen)) else s
  }

  /**
   * One event: the handler, then the effects of the re-render. Only the
   * scroll-spy report while not suppressed, and the live timer with the
   * target it captured, ever change the active section.
   */
  function Step(s: NavState, e: Event): (r: NavState)
    ensures r.activeSection != s.activeSection ==>
              (e.SpyReported? && !s.isManualScroll && r.activeSection == e.to) ||
              (e.TimerFired? && s.pendingTimer == Some(Timer(e.handle, r.activeSection)))
    ensures r.targetSection != s.targetSection ==> e.NavClicked? && r.targetSection == Some(e.sectionId)
    ensures s.nextHandle <= r.nextHandle
  {
    var h := Handle(s, e);
    OverflowEffect(s, ManualNavigationEffect(s, h))
  }

  /** A sequence of events, handled in arrival order. */
  function Run(s: NavState, es: seq<Event>): NavState
    decreases |es|
  {
    if es == [] then s else Run(Step(s, es[0]), es[1..])
  }

  /** Unmount: the cleanups reset the body overflow and clear any pending timer. */
  function Teardown(s: NavState): NavState {
    s.(bodyOverflow := Auto, pendingTimer := None)
  }

  /** Events the page can deliver: clicks and spy reports name a nav link's section. */
  predicate WellFormed(e: Event) {
    match e
    case NavClicked(id) => IsSectionId(id)
    case SpyReported(to) => IsSectionId(to)
    case _ => true
  }

  predicate AllWellFormed(es: seq<Event>) {
    forall i :: 0 <= i < |es| ==> WellFormed(es[i])
  }

  /**
   * The controller's invariant: the active section is a nav link's section;
   * suppression is on exactly while a timer is pending, and that timer carries
   * the current target; the body overflow follows the menu.
   */
  predicate Inv(s: NavState) {
    && IsSectionId(s.activeSection)
    && (s.isManualScroll <==> s.pendingTimer.Some?)
    && (s.pendingTimer.Some? ==>
          s.targetSection == Some(s.pendingTimer.value.target) &&
          s.pendingTimer.value.handle < s.nextHandle)
    && (s.targetSection.Some? ==> IsSectionId(s.targetSection.value))
    && s.bodyOverflow == OverflowFor(s.isOpen)
  }
}
