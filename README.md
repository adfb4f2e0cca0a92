# Navbar scroll-spy navigation controller

A Dafny model of the navigation controller in the portfolio site's `Navbar`
component. This is the only part of the site with decision logic. The
controller keeps a few pieces of state:

- whether the mobile menu is open (`isOpen`);
- whether the page has scrolled past the header (`scrolled`);
- which section's nav link is highlighted (`activeSection`);
- a suppression flag raised by a click (`isManualScroll`);
- the clicked target (`targetSection`);
- one cancellable single-shot timer (`timeoutRef`).

It reacts to six events, handled one at a time: the menu toggle, a window
scroll, a nav-link click, a scroll-spy report (`onSetActive`), the
suppression timer firing, and a click on the menu overlay. Unmounting is
handled too.

The core design point is suppression. A click raises `isManualScroll`, so
scroll-spy reports cannot move the highlight while the smooth scroll runs.
A timer then lowers the flag and commits the clicked section. Re-arming
the timer clears the earlier one, so the last clicked section wins.

The model has three files:

- `nav_spec.dfy` (module `NavSpec`) is the controller as a pure reducer.
  `NavState` holds the state. `Event` lists the events. `Step` runs an
  event's handler and then each React effect whose dependencies changed:
  the manual-navigation effect (deps `isManualScroll`, `targetSection`)
  and the body-overflow effect (dep `isOpen`). `Run` folds a sequence of
  events. `Inv` is the controller's invariant. The timer is a value
  `Timer(handle, target)`: the handle `setTimeout` returned and the target
  its callback captured. So "the same timer is kept" and "a fresh timer was
  armed" can be told apart, and a cleared handle that fires does nothing.
- `nav_properties.dfy` (module `NavProperties`) proves what each event does
  and that every event preserves `Inv`. It also proves the properties over
  event sequences: mutual exclusion between the scroll-spy and a click, and
  last-navigation-wins.
- `navbar.dfy` (module `NavbarComponent`) holds the component as a class
  `Navbar`. Its fields are the state hooks, `timeoutRef`, the document
  body's overflow and whether it is mounted. Each handler is a method that
  updates the fields in place and then calls `CommitRender`, which re-runs
  the effects the way React does. Each method is proved to perform exactly
  `Step` for its event and to keep `Valid()`.

A click re-arms the timer only when `isManualScroll` or `targetSection`
changes, because only then does the effect at
`src/components/Navbar.tsx:43-54` re-run. A repeated click on the target
whose window is still open keeps the existing timer (same handle), so the
window is not extended. A click after that timer has fired re-arms.
`NavClickSuppresses` states both cases.

`NavbarComponent.ClickProjectsWhileSpyReportsHome` is the class-level run of
the scenario that `NavProperties.ClickThenStaleSpyReport` states on `Step`:
it drives a mounted `Navbar` through its methods and shows that their
contracts alone are enough to conclude the same outcome.

## Model

| member | source | states |
|---|---|---|
| NavSpec.Step | src/components/Navbar.tsx:19-76 | `Step` composes three functions: `Handle`, which models the six handlers (19-21, 24-30, 56-63, 162-166 and 289-293, 49-52, 240); `ManualNavigationEffect`, which models the dependency-gated clear-and-re-arm at 43-54; and `OverflowEffect`, which models 66-76. Its contract: only two writers change the active section. One is a scroll-spy report while suppression is off, which sets the reported section. The other is the pending timer firing with its own handle, which sets the target it captured. Only a click changes `targetSection`, and it sets the clicked id. The counter of timer handles never goes down. |
| NavProperties.SectionIdNonEmpty | src/components/Navbar.tsx:78-84 | Every `navLinks` id is a non-empty string, so a clicked target is always truthy in the effect's test. |
| NavProperties.ExactlyOneHighlighted | src/components/Navbar.tsx:151-152 | When the active section is a nav-link id, exactly one link satisfies `activeSection === link.to`. |
| NavProperties.InitialSatisfiesInv | src/components/Navbar.tsx:12-17 | The mount state starts on 'home', with suppression off, no target and no timer, and satisfies the invariant. |
| NavProperties.ToggleMenuFlipsOnlyOpen | src/components/Navbar.tsx:19-21 | The toggle flips `isOpen`. The body overflow follows the new value. Every other field is unchanged. |
| NavProperties.ScrollSetsScrolled | src/components/Navbar.tsx:24-30 | After a scroll event, `scrolled` is true exactly when `scrollY > 50`. Nothing else changes. |
| NavProperties.NavClickSuppresses | src/components/Navbar.tsx:43-63 | A click sets the target to the clicked id, raises suppression and closes the menu, releasing the body. It leaves the active section alone. If suppression is already on for the same target, the pending timer is kept. Otherwise the old timer is cleared and exactly one fresh timer is armed for the clicked id. |
| NavProperties.SpyReportGated | src/components/Navbar.tsx:162-166 | A scroll-spy report sets the active section to the reported id when suppression is off. When suppression is on it changes nothing. It never touches any other field. |
| NavProperties.TimerCommitsTarget | src/components/Navbar.tsx:49-52 | Firing the pending timer's handle lowers suppression and commits the current target as the active section. `targetSection` is left as is. Firing again changes nothing. Firing any other handle changes nothing. |
| NavProperties.OverlayClosesMenu | src/components/Navbar.tsx:240 | An overlay click closes the menu and sets the body overflow to 'auto'. Nothing else changes. |
| NavProperties.TeardownQuiesces | src/components/Navbar.tsx:73-75 | After `Teardown`, which models the cleanups at 73-75 and 36-38, the body overflow is 'auto' and no timer is pending, so no firing can change the state. |
| NavProperties.StepPreservesInv | src/components/Navbar.tsx:43-76 | Every deliverable event keeps the invariant. The active section stays a nav-link id. Suppression is on exactly while a timer is pending, and that timer carries the current target. The body overflow is 'hidden' exactly when the menu is open. |
| NavProperties.RunPreservesInv | src/components/Navbar.tsx:19-76 | Any sequence of deliverable events keeps the invariant. |
| NavProperties.ReachableSatisfiesInv | src/components/Navbar.tsx:14 | In every state reachable from mounting, the active section is one of the five nav-link ids. |
| NavProperties.SuppressionHoldsActive | src/components/Navbar.tsx:289-293 | Once suppression is on, no sequence of events without a timer firing changes the active section or lowers suppression. This covers any scroll-spy reports and any further clicks. |
| NavProperties.NoClickKeepsTarget | src/components/Navbar.tsx:56-58 | Only a click changes `targetSection`, over any sequence of events. |
| NavProperties.LastNavigationWins | src/components/Navbar.tsx:43-54 | After a click on `b` and any later events except clicks, the target is `b`. Any timer still pending carries `b`, and firing it commits `b`. |
| NavProperties.StaleTimerIsInert | src/components/Navbar.tsx:44-49 | After clicks on `a` and then a different `b`, the timer armed for `a` has been replaced by one with a new handle carrying `b`. Firing `a`'s handle changes nothing. |
| NavProperties.ClickThenStaleSpyReport | src/components/Navbar.tsx:56-63 | From mount, a click on 'projects' followed by spy reports of 'home' and 'about' leaves 'home' highlighted and suppression on. The timer then commits 'projects'. |
| NavbarComponent.Navbar.constructor | src/components/Navbar.tsx:12-17 | Mounting gives the initial state with the body overflow 'auto', and `Valid()` holds. |
| NavbarComponent.Navbar.CommitRender | src/components/Navbar.tsx:43-76 | Its new state is `NavSpec.OverflowEffect` (66-76) applied to `NavSpec.ManualNavigationEffect` (43-54) of the handler's result. After a render, only the effects whose dependencies changed since the previous render run. The manual-navigation effect clears the old timer and arms one for the truthy target. The overflow effect tracks `isOpen`. |
| NavbarComponent.Navbar.ToggleMenu | src/components/Navbar.tsx:19-21 | Updates the fields exactly as `Step` on a menu toggle and keeps `Valid()`. |
| NavbarComponent.Navbar.HandleScroll | src/components/Navbar.tsx:24-30 | Updates the fields exactly as `Step` on a scroll to `scrollY` and keeps `Valid()`. |
| NavbarComponent.Navbar.HandleNavClick | src/components/Navbar.tsx:56-63 | Updates the fields exactly as `Step` on a click, including the effect re-run, and keeps `Valid()`. |
| NavbarComponent.Navbar.OnSetActive | src/components/Navbar.tsx:289-293 | Updates the fields exactly as `Step` on a scroll-spy report and keeps `Valid()`. |
| NavbarComponent.Navbar.TimerFires | src/components/Navbar.tsx:49-52 | Updates the fields exactly as `Step` when the timer with that handle fires and keeps `Valid()`. |
| NavbarComponent.Navbar.OverlayClick | src/components/Navbar.tsx:240 | Updates the fields exactly as `Step` on an overlay click and keeps `Valid()`. |
| NavbarComponent.Navbar.Unmount | src/components/Navbar.tsx:34-39 | Its new state is `NavSpec.Teardown` of the old one, which models the cleanups at 34-39 and 73-75. The cleanups clear any pending timer and reset the body overflow to 'auto'. The component is left unmounted with nothing pending. |

## Left out

- Real time is not modelled. There is no 500 ms timer delay and no 500 ms or 10 ms scroll durations. "The timer fires" is an event that carries the timer's handle. The mismatch between the links' 10 ms animation and the 500 ms suppression window cannot be expressed without time.
- The scroll library (react-scroll) is not modelled: smooth scrolling, the -70 offset, and how its spy decides which section is in view. A scroll-spy report is an input event carrying the reported section. Only the mobile links have `spy={true}`; the desktop links (`spy={false}`) never report.
- Rendering, styling and the framer-motion animation variants are left out. So are the dark-mode button, which only calls `toggleDarkMode` from its parent.
- After the timer fires, the source's `timeoutRef` still holds the spent handle. The model records no pending timer instead. Clearing a spent handle does nothing, so the behaviour is the same.
- NavbarComponent.Navbar.HandleNavClick requires a nav-link id, because every call site passes one: `'home'` or `link.to`. NavbarComponent.Navbar.OnSetActive requires one too, because the library reports the `to` of the link. `NavSpec.Step` itself accepts any string. An empty id would be falsy, which would raise suppression with no timer; no caller can pass one.
- The other source files are not part of this model: the contact form's e-mail relay call, the social sidebar's fetch and download, the app's theme toggle, the two button components and the static sections. They are network I/O, DOM manipulation or markup without decision logic.
- Events are assumed to arrive one at a time, each handled to completion together with its re-render. React's batching, concurrent rendering and development-mode double effects are not modelled.
