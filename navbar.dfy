/*
 * The Navbar component as an object: its state hooks and `timeoutRef` are
 * fields, each event handler is a method that updates them in place and then
 * runs the effects whose dependencies changed, and each method is proved to
 * perform exactly the transition `NavSpec.Step` describes.
 */
module NavbarComponent {
  import opened NavSpec
  import NavProperties

  class Navbar {
    var isOpen: bool
    var scrolled: bool
    var activeSection: string
    var isManualScroll: bool
    var targetSection: Option<string>
    var pendingTimer: Option<Timer>   // `timeoutRef.current` while it is still pending
    var nextHandle: nat               // the handle the next `setTimeout` returns
    var bodyOverflow: Overflow        // `document.body.style.overflow`
    var mounted: bool                 // the scroll listener is attached

    /** The component's state as a value. */
    function Model(): NavState
      reads this
    {
      NavState(isOpen, scrolled, activeSection, isManualScroll,
               targetSection, pendingTimer, nextHandle, bodyOverflow)
    }

    /** While mounted the controller's invariant holds; once unmounted nothing is left pending. */
    ghost predicate Valid()
      reads this
    {
      && (mounted ==> Inv(Model()))
      && (!mounted ==> bodyOverflow == Auto && pendingTimer == None)
    }

    /** Mounting: the `useState` initial values, then every effect runs once. */
    constructor ()
      ensures Valid() && mounted
      ensures Model() == Initial
    {
      isOpen, scrolled, activeSection := false, false, "home";
      isManualScroll, targetSection := false, None;
      pendingTimer, nextHandle := None, 0;
      mounted := true;
      // the manual-navigation effect finds `isManualScroll` false and arms nothing
      bodyOverflow := Auto;
      new;
      NavProperties.InitialSatisfiesInv();
    }

    /**
     * React re-renders after a handler changed the state: the effects whose
     * dependencies differ from those of the previous render `prev` run again.
     */
    method CommitRender(prev: NavState)
      modifies this
      ensures mounted == old(mounted)
      ensures Model() == OverflowEffect(prev, ManualNavigationEffect(prev, old(Model())))
    {
      if (isManualScroll != prev.isManualScroll || targetSection != prev.targetSection)
         && isManualScroll && Truthy(targetSection)
      {
        if pendingTimer.Some? {
          pendingTimer := None;  // clearTimeout
        }
        pendingTimer := Some(Timer(nextHandle, targetSection.value));
        nextHandle := nextHandle + 1;
      }
      if isOpen != prev.isOpen {
        if isOpen {
          bodyOverflow := Hidden;
        } else {
          bodyOverflow := Auto;
        }
      }
    }

    /** `toggleMenu`: the menu button. */
    method ToggleMenu()
      requires Valid() && mounted
      modifies this
      ensures Valid() && mounted
      ensures Model() == Step(old(Model()), MenuToggled)
    {
      var prev := Model();
      isOpen := !isOpen;
      CommitRender(prev);
      NavProperties.StepPreservesInv(prev, MenuToggled);
    }

    /** `handleScroll`: the window's scroll listener, given `window.scrollY`. */
    method HandleScroll(scrollY: real)
      requires Valid() && mounted
      modifies this
      ensures Valid() && mounted
      ensures Model() == Step(old(Model()), WindowScrolled(scrollY))
    {
      var prev := Model();
      if scrollY > ScrolledThreshold {
        scrolled := true;
      } else {
        scrolled := false;
      }
      CommitRender(prev);
      NavProperties.StepPreservesInv(prev, WindowScrolled(scrollY));
    }

    /** `handleNavClick`: a nav link or the logo was clicked. */
    method HandleNavClick(sectionId: string)
      requires Valid() && mounted
      requires IsSectionId(sectionId)
      modifies this
      ensures Valid() && mounted
      ensures Model() == Step(old(Model()), NavClicked(sectionId))
    {
      var prev := Model();
      targetSection := Some(sectionId);
      isManualScroll := true;
      if isOpen {
        isOpen := false;
      }
      CommitRender(prev);
      NavProperties.StepPreservesInv(prev, NavClicked(sectionId));
    }

    /** `onSetActive`: the scroll-spy reports the section in view. */
    method OnSetActive(to: string)
      requires Valid() && mounted
      requires IsSectionId(to)
      modifies this
      ensures Valid() && mounted
      ensures Model() == Step(old(Model()), SpyReported(to))
    {
      var prev := Model();
      if !isManualScroll {
        activeSection := to;
      }
      CommitRender(prev);
      NavProperties.StepPreservesInv(prev, SpyReported(to));
    }

    /** The browser runs the timer with this handle; one that was cleared never runs. */
    method TimerFires(handle: nat)
      requires Valid() && mounted
      modifies this
      ensures Valid() && mounted
      ensures Model() == Step(old(Model()), TimerFired(handle))
    {
      var prev := Model();
      if pendingTimer.Some? && pendingTimer.value.handle == handle {
        var target := pendingTimer.value.target;
        pendingTimer := None;
        isManualScroll := false;
        activeSection := target;
      }
      CommitRender(prev);
      NavProperties.StepPreservesInv(prev, TimerFired(handle));
    }

    /** The overlay behind the mobile menu was clicked. */
    method OverlayClick()
      requires Valid() && mounted
      modifies this
      ensures Valid() && mounted
      ensures Model() == Step(old(Model()), OverlayClicked)
    {
      var prev := Model();
      isOpen := false;
      CommitRender(prev);
      NavProperties.StepPreservesInv(prev, OverlayClicked);
    }

    /** Unmounting: the effects' cleanups detach the listener, clear the timer, reset the body. */
    method Unmount()
      requires Valid() && mounted
      modifies this
      ensures Valid() && !mounted
      ensures Model() == Teardown(old(Model()))
    {
      mounted := false;
      if pendingTimer.Some? {
        pendingTimer := None;  // clearTimeout
      }
      bodyOverflow := Auto;
    }
  }

  /**
   * A mounted Navbar driven through a click on 'projects', a stale scroll-spy
   * report and the timer: the report is dropped and the timer commits the click.
   */
  method ClickProjectsWhileSpyReportsHome()
  {
    var nav := new Navbar();
    assert NavLinks[3].to == "projects" && NavLinks[0].to == "home";
    nav.ToggleMenu();
    nav.HandleNavClick("projects");
    assert !nav.isOpen && nav.bodyOverflow == Auto;
    nav.OnSetActive("home");
    assert nav.activeSection == "home" && nav.isManualScroll;
    nav.TimerFires(0);
    assert nav.activeSection == "projects" && !nav.isManualScroll;
    nav.Unmount();
  }
}
