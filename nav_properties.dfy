/*
 * What the navigation controller guarantees: what each event does, the
 * invariant every event preserves, that scroll-spy reports cannot move the
 * highlight while a click's suppression window is open, and that the last
 * clicked section is the one the timer commits.
 */
module NavProperties {
  import opened NavSpec

  predicate NoTimerFired(es: seq<Event>) {
    forall i :: 0 <= i < |es| ==> !es[i].TimerFired?
  }

  predicate NoNavClick(es: seq<Event>) {
    forall i :: 0 <= i < |es| ==> !es[i].NavClicked?
  }

  // ---------------------------------------------------------------------------
  // The link set

  /** Every nav link's section id is non-empty, hence truthy as a target. */
  lemma SectionIdNonEmpty(id: string)
    requires IsSectionId(id)
    ensures id != ""
  {
  }

  /** Whatever section is active, exactly one nav link is highlighted. */
  lemma ExactlyOneHighlighted(active: string)
    requires IsSectionId(active)
    ensures exists i :: 0 <= i < |NavLinks| && IsActive(active, NavLinks[i])
    ensures forall i, j ::
              (0 <= i < |NavLinks| && 0 <= j < |NavLinks| &&
               IsActive(active, NavLinks[i]) && IsActive(active, NavLinks[j])) ==> i == j
  {
  }

  // ---------------------------------------------------------------------------
  // One event at a time

  /** The component mounts in a state that satisfies the invariant, on 'home'. */
  lemma InitialSatisfiesInv()
    ensures Inv(Initial) && Initial.activeSection == "home" && !Initial.isManualScroll
  {
    assert NavLinks[0].to == "home";
  }

  /** The menu toggle flips `isOpen`; the body overflow follows, nothing else changes. */
  lemma ToggleMenuFlipsOnlyOpen(s: NavState)
    ensures Step(s, MenuToggled).isOpen == !s.isOpen
    ensures Step(s, MenuToggled).bodyOverflow == (if s.isOpen then Auto else Hidden)
    ensures Step(s, MenuToggled).(isOpen := s.isOpen, bodyOverflow := s.bodyOverflow) == s
  {
  }

  /** A scroll event sets `scrolled` exactly when the offset exceeds 50, and nothing else. */
  lemma ScrollSetsScrolled(s: NavState, scrollY: real)
    ensures Step(s, WindowScrolled(scrollY)).scrolled <==> scrollY > 50.0
    ensures Step(s, WindowScrolled(scrollY)).(scrolled := s.scrolled) == s
  {
  }

  /**
   * A click records the target, raises suppression and closes the menu, and
   * leaves the active section alone. Clicking the target a suppression window
   * is already open for keeps that window's timer; any other click clears the
   * pending timer and arms exactly one fresh one carrying the clicked target.
   */
  lemma NavClickSuppresses(s: NavState, id: string)
    requires Inv(s) && IsSectionId(id)
    ensures var r := Step(s, NavClicked(id));
      && r.targetSection == Some(id)
      && r.isManualScroll
      && !r.isOpen && r.bodyOverflow == Auto
      && r.activeSection == s.activeSection
      && r.scrolled == s.scrolled
      && r.pendingTimer.Some? && r.pendingTimer.value.target == id
    ensures s.isManualScroll && s.targetSection == Some(id) ==>
      Step(s, NavClicked(id)).pendingTimer == s.pendingTimer
    ensures !(s.isManualScroll && s.targetSection == Some(id)) ==>
      Step(s, NavClicked(id)).pendingTimer == Some(Timer(s.nextHandle, id)) &&
      (s.pendingTimer.Some? ==> s.pendingTimer.value.handle != s.nextHandle)
  {
  }

  /** A scroll-spy report moves the highlight when not suppressed, and is dropped otherwise. */
  lemma SpyReportGated(s: NavState, to: string)
    ensures !s.isManualScroll ==> Step(s, SpyReported(to)).activeSection == to
    ensures s.isManualScroll ==> Step(s, SpyReported(to)) == s
    ensures Step(s, SpyReported(to)).(activeSection := s.activeSection) == s
  {
  }

  /**
   * The pending timer, when it fires, ends suppression and commits the current
   * target; the target itself stays. It fires once: the same handle again, or
   * a handle that is not pending, changes nothing.
   */
  lemma TimerCommitsTarget(s: NavState, h: nat)
    requires Inv(s)
    ensures var r := Step(s, TimerFired(h));
      if s.pendingTimer.Some? && s.pendingTimer.value.handle == h then
        && !r.isManualScroll
        && r.activeSection == s.targetSection.value
        && r.targetSection == s.targetSection
        && r.pendingTimer == None
        && r.isOpen == s.isOpen && r.scrolled == s.scrolled
        && Step(r, TimerFired(h)) == r
      else
        r == s
  {
  }

  /** A click on the overlay closes the menu and releases the body's scrolling. */
  lemma OverlayClosesMenu(s: NavState)
    requires Inv(s)
    ensures !Step(s, OverlayClicked).isOpen && Step(s, OverlayClicked).bodyOverflow == Auto
    ensures Step(s, OverlayClicked).(isOpen := s.isOpen, bodyOverflow := s.bodyOverflow) == s
  {
  }

  /** After unmounting, the body is scrollable and no timer can commit anything. */
  lemma TeardownQuiesces(s: NavState, h: nat)
    ensures Teardown(s).bodyOverflow == Auto && Teardown(s).pendingTimer == None
    ensures Step(Teardown(s), TimerFired(h)) == Teardown(s)
    ensures Teardown(s).activeSection == s.activeSection
  {
  }

  /** Every event the page can deliver preserves the invariant. */
  lemma StepPreservesInv(s: NavState, e: Event)
    requires Inv(s) && WellFormed(e)
    ensures Inv(Step(s, e))
  {
  }

  // ---------------------------------------------------------------------------
  // Sequences of events

  lemma {:induction false} RunAppend(s: NavState, a: seq<Event>, b: seq<Event>)
    ensures Run(s, a + b) == Run(Run(s, a), b)
    decreases |a|
  {
    if a == [] {
      assert a + b == b;
    } else {
      assert (a + b)[0] == a[0];
      assert (a + b)[1..] == a[1..] + b;
      RunAppend(Step(s, a[0]), a[1..], b);
    }
  }

  /** From any state satisfying the invariant, any deliverable events keep it. */
  lemma {:induction false} RunPreservesInv(s: NavState, es: seq<Event>)
    requires Inv(s) && AllWellFormed(es)
    ensures Inv(Run(s, es))
    decreases |es|
  {
    if es != [] {
      StepPreservesInv(s, es[0]);
      assert AllWellFormed(es[1..]) by {
        forall i | 0 <= i < |es[1..]| ensures WellFormed(es[1..][i]) {
          assert es[1..][i] == es[i + 1];
        }
      }
      RunPreservesInv(Step(s, es[0]), es[1..]);
    }
  }

  /** Every state reachable from mounting satisfies the invariant. */
  lemma ReachableSatisfiesInv(es: seq<Event>)
    requires AllWellFormed(es)
    ensures Inv(Run(Initial, es))
    ensures IsSectionId(Run(Initial, es).activeSection)
  {
    InitialSatisfiesInv();
    RunPreservesInv(Initial, es);
  }

  /**
   * Mutual exclusion: while a click's suppression window is open, no event
   * short of a timer firing moves the highlight or ends suppression, whatever
   * the scroll-spy reports and whatever else is clicked.
   */
  lemma {:induction false} SuppressionHoldsActive(s: NavState, es: seq<Event>)
    requires Inv(s) && s.isManualScroll
    requires AllWellFormed(es) && NoTimerFired(es)
    ensures Run(s, es).activeSection == s.activeSection
    ensures Run(s, es).isManualScroll
    decreases |es|
  {
    if es != [] {
      StepPreservesInv(s, es[0]);
      var t := Step(s, es[0]);
      assert t.activeSection == s.activeSection && t.isManualScroll;
      assert AllWellFormed(es[1..]) && NoTimerFired(es[1..]) by {
        forall i | 0 <= i < |es[1..]|
          ensures WellFormed(es[1..][i]) && !es[1..][i].TimerFired?
        {
          assert es[1..][i] == es[i + 1];
        }
      }
      SuppressionHoldsActive(t, es[1..]);
    }
  }

  /** Only a click changes the target section. */
  lemma {:induction false} NoClickKeepsTarget(s: NavState, es: seq<Event>)
    requires NoNavClick(es)
    ensures Run(s, es).targetSection == s.targetSection
    decreases |es|
  {
    if es != [] {
      assert NoNavClick(es[1..]) by {
        forall i | 0 <= i < |es[1..]| ensures !es[1..][i].NavClicked? {
          assert es[1..][i] == es[i + 1];
        }
      }
      NoClickKeepsTarget(Step(s, es[0]), es[1..]);
    }
  }

  /**
   * Last navigation wins: after a click on `b` and any later events other
   * than clicks, the target is `b`, every timer still pending carries `b`, and
   * when it fires it commits `b`; no earlier target can be committed.
   */
  lemma LastNavigationWins(s: NavState, pre: seq<Event>, b: string, post: seq<Event>)
    requires Inv(s) && AllWellFormed(pre) && IsSectionId(b) && AllWellFormed(post)
    requires NoNavClick(post)
    ensures var t := Run(s, pre + [NavClicked(b)] + post);
      && t.targetSection == Some(b)
      && Inv(t)
      && (t.pendingTimer.Some? ==>
            t.pendingTimer.value.target == b &&
            Step(t, TimerFired(t.pendingTimer.value.handle)).activeSection == b)
  {
    RunPreservesInv(s, pre);
    var m := Run(s, pre);
    StepPreservesInv(m, NavClicked(b));
    var c := Step(m, NavClicked(b));
    assert c.targetSection == Some(b);
    RunAppend(s, pre, [NavClicked(b)]);
    assert Run(m, [NavClicked(b)]) == c;
    RunAppend(s, pre + [NavClicked(b)], post);
    RunPreservesInv(c, post);
    NoClickKeepsTarget(c, post);
  }

  /**
   * Once a click on a different section has re-armed the timer, the timer the
   * earlier click armed is inert: firing its handle changes nothing.
   */
  lemma StaleTimerIsInert(s: NavState, a: string, b: string)
    requires Inv(s) && IsSectionId(a) && IsSectionId(b) && a != b
    ensures var first := Step(s, NavClicked(a));
      var second := Step(first, NavClicked(b));
      && second.pendingTimer.Some?
      && second.pendingTimer.value.target == b
      && first.pendingTimer.Some?
      && second.pendingTimer.value.handle != first.pendingTimer.value.handle
      && Step(second, TimerFired(first.pendingTimer.value.handle)) == second
  {
  }

  /**
   * A click on 'projects' from the initial page: a scroll-spy report of
   * 'home' during the window is dropped, and the timer commits 'projects'.
   */
  lemma ClickThenStaleSpyReport()
    ensures var t := Run(Initial, [NavClicked("projects"), SpyReported("home"), SpyReported("about")]);
      && t.activeSection == "home"
      && t.isManualScroll
      && Step(t, TimerFired(0)).activeSection == "projects"
      && !Step(t, TimerFired(0)).isManualScroll
  {
  }
}
