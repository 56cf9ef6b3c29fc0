/** The mobile menu: the `active` class on the nav menu and on the hamburger,
    and the events that change them. Portfolio.Page applies these in place. */
module MobileMenu {

  /** Whether `navMenu` and `hamburger` carry `active`. */
  datatype Menu = Menu(navActive: bool, burgerActive: bool)

  const Closed := Menu(false, false)

  /** Both flags agree: the menu and its button show the same state. */
  predicate InSync(m: Menu) {
    m.navActive == m.burgerActive
  }

  /** Above this window width the resize handler closes the menu. */
  const Breakpoint := 768

  datatype MenuEvent =
    | HamburgerClick
    | DocumentClick(insideNav: bool, insideHamburger: bool)
    | NavLinkClick
    | EscapeKey
    | Resize(width: int)

  /** The events whose handler removes `active` from both elements. */
  predicate Closes(e: MenuEvent) {
    match e
    case HamburgerClick => false
    case DocumentClick(insideNav, insideHamburger) => !insideNav && !insideHamburger
    case NavLinkClick => true
    case EscapeKey => true
    case Resize(width) => width > Breakpoint
  }

  /** One handler: the hamburger toggles each flag, a closing event clears
      both, anything else leaves them. */
  function Step(m: Menu, e: MenuEvent): (r: Menu)
    ensures InSync(m) ==> InSync(r)
    ensures Closes(e) ==> r == Closed
    ensures e.HamburgerClick? ==> r.navActive != m.navActive && r.burgerActive != m.burgerActive
    ensures !Closes(e) && !e.HamburgerClick? ==> r == m
  {
    if e.HamburgerClick? then Menu(!m.navActive, !m.burgerActive)
    else if Closes(e) then Closed
    else m
  }

  /** The menu after a series of events. */
  function Run(m: Menu, es: seq<MenuEvent>): Menu
    decreases |es|
  {
    if es == [] then m else Run(Step(m, es[0]), es[1..])
  }

  /** Starting closed, or in any state where the two agree, the flags agree
      after every series of events. */
  lemma {:induction false} RunKeepsSync(m: Menu, es: seq<MenuEvent>)
    requires InSync(m)
    ensures InSync(Run(m, es))
    decreases |es|
  {
    if es != [] {
      RunKeepsSync(Step(m, es[0]), es[1..]);
    }
  }

  /** A series of events ending in a closing event leaves the menu closed. */
  lemma {:induction false} RunEndsClosed(m: Menu, es: seq<MenuEvent>)
    requires es != [] && Closes(es[|es| - 1])
    ensures Run(m, es) == Closed
    decreases |es|
  {
    if |es| > 1 {
      assert es[1..][|es[1..]| - 1] == es[|es| - 1];
      RunEndsClosed(Step(m, es[0]), es[1..]);
    }
  }

  /** Closing twice is closing once; two hamburger clicks restore the menu;
      a resize to at most 768 pixels changes nothing. */
  lemma StepLaws(m: Menu, e: MenuEvent, width: int)
    ensures Closes(e) ==> Step(Step(m, e), e) == Step(m, e)
    ensures Step(Step(m, HamburgerClick), HamburgerClick) == m
    ensures width <= Breakpoint ==> Step(m, Resize(width)) == m
  {
  }

  /** Sample event sequences from a closed menu: opening it, then closing it by
      an outside click, Escape or a wide resize, or keeping it open by a click
      inside the menu. */
  lemma MenuScenarios()
    ensures Run(Closed, [HamburgerClick]) == Menu(true, true)
    ensures Run(Closed, [HamburgerClick, DocumentClick(false, false)]) == Closed
    ensures Run(Closed, [HamburgerClick, EscapeKey]) == Closed
    ensures Run(Closed, [HamburgerClick, Resize(1024)]) == Closed
    ensures Run(Closed, [HamburgerClick, DocumentClick(true, false)]) == Menu(true, true)
  {
    assert [HamburgerClick][1..] == [];
    assert [HamburgerClick, DocumentClick(false, false)][1..] == [DocumentClick(false, false)];
    assert [HamburgerClick, EscapeKey][1..] == [EscapeKey];
    assert [HamburgerClick, Resize(1024)][1..] == [Resize(1024)];
    assert [HamburgerClick, DocumentClick(true, false)][1..] == [DocumentClick(true, false)];
  }
}
