/** Clients of Portfolio.Page: event sequences whose outcome follows from the
    handlers' contracts alone. */
module Scenarios {
  import opened Lookup
  import opened ContactForm
  import opened Sections
  import opened MobileMenu
  import opened Portfolio

  function ThreeSections(): seq<Section> {
    [Section("home", false), Section("projects", false), Section("contact", false)]
  }

  function ThreeLinks(): seq<NavLink> {
    [NavLink("#home", Unstyled), NavLink("#projects", Unstyled), NavLink("#contact", Unstyled)]
  }

  /** Start-up shows home and ArrowRight then moves to projects. */
  method ArrowScenario() {
    var p := new Page(ThreeSections(), ThreeLinks(), [], [], [], [], true);
    ghost var n := p.Nav();
    p.Start();
    ShowKnownSection(n, "home", 0);
    KnownSectionKeys(n, "home", 0, "ArrowRight");
    ArrowRightSteps(0);
    assert p.skillTimers == 1;
    var r := p.OnKeyDown("ArrowRight", false);
    assert r == Navigate("projects");
  }

  /** A link to a missing section leaves no section active; Escape still closes
      the open menu, and the handler then fails at the `.id` read. */
  method UnknownSectionScenario() {
    var p := new Page(ThreeSections(), ThreeLinks(), [], [], [], [], true);
    assert LinkTarget("#about") == "about";
    ghost var before := p.Nav();
    p.OnInternalLinkClick("#about");
    ShowUnknownSection(before, "about");
    UnknownSectionBreaksKeys(before, "about", "Escape");
    p.OnHamburgerClick();
    var r := p.OnKeyDown("Escape", false);
    assert r == NoActiveSection;
    assert p.MenuState() == Closed;
  }

  /** A valid submission shows the sending message, and after the simulated
      send the thank-you message with the form cleared. An auto-hide left over
      from an earlier error fires on whatever message is showing by then. */
  method FormScenario() {
    var p := new Page([], [], [], [], [], [], true);
    p.nameValue, p.emailValue, p.messageValue := "Bob", "bob@@nodot", "hi";
    SubmissionExamples();
    var v := p.OnSubmit();
    assert v == InvalidEmail && p.messageText == InvalidAddress && p.hideTimers == 1;

    p.emailValue := "bob@example.com";
    v := p.OnSubmit();
    assert v == Accepted && p.messageText == Sending && p.messageVisible;
    assert p.hideTimers == 1 && p.sendTimers == 1;

    p.OnHideTimer();
    assert p.messageText == Sending && !p.messageVisible;

    p.OnSendTimer();
    assert p.messageText == Thanks && p.messageClasses == {"success"} && p.messageVisible;
    assert p.nameValue == "" && p.emailValue == "" && p.messageValue == "";
  }
}
