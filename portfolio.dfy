/** The page controller. Instead of querying the DOM, a Page holds the element
    collections the script captures at start-up (sections, nav links, skill
    bars, filter buttons, project cards, social icons) as arrays of element
    records, plus the handful of single elements it touches (the nav menu and
    hamburger flags, the form message, the form's three fields). Each event
    handler is a method that changes these in place; a pending timer is a
    count, and the timer's callback is a method that a caller invokes when the
    delay has passed. */
module Portfolio {
  import opened Lookup
  import opened ContactForm
  import opened Sections
  import opened Projects
  import opened SkillBars
  import opened MobileMenu
  import opened Tooltips

  class Page {
    const sections: array<Section>
    const navLinks: array<NavLink>
    const skillBars: array<SkillBar>
    const filterButtons: array<FilterButton>
    const projectCards: array<ProjectCard>
    const socialIcons: array<SocialIcon>
    /** Whether the page has the `formMessage` element. */
    const hasFormMessage: bool

    /** The `active` class on `navMenu` and on `hamburger`. */
    var navActive: bool
    var burgerActive: bool

    /** The form message element: its text, its class list and whether it is displayed. */
    var messageText: string
    var messageClasses: set<string>
    var messageVisible: bool

    /** The values of the contact form's name, email and message fields. */
    var nameValue: string
    var emailValue: string
    var messageValue: string

    /** Timers started and not yet fired: the 500 ms skill-bar animation, the
        5000 ms message auto-hide and the 1500 ms simulated send. */
    var skillTimers: nat
    var hideTimers: nat
    var sendTimers: nat

    ghost function MenuState(): Menu
      reads this
    {
      Menu(navActive, burgerActive)
    }

    ghost function Nav(): Navigation
      reads this, sections, navLinks
    {
      Navigation(sections[..], navLinks[..], skillTimers)
    }

    /** The menu and the hamburger agree, and no auto-hide is pending on a page
        without a message element. */
    ghost predicate Valid()
      reads this
    {
      InSync(MenuState()) && (!hasFormMessage ==> hideTimers == 0)
    }

    /** The page as the script finds it: the given elements, the menu closed,
        no message shown, the form empty and no timer pending. */
    constructor (secs: seq<Section>, links: seq<NavLink>, bars: seq<SkillBar>,
                 buttons: seq<FilterButton>, cards: seq<ProjectCard>,
                 icons: seq<SocialIcon>, hasMessage: bool)
      ensures Valid()
      ensures fresh(sections) && fresh(navLinks) && fresh(skillBars)
      ensures fresh(filterButtons) && fresh(projectCards) && fresh(socialIcons)
      ensures sections[..] == secs && navLinks[..] == links && skillBars[..] == bars
      ensures filterButtons[..] == buttons && projectCards[..] == cards && socialIcons[..] == icons
      ensures hasFormMessage == hasMessage && MenuState() == Closed
      ensures messageText == "" && messageClasses == {} && !messageVisible
      ensures nameValue == "" && emailValue == "" && messageValue == ""
      ensures skillTimers == 0 && hideTimers == 0 && sendTimers == 0
    {
      sections := new Section[|secs|](k requires 0 <= k < |secs| => secs[k]);
      navLinks := new NavLink[|links|](k requires 0 <= k < |links| => links[k]);
      skillBars := new SkillBar[|bars|](k requires 0 <= k < |bars| => bars[k]);
      filterButtons := new FilterButton[|buttons|](k requires 0 <= k < |buttons| => buttons[k]);
      projectCards := new ProjectCard[|cards|](k requires 0 <= k < |cards| => cards[k]);
      socialIcons := new SocialIcon[|icons|](k requires 0 <= k < |icons| => icons[k]);
      hasFormMessage := hasMessage;
      navActive, burgerActive := false, false;
      messageText, messageClasses, messageVisible := "", {}, false;
      nameValue, emailValue, messageValue := "", "", "";
      skillTimers, hideTimers, sendTimers := 0, 0, 0;
    }

    /** The DOMContentLoaded handler: the home section is shown. */
    method Start()
      modifies sections, navLinks, this`skillTimers
      ensures Nav() == Sections.ShowSection(old(Nav()), "home")
    {
      ShowSection("home");
    }

    // Section navigation

    /** showSection: `active` is removed from every section, then added to the
        section with the id, if there is one; only then are the nav links
        recoloured and, for "home", the skill-bar animation scheduled. */
    method ShowSection(id: string)
      modifies sections, navLinks, this`skillTimers
      ensures Nav() == Sections.ShowSection(old(Nav()), id)
    {
      var k := 0;
      while k < sections.Length
        invariant 0 <= k <= sections.Length
        invariant forall j :: 0 <= j < k ==> sections[j] == old(sections[j]).(active := false)
        invariant forall j :: k <= j < sections.Length ==> sections[j] == old(sections[j])
        invariant unchanged(navLinks) && skillTimers == old(skillTimers)
      {
        sections[k] := sections[k].(active := false);
        k := k + 1;
      }
      SameIdsSameIndex(old(sections[..]), sections[..], id);
      var target := SectionIndex(sections[..], id);
      if target.Some? {
        sections[target.value] := sections[target.value].(active := true);
        UpdateActiveNavLink(id);
        if id == "home" {
          skillTimers := skillTimers + 1;
        }
      }
      assert sections[..] == Activated(old(sections[..]), id);
    }

    /** updateActiveNavLink: every link is coloured, primary iff it names the
        section. */
    method UpdateActiveNavLink(id: string)
      modifies navLinks
      ensures navLinks[..] == Highlighted(old(navLinks[..]), id)
    {
      var k := 0;
      while k < navLinks.Length
        invariant 0 <= k <= navLinks.Length
        invariant forall j :: 0 <= j < k ==> navLinks[j] == Highlighted(old(navLinks[..]), id)[j]
        invariant forall j :: k <= j < navLinks.Length ==> navLinks[j] == old(navLinks[j])
      {
        var target := LinkTarget(navLinks[k].href);
        navLinks[k] := navLinks[k].(color := if target == id then PrimaryColor else DarkColor);
        k := k + 1;
      }
    }

    /** A click on nav link `k`: the section its href names is shown and the
        mobile menu is closed. */
    method OnNavLinkClick(k: nat)
      requires Valid() && k < navLinks.Length
      modifies sections, navLinks, this`skillTimers, this`navActive, this`burgerActive
      ensures Valid()
      ensures Nav() == Sections.ShowSection(old(Nav()), LinkTarget(old(navLinks[k].href)))
      ensures MenuState() == Step(old(MenuState()), NavLinkClick)
    {
      var target := LinkTarget(navLinks[k].href);
      ShowSection(target);
      navActive := false;
      burgerActive := false;
    }

    /** A click on any other in-page link: its section is shown unless the href
        names none (a bare "#"). */
    method OnInternalLinkClick(href: string)
      modifies sections, navLinks, this`skillTimers
      ensures Nav() == if LinkTarget(href) != "" then Sections.ShowSection(old(Nav()), LinkTarget(href)) else old(Nav())
    {
      var target := LinkTarget(href);
      if target != "" {
        ShowSection(target);
      }
    }

    /** The keydown handler: Escape closes the mobile menu; then, unless the key
        went to a text field, an arrow key moves to the neighbouring section
        of the active one. With no active section the handler stops at the
        `.id` read, after the Escape branch has run. */
    method OnKeyDown(key: string, inTextField: bool) returns (r: ArrowResult)
      requires Valid()
      modifies sections, navLinks, this`skillTimers, this`navActive, this`burgerActive
      ensures Valid()
      ensures MenuState() == if key == "Escape" then Step(old(MenuState()), EscapeKey) else old(MenuState())
      ensures r == ArrowKey(key, inTextField, old(sections[..]))
      ensures Nav() == if r.Navigate? then Sections.ShowSection(old(Nav()), r.target) else old(Nav())
    {
      if key == "Escape" {
        navActive := false;
        burgerActive := false;
      }
      if inTextField {
        return InTextField;
      }
      var current := CurrentSection(sections[..]);
      if current.None? {
        return NoActiveSection;
      }
      var next := ArrowTarget(key, current.value);
      if next.None? {
        return Stay;
      }
      ShowSection(next.value);
      r := Navigate(next.value);
    }

    // Mobile menu

    /** The hamburger's click handler toggles both classes. */
    method OnHamburgerClick()
      requires Valid()
      modifies this`navActive, this`burgerActive
      ensures Valid()
      ensures MenuState() == Step(old(MenuState()), HamburgerClick)
    {
      navActive := !navActive;
      burgerActive := !burgerActive;
    }

    /** The document's click handler: a click outside both the menu and the
        hamburger closes the menu. */
    method OnDocumentClick(insideNav: bool, insideHamburger: bool)
      requires Valid()
      modifies this`navActive, this`burgerActive
      ensures Valid()
      ensures MenuState() == Step(old(MenuState()), DocumentClick(insideNav, insideHamburger))
    {
      if !insideNav && !insideHamburger {
        navActive := false;
        burgerActive := false;
      }
    }

    /** The window's resize handler: wider than the breakpoint closes the menu. */
    method OnResize(innerWidth: int)
      requires Valid()
      modifies this`navActive, this`burgerActive
      ensures Valid()
      ensures MenuState() == Step(old(MenuState()), Resize(innerWidth))
    {
      if innerWidth > Breakpoint {
        navActive := false;
        burgerActive := false;
      }
    }

    // Skill bars

    /** animateSkillBars: every bar's width becomes its level and "%". */
    method AnimateSkillBars()
      modifies skillBars
      ensures skillBars[..] == Animated(old(skillBars[..]))
    {
      var k := 0;
      while k < skillBars.Length
        invariant 0 <= k <= skillBars.Length
        invariant forall j :: 0 <= j < k ==> skillBars[j] == old(skillBars[j]).(width := old(skillBars[j]).level + "%")
        invariant forall j :: k <= j < skillBars.Length ==> skillBars[j] == old(skillBars[j])
      {
        var level := skillBars[k].level;
        skillBars[k] := skillBars[k].(width := level + "%");
        k := k + 1;
      }
    }

    /** The 500 ms timer started by showing "home" fires. */
    method OnSkillTimer()
      requires skillTimers > 0
      modifies skillBars, this`skillTimers
      ensures skillBars[..] == Animated(old(skillBars[..]))
      ensures skillTimers == old(skillTimers) - 1
    {
      AnimateSkillBars();
      skillTimers := skillTimers - 1;
    }

    // Project filter

    /** filterProjects: each card is shown with fade-in or hidden without it. */
    method FilterProjects(filter: string)
      modifies projectCards
      ensures projectCards[..] == Filtered(old(projectCards[..]), filter)
    {
      var k := 0;
      while k < projectCards.Length
        invariant 0 <= k <= projectCards.Length
        invariant forall j :: 0 <= j < k ==> projectCards[j] == FilterCard(old(projectCards[j]), filter)
        invariant forall j :: k <= j < projectCards.Length ==> projectCards[j] == old(projectCards[j])
      {
        var card := projectCards[k];
        if filter == "all" || card.category == filter {
          projectCards[k] := card.(display := Block, fadeIn := true);
        } else {
          projectCards[k] := card.(display := NoDisplay, fadeIn := false);
        }
        k := k + 1;
      }
    }

    /** A click on filter button `k`: `active` moves to that button alone and
        the cards are filtered by its data-filter. */
    method OnFilterButtonClick(k: nat)
      requires k < filterButtons.Length
      modifies filterButtons, projectCards
      ensures filterButtons[..] == Pressed(old(filterButtons[..]), k)
      ensures projectCards[..] == Filtered(old(projectCards[..]), old(filterButtons[k].filter))
    {
      var filter := filterButtons[k].filter;
      var j := 0;
      while j < filterButtons.Length
        invariant 0 <= j <= filterButtons.Length
        invariant forall i :: 0 <= i < j ==> filterButtons[i] == old(filterButtons[i]).(active := false)
        invariant forall i :: j <= i < filterButtons.Length ==> filterButtons[i] == old(filterButtons[i])
        invariant unchanged(projectCards)
      {
        filterButtons[j] := filterButtons[j].(active := false);
        j := j + 1;
      }
      filterButtons[k] := filterButtons[k].(active := true);
      FilterProjects(filter);
    }

    // Contact form

    /** showFormMessage: the text and the single class are set and the message
        is displayed; every kind but info also starts the auto-hide timer. On a
        page without the element nothing happens. */
    method ShowFormMessage(text: string, kind: MessageKind)
      requires Valid()
      modifies this`messageText, this`messageClasses, this`messageVisible, this`hideTimers
      ensures Valid()
      ensures hasFormMessage ==> messageText == text && messageClasses == {ClassName(kind)} && messageVisible
      ensures hasFormMessage ==> hideTimers == old(hideTimers) + if AutoHides(kind) then 1 else 0
      ensures !hasFormMessage ==>
        messageText == old(messageText) && messageClasses == old(messageClasses) &&
        messageVisible == old(messageVisible) && hideTimers == old(hideTimers)
    {
      if hasFormMessage {
        messageText := text;
        messageClasses := {};
        messageClasses := messageClasses + {ClassName(kind)};
        messageVisible := true;
        if ClassName(kind) != "info" {
          hideTimers := hideTimers + 1;
        }
      }
    }

    /** The 5000 ms auto-hide timer fires: the message is no longer displayed,
        whatever it shows by now. */
    method OnHideTimer()
      requires Valid() && hideTimers > 0
      modifies this`messageVisible, this`hideTimers
      ensures Valid()
      ensures !messageVisible && hideTimers == old(hideTimers) - 1
    {
      messageVisible := false;
      hideTimers := hideTimers - 1;
    }

    /** handleFormSubmission: the first failing check decides the error shown;
        a form that passes shows the sending message and starts the simulated
        send. */
    method OnSubmit() returns (v: Verdict)
      requires Valid()
      modifies this`messageText, this`messageClasses, this`messageVisible, this`hideTimers, this`sendTimers
      ensures Valid()
      ensures v == Validate(nameValue, emailValue, messageValue)
      ensures hasFormMessage ==>
        messageText == Shown(v)[0].text && messageClasses == {ClassName(Shown(v)[0].kind)} && messageVisible
      ensures !hasFormMessage ==>
        messageText == old(messageText) && messageClasses == old(messageClasses) &&
        messageVisible == old(messageVisible)
      ensures hideTimers == old(hideTimers) + if hasFormMessage && v != Accepted then 1 else 0
      ensures sendTimers == old(sendTimers) + if v == Accepted then 1 else 0
    {
      if nameValue == "" || emailValue == "" || messageValue == "" {
        ShowFormMessage(FillInFields, Error);
        return MissingField;
      }
      if !Email.IsValidEmail(emailValue) {
        ShowFormMessage(InvalidAddress, Error);
        return InvalidEmail;
      }
      ShowFormMessage(Sending, Info);
      sendTimers := sendTimers + 1;
      v := Accepted;
    }

    /** The 1500 ms simulated send completes: the success message is shown and
        the form is reset. */
    method OnSendTimer()
      requires Valid() && sendTimers > 0
      modifies this`messageText, this`messageClasses, this`messageVisible, this`hideTimers,
               this`sendTimers, this`nameValue, this`emailValue, this`messageValue
      ensures Valid()
      ensures hasFormMessage ==>
        messageText == Shown(Accepted)[1].text && messageClasses == {ClassName(Success)} && messageVisible
      ensures !hasFormMessage ==>
        messageText == old(messageText) && messageClasses == old(messageClasses) &&
        messageVisible == old(messageVisible)
      ensures hideTimers == old(hideTimers) + if hasFormMessage then 1 else 0
      ensures sendTimers == old(sendTimers) - 1
      ensures nameValue == "" && emailValue == "" && messageValue == ""
    {
      ShowFormMessage(Thanks, Success);
      nameValue, emailValue, messageValue := "", "", "";
      sendTimers := sendTimers - 1;
    }

    // Tooltips

    /** mouseenter on social icon `k`: its tooltip is created if it has none. */
    method OnIconMouseEnter(k: nat)
      requires k < socialIcons.Length
      modifies socialIcons
      ensures socialIcons[..] == old(socialIcons[..])[k := Hovered(old(socialIcons[k]))]
    {
      var icon := socialIcons[k];
      if icon.tooltip.None? {
        socialIcons[k] := icon.(tooltip := Some(Label(icon.iconClass)));
      }
    }
  }
}
