# Portfolio page controller, modelled in Dafny

This project models the logic inside the client-side script of a single-page
portfolio site (`Portfolio-Website-Code/app.js`). The DOM is replaced by records.
Each element collection the script captures at start-up becomes an array of
element records inside a `Portfolio.Page` object:

- the page sections, with their id and `active` class;
- the nav links, with their href and inline colour;
- the skill bars, with their `data-level` and width;
- the filter buttons, with their `data-filter` and `active` class;
- the project cards, with their `data-category`, display and `fade-in` class;
- the social icons, with the icon's class name and an optional tooltip.

The single elements it touches become fields:

- the `active` classes of the nav menu and the hamburger;
- the form message's text, class list and visibility;
- the three form fields.

Every event handler is a method that changes this state in place. The loops
keep the source's `forEach` shape and carry invariants. The navigation, menu,
skill-bar, filter, tooltip and submit handlers are proved against pure functions
in the value modules below. The properties the page promises are lemmas about
those functions. `ShowFormMessage`, `OnHideTimer` and `OnSendTimer` are the
exception: their contracts state the new field values directly, using the message
constants and `ContactForm.Shown`.

A pending timer is a count (`skillTimers`, `hideTimers`, `sendTimers`). The
timer's callback is a method (`OnSkillTimer`, `OnHideTimer`, `OnSendTimer`)
that needs a pending timer before it can run.

Modules:

- `Lookup`: `Option`, plus the first-match lookup that `getElementById`, `querySelector` and `indexOf` share.
- `Email`: the pattern `^[^\s@]+@[^\s@]+\.[^\s@]+$`, stated as a predicate on where the `@` and the `.` fall. `\s` is written out as ECMAScript's WhiteSpace and LineTerminator code points.
- `ContactForm`: the checks of `handleFormSubmission` in order, and the messages each outcome shows.
- `Sections`: `showSection`, `updateActiveNavLink` and the arrow-key rule, as functions on values.
- `Projects`: `filterProjects` and the filter-button state, as values.
- `SkillBars`: `animateSkillBars`, as a function on values.
- `MobileMenu`: the two `active` flags and the events that change them.
- `Tooltips`: `String.prototype.includes`, the tooltip label chooser and the rule that a tooltip is created only once.
- `Portfolio`: the `Page` class and its handlers.
- `Scenarios`: three client methods (`ArrowScenario`, `UnknownSectionScenario`, `FormScenario`) that drive a `Page` through event sequences.

Where the code differs from the obvious reading, the model follows the code:

- **Unknown section id.** `showSection` removes `active` from every section
  *before* it looks the id up (app.js:53-59). An id that names no section
  therefore leaves no section active. The nav-link colours and the skill-bar
  timer stay as they were. The keydown handler then reads `.id` of the `null`
  that `querySelector('.page-section.active')` returns (app.js:428) and throws.
  This happens for any key pressed outside a text field, Escape included, after
  Escape has already closed the menu. `ArrowResult.NoActiveSection` models the
  throw, and `Sections.UnknownSectionBreaksKeys` proves it.
- **Last part of the address.** After the `.`, the regex accepts only
  characters that are neither whitespace nor `@`. So `a@b.c@d` is rejected,
  like any address with two `@` (`Email.TwoAtsRejected`).
- **The empty id.** `getElementById("")` finds nothing. A bare `#` nav link
  therefore behaves like an unknown id. The in-page link handler instead skips
  the empty target (app.js:44).

## Model

| member | source | states |
|---|---|---|
| `Lookup.Find` | Portfolio-Website-Code/app.js:428 | The first index whose element satisfies the predicate: it satisfies it, no earlier one does, and None exactly when no element does. |
| `Lookup.IndexOf` | Portfolio-Website-Code/app.js:430 | The index is -1 exactly when the value is absent. Otherwise it is the value's first position. |
| `Email.ValidEmailIff` | Portfolio-Website-Code/app.js:211-214 | The pattern holds iff the address has no whitespace, exactly one `@` (not first), and a `.` after it with at least one character on each side. Both directions. |
| `Email.IsValidEmail` | Portfolio-Website-Code/app.js:211-214 | The anchored pattern matches for some placement of the `@` and the `.`. It is characterised by `Email.ValidEmailIff`. |
| `Email.ValidEmailOnlyIf` | Portfolio-Website-Code/app.js:212 | A match at a given `@` and `.` split implies no whitespace, one `@`, and a dot after it. |
| `Email.ValidEmailIf` | Portfolio-Website-Code/app.js:212 | With no whitespace and a single `@`, any `@` and `.` placed with room on every side is a match split. |
| `Email.ValidEmailFromParts` | Portfolio-Website-Code/app.js:212 | `L@D.T` is valid for any L, D, T that are non-empty and hold no whitespace and no `@`. |
| `Email.EmailAccepted` | Portfolio-Website-Code/app.js:212 | `bob@example.com` and `a@b..c` are accepted. |
| `Email.NoDotRejected` | Portfolio-Website-Code/app.js:212 | An address with no `.` is rejected. |
| `Email.TwoAtsRejected` | Portfolio-Website-Code/app.js:212 | An address with two `@` is rejected. |
| `Email.SpaceRejected` | Portfolio-Website-Code/app.js:212 | An address containing whitespace is rejected. |
| `Email.EmailRejected` | Portfolio-Website-Code/app.js:212 | `bob@@nodot`, `bob@example`, `bob@@example.com` and `bob smith@example.com` are rejected. |
| `ContactForm.Shown` | Portfolio-Website-Code/app.js:175-192 | A rejected submission shows exactly one message, an error that auto-hides. An accepted one shows exactly two: "Sending message..." as info, which never auto-hides, then the thank-you message as success. The sequence ends in success iff the form was accepted. |
| `ContactForm.Validate` | Portfolio-Website-Code/app.js:175-186 | The first failing check decides the verdict. It is characterised by `ContactForm.ValidationOutcomes` and `ContactForm.EmptyFieldWins`. |
| `ContactForm.EmptyFieldWins` | Portfolio-Website-Code/app.js:175-178 | An empty name or message gives the fill-in error whatever the e-mail field holds, and that error is the only message. |
| `ContactForm.ValidationOutcomes` | Portfolio-Website-Code/app.js:175-186 | Exactly three outcomes: missing field iff some field is empty; invalid e-mail iff all are filled and the address fails the pattern; accepted otherwise. |
| `ContactForm.AcceptedAddressShape` | Portfolio-Website-Code/app.js:180-186 | An accepted submission's address has no whitespace, exactly one `@` and a dot after it. |
| `ContactForm.SubmissionExamples` | Portfolio-Website-Code/app.js:168-193 | Bob with `bob@@nodot` gets the invalid-address error. Bob with `bob@example.com` gets "Sending message..." and then the thank-you message. An empty name gets the fill-in error. |
| `Sections.LinkTarget` | Portfolio-Website-Code/app.js:79 | `substring(1)`: the href minus its first character, and "" for an empty href. |
| `Sections.SectionIndex` | Portfolio-Website-Code/app.js:58-59 | The first section with the id. None exactly when the id is empty or no section has it. |
| `Sections.Activated` | Portfolio-Website-Code/app.js:53-60 | Ids and length are kept. No section is active when the id is found nowhere. Otherwise exactly the section getElementById finds is active. |
| `Sections.Highlighted` | Portfolio-Website-Code/app.js:77-86 | The link colouring. It is characterised by `Sections.ShowKnownSection`: primary iff the href names the id, dark otherwise, hrefs kept. |
| `Sections.ShowSection` | Portfolio-Website-Code/app.js:51-75 | showSection on the sections, links and pending skill timers. It is characterised by `Sections.ShowKnownSection` and `Sections.ShowUnknownSection`. |
| `Sections.ShowKnownSection` | Portfolio-Website-Code/app.js:51-75 | For an id some section has: exactly one section is active, the first with the id, and with unique ids that is the section itself. Ids are kept. Each link is primary iff its href names the id, and dark otherwise. A skill-bar timer is added iff the id is "home". |
| `Sections.ShowUnknownSection` | Portfolio-Website-Code/app.js:51-59 | For an id no section has: every section ends inactive, the links are unchanged and no timer is added. |
| `Sections.LinksAgreeWithActiveSection` | Portfolio-Website-Code/app.js:77-86 | After showing an existing section, a link is highlighted iff the section it names is active. This holds with duplicate ids too, since only the first section with the id becomes active. |
| `Sections.ShowSectionTwice` | Portfolio-Website-Code/app.js:51-86 | Showing the same id again changes no section and no link. |
| `Sections.ArrowTarget` | Portfolio-Website-Code/app.js:429-436 | An arrow key only ever moves to a section in `['home','projects','contact']`, and only ArrowRight and ArrowLeft move at all. |
| `Sections.ArrowRightSteps` | Portfolio-Website-Code/app.js:432-433 | ArrowRight from index i < 2 goes to i+1. From "contact" it does nothing. |
| `Sections.ArrowLeftSteps` | Portfolio-Website-Code/app.js:434-435 | ArrowLeft from index i > 0 goes to i-1. From "home" it does nothing. |
| `Sections.ArrowFromElsewhere` | Portfolio-Website-Code/app.js:430-436 | From a section outside the list (index -1), ArrowRight goes to "home" and ArrowLeft does nothing. Other keys never move. |
| `Sections.ArrowKeysInverse` | Portfolio-Website-Code/app.js:432-435 | For sections in the list, ArrowLeft undoes ArrowRight and ArrowRight undoes ArrowLeft. |
| `Sections.CurrentSection` | Portfolio-Website-Code/app.js:428 | None (querySelector's null) exactly when no section is active. Otherwise it is the id of the first active section in document order: that section is active and none before it is. |
| `Sections.ArrowKey` | Portfolio-Website-Code/app.js:426-437 | The arrow branch of the keydown handler. It is characterised by `Sections.UnknownSectionBreaksKeys`, `Sections.KnownSectionKeys` and the `ArrowTarget` lemmas. |
| `Sections.UnknownSectionBreaksKeys` | Portfolio-Website-Code/app.js:426-428 | After showing an unknown id, any key pressed outside a text field reaches the failing `.id` read. |
| `Sections.KnownSectionKeys` | Portfolio-Website-Code/app.js:426-437 | After showing an existing section, the arrow keys step from that section's id. |
| `Projects.FilterCard` | Portfolio-Website-Code/app.js:146-154 | A card is displayed as block and carries fade-in iff the filter is "all" or equals its category. Otherwise it is display none without fade-in. Its category is kept. |
| `Projects.Filtered` | Portfolio-Website-Code/app.js:144-156 | Filtering keeps the number of cards. |
| `Projects.FilterShowsMatching` | Portfolio-Website-Code/app.js:144-156 | The cards on show are exactly those the filter matches, and they are exactly the ones with fade-in. Every other card is hidden. "all" shows every card. |
| `Projects.FilterForgetsHistory` | Portfolio-Website-Code/app.js:144-156 | The result depends only on the categories and the filter, so filtering twice equals filtering once. |
| `Projects.Pressed` | Portfolio-Website-Code/app.js:135-136 | The button list keeps its length. |
| `Projects.PressedExactlyOne` | Portfolio-Website-Code/app.js:135-136 | After a click, the set of active buttons is exactly the clicked one (one button), and every filter is kept. |
| `SkillBars.Animated` | Portfolio-Website-Code/app.js:121-126 | Animating keeps the number of bars. |
| `SkillBars.AnimatedBarsAtLevel` | Portfolio-Website-Code/app.js:121-126 | Every bar's width becomes its data-level followed by "%", and its level is kept. A bar already at its level is unchanged. |
| `SkillBars.AnimateIdempotent` | Portfolio-Website-Code/app.js:121-126 | Animating twice equals animating once. |
| `SkillBars.BoundaryLevels` | Portfolio-Website-Code/app.js:124 | Levels "0" and "100" render as "0%" and "100%". |
| `MobileMenu.Step` | Portfolio-Website-Code/app.js:89-101 | A hamburger click flips both flags. A closing event clears both. Any other event changes nothing. Equal flags stay equal. |
| `MobileMenu.RunKeepsSync` | Portfolio-Website-Code/app.js:90-93 | From equal flags, the flags stay equal after any series of events. |
| `MobileMenu.RunEndsClosed` | Portfolio-Website-Code/app.js:96-101 | A series of events that ends with a closing event leaves the menu closed. |
| `MobileMenu.StepLaws` | Portfolio-Website-Code/app.js:253-259 | Closing twice equals closing once. Two hamburger clicks restore the menu. A resize to at most 768 changes nothing. |
| `MobileMenu.MenuScenarios` | Portfolio-Website-Code/app.js:89-101 | From closed: hamburger opens; then an outside click, Escape or a resize to 1024 closes; a click inside the menu keeps it open. |
| `Tooltips.Includes` | Portfolio-Website-Code/app.js:368 | `includes` holds iff the keyword occurs at some index of the class name. |
| `Tooltips.Label` | Portfolio-Website-Code/app.js:367-372 | The tooltip text. It is characterised by `Tooltips.LabelIsFirstMatch`. |
| `Tooltips.LabelIsFirstMatch` | Portfolio-Website-Code/app.js:367-372 | The label belongs to the first keyword, in the order whatsapp, phone, envelope, github, linkedin, that occurs in the class name. It is empty exactly when none occurs. |
| `Tooltips.MissingCharExcludes` | Portfolio-Website-Code/app.js:368 | A keyword with a character the class name lacks does not occur in it. |
| `Tooltips.LabelOfPhoneIcon` | Portfolio-Website-Code/app.js:368-369 | `fas fa-phone` gets "Call". |
| `Tooltips.LabelPriority` | Portfolio-Website-Code/app.js:368-372 | A class name holding both "phone" and "whatsapp" gets "WhatsApp". |
| `Tooltips.Hovered` | Portfolio-Website-Code/app.js:345-376 | An icon without a tooltip gets one labelled by its class. An icon with a tooltip is left exactly as it is. |
| `Tooltips.HoverOnce` | Portfolio-Website-Code/app.js:345-347 | A second hover creates nothing new. |
| `Portfolio.Page.constructor` | Portfolio-Website-Code/app.js:2-10 | The page holds the given element collections. The menu starts closed, no message is shown, the fields are empty and no timer is pending. |
| `Portfolio.Page.Start` | Portfolio-Website-Code/app.js:21-22 | At DOMContentLoaded the page state becomes `ShowSection(state, "home")`. |
| `Portfolio.Page.ShowSection` | Portfolio-Website-Code/app.js:51-75 | The deactivation loop, the lookup and the conditional updates yield exactly `Sections.ShowSection` of the old sections, links and timer count. |
| `Portfolio.Page.UpdateActiveNavLink` | Portfolio-Website-Code/app.js:77-86 | The colouring loop yields exactly `Highlighted` of the old links. |
| `Portfolio.Page.OnNavLinkClick` | Portfolio-Website-Code/app.js:27-36 | The section the link's href names is shown, and the menu takes the nav-link closing step. |
| `Portfolio.Page.OnInternalLinkClick` | Portfolio-Website-Code/app.js:40-48 | The href's section is shown unless the target is empty. Otherwise nothing changes. |
| `Portfolio.Page.OnKeyDown` | Portfolio-Website-Code/app.js:419-438 | Escape closes the menu and other keys leave it. The result is `ArrowKey` of the old sections. The page state becomes `ShowSection` of the target when the result is a move, and is unchanged otherwise. |
| `Portfolio.Page.OnHamburgerClick` | Portfolio-Website-Code/app.js:90-93 | The menu takes the hamburger step and the two flags stay equal. |
| `Portfolio.Page.OnDocumentClick` | Portfolio-Website-Code/app.js:96-101 | The menu takes the document-click step for the click's position. |
| `Portfolio.Page.OnResize` | Portfolio-Website-Code/app.js:253-259 | The menu takes the resize step for the window width. |
| `Portfolio.Page.AnimateSkillBars` | Portfolio-Website-Code/app.js:121-126 | The width loop yields exactly `Animated` of the old bars. |
| `Portfolio.Page.OnSkillTimer` | Portfolio-Website-Code/app.js:66-70 | A pending skill timer fires: the bars are animated and one timer fewer is pending. |
| `Portfolio.Page.FilterProjects` | Portfolio-Website-Code/app.js:144-156 | The card loop yields exactly `Filtered` of the old cards. |
| `Portfolio.Page.OnFilterButtonClick` | Portfolio-Website-Code/app.js:130-141 | The buttons become `Pressed` (only the clicked one active), and the cards are filtered by that button's data-filter. |
| `Portfolio.Page.ShowFormMessage` | Portfolio-Website-Code/app.js:195-209 | With the element present: the text is the message, the class set is exactly {type}, the message is displayed, and an auto-hide is added iff the type is not "info". Without it, nothing changes. |
| `Portfolio.Page.OnHideTimer` | Portfolio-Website-Code/app.js:204-206 | A pending auto-hide fires: the message is hidden, whatever it now shows. |
| `Portfolio.Page.OnSubmit` | Portfolio-Website-Code/app.js:168-187 | The verdict is `Validate` of the fields. With the message element present, the first message of `Shown(verdict)` is displayed, and an auto-hide is added iff the verdict is an error. Without it, the message state and the auto-hides are unchanged. A simulated send is started iff the form is accepted. |
| `Portfolio.Page.OnSendTimer` | Portfolio-Website-Code/app.js:189-192 | A pending send completes and all three fields are cleared. With the message element present, the thank-you message is displayed with class "success" and an auto-hide is added. Without it, the message state and the auto-hides are unchanged. |
| `Portfolio.Page.OnIconMouseEnter` | Portfolio-Website-Code/app.js:344-376 | Only the hovered icon changes, and it becomes `Hovered` of itself. |

## Left out

- DOM plumbing. Element queries, listener registration, `FormData`, `preventDefault`, `console.log` and `scrollTo` (app.js:1-23, 73, 456) are not modelled. The collections are given to the `Page` constructor. The facts a handler reads from its event become parameters: inside a text field, inside the menu or hamburger, the window width.
- Event dispatch. One click can reach several handlers: the nav-link handler, the in-page-link handler for the same `#` anchor, and the document click handler. Each handler is its own method. The order in which the browser runs them is left to the caller.
- `getElementById` over other elements. Lookups search the sections only. An id that names some other element of the page counts as unknown.
- Missing attributes and elements. When `href`, `data-filter`, `data-category` or `data-level` is missing, the source reads `null`. The model instead takes every attribute as a string. The source never checks for a missing hamburger, nav menu or icon `<i>`, where it would throw; the model assumes these elements exist.
- `SkillBars.Animated`: the width is the string the script assigns, `level + "%"`. The browser ignores a `style.width` it cannot parse and keeps the old width. That happens for a non-numeric level, including the "null%" a missing `data-level` gives. The model omits this, so the same caveat applies to `Portfolio.Page.AnimateSkillBars`.
- `Portfolio.Page.ShowFormMessage`: it takes only the three message types the script uses (`MessageKind`). Any other string passed to `classList.add` is not modelled, including the empty string, which the browser rejects with an exception. The class list is a set, so its order is not modelled.
- `Portfolio.Page.OnSendTimer`: `contactForm.reset()` restores each field's default value. The model takes that default to be empty.
- IntersectionObserver wiring. The skill-bar trigger and the scroll fade-in (app.js:105-119, 217-239) depend on viewport geometry, so they are left out. `AnimateSkillBars` can still be called on its own.
- Timers. The delays themselves (500, 1500, 5000, 600 and 100 ms) and `debounce` with the scroll handler (app.js:392-416) are left out. A pending timer is a count and firing is a method call, so the model has no time and no order between timers.
- Ripple effect, hover transforms, focus outlines, tooltip styling and opacity (app.js:287-340, 349-364, 378-388, 441-454) are left out: they are presentation with floating-point geometry and no state worth stating.
- Browser history. `popstate`, `updateURLHash` and `showSectionWithURL` (app.js:262-284) rely on history APIs and are left out. `smoothScrollTo` (app.js:242-250) is never called.
- Character model. JavaScript strings are UTF-16 code units, while Dafny strings are Unicode scalar values, so surrogate pairs are not modelled. The whitespace set behind `\s` follows ECMAScript, but no proof depends on its exact members.
