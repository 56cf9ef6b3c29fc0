/** Section navigation as values: what showSection and updateActiveNavLink do
    to the page sections and nav links, and which section the arrow keys move
    to. Portfolio.Page carries out these changes in place. */
module Sections {
  import opened Lookup

  /** An element of class `page-section`: its id and whether it has `active`. */
  datatype Section = Section(id: string, active: bool)

  /** The inline colour updateActiveNavLink writes on a nav link. */
  datatype Color = Unstyled | PrimaryColor | DarkColor

  /** An element of class `nav-link`: its href attribute and inline colour. */
  datatype NavLink = NavLink(href: string, color: Color)

  /** The section a link's href names: `href.substring(1)`, so "#projects"
      names "projects" and "" names "". */
  function LinkTarget(href: string): (t: string)
    ensures |href| > 0 ==> href == [href[0]] + t
    ensures |href| == 0 ==> t == ""
  {
    if |href| == 0 then "" else href[1..]
  }

  /** `document.getElementById(id)` among the sections: the first section with
      that id. No element has the empty id. */
  function SectionIndex(secs: seq<Section>, id: string): (r: Option<nat>)
    ensures r.Some? ==> id != "" && r.value < |secs| && secs[r.value].id == id
    ensures r.Some? ==> forall j :: 0 <= j < r.value ==> secs[j].id != id
    ensures r.None? <==> id == "" || forall j :: 0 <= j < |secs| ==> secs[j].id != id
  {
    if id == "" then None else Find(secs, (s: Section) => s.id == id)
  }

  /** No two sections share an id, as HTML requires of ids. */
  predicate UniqueIds(secs: seq<Section>) {
    forall i, j :: 0 <= i < j < |secs| ==> secs[i].id != secs[j].id
  }

  /** The indices of the sections that carry `active`. */
  function ActiveSet(secs: seq<Section>): set<nat> {
    set k: nat | k < |secs| && secs[k].active
  }

  /** The sections after showSection(id): `active` is first removed from every
      section and then added to the one getElementById finds. */
  function Activated(secs: seq<Section>, id: string): (r: seq<Section>)
    ensures |r| == |secs|
    ensures forall k :: 0 <= k < |r| ==> r[k].id == secs[k].id
    ensures SectionIndex(secs, id).None? ==> forall k :: 0 <= k < |r| ==> !r[k].active
    ensures SectionIndex(secs, id).Some? ==>
      forall k :: 0 <= k < |r| ==> (r[k].active <==> k == SectionIndex(secs, id).value)
  {
    var found := SectionIndex(secs, id);
    seq(|secs|, k requires 0 <= k < |secs| => secs[k].(active := found == Some(k)))
  }

  /** The nav links after updateActiveNavLink(id). */
  function Highlighted(links: seq<NavLink>, id: string): seq<NavLink> {
    seq(|links|, k requires 0 <= k < |links| =>
      links[k].(color := if LinkTarget(links[k].href) == id then PrimaryColor else DarkColor))
  }

  /** What showSection reads and writes: the sections, the nav links, and the
      number of skill-bar animations waiting on their 500 ms timer. */
  datatype Navigation = Navigation(sections: seq<Section>, links: seq<NavLink>, skillTimers: nat)

  /** showSection(id). The nav links and the skill-bar timer change only when
      the id names a section; the sections are deactivated in any case. */
  function ShowSection(n: Navigation, id: string): Navigation {
    if SectionIndex(n.sections, id).Some? then
      Navigation(Activated(n.sections, id), Highlighted(n.links, id),
                 n.skillTimers + if id == "home" then 1 else 0)
    else
      Navigation(Activated(n.sections, id), n.links, n.skillTimers)
  }

  /** Showing a section that exists leaves exactly that section active (the
      first with the id, the only one when ids are unique), highlights exactly
      the links that name it, and schedules a skill-bar animation iff it is "home". */
  lemma {:induction false} ShowKnownSection(n: Navigation, id: string, i: nat)
    requires i < |n.sections| && n.sections[i].id == id && id != ""
    ensures var r := ShowSection(n, id);
      && |r.sections| == |n.sections|
      && (forall k :: 0 <= k < |r.sections| ==> r.sections[k].id == n.sections[k].id)
      && ActiveSet(r.sections) == {SectionIndex(n.sections, id).value}
      && (UniqueIds(n.sections) ==> ActiveSet(r.sections) == {i})
      && |r.links| == |n.links|
      && (forall k :: 0 <= k < |r.links| ==> r.links[k].href == n.links[k].href)
      && (forall k :: 0 <= k < |r.links| ==>
            (r.links[k].color == PrimaryColor <==> LinkTarget(n.links[k].href) == id))
      && (forall k :: 0 <= k < |r.links| ==>
            (r.links[k].color == DarkColor <==> LinkTarget(n.links[k].href) != id))
      && (r.skillTimers == n.skillTimers + 1 <==> id == "home")
      && (id != "home" ==> r.skillTimers == n.skillTimers)
  {
    var f := SectionIndex(n.sections, id).value;
    var r := ShowSection(n, id);
    assert ActiveSet(r.sections) == {f} by {
      forall k: nat | k < |r.sections| ensures r.sections[k].active <==> k == f { }
    }
    if UniqueIds(n.sections) {
      assert f == i;
    }
  }

  /** Showing an id no section has deactivates every section, and leaves the
      nav-link colours and the skill-bar timer as they were. */
  lemma ShowUnknownSection(n: Navigation, id: string)
    requires id == "" || forall j :: 0 <= j < |n.sections| ==> n.sections[j].id != id
    ensures var r := ShowSection(n, id);
      && |r.sections| == |n.sections|
      && (forall k :: 0 <= k < |r.sections| ==> r.sections[k] == n.sections[k].(active := false))
      && ActiveSet(r.sections) == {}
      && r.links == n.links
      && r.skillTimers == n.skillTimers
  {
    var r := ShowSection(n, id);
    assert forall k: nat :: k in ActiveSet(r.sections) ==> r.sections[k].active;
  }

  /** After showing an existing section, a link is highlighted iff the section
      it names is the active one; duplicate ids do not matter, since only the
      first section with the id becomes active. */
  lemma {:induction false} LinksAgreeWithActiveSection(n: Navigation, id: string, i: nat)
    requires i < |n.sections| && n.sections[i].id == id && id != ""
    ensures var r := ShowSection(n, id);
      forall k :: 0 <= k < |r.links| ==>
        (r.links[k].color == PrimaryColor <==>
         exists j :: 0 <= j < |r.sections| && r.sections[j].active &&
                     r.sections[j].id == LinkTarget(r.links[k].href))
  {
    ShowKnownSection(n, id, i);
    var r := ShowSection(n, id);
    forall k | 0 <= k < |r.links|
      ensures r.links[k].color == PrimaryColor <==>
        exists j :: 0 <= j < |r.sections| && r.sections[j].active &&
                    r.sections[j].id == LinkTarget(r.links[k].href)
    {
      var f := SectionIndex(n.sections, id).value;
      assert f in ActiveSet(r.sections);
      if r.links[k].color == PrimaryColor {
        assert r.sections[f].active && r.sections[f].id == LinkTarget(r.links[k].href);
      }
      if exists j :: 0 <= j < |r.sections| && r.sections[j].active &&
                     r.sections[j].id == LinkTarget(r.links[k].href) {
        var j :| 0 <= j < |r.sections| && r.sections[j].active &&
                 r.sections[j].id == LinkTarget(r.links[k].href);
        assert j in ActiveSet(r.sections);
      }
    }
  }

  /** Showing the section already shown changes no section and no link. */
  lemma ShowSectionTwice(n: Navigation, id: string)
    ensures ShowSection(ShowSection(n, id), id).sections == ShowSection(n, id).sections
    ensures ShowSection(ShowSection(n, id), id).links == ShowSection(n, id).links
  {
    var r := ShowSection(n, id);
    assert forall k :: 0 <= k < |r.sections| ==> r.sections[k].id == n.sections[k].id;
    SameIdsSameIndex(n.sections, r.sections, id);
    var r2 := ShowSection(r, id);
    assert r2.sections == r.sections;
    if SectionIndex(n.sections, id).Some? {
      assert forall k :: 0 <= k < |r.links| ==> r.links[k].href == n.links[k].href;
      assert r2.links == r.links;
    }
  }

  /** getElementById depends only on the ids. */
  lemma SameIdsSameIndex(a: seq<Section>, b: seq<Section>, id: string)
    requires |a| == |b| && forall k :: 0 <= k < |a| ==> a[k].id == b[k].id
    ensures SectionIndex(a, id) == SectionIndex(b, id)
  {
  }

  // Arrow-key navigation

  /** The sections the arrow keys step through, in order. */
  const ArrowOrder: seq<string> := ["home", "projects", "contact"]

  /** The section an arrow key moves to from `current`: ArrowRight steps forward
      unless at the end, ArrowLeft back unless at the start. An id outside the
      list has index -1, so ArrowRight from it goes to the first entry. */
  function ArrowTarget(key: string, current: string): (r: Option<string>)
    ensures r.Some? ==> r.value in ArrowOrder
    ensures r.Some? ==> key == "ArrowRight" || key == "ArrowLeft"
  {
    var i := IndexOf(ArrowOrder, current);
    if key == "ArrowRight" && i < |ArrowOrder| - 1 then Some(ArrowOrder[i + 1])
    else if key == "ArrowLeft" && i > 0 then Some(ArrowOrder[i - 1])
    else None
  }

  lemma ArrowOrderIndex(i: nat)
    requires i < |ArrowOrder|
    ensures IndexOf(ArrowOrder, ArrowOrder[i]) == i
  {
    var j := IndexOf(ArrowOrder, ArrowOrder[i]);
    assert ArrowOrder[i] in ArrowOrder;
    assert ArrowOrder[j] == ArrowOrder[i];
  }

  /** ArrowRight steps one section forward and stops at "contact". */
  lemma ArrowRightSteps(i: nat)
    requires i < |ArrowOrder|
    ensures i < |ArrowOrder| - 1 ==> ArrowTarget("ArrowRight", ArrowOrder[i]) == Some(ArrowOrder[i + 1])
    ensures ArrowTarget("ArrowRight", "contact") == None
  {
    ArrowOrderIndex(i);
    ArrowOrderIndex(2);
  }

  /** ArrowLeft steps one section back and stops at "home". */
  lemma ArrowLeftSteps(i: nat)
    requires i < |ArrowOrder|
    ensures 0 < i ==> ArrowTarget("ArrowLeft", ArrowOrder[i]) == Some(ArrowOrder[i - 1])
    ensures ArrowTarget("ArrowLeft", "home") == None
  {
    ArrowOrderIndex(i);
    ArrowOrderIndex(0);
  }

  /** From a section outside the list, ArrowRight goes to "home" and ArrowLeft
      does nothing; no other key moves at all. */
  lemma ArrowFromElsewhere(key: string, current: string)
    ensures current !in ArrowOrder ==> ArrowTarget("ArrowRight", current) == Some("home")
    ensures current !in ArrowOrder ==> ArrowTarget("ArrowLeft", current) == None
    ensures key != "ArrowRight" && key != "ArrowLeft" ==> ArrowTarget(key, current) == None
  {
  }

  /** ArrowLeft undoes ArrowRight and ArrowRight undoes ArrowLeft, for sections
      in the list. */
  lemma {:induction false} ArrowKeysInverse(current: string)
    requires current in ArrowOrder
    ensures var r := ArrowTarget("ArrowRight", current);
      r.Some? ==> ArrowTarget("ArrowLeft", r.value) == Some(current)
    ensures var l := ArrowTarget("ArrowLeft", current);
      l.Some? ==> ArrowTarget("ArrowRight", l.value) == Some(current)
  {
    var i := IndexOf(ArrowOrder, current);
    if i + 1 < |ArrowOrder| { ArrowOrderIndex(i + 1); }
    if 0 < i { ArrowOrderIndex(i - 1); }
  }

  /** `document.querySelector('.page-section.active').id`: the id of the first
      active section, or None where querySelector gives null. */
  function CurrentSection(secs: seq<Section>): (r: Option<string>)
    ensures r.None? <==> ActiveSet(secs) == {}
    ensures r.Some? ==> exists k :: 0 <= k < |secs| && secs[k].active && secs[k].id == r.value &&
                                     (forall j :: 0 <= j < k ==> !secs[j].active)
  {
    match Find(secs, (s: Section) => s.active)
    case None =>
      None
    case Some(k) =>
      assert k in ActiveSet(secs);
      Some(secs[k].id)
  }

  /** How the keydown handler's arrow-key branch ends. */
  datatype ArrowResult =
    | InTextField          // the key went to an input or textarea
    | NoActiveSection      // reading `.id` of null throws a TypeError
    | Stay                 // no move for this key from this section
    | Navigate(target: string)

  function ArrowKey(key: string, inTextField: bool, secs: seq<Section>): ArrowResult {
    if inTextField then InTextField
    else match CurrentSection(secs)
      case None => NoActiveSection
      case Some(id) =>
        match ArrowTarget(key, id)
        case None => Stay
        case Some(t) => Navigate(t)
  }

  /** After showing an id no section has, every key pressed outside a text
      field (Escape included) reaches the failing `.id` read. */
  lemma UnknownSectionBreaksKeys(n: Navigation, id: string, key: string)
    requires id == "" || forall j :: 0 <= j < |n.sections| ==> n.sections[j].id != id
    ensures ArrowKey(key, false, ShowSection(n, id).sections) == NoActiveSection
  {
    ShowUnknownSection(n, id);
  }

  /** After showing an existing section, the arrow keys step from that section. */
  lemma {:induction false} KnownSectionKeys(n: Navigation, id: string, i: nat, key: string)
    requires i < |n.sections| && n.sections[i].id == id && id != ""
    ensures ArrowKey(key, false, ShowSection(n, id).sections) ==
      match ArrowTarget(key, id)
      case None => Stay
      case Some(t) => Navigate(t)
  {
    ShowKnownSection(n, id, i);
    var r := ShowSection(n, id);
    var c := CurrentSection(r.sections);
    var k :| 0 <= k < |r.sections| && r.sections[k].active && r.sections[k].id == c.value;
    assert k in ActiveSet(r.sections);
  }
}
