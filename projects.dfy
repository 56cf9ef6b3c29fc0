/** The project filter as values: what filterProjects does to the project
    cards and what the filter-button click handler does to the buttons.
    Portfolio.Page carries out these changes in place. */
module Projects {

  /** The inline `display` a card has: none set yet, "block" or "none". */
  datatype Display = NotSet | Block | NoDisplay

  /** An element of class `project-card-full`: its data-category attribute,
      inline display and whether it has the `fade-in` class. */
  datatype ProjectCard = ProjectCard(category: string, display: Display, fadeIn: bool)

  /** An element of class `filter-btn`: its data-filter attribute and whether
      it has the `active` class. */
  datatype FilterButton = FilterButton(filter: string, active: bool)

  /** filterProjects keeps a card on show when the filter is "all" or is the
      card's category. */
  predicate Matches(filter: string, category: string) {
    filter == "all" || category == filter
  }

  /** A card as filterProjects leaves it. */
  function FilterCard(c: ProjectCard, filter: string): (r: ProjectCard)
    ensures r.category == c.category
    ensures r.display == Block <==> Matches(filter, c.category)
    ensures r.fadeIn <==> Matches(filter, c.category)
    ensures r.display == NoDisplay <==> !Matches(filter, c.category)
  {
    if Matches(filter, c.category) then c.(display := Block, fadeIn := true)
    else c.(display := NoDisplay, fadeIn := false)
  }

  /** The cards after filterProjects(filter). */
  function Filtered(cards: seq<ProjectCard>, filter: string): (r: seq<ProjectCard>)
    ensures |r| == |cards|
  {
    seq(|cards|, k requires 0 <= k < |cards| => FilterCard(cards[k], filter))
  }

  /** The cards on show. */
  function ShownSet(cards: seq<ProjectCard>): set<nat> {
    set k: nat | k < |cards| && cards[k].display == Block
  }

  /** After filtering, the cards on show (and carrying fade-in) are exactly
      those the filter matches and all other cards are hidden without fade-in;
      "all" shows every card. */
  lemma {:induction false} FilterShowsMatching(cards: seq<ProjectCard>, filter: string)
    ensures var r := Filtered(cards, filter);
      && ShownSet(r) == set k: nat | k < |cards| && Matches(filter, cards[k].category)
      && (forall k :: 0 <= k < |r| ==> (r[k].fadeIn <==> k in ShownSet(r)))
      && (forall k :: 0 <= k < |r| ==> (r[k].display == NoDisplay <==> k !in ShownSet(r)))
      && (filter == "all" ==> forall k :: 0 <= k < |cards| ==> k in ShownSet(r))
  {
    var r := Filtered(cards, filter);
    forall k: nat | k < |r| ensures r[k] == FilterCard(cards[k], filter) { }
  }

  /** What a filter leaves on show depends only on the cards' categories, not on
      what earlier filters did; so filtering twice is filtering once. */
  lemma FilterForgetsHistory(cards: seq<ProjectCard>, cards': seq<ProjectCard>, filter: string)
    requires |cards| == |cards'|
    requires forall k :: 0 <= k < |cards| ==> cards[k].category == cards'[k].category
    ensures Filtered(cards, filter) == Filtered(cards', filter)
    ensures Filtered(Filtered(cards, filter), filter) == Filtered(cards, filter)
  {
    var r := Filtered(cards, filter);
    assert forall k :: 0 <= k < |r| ==> r[k].category == cards[k].category;
  }

  /** The buttons after a click on button `k`: `active` removed from all, then
      added to the clicked one. */
  function Pressed(buttons: seq<FilterButton>, k: nat): (r: seq<FilterButton>)
    requires k < |buttons|
    ensures |r| == |buttons|
  {
    seq(|buttons|, j requires 0 <= j < |buttons| => buttons[j].(active := j == k))
  }

  function ActiveButtons(buttons: seq<FilterButton>): set<nat> {
    set j: nat | j < |buttons| && buttons[j].active
  }

  /** After a click, exactly the clicked button is active and every button
      keeps its filter. */
  lemma {:induction false} PressedExactlyOne(buttons: seq<FilterButton>, k: nat)
    requires k < |buttons|
    ensures ActiveButtons(Pressed(buttons, k)) == {k}
    ensures |ActiveButtons(Pressed(buttons, k))| == 1
    ensures forall j :: 0 <= j < |buttons| ==> Pressed(buttons, k)[j].filter == buttons[j].filter
  {
    var r := Pressed(buttons, k);
    forall j: nat | j < |r| ensures r[j].active <==> j == k { }
  }
}
