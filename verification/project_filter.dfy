/** The category filter of the projects page: clicking a category button makes
    it the only active button and shows exactly the project cards of that
    category (all of them for `all`). Transition timings are collapsed to the
    state the page settles in. */
module ProjectFilter {
  import opened Wrappers

  /** A `.category-btn`: its `data-category` (None when the attribute is
      absent, i.e. `undefined`) and whether it carries `active`. */
  datatype FilterButton = FilterButton(category: Option<string>, active: bool)

  /** A `.project-card`: its `data-category` and whether it is displayed once
      the transitions have run. */
  datatype Card = Card(category: Option<string>, shown: bool)

  datatype Gallery = Gallery(buttons: seq<FilterButton>, cards: seq<Card>)

  /** `category === 'all' || cardCategory === category`. Two absent categories
      compare equal (`undefined === undefined`). */
  predicate Shows(selected: Option<string>, card: Option<string>) {
    selected == Some("all") || card == selected
  }

  /** Drop `active` from every button, then add it to button `i`. */
  function MarkActive(buttons: seq<FilterButton>, i: int): (r: seq<FilterButton>)
    ensures |r| == |buttons|
    ensures forall k :: 0 <= k < |r| ==> r[k].category == buttons[k].category
    ensures forall k :: 0 <= k < |r| ==> (r[k].active <==> k == i)
  {
    if buttons == [] then []
    else [buttons[0].(active := i == 0)] + MarkActive(buttons[1..], i - 1)
  }

  /** Show or hide every card for the selected category. */
  function FilterCards(cards: seq<Card>, selected: Option<string>): (r: seq<Card>)
    ensures |r| == |cards|
    ensures forall k :: 0 <= k < |r| ==> r[k].category == cards[k].category
    ensures forall k :: 0 <= k < |r| ==> (r[k].shown <==> Shows(selected, cards[k].category))
  {
    if cards == [] then []
    else [cards[0].(shown := Shows(selected, cards[0].category))] + FilterCards(cards[1..], selected)
  }

  /** A click on button `i`. With no project cards on the page the handlers
      were never attached, and the click changes nothing. */
  function Click(g: Gallery, i: nat): (r: Gallery)
    requires i < |g.buttons|
    ensures g.cards == [] ==> r == g
    ensures |r.buttons| == |g.buttons| && |r.cards| == |g.cards|
    ensures g.cards != [] ==> forall k :: 0 <= k < |r.buttons| ==> (r.buttons[k].active <==> k == i)
    ensures g.cards != [] ==> forall k :: 0 <= k < |r.cards| ==>
              (r.cards[k].shown <==> Shows(g.buttons[i].category, g.cards[k].category))
    ensures forall k :: 0 <= k < |r.buttons| ==> r.buttons[k].category == g.buttons[k].category
    ensures forall k :: 0 <= k < |r.cards| ==> r.cards[k].category == g.cards[k].category
  {
    if g.cards == [] then g
    else Gallery(MarkActive(g.buttons, i), FilterCards(g.cards, g.buttons[i].category))
  }

  /** The indices of the shown cards. */
  function ShownCards(g: Gallery): set<nat> {
    set k: nat | k < |g.cards| && g.cards[k].shown
  }

  /** The indices of the active buttons. */
  function ActiveButtons(g: Gallery): set<nat> {
    set k: nat | k < |g.buttons| && g.buttons[k].active
  }

  /** After a click exactly the clicked button is active. */
  lemma ExactlyClickedActive(g: Gallery, i: nat)
    requires i < |g.buttons| && g.cards != []
    ensures ActiveButtons(Click(g, i)) == {i}
  {
  }

  /** After a click the shown cards are exactly those of the clicked category,
      or every card for `all`. */
  lemma ShownAreThoseOfCategory(g: Gallery, i: nat)
    requires i < |g.buttons| && g.cards != []
    ensures ShownCards(Click(g, i)) == set k: nat | k < |g.cards| && Shows(g.buttons[i].category, g.cards[k].category)
    ensures g.buttons[i].category == Some("all") ==>
              forall k :: 0 <= k < |g.cards| ==> k in ShownCards(Click(g, i))
  {
  }

  /** Only the last click matters: what the page shows does not depend on the
      clicks before it. */
  lemma {:induction false} LastClickWins(g: Gallery, i: nat, j: nat)
    requires i < |g.buttons| && j < |g.buttons|
    ensures Click(Click(g, i), j) == Click(g, j)
  {
    var once := Click(g, j);
    var twice := Click(Click(g, i), j);
    if g.cards != [] {
      assert twice.buttons == once.buttons by {
        assert |twice.buttons| == |once.buttons|;
        forall k | 0 <= k < |once.buttons| ensures twice.buttons[k] == once.buttons[k] {
          assert twice.buttons[k].category == g.buttons[k].category;
        }
      }
      assert twice.cards == once.cards by {
        assert |twice.cards| == |once.cards|;
        forall k | 0 <= k < |once.cards| ensures twice.cards[k] == once.cards[k] {
          assert twice.cards[k].category == g.cards[k].category;
        }
      }
    }
  }

  /** Clicking the same button again changes nothing. */
  lemma ClickIdempotent(g: Gallery, i: nat)
    requires i < |g.buttons|
    ensures Click(Click(g, i), i) == Click(g, i)
  {
    LastClickWins(g, i, i);
  }

  /** Two buttons of the same category show the same cards. */
  lemma SameCategorySameCards(g: Gallery, i: nat, j: nat)
    requires i < |g.buttons| && j < |g.buttons|
    requires g.buttons[i].category == g.buttons[j].category
    ensures Click(g, i).cards == Click(g, j).cards
  {
    if g.cards != [] {
      var a, b := Click(g, i).cards, Click(g, j).cards;
      assert forall k :: 0 <= k < |a| ==> a[k] == b[k];
    }
  }
}
