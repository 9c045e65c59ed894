/**
 * What `renderCards` and `renderCategoryFilters` put on the page, as values:
 * a category button is its label, its `data-category` tag and whether it
 * carries the `active` class; a card is the fields its template shows.
 */
module Render {
  import opened Wrappers
  import opened Seqs
  import opened Catalog

  // ---- Category buttons ----

  /** The label of the `'all'` button. */
  const AllLabel: string := "Todas"

  /** A `.category-button` element. */
  datatype Button = Button(caption: string, tag: string, active: bool)

  /** The button created for `category` while `current` is the selected category. */
  function ButtonFor(category: string, current: string): (b: Button)
    ensures b.tag == category
    ensures b.caption == if category == All then AllLabel else category
    ensures b.active <==> category == current
  {
    Button(if category == All then AllLabel else category, category, category == current)
  }

  /** The buttons `renderCategoryFilters` appends, one per category, in list order. */
  function ButtonsFor(categories: seq<string>, current: string): (bs: seq<Button>)
    ensures |bs| == |categories|
    ensures forall i :: 0 <= i < |categories| ==> bs[i] == ButtonFor(categories[i], current)
  {
    seq(|categories|, i requires 0 <= i < |categories| => ButtonFor(categories[i], current))
  }

  /** Appending a category appends its button. */
  lemma ButtonsForAppend(before: seq<Button>, categories: seq<string>, i: nat, current: string)
    requires i < |categories|
    ensures before + ButtonsFor(categories[..i + 1], current)
         == before + ButtonsFor(categories[..i], current) + [ButtonFor(categories[i], current)]
  {
    var longer, shorter := ButtonsFor(categories[..i + 1], current), ButtonsFor(categories[..i], current);
    assert longer[i] == ButtonFor(categories[i], current);
    assert forall k :: 0 <= k < i ==> longer[k] == shorter[k];
    assert longer == shorter + [ButtonFor(categories[i], current)];
  }

  /** How many buttons carry the `active` class. */
  function ActiveCount(bs: seq<Button>): (n: nat)
  {
    if bs == [] then 0
    else ActiveCount(bs[..|bs| - 1]) + (if bs[|bs| - 1].active then 1 else 0)
  }

  /**
   * The single-active discipline: the remembered `activeCategoryButton` is the
   * only button with the `active` class, and with none remembered no button has it.
   */
  ghost predicate SingleActive(bs: seq<Button>, active: Option<nat>)
  {
    && (active.Some? ==> active.value < |bs|)
    && forall j :: 0 <= j < |bs| ==> (bs[j].active <==> active == Some(j))
  }

  /** Under the single-active discipline exactly one button is active, or none when none is remembered. */
  lemma {:induction false} SingleActiveCount(bs: seq<Button>, active: Option<nat>)
    requires SingleActive(bs, active)
    ensures ActiveCount(bs) == if active.Some? then 1 else 0
  {
    if bs != [] {
      var init := bs[..|bs| - 1];
      var inner := if active == Some(|bs| - 1) then None else active;
      assert SingleActive(init, inner);
      SingleActiveCount(init, inner);
    }
  }

  /** Over distinct categories, exactly the button of the current category is active, if it has one. */
  lemma ButtonsForSingleActive(categories: seq<string>, current: string)
    requires Distinct(categories)
    ensures SingleActive(ButtonsFor(categories, current),
                         if current in categories then Some(LastIndex(categories, current)) else None)
    ensures ActiveCount(ButtonsFor(categories, current)) == if current in categories then 1 else 0
  {
    var active := if current in categories then Some(LastIndex(categories, current)) else None;
    SingleActiveCount(ButtonsFor(categories, current), active);
  }

  /** With the sentinel repeated, the list built as written marks two buttons active. */
  lemma AsWrittenTwoActive(e: Entry)
    requires e.categoria == All
    ensures ActiveCount(ButtonsFor(CategoriesAsWritten([e]), All)) == 2
  {
    AsWrittenRepeatsAll(e);
    var bs := ButtonsFor([All, All], All);
    assert bs[0].active && bs[1].active;
    assert bs[..1][..0] == [];
    assert ActiveCount(bs[..1]) == 1;
    assert bs[..|bs| - 1] == bs[..1];
    assert ActiveCount(bs) == 2;
  }

  /**
   * The buttons after the click listener ran on the button at `clicked`: the
   * remembered button loses the `active` class, then the clicked one gets it.
   */
  function AfterClick(bs: seq<Button>, remembered: Option<nat>, clicked: nat): (r: seq<Button>)
    requires clicked < |bs| && (remembered.Some? ==> remembered.value < |bs|)
    ensures |r| == |bs| && r[clicked].active
    ensures forall j :: 0 <= j < |bs| ==> r[j].tag == bs[j].tag && r[j].caption == bs[j].caption
    ensures forall j :: 0 <= j < |bs| && j != clicked ==>
      (r[j].active <==> bs[j].active && remembered != Some(j))
  {
    var cleared := if remembered.Some? then bs[remembered.value := bs[remembered.value].(active := false)] else bs;
    cleared[clicked := cleared[clicked].(active := true)]
  }

  /** A click keeps the single-active discipline, and the clicked button becomes the remembered one. */
  lemma ClickKeepsSingleActive(bs: seq<Button>, remembered: Option<nat>, clicked: nat)
    requires clicked < |bs| && SingleActive(bs, remembered)
    ensures SingleActive(AfterClick(bs, remembered, clicked), Some(clicked))
    ensures ActiveCount(AfterClick(bs, remembered, clicked)) == 1
  {
    SingleActiveCount(AfterClick(bs, remembered, clicked), Some(clicked));
  }

  /**
   * With the sentinel repeated, the first render remembers the second `'all'`
   * button. A click on that one leaves the first marked as well; only a click
   * on the first `'all'` button gets back to a single active button.
   */
  lemma AsWrittenClicks(e: Entry)
    requires e.categoria == All
    ensures LastIndex(CategoriesAsWritten([e]), All) == 1
    ensures ActiveCount(AfterClick(ButtonsFor(CategoriesAsWritten([e]), All), Some(1), 1)) == 2
    ensures ActiveCount(AfterClick(ButtonsFor(CategoriesAsWritten([e]), All), Some(1), 0)) == 1
  {
    AsWrittenRepeatsAll(e);
    var bs := ButtonsFor([All, All], All);
    var again, first := AfterClick(bs, Some(1), 1), AfterClick(bs, Some(1), 0);
    assert again[0].active && again[1].active;
    assert again[..1][..0] == [];
    assert ActiveCount(again[..1]) == 1;
    assert again[..|again| - 1] == again[..1];
    assert first[0].active && !first[1].active;
    assert first[..1][..0] == [];
    assert ActiveCount(first[..1]) == 1;
    assert first[..|first| - 1] == first[..1];
  }

  /** The corrected list never marks more than one button, and marks exactly one for `'all'` or a loaded category. */
  lemma CategoriesSingleActive(data: seq<Entry>, current: string)
    ensures ActiveCount(ButtonsFor(Categories(data), current)) ==
      if current == All || exists i :: 0 <= i < |data| && data[i].categoria == current then 1 else 0
  {
    CategoriesDistinct(data);
    CategoriesMembership(data, current);
    ButtonsForSingleActive(Categories(data), current);
  }

  // ---- Cards ----

  /** The text shown in place of the cards when nothing matches. */
  const NoResultsText: string := "Nenhum resultado encontrado."

  /** The `<img class="card-logo">` of a card. */
  datatype Logo = Logo(src: string, alt: string)

  /** A child of the card container: the placeholder paragraph or one `.card` element. */
  datatype Node =
    | Placeholder(text: string)
    | Card(logo: Option<Logo>, heading: string, category: string, description: string, href: string)

  /** JavaScript truthiness of a `logo_url` value: present and not the empty string. */
  predicate Truthy(url: Option<string>)
  {
    url.Some? && url.value != ""
  }

  /** The card the template builds for one entry. */
  function CardOf(e: Entry): (c: Node)
    ensures c.Card?
    ensures c.logo.Some? <==> Truthy(e.logoUrl)
    ensures c.logo.Some? ==> c.logo.value == Logo(e.logoUrl.value, "Logo " + e.nome)
    ensures c.heading == e.nome && c.category == e.categoria
    ensures c.description == e.descricao && c.href == e.link
  {
    var logo := if Truthy(e.logoUrl) then Some(Logo(e.logoUrl.value, "Logo " + e.nome)) else None;
    Card(logo, e.nome, e.categoria, e.descricao, e.link)
  }

  /** The container's children after `renderCards(data)`. */
  function CardsView(data: seq<Entry>): (nodes: seq<Node>)
  {
    if |data| == 0 then [Placeholder(NoResultsText)]
    else seq(|data|, i requires 0 <= i < |data| => CardOf(data[i]))
  }

  /** How many children are cards. */
  function CardCount(nodes: seq<Node>): (n: nat)
  {
    if nodes == [] then 0 else (if nodes[0].Card? then 1 else 0) + CardCount(nodes[1..])
  }

  /** How many children are the placeholder. */
  function PlaceholderCount(nodes: seq<Node>): (n: nat)
  {
    if nodes == [] then 0 else (if nodes[0].Placeholder? then 1 else 0) + PlaceholderCount(nodes[1..])
  }

  /** A row of cards has as many cards as children and no placeholder. */
  lemma {:induction false} AllCardsCount(nodes: seq<Node>)
    requires forall i :: 0 <= i < |nodes| ==> nodes[i].Card?
    ensures CardCount(nodes) == |nodes| && PlaceholderCount(nodes) == 0
  {
    if nodes != [] {
      AllCardsCount(nodes[1..]);
    }
  }

  /** Nothing to show: exactly the placeholder, and no card. */
  lemma CardsViewEmpty()
    ensures CardsView([]) == [Placeholder(NoResultsText)]
    ensures PlaceholderCount(CardsView([])) == 1 && CardCount(CardsView([])) == 0
  {
    var v := CardsView([]);
    assert v[1..] == [];
  }

  /** Something to show: one card per entry, in input order, and no placeholder. */
  lemma CardsViewOnePerEntry(data: seq<Entry>)
    requires |data| > 0
    ensures |CardsView(data)| == |data|
    ensures CardCount(CardsView(data)) == |data| && PlaceholderCount(CardsView(data)) == 0
    ensures forall i :: 0 <= i < |data| ==> CardsView(data)[i] == CardOf(data[i])
    ensures forall i :: 0 <= i < |data| ==> (CardsView(data)[i].logo.Some? <==> Truthy(data[i].logoUrl))
  {
    AllCardsCount(CardsView(data));
  }
}
