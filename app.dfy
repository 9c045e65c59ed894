/**
 * The page as script.js drives it: the three globals `allData`,
 * `currentCategory` and `activeCategoryButton`, the DOM nodes they render
 * into, and the event handlers that update them.
 */
module App {
  import opened Wrappers
  import opened Text
  import opened Seqs
  import opened Catalog
  import opened Render
  import opened Debounce

  /** The text shown in `#error-message` when loading data.json fails. */
  const LoadErrorText: string :=
    "Falha ao carregar os dados. Verifique se o arquivo data.json está correto e se você está usando um servidor local (Live Server)."

  /**
   * How the category buttons relate to the filter state: one button at most
   * is active and it is the remembered one, the remembered one carries the
   * selected category, and every button stands for a category of the data.
   */
  ghost predicate ButtonsAgree(data: seq<Entry>, buttons: seq<Button>, active: Option<nat>, current: string)
  {
    && SingleActive(buttons, active)
    && (active.Some? ==> buttons[active.value].tag == current)
    && forall j :: 0 <= j < |buttons| ==> KnownCategory(data, buttons[j].tag)
  }

  /**
   * Once a button is active, exactly one is, and the selected category is
   * `'all'` or the category of some loaded entry.
   */
  lemma SelectionIsKnown(data: seq<Entry>, buttons: seq<Button>, active: Option<nat>, current: string)
    requires ButtonsAgree(data, buttons, active, current) && active.Some?
    ensures ActiveCount(buttons) == 1
    ensures current == All || exists i :: 0 <= i < |data| && data[i].categoria == current
  {
    SingleActiveCount(buttons, active);
    var j := active.value;
    assert KnownCategory(data, buttons[j].tag);
  }

  /** The buttons of a first render, with the remembered one, agree with the filter state. */
  lemma FirstRenderAgrees(data: seq<Entry>, current: string, buttons: seq<Button>, active: Option<nat>)
    requires buttons == ButtonsFor(Categories(data), current)
    requires active == if current in Categories(data) then Some(LastIndex(Categories(data), current)) else None
    ensures ButtonsAgree(data, buttons, active, current)
    ensures ActiveCount(buttons) == if current in Categories(data) then 1 else 0
  {
    var categories := Categories(data);
    CategoriesDistinct(data);
    ButtonsForSingleActive(categories, current);
    forall j | 0 <= j < |categories|
      ensures KnownCategory(data, buttons[j].tag)
    {
      CategoriesKnown(data, categories[j]);
    }
  }

  class Page {
    /** `allData`: the entries loaded from data.json. */
    var allData: seq<Entry>
    /** `currentCategory`: the selected category, `'all'` for every category. */
    var currentCategory: string
    /** `activeCategoryButton`: the index in `filterButtons` of the button marked active, `null` before any. */
    var activeCategoryButton: Option<nat>
    /** The children of `#category-filters`. */
    var filterButtons: seq<Button>
    /** The children of `#card-container`. */
    var cards: seq<Node>
    /** The value of `#search-input`. */
    var searchValue: string
    /** The text of `#error-message`. */
    var errorText: string
    /** `debounce(applyFilters, 300)`, the listener of the search box; it is called with the box's value. */
    const searchTimer: Debounced<string>

    ghost predicate Valid()
      reads this`allData, this`filterButtons, this`activeCategoryButton, this`currentCategory, searchTimer
    {
      && searchTimer.Valid()
      && ButtonsAgree(allData, filterButtons, activeCategoryButton, currentCategory)
    }

    /** The state when the script has run and the page is still empty. */
    constructor ()
      ensures Valid() && fresh(searchTimer)
      ensures allData == [] && currentCategory == All && activeCategoryButton == None
      ensures filterButtons == [] && cards == [] && searchValue == "" && errorText == ""
      ensures searchTimer.scheduled == map[]
    {
      allData := [];
      currentCategory := All;
      activeCategoryButton := None;
      filterButtons := [];
      cards := [];
      searchValue := "";
      errorText := "";
      searchTimer := new Debounced<string>();
    }

    /** `renderCards(data)`: clear the container, then the placeholder or one card per entry. */
    method RenderCards(data: seq<Entry>)
      modifies this`cards
      ensures cards == CardsView(data)
    {
      cards := [];
      if |data| == 0 {
        cards := [Placeholder(NoResultsText)];
        return;
      }
      for i := 0 to |data|
        invariant |cards| == i
        invariant forall j :: 0 <= j < i ==> cards[j] == CardOf(data[j])
      {
        cards := cards + [CardOf(data[i])];
      }
    }

    /**
     * `applyFilters()`: the category pass, then the search pass on the
     * lower-cased box value, then `renderCards`. The search button's listener.
     */
    method ApplyFilters()
      modifies this`cards
      ensures cards == CardsView(Visible(allData, currentCategory, searchValue))
    {
      var searchTerm := Lower(searchValue);
      var filtered := allData;
      if currentCategory != All {
        filtered := Filter(filtered, HasCategory(currentCategory));
      }
      if searchTerm != "" {
        filtered := Filter(filtered, HasTerm(searchTerm));
      }
      RenderCards(filtered);
    }

    /** `renderCategoryFilters()`: one button per entry of the category list. */
    method RenderCategoryFilters()
      modifies this`filterButtons, this`activeCategoryButton
      ensures filterButtons == old(filterButtons) + ButtonsFor(Categories(allData), currentCategory)
      ensures activeCategoryButton ==
        if currentCategory in Categories(allData)
        then Some(|old(filterButtons)| + LastIndex(Categories(allData), currentCategory))
        else old(activeCategoryButton)
      ensures old(filterButtons) == [] && old(activeCategoryButton) == None ==>
        && ButtonsAgree(allData, filterButtons, activeCategoryButton, currentCategory)
        && ActiveCount(filterButtons) == if currentCategory in Categories(allData) then 1 else 0
    {
      var categories := Categories(allData);
      AppendCategoryButtons(categories);
      if old(filterButtons) == [] && old(activeCategoryButton) == None {
        FirstRenderAgrees(allData, currentCategory, filterButtons, activeCategoryButton);
      }
    }

    /**
     * The `forEach` of `renderCategoryFilters`: append one button per category;
     * a button whose category is the selected one is marked active and remembered.
     */
    method AppendCategoryButtons(categories: seq<string>)
      modifies this`filterButtons, this`activeCategoryButton
      ensures filterButtons == old(filterButtons) + ButtonsFor(categories, currentCategory)
      ensures activeCategoryButton ==
        if currentCategory in categories
        then Some(|old(filterButtons)| + LastIndex(categories, currentCategory))
        else old(activeCategoryButton)
    {
      for i := 0 to |categories|
        invariant filterButtons == old(filterButtons) + ButtonsFor(categories[..i], currentCategory)
        invariant activeCategoryButton ==
          if currentCategory in categories[..i]
          then Some(|old(filterButtons)| + LastIndex(categories[..i], currentCategory))
          else old(activeCategoryButton)
      {
        var category := categories[i];
        var button := Button(if category == All then AllLabel else category, category, category == currentCategory);
        if category == currentCategory {
          activeCategoryButton := Some(|filterButtons|);
        }
        ButtonsForAppend(old(filterButtons), categories, i, currentCategory);
        filterButtons := filterButtons + [button];
        assert categories[..i + 1][..i] == categories[..i];
      }
      assert categories[..|categories|] == categories;
    }

    /**
     * `fetchData()` when data.json is read and parsed: store the entries,
     * render the category buttons and the cards, clear the error text. It runs
     * once, on a page with no buttons yet, which then ends up consistent.
     */
    method LoadSucceeded(entries: seq<Entry>)
      requires Valid()
      modifies this`allData, this`filterButtons, this`activeCategoryButton, this`cards, this`errorText
      ensures allData == entries
      ensures filterButtons == old(filterButtons) + ButtonsFor(Categories(entries), currentCategory)
      ensures cards == CardsView(Visible(entries, currentCategory, searchValue))
      ensures errorText == ""
      ensures old(filterButtons) == [] ==> Valid()
      ensures old(filterButtons) == [] ==>
        ActiveCount(filterButtons) == if currentCategory in Categories(entries) then 1 else 0
    {
      assert filterButtons == [] ==> activeCategoryButton == None;
      allData := entries;
      RenderCategoryFilters();
      ApplyFilters();
      errorText := "";
    }

    /** `fetchData()` when the request or the parse fails: only the error text changes. */
    method LoadFailed()
      modifies this`errorText
      ensures errorText == LoadErrorText
    {
      errorText := LoadErrorText;
    }

    /**
     * The click listener of `#category-filters`. `target` is the button the
     * click landed in, or `None` when it landed outside every button. The
     * clicked button's tag becomes the selected category, the previously
     * active button loses the mark, the clicked one gets it, and the cards
     * are filtered again.
     */
    method ClickCategory(target: Option<nat>)
      requires Valid()
      requires target.Some? ==> target.value < |filterButtons|
      modifies this`currentCategory, this`filterButtons, this`activeCategoryButton, this`cards
      ensures Valid()
      ensures target.None? ==>
        && currentCategory == old(currentCategory) && filterButtons == old(filterButtons)
        && activeCategoryButton == old(activeCategoryButton) && cards == old(cards)
      ensures target.Some? ==>
        && currentCategory == old(filterButtons)[target.value].tag
        && activeCategoryButton == target
        && filterButtons == AfterClick(old(filterButtons), old(activeCategoryButton), target.value)
        && |filterButtons| == |old(filterButtons)|
        && (forall j :: 0 <= j < |filterButtons| ==>
              filterButtons[j] == old(filterButtons)[j].(active := j == target.value))
        && ActiveCount(filterButtons) == 1
        && cards == CardsView(Visible(allData, currentCategory, searchValue))
    {
      if target.None? {
        return;
      }
      var clicked := target.value;
      currentCategory := filterButtons[clicked].tag;
      if activeCategoryButton.Some? {
        var previous := activeCategoryButton.value;
        filterButtons := filterButtons[previous := filterButtons[previous].(active := false)];
      }
      filterButtons := filterButtons[clicked := filterButtons[clicked].(active := true)];
      activeCategoryButton := Some(clicked);
      ApplyFilters();
      SingleActiveCount(filterButtons, activeCategoryButton);
    }

    /**
     * An `input` event of the search box with its new value: the debounced
     * listener cancels the pending filter run, if any, and schedules one.
     */
    method InputSearch(value: string)
      requires Valid()
      modifies this`searchValue, searchTimer
      ensures Valid()
      ensures searchValue == value
      ensures searchTimer.scheduled == map[old(searchTimer.nextHandle) := value]
    {
      searchValue := value;
      searchTimer.Call(value);
    }

    /** The search box's quiet period elapses: the pending `applyFilters` runs on the box's current value. */
    method SearchTimerFires(handle: nat)
      requires Valid() && handle in searchTimer.scheduled
      modifies this`cards, searchTimer
      ensures Valid()
      ensures searchTimer.scheduled == map[]
      ensures cards == CardsView(Visible(allData, currentCategory, searchValue))
    {
      var event := searchTimer.Fire(handle);
      ApplyFilters();
    }
  }
}
