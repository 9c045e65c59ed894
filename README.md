# Catalog browser (logicweb `script.js`) in Dafny

`script.js` is the whole client of a small catalog page. It loads a list of
entries from `data.json`. Each entry has `nome`, `categoria`, `descricao`,
`link` and an optional `logo_url`. The script renders one card per entry and
one filter button per category. The visible cards are narrowed by the selected
category and by a search box, and a toggle switches a dark mode that is
remembered in `localStorage`.

This project models that logic without the DOM:

- `text.dfy` (module `Text`): `toLowerCase` as ASCII case folding, and `includes` as a substring test.
- `seqs.dfy` (module `Seqs`): `Array.prototype.filter`, and the insertion order of a `Set` built from an array.
- `catalog.dfy` (module `Catalog`): the entry record and the filter engine of `applyFilters` (`Visible`). It also holds the category list of `renderCategoryFilters`, both as written (`CategoriesAsWritten`) and corrected (`Categories`; see Findings).
- `render.dfy` (module `Render`): category buttons and cards as values. It holds the single-active discipline and its button count, and the card projection of `renderCards`.
- `debounce.dfy` (module `Debounce`): `debounce` as a class. It keeps the captured `timeout` handle and the host's pending timers, with cancel-and-reschedule on every call.
- `darkmode.dfy` (module `DarkMode`): `initializeDarkMode` as a class. It holds the body's `dark-mode` flag, the toggle icon and the storage map.
- `app.dfy` (module `App`): the page. The globals `allData`, `currentCategory` and `activeCategoryButton` are fields of class `Page`, next to the containers they render into. The event handlers are methods, and the `forEach` loops are `for` loops with invariants.

The stub for the network is the argument of `Page.LoadSucceeded` and the call
of `Page.LoadFailed`. The stub for `localStorage` is a `map<string, string>`.
The stub for the pending timers is a map from handle to arguments. A timer
firing is an explicit method call.

## Model

| member | source | states |
|---|---|---|
| Text.LowerChar | script.js:93 | an ASCII capital becomes its lower-case letter; every other character is kept; no capital remains |
| Text.Lower | script.js:93 | `toLowerCase` keeps the length; each ASCII capital becomes its lower-case letter, every other character is kept, and no capital remains |
| Text.LowerIdempotent | script.js:104-105 | folding an already folded string changes nothing |
| Text.IncludesIff | script.js:104-105 | `includes` holds exactly when the term occurs at some index of the string |
| Text.IncludesIgnoringCase | script.js:93-105 | a slice of the name equal to the term up to case makes the folded name include the folded term |
| Seqs.Filter | script.js:98 | `filter` returns no more elements than it got, and each one it returns is an input element that satisfies the callback |
| Seqs.Dedup | script.js:59 | `[...new Set(s)]` holds exactly the elements of `s`, none twice |
| Seqs.FilterIsSubsequence | script.js:98 | `filter` keeps the order of what it keeps |
| Seqs.FilterMembership | script.js:98 | an element is kept exactly when it is in the input and satisfies the callback |
| Seqs.FilterCount | script.js:98 | a kept element keeps every one of its occurrences; a dropped one has none |
| Seqs.FilterKeepsAll | script.js:94 | a callback that admits everything returns the input unchanged |
| Seqs.FilterSame | script.js:98 | callbacks that agree everywhere filter alike |
| Seqs.FilterTwice | script.js:98-106 | two chained `filter` passes equal one pass with the conjunction of the callbacks |
| Seqs.FilterFirstIndexOrder | script.js:59 | filtering keeps the relative order of the first occurrences of kept elements |
| Seqs.DedupFirstAppearance | script.js:59 | the elements of `[...new Set(s)]` come in the order of their first occurrence in `s` |
| Seqs.DedupOnce | script.js:59 | each element of `s` occurs exactly once in `[...new Set(s)]`, and nothing else occurs |
| Catalog.Visible | script.js:92-107 | the filtered result is never longer than `allData` |
| Catalog.VisibleIsOneFilter | script.js:97-106 | the category pass followed by the search pass is one filter with both checks, including the skipped-pass cases (`'all'`, empty term) |
| Catalog.VisibleIsSubsequence | script.js:94-107 | the result is an order-preserving subsequence of `allData` |
| Catalog.VisibleMembership | script.js:97-106 | an entry is shown iff it is loaded, its category is selected or `'all'` is, and the term is empty or the folded name or description includes the folded term |
| Catalog.VisibleCount | script.js:97-106 | a shown entry appears as often as it was loaded, a hidden one never |
| Catalog.VisibleUnfiltered | script.js:94-102 | with `'all'` and an empty box the result is `allData` itself |
| Catalog.SearchIgnoresCase | script.js:93-105 | a name containing the term in any mix of cases matches the search |
| Catalog.SearchIgnoresCaseInDescription | script.js:93-105 | a description containing the term in any mix of cases matches the search |
| Catalog.VisibleIgnoresInputCase | script.js:93 | typing the query in lower case or in any other mix of cases shows the same entries |
| Catalog.CategoryNames | script.js:59 | `allData.map(item => item.categoria)` has one category per entry, in order |
| Catalog.CategoriesAsWritten | script.js:59 | the list as written starts with `'all'` |
| Catalog.Categories | script.js:59 | the corrected list starts with `'all'` |
| Catalog.CategoriesDistinct | script.js:59 | no value appears twice in the corrected list |
| Catalog.CategoriesMembership | script.js:59 | a value is in the list iff it is `'all'` or some loaded entry's `categoria` |
| Catalog.CategoriesKnown | script.js:59 | everything in the list is `'all'` or the category of a loaded entry |
| Catalog.CategoriesCoverEntries | script.js:59 | every loaded entry's `categoria` is in the list |
| Catalog.CategoriesOnce | script.js:59 | after the head, each category other than `'all'` occurs once if some entry has it and otherwise never |
| Catalog.CategoriesFirstAppearance | script.js:59 | after the head, categories come in the order of their first appearance in `allData` |
| Catalog.CategoriesAgreeAsWritten | script.js:59 | when no entry is categorised `'all'`, the corrected list equals the list as written |
| Catalog.AsWrittenRepeatsAll | script.js:59 | for an entry categorised `'all'` the list as written is `['all', 'all']`, so it has a duplicate |
| Render.ButtonFor | script.js:62-68 | a button's tag is its category, its label is `Todas` for `'all'` and the category otherwise, and it is active iff its category is the selected one |
| Render.ButtonsFor | script.js:61-73 | one button per category, in list order; the button at each position is `ButtonFor` of the category there |
| Render.AfterClick | script.js:84-87 | after a click the clicked button is active; every other button is active iff it was and was not the remembered one; labels and tags are unchanged |
| Render.ClickKeepsSingleActive | script.js:84-87 | a click on a page that keeps the single-active discipline keeps it, with the clicked button remembered, and exactly one button active |
| Render.SingleActiveCount | script.js:84-87 | when only the remembered button is active, exactly one button is active, or none when none is remembered |
| Render.ButtonsForSingleActive | script.js:61-70 | over distinct categories, only the selected category's button is active, and it is the remembered one |
| Render.AsWrittenTwoActive | script.js:59-70 | rendering the list as written for an entry categorised `'all'` marks two buttons active |
| Render.AsWrittenClicks | script.js:59-87 | for an entry categorised `'all'`, the first render remembers the second `Todas` button; clicking it again leaves two buttons active, clicking the first `Todas` leaves one |
| Render.CategoriesSingleActive | script.js:59-70 | rendering the corrected list marks exactly one button when the selection is `'all'` or a loaded category, and none otherwise |
| Render.CardOf | script.js:26-34 | a card shows the name, category, description and link, and has a logo iff `logo_url` is truthy, with alt text `Logo <nome>` |
| Render.CardsViewEmpty | script.js:20-23 | no entries: exactly the "Nenhum resultado encontrado." placeholder and zero cards |
| Render.CardsViewOnePerEntry | script.js:25-36 | some entries: one card per entry in input order, no placeholder, a logo exactly where `logo_url` is truthy |
| Debounce.AtMostOnePending | script.js:115-117 | when the only pending timer is the one `timeout` holds, at most one invocation is pending |
| Debounce.Debounced.constructor | script.js:113-114 | a fresh wrapper has no handle and nothing pending |
| Debounce.Debounced.Call | script.js:115-117 | a call cancels the pending invocation; afterwards only the new timer, carrying this call's arguments, is pending |
| Debounce.Debounced.Fire | script.js:117 | a firing timer is the last scheduled one; it yields its arguments and leaves nothing pending |
| DarkMode.IconFor | script.js:136-142 | the icon is the sun iff dark mode is on |
| DarkMode.Persisted | script.js:147 | the stored value is `'enabled'` iff dark, and `'disabled'` otherwise |
| DarkMode.RestorePersisted | script.js:147-152 | reading back the written value restores the same flag, whatever else is stored |
| DarkMode.Toggle.Initialize | script.js:152-155 | at load the page is dark iff it was served dark or the stored value is `'enabled'`; the icon matches |
| DarkMode.Toggle.Click | script.js:144-149 | a click flips the flag, stores `'enabled'`/`'disabled'` under `darkMode`, and updates the icon |
| DarkMode.ClickThenReload | script.js:144-155 | after a click, a reload of a light-served page shows the same mode and icon |
| App.SelectionIsKnown | script.js:84-87 | once a button is active, exactly one is, and the selected category is `'all'` or a loaded entry's category |
| App.FirstRenderAgrees | script.js:59-73 | the first render's buttons and remembered button satisfy the single-active discipline, and every tag is a known category |
| App.Page.constructor | script.js:1-3 | initial globals: no data, category `'all'`, no active button |
| App.Page.RenderCards | script.js:18-36 | the card container holds exactly the card projection of the data |
| App.Page.ApplyFilters | script.js:92-110 | the container shows the cards of `Visible(allData, currentCategory, box value)`; it is also the search button's listener (line 127) |
| App.Page.RenderCategoryFilters | script.js:58-74 | appends the buttons of the corrected category list `Categories` (not line 59 as written; see Findings); remembers the last one matching the selection; the first render is consistent |
| App.Page.AppendCategoryButtons | script.js:61-73 | the `forEach` appends exactly `ButtonsFor(categories)` and remembers the last matching index |
| App.Page.LoadSucceeded | script.js:40-50 | stores the entries, renders the buttons of the corrected category list and the cards, clears the error text; after the first load the single-active discipline holds |
| App.Page.LoadFailed | script.js:51-54 | only the error text changes, to the fixed failure message |
| App.Page.ClickCategory | script.js:79-89 | a click outside every button changes nothing. Otherwise the selection becomes the clicked tag, the buttons become `AfterClick` of the old ones, only the clicked button is active, labels and tags are unchanged, exactly one button is active, and the cards are refiltered |
| App.Page.InputSearch | script.js:113-124 | typing sets the box value and leaves exactly one pending filter run, carrying the new value |
| App.Page.SearchTimerFires | script.js:117-124 | when the quiet period ends, nothing stays pending and the cards show the filter of the current box value |

## Findings

| source | as written | input that shows it | evidently intended | confidence | as-written member | corrected member |
|---|---|---|---|---|---|---|
| script.js:59 | `['all', ...new Set(...)]` adds the sentinel outside the `Set`, so an entry categorised `'all'` adds a second `'all'`. During `renderCategoryFilters` (lines 67-70) both `'all'` buttons are then marked active, and the second is remembered. A click on any button other than the first `Todas` leaves that one active too | one entry `{categoria: "all"}` at load | the sentinel appears once and exactly one button is active | medium; not executed | Catalog.AsWrittenRepeatsAll | Catalog.Categories |

`Render.AsWrittenTwoActive` shows the consequence for the as-written list: two
active buttons. `Render.AsWrittenClicks` shows that clicking the remembered
button keeps both active, and only a click on the first `Todas` gets back to one. `Render.CategoriesSingleActive` and `Catalog.CategoriesDistinct`
prove the corrected list free of it. `App.Page` uses the corrected list. When
no entry is categorised `'all'`, `Catalog.CategoriesAgreeAsWritten` shows the
two lists are equal.

Two modelling choices follow the code:

- The code leaves the body's `dark-mode` class alone unless the stored value is `'enabled'`. So the starting class of the served page (`bodyDark`) is a parameter. It is not assumed to be light.
- The code does not catch a failing `localStorage`. No degraded mode is modelled.

## Left out

- `fetch('data.json')`, the status check and JSON parsing (lines 40-46, 51-54) are network I/O. A successful load is the argument of `Page.LoadSucceeded`; every failure is `Page.LoadFailed`.
- Element lookup and the missing-element `console.error` (lines 6-15) are DOM plumbing. Every element is taken to exist, including the dark-mode toggle.
- HTML strings, `innerHTML`, `classList` and `closest()` are presentation. Cards and buttons are records. A click is the index of the button it landed in, or `None`.
- Unicode case mapping of `toLowerCase` is not modelled. ASCII letters only are folded.
- Entries lacking a text field are not modelled. In JavaScript, `toLowerCase` would throw on them. Here all four text fields are strings and `logo_url` is optional.
- Exceptions thrown inside `fetchData`'s `try` by the rendering code, and a throwing `localStorage`, are not modelled.
- Wall-clock time of `setTimeout` (the 300 ms delay is the constant `Debounce.SearchDelay`) and the `this` binding of `func.apply` are not modelled. The debounced listener receives the input event. It is modelled as the box's value at the time of the event. `applyFilters` ignores it in both cases and reads the box when it runs.
- App.Page.RenderCategoryFilters: renders the corrected list `Categories`, not the list line 59 builds. With an entry categorised `'all'` the page has one `Todas` button where the code has two, both active; that as-written state is shown on values by `Render.AsWrittenTwoActive` and `Render.AsWrittenClicks`, not by the page.
- App.Page.LoadSucceeded: renders the corrected category list, as `App.Page.RenderCategoryFilters` does, so a page loaded with an entry categorised `'all'` never reaches the two-active state of the code. The single-active discipline is promised only for a load onto a page with no buttons yet. The code runs `fetchData` once, and a second run would append a second set of buttons.
- The order in which `initializeDarkMode` registers the click listener and restores the stored value is not modelled; it has no visible effect.
