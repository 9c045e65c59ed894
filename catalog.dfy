/**
 * The catalog logic of script.js with the DOM taken away: the entries loaded
 * from data.json, the filter that `applyFilters` applies to them, and the
 * category list that `renderCategoryFilters` derives from them.
 */
module Catalog {
  import opened Wrappers
  import opened Text
  import opened Seqs

  /** One object of data.json: `nome`, `categoria`, `descricao`, `link` and an optional `logo_url`. */
  datatype Entry = Entry(nome: string, categoria: string, descricao: string, link: string, logoUrl: Option<string>)

  /** The sentinel value of `currentCategory` that selects every category. */
  const All: string := "all"

  // ---- Filter engine (applyFilters) ----

  /** The callback of the first `filter` pass: exact, case-sensitive category equality. */
  function HasCategory(category: string): (p: Entry -> bool)
  {
    (e: Entry) => e.categoria == category
  }

  /** The callback of the second `filter` pass; `term` is already lower-cased. */
  function HasTerm(term: string): (p: Entry -> bool)
  {
    (e: Entry) => Includes(Lower(e.nome), term) || Includes(Lower(e.descricao), term)
  }

  /** The category check, including the case in which the pass is skipped. */
  predicate InCategory(e: Entry, category: string)
  {
    category == All || e.categoria == category
  }

  /** The search check, including the case in which the pass is skipped. */
  predicate MatchesTerm(e: Entry, term: string)
  {
    term == "" || Includes(Lower(e.nome), term) || Includes(Lower(e.descricao), term)
  }

  /** Both checks of `applyFilters` as one predicate. */
  function Admits(category: string, term: string): (p: Entry -> bool)
  {
    (e: Entry) => InCategory(e, category) && MatchesTerm(e, term)
  }

  /**
   * What `applyFilters` hands to `renderCards`: the category pass unless the
   * category is `'all'`, then the search pass unless the lower-cased input is empty.
   */
  function Visible(data: seq<Entry>, category: string, input: string): (r: seq<Entry>)
    ensures |r| <= |data|
  {
    var term := Lower(input);
    var byCategory := if category != All then Filter(data, HasCategory(category)) else data;
    if term != "" then Filter(byCategory, HasTerm(term)) else byCategory
  }

  /** The two passes of `applyFilters` are a single filter with both checks. */
  lemma VisibleIsOneFilter(data: seq<Entry>, category: string, input: string)
    ensures Visible(data, category, input) == Filter(data, Admits(category, Lower(input)))
  {
    var term := Lower(input);
    var both := Admits(category, term);
    if category != All && term != "" {
      FilterTwice(data, HasCategory(category), HasTerm(term), both);
    } else if category != All {
      FilterSame(data, HasCategory(category), both);
    } else if term != "" {
      FilterSame(data, HasTerm(term), both);
    } else {
      FilterKeepsAll(data, both);
    }
  }

  /** The visible entries are the loaded ones with some deleted: nothing is invented or reordered. */
  lemma VisibleIsSubsequence(data: seq<Entry>, category: string, input: string)
    ensures IsSubsequence(Visible(data, category, input), data)
  {
    VisibleIsOneFilter(data, category, input);
    FilterIsSubsequence(data, Admits(category, Lower(input)));
  }

  /** An entry is visible exactly when it is loaded and passes both the category and the search check. */
  lemma VisibleMembership(data: seq<Entry>, category: string, input: string, e: Entry)
    ensures e in Visible(data, category, input) <==>
      e in data && InCategory(e, category) && MatchesTerm(e, Lower(input))
  {
    VisibleIsOneFilter(data, category, input);
    FilterMembership(data, Admits(category, Lower(input)), e);
  }

  /** A visible entry is shown as many times as it was loaded; a hidden one not at all. */
  lemma VisibleCount(data: seq<Entry>, category: string, input: string, e: Entry)
    ensures multiset(Visible(data, category, input))[e] ==
      if InCategory(e, category) && MatchesTerm(e, Lower(input)) then multiset(data)[e] else 0
  {
    VisibleIsOneFilter(data, category, input);
    FilterCount(data, Admits(category, Lower(input)), e);
  }

  /** With category `'all'` and an empty search box everything loaded is shown, in order. */
  lemma VisibleUnfiltered(data: seq<Entry>)
    ensures Visible(data, All, "") == data
  {
  }

  /**
   * The search ignores case on both sides: an entry whose name contains the
   * term in any mix of cases matches.
   */
  lemma SearchIgnoresCase(e: Entry, input: string, i: nat)
    requires i + |input| <= |e.nome| && Lower(e.nome[i..i + |input|]) == Lower(input)
    ensures MatchesTerm(e, Lower(input))
  {
    IncludesIgnoringCase(e.nome, input, i);
  }

  /** The same for the description: a description containing the term in any mix of cases matches. */
  lemma SearchIgnoresCaseInDescription(e: Entry, input: string, i: nat)
    requires i + |input| <= |e.descricao| && Lower(e.descricao[i..i + |input|]) == Lower(input)
    ensures MatchesTerm(e, Lower(input))
  {
    IncludesIgnoringCase(e.descricao, input, i);
  }

  /** Typing the query in lower case or in any other mix of cases shows the same entries. */
  lemma VisibleIgnoresInputCase(data: seq<Entry>, category: string, input: string)
    ensures Visible(data, category, Lower(input)) == Visible(data, category, input)
  {
    LowerIdempotent(input);
  }

  // ---- Category list (renderCategoryFilters, line 59) ----

  /** `allData.map(item => item.categoria)`. */
  function CategoryNames(data: seq<Entry>): (names: seq<string>)
    ensures |names| == |data|
    ensures forall i :: 0 <= i < |data| ==> names[i] == data[i].categoria
  {
    seq(|data|, i requires 0 <= i < |data| => data[i].categoria)
  }

  /** A category value other than the `'all'` sentinel. */
  function IsNamedCategory(c: string): (b: bool)
  {
    c != All
  }

  /** `['all', ...new Set(allData.map(item => item.categoria))]`, exactly as written. */
  function CategoriesAsWritten(data: seq<Entry>): (r: seq<string>)
    ensures |r| >= 1 && r[0] == All
  {
    [All] + Dedup(CategoryNames(data))
  }

  /**
   * The category list with the sentinel kept out of the `Set`: `'all'` first,
   * then every other category once, in order of first appearance.
   */
  function Categories(data: seq<Entry>): (r: seq<string>)
    ensures |r| >= 1 && r[0] == All
  {
    [All] + Dedup(Filter(CategoryNames(data), IsNamedCategory))
  }

  /** No category value appears twice in the list. */
  lemma CategoriesDistinct(data: seq<Entry>)
    ensures Distinct(Categories(data))
  {
    var tail := Dedup(Filter(CategoryNames(data), IsNamedCategory));
    forall i | 0 <= i < |tail|
      ensures tail[i] != All
    {
      FilterMembership(CategoryNames(data), IsNamedCategory, tail[i]);
    }
  }

  /** A value is in the list exactly when it is `'all'` or the category of some loaded entry. */
  lemma CategoriesMembership(data: seq<Entry>, c: string)
    ensures c in Categories(data) <==> c == All || exists i :: 0 <= i < |data| && data[i].categoria == c
  {
    var names := CategoryNames(data);
    var named := Filter(names, IsNamedCategory);
    FilterMembership(names, IsNamedCategory, c);
    if c in Dedup(named) {
      var k :| 0 <= k < |Dedup(named)| && Dedup(named)[k] == c;
      assert c in named;
      var i :| 0 <= i < |names| && names[i] == c;
      assert data[i].categoria == c;
    }
    if c != All && exists i :: 0 <= i < |data| && data[i].categoria == c {
      var i :| 0 <= i < |data| && data[i].categoria == c;
      assert names[i] == c;
      var j :| 0 <= j < |named| && named[j] == c;
      assert c in Dedup(named);
    }
  }

  /** `'all'` or the category of some loaded entry. */
  ghost predicate KnownCategory(data: seq<Entry>, c: string)
  {
    c == All || c in CategoryNames(data)
  }

  /** Everything in the list is `'all'` or the category of some loaded entry. */
  lemma CategoriesKnown(data: seq<Entry>, c: string)
    requires c in Categories(data)
    ensures KnownCategory(data, c)
  {
    CategoriesMembership(data, c);
    if c != All {
      var i :| 0 <= i < |data| && data[i].categoria == c;
      assert CategoryNames(data)[i] == c;
    }
  }

  /** Every loaded entry's category has a button. */
  lemma CategoriesCoverEntries(data: seq<Entry>, e: Entry)
    requires e in data
    ensures e.categoria in Categories(data)
  {
    var i :| 0 <= i < |data| && data[i] == e;
    CategoriesMembership(data, e.categoria);
  }

  /** After the sentinel, each category other than `'all'` appears exactly once. */
  lemma CategoriesOnce(data: seq<Entry>, c: string)
    requires c != All
    ensures multiset(Categories(data)[1..])[c] == if c in CategoryNames(data) then 1 else 0
  {
    var names := CategoryNames(data);
    var named := Filter(names, IsNamedCategory);
    assert Categories(data)[1..] == Dedup(named);
    DedupOnce(named, c);
    FilterMembership(names, IsNamedCategory, c);
  }

  /** After the sentinel, the categories come in the order in which they first occur among the entries. */
  lemma CategoriesFirstAppearance(data: seq<Entry>, i: nat, j: nat)
    requires 1 <= i < j < |Categories(data)|
    ensures Categories(data)[i] in CategoryNames(data) && Categories(data)[j] in CategoryNames(data)
    ensures FirstIndex(CategoryNames(data), Categories(data)[i]) < FirstIndex(CategoryNames(data), Categories(data)[j])
  {
    var names := CategoryNames(data);
    var named := Filter(names, IsNamedCategory);
    var tail := Dedup(named);
    var x, y := tail[i - 1], tail[j - 1];
    assert x == Categories(data)[i] && y == Categories(data)[j];
    assert x in named && y in named;
    assert x != y;
    DedupFirstAppearance(named);
    assert FirstIndex(named, x) < FirstIndex(named, y);
    FilterMembership(names, IsNamedCategory, x);
    FilterMembership(names, IsNamedCategory, y);
    FirstIndexOrderBack(names, x, y);
    if FirstIndex(names, y) < FirstIndex(names, x) {
      FilterFirstIndexOrder(names, IsNamedCategory, y, x);
    }
  }

  /** Two different elements have different first indices. */
  lemma FirstIndexOrderBack(s: seq<string>, x: string, y: string)
    requires x in s && y in s && x != y
    ensures FirstIndex(s, x) != FirstIndex(s, y)
  {
  }

  /** Where no entry is categorised `'all'`, the list is exactly the one line 59 builds. */
  lemma CategoriesAgreeAsWritten(data: seq<Entry>)
    requires forall i :: 0 <= i < |data| ==> data[i].categoria != All
    ensures Categories(data) == CategoriesAsWritten(data)
  {
    FilterKeepsAll(CategoryNames(data), IsNamedCategory);
  }

  /** Line 59 as written lists `'all'` twice when an entry is categorised `'all'`. */
  lemma AsWrittenRepeatsAll(e: Entry)
    requires e.categoria == All
    ensures CategoriesAsWritten([e]) == [All, All]
    ensures !Distinct(CategoriesAsWritten([e]))
  {
    assert CategoryNames([e]) == [All];
    assert [All][..0] == [];
    assert Dedup([All]) == [All];
    var r := CategoriesAsWritten([e]);
    assert r[0] == r[1];
  }
}
