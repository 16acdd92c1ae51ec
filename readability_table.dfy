/** The readability metrics table. Unlike the errors table it keeps its
    filter state in component state: the search text, a category and a
    subcategory selector, and the current page. An effect recomputes the
    filtered list and returns to page 1 whenever the data or a filter value
    changes; a second effect cuts the current page of 10 rows out of it. */
module ReadabilityTable {
  import opened Wrappers
  import opened Text
  import opened Seqs
  import opened Paging
  import opened Csv

  /** One metric; every field is a string. */
  datatype Metric = Metric(
    category: string,
    subcategory: string,
    name: string,
    key: string,
    description: string,
    interpretation: string)

  const ItemsPerPage: nat := 10

  /** The search looks at the name, the description, the API key and the
      interpretation notes, each lower-cased on its own. */
  predicate TextMatches(m: Metric, lowerQuery: string) {
    || Contains(Lower(m.name), lowerQuery)
    || Contains(Lower(m.description), lowerQuery)
    || Contains(Lower(m.key), lowerQuery)
    || Contains(Lower(m.interpretation), lowerQuery)
  }

  predicate Matches(m: Metric, query: string, category: string, subcategory: string) {
    && (query == "" || TextMatches(m, Lower(query)))
    && (category == "all" || m.category == category)
    && (subcategory == "all" || m.subcategory == subcategory)
  }

  function MatchesAll(query: string, category: string, subcategory: string): Metric -> bool {
    m => Matches(m, query, category, subcategory)
  }

  /** The list the filter effect stores in `filteredMetrics`. */
  function FilterMetrics(metrics: seq<Metric>, query: string, category: string, subcategory: string): (r: seq<Metric>)
    ensures |r| <= |metrics|
    ensures forall m :: m in r <==> m in metrics && Matches(m, query, category, subcategory)
  {
    Filter(metrics, MatchesAll(query, category, subcategory))
  }

  /** The body of the filter effect: narrow a copy of the metrics once per
      active criterion. */
  method FilterSteps(metrics: seq<Metric>, searchQuery: string, categoryFilter: string, subcategoryFilter: string)
    returns (filtered: seq<Metric>)
    ensures filtered == FilterMetrics(metrics, searchQuery, categoryFilter, subcategoryFilter)
  {
    ghost var byText := (m: Metric) => searchQuery == "" || TextMatches(m, Lower(searchQuery));
    ghost var byTextAndCategory := (m: Metric) => byText(m) && (categoryFilter == "all" || m.category == categoryFilter);
    filtered := metrics;
    if searchQuery != "" {
      var query := Lower(searchQuery);
      var hasText := (m: Metric) => TextMatches(m, query);
      filtered := Filter(filtered, hasText);
      FilterSamePredicate(metrics, hasText, byText);
    } else {
      FilterKeepsAll(metrics, byText);
    }
    if categoryFilter != "all" {
      var inCategory := (m: Metric) => m.category == categoryFilter;
      FilterConjunction(metrics, byText, inCategory, byTextAndCategory);
      filtered := Filter(filtered, inCategory);
    } else {
      FilterSamePredicate(metrics, byText, byTextAndCategory);
    }
    if subcategoryFilter != "all" {
      var inSubcategory := (m: Metric) => m.subcategory == subcategoryFilter;
      FilterConjunction(metrics, byTextAndCategory, inSubcategory, MatchesAll(searchQuery, categoryFilter, subcategoryFilter));
      filtered := Filter(filtered, inSubcategory);
    } else {
      FilterSamePredicate(metrics, byTextAndCategory, MatchesAll(searchQuery, categoryFilter, subcategoryFilter));
    }
  }

  /** Exactly which metrics are kept: the lower-cased query occurs in one of
      the four searched fields, and each selector is "all" or equal to the
      metric's value. Category and subcategory are never searched. */
  lemma FilterMetricsExactly(metrics: seq<Metric>, query: string, category: string, subcategory: string, m: Metric)
    ensures m in FilterMetrics(metrics, query, category, subcategory) <==>
      && m in metrics
      && (query == "" || exists f :: f in [m.name, m.description, m.key, m.interpretation] && Contains(Lower(f), Lower(query)))
      && (category == "all" || m.category == category)
      && (subcategory == "all" || m.subcategory == subcategory)
  {
    assert MatchesAll(query, category, subcategory)(m) == Matches(m, query, category, subcategory);
    var fields := [m.name, m.description, m.key, m.interpretation];
    assert fields[0] == m.name && fields[1] == m.description && fields[2] == m.key && fields[3] == m.interpretation;
  }

  /** The kept metrics are in their original order. */
  lemma FilterMetricsIsSubsequence(metrics: seq<Metric>, query: string, category: string, subcategory: string)
    ensures IsSubsequence(FilterMetrics(metrics, query, category, subcategory), metrics)
  {
    FilterIsSubsequence(metrics, MatchesAll(query, category, subcategory));
  }

  /** With all filters cleared every metric is listed. */
  lemma NoFiltersKeepsAll(metrics: seq<Metric>)
    ensures FilterMetrics(metrics, "", "all", "all") == metrics
  {
    FilterKeepsAll(metrics, MatchesAll("", "all", "all"));
  }

  /** Adding a category to a text search can only narrow the list: the result
      is a subsequence of the text search alone. */
  lemma CategoryNarrows(metrics: seq<Metric>, query: string, category: string, subcategory: string)
    ensures IsSubsequence(FilterMetrics(metrics, query, category, subcategory),
                          FilterMetrics(metrics, query, "all", subcategory))
  {
    FilterStricter(metrics, MatchesAll(query, "all", subcategory), MatchesAll(query, category, subcategory));
  }

  /** `Math.ceil(filteredMetrics.length / 10)`; there is no lower bound of 1,
      so an empty list has zero pages. */
  function TotalPages(n: nat): (r: nat)
    ensures r * ItemsPerPage >= n
    ensures r > 0 ==> (r - 1) * ItemsPerPage < n
  {
    CeilDiv(n, ItemsPerPage)
  }

  /** The pagination bar is drawn exactly when there are more than 10 rows,
      and there are zero pages exactly when there are no rows. */
  lemma PaginationShownIff(n: nat)
    ensures TotalPages(n) > 1 <==> n > ItemsPerPage
    ensures TotalPages(n) == 0 <==> n == 0
  {
  }

  function CategoryOf(m: Metric): string {
    m.category
  }

  function SubcategoryOf(m: Metric): string {
    m.subcategory
  }

  /** `readabilityData.map(item => item.Category)`. */
  function Categories(metrics: seq<Metric>): seq<string> {
    Map(metrics, CategoryOf)
  }

  /** `readabilityData.map(item => item.Subcategory)`. */
  function Subcategories(metrics: seq<Metric>): seq<string> {
    Map(metrics, SubcategoryOf)
  }

  /** The category selector lists every category once, unsorted, in the order
      of first occurrence in the data. */
  lemma CategoryOptions(metrics: seq<Metric>)
    ensures Distinct(Unique(Categories(metrics)))
    ensures forall c :: c in Unique(Categories(metrics)) <==> exists m :: m in metrics && m.category == c
    ensures var cs := Unique(Categories(metrics));
      forall i, j :: 0 <= i < j < |cs| ==> IndexOf(Categories(metrics), cs[i]) < IndexOf(Categories(metrics), cs[j])
  {
    UniqueValuesOf(metrics, CategoryOf);
  }

  /** The subcategory selector lists every subcategory once, unsorted, in the
      order of first occurrence in the data. */
  lemma SubcategoryOptions(metrics: seq<Metric>)
    ensures Distinct(Unique(Subcategories(metrics)))
    ensures forall c :: c in Unique(Subcategories(metrics)) <==> exists m :: m in metrics && m.subcategory == c
    ensures var cs := Unique(Subcategories(metrics));
      forall i, j :: 0 <= i < j < |cs| ==> IndexOf(Subcategories(metrics), cs[i]) < IndexOf(Subcategories(metrics), cs[j])
  {
    UniqueValuesOf(metrics, SubcategoryOf);
  }

  /** The state of one mounted table. The fields are the component's state
      cells; `Valid` says that both effects have run to completion. */
  class Table {
    var metrics: seq<Metric>
    var filteredMetrics: seq<Metric>
    var paginatedMetrics: seq<Metric>
    var searchQuery: string
    var categoryFilter: string
    var subcategoryFilter: string
    var categories: seq<string>
    var subcategories: seq<string>
    var page: int

    predicate Valid()
      reads this
    {
      && filteredMetrics == FilterMetrics(metrics, searchQuery, categoryFilter, subcategoryFilter)
      && paginatedMetrics == PageSlice(filteredMetrics, page, ItemsPerPage)
      && 1 <= page <= Max(1, TotalPages(|filteredMetrics|))
      && OptionsOfData()
    }

    /** The selector options are those extracted from the loaded data. */
    predicate OptionsOfData()
      reads this`metrics, this`categories, this`subcategories
    {
      categories == Unique(Categories(metrics)) && subcategories == Unique(Subcategories(metrics))
    }

    /** The table once mounted: the data is loaded, the selector options are
        extracted, and the effects have shown the first page of everything. */
    constructor(data: seq<Metric>)
      ensures Valid()
      ensures metrics == data && filteredMetrics == data && page == 1
      ensures searchQuery == "" && categoryFilter == "all" && subcategoryFilter == "all"
    {
      metrics := data;
      searchQuery := "";
      categoryFilter := "all";
      subcategoryFilter := "all";
      categories := Unique(Categories(data));
      subcategories := Unique(Subcategories(data));
      var filtered := FilterSteps(data, "", "all", "all");
      NoFiltersKeepsAll(data);
      filteredMetrics := filtered;
      page := 1;
      paginatedMetrics := PageSlice(filtered, 1, ItemsPerPage);
    }

    /** The filter effect followed by the pagination effect. */
    method RunFilterEffect()
      modifies this
      requires OptionsOfData()
      ensures Valid()
      ensures filteredMetrics == FilterMetrics(metrics, searchQuery, categoryFilter, subcategoryFilter)
      ensures page == 1
      ensures metrics == old(metrics) && searchQuery == old(searchQuery)
      ensures categoryFilter == old(categoryFilter) && subcategoryFilter == old(subcategoryFilter)
      ensures categories == old(categories) && subcategories == old(subcategories)
    {
      var filtered := FilterSteps(metrics, searchQuery, categoryFilter, subcategoryFilter);
      filteredMetrics := filtered;
      page := 1;
      paginatedMetrics := PageSlice(filteredMetrics, page, ItemsPerPage);
    }

    /** Typing in the search box. Setting the same text again changes no
        state, so the effect does not run and the page stays. */
    method SetSearchQuery(value: string)
      modifies this
      requires Valid()
      ensures Valid()
      ensures searchQuery == value
      ensures filteredMetrics == FilterMetrics(metrics, value, categoryFilter, subcategoryFilter)
      ensures page == if value == old(searchQuery) then old(page) else 1
      ensures metrics == old(metrics) && categories == old(categories) && subcategories == old(subcategories)
      ensures categoryFilter == old(categoryFilter) && subcategoryFilter == old(subcategoryFilter)
    {
      if value != searchQuery {
        searchQuery := value;
        RunFilterEffect();
      }
    }

    /** Choosing a category. */
    method SetCategoryFilter(value: string)
      modifies this
      requires Valid()
      ensures Valid()
      ensures categoryFilter == value
      ensures filteredMetrics == FilterMetrics(metrics, searchQuery, value, subcategoryFilter)
      ensures page == if value == old(categoryFilter) then old(page) else 1
      ensures metrics == old(metrics) && categories == old(categories) && subcategories == old(subcategories)
      ensures searchQuery == old(searchQuery) && subcategoryFilter == old(subcategoryFilter)
    {
      if value != categoryFilter {
        categoryFilter := value;
        RunFilterEffect();
      }
    }

    /** Choosing a subcategory. */
    method SetSubcategoryFilter(value: string)
      modifies this
      requires Valid()
      ensures Valid()
      ensures subcategoryFilter == value
      ensures filteredMetrics == FilterMetrics(metrics, searchQuery, categoryFilter, value)
      ensures page == if value == old(subcategoryFilter) then old(page) else 1
      ensures metrics == old(metrics) && categories == old(categories) && subcategories == old(subcategories)
      ensures searchQuery == old(searchQuery) && categoryFilter == old(categoryFilter)
    {
      if value != subcategoryFilter {
        subcategoryFilter := value;
        RunFilterEffect();
      }
    }

    /** Clear Filters: the three setters run in one batch, so the effect runs
        once, and only when some filter was set. Afterwards every metric is
        listed. */
    method ClearFilters()
      modifies this
      requires Valid()
      ensures Valid()
      ensures searchQuery == "" && categoryFilter == "all" && subcategoryFilter == "all"
      ensures filteredMetrics == metrics
      ensures page == if old(searchQuery) == "" && old(categoryFilter) == "all" && old(subcategoryFilter) == "all"
                      then old(page) else 1
      ensures metrics == old(metrics) && categories == old(categories) && subcategories == old(subcategories)
    {
      if searchQuery == "" && categoryFilter == "all" && subcategoryFilter == "all" {
        NoFiltersKeepsAll(metrics);
      } else {
        ResetFilters();
      }
    }

    /** The batch of Clear Filters when some filter was set: all three are
        reset and the effect shows the first page of every metric. */
    method ResetFilters()
      modifies this
      requires Valid()
      ensures Valid()
      ensures searchQuery == "" && categoryFilter == "all" && subcategoryFilter == "all"
      ensures filteredMetrics == metrics && page == 1
      ensures metrics == old(metrics) && categories == old(categories) && subcategories == old(subcategories)
    {
      searchQuery, categoryFilter, subcategoryFilter := "", "all", "all";
      RunFilterEffect();
      NoFiltersKeepsAll(metrics);
    }

    /** A numbered page button; the buttons run from 1 to the page count. */
    method GoToPage(p: int)
      modifies this
      requires Valid() && 1 <= p <= TotalPages(|filteredMetrics|)
      ensures Valid()
      ensures page == p
      ensures paginatedMetrics == PageSlice(filteredMetrics, p, ItemsPerPage)
      ensures |paginatedMetrics| >= 1
      ensures metrics == old(metrics) && filteredMetrics == old(filteredMetrics)
      ensures searchQuery == old(searchQuery) && categoryFilter == old(categoryFilter)
      ensures subcategoryFilter == old(subcategoryFilter)
      ensures categories == old(categories) && subcategories == old(subcategories)
    {
      page := p;
      paginatedMetrics := PageSlice(filteredMetrics, page, ItemsPerPage);
      PageInRangeNonEmpty(filteredMetrics, p, ItemsPerPage);
    }

    /** The previous-page button: `setPage(p => Math.max(1, p - 1))`. */
    method PreviousPage()
      modifies this
      requires Valid()
      ensures Valid()
      ensures page == Max(1, old(page) - 1)
      ensures paginatedMetrics == PageSlice(filteredMetrics, page, ItemsPerPage)
      ensures metrics == old(metrics) && filteredMetrics == old(filteredMetrics)
      ensures searchQuery == old(searchQuery) && categoryFilter == old(categoryFilter)
      ensures subcategoryFilter == old(subcategoryFilter)
      ensures categories == old(categories) && subcategories == old(subcategories)
    {
      page := Max(1, page - 1);
      paginatedMetrics := PageSlice(filteredMetrics, page, ItemsPerPage);
    }

    /** The next-page button: `setPage(p => Math.min(totalPages, p + 1))`.
        It is only drawn when there is more than one page. */
    method NextPage()
      modifies this
      requires Valid() && TotalPages(|filteredMetrics|) > 1
      ensures Valid()
      ensures page == Min(TotalPages(|filteredMetrics|), old(page) + 1)
      ensures paginatedMetrics == PageSlice(filteredMetrics, page, ItemsPerPage)
      ensures metrics == old(metrics) && filteredMetrics == old(filteredMetrics)
      ensures searchQuery == old(searchQuery) && categoryFilter == old(categoryFilter)
      ensures subcategoryFilter == old(subcategoryFilter)
      ensures categories == old(categories) && subcategories == old(subcategories)
    {
      page := Min(TotalPages(|filteredMetrics|), page + 1);
      paginatedMetrics := PageSlice(filteredMetrics, page, ItemsPerPage);
    }
  }

  /** In every settled state the caption "Showing {shown} of {filtered}"
      counts at most 10 shown rows out of the filtered ones, and a non-empty
      filtered list never shows an empty page. */
  lemma CaptionCounts(t: Table)
    requires t.Valid()
    ensures |t.paginatedMetrics| <= ItemsPerPage
    ensures |t.paginatedMetrics| <= |t.filteredMetrics|
    ensures |t.filteredMetrics| > 0 ==> |t.paginatedMetrics| >= 1
  {
    PageSliceWindow(t.filteredMetrics, t.page, ItemsPerPage);
    if |t.filteredMetrics| > 0 {
      PageInRangeNonEmpty(t.filteredMetrics, t.page, ItemsPerPage);
    }
  }

  /** In every settled state the footer "Showing first to last" counts the
      rows of the current page, none when the list is empty. */
  lemma FooterCountsPage(t: Table)
    requires t.Valid()
    ensures var r := ShowingRange(t.page, ItemsPerPage, |t.filteredMetrics|);
      r.1 - r.0 + 1 == |t.paginatedMetrics|
  {
    ShowingRangeCountsPage(t.filteredMetrics, t.page, ItemsPerPage);
  }

  // ---------------------------------------------------------------------
  // Subcategory badge colours
  // ---------------------------------------------------------------------

  const DefaultColor := "bg-slate-100 text-slate-900"

  const KnownSubcategories: seq<string> := [
    "US-based", "EU-based", "Structure", "Sentiment & Tone", "Audience Reach",
    "Grammar & Style", "Vocabulary", "Style", "Names & Words", "Content Flags",
    "Readability Algorithms", "Basic Text Statistics", "Issue Highlighting"]

  /** `getSubcategoryColor`. */
  function SubcategoryColor(subcategory: string): string {
    match subcategory
    case "US-based" => "bg-blue-100 text-blue-900"
    case "EU-based" => "bg-purple-100 text-purple-900"
    case "Structure" => "bg-yellow-100 text-yellow-900"
    case "Sentiment & Tone" => "bg-pink-100 text-pink-900"
    case "Audience Reach" => "bg-indigo-100 text-indigo-900"
    case "Grammar & Style" => "bg-rose-100 text-rose-900"
    case "Vocabulary" => "bg-teal-100 text-teal-900"
    case "Style" => "bg-orange-100 text-orange-900"
    case "Names & Words" => "bg-cyan-100 text-cyan-900"
    case "Content Flags" => "bg-red-100 text-red-900"
    case "Readability Algorithms" => "bg-green-100 text-green-900"
    case "Basic Text Statistics" => "bg-gray-100 text-gray-900"
    case "Issue Highlighting" => "bg-fuchsia-100 text-fuchsia-900"
    case _ => DefaultColor
  }

  /** A subcategory gets the default colour exactly when it has no case of
      its own. */
  lemma ColorDefaultIffUnknown(subcategory: string)
    ensures SubcategoryColor(subcategory) == DefaultColor <==> subcategory !in KnownSubcategories
  {
  }

  // ---------------------------------------------------------------------
  // CSV export
  // ---------------------------------------------------------------------

  const Headers: seq<string> := [
    "Category", "Subcategory", "Metric/Functionality Name",
    "API Variable Name (key)", "Description", "Interpretation Notes / Guidelines"]

  /** The values of a metric in header order. */
  function Values(m: Metric): (r: seq<string>)
    ensures |r| == |Headers|
  {
    [m.category, m.subcategory, m.name, m.key, m.description, m.interpretation]
  }

  /** One exported line: every value quoted with inner quotes doubled. */
  function RowLine(m: Metric): string {
    Line(QuoteAll(Values(m)))
  }

  /** The text of `readability-metrics.csv`. */
  function ExportCsv(filtered: seq<Metric>): string {
    Document(Line(Headers), Map(filtered, RowLine))
  }

  /** Every cell is escaped, so the export reads back, with a quote-aware
      reader, to the header and the six values of every filtered metric in
      order, whatever quotes, commas or line feeds the values hold. */
  lemma ExportReadsBack(filtered: seq<Metric>)
    ensures ParseDocument(ExportCsv(filtered)) == Some((Line(Headers), Map(filtered, Values)))
  {
    var vss := Map(filtered, Values);
    var lines := Map(filtered, RowLine);
    forall i | 0 <= i < |filtered|
      ensures |vss[i]| >= 1 && lines[i] == Line(QuoteAll(vss[i]))
    {
      assert vss[i] == Values(filtered[i]);
      assert lines[i] == RowLine(filtered[i]);
    }
    LineWithoutNewline(Headers);
    DocumentReadsBack(Line(Headers), vss, lines);
  }

  /** When no value holds a line feed, the export is also 1 + n lines apart:
      the header line, then one line per filtered metric in order. */
  lemma ExportLines(filtered: seq<Metric>)
    requires forall i, j :: 0 <= i < |filtered| && 0 <= j < 6 ==> '\n' !in Values(filtered[i])[j]
    ensures var lines := Split(ExportCsv(filtered), '\n');
      && |lines| == 1 + |filtered|
      && lines[0] == Line(Headers)
      && forall i :: 0 <= i < |filtered| ==> lines[i + 1] == RowLine(filtered[i])
  {
    var rows := Map(filtered, RowLine);
    forall i | 0 <= i < |filtered|
      ensures '\n' !in rows[i]
    {
      var cells := QuoteAll(Values(filtered[i]));
      assert forall j :: 0 <= j < |cells| ==> '\n' !in cells[j];
      LineWithoutNewline(cells);
    }
    LineWithoutNewline(Headers);
    DocumentLines(Line(Headers), rows);
  }
}
