/** The PDF/UA errors table. Its filter state lives in the URL (`category`,
    `severity`, `q`, `page`); every control writes the URL through
    `updateParams`, and the view is recomputed from it: text search over
    code and message, category and severity filters, pages of 15 rows and a
    CSV export of the filtered rows. */
module PdfUaErrorsTable {
  import opened Wrappers
  import opened Text
  import opened Seqs
  import opened StringOrder
  import opened UrlParams
  import opened JsNumber
  import opened Paging
  import opened Csv

  datatype Severity = Error | Warning | NeedManual

  /** The severity as the source spells it. */
  function SeverityName(s: Severity): (r: string)
    ensures r != "" && r != "all"
  {
    match s
    case Error => "Error"
    case Warning => "Warning"
    case NeedManual => "Need manual"
  }

  /** Different severities are spelled differently, so the severity filter
      singles out one severity. */
  lemma SeverityNamesDistinct(a: Severity, b: Severity)
    requires a != b
    ensures SeverityName(a) != SeverityName(b)
  {
  }

  /** One row of the error catalogue; `guideline`, `fixHint` and
      `exampleLink` are optional. */
  datatype ErrorRow = ErrorRow(
    category: string,
    code: string,
    severity: Severity,
    message: string,
    guideline: Option<string>,
    fixHint: Option<string>,
    exampleLink: Option<string>)

  const ItemsPerPage: nat := 15

  /** The filter state as the component reads it from the URL:
      `get(...) || default` for the three filters, and
      `parseInt(get("page") || "1", 10)` for the page. */
  datatype Criteria = Criteria(category: string, severity: string, query: string, page: JsInt)

  function ReadCriteria(params: seq<Param>): (c: Criteria)
    ensures c.category != "" && c.severity != ""
    ensures Lookup(params, "category").None? || Lookup(params, "category").value == "" ==> c.category == "all"
    ensures Lookup(params, "category").Some? && Lookup(params, "category").value != "" ==>
      c.category == Lookup(params, "category").value
    ensures Lookup(params, "severity").None? || Lookup(params, "severity").value == "" ==> c.severity == "all"
    ensures Lookup(params, "severity").Some? && Lookup(params, "severity").value != "" ==>
      c.severity == Lookup(params, "severity").value
    ensures Lookup(params, "q").None? || Lookup(params, "q").value == "" ==> c.query == ""
    ensures Lookup(params, "q").Some? && Lookup(params, "q").value != "" ==> c.query == Lookup(params, "q").value
    ensures Lookup(params, "page").None? || Lookup(params, "page").value == "" ==> c.page == Int(1)
    ensures Lookup(params, "page").Some? && Lookup(params, "page").value != "" ==>
      c.page == ParseInt(Lookup(params, "page").value)
  {
    var pageText := LookupOr(params, "page", "1");
    assert (Lookup(params, "page").None? || Lookup(params, "page").value == "") ==>
      pageText == "1" && ParseInt(pageText) == Int(1) by {
      if Lookup(params, "page").None? || Lookup(params, "page").value == "" {
        ParseDigits("1");
      }
    }
    Criteria(
      LookupOr(params, "category", "all"),
      LookupOr(params, "severity", "all"),
      LookupOr(params, "q", ""),
      ParseInt(pageText))
  }

  /** The text search looks at the code and the message joined by a space,
      lower-cased, and at nothing else. */
  predicate TextMatches(e: ErrorRow, lowerQuery: string) {
    Contains(Lower(e.code + " " + e.message), lowerQuery)
  }

  /** A row passes all three criteria; an empty query and "all" impose nothing. */
  predicate Matches(e: ErrorRow, query: string, category: string, severity: string) {
    && (query == "" || TextMatches(e, Lower(query)))
    && (category == "all" || e.category == category)
    && (severity == "all" || SeverityName(e.severity) == severity)
  }

  function MatchesAll(query: string, category: string, severity: string): ErrorRow -> bool {
    e => Matches(e, query, category, severity)
  }

  /** The rows the table shows before paging. */
  function Filtered(rawErrors: seq<ErrorRow>, query: string, category: string, severity: string): (r: seq<ErrorRow>)
    ensures |r| <= |rawErrors|
    ensures forall e :: e in r <==> e in rawErrors && Matches(e, query, category, severity)
  {
    Filter(rawErrors, MatchesAll(query, category, severity))
  }

  /** The `filtered` memo: start from all rows and narrow the list once per
      active criterion. */
  method FilterErrors(rawErrors: seq<ErrorRow>, query: string, categoryFilter: string, severityFilter: string)
    returns (temp: seq<ErrorRow>)
    ensures temp == Filtered(rawErrors, query, categoryFilter, severityFilter)
  {
    ghost var byText := (e: ErrorRow) => query == "" || TextMatches(e, Lower(query));
    ghost var byCategory := (e: ErrorRow) => categoryFilter == "all" || e.category == categoryFilter;
    ghost var byTextAndCategory := (e: ErrorRow) => byText(e) && byCategory(e);
    temp := rawErrors;
    if query != "" {
      var lower := Lower(query);
      var hasText := (e: ErrorRow) => TextMatches(e, lower);
      temp := Filter(temp, hasText);
      FilterSamePredicate(rawErrors, hasText, byText);
    } else {
      FilterKeepsAll(rawErrors, byText);
    }
    assert temp == Filter(rawErrors, byText);
    if categoryFilter != "all" {
      var inCategory := (e: ErrorRow) => e.category == categoryFilter;
      FilterConjunction(rawErrors, byText, inCategory, byTextAndCategory);
      temp := Filter(temp, inCategory);
    } else {
      FilterSamePredicate(rawErrors, byText, byTextAndCategory);
    }
    assert temp == Filter(rawErrors, byTextAndCategory);
    if severityFilter != "all" {
      var ofSeverity := (e: ErrorRow) => SeverityName(e.severity) == severityFilter;
      FilterConjunction(rawErrors, byTextAndCategory, ofSeverity, MatchesAll(query, categoryFilter, severityFilter));
      temp := Filter(temp, ofSeverity);
    } else {
      FilterSamePredicate(rawErrors, byTextAndCategory, MatchesAll(query, categoryFilter, severityFilter));
    }
  }

  /** The filtered rows keep the catalogue's order and add nothing. */
  lemma FilteredIsSubsequence(rawErrors: seq<ErrorRow>, query: string, category: string, severity: string)
    ensures IsSubsequence(Filtered(rawErrors, query, category, severity), rawErrors)
  {
    FilterIsSubsequence(rawErrors, MatchesAll(query, category, severity));
  }

  /** With no query and both selectors on "all", every row is shown. */
  lemma NoCriteriaShowsAll(rawErrors: seq<ErrorRow>)
    ensures Filtered(rawErrors, "", "all", "all") == rawErrors
  {
    FilterKeepsAll(rawErrors, MatchesAll("", "all", "all"));
  }

  /** Exactly which rows are shown: the lower-cased query occurs in the
      lower-cased code, a space and the lower-cased message (a match may run
      across the space), and a category or severity other than "all" equals
      the row's. Category, guideline and fix hint are never searched. */
  lemma FilteredExactly(rawErrors: seq<ErrorRow>, query: string, category: string, severity: string, e: ErrorRow)
    ensures e in Filtered(rawErrors, query, category, severity) <==>
      && e in rawErrors
      && (query == "" || Contains(Lower(e.code) + " " + Lower(e.message), Lower(query)))
      && (category == "all" || e.category == category)
      && (severity == "all" || SeverityName(e.severity) == severity)
  {
    assert MatchesAll(query, category, severity)(e) == Matches(e, query, category, severity);
    LowerAppend(e.code, " ");
    LowerAppend(e.code + " ", e.message);
    assert Lower(" ") == " ";
  }

  /** Applying the category filter before or after the severity filter gives
      the same rows: the criteria are a conjunction. */
  lemma CriteriaOrderIrrelevant(rows: seq<ErrorRow>, category: string, severity: string)
    ensures Filter(Filter(rows, (e: ErrorRow) => e.category == category),
                   (e: ErrorRow) => SeverityName(e.severity) == severity)
         == Filter(Filter(rows, (e: ErrorRow) => SeverityName(e.severity) == severity),
                   (e: ErrorRow) => e.category == category)
  {
    FilterCommute(rows, (e: ErrorRow) => e.category == category, (e: ErrorRow) => SeverityName(e.severity) == severity);
  }

  /** `Math.max(1, Math.ceil(filtered.length / 15))`. */
  function TotalPages(n: nat): (r: nat)
    ensures r >= 1
    ensures r * ItemsPerPage >= n
    ensures r > 1 ==> (r - 1) * ItemsPerPage < n
  {
    Max(1, CeilDiv(n, ItemsPerPage))
  }

  /** The `paginated` memo. */
  function Paginated(filtered: seq<ErrorRow>, page: JsInt): (r: seq<ErrorRow>)
    ensures |r| <= ItemsPerPage
  {
    PageOf(filtered, page, ItemsPerPage)
  }

  /** Pages 1 to totalPages together are the filtered rows, in order. */
  lemma PagesCoverFiltered(filtered: seq<ErrorRow>)
    ensures FirstPages(filtered, ItemsPerPage, TotalPages(|filtered|)) == filtered
  {
    FirstPagesArePrefix(filtered, ItemsPerPage, TotalPages(|filtered|));
  }

  // ---------------------------------------------------------------------
  // Writing the URL: `updateParams`
  // ---------------------------------------------------------------------

  /** The names an update mentions (the keys of the `updates` object). */
  function Keys(updates: seq<Param>): set<string> {
    set i | 0 <= i < |updates| :: updates[i].0
  }

  lemma KeysOfOne(key: string, value: string)
    ensures Keys([(key, value)]) == {key}
  {
    assert [(key, value)][0].0 == key;
  }

  /** The keys of a JavaScript object are distinct. */
  predicate DistinctKeys(updates: seq<Param>) {
    forall i, j :: 0 <= i < j < |updates| ==> updates[i].0 != updates[j].0
  }

  /** The entries after the loop has handled `updates` in order: a non-empty
      value is `set`, an empty one `delete`s the name. */
  function ApplyUpdates(params: seq<Param>, updates: seq<Param>): (r: seq<Param>)
    ensures forall k :: k !in Keys(updates) ==> GetAll(r, k) == GetAll(params, k)
    decreases |updates|
  {
    if updates == [] then params
    else
      var front := updates[..|updates| - 1];
      assert forall k :: k in Keys(front) ==> k in Keys(updates) by {
        assert forall j :: 0 <= j < |front| ==> front[j] == updates[j];
      }
      assert updates[|updates| - 1].0 in Keys(updates);
      var before := ApplyUpdates(params, front);
      var (key, value) := updates[|updates| - 1];
      if value != "" then Assign(before, key, value) else Remove(before, key)
  }

  /** The URL that `updateParams(updates)` navigates to: the updates applied,
      and `page` set to "1" unless `page` is one of them. */
  function UpdatedParams(params: seq<Param>, updates: seq<Param>): (r: seq<Param>)
    ensures "page" !in Keys(updates) ==> GetAll(r, "page") == ["1"]
  {
    var applied := ApplyUpdates(params, updates);
    if "page" in Keys(updates) then applied else Assign(applied, "page", "1")
  }

  /** `updateParams`: copy the current parameters, set or delete each
      updated key in turn, force the page back to 1 unless it was updated. */
  method UpdateParams(searchParams: seq<Param>, updates: seq<Param>) returns (next: seq<Param>)
    ensures next == UpdatedParams(searchParams, updates)
  {
    var params := new SearchParams(searchParams);
    for i := 0 to |updates|
      invariant params.entries == ApplyUpdates(searchParams, updates[..i])
    {
      assert updates[..i + 1][..i] == updates[..i];
      var key := updates[i].0;
      var value := updates[i].1;
      if value != "" {
        params.Set(key, value);
      } else {
        params.Delete(key);
      }
    }
    assert updates[..|updates|] == updates;
    if "page" !in Keys(updates) {
      params.Set("page", "1");
    }
    next := params.entries;
  }

  /** After the loop, each updated key holds exactly its new value, or
      nothing when that value was empty. */
  lemma {:induction false} ApplyUpdatesValue(params: seq<Param>, updates: seq<Param>, i: nat)
    requires DistinctKeys(updates) && i < |updates|
    ensures GetAll(ApplyUpdates(params, updates), updates[i].0)
         == if updates[i].1 != "" then [updates[i].1] else []
    decreases |updates|
  {
    var last := |updates| - 1;
    var front := updates[..last];
    if i < last {
      assert front[i] == updates[i];
      ApplyUpdatesValue(params, front, i);
      assert updates[last].0 != updates[i].0;
    }
  }

  /** The loop leaves the entries of every name it does not mention as they
      were, in the same order. */
  lemma {:induction false} ApplyUpdatesLeavesOthers(params: seq<Param>, updates: seq<Param>, ks: set<string>)
    requires Keys(updates) <= ks
    ensures Without(ApplyUpdates(params, updates), ks) == Without(params, ks)
    decreases |updates|
  {
    if updates != [] {
      var last := |updates| - 1;
      var front := updates[..last];
      assert Keys(front) <= Keys(updates) by {
        forall k | k in Keys(front) ensures k in Keys(updates) {
          var j :| 0 <= j < |front| && front[j].0 == k;
          assert updates[j].0 == k;
        }
      }
      ApplyUpdatesLeavesOthers(params, front, ks);
      assert updates[last].0 in Keys(updates);
      var before := ApplyUpdates(params, front);
      if updates[last].1 != "" {
        AssignLeavesOthers(before, updates[last].0, updates[last].1, ks);
      } else {
        RemoveLeavesOthers(before, updates[last].0, ks);
      }
    }
  }

  /** Every updated key with a non-empty value is set to that value. */
  lemma UpdateSetsNonEmpty(params: seq<Param>, updates: seq<Param>, i: nat)
    requires DistinctKeys(updates) && i < |updates| && updates[i].1 != ""
    ensures Lookup(UpdatedParams(params, updates), updates[i].0) == Some(updates[i].1)
  {
    ApplyUpdatesValue(params, updates, i);
  }

  /** Every updated key with an empty value is removed. */
  lemma UpdateRemovesEmpty(params: seq<Param>, updates: seq<Param>, i: nat)
    requires DistinctKeys(updates) && i < |updates| && updates[i].1 == ""
    ensures Lookup(UpdatedParams(params, updates), updates[i].0) == None
  {
    ApplyUpdatesValue(params, updates, i);
  }

  /** Unless the page is one of the updates, it becomes "1". */
  lemma UpdateResetsPage(params: seq<Param>, updates: seq<Param>)
    requires "page" !in Keys(updates)
    ensures Lookup(UpdatedParams(params, updates), "page") == Some("1")
  {
  }

  /** The entries of every name neither updated nor `page` stay as they were,
      in the same order. */
  lemma UpdateLeavesOthers(params: seq<Param>, updates: seq<Param>)
    ensures var ks := Keys(updates) + {"page"};
      Without(UpdatedParams(params, updates), ks) == Without(params, ks)
  {
    var ks := Keys(updates) + {"page"};
    ApplyUpdatesLeavesOthers(params, updates, ks);
    if "page" !in Keys(updates) {
      AssignLeavesOthers(ApplyUpdates(params, updates), "page", "1", ks);
    }
  }

  /** In particular, every value of such a name is unchanged. */
  lemma UpdateKeepsOtherValues(params: seq<Param>, updates: seq<Param>, k: string)
    requires k !in Keys(updates) && k != "page"
    ensures GetAll(UpdatedParams(params, updates), k) == GetAll(params, k)
  {
    var ks := Keys(updates) + {"page"};
    UpdateLeavesOthers(params, updates);
    WithoutGetAll(UpdatedParams(params, updates), ks, k);
    WithoutGetAll(params, ks, k);
  }

  /** What the Clear Filters button passes to `updateParams`. */
  const ClearUpdates: seq<Param> := [("category", "all"), ("severity", "all"), ("q", "")]

  lemma KeysOfClear()
    ensures Keys(ClearUpdates) == {"category", "severity", "q"}
  {
    assert ClearUpdates[0].0 == "category" && ClearUpdates[1].0 == "severity" && ClearUpdates[2].0 == "q";
  }

  /** Clear Filters writes `category=all` and `severity=all` into the URL (the
      string "all" is not empty), removes `q` and sets `page=1`. */
  lemma ClearFiltersParams(params: seq<Param>)
    ensures var next := UpdatedParams(params, ClearUpdates);
      && Lookup(next, "category") == Some("all")
      && Lookup(next, "severity") == Some("all")
      && Lookup(next, "q") == None
      && Lookup(next, "page") == Some("1")
  {
    assert DistinctKeys(ClearUpdates) by {
      KeysOfClear();
    }
    assert ClearUpdates[0] == ("category", "all") && ClearUpdates[1] == ("severity", "all") && ClearUpdates[2] == ("q", "");
    UpdateSetsNonEmpty(params, ClearUpdates, 0);
    UpdateSetsNonEmpty(params, ClearUpdates, 1);
    UpdateRemovesEmpty(params, ClearUpdates, 2);
    KeysOfClear();
    UpdateResetsPage(params, ClearUpdates);
  }

  /** After Clear Filters the table reads no criteria at all, so it shows
      every row, from page 1. */
  lemma ClearFiltersShowsAll(params: seq<Param>, rawErrors: seq<ErrorRow>)
    ensures var c := ReadCriteria(UpdatedParams(params, ClearUpdates));
      && c == Criteria("all", "all", "", Int(1))
      && Filtered(rawErrors, c.query, c.category, c.severity) == rawErrors
  {
    ClearFiltersParams(params);
    ParseDigits("1");
    NoCriteriaShowsAll(rawErrors);
  }

  /** Changing one selector or the query (`updateParams({ key: v })`) sends
      the table back to page 1. */
  lemma FilterChangeResetsPage(params: seq<Param>, key: string, v: string)
    requires key != "page"
    ensures ReadCriteria(UpdatedParams(params, [(key, v)])).page == Int(1)
  {
    KeysOfOne(key, v);
    UpdateResetsPage(params, [(key, v)]);
    ParseDigits("1");
  }

  /** Changing the category selector sets the category the table reads and
      keeps the other two criteria. */
  lemma CategoryChangeKeepsOthers(params: seq<Param>, v: string)
    ensures var c := ReadCriteria(params);
      var c' := ReadCriteria(UpdatedParams(params, [("category", v)]));
      c'.category == (if v == "" then "all" else v) && c'.severity == c.severity && c'.query == c.query
  {
    var u := [("category", v)];
    KeysOfOne("category", v);
    if v != "" {
      UpdateSetsNonEmpty(params, u, 0);
    } else {
      UpdateRemovesEmpty(params, u, 0);
    }
    UpdateKeepsOtherValues(params, u, "severity");
    UpdateKeepsOtherValues(params, u, "q");
  }

  /** Changing the severity selector sets the severity the table reads and
      keeps the other two criteria. */
  lemma SeverityChangeKeepsOthers(params: seq<Param>, v: string)
    ensures var c := ReadCriteria(params);
      var c' := ReadCriteria(UpdatedParams(params, [("severity", v)]));
      c'.severity == (if v == "" then "all" else v) && c'.category == c.category && c'.query == c.query
  {
    var u := [("severity", v)];
    KeysOfOne("severity", v);
    if v != "" {
      UpdateSetsNonEmpty(params, u, 0);
    } else {
      UpdateRemovesEmpty(params, u, 0);
    }
    UpdateKeepsOtherValues(params, u, "category");
    UpdateKeepsOtherValues(params, u, "q");
  }

  /** Typing in the search box (`updateParams({ q: value })`) sets the query
      the table reads, the empty string included, and keeps both selectors. */
  lemma QueryChangeKeepsOthers(params: seq<Param>, v: string)
    ensures var c := ReadCriteria(params);
      var c' := ReadCriteria(UpdatedParams(params, [("q", v)]));
      c'.query == v && c'.category == c.category && c'.severity == c.severity
  {
    var u := [("q", v)];
    KeysOfOne("q", v);
    if v != "" {
      UpdateSetsNonEmpty(params, u, 0);
    } else {
      UpdateRemovesEmpty(params, u, 0);
    }
    UpdateKeepsOtherValues(params, u, "category");
    UpdateKeepsOtherValues(params, u, "severity");
  }

  /** A page button (`updateParams({ page: String(target) })`) leaves the
      filters alone, and the table then reads back exactly the target page. */
  lemma PageButtonKeepsFilters(params: seq<Param>, target: JsInt)
    ensures var c := ReadCriteria(params);
      ReadCriteria(UpdatedParams(params, [("page", ToString(target))]))
        == Criteria(c.category, c.severity, c.query, target)
  {
    var u := [("page", ToString(target))];
    KeysOfOne("page", ToString(target));
    UpdateSetsNonEmpty(params, u, 0);
    ParseToString(target);
    UpdateKeepsOtherValues(params, u, "category");
    UpdateKeepsOtherValues(params, u, "severity");
    UpdateKeepsOtherValues(params, u, "q");
  }

  /** From a page within [1, totalPages], the previous and next buttons lead
      to a page the table reads back within [1, totalPages]. */
  lemma NeighbourButtonsStayInRange(params: seq<Param>, filtered: seq<ErrorRow>, k: int)
    requires 1 <= k <= TotalPages(|filtered|)
    ensures var prev := ReadCriteria(UpdatedParams(params, [("page", ToString(PreviousPage(Int(k))))])).page;
      prev.Int? && 1 <= prev.value <= TotalPages(|filtered|)
    ensures var next := ReadCriteria(UpdatedParams(params, [("page", ToString(NextPage(Int(k), TotalPages(|filtered|))))])).page;
      next.Int? && 1 <= next.value <= TotalPages(|filtered|)
  {
    NeighbourPagesInRange(k, TotalPages(|filtered|));
    PageButtonKeepsFilters(params, PreviousPage(Int(k)));
    PageButtonKeepsFilters(params, NextPage(Int(k), TotalPages(|filtered|)));
  }

  // ---------------------------------------------------------------------
  // Category list and badge colours
  // ---------------------------------------------------------------------

  function CategoryOf(e: ErrorRow): string {
    e.category
  }

  /** `Array.from(new Set(rawErrors.map(e => e.category))).sort()`. */
  function AllCategories(rawErrors: seq<ErrorRow>): seq<string> {
    Sort(Unique(Map(rawErrors, CategoryOf)))
  }

  /** The category list is sorted, free of duplicates and holds exactly the
      categories that occur in the data. */
  lemma AllCategoriesSortedAndComplete(rawErrors: seq<ErrorRow>)
    ensures StrictlySorted(AllCategories(rawErrors))
    ensures Distinct(AllCategories(rawErrors))
    ensures forall c :: c in AllCategories(rawErrors) <==> exists e :: e in rawErrors && e.category == c
  {
    var options := Unique(Map(rawErrors, CategoryOf));
    UniqueValuesOf(rawErrors, CategoryOf);
    SortDistinctIsStrictlySorted(options);
    StrictlySortedIsDistinct(AllCategories(rawErrors));
    SortSameElements(options);
  }

  const DefaultBadge := "bg-slate-200 text-slate-900"

  /** The categories that have a badge colour of their own. */
  const KnownCategories: seq<string> := [
    "General", "Text", "Fonts", "Graphics", "Headings", "Tables", "Lists",
    "Notes and References", "Optional Content", "Embedded Files",
    "Digital Signatures", "Non-interactive Forms", "XFA", "Security",
    "Navigation", "Annotations", "Actions", "XObjects"]

  /** `getCategoryBadgeColor`. */
  function CategoryBadgeColor(category: string): string {
    match category
    case "General" => "bg-slate-100 text-slate-900"
    case "Text" => "bg-yellow-100 text-yellow-900"
    case "Fonts" => "bg-teal-100 text-teal-900"
    case "Graphics" => "bg-indigo-100 text-indigo-900"
    case "Headings" => "bg-orange-100 text-orange-900"
    case "Tables" => "bg-pink-100 text-pink-900"
    case "Lists" => "bg-purple-100 text-purple-900"
    case "Notes and References" => "bg-green-100 text-green-900"
    case "Optional Content" => "bg-red-100 text-red-900"
    case "Embedded Files" => "bg-cyan-100 text-cyan-900"
    case "Digital Signatures" => "bg-blue-100 text-blue-900"
    case "Non-interactive Forms" => "bg-rose-100 text-rose-900"
    case "XFA" => "bg-fuchsia-100 text-fuchsia-900"
    case "Security" => "bg-gray-100 text-gray-900"
    case "Navigation" => "bg-lime-100 text-lime-900"
    case "Annotations" => "bg-amber-100 text-amber-900"
    case "Actions" => "bg-violet-100 text-violet-900"
    case "XObjects" => "bg-emerald-100 text-emerald-900"
    case _ => DefaultBadge
  }

  /** A category gets the default badge exactly when it has no case of its own. */
  lemma BadgeDefaultIffUnknown(category: string)
    ensures CategoryBadgeColor(category) == DefaultBadge <==> category !in KnownCategories
  {
    if category in KnownCategories {
      var i :| 0 <= i < |KnownCategories| && KnownCategories[i] == category;
      KnownBadgesNotDefault(i);
    }
  }

  lemma KnownBadgesNotDefault(i: nat)
    requires i < |KnownCategories|
    ensures CategoryBadgeColor(KnownCategories[i]) != DefaultBadge
  {
  }

  // ---------------------------------------------------------------------
  // CSV export
  // ---------------------------------------------------------------------

  const Headers: seq<string> := ["Category", "Code", "Severity", "Message", "Guideline", "Fix Hint"]

  /** The six cells of one row: category, code and severity wrapped in
      quotes as they are, message, guideline and fix hint with inner quotes
      doubled; a missing optional field is the empty string. */
  function RowCells(e: ErrorRow): (r: seq<string>)
    ensures |r| == |Headers|
  {
    [ WrapCell(e.category), WrapCell(e.code), WrapCell(SeverityName(e.severity)),
      QuoteCell(e.message), QuoteCell(e.guideline.GetOr("")), QuoteCell(e.fixHint.GetOr("")) ]
  }

  /** The values the six cells stand for. */
  function RowValues(e: ErrorRow): seq<string> {
    [ e.category, e.code, SeverityName(e.severity),
      e.message, e.guideline.GetOr(""), e.fixHint.GetOr("") ]
  }

  function RowLines(rows: seq<ErrorRow>): (r: seq<string>)
    ensures |r| == |rows|
    ensures forall i :: 0 <= i < |rows| ==> r[i] == Line(RowCells(rows[i]))
  {
    seq(|rows|, i requires 0 <= i < |rows| => Line(RowCells(rows[i])))
  }

  /** The text of `pdf-ua-errors.csv`. */
  function ExportCsv(filtered: seq<ErrorRow>): string {
    Document(Line(Headers), RowLines(filtered))
  }

  /** No field of the row holds a line feed. */
  predicate NoLineFeed(e: ErrorRow) {
    && '\n' !in e.category && '\n' !in e.code && '\n' !in e.message
    && '\n' !in e.guideline.GetOr("") && '\n' !in e.fixHint.GetOr("")
  }

  /** When the two unescaped free-text fields hold no double quote, each of
      the six cells is its value quoted with inner quotes doubled. */
  lemma RowCellsAreQuoted(e: ErrorRow)
    requires '"' !in e.category && '"' !in e.code
    ensures RowCells(e) == QuoteAll(RowValues(e))
  {
    forall j | 0 <= j < 6
      ensures RowCells(e)[j] == QuoteAll(RowValues(e))[j]
    {
      CellIsQuoted(e, j);
    }
  }

  /** When the three unescaped fields hold no double quote, a row's line reads
      back to its six values. */
  lemma RowLineReadsBack(e: ErrorRow)
    requires '"' !in e.category && '"' !in e.code
    ensures ParseLine(Line(RowCells(e))) == Some(RowValues(e))
  {
    RowCellsAreQuoted(e);
    ParseQuotedLine(RowValues(e), RowCells(e));
  }

  /** Each of the six cells is its value quoted with inner quotes doubled. */
  lemma CellIsQuoted(e: ErrorRow, j: nat)
    requires '"' !in e.category && '"' !in e.code
    requires j < 6
    ensures RowCells(e)[j] == QuoteCell(RowValues(e)[j])
  {
    if j == 0 {
      WrapIsQuoteWithoutQuotes(e.category);
    } else if j == 1 {
      WrapIsQuoteWithoutQuotes(e.code);
    } else if j == 2 {
      SeverityCellIsQuoted(e);
    } else {
      EscapedCellIsQuoted(e, j);
    }
  }

  /** The severity cell, wrapped without doubling, is also a quoted cell. */
  lemma SeverityCellIsQuoted(e: ErrorRow)
    ensures RowCells(e)[2] == QuoteCell(RowValues(e)[2])
  {
    SeverityNameUnquoted(e.severity);
    WrapIsQuoteWithoutQuotes(SeverityName(e.severity));
  }

  /** The last three cells are escaped. */
  lemma EscapedCellIsQuoted(e: ErrorRow, j: nat)
    requires 3 <= j < 6
    ensures RowCells(e)[j] == QuoteCell(RowValues(e)[j])
  {
  }

  /** No severity name holds a double quote, so its unescaped cell is still
      a properly quoted one. */
  lemma SeverityNameUnquoted(s: Severity)
    ensures '"' !in SeverityName(s)
  {
    match s
    case Error =>
    case Warning =>
    case NeedManual =>
  }

  /** The export reads back, with a quote-aware reader, to the header and
      the six values of every filtered row in order, a missing field as "";
      this holds whatever quotes, commas or line feeds the fields hold, as
      long as category and code hold no double quote. */
  lemma ExportReadsBack(filtered: seq<ErrorRow>)
    requires forall i :: 0 <= i < |filtered| ==> '"' !in filtered[i].category && '"' !in filtered[i].code
    ensures ParseDocument(ExportCsv(filtered)) == Some((Line(Headers), Map(filtered, RowValues)))
  {
    var vss := Map(filtered, RowValues);
    var lines := RowLines(filtered);
    forall i | 0 <= i < |filtered|
      ensures |vss[i]| >= 1 && lines[i] == Line(QuoteAll(vss[i]))
    {
      RowCellsAreQuoted(filtered[i]);
    }
    LineWithoutNewline(Headers);
    DocumentReadsBack(Line(Headers), vss, lines);
  }

  /** When no field holds a line feed, the export is also 1 + n lines apart:
      the header line, then one line per filtered row in order. */
  lemma ExportLines(filtered: seq<ErrorRow>)
    requires forall i :: 0 <= i < |filtered| ==> NoLineFeed(filtered[i])
    ensures var lines := Split(ExportCsv(filtered), '\n');
      && |lines| == 1 + |filtered|
      && lines[0] == Line(Headers)
      && forall i :: 0 <= i < |filtered| ==> lines[i + 1] == RowLines(filtered)[i]
  {
    var rows := RowLines(filtered);
    forall i | 0 <= i < |filtered|
      ensures '\n' !in rows[i]
    {
      var cells := RowCells(filtered[i]);
      assert forall j :: 0 <= j < |cells| ==> '\n' !in cells[j];
      LineWithoutNewline(cells);
    }
    LineWithoutNewline(Headers);
    DocumentLines(Line(Headers), rows);
  }
}
