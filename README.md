# Accessibility reference tables: filter, paginate, URL sync and CSV export

This project models the logic of five client components of an accessibility
reference site. It covers the logic only, not the rendering:

- **PDF/UA errors table** (`PdfUaErrorsTable`). Its filter state is kept in
  the URL query string.
  - `category`, `severity`, `q` and `page` are read from the URL.
  - Every control writes the URL through `updateParams`. Each update is set
    or deleted, and the page is forced back to 1 unless it is one of the
    updates.
  - The rows are searched case-insensitively in code + " " + message, then
    narrowed by category and severity.
  - Pages hold 15 rows. There is at least one page.
  - The filtered rows can be exported as CSV. Category, code and severity are
    quoted without escaping; message, guideline and fix hint have their
    inner quotes doubled.
- **Readability metrics table** (`ReadabilityTable`). A class holds the
  component's state cells.
  - A filter effect recomputes the list and returns to page 1 whenever a
    filter value actually changes.
  - Pages hold 10 rows. An empty result has zero pages.
  - The CSV export escapes every cell.
  - The category and subcategory options are de-duplicated in order of first
    occurrence.
- **WCAG guidelines table** (`GuidelinesTable`). It lists the guidelines
  matching the URL's `q` in id, principle, guideline title or summary.
- **PDF/UA core terminology table** (`PdfUaCoreTable`). It searches term,
  description and importance run together.
- **Search form** (`SearchForm`). It seeds its text box from `q`. On submit
  it writes `q` (or deletes it) and sets `page=1`.

Shared pieces, one module each:

- ASCII case folding and substring search (`Text`).
- `filter`, `new Set` de-duplication, `join`/`split` (`Seqs`).
- The default string sort (`StringOrder`).
- `URLSearchParams` as an ordered list of pairs with `get`/`set`/`delete`
  (`UrlParams`).
- `parseInt`/`String` for the page number (`JsNumber`).
- `slice`-based paging (`Paging`).
- RFC 4180 style quoting, with a quote-aware reader used to prove that
  exports read back, line feeds inside values included
  (`Csv`).

Behaviour of the code that one might expect to be otherwise; the model
follows the code:

- **"all" is not stripped.** Clear Filters and the selectors write the string
  "all" into the URL, because "all" is a non-empty value.
- **The page from the URL is never clamped.** `parseInt` of the `page`
  parameter is used as it is.
  - A page of 0 or below gives JavaScript `slice` negative arguments, which
    count from the end.
  - A non-numeric page gives NaN and an empty page.
- **Different page counts.** The errors table has `max(1, ceil(n/15))` pages.
  The readability table has plain `ceil(n/10)`, which is 0 for an empty
  list.
- **The errors export does not escape three cells.** Category, code and
  severity are wrapped in quotes without doubling inner quotes. A category
  holding a quote would therefore not read back; for any value with a quote
  inside, the unescaped cell never reads back as that value.
- **Exporting an empty view is only prevented by the UI.** The button is
  disabled, but the export function itself writes just the header line.
- **The core table's search spans field boundaries.** The three fields are
  joined without a separator, so a match may run across them.

## Model

| member | source | states |
|---|---|---|
| Text.Lower | components/pdf-ua-errors-table.tsx:1019-1021 | `toLowerCase` on ASCII: same length, each A-Z becomes the matching a-z (32 code points up), every other character is kept |
| Text.Upper | components/guidelines-table.tsx:110-113 | `toUpperCase` on ASCII: each a-z becomes the matching A-Z, every other character is kept |
| Text.LowerOfUpper | components/guidelines-table.tsx:110-113 | lower-casing forgets an earlier upper-casing, so the search is case-insensitive |
| Text.ContainsLower | components/pdf-ua-core-table.tsx:93 | a substring stays a substring after both sides are lower-cased |
| Text.ContainsTransitive | components/pdf-ua-core-table.tsx:93 | `includes` is transitive: a substring of a substring is a substring |
| Text.Contains | components/pdf-ua-errors-table.tsx:1020 | `includes`: t occurs as a block of s; its properties are ContainsLower, ContainsTransitive and ContainsInMiddle |
| Text.ContainsInMiddle | components/pdf-ua-core-table.tsx:93 | a block of one part is a block of any concatenation holding that part |
| Seqs.Filter | components/pdf-ua-errors-table.tsx:1020 | `filter` keeps exactly the elements that satisfy the predicate and never lengthens the list |
| Seqs.FilterIsSubsequence | components/pdf-ua-errors-table.tsx:1016-1031 | a filtered list is an order-preserving subsequence of its input |
| Seqs.FilterConjunction | components/pdf-ua-errors-table.tsx:1016-1031 | two successive filters are one filter by the conjunction of their predicates |
| Seqs.FilterCommute | components/pdf-ua-errors-table.tsx:1024-1029 | successive filters may be applied in either order |
| Seqs.FilterStricter | components/pdf-ua-core-table.tsx:92-94 | a stricter predicate keeps a subsequence of what a looser one keeps |
| Seqs.FilterIdempotent | components/pdf-ua-errors-table.tsx:1016-1031 | filtering an already filtered list by the same criteria changes nothing |
| Seqs.Map | components/pdf-ua-errors-table.tsx:990 | `map(f)` keeps the length and applies f to each element in place |
| Seqs.UniqueValuesOf | components/readability-table.tsx:502-507 | `Array.from(new Set(s.map(f)))` is duplicate-free, holds exactly the values f takes on s, and follows first occurrence |
| Seqs.Unique | components/readability-table.tsx:502-507 | `Array.from(new Set(s))` is duplicate-free and holds exactly the elements of s |
| Seqs.UniqueFirstOccurrenceOrder | components/readability-table.tsx:502-507 | the de-duplicated values appear in the order of their first occurrence |
| Seqs.SplitJoin | components/pdf-ua-errors-table.tsx:1058-1070 | splitting a `join("\n")` of lines without line feeds gives the lines back |
| StringOrder.Sort | components/pdf-ua-errors-table.tsx:990 | `sort()` on strings returns a permutation of its input |
| StringOrder.SortDistinctIsStrictlySorted | components/pdf-ua-errors-table.tsx:990 | sorting distinct strings gives a strictly increasing list |
| StringOrder.SortSameElements | components/pdf-ua-errors-table.tsx:990 | sorting keeps exactly the same strings |
| UrlParams.GetAll | components/pdf-ua-errors-table.tsx:1001 | `getAll(n)`: the values under n in list order, never more than the entries |
| UrlParams.Lookup | components/pdf-ua-errors-table.tsx:981-984 | `get(n)` is the first value under n, and null exactly when there is none |
| UrlParams.LookupOr | components/pdf-ua-errors-table.tsx:981-984 | `get(n) \|\| d` is the first value under n when that value is non-empty, and d when n is absent or its value is empty |
| UrlParams.Assign | components/pdf-ua-errors-table.tsx:1004 | `set(n, v)` leaves exactly one value v under n and every other name's values as they were |
| UrlParams.Remove | components/pdf-ua-errors-table.tsx:1006 | `delete(n)` leaves no value under n and every other name's values as they were |
| UrlParams.AssignLeavesOthers | components/pdf-ua-errors-table.tsx:1004 | `set` keeps every entry of the other names, in order |
| UrlParams.RemoveLeavesOthers | components/pdf-ua-errors-table.tsx:1006 | `delete` keeps every entry of the other names, in order |
| UrlParams.WithoutGetAll | components/pdf-ua-errors-table.tsx:1001-1009 | the entries outside a set of names determine the values of every name outside it |
| UrlParams.SearchParams.Set | components/pdf-ua-errors-table.tsx:1004 | the object's entries become the `set` result and `get(n)` returns v |
| UrlParams.SearchParams.Delete | components/pdf-ua-errors-table.tsx:1006 | the object's entries become the `delete` result and `get(n)` returns null |
| JsNumber.ToString | components/pdf-ua-errors-table.tsx:1243 | `String(n)` of an integer, or "NaN" |
| JsNumber.ParseDigits | components/pdf-ua-errors-table.tsx:984 | `parseInt` of a run of decimal digits is their value |
| JsNumber.ParseInt | components/pdf-ua-errors-table.tsx:984 | `parseInt(s, 10)` on the integer model: leading white space, a sign, then digits; ParseDigits and ParseToString state what it returns |
| JsNumber.ParseToString | components/pdf-ua-errors-table.tsx:1243-1265 | `parseInt(String(x), 10) == x` for every page value the integer model holds, NaN included |
| Paging.SliceIndex | components/pdf-ua-errors-table.tsx:1043 | `slice` counts a negative index back from the end and clamps into [0, length] |
| Paging.Slice | components/pdf-ua-errors-table.tsx:1043 | `slice(start, end)` is empty when the clamped bounds cross and otherwise exactly as long as the gap between them; PageSliceWindow gives which rows |
| Paging.PageSlice | components/pdf-ua-errors-table.tsx:1041-1044 | a page never holds more than the page size |
| Paging.PageOf | components/pdf-ua-errors-table.tsx:1041-1044 | a NaN page is empty and no page exceeds the page size |
| Paging.CeilDiv | components/pdf-ua-errors-table.tsx:1046 | `Math.ceil(n/size)` is the fewest pages of `size` rows that hold n rows |
| Paging.PageSliceWindow | components/readability-table.tsx:539-542 | page p is the window `[(p-1)*size, (p-1)*size + size)` of the list, cut at its end |
| Paging.FirstPagesArePrefix | components/pdf-ua-errors-table.tsx:1041-1046 | pages 1 to k together are the first k*size rows |
| Paging.AllPagesGiveList | components/readability-table.tsx:539-544 | pages 1 to `ceil(n/size)` together give the whole list back |
| Paging.PageInRangeNonEmpty | components/pdf-ua-errors-table.tsx:1041-1046 | a page between 1 and the page count is never empty |
| Paging.PageZeroIsEmpty | components/pdf-ua-errors-table.tsx:1042-1043 | page 0 (unclamped) is `slice(-size, 0)` and shows nothing |
| Paging.NegativePageCountsFromEnd | components/pdf-ua-errors-table.tsx:1042-1043 | page -1 of 20 rows is `slice(-30, -15)` and shows the first 5 rows |
| Paging.PreviousPage | components/pdf-ua-errors-table.tsx:1243 | `Math.max(1, page - 1)` is at least 1 and is NaN only for NaN |
| Paging.NextPage | components/pdf-ua-errors-table.tsx:1265 | `Math.min(totalPages, page + 1)` is at most totalPages and is NaN only for NaN |
| Paging.NeighbourPagesInRange | components/pdf-ua-errors-table.tsx:1242-1267 | from a page in [1, totalPages] both buttons lead into [1, totalPages], one step unless at the edge |
| Paging.ShowingRangeCountsPage | components/pdf-ua-errors-table.tsx:1281-1282 | the footer's "first to last" counts exactly the rows of a page in [1, max(1, page count)], none for an empty list |
| Csv.Escape | components/pdf-ua-errors-table.tsx:1065 | doubling quotes never shortens a value and adds no line feed |
| Csv.QuoteCell | components/pdf-ua-errors-table.tsx:1065-1067 | an escaped cell starts and ends with a quote and holds no new line feed |
| Csv.WrapCell | components/pdf-ua-errors-table.tsx:1062-1064 | a cell quoted without escaping is two characters longer |
| Csv.UnquoteCell | components/readability-table.tsx:561-563 | reading an escaped cell back gives the original value |
| Csv.ParseQuotedLine | components/readability-table.tsx:556-567 | a line of escaped cells reads back to its values |
| Csv.Line | components/pdf-ua-errors-table.tsx:1068 | `join(",")` of the cells; ParseQuotedLine reads it back |
| Csv.Document | components/pdf-ua-errors-table.tsx:1058-1070 | `[header, ...rows].join("\n")`; DocumentReadsBack and DocumentLines read it back |
| Csv.ParseRecords | components/readability-table.tsx:556-567 | a reader of quoted records that keeps line feeds inside quotes; never returns an empty record |
| Csv.ParseDocument | components/readability-table.tsx:556-567 | a reader of an unquoted header line followed by quoted records; the header it returns has no line feed |
| Csv.ReadRecord | components/readability-table.tsx:556-567 | a line of escaped cells reads back to its values whatever quotes, commas or line feeds they hold |
| Csv.ParseJoinedRecords | components/readability-table.tsx:556-567 | escaped lines joined by line feeds read back to the values of every line, in order |
| Csv.DocumentReadsBack | components/readability-table.tsx:556-567 | a header and escaped lines joined by line feeds read back to the header and every line's values |
| Csv.WrapIsQuoteWithoutQuotes | components/pdf-ua-errors-table.tsx:1062-1064 | without a quote in the value, quoting without escaping gives the escaped cell |
| Csv.WrapIsQuoteIff | components/pdf-ua-errors-table.tsx:1062-1064 | quoting without escaping gives the escaped cell exactly when the value has no quote |
| Csv.EscapeLength | components/pdf-ua-errors-table.tsx:1065 | doubling adds exactly one character per quote |
| Csv.ReadQuotedLength | components/readability-table.tsx:561-563 | reading a field uses up the value, one extra character per quote in it, and the closing quote |
| Csv.WrappedQuoteNeverReadsBack | components/pdf-ua-errors-table.tsx:1062-1064 | no value with an inner quote reads back from its cell quoted without escaping |
| Csv.WrappedQuoteDoesNotReadBack | components/pdf-ua-errors-table.tsx:1062-1064 | an instance of the above: `"a"b"` does not even read as a line of cells |
| Csv.DocumentLines | components/pdf-ua-errors-table.tsx:1058-1070 | when no line holds a line feed, the document splits into the header and one line per row |
| Csv.LineWithoutNewline | components/pdf-ua-errors-table.tsx:1068 | cells without line feeds make a line without line feeds |
| PdfUaErrorsTable.SeverityName | components/pdf-ua-errors-table.tsx:37 | the severity spellings are never empty and never "all" |
| PdfUaErrorsTable.SeverityNamesDistinct | components/pdf-ua-errors-table.tsx:994-998 | different severities are spelled differently |
| PdfUaErrorsTable.ReadCriteria | components/pdf-ua-errors-table.tsx:981-984 | a non-empty `category`, `severity` or `q` is taken as given; an absent or empty one reads as "all", "all" and ""; a non-empty `page` is `parseInt` of its text and an absent or empty one is page 1 |
| PdfUaErrorsTable.Filtered | components/pdf-ua-errors-table.tsx:1016-1031 | a row is kept iff it is in the data and matches query, category and severity; never more rows than the data |
| PdfUaErrorsTable.FilterErrors | components/pdf-ua-errors-table.tsx:1016-1031 | the step-by-step narrowing equals the single filter by all three criteria |
| PdfUaErrorsTable.FilteredIsSubsequence | components/pdf-ua-errors-table.tsx:1016-1031 | the filtered rows are an order-preserving subsequence of the data |
| PdfUaErrorsTable.NoCriteriaShowsAll | components/pdf-ua-errors-table.tsx:1016-1031 | with no query and both selectors on "all" every row is shown |
| PdfUaErrorsTable.FilteredExactly | components/pdf-ua-errors-table.tsx:1018-1029 | a row is shown iff the lower-cased query is in lower(code) + " " + lower(message) and a non-"all" category and severity are equal to the row's |
| PdfUaErrorsTable.CriteriaOrderIrrelevant | components/pdf-ua-errors-table.tsx:1024-1029 | the category and severity filters commute |
| PdfUaErrorsTable.TotalPages | components/pdf-ua-errors-table.tsx:1046 | there is at least one page, and just enough pages of 15 |
| PdfUaErrorsTable.Paginated | components/pdf-ua-errors-table.tsx:1041-1044 | a page holds at most 15 rows |
| PdfUaErrorsTable.PagesCoverFiltered | components/pdf-ua-errors-table.tsx:1041-1046 | pages 1 to totalPages together are the filtered rows |
| PdfUaErrorsTable.UpdateParams | components/pdf-ua-errors-table.tsx:1000-1011 | the set/delete loop over a copied `URLSearchParams` ends with the entries of the `updateParams` specification |
| PdfUaErrorsTable.ApplyUpdates | components/pdf-ua-errors-table.tsx:1002-1008 | the set/delete loop's outcome: every key it does not mention keeps its values (ApplyUpdatesValue gives the mentioned ones) |
| PdfUaErrorsTable.UpdatedParams | components/pdf-ua-errors-table.tsx:1000-1011 | the URL `updateParams` navigates to: page reads "1" unless it is updated; the Update* lemmas give the rest |
| PdfUaErrorsTable.ApplyUpdatesValue | components/pdf-ua-errors-table.tsx:1002-1008 | after the loop each updated key holds exactly its non-empty value, or nothing |
| PdfUaErrorsTable.ApplyUpdatesLeavesOthers | components/pdf-ua-errors-table.tsx:1002-1008 | the loop keeps every entry of the keys it does not mention, in order |
| PdfUaErrorsTable.UpdateSetsNonEmpty | components/pdf-ua-errors-table.tsx:1003-1004 | a key with a non-empty value reads back as that value |
| PdfUaErrorsTable.UpdateRemovesEmpty | components/pdf-ua-errors-table.tsx:1005-1006 | a key with an empty value is absent |
| PdfUaErrorsTable.UpdateResetsPage | components/pdf-ua-errors-table.tsx:1009 | unless `page` is updated, it reads back as "1" |
| PdfUaErrorsTable.UpdateLeavesOthers | components/pdf-ua-errors-table.tsx:1000-1011 | the entries of every key neither updated nor `page` are unchanged and in order |
| PdfUaErrorsTable.UpdateKeepsOtherValues | components/pdf-ua-errors-table.tsx:1000-1011 | every value of such a key is unchanged |
| PdfUaErrorsTable.ClearFiltersParams | components/pdf-ua-errors-table.tsx:1163-1165 | Clear Filters writes category=all and severity=all, removes q and sets page=1 |
| PdfUaErrorsTable.ClearFiltersShowsAll | components/pdf-ua-errors-table.tsx:1163-1165 | after Clear Filters the table reads no criteria and shows every row from page 1 |
| PdfUaErrorsTable.FilterChangeResetsPage | components/pdf-ua-errors-table.tsx:1102 | changing a selector or the query sends the table to page 1 |
| PdfUaErrorsTable.CategoryChangeKeepsOthers | components/pdf-ua-errors-table.tsx:1102 | choosing a category sets it (an empty choice reads as "all") and keeps severity and query |
| PdfUaErrorsTable.SeverityChangeKeepsOthers | components/pdf-ua-errors-table.tsx:1123 | choosing a severity sets it and keeps category and query |
| PdfUaErrorsTable.QueryChangeKeepsOthers | components/pdf-ua-errors-table.tsx:1150-1154 | typing sets the query the table reads and keeps both selectors |
| PdfUaErrorsTable.PageButtonKeepsFilters | components/pdf-ua-errors-table.tsx:1255 | a page button keeps the criteria and the table reads back exactly the target page |
| PdfUaErrorsTable.NeighbourButtonsStayInRange | components/pdf-ua-errors-table.tsx:1242-1266 | from a page in range, previous and next lead to a page the table reads back in [1, totalPages] |
| PdfUaErrorsTable.AllCategories | components/pdf-ua-errors-table.tsx:989-992 | `Array.from(new Set(map(category))).sort()`; AllCategoriesSortedAndComplete states what it holds |
| PdfUaErrorsTable.AllCategoriesSortedAndComplete | components/pdf-ua-errors-table.tsx:989-992 | the category options are strictly sorted, duplicate-free and exactly the categories in the data |
| PdfUaErrorsTable.BadgeDefaultIffUnknown | components/pdf-ua-errors-table.tsx:43-84 | a category gets the default badge iff it has no case of its own |
| PdfUaErrorsTable.CategoryBadgeColor | components/pdf-ua-errors-table.tsx:43-84 | `getCategoryBadgeColor`; BadgeDefaultIffUnknown states when it falls back to the default |
| PdfUaErrorsTable.RowCells | components/pdf-ua-errors-table.tsx:1061-1068 | each exported row has one cell per header |
| PdfUaErrorsTable.RowLines | components/pdf-ua-errors-table.tsx:1060-1069 | one exported line per filtered row, in order |
| PdfUaErrorsTable.RowLineReadsBack | components/pdf-ua-errors-table.tsx:1061-1068 | without quotes in category and code, a row's line reads back to its six values, a missing field as "" |
| PdfUaErrorsTable.RowCellsAreQuoted | components/pdf-ua-errors-table.tsx:1061-1068 | without quotes in category and code, the six cells are the six values escaped and quoted |
| PdfUaErrorsTable.ExportCsv | components/pdf-ua-errors-table.tsx:1048-1070 | the text of the export; ExportReadsBack and ExportLines read it back |
| PdfUaErrorsTable.ExportReadsBack | components/pdf-ua-errors-table.tsx:1048-1070 | without quotes in category and code, the export reads back to the header and the six values of each filtered row, in order, line feeds in values included |
| PdfUaErrorsTable.ExportLines | components/pdf-ua-errors-table.tsx:1058-1070 | when no field holds a line feed, the export is 1 + n lines: the header, then each row's line in order |
| ReadabilityTable.FilterSteps | components/readability-table.tsx:512-533 | the effect's step-by-step narrowing equals the single filter by all three criteria |
| ReadabilityTable.FilterMetrics | components/readability-table.tsx:512-533 | a metric is kept iff it is in the data and matches query, category and subcategory; never more than the data |
| ReadabilityTable.FilterMetricsExactly | components/readability-table.tsx:515-532 | a metric is kept iff the lower-cased query is in one of its four searched fields and each non-"all" selector equals its value |
| ReadabilityTable.FilterMetricsIsSubsequence | components/readability-table.tsx:512-533 | the kept metrics are an order-preserving subsequence |
| ReadabilityTable.NoFiltersKeepsAll | components/readability-table.tsx:638-641 | with the filters cleared every metric is kept |
| ReadabilityTable.CategoryNarrows | components/readability-table.tsx:527-529 | adding a category can only narrow the list |
| ReadabilityTable.TotalPages | components/readability-table.tsx:544 | just enough pages of 10 rows, with no lower bound of 1 |
| ReadabilityTable.PaginationShownIff | components/readability-table.tsx:713 | the pagination bar shows iff there are more than 10 rows; zero pages iff no rows |
| ReadabilityTable.CategoryOptions | components/readability-table.tsx:502-510 | the options are duplicate-free, cover every category, and follow first occurrence |
| ReadabilityTable.SubcategoryOptions | components/readability-table.tsx:505-510 | the subcategory options are duplicate-free, cover every subcategory, and follow first occurrence |
| ReadabilityTable.Table.constructor | components/readability-table.tsx:78-511 | after mounting, every metric is listed on page 1 with no filter set |
| ReadabilityTable.Table.RunFilterEffect | components/readability-table.tsx:512-542 | the effects store the filtered list, return to page 1 and cut that page |
| ReadabilityTable.Table.SetSearchQuery | components/readability-table.tsx:629 | the new query filters the list; the page goes to 1 only when the text changed |
| ReadabilityTable.Table.SetCategoryFilter | components/readability-table.tsx:585 | the new category filters the list; the page goes to 1 only when it changed |
| ReadabilityTable.Table.SetSubcategoryFilter | components/readability-table.tsx:603 | the new subcategory filters the list; the page goes to 1 only when it changed |
| ReadabilityTable.Table.ClearFilters | components/readability-table.tsx:636-642 | every metric is listed afterwards; the page goes to 1 unless nothing was set |
| ReadabilityTable.Table.GoToPage | components/readability-table.tsx:724-735 | a page button shows that page, which is never empty |
| ReadabilityTable.Table.PreviousPage | components/readability-table.tsx:718 | the page becomes `max(1, page - 1)` and stays in range |
| ReadabilityTable.Table.NextPage | components/readability-table.tsx:739 | the page becomes `min(totalPages, page + 1)` and stays in range |
| ReadabilityTable.CaptionCounts | components/readability-table.tsx:663 | "Showing shown of filtered": at most 10 shown, never more than filtered, and never an empty page when there are results |
| ReadabilityTable.FooterCountsPage | components/readability-table.tsx:748-751 | in every settled state the footer's "first to last" counts exactly the rows shown, none for an empty list |
| ReadabilityTable.ColorDefaultIffUnknown | components/readability-table.tsx:44-74 | a subcategory gets the default colour iff it has no case of its own |
| ReadabilityTable.SubcategoryColor | components/readability-table.tsx:44-74 | `getSubcategoryColor`; ColorDefaultIffUnknown states when it falls back to the default |
| ReadabilityTable.Values | components/readability-table.tsx:547-554 | one value per CSV header |
| ReadabilityTable.ExportCsv | components/readability-table.tsx:546-567 | the text of the export; ExportReadsBack and ExportLines read it back |
| ReadabilityTable.ExportReadsBack | components/readability-table.tsx:546-567 | the export reads back to the header and the six values of each filtered metric, in order, whatever quotes, commas or line feeds they hold |
| ReadabilityTable.ExportLines | components/readability-table.tsx:556-567 | when no value holds a line feed, the export is 1 + n lines: the header, then each metric's line in order |
| GuidelinesTable.Query | components/guidelines-table.tsx:19 | the query is the non-empty `q` parameter, or "" when `q` is absent or empty |
| GuidelinesTable.FilteredGuidelines | components/guidelines-table.tsx:106-119 | the listed guidelines are never more than the data |
| GuidelinesTable.EmptyQueryShowsAll | components/guidelines-table.tsx:116-118 | with `q` absent or empty every guideline is listed, in order |
| GuidelinesTable.FilteredExactly | components/guidelines-table.tsx:107-114 | a guideline is listed iff the lower-cased query is in its lower-cased id, principle, title or summary |
| GuidelinesTable.FilteredIsSubsequence | components/guidelines-table.tsx:108 | the listed guidelines keep the data's order |
| GuidelinesTable.UpperCaseQuerySame | components/guidelines-table.tsx:110-113 | an upper-cased query lists the same guidelines |
| GuidelinesTable.KeyboardFound | components/guidelines-table.tsx:48-55 | 2.1.1 Keyboard is found by "keyboard", and "KEYBOARD" lists the same |
| GuidelinesTable.LevelColor | components/guidelines-table.tsx:121-132 | every level has a non-empty colour |
| GuidelinesTable.LevelColorsDistinct | components/guidelines-table.tsx:121-132 | A, AA and AAA get three different colours |
| PdfUaCoreTable.Rows | components/pdf-ua-core-table.tsx:87-96 | never more rows than the data |
| PdfUaCoreTable.RowsExactly | components/pdf-ua-core-table.tsx:88-95 | a term is listed iff the query is empty or its lower-cased fields run together contain the lower-cased query |
| PdfUaCoreTable.RowsIsSubsequence | components/pdf-ua-core-table.tsx:92 | the listed terms keep the data's order, so shown never exceeds total |
| PdfUaCoreTable.LongerQueryNarrows | components/pdf-ua-core-table.tsx:93 | a query containing another lists a subsequence of that one's rows |
| PdfUaCoreTable.FieldMatchListed | components/pdf-ua-core-table.tsx:93 | a term whose lower-cased term, description or importance alone contains the lower-cased query is listed |
| PdfUaCoreTable.MatchSpansFields | components/pdf-ua-core-table.tsx:93 | "bc" finds a term "ab" with description "cd" although neither field contains it |
| SearchForm.InitialQuery | components/search-form.tsx:14 | the box starts with the `q` parameter, or "" when it is absent |
| SearchForm.Form.constructor | components/search-form.tsx:14 | the box is seeded from the URL |
| SearchForm.Form.SyncFromUrl | components/search-form.tsx:17-19 | a URL change re-seeds the box from `q` |
| SearchForm.Form.Type | components/search-form.tsx:46 | typing sets the box's text |
| SearchForm.Form.HandleSubmit | components/search-form.tsx:21-35 | q becomes the typed text (absent when empty), page becomes "1", every other parameter's entries are kept in order, and re-seeding from the new URL gives the same text |
| SearchForm.SubmitKeepsOtherValues | components/search-form.tsx:23-32 | every parameter other than q and page keeps its values |

## Left out

- Rendering: JSX, the UI components, icons and class names beyond the three
  colour-mapping functions.
- The browser download of the CSV (Blob, object URL, anchor click). The model
  stops at the CSV text.
- `router.push` and the serialisation of `URLSearchParams`. Navigation is
  modelled as returning the new list of parameters; percent-encoding and
  `toString` are not modelled.
- React scheduling. Each effect is modelled as running to completion after
  the state change that triggers it. The first render, before the effects
  have run, is not modelled.
- Text.Lower: folds ASCII letters only, not full Unicode `toLowerCase`.
- StringOrder.Less: compares strings character by character, which matches
  JavaScript's default sort only for characters of the Basic Multilingual
  Plane.
- JsNumber.ParseInt: integers only, without the rounding of doubles.
  Exponents, fractions and digit runs too large for a double are not
  modelled. They arise only from a page number of more than 21 digits typed
  into the URL. From such a page the buttons write the neighbour in exponent
  notation (`String(1e23)` is "1e+23"), which `parseInt` reads back as 1;
  JsNumber.ParseToString does not cover that case.
- PdfUaErrorsTable.ExportReadsBack: requires that category and code hold no
  double quote, because the export does not escape those two cells; with a
  quote there the row does not read back (Csv.WrappedQuoteNeverReadsBack).
- PdfUaErrorsTable.ExportLines, ReadabilityTable.ExportLines: count physical
  lines, so they require values without line feeds. A line feed inside a
  quoted value is valid CSV (rule 6 of section 2 of RFC 4180), and the
  ExportReadsBack lemmas cover such values with a quote-aware reader.
- PdfUaErrorsTable.Filtered: uses the `q` parameter of the URL. The
  component filters on a local copy of it, which the typing handler and an
  effect keep equal to the parameter.
- ReadabilityTable.Table.NextPage: requires more than one page, because the
  button is only drawn then.
- The metric record's index signature. Every CSV header names one of the six
  required string fields, so `metric[header] || ""` is the field itself.
- The data literals (the error catalogue, the metrics, the guidelines and the
  terminology list). Every table is modelled over any data.
- `exampleLink` is carried in the error record but never used by the logic.
- The page-level layouts that mount these components, and the build
  configuration.
