/** The WCAG guidelines table: the rows shown for the `q` parameter of the
    URL, searched case-insensitively in four of the six fields. */
module GuidelinesTable {
  import opened Wrappers
  import opened Text
  import opened Seqs
  import opened UrlParams

  datatype Level = A | AA | AAA

  datatype Guideline = Guideline(
    id: string,
    principle: string,
    guideline: string,
    level: Level,
    summary: string,
    w3cLink: string)

  /** `searchParams.get("q") || ""`. */
  function Query(params: seq<Param>): (q: string)
    ensures Lookup(params, "q").Some? && Lookup(params, "q").value != "" ==> q == Lookup(params, "q").value
    ensures Lookup(params, "q").None? || Lookup(params, "q").value == "" ==> q == ""
  {
    LookupOr(params, "q", "")
  }

  /** The lower-cased query occurs in the lower-cased id, principle,
      guideline title or summary. */
  predicate Matches(g: Guideline, lowerQuery: string) {
    || Contains(Lower(g.id), lowerQuery)
    || Contains(Lower(g.principle), lowerQuery)
    || Contains(Lower(g.guideline), lowerQuery)
    || Contains(Lower(g.summary), lowerQuery)
  }

  function MatchesQuery(lowerQuery: string): Guideline -> bool {
    g => Matches(g, lowerQuery)
  }

  /** What the effect stores in `filteredGuidelines`. */
  function FilteredGuidelines(guidelines: seq<Guideline>, query: string): (r: seq<Guideline>)
    ensures |r| <= |guidelines|
  {
    if query != "" then Filter(guidelines, MatchesQuery(Lower(query))) else guidelines
  }

  /** An empty query lists every guideline, in order. */
  lemma EmptyQueryShowsAll(guidelines: seq<Guideline>, params: seq<Param>)
    requires Lookup(params, "q").None? || Lookup(params, "q").value == ""
    ensures FilteredGuidelines(guidelines, Query(params)) == guidelines
  {
  }

  /** With a non-empty query a guideline is listed exactly when the query
      occurs, ignoring ASCII case, in one of the four searched fields; the
      level and the link are never searched. */
  lemma FilteredExactly(guidelines: seq<Guideline>, query: string, g: Guideline)
    requires query != ""
    ensures g in FilteredGuidelines(guidelines, query) <==>
      && g in guidelines
      && exists f :: f in [g.id, g.principle, g.guideline, g.summary] && Contains(Lower(f), Lower(query))
  {
    assert MatchesQuery(Lower(query))(g) == Matches(g, Lower(query));
    var fields := [g.id, g.principle, g.guideline, g.summary];
    assert fields[0] == g.id && fields[1] == g.principle && fields[2] == g.guideline && fields[3] == g.summary;
  }

  /** The listed guidelines keep the order of the data. */
  lemma FilteredIsSubsequence(guidelines: seq<Guideline>, query: string)
    ensures IsSubsequence(FilteredGuidelines(guidelines, query), guidelines)
  {
    if query != "" {
      FilterIsSubsequence(guidelines, MatchesQuery(Lower(query)));
    } else {
      FilterKeepsAll(guidelines, (g: Guideline) => true);
      FilterIsSubsequence(guidelines, (g: Guideline) => true);
    }
  }

  /** Both sides are lower-cased, so an upper-cased query lists the same
      guidelines as the query itself. */
  lemma UpperCaseQuerySame(guidelines: seq<Guideline>, query: string)
    ensures FilteredGuidelines(guidelines, Upper(query)) == FilteredGuidelines(guidelines, query)
  {
    LowerOfUpper(query);
  }

  /** Success criterion 2.1.1 is found both by "keyboard" and by "KEYBOARD". */
  lemma KeyboardFound(guidelines: seq<Guideline>)
    requires Guideline("2.1.1", "Operable", "Keyboard", A, "All functionality is available from a keyboard",
                       "https://www.w3.org/WAI/WCAG22/Understanding/keyboard.html") in guidelines
    ensures Guideline("2.1.1", "Operable", "Keyboard", A, "All functionality is available from a keyboard",
                      "https://www.w3.org/WAI/WCAG22/Understanding/keyboard.html") in FilteredGuidelines(guidelines, "keyboard")
    ensures FilteredGuidelines(guidelines, "KEYBOARD") == FilteredGuidelines(guidelines, "keyboard")
  {
    var g := Guideline("2.1.1", "Operable", "Keyboard", A, "All functionality is available from a keyboard",
                       "https://www.w3.org/WAI/WCAG22/Understanding/keyboard.html");
    assert Lower("Keyboard") == "keyboard";
    assert Lower("keyboard") == "keyboard";
    assert OccursAt(Lower(g.guideline), Lower("keyboard"), 0);
    assert MatchesQuery(Lower("keyboard"))(g);
    assert Upper("keyboard") == "KEYBOARD";
    UpperCaseQuerySame(guidelines, "keyboard");
  }

  /** `getLevelColor`. */
  function LevelColor(level: Level): (r: string)
    ensures r != ""
  {
    match level
    case A => "bg-red-100 text-red-800 hover:bg-red-200"
    case AA => "bg-amber-100 text-amber-800 hover:bg-amber-200"
    case AAA => "bg-green-100 text-green-800 hover:bg-green-200"
  }

  /** The three levels get three different colours. */
  lemma LevelColorsDistinct(a: Level, b: Level)
    requires a != b
    ensures LevelColor(a) != LevelColor(b)
  {
  }
}
