/** The search form: a text box seeded from the `q` parameter, and a submit
    handler that writes the typed text back into the URL on page 1. */
module SearchForm {
  import opened Wrappers
  import opened UrlParams

  /** `searchParams.get("q") || ""`: the text the box starts with and is
      re-synced to whenever the URL changes. */
  function InitialQuery(params: seq<Param>): (q: string)
    ensures Lookup(params, "q").None? || Lookup(params, "q").value == "" ==> q == ""
    ensures Lookup(params, "q").Some? && Lookup(params, "q").value != "" ==> q == Lookup(params, "q").value
  {
    LookupOr(params, "q", "")
  }

  class Form {
    var searchQuery: string

    constructor(params: seq<Param>)
      ensures searchQuery == InitialQuery(params)
    {
      searchQuery := InitialQuery(params);
    }

    /** The effect that runs when the URL's parameters change. */
    method SyncFromUrl(params: seq<Param>)
      modifies this
      ensures searchQuery == InitialQuery(params)
    {
      searchQuery := InitialQuery(params);
    }

    /** Typing in the box. */
    method Type(value: string)
      modifies this
      ensures searchQuery == value
    {
      searchQuery := value;
    }

    /** `handleSubmit`: copy the parameters, set `q` to the typed text (or
        delete it when the text is empty), set `page` to "1", and return the
        parameters to navigate to. */
    method HandleSubmit(params: seq<Param>) returns (next: seq<Param>)
      ensures searchQuery != "" ==> GetAll(next, "q") == [searchQuery]
      ensures searchQuery == "" ==> GetAll(next, "q") == []
      ensures GetAll(next, "page") == ["1"]
      ensures Without(next, {"q", "page"}) == Without(params, {"q", "page"})
      ensures InitialQuery(next) == searchQuery
    {
      var copy := new SearchParams(params);
      if searchQuery != "" {
        copy.Set("q", searchQuery);
        AssignLeavesOthers(params, "q", searchQuery, {"q", "page"});
      } else {
        copy.Delete("q");
        RemoveLeavesOthers(params, "q", {"q", "page"});
      }
      ghost var afterQuery := copy.entries;
      copy.Set("page", "1");
      AssignLeavesOthers(afterQuery, "page", "1", {"q", "page"});
      next := copy.entries;
    }
  }

  /** Every parameter other than `q` and `page` keeps its values through a
      submit. */
  lemma SubmitKeepsOtherValues(params: seq<Param>, next: seq<Param>, k: string)
    requires Without(next, {"q", "page"}) == Without(params, {"q", "page"})
    requires k != "q" && k != "page"
    ensures GetAll(next, k) == GetAll(params, k)
  {
    WithoutGetAll(next, {"q", "page"}, k);
    WithoutGetAll(params, {"q", "page"}, k);
  }
}
