/** The PDF/UA core terminology table: a search box over a fixed list of
    terms, matched against the term, description and importance run
    together without a separator. */
module PdfUaCoreTable {
  import opened Text
  import opened Seqs

  datatype CoreTerm = CoreTerm(term: string, description: string, importance: string)

  /** The three fields concatenated with nothing in between. */
  function Haystack(t: CoreTerm): string {
    t.term + t.description + t.importance
  }

  function MatchesQuery(lowerQuery: string): CoreTerm -> bool {
    t => Contains(Lower(Haystack(t)), lowerQuery)
  }

  /** What the effect stores in `rows`; the caption reads
      "Showing |rows| of |data|". */
  function Rows(data: seq<CoreTerm>, query: string): (r: seq<CoreTerm>)
    ensures |r| <= |data|
  {
    if query == "" then data else Filter(data, MatchesQuery(Lower(query)))
  }

  /** A term is listed exactly when the query occurs, ignoring ASCII case, in
      its three fields run together; an empty query lists every term. */
  lemma RowsExactly(data: seq<CoreTerm>, query: string, t: CoreTerm)
    ensures t in Rows(data, query) <==>
      t in data && (query == "" || Contains(Lower(t.term) + Lower(t.description) + Lower(t.importance), Lower(query)))
  {
    assert MatchesQuery(Lower(query))(t) == Contains(Lower(Haystack(t)), Lower(query));
    LowerAppend(t.term, t.description);
    LowerAppend(t.term + t.description, t.importance);
  }

  /** The listed terms keep the order of the data, so the count shown is at
      most the total. */
  lemma RowsIsSubsequence(data: seq<CoreTerm>, query: string)
    ensures IsSubsequence(Rows(data, query), data)
  {
    if query == "" {
      FilterKeepsAll(data, (t: CoreTerm) => true);
      FilterIsSubsequence(data, (t: CoreTerm) => true);
    } else {
      FilterIsSubsequence(data, MatchesQuery(Lower(query)));
    }
  }

  /** Typing more narrows the list: when the longer query contains the
      shorter one, its rows are a subsequence of the shorter query's rows. */
  lemma LongerQueryNarrows(data: seq<CoreTerm>, q1: string, q2: string)
    requires Contains(q2, q1)
    ensures IsSubsequence(Rows(data, q2), Rows(data, q1))
  {
    if q1 == "" {
      RowsIsSubsequence(data, q2);
    } else {
      var i :| 0 <= i <= |q2| && OccursAt(q2, q1, i);
      assert q2 != "";
      ContainsLower(q2, q1);
      forall t | MatchesQuery(Lower(q2))(t)
        ensures MatchesQuery(Lower(q1))(t)
      {
        ContainsTransitive(Lower(Haystack(t)), Lower(q2), Lower(q1));
      }
      FilterStricter(data, MatchesQuery(Lower(q1)), MatchesQuery(Lower(q2)));
    }
  }

  /** A match inside any one field is enough: a term whose lower-cased term,
      description or importance contains the lower-cased query is listed. */
  lemma FieldMatchListed(data: seq<CoreTerm>, query: string, t: CoreTerm)
    requires t in data
    requires || Contains(Lower(t.term), Lower(query))
             || Contains(Lower(t.description), Lower(query))
             || Contains(Lower(t.importance), Lower(query))
    ensures t in Rows(data, query)
  {
    var a, b, c := Lower(t.term), Lower(t.description), Lower(t.importance);
    if Contains(a, Lower(query)) {
      ContainsInMiddle([], a, b + c, Lower(query));
      assert [] + a + (b + c) == a + b + c;
    } else if Contains(b, Lower(query)) {
      ContainsInMiddle(a, b, c, Lower(query));
    } else {
      ContainsInMiddle(a + b, c, [], Lower(query));
      assert a + b + c + [] == a + b + c;
    }
    RowsExactly(data, query, t);
  }

  /** A match may run across the boundary between two fields: "ab" + "cd"
      is found by "bc", which neither field contains. */
  lemma MatchSpansFields()
    ensures !Contains("ab", "bc") && !Contains("cd", "bc")
    ensures Rows([CoreTerm("ab", "cd", "")], "bc") == [CoreTerm("ab", "cd", "")]
  {
    var t := CoreTerm("ab", "cd", "");
    assert Haystack(t) == "abcd";
    assert Lower("abcd") == "abcd";
    assert Lower("bc") == "bc";
    assert OccursAt("abcd", "bc", 1);
    assert MatchesQuery(Lower("bc"))(t);
    forall i | 0 <= i <= 2
      ensures !OccursAt("ab", "bc", i) && !OccursAt("cd", "bc", i)
    {
      if i == 0 {
        assert "ab"[0..2][0] == 'a';
        assert "cd"[0..2][0] == 'c';
      }
    }
    assert [t][1..] == [];
  }
}
