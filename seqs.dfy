/** Sequence operations behind every table: `Array.prototype.filter`, the
    first-occurrence de-duplication of `Array.from(new Set(...))`, and
    `join`/`split` of strings. */
module Seqs {

  /** `s.filter(p)`: the elements of s that satisfy p, in their original order. */
  function Filter<T(==,!new)>(s: seq<T>, p: T -> bool): (r: seq<T>)
    ensures |r| <= |s|
    ensures forall x :: x in r <==> x in s && p(x)
  {
    if s == [] then [] else (if p(s[0]) then [s[0]] else []) + Filter(s[1..], p)
  }

  /** a can be obtained from b by deleting elements: a is an order-preserving
      subsequence of b. Matching each element of a to the earliest possible
      element of b is complete for this relation. */
  predicate IsSubsequence<T(==,!new)>(a: seq<T>, b: seq<T>)
    decreases |b|
  {
    if a == [] then true
    else if b == [] then false
    else if a[0] == b[0] then IsSubsequence(a[1..], b[1..])
    else IsSubsequence(a, b[1..])
  }

  /** No element occurs twice. */
  predicate Distinct<T(==,!new)>(s: seq<T>) {
    forall i, j :: 0 <= i < j < |s| ==> s[i] != s[j]
  }

  /** The filtered list keeps the elements of the input in their order. */
  lemma {:induction false} FilterIsSubsequence<T(!new)>(s: seq<T>, p: T -> bool)
    ensures IsSubsequence(Filter(s, p), s)
  {
    if s != [] {
      FilterIsSubsequence(s[1..], p);
      var rest := Filter(s[1..], p);
      if p(s[0]) {
        assert Filter(s, p) == [s[0]] + rest;
        assert ([s[0]] + rest)[1..] == rest;
      } else {
        assert Filter(s, p) == rest;
        if rest != [] {
          assert rest[0] in rest;
          assert rest[0] != s[0];
        }
      }
    }
  }

  /** When every element passes, filtering returns the sequence unchanged. */
  lemma {:induction false} FilterKeepsAll<T(!new)>(s: seq<T>, p: T -> bool)
    requires forall i :: 0 <= i < |s| ==> p(s[i])
    ensures Filter(s, p) == s
  {
    if s != [] {
      FilterKeepsAll(s[1..], p);
      assert [s[0]] + s[1..] == s;
    }
  }

  /** Two successive filters are one filter by the conjunction of their predicates. */
  lemma {:induction false} FilterConjunction<T(!new)>(s: seq<T>, p: T -> bool, q: T -> bool, both: T -> bool)
    requires forall x :: both(x) == (p(x) && q(x))
    ensures Filter(Filter(s, p), q) == Filter(s, both)
  {
    if s != [] {
      FilterConjunction(s[1..], p, q, both);
      var rest := Filter(s[1..], p);
      if p(s[0]) {
        assert Filter(s, p) == [s[0]] + rest;
        assert ([s[0]] + rest)[1..] == rest;
      } else {
        assert Filter(s, p) == rest;
      }
    }
  }

  /** The order in which two conjunctive filters are applied does not matter. */
  lemma FilterCommute<T(!new)>(s: seq<T>, p: T -> bool, q: T -> bool)
    ensures Filter(Filter(s, p), q) == Filter(Filter(s, q), p)
  {
    var both := x => p(x) && q(x);
    FilterConjunction(s, p, q, both);
    FilterConjunction(s, q, p, both);
  }

  /** Filtering twice with the same predicate is filtering once. */
  lemma FilterIdempotent<T(!new)>(s: seq<T>, p: T -> bool)
    ensures Filter(Filter(s, p), p) == Filter(s, p)
  {
    FilterConjunction(s, p, p, p);
  }

  /** Predicates that agree everywhere give the same filtered list. */
  lemma FilterSamePredicate<T(!new)>(s: seq<T>, p: T -> bool, q: T -> bool)
    requires forall x :: p(x) == q(x)
    ensures Filter(s, p) == Filter(s, q)
  {
    var all := (x: T) => true;
    FilterKeepsAll(s, all);
    FilterConjunction(s, all, p, q);
  }

  /** A stricter predicate keeps a subsequence of what a looser one keeps. */
  lemma FilterStricter<T(!new)>(s: seq<T>, loose: T -> bool, strict: T -> bool)
    requires forall x :: strict(x) ==> loose(x)
    ensures IsSubsequence(Filter(s, strict), Filter(s, loose))
  {
    FilterConjunction(s, loose, strict, strict);
    FilterIsSubsequence(Filter(s, loose), strict);
  }

  /** `s.map(f)`: f applied to every element, in order. */
  function Map<T, U>(s: seq<T>, f: T -> U): (r: seq<U>)
    ensures |r| == |s|
    ensures forall i :: 0 <= i < |s| ==> r[i] == f(s[i])
  {
    seq(|s|, i requires 0 <= i < |s| => f(s[i]))
  }

  /** Index of the first occurrence of x in s (`s.indexOf(x)`). */
  function IndexOf<T(==,!new)>(s: seq<T>, x: T): (k: nat)
    requires x in s
    ensures k < |s| && s[k] == x
    ensures forall j :: 0 <= j < k ==> s[j] != x
  {
    if s[0] == x then 0 else 1 + IndexOf(s[1..], x)
  }

  /** `Array.from(new Set(s))`: the distinct elements of s in the order of
      their first occurrence. Defined by adding the elements one at a time
      from the front, as a JavaScript Set is built. */
  function Unique<T(==,!new)>(s: seq<T>): (r: seq<T>)
    ensures Distinct(r)
    ensures forall x :: x in r <==> x in s
  {
    if s == [] then []
    else
      var front := Unique(s[..|s| - 1]);
      var x := s[|s| - 1];
      assert forall y :: y in s <==> y in s[..|s| - 1] || y == x by {
        assert s == s[..|s| - 1] + [x];
      }
      if x in front then front else front + [x]
  }

  /** Extending a sequence does not move the first occurrence of an element
      already present. */
  lemma IndexOfExtend<T(!new)>(s: seq<T>, x: T, y: T)
    requires y in s
    ensures y in s + [x] && IndexOf(s + [x], y) == IndexOf(s, y)
  {
    var k := IndexOf(s, y);
    var k' := IndexOf(s + [x], y);
    assert (s + [x])[k] == y;
    assert k' <= k;
    assert s[k'] == y;
  }

  /** The de-duplicated list lists values in the order in which they first
      occur in the input. */
  lemma {:induction false} UniqueFirstOccurrenceOrder<T(!new)>(s: seq<T>)
    ensures forall i, j :: 0 <= i < j < |Unique(s)| ==>
      IndexOf(s, Unique(s)[i]) < IndexOf(s, Unique(s)[j])
  {
    if s != [] {
      var init := s[..|s| - 1];
      var x := s[|s| - 1];
      assert s == init + [x];
      UniqueFirstOccurrenceOrder(init);
      var front := Unique(init);
      forall y | y in front
        ensures y in s && IndexOf(s, y) == IndexOf(init, y) && IndexOf(s, y) < |s| - 1
      {
        IndexOfExtend(init, x, y);
      }
      if x !in front {
        assert x !in init;
        assert IndexOf(s, x) == |s| - 1;
        var r := front + [x];
        forall i, j | 0 <= i < j < |r|
          ensures IndexOf(s, r[i]) < IndexOf(s, r[j])
        {
          assert r[i] in front;
          if j < |front| {
            assert r[j] in front;
          }
        }
      }
    }
  }

  /** The options of a selector built as `Array.from(new Set(s.map(f)))` are
      free of duplicates, are exactly the values f takes on s, and come in
      the order in which those values first occur. */
  lemma UniqueValuesOf<T(!new), U(!new)>(s: seq<T>, f: T -> U)
    ensures Distinct(Unique(Map(s, f)))
    ensures forall c :: c in Unique(Map(s, f)) <==> exists x :: x in s && f(x) == c
    ensures var vs := Map(s, f); var us := Unique(vs);
      forall i, j :: 0 <= i < j < |us| ==> IndexOf(vs, us[i]) < IndexOf(vs, us[j])
  {
    var vs := Map(s, f);
    UniqueFirstOccurrenceOrder(vs);
    forall c
      ensures c in vs <==> exists x :: x in s && f(x) == c
    {
      if c in vs {
        var i :| 0 <= i < |vs| && vs[i] == c;
        assert s[i] in s;
      }
      if exists x :: x in s && f(x) == c {
        var x :| x in s && f(x) == c;
        var i :| 0 <= i < |s| && s[i] == x;
        assert vs[i] == c;
      }
    }
  }

  /** `parts.join(sep)`. */
  function Join(parts: seq<string>, sep: string): (r: string)
    ensures |parts| == 1 ==> r == parts[0]
  {
    if |parts| == 0 then ""
    else if |parts| == 1 then parts[0]
    else parts[0] + sep + Join(parts[1..], sep)
  }

  /** `s.split(d)` for a one-character separator: the pieces between the
      separators, always at least one. */
  function Split(s: string, d: char): (r: seq<string>)
    ensures |r| >= 1
  {
    if s == [] then [[]]
    else
      var rest := Split(s[1..], d);
      if s[0] == d then [[]] + rest else [[s[0]] + rest[0]] + rest[1..]
  }

  /** A string without the separator splits into itself alone. */
  lemma {:induction false} SplitWithoutSeparator(p: string, d: char)
    requires d !in p
    ensures Split(p, d) == [p]
  {
    if p != [] {
      SplitWithoutSeparator(p[1..], d);
      assert [p[0]] + p[1..] == p;
    }
  }

  /** Splitting `p + d + t` yields p followed by the pieces of t. */
  lemma {:induction false} SplitAfterPiece(p: string, t: string, d: char)
    requires d !in p
    ensures Split(p + [d] + t, d) == [p] + Split(t, d)
  {
    var s := p + [d] + t;
    if p == [] {
      assert s[1..] == t;
    } else {
      SplitAfterPiece(p[1..], t, d);
      assert s[1..] == p[1..] + [d] + t;
      assert [p[0]] + p[1..] == p;
    }
  }

  /** Joining pieces that do not contain the separator and splitting again
      gives back the pieces. */
  lemma {:induction false} SplitJoin(parts: seq<string>, d: char)
    requires |parts| >= 1
    requires forall i :: 0 <= i < |parts| ==> d !in parts[i]
    ensures Split(Join(parts, [d]), d) == parts
  {
    if |parts| == 1 {
      SplitWithoutSeparator(parts[0], d);
    } else {
      SplitJoin(parts[1..], d);
      SplitAfterPiece(parts[0], Join(parts[1..], [d]), d);
      assert [parts[0]] + parts[1..] == parts;
    }
  }
}
