/** JavaScript's default `Array.prototype.sort` on strings: lexicographic order
    on characters, compared by their code. */
module StringOrder {
  import opened Seqs

  /** a sorts strictly before b: a is a proper prefix of b, or a has the
      smaller character at the first position where they differ. */
  predicate Less(a: string, b: string) {
    if b == [] then false
    else if a == [] then true
    else if a[0] != b[0] then a[0] < b[0]
    else Less(a[1..], b[1..])
  }

  lemma {:induction false} LessIrreflexive(a: string)
    ensures !Less(a, a)
  {
    if a != [] {
      LessIrreflexive(a[1..]);
    }
  }

  lemma {:induction false} LessTransitive(a: string, b: string, c: string)
    requires Less(a, b) && Less(b, c)
    ensures Less(a, c)
  {
    if a != [] && a[0] == b[0] && b[0] == c[0] {
      LessTransitive(a[1..], b[1..], c[1..]);
    }
  }

  lemma {:induction false} LessTotal(a: string, b: string)
    requires a != b
    ensures Less(a, b) || Less(b, a)
  {
    if a != [] && b != [] && a[0] == b[0] {
      assert a == [a[0]] + a[1..] && b == [b[0]] + b[1..];
      LessTotal(a[1..], b[1..]);
    }
  }

  /** Each element sorts strictly before every later one. */
  predicate StrictlySorted(s: seq<string>) {
    forall i, j :: 0 <= i < j < |s| ==> Less(s[i], s[j])
  }

  lemma StrictlySortedIsDistinct(s: seq<string>)
    requires StrictlySorted(s)
    ensures Distinct(s)
  {
    forall i, j | 0 <= i < j < |s|
      ensures s[i] != s[j]
    {
      LessIrreflexive(s[i]);
    }
  }

  /** Place x before the first element that does not sort before it. */
  function Insert(x: string, s: seq<string>): (r: seq<string>)
    ensures multiset(r) == multiset(s) + multiset{x}
  {
    if s == [] then [x]
    else if Less(s[0], x) then
      assert s == [s[0]] + s[1..];
      [s[0]] + Insert(x, s[1..])
    else [x] + s
  }

  /** `s.sort()` with the default comparator (an insertion sort). */
  function Sort(s: seq<string>): (r: seq<string>)
    ensures multiset(r) == multiset(s)
  {
    if s == [] then []
    else
      assert s == [s[0]] + s[1..];
      Insert(s[0], Sort(s[1..]))
  }

  lemma {:induction false} InsertKeepsSorted(x: string, s: seq<string>)
    requires StrictlySorted(s) && x !in s
    ensures StrictlySorted(Insert(x, s))
  {
    if s != [] {
      var r := Insert(x, s);
      if Less(s[0], x) {
        var tail := Insert(x, s[1..]);
        InsertKeepsSorted(x, s[1..]);
        forall j | 0 <= j < |tail|
          ensures Less(s[0], tail[j])
        {
          assert tail[j] in multiset(tail);
          assert tail[j] in multiset(s[1..]) || tail[j] == x;
          if tail[j] != x {
            var k :| 0 <= k < |s[1..]| && s[1..][k] == tail[j];
            assert s[k + 1] == tail[j];
          }
        }
        assert r == [s[0]] + tail;
      } else {
        assert x != s[0];
        LessTotal(x, s[0]);
        forall j | 1 <= j < |s| + 1
          ensures Less(x, r[j])
        {
          if j > 1 {
            LessTransitive(x, s[0], s[j - 1]);
          }
        }
      }
    }
  }

  /** Sorting a duplicate-free list gives a strictly increasing list. */
  lemma {:induction false} SortDistinctIsStrictlySorted(s: seq<string>)
    requires Distinct(s)
    ensures StrictlySorted(Sort(s))
  {
    if s != [] {
      SortDistinctIsStrictlySorted(s[1..]);
      assert s[0] !in multiset(s[1..]);
      assert s[0] !in multiset(Sort(s[1..]));
      InsertKeepsSorted(s[0], Sort(s[1..]));
    }
  }

  /** Sorting keeps exactly the elements of the input. */
  lemma SortSameElements(s: seq<string>)
    ensures forall x :: x in Sort(s) <==> x in s
  {
    forall x
      ensures x in Sort(s) <==> x in s
    {
      assert x in Sort(s) <==> x in multiset(Sort(s));
      assert x in s <==> x in multiset(s);
    }
  }
}
