/** Character and string helpers shared by every table's text search:
    lower-casing and substring containment (JavaScript's `toLowerCase` and
    `includes`). Lower-casing is modelled on ASCII letters only. */
module Text {

  predicate IsUpper(c: char) {
    'A' <= c <= 'Z'
  }

  predicate IsLower(c: char) {
    'a' <= c <= 'z'
  }

  /** Lower-case one character: A-Z map to a-z, everything else is kept. */
  function LowerChar(c: char): (r: char)
    ensures !IsUpper(r)
    ensures !IsUpper(c) ==> r == c
    ensures IsUpper(c) ==> IsLower(r) && r as int == c as int + 32
  {
    if IsUpper(c) then (c as int + 32) as char else c
  }

  /** Upper-case one character: a-z map to A-Z, everything else is kept. */
  function UpperChar(c: char): (r: char)
    ensures !IsLower(r)
    ensures !IsLower(c) ==> r == c
    ensures IsLower(c) ==> IsUpper(r) && r as int == c as int - 32
  {
    if IsLower(c) then (c as int - 32) as char else c
  }

  /** `s.toLowerCase()` on ASCII letters. */
  function Lower(s: string): (r: string)
    ensures |r| == |s|
    ensures forall i :: 0 <= i < |r| ==> !IsUpper(r[i])
    ensures forall i :: 0 <= i < |s| && IsUpper(s[i]) ==> r[i] as int == s[i] as int + 32
    ensures forall i :: 0 <= i < |s| && !IsUpper(s[i]) ==> r[i] == s[i]
  {
    seq(|s|, i requires 0 <= i < |s| => LowerChar(s[i]))
  }

  /** `s.toUpperCase()` on ASCII letters. */
  function Upper(s: string): (r: string)
    ensures |r| == |s|
    ensures forall i :: 0 <= i < |r| ==> !IsLower(r[i])
    ensures forall i :: 0 <= i < |s| && IsLower(s[i]) ==> r[i] as int == s[i] as int - 32
    ensures forall i :: 0 <= i < |s| && !IsLower(s[i]) ==> r[i] == s[i]
  {
    seq(|s|, i requires 0 <= i < |s| => UpperChar(s[i]))
  }

  /** t occurs in s as a contiguous block starting at index i. */
  predicate OccursAt(s: string, t: string, i: int) {
    0 <= i && i + |t| <= |s| && s[i..i + |t|] == t
  }

  /** `s.includes(t)`: t occurs somewhere in s. */
  predicate Contains(s: string, t: string) {
    exists i | 0 <= i <= |s| :: OccursAt(s, t, i)
  }

  /** Lower-casing works character by character, so it distributes over concatenation. */
  lemma LowerAppend(a: string, b: string)
    ensures Lower(a + b) == Lower(a) + Lower(b)
  {
    assert forall i :: 0 <= i < |a + b| ==> Lower(a + b)[i] == (Lower(a) + Lower(b))[i];
  }

  /** A string and its upper-cased form lower-case to the same string, so a
      search query is case-insensitive in both directions. */
  lemma LowerOfUpper(s: string)
    ensures Lower(Upper(s)) == Lower(s)
  {
    forall i | 0 <= i < |s|
      ensures Lower(Upper(s))[i] == Lower(s)[i]
    {
      var c := s[i];
      assert Upper(s)[i] == UpperChar(c);
    }
  }

  /** Containment is transitive: a substring of a substring is a substring. */
  lemma ContainsTransitive(a: string, b: string, c: string)
    requires Contains(a, b) && Contains(b, c)
    ensures Contains(a, c)
  {
    var i :| 0 <= i <= |a| && OccursAt(a, b, i);
    var j :| 0 <= j <= |b| && OccursAt(b, c, j);
    forall k | 0 <= k < |c|
      ensures a[i + j + k] == c[k]
    {
      assert a[i + j + k] == a[i..i + |b|][j + k] == b[j + k];
    }
    assert OccursAt(a, c, i + j);
  }

  /** Lower-casing both sides keeps a substring a substring. */
  lemma ContainsLower(s: string, t: string)
    requires Contains(s, t)
    ensures Contains(Lower(s), Lower(t))
  {
    var i :| 0 <= i <= |s| && OccursAt(s, t, i);
    assert Lower(s)[i..i + |t|] == Lower(t);
    assert OccursAt(Lower(s), Lower(t), i);
  }

  /** A match inside one part is a match inside any concatenation holding that part. */
  lemma ContainsInMiddle(a: string, b: string, c: string, t: string)
    requires Contains(b, t)
    ensures Contains(a + b + c, t)
  {
    var i :| 0 <= i <= |b| && OccursAt(b, t, i);
    assert (a + b + c)[|a| + i..|a| + i + |t|] == t;
    assert OccursAt(a + b + c, t, |a| + i);
  }
}
