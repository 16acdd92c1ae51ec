/** The browser's `URLSearchParams`: an ordered list of name/value pairs in
    which a name may occur more than once. `get` reads the first value under a
    name; `set` overwrites the first entry with that name and drops the other
    entries with it, or appends when there is none; `delete` drops every entry
    with that name. */
module UrlParams {
  import opened Wrappers

  type Param = (string, string)

  /** `params.getAll(n)`: the values stored under n, in list order. */
  function GetAll(p: seq<Param>, n: string): (r: seq<string>)
    ensures |r| <= |p|
  {
    if p == [] then [] else (if p[0].0 == n then [p[0].1] else []) + GetAll(p[1..], n)
  }

  /** `params.get(n)`: the first value stored under n, or nothing. */
  function Lookup(p: seq<Param>, n: string): (r: Option<string>)
    ensures r.None? <==> GetAll(p, n) == []
    ensures r.Some? ==> r.value == GetAll(p, n)[0]
  {
    var vs := GetAll(p, n);
    if vs == [] then None else Some(vs[0])
  }

  /** `params.get(n) || d`: the first value under n when it is non-empty; a
      missing parameter and an empty one both give d. */
  function LookupOr(p: seq<Param>, n: string, d: string): (r: string)
    ensures Lookup(p, n).Some? && Lookup(p, n).value != "" ==> r == Lookup(p, n).value
    ensures Lookup(p, n).None? || Lookup(p, n).value == "" ==> r == d
  {
    match Lookup(p, n)
    case Some(v) => if v == "" then d else v
    case None => d
  }

  /** `params.delete(n)`. */
  function Remove(p: seq<Param>, n: string): (r: seq<Param>)
    ensures GetAll(r, n) == []
    ensures forall k :: k != n ==> GetAll(r, k) == GetAll(p, k)
  {
    if p == [] then []
    else
      var rest := Remove(p[1..], n);
      if p[0].0 == n then rest else GetAllCons(p[0], rest); [p[0]] + rest
  }

  /** `params.set(n, v)`. */
  function Assign(p: seq<Param>, n: string, v: string): (r: seq<Param>)
    ensures GetAll(r, n) == [v]
    ensures forall k :: k != n ==> GetAll(r, k) == GetAll(p, k)
  {
    if p == [] then [(n, v)]
    else if p[0].0 == n then GetAllCons((n, v), Remove(p[1..], n)); [(n, v)] + Remove(p[1..], n)
    else GetAllCons(p[0], Assign(p[1..], n, v)); [p[0]] + Assign(p[1..], n, v)
  }

  /** The entries whose names are not in ks, in list order: the part of the
      query string that an update of the names ks must leave alone. */
  function Without(p: seq<Param>, ks: set<string>): (r: seq<Param>)
    ensures |r| <= |p|
  {
    if p == [] then []
    else (if p[0].0 in ks then [] else [p[0]]) + Without(p[1..], ks)
  }

  /** Dropping the names ks leaves the values of every other name as they were. */
  lemma {:induction false} WithoutGetAll(p: seq<Param>, ks: set<string>, k: string)
    ensures GetAll(Without(p, ks), k) == if k in ks then [] else GetAll(p, k)
  {
    if p != [] {
      WithoutGetAll(p[1..], ks, k);
      GetAllCons(p[0], p[1..]);
      assert [p[0]] + p[1..] == p;
      if p[0].0 !in ks {
        GetAllCons(p[0], Without(p[1..], ks));
        assert Without(p, ks) == [p[0]] + Without(p[1..], ks);
      } else {
        assert Without(p, ks) == Without(p[1..], ks);
      }
    }
  }

  lemma GetAllCons(e: Param, rest: seq<Param>)
    ensures forall k :: GetAll([e] + rest, k) == (if e.0 == k then [e.1] else []) + GetAll(rest, k)
  {
    assert ([e] + rest)[1..] == rest;
  }

  /** `delete` touches only entries named n: every other entry stays, in order. */
  lemma {:induction false} RemoveLeavesOthers(p: seq<Param>, n: string, ks: set<string>)
    requires n in ks
    ensures Without(Remove(p, n), ks) == Without(p, ks)
  {
    if p != [] {
      RemoveLeavesOthers(p[1..], n, ks);
      var head := if p[0].0 == n then [] else [p[0]];
      assert Remove(p, n) == head + Remove(p[1..], n);
      WithoutAppend(head, Remove(p[1..], n), ks);
    }
  }

  /** `set` touches only entries named n: every other entry stays, in order. */
  lemma {:induction false} AssignLeavesOthers(p: seq<Param>, n: string, v: string, ks: set<string>)
    requires n in ks
    ensures Without(Assign(p, n, v), ks) == Without(p, ks)
  {
    if p == [] {
      assert Without([(n, v)], ks) == [];
    } else if p[0].0 == n {
      RemoveLeavesOthers(p[1..], n, ks);
      WithoutAppend([(n, v)], Remove(p[1..], n), ks);
    } else {
      AssignLeavesOthers(p[1..], n, v, ks);
      WithoutAppend([p[0]], Assign(p[1..], n, v), ks);
    }
  }

  lemma {:induction false} WithoutAppend(a: seq<Param>, b: seq<Param>, ks: set<string>)
    ensures Without(a + b, ks) == Without(a, ks) + Without(b, ks)
  {
    if a == [] {
      assert a + b == b;
    } else {
      WithoutAppend(a[1..], b, ks);
      var head := if a[0].0 in ks then [] else [a[0]];
      assert (a + b)[1..] == a[1..] + b;
      assert (a + b)[0] == a[0];
      calc {
        Without(a + b, ks);
        head + Without(a[1..] + b, ks);
        head + (Without(a[1..], ks) + Without(b, ks));
        (head + Without(a[1..], ks)) + Without(b, ks);
        Without(a, ks) + Without(b, ks);
      }
    }
  }

  /** A `URLSearchParams` object: its list of entries is updated in place by
      `set` and `delete`. */
  class SearchParams {
    var entries: seq<Param>

    /** `new URLSearchParams(...)` copying an existing list of entries. */
    constructor (init: seq<Param>)
      ensures entries == init
    {
      entries := init;
    }

    function Get(n: string): (r: Option<string>)
      reads this
    {
      Lookup(entries, n)
    }

    method Set(n: string, v: string)
      modifies this
      ensures entries == Assign(old(entries), n, v)
      ensures Get(n) == Some(v)
    {
      entries := Assign(entries, n, v);
    }

    method Delete(n: string)
      modifies this
      ensures entries == Remove(old(entries), n)
      ensures Get(n) == None
    {
      entries := Remove(entries, n);
    }
  }
}
