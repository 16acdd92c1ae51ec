/** Pagination as both paginated tables do it: a page is
    `items.slice((page - 1) * size, (page - 1) * size + size)` with JavaScript's
    `slice` clamping, the page count comes from `Math.ceil`, and the previous
    and next buttons aim at `Math.max(1, page - 1)` and
    `Math.min(totalPages, page + 1)`. */
module Paging {
  import opened JsNumber

  /** How `slice` turns an index argument into a position: a negative index
      counts back from the end, and the result is clamped to [0, len]. */
  function SliceIndex(i: int, len: nat): (k: nat)
    ensures k <= len
    ensures 0 <= i <= len ==> k == i
    ensures i > len ==> k == len
    ensures i < 0 ==> k == if len + i < 0 then 0 else len + i
  {
    if i < 0 then (if len + i < 0 then 0 else len + i)
    else if i > len then len
    else i
  }

  /** `s.slice(start, end)`. */
  function Slice<T>(s: seq<T>, start: int, end: int): (r: seq<T>)
    ensures |r| <= |s|
    ensures SliceIndex(start, |s|) >= SliceIndex(end, |s|) ==> r == []
    ensures SliceIndex(start, |s|) < SliceIndex(end, |s|) ==> |r| == SliceIndex(end, |s|) - SliceIndex(start, |s|)
  {
    var a := SliceIndex(start, |s|);
    var b := SliceIndex(end, |s|);
    if a < b then s[a..b] else []
  }

  /** The rows shown on page `page` (counted from 1) with `size` rows per page. */
  function PageSlice<T>(s: seq<T>, page: int, size: nat): (r: seq<T>)
    ensures |r| <= size
  {
    var start := (page - 1) * size;
    Slice(s, start, start + size)
  }

  /** The page as the component computes it from a parsed page number:
      for NaN, `slice(NaN, NaN)` treats both bounds as 0 and is empty. */
  function PageOf<T>(s: seq<T>, page: JsInt, size: nat): (r: seq<T>)
    ensures |r| <= size
    ensures page.NaN? ==> r == []
  {
    match page
    case NaN => []
    case Int(k) => PageSlice(s, k, size)
  }

  function Min(a: int, b: int): int { if a <= b then a else b }

  function Max(a: int, b: int): int { if a >= b then a else b }

  /** `Math.ceil(n / size)` for a positive page size: the fewest pages of
      `size` rows that hold n rows. */
  function CeilDiv(n: nat, size: nat): (r: nat)
    requires size > 0
    ensures r * size >= n
    ensures r > 0 ==> (r - 1) * size < n
  {
    var q := (n + size - 1) / size;
    var rem := (n + size - 1) % size;
    assert n + size - 1 == q * size + rem;
    assert (q - 1) * size == q * size - size;
    q
  }

  /** For a page at or after the first, the slice is the plain window
      `[(page - 1) * size, page * size)` cut at the end of the list. */
  lemma PageSliceWindow<T>(s: seq<T>, page: int, size: nat)
    requires page >= 1
    ensures (page - 1) * size >= 0
    ensures PageSlice(s, page, size)
         == s[Min((page - 1) * size, |s|)..Min((page - 1) * size + size, |s|)]
  {
    assert (page - 1) * size >= 0;
  }

  /** Pages 1 to k, one after another. */
  function FirstPages<T>(s: seq<T>, size: nat, k: nat): seq<T>
  {
    if k == 0 then [] else FirstPages(s, size, k - 1) + PageSlice(s, k, size)
  }

  /** Pages 1 to k together are exactly the first k * size rows (or all rows). */
  lemma {:induction false} FirstPagesArePrefix<T>(s: seq<T>, size: nat, k: nat)
    ensures k * size >= 0
    ensures FirstPages(s, size, k) == s[..Min(k * size, |s|)]
  {
    if k > 0 {
      FirstPagesArePrefix(s, size, k - 1);
      PageSliceWindow(s, k, size);
      assert (k - 1) * size + size == k * size;
      assert (k - 1) * size <= k * size;
      var a := Min((k - 1) * size, |s|);
      var b := Min(k * size, |s|);
      assert s[..a] + s[a..b] == s[..b];
    }
  }

  /** Pages 1 to `CeilDiv(n, size)` put together give back the whole list, with
      no row missing or repeated. */
  lemma AllPagesGiveList<T>(s: seq<T>, size: nat)
    requires size > 0
    ensures FirstPages(s, size, CeilDiv(|s|, size)) == s
  {
    FirstPagesArePrefix(s, size, CeilDiv(|s|, size));
  }

  lemma {:induction false} MulMonotone(a: nat, b: nat, k: nat)
    requires a <= b
    ensures a * k <= b * k
    decreases b - a
  {
    if a < b {
      MulMonotone(a, b - 1, k);
      assert (b - 1) * k + k == b * k;
    }
  }

  /** Every page from 1 up to the page count holds at least one row. */
  lemma PageInRangeNonEmpty<T>(s: seq<T>, page: int, size: nat)
    requires size > 0 && 1 <= page <= CeilDiv(|s|, size)
    ensures |PageSlice(s, page, size)| >= 1
  {
    PageSliceWindow(s, page, size);
    var c := CeilDiv(|s|, size);
    MulMonotone(page - 1, c - 1, size);
    var start := (page - 1) * size;
    assert start < |s|;
    assert Min(start, |s|) == start && Min(start + size, |s|) > start;
  }

  /** Page 0 is always empty: `slice(-size, 0)` ends at position 0. */
  lemma PageZeroIsEmpty<T>(s: seq<T>, size: nat)
    ensures PageSlice(s, 0, size) == []
  {
  }

  /** A page number below 1 is not clamped: page -1 of 20 rows with 15 per page
      is `slice(-30, -15)`, which counts from the end and shows rows 1 to 5. */
  lemma NegativePageCountsFromEnd<T>(s: seq<T>)
    requires |s| == 20
    ensures PageSlice(s, -1, 15) == s[..5]
  {
  }

  /** The target of the previous-page button, `Math.max(1, page - 1)`. */
  function PreviousPage(page: JsInt): (r: JsInt)
    ensures page.Int? <==> r.Int?
    ensures r.Int? ==> r.value >= 1
  {
    match page
    case NaN => NaN
    case Int(k) => Int(Max(1, k - 1))
  }

  /** The target of the next-page button, `Math.min(totalPages, page + 1)`. */
  function NextPage(page: JsInt, totalPages: int): (r: JsInt)
    ensures page.Int? <==> r.Int?
    ensures r.Int? ==> r.value <= totalPages
  {
    match page
    case NaN => NaN
    case Int(k) => Int(Min(totalPages, k + 1))
  }

  /** From a page inside [1, totalPages] both buttons lead to a page inside it,
      one step away unless already at the edge. */
  lemma NeighbourPagesInRange(k: int, totalPages: int)
    requires 1 <= k <= totalPages
    ensures 1 <= PreviousPage(Int(k)).value <= totalPages
    ensures 1 <= NextPage(Int(k), totalPages).value <= totalPages
    ensures PreviousPage(Int(k)).value == if k == 1 then 1 else k - 1
    ensures NextPage(Int(k), totalPages).value == if k == totalPages then k else k + 1
  {
  }

  /** The footer "Showing first to last of n": first is `(page - 1) * size + 1`
      and last is `Math.min(page * size, n)`. */
  function ShowingRange(page: int, size: nat, n: nat): (r: (int, int))
  {
    ((page - 1) * size + 1, Min(page * size, n))
  }

  /** On a page in range the footer's range counts exactly the rows shown;
      an empty list has the one page 1, and the range "1 to 0" counts none. */
  lemma ShowingRangeCountsPage<T>(s: seq<T>, page: int, size: nat)
    requires size > 0 && 1 <= page <= Max(1, CeilDiv(|s|, size))
    ensures var r := ShowingRange(page, size, |s|);
      r.1 - r.0 + 1 == |PageSlice(s, page, size)|
  {
    PageSliceWindow(s, page, size);
    if |s| > 0 {
      PageInRangeNonEmpty(s, page, size);
    }
    assert (page - 1) * size + size == page * size;
  }
}
