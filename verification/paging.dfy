/** The user list's pagination: fixed-size pages cut from the filtered list, and the
    "Previous Page" / "Next Page" buttons that move between them. */
module Paging {

  /** Number of users per page. */
  const PageSize: nat := 10

  function Min(a: int, b: int): int { if a <= b then a else b }

  function Max(a: int, b: int): int { if a >= b then a else b }

  /** `Math.ceil(n / PAGE_SIZE)`: the fewest pages that hold `n` items. */
  function TotalPages(n: nat): (r: nat)
    ensures r * PageSize >= n
    ensures r == 0 || (r - 1) * PageSize < n
    ensures r == 0 <==> n == 0
  {
    (n + PageSize - 1) / PageSize
  }

  /** Resolves one bound of `Array.prototype.slice`: a negative bound counts back from the
      end, and the result is clamped to `[0, len]`. */
  function SliceBound(k: int, len: nat): (r: nat)
    ensures r <= len
    ensures 0 <= k ==> r == Min(k, len)
  {
    if k < 0 then Max(len + k, 0) else Min(k, len)
  }

  /** `s.slice(start, end)`: the run between the resolved bounds, empty when they cross. */
  function Slice<T>(s: seq<T>, start: int, end: int): (r: seq<T>)
    ensures |r| <= |s|
    ensures 0 <= start && 0 <= end ==> |r| == Max(Min(end, |s|) - start, 0)
    ensures 0 <= start ==> start + |r| <= |s| || |r| == 0
    ensures 0 <= start ==> forall k :: 0 <= k < |r| ==> r[k] == s[start + k]
  {
    var from := SliceBound(start, |s|);
    var to := SliceBound(end, |s|);
    if from < to then s[from..to] else []
  }

  /** The items shown on page `p` (counted from 1): the slice from `(p - 1) * PAGE_SIZE`
      to `(p - 1) * PAGE_SIZE + PAGE_SIZE`. */
  function Page<T>(items: seq<T>, p: int): (r: seq<T>)
    ensures p >= 1 ==> |r| <= PageSize
    ensures p >= 1 && (p - 1) * PageSize >= |items| ==> r == []
    ensures p >= 1 && (p - 1) * PageSize < |items| ==>
      |r| == Min(PageSize, |items| - (p - 1) * PageSize)
    ensures p >= 1 ==> forall k :: 0 <= k < |r| ==> r[k] == items[(p - 1) * PageSize + k]
  {
    var start := (p - 1) * PageSize;
    Slice(items, start, start + PageSize)
  }

  /** Pages `1..k` laid end to end. */
  function Pages<T>(items: seq<T>, k: nat): seq<T>
  {
    if k == 0 then [] else Pages(items, k - 1) + Page(items, k)
  }

  /** The first `k` pages are exactly the first `k * PAGE_SIZE` items (or all of them). */
  lemma {:induction false} PagesArePrefix<T>(items: seq<T>, k: nat)
    ensures Pages(items, k) == items[..Min(k * PageSize, |items|)]
  {
    if k > 0 {
      PagesArePrefix(items, k - 1);
      var start := (k - 1) * PageSize;
      var page := Page(items, k);
      if start < |items| {
        var end := Min(k * PageSize, |items|);
        assert page == items[start..end];
        assert items[..start] + items[start..end] == items[..end];
      }
    }
  }

  /** Reading pages `1..totalPages` in order reproduces the list: no item is left out and
      none is shown twice. */
  lemma PagesCoverList<T>(items: seq<T>)
    ensures Pages(items, TotalPages(|items|)) == items
  {
    PagesArePrefix(items, TotalPages(|items|));
  }

  /** The item at position `i` sits on page `i / PAGE_SIZE + 1`, at position
      `i % PAGE_SIZE` of that page, and that page is within `[1, totalPages]`. */
  lemma PageOfItem<T>(items: seq<T>, i: nat)
    requires i < |items|
    ensures 1 <= i / PageSize + 1 <= TotalPages(|items|)
    ensures i % PageSize < |Page(items, i / PageSize + 1)|
    ensures Page(items, i / PageSize + 1)[i % PageSize] == items[i]
  {
    var p := i / PageSize + 1;
    assert (p - 1) * PageSize + i % PageSize == i;
  }

  /** "Previous Page": `Math.max(currentPage - 1, 1)`. It never leaves page 1 below, and
      it moves back exactly one page whenever the button is enabled. */
  function Previous(p: int): (r: int)
    ensures r >= 1
    ensures p >= 1 ==> r <= p
    ensures !PreviousDisabled(p) ==> r == p - 1
    ensures p == 1 ==> r == p
  {
    Max(p - 1, 1)
  }

  /** "Next Page": `Math.min(currentPage + 1, totalPages)`. It never passes the last page,
      and it moves forward exactly one page whenever the button is enabled. */
  function Next(p: int, total: int): (r: int)
    ensures r <= total
    ensures 1 <= p <= total ==> p <= r
    ensures !NextDisabled(p, total) ==> r == p + 1
    ensures p == total ==> r == p
  {
    Min(p + 1, total)
  }

  /** "Previous Page" is disabled at or before the first page. */
  predicate PreviousDisabled(p: int) { p <= 1 }

  /** "Next Page" is disabled at or after the last page. */
  predicate NextDisabled(p: int, total: int) { p >= total }

  /** Within `[1, totalPages]`, both buttons keep the page within `[1, totalPages]`. */
  lemma NavigationStaysInRange(p: int, total: int)
    requires 1 <= p <= total
    ensures 1 <= Previous(p) <= total
    ensures 1 <= Next(p, total) <= total
  {
  }
}
