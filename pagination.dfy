/**
 * Page slicing over an insertion-ordered sequence, with the semantics of a
 * Python slice `a[i:j]`: a negative bound counts from the end, bounds are
 * clamped to the sequence, and a slice whose bounds cross is empty.
 */
module Pagination {

  function Min(a: int, b: int): int { if a <= b then a else b }

  /** Where a slice bound `i` lands in a sequence of length `n`. */
  function ClampIndex(i: int, n: nat): nat
  {
    if i < 0 then (if i + n < 0 then 0 else i + n)
    else if i > n then n
    else i
  }

  /** `a[i:j]` as Python evaluates it. */
  function Slice<T>(a: seq<T>, i: int, j: int): (s: seq<T>)
    ensures |s| <= |a|
  {
    var lo, hi := ClampIndex(i, |a|), ClampIndex(j, |a|);
    if lo < hi then a[lo..hi] else []
  }

  /**
   * The page `list_stocks(pageNumber, pageSize)` cuts out of `entries`:
   * positions [(pageNumber - 1) * pageSize, pageNumber * pageSize).
   */
  function Page<T>(entries: seq<T>, pageNumber: int, pageSize: int): (page: seq<T>)
    ensures pageSize >= 0 ==> |page| <= pageSize
    ensures pageNumber >= 1 && pageSize >= 0 ==>
      page == entries[Min((pageNumber - 1) * pageSize, |entries|)..Min(pageNumber * pageSize, |entries|)]
    ensures pageNumber >= 1 && pageSize >= 0 && (pageNumber - 1) * pageSize >= |entries| ==> page == []
  {
    var start := (pageNumber - 1) * pageSize;
    PageFacts(entries, pageNumber, pageSize, start);
    Slice(entries, start, start + pageSize)
  }

  lemma PageFacts<T>(entries: seq<T>, pageNumber: int, pageSize: int, start: int)
    requires start == (pageNumber - 1) * pageSize
    ensures pageSize >= 0 ==> |Slice(entries, start, start + pageSize)| <= pageSize
    ensures pageNumber >= 1 && pageSize >= 0 ==>
      Slice(entries, start, start + pageSize)
        == entries[Min(start, |entries|)..Min(pageNumber * pageSize, |entries|)]
  {
    var n := |entries|;
    if pageSize >= 0 {
      var stop := start + pageSize;
      assert stop == pageNumber * pageSize;
      var lo, hi := ClampIndex(start, n), ClampIndex(stop, n);
      if pageNumber >= 1 {
        assert start >= 0 by { NonNegativeProduct(pageNumber - 1, pageSize); }
        assert lo == Min(start, n) && hi == Min(stop, n);
      } else {
        assert stop <= 0 by { NonNegativeProduct(-pageNumber, pageSize); }
        assert hi - lo <= pageSize;
      }
    }
  }

  lemma NextPageStart(k: int, pageSize: int)
    requires pageSize >= 0
    ensures k * pageSize + pageSize == (k + 1) * pageSize
  {
  }

  lemma NonNegativeProduct(x: int, y: int)
    requires x >= 0 && y >= 0
    ensures x * y >= 0
  {
  }

  /** Pages 1..count of `entries`, concatenated in order. */
  function Pages<T>(entries: seq<T>, pageSize: int, count: nat): seq<T>
  {
    if count == 0 then [] else Pages(entries, pageSize, count - 1) + Page(entries, count, pageSize)
  }

  /** The number of pages of size `pageSize` needed for `n` entries: (n + s - 1) // s. */
  function PageCount(n: nat, pageSize: int): (count: nat)
    requires pageSize >= 1
    ensures n <= count * pageSize
    ensures (count - 1) * pageSize < n
  {
    var q := (n + pageSize - 1) / pageSize;
    var r := (n + pageSize - 1) % pageSize;
    assert q * pageSize + r == n + pageSize - 1;
    assert (q - 1) * pageSize == q * pageSize - pageSize;
    q
  }

  /** The first `count` pages are the first `count * pageSize` entries. */
  lemma {:induction false} PagesPrefix<T>(entries: seq<T>, pageSize: int, count: nat)
    requires pageSize >= 1
    ensures Pages(entries, pageSize, count) == entries[..Min(count * pageSize, |entries|)]
  {
    if count > 0 {
      PagesPrefix(entries, pageSize, count - 1);
      var lo, hi := (count - 1) * pageSize, count * pageSize;
      NextPageStart(count - 1, pageSize);
      NonNegativeProduct(count - 1, pageSize);
      ConcatSlices(entries, Pages(entries, pageSize, count - 1), Page(entries, count, pageSize),
        Min(lo, |entries|), Min(hi, |entries|));
    }
  }

  lemma ConcatSlices<T>(entries: seq<T>, prefix: seq<T>, page: seq<T>, a: int, b: int)
    requires 0 <= a <= b <= |entries|
    requires prefix == entries[..a] && page == entries[a..b]
    ensures prefix + page == entries[..b]
  {
    assert entries[..a] + entries[a..b] == entries[..b];
  }

  /**
   * Listing pages 1 to PageCount(|entries|, pageSize) in turn gives back every
   * entry exactly once, in order.
   */
  lemma PagesCoverAll<T>(entries: seq<T>, pageSize: int)
    requires pageSize >= 1
    ensures Pages(entries, pageSize, PageCount(|entries|, pageSize)) == entries
  {
    PagesPrefix(entries, pageSize, PageCount(|entries|, pageSize));
  }

  /** Every page after the last of PageCount is empty. */
  lemma PageAfterLastIsEmpty<T>(entries: seq<T>, pageSize: int, pageNumber: int)
    requires pageSize >= 1 && pageNumber > PageCount(|entries|, pageSize)
    ensures Page(entries, pageNumber, pageSize) == []
  {
    var c := PageCount(|entries|, pageSize);
    assert (pageNumber - 1) * pageSize >= c * pageSize;
  }
}
