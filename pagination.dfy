/**
  The pagination window of the handler: `start = (page - 1) * per_page`,
  `end = start + per_page`, `headlines[start:end]`, with Python's slice rules
  for every integer pair (the handler does not check its inputs).
 */
module Pagination {

  /** How Python normalises one slice bound of a sequence of length `n`:
      a negative bound counts from the end, and the result is clamped to `[0, n]`. */
  function SliceBound(i: int, n: nat): (b: nat)
    ensures b <= n
    ensures 0 <= i <= n ==> b == i
    ensures i > n ==> b == n
    ensures i < 0 ==> b == if i + n < 0 then 0 else i + n
  {
    if i < 0 then (if i + n < 0 then 0 else i + n)
    else if i > n then n
    else i
  }

  /** Python's `s[start:stop]` (step 1). */
  function PySlice<T>(s: seq<T>, start: int, stop: int): (r: seq<T>)
    ensures |r| <= |s|
    ensures SliceBound(start, |s|) + |r| <= |s|
    ensures |r| == if SliceBound(start, |s|) < SliceBound(stop, |s|)
                   then SliceBound(stop, |s|) - SliceBound(start, |s|) else 0
    ensures forall k :: 0 <= k < |r| ==> r[k] == s[SliceBound(start, |s|) + k]
  {
    var lo, hi := SliceBound(start, |s|), SliceBound(stop, |s|);
    if lo < hi then s[lo..hi] else []
  }

  function Min(a: int, b: int): int
  {
    if a < b then a else b
  }

  /** The headlines the handler processes for `page` and `perPage`. */
  function Window<T>(headlines: seq<T>, page: int, perPage: int): seq<T>
  {
    var start := (page - 1) * perPage;
    var end := start + perPage;
    PySlice(headlines, start, end)
  }

  /** For any arguments, the window is a run of consecutive headlines in list
      order, starting at the normalised start bound, and never longer than a
      non-negative `perPage`. */
  lemma WindowIsRun<T>(headlines: seq<T>, page: int, perPage: int)
    ensures var r, lo := Window(headlines, page, perPage), SliceBound((page - 1) * perPage, |headlines|);
            lo + |r| <= |headlines| &&
            (forall k :: 0 <= k < |r| ==> r[k] == headlines[lo + k]) &&
            (perPage >= 0 ==> |r| <= perPage)
  {
  }

  /** With both bounds non-negative, Python's slice is the ordinary one, clamped. */
  lemma NonNegativeSlice<T>(s: seq<T>, start: int, stop: int)
    requires 0 <= start <= stop
    ensures PySlice(s, start, stop) == s[Min(start, |s|)..Min(stop, |s|)]
  {
  }

  /** For a valid request the window is exactly the page's part of the list,
      clamped to its length; it is empty once the start is past the end and
      never holds more than `perPage` headlines. */
  lemma WindowIsPage<T>(headlines: seq<T>, page: int, perPage: int)
    requires page >= 1 && perPage >= 1
    ensures var n := |headlines|;
            var start := (page - 1) * perPage;
            start >= 0 &&
            Window(headlines, page, perPage) == headlines[Min(start, n)..Min(start + perPage, n)]
    ensures |Window(headlines, page, perPage)| <= perPage
    ensures Window(headlines, page, perPage) == [] <==> (page - 1) * perPage >= |headlines|
  {
    var start := (page - 1) * perPage;
    NonNegativeProduct(page - 1, perPage);
    NonNegativeSlice(headlines, start, start + perPage);
  }

  /** Keeps the solver from searching for the sign of the page's start itself. */
  lemma NonNegativeProduct(a: nat, b: nat)
    ensures a * b >= 0
  {
  }

  /** The first `k` pages, put together, are the first `k * perPage` headlines:
      consecutive pages neither overlap nor leave gaps. */
  lemma {:induction false} PagesTile<T>(headlines: seq<T>, perPage: int, k: nat)
    requires perPage >= 1
    ensures Pages(headlines, perPage, k) == headlines[..Min(k * perPage, |headlines|)]
  {
    if k > 0 {
      PagesTile(headlines, perPage, k - 1);
      NextPageFollows(headlines, perPage, k, Pages(headlines, perPage, k - 1));
    }
  }

  /** Page `k` continues the first `k - 1` pages exactly where they end. */
  lemma NextPageFollows<T>(headlines: seq<T>, perPage: int, k: nat, before: seq<T>)
    requires perPage >= 1 && k >= 1
    requires before == headlines[..Min((k - 1) * perPage, |headlines|)]
    ensures before + Window(headlines, k, perPage) == headlines[..Min(k * perPage, |headlines|)]
  {
    var n := |headlines|;
    var a, b := Min((k - 1) * perPage, n), Min(k * perPage, n);
    NextPageStart(k, perPage);
    assert Window(headlines, k, perPage) == headlines[a..b] by {
      WindowIsPage(headlines, k, perPage);
    }
    Adjacent(headlines, a, b);
  }

  /** Two adjacent slices of a prefix make up the longer prefix. */
  lemma Adjacent<T>(s: seq<T>, a: nat, b: nat)
    requires a <= b <= |s|
    ensures s[..a] + s[a..b] == s[..b]
  {
  }

  /** Page `k` ends where page `k + 1` starts. */
  lemma NextPageStart(k: nat, perPage: int)
    requires k >= 1
    ensures (k - 1) * perPage + perPage == k * perPage
  {
  }

  /** Pages 1 to `k` concatenated. */
  function Pages<T>(headlines: seq<T>, perPage: int, k: nat): seq<T>
  {
    if k == 0 then [] else Pages(headlines, perPage, k - 1) + Window(headlines, k, perPage)
  }

  /** Page 0 is accepted and is always empty, whatever `perPage` is: its end
      bound is 0. */
  lemma PageZeroIsEmpty<T>(headlines: seq<T>, perPage: int)
    ensures Window(headlines, 0, perPage) == []
  {
  }

  /** A negative `per_page` on page 1 is accepted too: the slice `[0:per_page]`
      drops the last `-per_page` headlines (all of them when there are fewer)
      instead of being rejected. */
  lemma NegativePerPageDropsTail<T>(headlines: seq<T>, perPage: int)
    requires perPage < 0
    ensures Window(headlines, 1, perPage) ==
            if -perPage <= |headlines| then headlines[..|headlines| + perPage] else []
  {
  }
}
