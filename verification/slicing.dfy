/**
 Python list slicing `xs[lo:hi]` (step omitted) and the fixed-size pages the
 socket server cuts out of a filtered directory with it.
 */
module Slicing {

  /** Number of accounts per page of a directory listing (`ACCOUNT_PAGE_SIZE`). */
  const PageSize: nat := 4

  function Min(a: int, b: int): int {
    if a <= b then a else b
  }

  function Max(a: int, b: int): int {
    if a <= b then b else a
  }

  /** Python's normalisation of one slice bound against a sequence of length `n`:
      a negative bound counts from the end, and the result is clamped to `[0, n]`. */
  function Bound(i: int, n: nat): (k: nat)
    ensures k <= n
    ensures 0 <= i <= n ==> k == i
    ensures n <= i ==> k == n
    ensures i < 0 && 0 <= i + n ==> k == i + n
    ensures i + n < 0 ==> k == 0
  {
    if i < 0 then (if i + n < 0 then 0 else i + n)
    else if i > n then n
    else i
  }

  /** `s[lo:hi]`: the elements between the normalised bounds, empty when they cross. */
  function Slice<T>(s: seq<T>, lo: int, hi: int): (r: seq<T>)
    ensures |r| <= |s|
    ensures lo <= hi ==> |r| <= hi - lo
    ensures 0 <= lo <= hi ==> r == s[Min(lo, |s|)..Min(hi, |s|)]
    ensures 0 <= lo && |s| <= lo ==> r == []
    ensures hi <= lo && (0 <= hi || lo < 0) ==> r == []
    ensures hi < 0 <= lo ==> r == s[Min(lo, |s|)..Max(Min(lo, |s|), |s| + hi)]
    ensures lo <= hi < 0 ==> r == s[Max(|s| + lo, 0)..Max(|s| + hi, 0)]
    ensures lo < 0 <= hi ==> r == s[Min(Max(|s| + lo, 0), Min(hi, |s|))..Min(hi, |s|)]
  {
    var a := Bound(lo, |s|);
    var b := Bound(hi, |s|);
    if a < b then s[a..b] else []
  }

  /** Page number `page` of `xs`: `xs[page * 4 : (page + 1) * 4]`. */
  function Page<T>(xs: seq<T>, page: int): (r: seq<T>)
    ensures |r| <= PageSize
    ensures 0 <= page ==> r == xs[Min(page * PageSize, |xs|)..Min(page * PageSize + PageSize, |xs|)]
    ensures 0 <= page && |xs| <= page * PageSize ==> r == []
    ensures page == -1 ==> r == []
    ensures page < -1 ==> r == xs[Max(|xs| + page * PageSize, 0)..Max(|xs| + (page + 1) * PageSize, 0)]
  {
    Slice(xs, page * PageSize, (page + 1) * PageSize)
  }

  /** Pages `0 .. k-1` of `xs`, laid end to end. */
  function FirstPages<T>(xs: seq<T>, k: nat): seq<T> {
    if k == 0 then [] else FirstPages(xs, k - 1) + Page(xs, k - 1)
  }

  /** The first `k` pages are exactly the first `4 * k` elements: pages neither
      overlap, skip nor reorder anything. */
  lemma {:induction false} FirstPagesArePrefix<T>(xs: seq<T>, k: nat)
    ensures FirstPages(xs, k) == xs[..Min(k * PageSize, |xs|)]
  {
    if k > 0 {
      FirstPagesArePrefix(xs, k - 1);
      var a := Min((k - 1) * PageSize, |xs|);
      var b := Min(k * PageSize, |xs|);
      assert Page(xs, k - 1) == xs[a..b];
      assert xs[..a] + xs[a..b] == xs[..b];
    }
  }

  /** Enough pages reproduce the whole sequence. */
  lemma PagesCoverAll<T>(xs: seq<T>, k: nat)
    requires |xs| <= k * PageSize
    ensures FirstPages(xs, k) == xs
  {
    FirstPagesArePrefix(xs, k);
  }
}
