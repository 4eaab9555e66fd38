/** How many numbered sub-pages one alphabetical bucket has, and which of them
    are fetched after the first. */
module Pagination {
  import opened Wrappers
  import opened Text

  /** Pagination links are the links whose target mentions this word. */
  const PageMarker: string := "page"

  /** The targets, in document order, of the links whose target contains pat
      (`findAll(href=re.compile(pat))`). */
  function LinksMatching(hrefs: seq<string>, pat: string): (r: seq<string>)
    ensures |r| <= |hrefs|
    ensures forall i :: 0 <= i < |r| ==> Contains(r[i], pat)
    ensures forall x :: x in r <==> x in hrefs && Contains(x, pat)
  {
    if hrefs == [] then []
    else (if Contains(hrefs[0], pat) then [hrefs[0]] else []) + LinksMatching(hrefs[1..], pat)
  }

  /** Filtering works piecewise, so the matching links keep their document order. */
  lemma {:induction false} LinksMatchingConcat(a: seq<string>, b: seq<string>, pat: string)
    ensures LinksMatching(a + b, pat) == LinksMatching(a, pat) + LinksMatching(b, pat)
  {
    if a == [] {
      assert a + b == b;
    } else {
      assert (a + b)[0] == a[0];
      assert (a + b)[1..] == a[1..] + b;
      LinksMatchingConcat(a[1..], b, pat);
    }
  }

  /** The number of sub-pages of a listing page whose link targets are hrefs:
      1 when no target mentions "page"; otherwise the value of the first run
      of digits in the LAST such target, and an error (Python's IndexError)
      when that target has no digit at all. */
  function PageCount(hrefs: seq<string>): (r: Result<nat, string>)
    ensures LinksMatching(hrefs, PageMarker) == [] ==> r == Success(1)
    ensures
      var pages := LinksMatching(hrefs, PageMarker);
      pages != [] ==>
        var last := pages[|pages| - 1];
        && (r.Failure? <==> forall j :: 0 <= j < |last| ==> !IsDigit(last[j]))
        && (r.Failure? ==> r.error == last)
        && (r.Success? ==> exists a, b :: IsFirstDigitRun(last, a, b) && r.value == DecimalValue(last[a..b]))
  {
    var pages := LinksMatching(hrefs, PageMarker);
    if |pages| > 0 then
      var last := pages[|pages| - 1];
      match FirstDigitRun(last)
      case None => Failure(last)
      case Some((a, b)) => Success(DecimalValue(last[a..b]))
    else
      Success(1)
  }

  /** The sub-page numbers fetched after the first page: `range(2, n + 1)`. */
  function LaterPages(n: nat): (r: seq<nat>)
    ensures |r| == if n >= 2 then n - 1 else 0
    ensures forall i :: 0 <= i < |r| ==> r[i] == i + 2
  {
    if n < 2 then [] else LaterPages(n - 1) + [n]
  }
}
