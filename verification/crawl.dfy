/** The crawl of `load_movies`: every alphabetical bucket in order, and for
    each bucket its first listing page, the page count read from it, and the
    numbered pages after it.  Fetching is not modelled: the crawl receives
    the parsed pages. */
module Crawl {
  import opened Wrappers
  import opened Document
  import opened Pagination
  import opened Buckets
  import opened Registry

  /** A fetched listing page once parsed: the targets of all its links, and
      its `id=` links in document order, each with its table row. */
  datatype ListingPage = ListingPage(hrefs: seq<string>, movies: seq<Entry>)

  /** The listing pages as the crawler receives them.  `first` gives the
      first page of a bucket, or None when that request came back with a
      status other than 200.  `page` gives page k of a bucket for k >= 2: it
      is parsed whatever its status. */
  datatype Site = Site(first: string -> Option<ListingPage>, page: (string, nat) -> ListingPage)

  /** The movie links of the numbered pages of a bucket, in the order given. */
  function NumberedPages(site: Site, letter: string, nums: seq<nat>): (r: seq<seq<Entry>>)
    ensures |r| == |nums|
    ensures forall i :: 0 <= i < |r| ==> r[i] == site.page(letter, nums[i]).movies
  {
    if nums == [] then [] else [site.page(letter, nums[0]).movies] + NumberedPages(site, letter, nums[1..])
  }

  /** The pages of a bucket whose first page announces n pages: the first
      page, then pages 2 to n. */
  function BucketPages(site: Site, letter: string, first: ListingPage, n: nat): (r: seq<seq<Entry>>)
    ensures |r| == if n >= 2 then n else 1
    ensures r[0] == first.movies
    ensures forall i :: 1 <= i < |r| ==> r[i] == site.page(letter, i + 1).movies
  {
    [first.movies] + NumberedPages(site, letter, LaterPages(n))
  }

  /** One bucket.  A first page that did not come back is skipped.
      Otherwise the page count is read from it before anything is parsed,
      then the first page is parsed, then pages 2 to n, stopping at the first
      page that raises. */
  function CrawlBucket(st: State, letter: string, site: Site, env: Env): (r: Step)
    ensures site.first(letter).None? ==> r == Step(st, None)
    ensures site.first(letter).Some? && PageCount(site.first(letter).value.hrefs).Failure? ==>
      r == Step(st, Some(NoPageNumber(PageCount(site.first(letter).value.hrefs).error)))
    ensures site.first(letter).Some? && PageCount(site.first(letter).value.hrefs).Success? ==>
      r == ProcessPages(st, BucketPages(site, letter, site.first(letter).value, PageCount(site.first(letter).value.hrefs).value), env)
    ensures st.urls.Keys <= r.state.urls.Keys && st.info.Keys <= r.state.info.Keys
    ensures st.output <= r.state.output
  {
    match site.first(letter)
    case None => Step(st, None)
    case Some(first) =>
      match PageCount(first.hrefs)
      case Failure(href) => Step(st, Some(NoPageNumber(href)))
      case Success(n) =>
        var later := NumberedPages(site, letter, LaterPages(n));
        assert ([first.movies] + later)[1..] == later;
        var s := ProcessPage(st, first.movies, env);
        if s.failure.Some? then s else ProcessPages(s.state, later, env)
  }

  /** The buckets in order, stopping at the first that raises. */
  function CrawlBuckets(st: State, letters: seq<string>, site: Site, env: Env): (r: Step)
    ensures st.urls.Keys <= r.state.urls.Keys && st.info.Keys <= r.state.info.Keys
    ensures st.output <= r.state.output
    decreases |letters|
  {
    if letters == [] then Step(st, None)
    else
      var s := CrawlBucket(st, letters[0], site, env);
      if s.failure.Some? then s else CrawlBuckets(s.state, letters[1..], site, env)
  }

  /** `load_movies`: every bucket of the crawl order. */
  function LoadMovies(st: State, site: Site, env: Env): (r: Step)
    ensures st.urls.Keys <= r.state.urls.Keys && st.info.Keys <= r.state.info.Keys
    ensures st.output <= r.state.output
  {
    CrawlBuckets(st, CrawlOrder, site, env)
  }

  /** A bucket that raises ends the crawl: later buckets are never fetched. */
  lemma {:induction false} CrawlBucketsSplit(st: State, a: seq<string>, b: seq<string>, site: Site, env: Env)
    ensures CrawlBuckets(st, a + b, site, env) ==
      var s := CrawlBuckets(st, a, site, env);
      if s.failure.Some? then s else CrawlBuckets(s.state, b, site, env)
    decreases |a|
  {
    if a == [] {
      assert a + b == b;
    } else {
      assert (a + b)[0] == a[0];
      assert (a + b)[1..] == a[1..] + b;
      var s := CrawlBucket(st, a[0], site, env);
      if s.failure.None? {
        CrawlBucketsSplit(s.state, a[1..], b, site, env);
      }
    }
  }

  /** Buckets whose first page never came back change nothing. */
  lemma {:induction false} UnavailableBucketsChangeNothing(st: State, letters: seq<string>, site: Site, env: Env)
    requires forall i :: 0 <= i < |letters| ==> site.first(letters[i]).None?
    ensures CrawlBuckets(st, letters, site, env) == Step(st, None)
    decreases |letters|
  {
    if letters != [] {
      UnavailableBucketsChangeNothing(st, letters[1..], site, env);
    }
  }

  lemma {:induction false} CrawlBucketConsistent(st: State, letter: string, site: Site, env: Env)
    requires Consistent(st)
    ensures Consistent(CrawlBucket(st, letter, site, env).state)
  {
    var first := site.first(letter);
    if first.Some? && PageCount(first.value.hrefs).Success? {
      ProcessPagesConsistent(st, BucketPages(site, letter, first.value, PageCount(first.value.hrefs).value), env);
    }
  }

  lemma {:induction false} CrawlBucketsConsistent(st: State, letters: seq<string>, site: Site, env: Env)
    requires Consistent(st)
    ensures Consistent(CrawlBuckets(st, letters, site, env).state)
    decreases |letters|
  {
    if letters != [] {
      CrawlBucketConsistent(st, letters[0], site, env);
      CrawlBucketsConsistent(CrawlBucket(st, letters[0], site, env).state, letters[1..], site, env);
    }
  }

  /** A whole crawl from the freshly constructed client keeps the registries
      and the output in agreement, whether it finishes or raises. */
  lemma LoadMoviesConsistent(site: Site, env: Env)
    ensures Consistent(LoadMovies(Init(), site, env).state)
  {
    CrawlBucketsConsistent(Init(), CrawlOrder, site, env);
  }
}
