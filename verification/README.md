# BoxOfficeMojo listing parser — a Dafny model

This project models the core of the `BoxOfficeMojo` client in
`boxofficemojoAPI/boxofficemojo.py`. The client crawls the alphabetical
movie listings of the Box Office Mojo site. It visits the symbol bucket and
then one bucket per capital letter, and works out how many sub-pages each
bucket has. For every movie link after the first (advertisement) link of a
page, it derives:

- the release year from the date column;
- a display name, disambiguated with " (k)" suffixes;
- the movie id from the link target;
- the domestic gross from the third cell;
- the genre and the foreign and Mexico grosses from two detail pages.

It registers the id under the display name in `movie_urls`, files the
record under the name in `movie_info`, and appends one CSV row.

The model is split into modules that follow the client's structure:

| module | what it holds |
|---|---|
| `Wrappers` | `Option` and `Result` (the `:-` error propagation) |
| `Text` | the string primitives the client relies on: digit runs (`\d+`, `[0-9]{4}`), substring search (`re.compile(p)` used as a search), `str.replace(c, '')`, `str.split('=')`, `str(n)` and `float(s)` on numerals |
| `Buckets` | the crawl order built by the constructor |
| `Pagination` | `find_number_of_pages` and the sub-page range of `load_movies` |
| `Document` | the parsed-HTML inputs: links, cells, listing entries, detail pages, and the causes of a raised exception |
| `Listing` | the per-row field derivation of `find_info`: date text, year, gross cleaning, display name |
| `Detail` | `get_gross_foreign` and `get_genre` on an already fetched page |
| `Registry` | the client's state and its transitions per row and per page (`find_info`), and the invariant linking `movie_urls`, `movie_info` and the CSV rows |
| `Crawl` | `load_movies`: the buckets in order, each with its page count, its first page and pages 2 to n |

An exception is modelled as a value:

- Each row yields a `Read`.
- Each page or crawl yields a `Step`: the state reached, plus the error that stopped it, if any.
- A row that raises after line 79 leaves its id registered in the state it returns, exactly as the mutable client does.

Inputs from outside the parser are fields of an `Env` value:

- the matches of the id regular expression in a link target;
- the fetched main page of a movie id;
- the fetched Mexico gross page of a movie id.

The listing pages are the fields of a `Crawl.Site` value. The first page of a bucket is absent when its status was not 200; that bucket is skipped. Page k of a bucket, for k from 2 on, is always present, because the client parses it whatever its status.

Behaviour of the code worth knowing:

- Display names are checked for freshness against the KEYS of `movie_urls`, which are movie ids, not names (line 71). So two different movies with the same title share one `movie_info` entry; the later one overwrites it while both CSV rows are written. `Registry.TitleClashOverwrites` and `Registry.SameTitleSharesOneRecord` state this.
- Only the first candidate name has its double quotes removed. The suffixed names of line 72 use the raw link text (`Listing.SuffixedNamesKeepQuotes`).
- `find_number_of_pages` returns the value of the leftmost digit run in the target of the last link whose target mentions "page" (lines 30-32). That run need not be the page number, and it can be 0, so the count is not always at least 1.
- A page with no `id=` link at all raises at `del(urls[0])` (line 47). This is `Error.NoMovieLinks`.
- A row whose detail lookups raise has already been registered in `movie_urls` (line 79 runs before lines 80-83).

## Model

| member | source | states |
|---|---|---|
| Buckets.Letters | boxofficemojoAPI/boxofficemojo.py:22-24 | builds 27 buckets: "NUM" first, then the one-character string chr(64+i) at index i, which is exactly the list "NUM", "A" … "Z" |
| Buckets.CrawlOrderDistinct | boxofficemojoAPI/boxofficemojo.py:22-24 | the bucket names are pairwise distinct |
| Pagination.LinksMatching | boxofficemojoAPI/boxofficemojo.py:28 | the selected link targets are exactly those containing the pattern, each containing it |
| Pagination.LinksMatchingConcat | boxofficemojoAPI/boxofficemojo.py:28 | selection distributes over concatenation, so document order is kept |
| Pagination.PageCount | boxofficemojoAPI/boxofficemojo.py:26-34 | 1 when no target mentions "page"; otherwise it fails exactly when the last such target has no digit, and on success it is the value of the leftmost digit run of that target |
| Pagination.LaterPages | boxofficemojoAPI/boxofficemojo.py:110 | the sub-pages fetched after the first are 2, 3, …, n in order, n-1 of them (none when n < 2) |
| Text.DecimalValue | boxofficemojoAPI/boxofficemojo.py:32 | `int()` of a numeral of n digits is below 10^n |
| Text.DecimalRoundTrip | boxofficemojoAPI/boxofficemojo.py:72 | reading back the decimal text of a number (`str(suffix)`) gives the number |
| Text.NatToString | boxofficemojoAPI/boxofficemojo.py:72 | the decimal text of a number is a non-empty digit string with a leading zero only for 0 |
| Text.NatToStringInjective | boxofficemojoAPI/boxofficemojo.py:72 | different numbers have different decimal texts |
| Text.ContainsIffOccurs | boxofficemojoAPI/boxofficemojo.py:28 | a pattern search succeeds exactly when the pattern occurs at some index |
| Text.RemoveChar | boxofficemojoAPI/boxofficemojo.py:69 | `replace(c, '')` leaves no c and never lengthens the text |
| Text.RemoveCharSubset | boxofficemojoAPI/boxofficemojo.py:69 | every character kept by the removal was in the input |
| Text.RemoveCharCounts | boxofficemojoAPI/boxofficemojo.py:69 | the removal shortens the text by exactly the number of occurrences of c |
| Text.RemoveCharNoOccurrence | boxofficemojoAPI/boxofficemojo.py:69 | removing a character that does not occur leaves the text unchanged |
| Text.RemoveCharConcat | boxofficemojoAPI/boxofficemojo.py:81 | removal works piecewise over concatenation |
| Text.Split | boxofficemojoAPI/boxofficemojo.py:63 | `split` yields at least one piece |
| Text.SplitCount | boxofficemojoAPI/boxofficemojo.py:63 | `split` yields one more piece than there are separators |
| Text.SplitPiecesFree | boxofficemojoAPI/boxofficemojo.py:63 | no piece contains the separator |
| Text.SplitJoin | boxofficemojoAPI/boxofficemojo.py:63 | joining the pieces with the separator gives the text back |
| Text.FirstDigitRunUnique | boxofficemojoAPI/boxofficemojo.py:31 | the leftmost maximal digit run of a text is unique |
| Text.FirstDigitRun | boxofficemojoAPI/boxofficemojo.py:31 | `re.findall("\d+", s)[0]`: found exactly when s has a digit, and then it is the leftmost maximal digit run |
| Text.FirstFourDigits | boxofficemojoAPI/boxofficemojo.py:66-67 | finds the leftmost index starting four digits, and fails exactly when there is none |
| Text.ParseDecimal | boxofficemojoAPI/boxofficemojo.py:82 | `float` on a numeral: it succeeds exactly on digits with at most one point and at least one digit, giving a non-negative value, and a digit string reads as its decimal value |
| Text.ParseDecimalValue | boxofficemojoAPI/boxofficemojo.py:82 | a literal with a point reads as its whole part plus its fraction part scaled by the fraction's length |
| Text.ParseDecimalOfNumeral | boxofficemojoAPI/boxofficemojo.py:82 | a digit string reads as its own value |
| Listing.FirstLinkWith | boxofficemojoAPI/boxofficemojo.py:58-59 | `find(href=…)`: the first link whose target contains the pattern, or none exactly when no target does |
| Listing.DateText | boxofficemojoAPI/boxofficemojo.py:57-65 | the first `date=` link's text; else the fifth '='-piece of the first `yr=` link's markup, failing exactly when the markup has fewer than four '='; else the cell's text |
| Listing.YearOf | boxofficemojoAPI/boxofficemojo.py:66-67 | a year exactly when the date has four digits in a row, and then it is the leftmost such run, otherwise 0 |
| Listing.CleanGross | boxofficemojoAPI/boxofficemojo.py:81 | the cleaned gross holds no '*', '$' or ',' and only characters of the cell |
| Listing.CleanGrossChar | boxofficemojoAPI/boxofficemojo.py:81 | a single character is kept exactly when it is not one of '*', '$', ',' |
| Listing.CleanGrossConcat | boxofficemojoAPI/boxofficemojo.py:81 | cleaning works piecewise, so it is the filter that keeps every other character in order |
| Listing.GrossUsa | boxofficemojoAPI/boxofficemojo.py:81-82 | 0 for "n/a"; otherwise the cleaned text read as a number, failing exactly when it is not a numeral |
| Listing.GrossUsaOfDollarText | boxofficemojoAPI/boxofficemojo.py:81-82 | a gross printed as "$1,234,567", starred or not, reads back as the amount |
| Listing.CleanGroupedDigits | boxofficemojoAPI/boxofficemojo.py:81 | removing the thousands commas of a grouped digit string gives the digits back |
| Listing.CleanDigits | boxofficemojoAPI/boxofficemojo.py:81 | cleaning leaves a digit string unchanged |
| Listing.Candidate | boxofficemojoAPI/boxofficemojo.py:69-72 | the first name tried is the link text with its double quotes removed, so no longer than it; every later one starts with the whole unstripped text and is at least four characters longer (the " (k)" suffix) |
| Listing.CandidatesDistinct | boxofficemojoAPI/boxofficemojo.py:69-73 | the names tried by the renaming loop are pairwise distinct |
| Listing.TriedGrows | boxofficemojoAPI/boxofficemojo.py:71-73 | each taken suffixed name uses up one taken key, which is why the loop stops |
| Listing.FirstNeverTried | boxofficemojoAPI/boxofficemojo.py:69-72 | the quote-stripped name is never one of the suffixed names |
| Listing.ProbeFrom | boxofficemojoAPI/boxofficemojo.py:71-73 | the renaming loop from round k stops at the first free candidate, having found every earlier one taken |
| Listing.FreshIndex | boxofficemojoAPI/boxofficemojo.py:69-73 | the number of renaming rounds is the least index of a free candidate, at most the number of keys |
| Listing.ChooseName | boxofficemojoAPI/boxofficemojo.py:69-73 | the chosen name is not taken and is the first free candidate |
| Listing.ChooseNameIsFirstFree | boxofficemojoAPI/boxofficemojo.py:69-73 | any free candidate whose predecessors are all taken is the chosen name |
| Listing.SuffixedNamesKeepQuotes | boxofficemojoAPI/boxofficemojo.py:69-72 | the plain name has no double quote, but a suffixed name keeps those of the link text |
| Detail.Mentions | boxofficemojoAPI/boxofficemojo.py:127-129 | a page mentions a word exactly when the word occurs at some position of one of its text nodes |
| Detail.ReadAmount | boxofficemojoAPI/boxofficemojo.py:130-132 | a missing label raises; otherwise it succeeds exactly when the labelled value is a numeral, and gives its value |
| Detail.GrossForeign | boxofficemojoAPI/boxofficemojo.py:123-137 | (0, 0) without a page or without "Mexico"; otherwise the foreign and country amounts, failing exactly when one of them cannot be read, with the foreign error if that amount fails and otherwise the country error |
| Detail.Genre | boxofficemojoAPI/boxofficemojo.py:141-153 | "" without a page or without "Genre"; otherwise the labelled genre, failing exactly when the label is missing |
| Registry.Init | boxofficemojoAPI/boxofficemojo.py:19-21 | the constructed client has empty registries, no rows and a zero count, and satisfies the registry invariant |
| Registry.YearField | boxofficemojoAPI/boxofficemojo.py:91 | the year column holds the year's digits as text, or the number 0 exactly when there was no year |
| Registry.CsvRow | boxofficemojoAPI/boxofficemojo.py:91 | a row has seven values, the name first and the id last |
| Registry.RowRoundTrip | boxofficemojoAPI/boxofficemojo.py:87-91 | the written row holds the whole record: reading it back gives the record |
| Registry.LastRowNamed | boxofficemojoAPI/boxofficemojo.py:91 | the last row found for a name carries that name |
| Registry.Describe | boxofficemojoAPI/boxofficemojo.py:80-89 | the record carries the id, name and year, the genre read, the domestic gross, the Mexico gross and the total as domestic plus foreign; it fails exactly when one of the three lookups fails, with the genre error first, then the domestic-gross error, then the foreign error |
| Registry.ReadRow | boxofficemojoAPI/boxofficemojo.py:55-78 | it raises exactly when the date column is missing or its `yr=` link is too short; otherwise a row is skipped exactly when its target has not exactly one id, and is claimed with that id and the first free name |
| Registry.ApplyRow | boxofficemojoAPI/boxofficemojo.py:76-91 | a claimed id is registered even when the record fails; a complete record is filed under its name, one row is appended, and no other record changes |
| Registry.ProcessRow | boxofficemojoAPI/boxofficemojo.py:53-94 | one row never loses a key, touches the records and output only on success, and writes at most one row |
| Registry.ProcessRowEffect | boxofficemojoAPI/boxofficemojo.py:57-91 | for a readable row with one id: the id is registered under the chosen name, and the row fails exactly when a lookup fails; on success the filed record and written row carry the derived fields and nothing else changes |
| Registry.ProcessRows | boxofficemojoAPI/boxofficemojo.py:53-94 | only a row error can stop a page; the count is kept, no key is lost, and the output only grows, by at most one row per link |
| Registry.ProcessRowsSplit | boxofficemojoAPI/boxofficemojo.py:53-94 | processing a + b is processing a, then b only when a did not raise |
| Registry.ProcessRowsStopsAtFailure | boxofficemojoAPI/boxofficemojo.py:92-94 | a page's error is that of one row, processed after every earlier row went through, and nothing after it runs |
| Registry.ProcessPage | boxofficemojoAPI/boxofficemojo.py:45-52 | a page without links raises; otherwise the movie count grows by the number of links minus the advertisement |
| Registry.ProcessPages | boxofficemojoAPI/boxofficemojo.py:109-117 | `find_info` over parsed pages in turn: only a page or row error stops it, no key is lost, the output only grows, and without an error it counts every link except each page's advertisement |
| Registry.ProcessPagesSplit | boxofficemojoAPI/boxofficemojo.py:109-117 | parsing pages a + b is parsing a, then b only when a did not raise |
| Registry.ProcessPagesStopsAtFailure | boxofficemojoAPI/boxofficemojo.py:109-117 | the error of a sequence of pages is that of one page, parsed after every earlier page went through |
| Registry.AdIsIgnored | boxofficemojoAPI/boxofficemojo.py:45-47 | the first link of a page has no effect on the result |
| Registry.LastRowNamedAppend | boxofficemojoAPI/boxofficemojo.py:91 | appending a row changes the last row of its own name only |
| Registry.ApplyRowConsistent | boxofficemojoAPI/boxofficemojo.py:76-91 | applying a read row keeps every record equal to the last row written under its name |
| Registry.ProcessRowConsistent | boxofficemojoAPI/boxofficemojo.py:53-94 | processing one row keeps the invariant, also when it raises |
| Registry.ProcessRowsConsistent | boxofficemojoAPI/boxofficemojo.py:53-94 | processing the rows of a page keeps the invariant |
| Registry.ProcessPageConsistent | boxofficemojoAPI/boxofficemojo.py:43-94 | processing a page keeps the invariant |
| Registry.ProcessPagesConsistent | boxofficemojoAPI/boxofficemojo.py:109-117 | parsing pages in turn keeps the invariant, including when it stops at a raising page |
| Registry.TitleClashOverwrites | boxofficemojoAPI/boxofficemojo.py:69-91 | a title that is not a registered id is used unsuffixed even if a record of that name exists, and the record is replaced |
| Registry.BareRowRead | boxofficemojoAPI/boxofficemojo.py:57-89 | a row with an "n/a" gross, no date and no detail pages is claimed under its title with an all-zero record |
| Registry.SameTitleSharesOneRecord | boxofficemojoAPI/boxofficemojo.py:71-91 | two movies with one title on a page register both ids under the title, write two rows, and keep only the second record |
| Crawl.NumberedPages | boxofficemojoAPI/boxofficemojo.py:110-117 | the k-th page parsed is the page numbered by the k-th number |
| Crawl.BucketPages | boxofficemojoAPI/boxofficemojo.py:108-117 | a bucket announcing n pages parses max(n, 1) pages: the first page, then page i + 1 in position i |
| Crawl.CrawlBucket | boxofficemojoAPI/boxofficemojo.py:101-117 | a bucket whose first page did not come back changes nothing; a first page whose last "page" link has no digit raises before any row is parsed; otherwise the bucket is its pages parsed in turn |
| Crawl.CrawlBuckets | boxofficemojoAPI/boxofficemojo.py:98-117 | buckets in turn never lose a key and only grow the output |
| Crawl.LoadMovies | boxofficemojoAPI/boxofficemojo.py:96-117 | the crawl over the crawl order never loses a key and only grows the output |
| Crawl.CrawlBucketsSplit | boxofficemojoAPI/boxofficemojo.py:98-117 | crawling buckets a + b is crawling a, then b only when a did not raise |
| Crawl.UnavailableBucketsChangeNothing | boxofficemojoAPI/boxofficemojo.py:103-105 | buckets whose first page did not come back leave the state unchanged |
| Crawl.CrawlBucketConsistent | boxofficemojoAPI/boxofficemojo.py:101-117 | one bucket keeps the registry invariant |
| Crawl.CrawlBucketsConsistent | boxofficemojoAPI/boxofficemojo.py:98-117 | buckets in turn keep the registry invariant |
| Crawl.LoadMoviesConsistent | boxofficemojoAPI/boxofficemojo.py:96-117 | a whole crawl from the constructed client keeps the registry invariant, whether it finishes or raises |

## Left out

- `clean_html` (lines 36-41) rewrites the parsed tree in a foreign HTML library; the model starts from the already-flattened cells, links and texts.
- HTTP requests, `time.sleep`, the progress and error prints and the timestamps are I/O. The status checks are modelled only through `Crawl.Site`: a first page with another status than 200 is absent and its bucket skipped; a later page is parsed whatever its status. A `requests.get` that raises is not caught by the client and ends the crawl; the model does not represent that exception.
- Building the URLs (lines 101, 111, 124, 142) is string formatting for I/O and is not modelled.
- The CSV file: the output is the sequence of rows appended during the run, with strings and numbers kept apart. Quoting, the file's previous contents and the `with` block are not modelled.
- The duplicate-name report at the end of `load_movies` (lines 119-120) only prints.
- `utils.catch_connection_error`, `utils.get_soup`, `movie.Gross` and `movie.Movie` are not part of this model. A fetched detail page is a list of text nodes plus the label-to-value map those classes produce, and a failed fetch is `None`.
- The id regular expression of line 76 is the `Env.idMatches` parameter: the model takes its list of matches as given.
- `Text.ParseDecimal`: accepts only digits with at most one point, so it is weaker than Python's `float`. It does not model signs, exponents, surrounding whitespace, "inf" or "nan", and it rejects text that `float` would accept.
- `Listing.GrossUsa`: inherits the narrower number syntax of `Text.ParseDecimal`.
- `Detail.ReadAmount`: reads `float()` of a labelled value with the narrower syntax of `Text.ParseDecimal`.
- `Detail.GrossForeign`: reads both amounts through `Detail.ReadAmount`, so it has the same narrower number syntax.
- Grosses are exact reals: floating-point rounding, and the difference between the int 0 and the float 0.0 in the written row, are not modelled.
- Digits are ASCII only: under Python 2, `re` matches `\d` as [0-9] unless `re.UNICODE` is given, and the client does not give it.
- `Pagination.PageCount`: converts the digit run with unbounded integers; Python's `int` is unbounded too, so nothing is lost.
