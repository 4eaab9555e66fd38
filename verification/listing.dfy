/** The fields the listing parser derives from one row of an alphabetical
    listing page: the release year, the cleaned domestic gross and the
    display name under which the movie is registered. */
module Listing {
  import opened Wrappers
  import opened Text
  import opened Document

  // ---------------------------------------------------------------------------
  // Release year
  // ---------------------------------------------------------------------------

  /** Links to a release date carry this in their target. */
  const DateMarker: string := "date="
  /** Links to a not-yet-fixed release year carry this in their target. */
  const YearMarker: string := "yr="
  /** The date column is the seventh cell of a row. */
  const DateColumn: nat := 6

  /** The year of a row: the first four digits of its date text, kept as
      text, or the integer 0 when the date text has no four digits in a row. */
  datatype Year = YearText(digits: string) | NoYear

  /** Index of the first link whose target contains pat (`find(href=re.compile(pat))`). */
  function FirstLinkWith(links: seq<Link>, pat: string): (r: Option<nat>)
    ensures r.Some? ==> r.value < |links| && Contains(links[r.value].href, pat)
    ensures r.Some? ==> forall j :: 0 <= j < r.value ==> !Contains(links[j].href, pat)
    ensures r.None? <==> forall j :: 0 <= j < |links| ==> !Contains(links[j].href, pat)
  {
    if links == [] then None
    else if Contains(links[0].href, pat) then Some(0)
    else
      match FirstLinkWith(links[1..], pat)
      case None => None
      case Some(k) => Some(k + 1)
  }

  /** The date text of the date column: the contents of its first `date=`
      link; failing that, the fifth '='-separated piece of the markup of its
      first `yr=` link, which raises when the markup has fewer than four '=';
      failing that, the contents of the cell itself. */
  function DateText(col: Cell): (r: Result<string, Cause>)
    ensures var d := FirstLinkWith(col.links, DateMarker);
      d.Some? ==> r == Success(col.links[d.value].text)
    ensures var d, y := FirstLinkWith(col.links, DateMarker), FirstLinkWith(col.links, YearMarker);
      d.None? && y.Some? ==>
        var markup := col.links[y.value].markup;
        && (r.Success? <==> Count(markup, '=') >= 4)
        && (r.Success? ==> |Split(markup, '=')| >= 5 && r.value == Split(markup, '=')[4] && '=' !in r.value)
        && (r.Failure? ==> r.error == ShortYearLink(markup))
    ensures (forall i :: 0 <= i < |col.links| ==> !Contains(col.links[i].href, DateMarker) && !Contains(col.links[i].href, YearMarker))
      ==> r == Success(col.text)
  {
    match FirstLinkWith(col.links, DateMarker)
    case Some(d) => Success(col.links[d].text)
    case None =>
      match FirstLinkWith(col.links, YearMarker)
      case Some(y) =>
        var markup := col.links[y].markup;
        var pieces := Split(markup, '=');
        SplitCount(markup, '=');
        SplitPiecesFree(markup, '=');
        if |pieces| >= 5 then Success(pieces[4]) else Failure(ShortYearLink(markup))
      case None => Success(col.text)
  }

  /** s[i..i + 4] is the leftmost run of four digits in s. */
  ghost predicate IsFirstYearAt(s: string, i: int) {
    FourDigitsAt(s, i) && forall j :: 0 <= j < i ==> !FourDigitsAt(s, j)
  }

  /** The year of a date text: the first match of `[0-9]{4}`, or 0. */
  function YearOf(date: string): (y: Year)
    ensures y.YearText? <==> exists i :: FourDigitsAt(date, i)
    ensures y.YearText? ==> |y.digits| == 4 && AllDigits(y.digits)
    ensures y.YearText? ==> exists i :: IsFirstYearAt(date, i) && y.digits == date[i..i + 4]
  {
    match FirstFourDigits(date)
    case None => NoYear
    case Some(i) =>
      assert IsFirstYearAt(date, i);
      YearText(date[i..i + 4])
  }

  // ---------------------------------------------------------------------------
  // Domestic gross
  // ---------------------------------------------------------------------------

  /** The characters the domestic gross cell is cleaned of. */
  predicate IsGrossNoise(c: char) {
    c == '*' || c == '$' || c == ','
  }

  /** The cell text with every '*', '$' and ',' deleted, one character class
      after the other. */
  function CleanGross(s: string): (r: string)
    ensures |r| <= |s|
    ensures forall x :: x in r ==> x in s && !IsGrossNoise(x)
  {
    var noStars := RemoveChar(s, '*');
    var noDollars := RemoveChar(noStars, '$');
    RemoveCharSubset(s, '*');
    RemoveCharSubset(noStars, '$');
    RemoveCharSubset(noDollars, ',');
    RemoveChar(noDollars, ',')
  }

  /** Cleaning keeps a character exactly when it is not noise. */
  lemma CleanGrossChar(c: char)
    ensures CleanGross([c]) == if IsGrossNoise(c) then [] else [c]
  {
    assert [c][1..] == [];
  }

  /** Cleaning works piecewise; with CleanGrossChar this says the result is
      the input with the noise filtered out and every other character kept,
      in order. */
  lemma CleanGrossConcat(a: string, b: string)
    ensures CleanGross(a + b) == CleanGross(a) + CleanGross(b)
  {
    RemoveCharConcat(a, b, '*');
    RemoveCharConcat(RemoveChar(a, '*'), RemoveChar(b, '*'), '$');
    RemoveCharConcat(RemoveChar(RemoveChar(a, '*'), '$'), RemoveChar(RemoveChar(b, '*'), '$'), ',');
  }

  /** The cleaned text that stands for an unknown gross. */
  const NotAvailable: string := "n/a"

  /** The domestic gross of a row from its third cell: 0 for "n/a", otherwise
      the cleaned text read as a number; an unreadable number raises. */
  function GrossUsa(cell: string): (r: Result<real, Cause>)
    ensures CleanGross(cell) == NotAvailable ==> r == Success(0.0)
    ensures r.Success? <==> CleanGross(cell) == NotAvailable || IsDecimalLiteral(CleanGross(cell))
    ensures r.Success? && CleanGross(cell) != NotAvailable ==> Some(r.value) == ParseDecimal(CleanGross(cell))
    ensures r.Failure? ==> r.error == BadNumber(CleanGross(cell))
  {
    var g := CleanGross(cell);
    if g == NotAvailable then Success(0.0)
    else
      match ParseDecimal(g)
      case None => Failure(BadNumber(g))
      case Some(v) => Success(v)
  }

  /** Digits grouped in threes from the right with commas, as the site
      prints a dollar amount. */
  function GroupThousands(ds: string): string
  {
    if |ds| <= 3 then ds else GroupThousands(ds[..|ds| - 3]) + "," + ds[|ds| - 3..]
  }

  /** The site's rendering of a whole-dollar gross, optionally starred. */
  function DollarText(n: nat, starred: bool): string {
    "$" + GroupThousands(NatToString(n)) + (if starred then "*" else "")
  }

  lemma {:induction false} CleanGroupedDigits(ds: string)
    requires AllDigits(ds)
    ensures CleanGross(GroupThousands(ds)) == ds
    decreases |ds|
  {
    if |ds| <= 3 {
      CleanDigits(ds);
    } else {
      var hi, lo := ds[..|ds| - 3], ds[|ds| - 3..];
      assert AllDigits(hi) && AllDigits(lo) by {
        assert forall i :: 0 <= i < |hi| ==> hi[i] == ds[i];
        assert forall i :: 0 <= i < |lo| ==> lo[i] == ds[|ds| - 3 + i];
      }
      var g := GroupThousands(hi);
      assert GroupThousands(ds) == g + "," + lo;
      assert CleanGross(g) == hi by {
        CleanGroupedDigits(hi);
      }
      assert CleanGross(g + ",") == hi by {
        CleanGrossConcat(g, ",");
        CleanGrossChar(',');
      }
      assert CleanGross(lo) == lo by {
        CleanDigits(lo);
      }
      assert CleanGross(g + "," + lo) == hi + lo by {
        CleanGrossConcat(g + ",", lo);
      }
      assert hi + lo == ds;
    }
  }

  lemma {:induction false} CleanDigits(ds: string)
    requires AllDigits(ds)
    ensures CleanGross(ds) == ds
  {
    if ds != [] {
      assert ds == [ds[0]] + ds[1..];
      CleanGrossConcat([ds[0]], ds[1..]);
      CleanGrossChar(ds[0]);
      CleanDigits(ds[1..]);
    }
  }

  /** Reading a gross the way the site prints it gives the amount back:
      "$1,234,567*" reads as 1234567. */
  lemma GrossUsaOfDollarText(n: nat, starred: bool)
    ensures GrossUsa(DollarText(n, starred)) == Success(n as real)
  {
    var ds := NatToString(n);
    var g := GroupThousands(ds);
    var tail := if starred then "*" else "";
    assert CleanGross(tail) == [] by {
      CleanGrossChar('*');
    }
    assert CleanGross("$" + g) == ds by {
      CleanGrossConcat("$", g);
      CleanGrossChar('$');
      CleanGroupedDigits(ds);
    }
    assert CleanGross(DollarText(n, starred)) == ds by {
      CleanGrossConcat("$" + g, tail);
    }
    assert ds != NotAvailable by {
      assert IsDigit(ds[0]);
    }
    ParseDecimalOfNumeral(n);
  }

  // ---------------------------------------------------------------------------
  // Display name
  // ---------------------------------------------------------------------------

  /** The k-th name tried for a link whose rendered text is raw: first the
      text with its double quotes removed, then the UNSTRIPPED text followed
      by " (k)" for k = 1, 2, ... */
  function Candidate(raw: string, k: nat): (name: string)
    ensures k == 0 ==> '"' !in name && |name| <= |raw|
    ensures k >= 1 ==> |name| > |raw| + 3 && raw <= name
  {
    if k == 0 then RemoveChar(raw, '"') else raw + " (" + NatToString(k) + ")"
  }

  /** The suffixed candidates are pairwise distinct, and all differ from the
      first one, which is shorter than any of them. */
  lemma CandidatesDistinct(raw: string, j: nat, k: nat)
    ensures Candidate(raw, j) == Candidate(raw, k) ==> j == k
  {
    if j == 0 || k == 0 {
      assert |Candidate(raw, 0)| <= |raw|;
    } else if Candidate(raw, j) == Candidate(raw, k) {
      var p := raw + " (";
      var sj, sk := NatToString(j), NatToString(k);
      assert Candidate(raw, j) == p + sj + ")";
      assert Candidate(raw, k) == p + sk + ")";
      assert |sj| == |sk|;
      assert sj == Candidate(raw, j)[|p|..|p| + |sj|];
      assert sk == Candidate(raw, k)[|p|..|p| + |sk|];
      NatToStringInjective(j, k);
    }
  }

  /** The suffixed candidates tried before the k-th. */
  ghost function Tried(raw: string, k: nat): set<string> {
    set j | 1 <= j < k :: Candidate(raw, j)
  }

  lemma TriedGrows(raw: string, keys: set<string>, k: nat)
    requires k >= 1 && Candidate(raw, k) in keys
    ensures |keys - Tried(raw, k + 1)| == |keys - Tried(raw, k)| - 1
  {
    assert Tried(raw, k + 1) == Tried(raw, k) + {Candidate(raw, k)};
    forall j | 1 <= j < k
      ensures Candidate(raw, j) != Candidate(raw, k)
    {
      CandidatesDistinct(raw, j, k);
    }
    assert keys - Tried(raw, k + 1) == (keys - Tried(raw, k)) - {Candidate(raw, k)};
  }

  /** The first candidate is never among the suffixed ones. */
  lemma FirstNeverTried(raw: string, k: nat)
    ensures Candidate(raw, 0) !in Tried(raw, k)
  {
    forall j | 1 <= j < k
      ensures Candidate(raw, j) != Candidate(raw, 0)
    {
      CandidatesDistinct(raw, j, 0);
    }
  }

  /** The renaming loop from its k-th round on: returns the first candidate
      index from k on whose name is not taken.  It stops because every taken
      candidate uses up one of the finitely many keys. */
  function ProbeFrom(raw: string, keys: set<string>, k: nat): (r: nat)
    requires k >= 1
    requires forall j :: 0 <= j < k ==> Candidate(raw, j) in keys
    ensures r >= k
    ensures Candidate(raw, r) !in keys
    ensures forall j :: 0 <= j < r ==> Candidate(raw, j) in keys
    ensures r - k < |keys - Tried(raw, k)|
    decreases |keys - Tried(raw, k)|
  {
    FirstNeverTried(raw, k);
    assert Candidate(raw, 0) in keys - Tried(raw, k);
    if Candidate(raw, k) !in keys then k
    else
      TriedGrows(raw, keys, k);
      ProbeFrom(raw, keys, k + 1)
  }

  /** The number of renaming rounds: the least k whose candidate is not taken,
      never more than the number of taken names. */
  function FreshIndex(raw: string, keys: set<string>): (k: nat)
    ensures Candidate(raw, k) !in keys
    ensures forall j :: 0 <= j < k ==> Candidate(raw, j) in keys
    ensures k <= |keys|
  {
    if Candidate(raw, 0) !in keys then 0
    else
      assert Tried(raw, 1) == {};
      ProbeFrom(raw, keys, 1)
  }

  /** The display name chosen for a link with rendered text raw when the
      names in `taken` are in use. */
  function ChooseName(raw: string, taken: set<string>): (name: string)
    ensures name !in taken
    ensures exists k :: (0 <= k <= |taken| && name == Candidate(raw, k)
      && forall j :: 0 <= j < k ==> Candidate(raw, j) in taken)
  {
    Candidate(raw, FreshIndex(raw, taken))
  }

  /** The chosen name is unique: it is the only candidate that is free while
      every earlier candidate is taken. */
  lemma ChooseNameIsFirstFree(raw: string, taken: set<string>, k: nat)
    requires Candidate(raw, k) !in taken
    requires forall j :: 0 <= j < k ==> Candidate(raw, j) in taken
    ensures ChooseName(raw, taken) == Candidate(raw, k)
  {
  }

  /** Only the first candidate has its double quotes removed: a suffixed name
      keeps every double quote of the rendered text. */
  lemma SuffixedNamesKeepQuotes(raw: string, k: nat)
    requires k >= 1
    ensures '"' !in Candidate(raw, 0)
    ensures '"' in raw ==> '"' in Candidate(raw, k)
  {
    if '"' in raw {
      var i :| 0 <= i < |raw| && raw[i] == '"';
      assert Candidate(raw, k)[i] == '"';
    }
  }
}
