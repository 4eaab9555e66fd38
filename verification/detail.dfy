/** The two per-movie detail lookups: the foreign and Mexico grosses from the
    movie's Mexico international-gross page, and the genre from its main page.
    Fetching is not modelled: each lookup receives the fetched page, or None
    when no document came back. */
module Detail {
  import opened Wrappers
  import opened Text
  import opened Document

  /** A Mexico gross page that mentions this word has figures for Mexico. */
  const MexicoMarker: string := "Mexico"
  /** A main page that mentions this word has a genre. */
  const GenreMarker: string := "Genre"

  const ForeignLabel: string := "Gross To Date Foreign"
  const CountryLabel: string := "Gross To Date Country"
  const GenreLabel: string := "Genre"

  /** Some text node of the page matches pat (`soup.find(text=re.compile(pat))`). */
  predicate Mentions(page: DetailPage, pat: string): (b: bool)
    ensures b <==> exists i, j :: 0 <= i < |page.texts| && OccursAt(page.texts[i], pat, j)
  {
    assert forall i :: 0 <= i < |page.texts| ==> (Contains(page.texts[i], pat) <==> exists j :: OccursAt(page.texts[i], pat, j)) by {
      forall i | 0 <= i < |page.texts|
        ensures Contains(page.texts[i], pat) <==> exists j :: OccursAt(page.texts[i], pat, j)
      {
        ContainsIffOccurs(page.texts[i], pat);
      }
    }
    exists i :: 0 <= i < |page.texts| && Contains(page.texts[i], pat)
  }

  /** `float(fields[lbl])`: a missing label raises KeyError, an unreadable
      value raises ValueError. */
  function ReadAmount(page: DetailPage, lbl: string): (r: Result<real, Cause>)
    ensures lbl !in page.fields ==> r == Failure(MissingField(lbl))
    ensures lbl in page.fields ==> (r.Success? <==> IsDecimalLiteral(page.fields[lbl]))
    ensures lbl in page.fields && r.Success? ==> ParseDecimal(page.fields[lbl]) == Some(r.value)
    ensures lbl in page.fields && r.Failure? ==> r.error == BadNumber(page.fields[lbl])
  {
    if lbl !in page.fields then Failure(MissingField(lbl))
    else
      match ParseDecimal(page.fields[lbl])
      case None => Failure(BadNumber(page.fields[lbl]))
      case Some(v) => Success(v)
  }

  /** The (foreign total, Mexico total) pair of a movie: (0, 0) when there is
      no page or the page never mentions Mexico; otherwise the two labelled
      amounts, read foreign first. */
  function GrossForeign(doc: Option<DetailPage>): (r: Result<(real, real), Cause>)
    ensures doc.None? ==> r == Success((0.0, 0.0))
    ensures doc.Some? && !Mentions(doc.value, MexicoMarker) ==> r == Success((0.0, 0.0))
    ensures doc.Some? && Mentions(doc.value, MexicoMarker) ==>
      && (r.Success? <==> ReadAmount(doc.value, ForeignLabel).Success? && ReadAmount(doc.value, CountryLabel).Success?)
      && (r.Success? ==> r.value == (ReadAmount(doc.value, ForeignLabel).value, ReadAmount(doc.value, CountryLabel).value))
      && (ReadAmount(doc.value, ForeignLabel).Failure? ==> r == Failure(ReadAmount(doc.value, ForeignLabel).error))
      && (ReadAmount(doc.value, ForeignLabel).Success? && ReadAmount(doc.value, CountryLabel).Failure? ==>
            r == Failure(ReadAmount(doc.value, CountryLabel).error))
    ensures r.Success? ==> r.value.0 >= 0.0 && r.value.1 >= 0.0
  {
    match doc
    case None => Success((0.0, 0.0))
    case Some(page) =>
      if Mentions(page, MexicoMarker) then
        var foreign :- ReadAmount(page, ForeignLabel);
        var mexico :- ReadAmount(page, CountryLabel);
        Success((foreign, mexico))
      else
        Success((0.0, 0.0))
  }

  /** The genre of a movie: "" when there is no page or the page never
      mentions a genre; otherwise the value under the genre label, whose
      absence raises. */
  function Genre(doc: Option<DetailPage>): (r: Result<string, Cause>)
    ensures doc.None? ==> r == Success("")
    ensures doc.Some? && !Mentions(doc.value, GenreMarker) ==> r == Success("")
    ensures doc.Some? && Mentions(doc.value, GenreMarker) ==>
      && (r.Success? <==> GenreLabel in doc.value.fields)
      && (r.Success? ==> r.value == doc.value.fields[GenreLabel])
      && (r.Failure? ==> r.error == MissingField(GenreLabel))
  {
    match doc
    case None => Success("")
    case Some(page) =>
      if Mentions(page, GenreMarker) then
        if GenreLabel in page.fields then Success(page.fields[GenreLabel]) else Failure(MissingField(GenreLabel))
      else
        Success("")
  }
}
