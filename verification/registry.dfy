/** The client's bookkeeping while it parses listing pages: the registry from
    movie id to display name, the registry from display name to movie record,
    the rows appended to the output file, and the running count of movie
    links seen. */
module Registry {
  import opened Wrappers
  import opened Text
  import opened Document
  import opened Listing
  import opened Detail

  /** One movie record, in the order the client stores it:
      (id, name, year, genre, total gross, Mexico gross, domestic gross). */
  datatype Record = Record(id: string, name: string, year: Year, genre: string,
                           total: real, foreignMx: real, usa: real)

  /** One value of an output row: strings are written quoted, numbers bare. */
  datatype Field = Str(s: string) | Num(x: real)

  datatype State = State(
    urls: map<string, string>,       // movie id -> display name
    info: map<string, Record>,       // display name -> record
    output: seq<seq<Field>>,         // rows appended to the output file during this run
    total: nat                       // movie links counted so far
  )

  /** What the parser learns from outside a listing page: the matches of the
      id pattern in a link target, and the fetched main and Mexico gross pages
      of a movie id (None when no document came back). */
  datatype Env = Env(
    idMatches: string -> seq<string>,
    genrePage: string -> Option<DetailPage>,
    intlPage: string -> Option<DetailPage>
  )

  /** Why the crawl raised: the last pagination link of a bucket's first
      page had no digit (reported with its target), a listing page had no
      `id=` link at all, or one of its rows raised (reported with that row's
      link text). */
  datatype Error = NoPageNumber(href: string) | NoMovieLinks | RowFailed(rowText: string, cause: Cause)

  /** The state reached, and the error that stopped processing, if any. */
  datatype Step = Step(state: State, failure: Option<Error>)

  /** The client as constructed: both registries empty, nothing written. */
  function Init(): (s: State)
    ensures s.urls.Keys == {} && s.info.Keys == {} && |s.output| == 0 && s.total == 0
    ensures Consistent(s)
  {
    State(map[], map[], [], 0)
  }

  // ---------------------------------------------------------------------------
  // Output rows
  // ---------------------------------------------------------------------------

  /** The year as written: the four digits as text, or the number 0. */
  function YearField(y: Year): (f: Field)
    ensures f.Str? ==> y == YearText(f.s)
    ensures f.Num? ==> y == NoYear && f.x == 0.0
  {
    match y
    case YearText(d) => Str(d)
    case NoYear => Num(0.0)
  }

  /** The output row of a record: name, year, genre, total gross, Mexico
      gross, domestic gross, id. */
  function CsvRow(rec: Record): (row: seq<Field>)
    ensures |row| == 7 && row[0] == Str(rec.name) && row[6] == Str(rec.id)
  {
    [Str(rec.name), YearField(rec.year), Str(rec.genre), Num(rec.total),
     Num(rec.foreignMx), Num(rec.usa), Str(rec.id)]
  }

  /** Reads a record back from an output row. */
  function RecordOfRow(row: seq<Field>): Option<Record> {
    if |row| == 7 && row[0].Str? && row[2].Str? && row[3].Num? && row[4].Num? && row[5].Num? && row[6].Str?
       && (row[1].Str? || row[1] == Num(0.0))
    then
      var year := if row[1].Str? then YearText(row[1].s) else NoYear;
      Some(Record(row[6].s, row[0].s, year, row[2].s, row[3].x, row[4].x, row[5].x))
    else None
  }

  /** An output row holds the whole record: reading it back gives the record. */
  lemma RowRoundTrip(rec: Record)
    ensures RecordOfRow(CsvRow(rec)) == Some(rec)
  {
  }

  /** The last row written for a display name, if any. */
  function LastRowNamed(rows: seq<seq<Field>>, name: string): (r: Option<seq<Field>>)
    ensures r.Some? ==> |r.value| >= 1 && r.value[0] == Str(name)
  {
    if rows == [] then None
    else
      var last := rows[|rows| - 1];
      if |last| >= 1 && last[0] == Str(name) then Some(last) else LastRowNamed(rows[..|rows| - 1], name)
  }

  // ---------------------------------------------------------------------------
  // One listing row
  // ---------------------------------------------------------------------------

  /** What reading one row yields before the registries are touched: it
      raised early; it was skipped because its id pattern did not match
      exactly once; or it claimed an id under a display name, after which the
      record is either complete or the detail lookups raised. */
  datatype Read =
    | Raised(cause: Cause)
    | Skipped
    | Claimed(id: string, name: string, record: Result<Record, Cause>)

  /** The record of a claimed row: genre, then domestic gross from the third
      cell, then the foreign pair, and the total as domestic plus foreign. */
  function Describe(id: string, name: string, year: Year, grossCell: string, env: Env): (r: Result<Record, Cause>)
    ensures r.Success? ==>
      && r.value.id == id && r.value.name == name && r.value.year == year
      && Genre(env.genrePage(id)) == Success(r.value.genre)
      && GrossUsa(grossCell) == Success(r.value.usa)
      && GrossForeign(env.intlPage(id)).Success?
      && r.value.total == r.value.usa + GrossForeign(env.intlPage(id)).value.0
      && r.value.foreignMx == GrossForeign(env.intlPage(id)).value.1
    ensures r.Failure? <==>
      Genre(env.genrePage(id)).Failure? || GrossUsa(grossCell).Failure? || GrossForeign(env.intlPage(id)).Failure?
    ensures r.Failure? ==>
      (r.error == (if Genre(env.genrePage(id)).Failure? then Genre(env.genrePage(id)).error
                   else if GrossUsa(grossCell).Failure? then GrossUsa(grossCell).error
                   else GrossForeign(env.intlPage(id)).error))
  {
    var genre :- Genre(env.genrePage(id));
    var usa :- GrossUsa(grossCell);
    var foreign :- GrossForeign(env.intlPage(id));
    Success(Record(id, name, year, genre, usa + foreign.0, foreign.1, usa))
  }

  /** Reads one row: the date column (the seventh cell) gives the year, the
      link text gives the display name, chosen against the names in `taken`,
      and the link target gives the id. */
  function ReadRow(e: Entry, taken: set<string>, env: Env): (r: Read)
    ensures |e.cells| <= DateColumn ==> r == Raised(MissingDateColumn)
    ensures r.Raised? <==> |e.cells| <= DateColumn || DateText(e.cells[DateColumn]).Failure?
    ensures |e.cells| > DateColumn && DateText(e.cells[DateColumn]).Failure? ==>
      r == Raised(DateText(e.cells[DateColumn]).error)
    ensures r.Skipped? <==>
      |e.cells| > DateColumn && DateText(e.cells[DateColumn]).Success? && |env.idMatches(e.link.href)| != 1
    ensures r.Claimed? ==>
      && |e.cells| > DateColumn && DateText(e.cells[DateColumn]).Success?
      && env.idMatches(e.link.href) == [r.id]
      && r.name == ChooseName(e.link.text, taken) && r.name !in taken
      && r.record == Describe(r.id, r.name, YearOf(DateText(e.cells[DateColumn]).value), e.cells[2].text, env)
  {
    if |e.cells| <= DateColumn then Raised(MissingDateColumn)
    else
      match DateText(e.cells[DateColumn])
      case Failure(c) => Raised(c)
      case Success(date) =>
        var year := YearOf(date);
        var name := ChooseName(e.link.text, taken);
        var ids := env.idMatches(e.link.href);
        if |ids| != 1 then Skipped
        else Claimed(ids[0], name, Describe(ids[0], name, year, e.cells[2].text, env))
  }

  /** Applies what was read from a row to the state.  A claimed id is
      registered before the detail lookups run, so it stays registered when
      they raise. */
  function ApplyRow(st: State, read: Read, rowText: string): (r: Step)
    ensures read.Skipped? ==> r == Step(st, None)
    ensures read.Raised? ==> r == Step(st, Some(RowFailed(rowText, read.cause)))
    ensures read.Claimed? ==> r.state.urls == st.urls[read.id := read.name] && r.state.total == st.total
    ensures read.Claimed? && read.record.Failure? ==>
      r == Step(st.(urls := st.urls[read.id := read.name]), Some(RowFailed(rowText, read.record.error)))
    ensures read.Claimed? && read.record.Success? ==>
      && r.failure.None?
      && r.state.info.Keys == st.info.Keys + {read.name}
      && r.state.info[read.name] == read.record.value
      && (forall n :: n in st.info && n != read.name ==> r.state.info[n] == st.info[n])
      && r.state.output == st.output + [CsvRow(read.record.value)]
  {
    match read
    case Raised(c) => Step(st, Some(RowFailed(rowText, c)))
    case Skipped => Step(st, None)
    case Claimed(id, name, record) =>
      var registered := st.(urls := st.urls[id := name]);
      match record
      case Failure(c) => Step(registered, Some(RowFailed(rowText, c)))
      case Success(rec) =>
        Step(registered.(info := registered.info[name := rec], output := registered.output + [CsvRow(rec)]), None)
  }

  /** Processes one row.  Note that the display name is checked for freshness
      against the KEYS of the id registry, which are movie ids, not names. */
  function ProcessRow(st: State, e: Entry, env: Env): (r: Step)
    ensures r.state.total == st.total
    ensures st.urls.Keys <= r.state.urls.Keys && st.info.Keys <= r.state.info.Keys
    ensures r.failure.Some? ==> r.state.info == st.info && r.state.output == st.output
    ensures r.failure.None? ==> r.state == st || |r.state.output| == |st.output| + 1
    ensures |env.idMatches(e.link.href)| != 1 && r.failure.None? ==> r == Step(st, None)
  {
    ApplyRow(st, ReadRow(e, st.urls.Keys, env), e.link.text)
  }

  /** The effect of one row whose date column reads and whose target has
      exactly one id: the id is registered under the chosen name, and unless
      a detail lookup or the domestic gross raises, the record filed under
      that name and the row written carry the id, name, year, genre, the
      domestic gross, the total as domestic plus foreign gross, and the Mexico
      gross; no other record changes. */
  lemma ProcessRowEffect(st: State, e: Entry, env: Env)
    requires |e.cells| > DateColumn && DateText(e.cells[DateColumn]).Success? && |env.idMatches(e.link.href)| == 1
    ensures var r := ProcessRow(st, e, env);
      var id, name := env.idMatches(e.link.href)[0], ChooseName(e.link.text, st.urls.Keys);
      && r.state.urls == st.urls[id := name]
      && (r.failure.Some? <==> GrossForeign(env.intlPage(id)).Failure? || Genre(env.genrePage(id)).Failure?
                               || GrossUsa(e.cells[2].text).Failure?)
      && (r.failure.None? ==>
            && r.state.info.Keys == st.info.Keys + {name}
            && (forall n :: n in st.info && n != name ==> r.state.info[n] == st.info[n])
            && r.state.info[name].id == id && r.state.info[name].name == name
            && r.state.info[name].year == YearOf(DateText(e.cells[DateColumn]).value)
            && Genre(env.genrePage(id)) == Success(r.state.info[name].genre)
            && GrossUsa(e.cells[2].text) == Success(r.state.info[name].usa)
            && r.state.info[name].total == r.state.info[name].usa + GrossForeign(env.intlPage(id)).value.0
            && r.state.info[name].foreignMx == GrossForeign(env.intlPage(id)).value.1
            && r.state.output == st.output + [CsvRow(r.state.info[name])])
  {
  }

  // ---------------------------------------------------------------------------
  // A listing page, and a whole crawl
  // ---------------------------------------------------------------------------

  /** Processes the rows in order, stopping at the first that raises. */
  function ProcessRows(st: State, es: seq<Entry>, env: Env): (r: Step)
    ensures r.failure.Some? ==> r.failure.value.RowFailed?
    ensures r.state.total == st.total
    ensures st.urls.Keys <= r.state.urls.Keys && st.info.Keys <= r.state.info.Keys
    ensures st.output <= r.state.output && |r.state.output| <= |st.output| + |es|
    decreases |es|
  {
    if es == [] then Step(st, None)
    else
      var s := ProcessRow(st, es[0], env);
      if s.failure.Some? then s else ProcessRows(s.state, es[1..], env)
  }

  /** Parses one listing page given its `id=` links in document order: the
      first link is an advertisement and is dropped (a page without any such
      link raises), the count of links grows by the number left, and then the
      rows are processed. */
  function ProcessPage(st: State, es: seq<Entry>, env: Env): (r: Step)
    ensures es == [] ==> r == Step(st, Some(NoMovieLinks))
    ensures es != [] ==> r.state.total == st.total + |es| - 1
    ensures st.urls.Keys <= r.state.urls.Keys && st.info.Keys <= r.state.info.Keys
    ensures st.output <= r.state.output
    ensures es != [] ==> |r.state.output| <= |st.output| + |es| - 1
  {
    if es == [] then Step(st, Some(NoMovieLinks))
    else ProcessRows(st.(total := st.total + |es| - 1), es[1..], env)
  }

  /** Parses the fetched listing pages in crawl order, stopping at the first
      page that raises. */
  function ProcessPages(st: State, pages: seq<seq<Entry>>, env: Env): (r: Step)
    ensures r.failure.Some? ==> r.failure.value.NoMovieLinks? || r.failure.value.RowFailed?
    ensures r.failure.None? ==> r.state.total == st.total + LinksAfterAds(pages)
    ensures st.urls.Keys <= r.state.urls.Keys && st.info.Keys <= r.state.info.Keys
    ensures st.output <= r.state.output
    decreases |pages|
  {
    if pages == [] then Step(st, None)
    else
      var s := ProcessPage(st, pages[0], env);
      if s.failure.Some? then s else ProcessPages(s.state, pages[1..], env)
  }

  /** A row that raises ends the page: the rows after it are never looked at. */
  lemma {:induction false} ProcessRowsSplit(st: State, a: seq<Entry>, b: seq<Entry>, env: Env)
    ensures ProcessRows(st, a + b, env) ==
      var s := ProcessRows(st, a, env);
      if s.failure.Some? then s else ProcessRows(s.state, b, env)
    decreases |a|
  {
    if a == [] {
      assert a + b == b;
    } else {
      assert (a + b)[0] == a[0];
      assert (a + b)[1..] == a[1..] + b;
      var s := ProcessRow(st, a[0], env);
      if s.failure.None? {
        ProcessRowsSplit(s.state, a[1..], b, env);
      }
    }
  }

  /** When the rows of a page raise, the error and state are those of one
      row, processed after all the rows before it went through. */
  lemma {:induction false} ProcessRowsStopsAtFailure(st: State, es: seq<Entry>, env: Env)
    ensures var r := ProcessRows(st, es, env);
      r.failure.Some? ==>
        exists i :: 0 <= i < |es| && ProcessRows(st, es[..i], env).failure.None?
          && r == ProcessRow(ProcessRows(st, es[..i], env).state, es[i], env)
    decreases |es|
  {
    var r := ProcessRows(st, es, env);
    if es != [] && r.failure.Some? {
      var s := ProcessRow(st, es[0], env);
      if s.failure.Some? {
        assert es[..0] == [];
        assert ProcessRows(st, es[..0], env) == Step(st, None);
      } else {
        ProcessRowsStopsAtFailure(s.state, es[1..], env);
        var i :| 0 <= i < |es[1..]| && ProcessRows(s.state, es[1..][..i], env).failure.None?
          && r == ProcessRow(ProcessRows(s.state, es[1..][..i], env).state, es[1..][i], env);
        assert es[..i + 1][0] == es[0] && es[..i + 1][1..] == es[1..][..i];
        assert ProcessRows(st, es[..i + 1], env) == ProcessRows(s.state, es[1..][..i], env);
        assert es[1..][i] == es[i + 1];
      }
    }
  }

  /** A page that raises ends the crawl: the pages after it are never parsed. */
  lemma {:induction false} ProcessPagesSplit(st: State, a: seq<seq<Entry>>, b: seq<seq<Entry>>, env: Env)
    ensures ProcessPages(st, a + b, env) ==
      var s := ProcessPages(st, a, env);
      if s.failure.Some? then s else ProcessPages(s.state, b, env)
    decreases |a|
  {
    if a == [] {
      assert a + b == b;
    } else {
      assert (a + b)[0] == a[0];
      assert (a + b)[1..] == a[1..] + b;
      var s := ProcessPage(st, a[0], env);
      if s.failure.None? {
        ProcessPagesSplit(s.state, a[1..], b, env);
      }
    }
  }

  /** When the crawl raises, the error and state are those of one page,
      parsed after all the pages before it went through. */
  lemma {:induction false} ProcessPagesStopsAtFailure(st: State, pages: seq<seq<Entry>>, env: Env)
    ensures var r := ProcessPages(st, pages, env);
      r.failure.Some? ==>
        exists i :: 0 <= i < |pages| && ProcessPages(st, pages[..i], env).failure.None?
          && r == ProcessPage(ProcessPages(st, pages[..i], env).state, pages[i], env)
    decreases |pages|
  {
    var r := ProcessPages(st, pages, env);
    if pages != [] && r.failure.Some? {
      var s := ProcessPage(st, pages[0], env);
      if s.failure.Some? {
        assert pages[..0] == [];
        assert ProcessPages(st, pages[..0], env) == Step(st, None);
      } else {
        ProcessPagesStopsAtFailure(s.state, pages[1..], env);
        var i :| 0 <= i < |pages[1..]| && ProcessPages(s.state, pages[1..][..i], env).failure.None?
          && r == ProcessPage(ProcessPages(s.state, pages[1..][..i], env).state, pages[1..][i], env);
        assert pages[..i + 1][0] == pages[0] && pages[..i + 1][1..] == pages[1..][..i];
        assert ProcessPages(st, pages[..i + 1], env) == ProcessPages(s.state, pages[1..][..i], env);
        assert pages[1..][i] == pages[i + 1];
      }
    }
  }

  /** The number of movie links on the pages once each page's first is dropped. */
  function LinksAfterAds(pages: seq<seq<Entry>>): nat {
    if pages == [] then 0
    else (if pages[0] == [] then 0 else |pages[0]| - 1) + LinksAfterAds(pages[1..])
  }

  // ---------------------------------------------------------------------------
  // What the registries and the output say about each other
  // ---------------------------------------------------------------------------

  /** Every record is filed under its own name and its id is registered; the
      records are exactly the last rows written for each name. */
  ghost predicate Consistent(st: State) {
    && (forall n :: n in st.info ==> st.info[n].name == n && st.info[n].id in st.urls)
    && (forall n :: n in st.info ==> LastRowNamed(st.output, n) == Some(CsvRow(st.info[n])))
    && (forall i :: 0 <= i < |st.output| ==> |st.output[i]| >= 1 && st.output[i][0].Str? && st.output[i][0].s in st.info)
  }

  lemma LastRowNamedAppend(rows: seq<seq<Field>>, row: seq<Field>, name: string)
    ensures LastRowNamed(rows + [row], name) ==
      if |row| >= 1 && row[0] == Str(name) then Some(row) else LastRowNamed(rows, name)
  {
    assert (rows + [row])[..|rows + [row]| - 1] == rows;
  }

  /** Applying a read row keeps the registries and the output in agreement,
      provided a complete record carries the id and name it was claimed under. */
  lemma {:induction false} ApplyRowConsistent(st: State, read: Read, rowText: string)
    requires Consistent(st)
    requires read.Claimed? && read.record.Success? ==>
      read.record.value.id == read.id && read.record.value.name == read.name
    ensures Consistent(ApplyRow(st, read, rowText).state)
  {
    var r := ApplyRow(st, read, rowText).state;
    if read.Claimed? {
      assert st.urls.Keys <= r.urls.Keys;
      if read.record.Success? {
        var rec := read.record.value;
        var row := CsvRow(rec);
        assert r.info == st.info[read.name := rec];
        assert r.output == st.output + [row];
        forall n | n in r.info
          ensures r.info[n].name == n && r.info[n].id in r.urls
        {
        }
        forall n | n in r.info
          ensures LastRowNamed(r.output, n) == Some(CsvRow(r.info[n]))
        {
          LastRowNamedAppend(st.output, row, n);
        }
        forall i | 0 <= i < |r.output|
          ensures |r.output[i]| >= 1 && r.output[i][0].Str? && r.output[i][0].s in r.info
        {
          if i < |st.output| {
            assert r.output[i] == st.output[i];
          }
        }
      } else {
        assert r == st.(urls := st.urls[read.id := read.name]);
      }
    }
  }

  lemma {:induction false} ProcessRowConsistent(st: State, e: Entry, env: Env)
    requires Consistent(st)
    ensures Consistent(ProcessRow(st, e, env).state)
  {
    ApplyRowConsistent(st, ReadRow(e, st.urls.Keys, env), e.link.text);
  }

  lemma {:induction false} ProcessRowsConsistent(st: State, es: seq<Entry>, env: Env)
    requires Consistent(st)
    ensures Consistent(ProcessRows(st, es, env).state)
    decreases |es|
  {
    if es != [] {
      ProcessRowConsistent(st, es[0], env);
      ProcessRowsConsistent(ProcessRow(st, es[0], env).state, es[1..], env);
    }
  }

  lemma {:induction false} ConsistentIgnoresTotal(st: State, total: nat)
    requires Consistent(st)
    ensures Consistent(st.(total := total))
  {
    var c := st.(total := total);
    assert c.urls == st.urls && c.info == st.info && c.output == st.output;
  }

  lemma {:induction false} PageUnfold(st: State, es: seq<Entry>, env: Env)
    requires es != []
    ensures ProcessPage(st, es, env) == ProcessRows(st.(total := st.total + |es| - 1), es[1..], env)
  {
  }

  lemma {:induction false} ProcessPageConsistent(st: State, es: seq<Entry>, env: Env)
    requires Consistent(st)
    ensures Consistent(ProcessPage(st, es, env).state)
  {
    if es != [] {
      ConsistentIgnoresTotal(st, st.total + |es| - 1);
      ProcessRowsConsistent(st.(total := st.total + |es| - 1), es[1..], env);
      PageUnfold(st, es, env);
    }
  }

  /** Parsing pages in turn from a state where the two registries and the
      output agree leaves them in agreement, also when a page raised. */
  lemma {:induction false} ProcessPagesConsistent(st: State, pages: seq<seq<Entry>>, env: Env)
    requires Consistent(st)
    ensures Consistent(ProcessPages(st, pages, env).state)
    decreases |pages|
  {
    if pages != [] {
      ProcessPageConsistent(st, pages[0], env);
      ProcessPagesConsistent(ProcessPage(st, pages[0], env).state, pages[1..], env);
    }
  }

  // ---------------------------------------------------------------------------
  // Consequences of the parsing rules
  // ---------------------------------------------------------------------------

  /** The first `id=` link of a page is never looked at. */
  lemma AdIsIgnored(st: State, ad1: Entry, ad2: Entry, rest: seq<Entry>, env: Env)
    ensures ProcessPage(st, [ad1] + rest, env) == ProcessPage(st, [ad2] + rest, env)
  {
    assert ([ad1] + rest)[1..] == rest == ([ad2] + rest)[1..];
  }

  /** The name test consults the ids, not the names already in use: a title
      that is not an id keeps its plain quote-stripped form even when a record
      of that name exists, and the new record replaces the old one. */
  lemma TitleClashOverwrites(st: State, e: Entry, env: Env)
    requires RemoveChar(e.link.text, '"') !in st.urls.Keys
    requires |e.cells| > DateColumn && DateText(e.cells[DateColumn]).Success? && |env.idMatches(e.link.href)| == 1
    requires ProcessRow(st, e, env).failure.None?
    ensures var r := ProcessRow(st, e, env).state; var name := RemoveChar(e.link.text, '"');
      && r.info.Keys == st.info.Keys + {name}
      && r.info[name].id == env.idMatches(e.link.href)[0]
      && |r.output| == |st.output| + 1
  {
    ChooseNameIsFirstFree(e.link.text, st.urls.Keys, 0);
  }

  /** A row whose cells hold nothing but an unknown domestic gross. */
  function BareCells(): seq<Cell> {
    [Cell("", []), Cell("", []), Cell(NotAvailable, []), Cell("", []), Cell("", []), Cell("", []), Cell("", [])]
  }

  lemma BareCellsRead()
    ensures DateText(BareCells()[DateColumn]) == Success("")
    ensures YearOf("") == NoYear
    ensures GrossUsa(BareCells()[2].text) == Success(0.0)
  {
    assert BareCells()[DateColumn] == Cell("", []);
    assert BareCells()[2].text == NotAvailable;
    var na := NotAvailable;
    assert CleanGross(na) == na by {
      assert forall x :: x in na ==> !IsGrossNoise(x);
      RemoveCharNoOccurrence(na, '*');
      RemoveCharNoOccurrence(na, '$');
      RemoveCharNoOccurrence(na, ',');
    }
  }

  /** A bare row whose link matches one id and whose title is free is
      claimed under that title with an all-zero record. */
  lemma {:induction false} BareRowRead(e: Entry, taken: set<string>, env: Env, id: string)
    requires e.cells == BareCells() && env.idMatches(e.link.href) == [id]
    requires env.genrePage(id) == None && env.intlPage(id) == None
    requires '"' !in e.link.text && e.link.text !in taken
    ensures ReadRow(e, taken, env) == Claimed(id, e.link.text, Success(Record(id, e.link.text, NoYear, "", 0.0, 0.0, 0.0)))
  {
    var title := e.link.text;
    var rec := Record(id, title, NoYear, "", 0.0, 0.0, 0.0);
    assert DateText(e.cells[DateColumn]) == Success("") && YearOf("") == NoYear
      && GrossUsa(e.cells[2].text) == Success(0.0) by {
      BareCellsRead();
    }
    assert ChooseName(title, taken) == title by {
      RemoveCharNoOccurrence(title, '"');
      ChooseNameIsFirstFree(title, taken, 0);
    }
    assert Describe(id, title, NoYear, e.cells[2].text, env) == Success(rec) by {
      assert Genre(env.genrePage(id)) == Success("");
      assert GrossForeign(env.intlPage(id)) == Success((0.0, 0.0));
    }
    assert ReadRow(e, taken, env) == Claimed(id, title, Describe(id, title, YearOf(""), e.cells[2].text, env));
  }

  /** Two different movies listed under the same title share one record: both
      ids are registered under that title and both rows are written, but only
      the second movie's record is kept. */
  lemma {:induction false} SameTitleSharesOneRecord(title: string, ad: Entry, h1: string, h2: string, id1: string, id2: string, env: Env)
    requires '"' !in title && title != id1 && id1 != id2
    requires env.idMatches(h1) == [id1] && env.idMatches(h2) == [id2]
    requires env.genrePage(id1) == None && env.intlPage(id1) == None
    requires env.genrePage(id2) == None && env.intlPage(id2) == None
    ensures
      var page := [ad, Entry(Link(h1, title, ""), BareCells()), Entry(Link(h2, title, ""), BareCells())];
      var r := ProcessPage(Init(), page, env);
      && r.failure.None?
      && r.state.urls == map[id1 := title, id2 := title]
      && r.state.info.Keys == {title}
      && r.state.info[title].id == id2
      && |r.state.output| == 2
  {
    var e1, e2 := Entry(Link(h1, title, ""), BareCells()), Entry(Link(h2, title, ""), BareCells());
    var page := [ad, e1, e2];
    var s0 := Init().(total := 2);
    BareRowRead(e1, s0.urls.Keys, env, id1);
    var s1 := ProcessRow(s0, e1, env);
    assert s1.failure.None? && s1.state.urls == map[id1 := title] && s1.state.info.Keys == {title};
    assert |s1.state.output| == 1;
    BareRowRead(e2, s1.state.urls.Keys, env, id2);
    var s2 := ProcessRow(s1.state, e2, env);
    assert s2.failure.None? && s2.state.urls == map[id1 := title, id2 := title] && s2.state.info.Keys == {title};
    assert s2.state.info[title].id == id2 && |s2.state.output| == 2;
    assert page[1..] == [e1, e2] && [e1, e2][1..] == [e2];
    assert ProcessPage(Init(), page, env) == ProcessRows(s0, [e1, e2], env);
    assert ProcessRows(s0, [e1, e2], env) == ProcessRows(s1.state, [e2], env);
    assert ProcessRows(s1.state, [e2], env) == ProcessRows(s2.state, [], env);
  }
}
