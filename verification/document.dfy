/** The parsed HTML the scraper reads, reduced to what it looks at.  The
    parse tree itself belongs to the HTML library and is not modelled: a
    listing page becomes the sequence of its movie links, each with the
    table row that holds it, and a detail page becomes its text nodes plus
    the labelled fields the detail-table reader extracts from it. */
module Document {

  /** One `<a>` element: its target, its rendered contents, and its whole
      markup as `str(tag)` prints it. */
  datatype Link = Link(href: string, text: string, markup: string)

  /** One `<td>` of a listing row: its rendered contents and the links inside it. */
  datatype Cell = Cell(text: string, links: seq<Link>)

  /** A link whose target holds `id=`, together with the cells of the table
      row two levels above it (`url.parent.parent`). */
  datatype Entry = Entry(link: Link, cells: seq<Cell>)

  /** A movie detail page: every text node, and the label-to-value table the
      page's field reader produces. */
  datatype DetailPage = DetailPage(texts: seq<string>, fields: map<string, string>)

  /** Why processing one listing row raised. */
  datatype Cause =
    | MissingDateColumn               // the row has fewer than seven cells
    | ShortYearLink(markup: string)   // a `yr=` link with fewer than four '='
    | BadNumber(text: string)         // float() refused the text
    | MissingField(field: string)     // the detail table lacks the label
}
