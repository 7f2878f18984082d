/**
 * The part of a fetched HTML page the parsers look at, already extracted
 * from the DOM: tables by id, their `<tr>` rows, each row's `<td>` cells
 * and the `<span>` elements inside the cells.
 */
module Markup {
  import opened Wrappers
  import Text

  /** A `<span>`: its `id`, its raw text and its `title` attribute if any. */
  datatype Span = Span(id: string, text: string, title: Option<string>)

  /** A `<td>`: its `get_text(strip=True)` and the spans inside it, in document order. */
  datatype Cell = Cell(text: string, spans: seq<Span>)

  /** A `<tr>`: whether it contains a `<th>`, its `class` list and its `<td>` cells. */
  datatype Row = Row(hasHeaderCell: bool, classes: seq<string>, cells: seq<Cell>)

  datatype Table = Table(id: string, rows: seq<Row>)

  /** The tables of a page, in document order. */
  type Document = seq<Table>

  /** `soup.find("table", id=...)`: the rows of the first table with that id. */
  function FindTable(doc: Document, id: string): (r: Option<seq<Row>>)
    ensures r.None? <==> forall k :: 0 <= k < |doc| ==> doc[k].id != id
    ensures r.Some? ==> exists k :: 0 <= k < |doc| && doc[k].id == id && doc[k].rows == r.value
  {
    if doc == [] then None
    else if doc[0].id == id then Some(doc[0].rows)
    else
      var r := FindTable(doc[1..], id);
      assert r.Some? ==> exists k :: 0 <= k < |doc[1..]| && doc[1..][k].id == id && doc[1..][k].rows == r.value;
      assert forall k :: 0 < k < |doc| ==> doc[k] == doc[1..][k - 1];
      r
  }

  /** `find("span", id=re.compile(fragment))`: the first span whose id contains `fragment`. */
  function FindSpanContaining(spans: seq<Span>, fragment: string): (r: Option<Span>)
    ensures r.None? <==> forall k :: 0 <= k < |spans| ==> !Text.Contains(spans[k].id, fragment)
    ensures r.Some? ==> r.value in spans && Text.Contains(r.value.id, fragment)
  {
    if spans == [] then None
    else if Text.Contains(spans[0].id, fragment) then Some(spans[0])
    else
      var r := FindSpanContaining(spans[1..], fragment);
      assert forall k :: 0 < k < |spans| ==> spans[k] == spans[1..][k - 1];
      r
  }

  /** `find("span", id=...)` with an exact id: the first such span. */
  function FindSpanWithId(spans: seq<Span>, id: string): (r: Option<Span>)
    ensures r.None? <==> forall k :: 0 <= k < |spans| ==> spans[k].id != id
    ensures r.Some? ==> r.value in spans && r.value.id == id
  {
    if spans == [] then None
    else if spans[0].id == id then Some(spans[0])
    else
      var r := FindSpanWithId(spans[1..], id);
      assert forall k :: 0 < k < |spans| ==> spans[k] == spans[1..][k - 1];
      r
  }

  /** All spans of a row, cell by cell (what `row.find("span", ...)` searches). */
  function RowSpans(cells: seq<Cell>): seq<Span>
  {
    if cells == [] then [] else cells[0].spans + RowSpans(cells[1..])
  }

  /** `span.get_text(strip=True)` for a span holding only text. */
  function SpanText(s: Span): string
  {
    Text.Strip(s.text)
  }
}
