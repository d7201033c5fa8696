/** The daily listing as the spreadsheet reader delivers it, and the
    resolution of its four key columns from headers whose exact wording varies
    from one export to the next (main.py:157-165). */
module Columns {
  import opened Wrappers
  import opened Strings
  import opened Dates

  /** One cell of the listing: text, or a structured timestamp. */
  datatype Cell = Text(text: string) | Stamp(at: DateTime)

  type ListingRow = seq<Cell>

  /** The table read from the downloaded export: raw headers and rows of cells. */
  datatype Listing = Listing(headers: seq<string>, rows: seq<ListingRow>) {
    /** A data frame: every row has one cell per header. */
    predicate Valid() {
      forall r :: r in rows ==> |r| == |headers|
    }
  }

  /** `str(value)` of a cell. */
  function CellText(c: Cell): string {
    match c
    case Text(s) => s
    case Stamp(t) => IsoStamp(t)
  }

  /** The headers after `columns.str.strip()`. */
  function Labels(headers: seq<string>): (hs: seq<string>)
    ensures |hs| == |headers|
    ensures forall i :: 0 <= i < |hs| ==> hs[i] == Strip(headers[i])
  {
    seq(|headers|, i requires 0 <= i < |headers| => Strip(headers[i]))
  }

  /** The index of the first header satisfying `p`. */
  function FirstIndex(hs: seq<string>, p: string -> bool): (r: Option<nat>)
    ensures r.Some? ==> r.value < |hs| && p(hs[r.value])
    ensures r.Some? ==> forall j :: 0 <= j < r.value ==> !p(hs[j])
    ensures r.None? ==> forall j :: 0 <= j < |hs| ==> !p(hs[j])
  {
    if hs == [] then None
    else if p(hs[0]) then Some(0)
    else match FirstIndex(hs[1..], p)
      case None => None
      case Some(k) => Some(k + 1)
  }

  /** `h` is the first header satisfying `p`. */
  predicate IsFirstWith(hs: seq<string>, p: string -> bool, h: string) {
    exists i :: 0 <= i < |hs| && hs[i] == h && p(hs[i]) && forall j :: 0 <= j < i ==> !p(hs[j])
  }

  predicate NoneWith(hs: seq<string>, p: string -> bool) {
    forall j :: 0 <= j < |hs| ==> !p(hs[j])
  }

  predicate IsNumberHeader(h: string) {
    Contains(h, "Número") || Contains(h, "Numero")
  }

  predicate IsNameHeader(h: string) {
    Contains(h, "Nombre") && !Contains(h, "Organismo")
  }

  predicate IsBuyerHeader(h: string) {
    Contains(h, "Nombre") && Contains(h, "Organismo")
  }

  predicate IsClosingHeader(h: string) {
    Contains(h, "Fecha") && Contains(h, "Cierre")
  }

  /** The column name used for the buyer when no header names one. */
  const DefaultBuyer: string := "Comprador"

  /** The resolved names of the key columns. */
  datatype KeyColumns = KeyColumns(number: string, name: string, buyer: string, closing: string)

  datatype SchemaError = MissingKeyColumns

  function FirstWith(hs: seq<string>, p: string -> bool): (r: Option<string>)
    ensures r.Some? ==> IsFirstWith(hs, p, r.value) && r.value in hs
    ensures r.None? <==> NoneWith(hs, p)
  {
    match FirstIndex(hs, p)
    case None => None
    case Some(i) => Some(hs[i])
  }

  /** Resolves the number, name, buyer and closing-date columns among the
      trimmed headers; the run stops when number, name or closing date has no
      column. */
  function ResolveColumns(headers: seq<string>): (r: Result<KeyColumns, SchemaError>)
    ensures var hs := Labels(headers);
      r.Failure? <==> NoneWith(hs, IsNumberHeader) || NoneWith(hs, IsNameHeader) || NoneWith(hs, IsClosingHeader)
    ensures var hs := Labels(headers);
      r.Success? ==>
        && IsFirstWith(hs, IsNumberHeader, r.value.number)
        && IsFirstWith(hs, IsNameHeader, r.value.name)
        && IsFirstWith(hs, IsClosingHeader, r.value.closing)
        && r.value.number in hs && r.value.name in hs && r.value.closing in hs
    ensures var hs := Labels(headers);
      r.Success? ==>
        || IsFirstWith(hs, IsBuyerHeader, r.value.buyer)
        || (NoneWith(hs, IsBuyerHeader) && r.value.buyer == DefaultBuyer)
  {
    var hs := Labels(headers);
    var number := FirstWith(hs, IsNumberHeader);
    var name := FirstWith(hs, IsNameHeader);
    var buyer := FirstWith(hs, IsBuyerHeader);
    var closing := FirstWith(hs, IsClosingHeader);
    if number.None? || name.None? || closing.None? then Failure(MissingKeyColumns)
    else Success(KeyColumns(number.value, name.value, buyer.GetOr(DefaultBuyer), closing.value))
  }

  /** The cell of `row` under the first column labelled `col`. */
  function CellAt(hs: seq<string>, row: ListingRow, col: string): (c: Cell)
    requires col in hs && |row| == |hs|
    ensures exists i :: 0 <= i < |hs| && hs[i] == col && col !in hs[..i] && c == row[i]
  {
    var i := FirstIndex(hs, h => h == col);
    assert i.Some?;
    row[i.value]
  }
}
