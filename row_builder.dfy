/** The seven-field rows appended to the master table for the new listing
    rows (main.py:196-249): link, number, buyer, name, description, closing
    date, publication date, in that order. The detail page of each listing is
    an input: what it yielded for the description and the publication date,
    each possibly nothing. */
module RowBuilder {
  import opened Wrappers
  import opened Strings
  import opened Dates
  import opened Columns
  import opened Reconcile
  import opened Seqs

  /** The detail page of a listing: this prefix followed by its number. */
  const Host: string := "http://www.mercadopublico.cl"
  const DetailsPage: string := "/Procurement/Modules/RFB/DetailsAcquisition.aspx"
  const IdQuery: string := "?idlicitacion="
  const BaseUrl: string := Host + DetailsPage + IdQuery

  /** The value of a detail that could not be read. */
  const NotFound: string := "No encontrada"

  /** The buyer of a listing without a buyer column. */
  const NoBuyer: string := "N/A"

  const DescriptionLimit: nat := 2500

  /** What the detail page of one listing yielded: the raw text of its
      description and of its publication date, when they could be read. */
  datatype Detail = Detail(description: Option<string>, publication: Option<string>)

  /** The positions of the fields in a stored row. */
  const LinkField: nat := 0
  const NumberField: nat := 1
  const BuyerField: nat := 2
  const NameField: nat := 3
  const DescriptionField: nat := 4
  const ClosingField: nat := 5
  const PublicationField: nat := 6
  const RowWidth: nat := 7

  /** A description read from the page: trimmed, on one line, and at most
      2500 characters long. */
  function CleanDescription(text: string): (d: string)
    ensures '\n' !in d
    ensures |d| <= DescriptionLimit
    ensures |Strip(text)| <= DescriptionLimit ==> |d| == |Strip(text)|
    ensures var flat := ReplaceChar(Strip(text), '\n', ' ');
      d <= flat && |d| == (if |flat| < DescriptionLimit then |flat| else DescriptionLimit)
    ensures '\n' !in Strip(text) && |Strip(text)| <= DescriptionLimit ==> d == Strip(text)
  {
    var flat := ReplaceChar(Strip(text), '\n', ' ');
    flat[..if |flat| < DescriptionLimit then |flat| else DescriptionLimit]
  }

  /** The description field: the cleaned text, or "No encontrada". */
  function DescriptionText(d: Detail): (t: string)
    ensures '\n' !in t && |t| <= DescriptionLimit
    ensures d.description.None? ==> t == NotFound
    ensures d.description.Some? ==> t == CleanDescription(d.description.value)
  {
    match d.description
    case None => NotFound
    case Some(text) => CleanDescription(text)
  }

  /** The publication field: the trimmed text, or "No encontrada". */
  function PublicationText(d: Detail): (t: string)
    ensures d.publication.None? ==> t == NotFound
    ensures d.publication.Some? ==> t == Strip(d.publication.value)
    ensures d.publication.Some? && NoSpace(d.publication.value) ==> t == d.publication.value
  {
    match d.publication
    case None => NotFound
    case Some(text) => Strip(text)
  }

  /** The closing date as stored: a timestamp written day first, any other
      value as its text. A timestamp of a real date is read back by the
      sweep as that date. */
  function ClosingText(c: Cell): (t: string)
    ensures c.Text? ==> t == c.text
    ensures c.Stamp? ==> CleanSegment(t) == DayFirstText(c.at)
    ensures c.Stamp? && ValidDate(DateOf(c.at)) ==> Normalise(t) == Some(DateOf(c.at))
  {
    match c
    case Stamp(at) =>
      CleanFormattedStamp(at);
      if ValidDate(DateOf(at)) then (FormatStampNormalises(at); FormatStamp(at)) else FormatStamp(at)
    case Text(s) => s
  }

  /** The listing rows the builder can read: one cell per header, with the
      number, name and closing-date columns present. */
  predicate Readable(hs: seq<string>, rows: seq<ListingRow>, cols: KeyColumns) {
    && Keyed(hs, rows, cols.number)
    && cols.name in hs && cols.closing in hs
  }

  /** One listing row the builder can read. */
  predicate RowReadable(hs: seq<string>, row: ListingRow, cols: KeyColumns) {
    |row| == |hs| && cols.number in hs && cols.name in hs && cols.closing in hs
  }

  /** The buyer field: the text of the buyer column, or "N/A" without one. */
  function BuyerText(hs: seq<string>, row: ListingRow, col: string): (t: string)
    requires |row| == |hs|
    ensures col !in hs ==> t == NoBuyer
    ensures col in hs ==> t == CellText(CellAt(hs, row, col))
  {
    if col in hs then CellText(CellAt(hs, row, col)) else NoBuyer
  }

  /** A master record, field by field. */
  datatype MasterRecord = MasterRecord(
    link: string, id: string, buyer: string, name: string,
    description: string, closing: string, publication: string)

  /** The stored row of a record: its fields in their fixed positions. */
  function Fields(m: MasterRecord): (f: seq<string>)
    ensures |f| == RowWidth
    ensures f[LinkField] == m.link && f[NumberField] == m.id && f[BuyerField] == m.buyer
    ensures f[NameField] == m.name && f[DescriptionField] == m.description
    ensures f[ClosingField] == m.closing && f[PublicationField] == m.publication
  {
    [m.link, m.id, m.buyer, m.name, m.description, m.closing, m.publication]
  }

  /** The closing cell as the builder reads it. The number column has been
      turned into text in place before the loop (main.py:186), so when the
      closing date is read from that same column a timestamp there arrives
      as its `str`; otherwise the cell is as listed. Either way its text is
      the listed cell's text. */
  function ClosingCell(hs: seq<string>, row: ListingRow, cols: KeyColumns): (c: Cell)
    requires RowReadable(hs, row, cols)
    ensures c == CellAt(hs, row, cols.closing) || c.Text?
    ensures cols.closing != cols.number ==> c == CellAt(hs, row, cols.closing)
    ensures CellText(c) == CellText(CellAt(hs, row, cols.closing))
  {
    var raw := CellAt(hs, row, cols.closing);
    if cols.closing == cols.number then Text(CellText(raw)) else raw
  }

  /** The record for one new listing row. */
  function BuildRecord(hs: seq<string>, row: ListingRow, cols: KeyColumns, detail: string -> Detail): MasterRecord
    requires RowReadable(hs, row, cols)
  {
    var id := KeyOf(hs, row, cols.number);
    var page := detail(id);
    MasterRecord(
      BaseUrl + id,
      id,
      BuyerText(hs, row, cols.buyer),
      CellText(CellAt(hs, row, cols.name)),
      DescriptionText(page),
      ClosingText(ClosingCell(hs, row, cols)),
      PublicationText(page))
  }

  /** A built record is keyed and linked by the listing's number, and takes
      its name and buyer from their columns, the buyer being "N/A" when the
      listing has no buyer column. */
  lemma RecordIdentity(hs: seq<string>, row: ListingRow, cols: KeyColumns, detail: string -> Detail)
    requires RowReadable(hs, row, cols)
    ensures var m := BuildRecord(hs, row, cols, detail);
      && m.id == KeyOf(hs, row, cols.number)
      && m.link == BaseUrl + m.id
      && m.name == CellText(CellAt(hs, row, cols.name))
      && (cols.buyer !in hs ==> m.buyer == NoBuyer)
      && (cols.buyer in hs ==> m.buyer == CellText(CellAt(hs, row, cols.buyer)))
  {
  }

  /** A built record's description is on one line and at most 2500
      characters long; a detail that could not be read stays "No encontrada". */
  lemma RecordDetails(hs: seq<string>, row: ListingRow, cols: KeyColumns, detail: string -> Detail)
    requires RowReadable(hs, row, cols)
    ensures var m := BuildRecord(hs, row, cols, detail);
      && '\n' !in m.description && |m.description| <= DescriptionLimit
      && (detail(m.id).description.None? ==> m.description == NotFound)
      && (detail(m.id).publication.None? ==> m.publication == NotFound)
      && m.description == DescriptionText(detail(m.id))
      && m.publication == PublicationText(detail(m.id))
  {
    var m := BuildRecord(hs, row, cols, detail);
    assert m.description == DescriptionText(detail(m.id));
    assert m.publication == PublicationText(detail(m.id));
  }

  /** A built record's closing date is the listing's text unchanged, or
      the listing's timestamp written day first, except that a timestamp in
      the number column itself is stored as its `str`, year first. */
  lemma RecordClosing(hs: seq<string>, row: ListingRow, cols: KeyColumns, detail: string -> Detail)
    requires RowReadable(hs, row, cols)
    ensures var m := BuildRecord(hs, row, cols, detail);
      var c := CellAt(hs, row, cols.closing);
      && (c.Text? ==> m.closing == c.text)
      && (c.Stamp? && cols.closing != cols.number ==> m.closing == FormatStamp(c.at))
      && (c.Stamp? && cols.closing == cols.number ==> m.closing == IsoStamp(c.at))
  {
  }

  /** The rows appended for a batch of new listing rows, one per row. */
  function MasterRows(hs: seq<string>, rows: seq<ListingRow>, cols: KeyColumns, detail: string -> Detail): (out: seq<seq<string>>)
    requires Readable(hs, rows, cols)
    ensures |out| == |rows|
  {
    seq(|rows|, i requires 0 <= i < |rows| => RowAt(hs, rows, i, cols, detail))
  }

  /** The stored row built for the listing row at position `i`. */
  function RowAt(hs: seq<string>, rows: seq<ListingRow>, i: nat, cols: KeyColumns, detail: string -> Detail): seq<string>
    requires Readable(hs, rows, cols) && i < |rows|
  {
    assert rows[i] in rows;
    Fields(BuildRecord(hs, rows[i], cols, detail))
  }

  /** The row built for one listing row is seven fields wide, is keyed and
      linked by that row's number, and holds a one-line description of at
      most 2500 characters. */
  lemma RowAtLayout(hs: seq<string>, rows: seq<ListingRow>, i: nat, cols: KeyColumns, detail: string -> Detail)
    requires Readable(hs, rows, cols) && i < |rows|
    ensures var f := RowAt(hs, rows, i, cols, detail);
      && |f| == RowWidth
      && f[NumberField] == KeyOf(hs, rows[i], cols.number)
      && f[LinkField] == BaseUrl + f[NumberField]
      && '\n' !in f[DescriptionField]
      && |f[DescriptionField]| <= DescriptionLimit
  {
    assert rows[i] in rows;
    RecordIdentity(hs, rows[i], cols, detail);
    RecordDetails(hs, rows[i], cols, detail);
  }

  /** Every appended row is seven fields wide, is keyed and linked by its
      listing row's number, and holds a one-line description of at most 2500
      characters. */
  lemma MasterRowsLayout(hs: seq<string>, rows: seq<ListingRow>, cols: KeyColumns, detail: string -> Detail)
    requires Readable(hs, rows, cols)
    ensures var out := MasterRows(hs, rows, cols, detail);
      forall i :: 0 <= i < |rows| ==>
        && |out[i]| == RowWidth
        && out[i][NumberField] == KeyOf(hs, rows[i], cols.number)
        && out[i][LinkField] == BaseUrl + out[i][NumberField]
        && '\n' !in out[i][DescriptionField]
        && |out[i][DescriptionField]| <= DescriptionLimit
  {
    var out := MasterRows(hs, rows, cols, detail);
    forall i | 0 <= i < |rows|
      ensures |out[i]| == RowWidth
      ensures out[i][NumberField] == KeyOf(hs, rows[i], cols.number)
      ensures out[i][LinkField] == BaseUrl + out[i][NumberField]
      ensures '\n' !in out[i][DescriptionField] && |out[i][DescriptionField]| <= DescriptionLimit
    {
      assert out[i] == RowAt(hs, rows, i, cols, detail);
      RowAtLayout(hs, rows, i, cols, detail);
    }
  }

  /** Builds the row for one new listing row: the link from the number,
      "No encontrada" for each detail the page did not yield, and the
      closing date written day first when it is still a timestamp (one in
      the number column is already text). */
  method BuildRow(hs: seq<string>, row: ListingRow, cols: KeyColumns, detail: string -> Detail)
    returns (nuevaFila: seq<string>)
    requires RowReadable(hs, row, cols)
    ensures nuevaFila == Fields(BuildRecord(hs, row, cols, detail))
  {
    var licId := KeyOf(hs, row, cols.number);
    var link := BaseUrl + licId;
    var desc := NotFound;
    var fechaPub := NotFound;
    var page := detail(licId);
    if page.description.Some? {
      desc := CleanDescription(page.description.value);
    }
    if page.publication.Some? {
      fechaPub := Strip(page.publication.value);
    }
    var fechaCierreRaw := CellAt(hs, row, cols.closing);
    if cols.closing == cols.number {
      fechaCierreRaw := Text(CellText(fechaCierreRaw));
    }
    var fechaCierre := CellText(fechaCierreRaw);
    if fechaCierreRaw.Stamp? {
      fechaCierre := FormatStamp(fechaCierreRaw.at);
    }
    nuevaFila := [link, licId, BuyerText(hs, row, cols.buyer), CellText(CellAt(hs, row, cols.name)), desc, fechaCierre, fechaPub];
    assert fechaCierreRaw == ClosingCell(hs, row, cols);
    assert desc == DescriptionText(page) && fechaPub == PublicationText(page);
    assert BuildRecord(hs, row, cols, detail) ==
      MasterRecord(link, licId, BuyerText(hs, row, cols.buyer), CellText(CellAt(hs, row, cols.name)), desc, fechaCierre, fechaPub);
  }

  /** The rows built so far, followed by the row for the next listing row,
      are the next prefix of the batch's rows. */
  lemma RowsPrefixGrows(hs: seq<string>, rows: seq<ListingRow>, cols: KeyColumns, detail: string -> Detail,
                        i: nat, filas: seq<seq<string>>, nuevaFila: seq<string>)
    requires Readable(hs, rows, cols) && i < |rows|
    requires filas == MasterRows(hs, rows, cols, detail)[..i]
    requires assert rows[i] in rows; nuevaFila == Fields(BuildRecord(hs, rows[i], cols, detail))
    ensures filas + [nuevaFila] == MasterRows(hs, rows, cols, detail)[..i + 1]
  {
    assert nuevaFila == RowAt(hs, rows, i, cols, detail);
    ExtendPrefix(MasterRows(hs, rows, cols, detail), i, filas);
  }

  /** Builds the rows to append, one per new listing row and in the same
      order, each laid out link, number, buyer, name, description, closing,
      publication. */
  method BuildRows(hs: seq<string>, rows: seq<ListingRow>, cols: KeyColumns, detail: string -> Detail)
    returns (filas: seq<seq<string>>)
    requires Readable(hs, rows, cols)
    ensures filas == MasterRows(hs, rows, cols, detail)
  {
    filas := [];
    var i := 0;
    while i < |rows|
      invariant 0 <= i <= |rows|
      invariant filas == MasterRows(hs, rows, cols, detail)[..i]
    {
      assert rows[i] in rows;
      var nuevaFila := BuildRow(hs, rows[i], cols, detail);
      RowsPrefixGrows(hs, rows, cols, detail, i, filas, nuevaFila);
      filas := filas + [nuevaFila];
      i := i + 1;
    }
    WholePrefix(MasterRows(hs, rows, cols, detail));
  }
}
