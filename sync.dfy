/** One run of the harvester against the master sheet (main.py:142-316):
    resolve the listing's columns, read the stored keys, append one row per
    new listing row, then sweep the expired rows. The downloaded listing, the
    store connection, the detail pages and today's date are inputs. */
module Sync {
  import opened Wrappers
  import opened Dates
  import opened Columns
  import opened Reconcile
  import opened RowBuilder
  import opened Expiry
  import opened Seqs

  /** `dict(zip(header, row))` for a row padded with "" to the header's
      width: every header becomes a key, and of two equal headers the later
      one supplies the value. */
  function RecordOf(header: seq<string>, row: Row): Record {
    if header == [] then map[]
    else
      var j := |header| - 1;
      RecordOf(header[..j], row)[header[j] := if j < |row| then row[j] else ""]
  }

  /** `get_all_records()`: one record per stored row below the header. */
  function Records(values: seq<Row>): (records: seq<Record>)
    ensures |values| <= 1 ==> records == []
    ensures |values| > 1 ==> |records| == |values| - 1
  {
    if |values| <= 1 then []
    else seq(|values| - 1, i requires 0 <= i < |values| - 1 => RecordOf(values[0], values[i + 1]))
  }

  /** A record's keys are the header's names. */
  lemma {:induction false} RecordOfKeys(header: seq<string>, row: Row, k: string)
    ensures k in RecordOf(header, row) <==> k in header
  {
    if header != [] {
      var last := |header| - 1;
      RecordOfKeys(header[..last], row, k);
      assert header == header[..last] + [header[last]];
    }
  }

  /** The value a record takes from the last header of its name. */
  lemma {:induction false} RecordOfAt(header: seq<string>, row: Row, j: nat)
    requires j < |header| && header[j] !in header[j + 1..]
    ensures header[j] in RecordOf(header, row)
    ensures RecordOf(header, row)[header[j]] == if j < |row| then row[j] else ""
    decreases |header|
  {
    var last := |header| - 1;
    if j < last {
      var front := header[..last];
      assert header[last] in header[j + 1..] by {
        assert header[j + 1..][last - j - 1] == header[last];
      }
      assert front[j] == header[j];
      assert front[j + 1..] == header[j + 1..last];
      assert header[j + 1..] == front[j + 1..] + [header[last]];
      RecordOfAt(front, row, j);
      assert RecordOf(header, row) == RecordOf(front, row)[header[last] := if last < |row| then row[last] else ""];
    }
  }

  /** The sheet layout the builder writes: the number in column B, headed
      "Número", and no later column of that name. */
  predicate KeyedLayout(header: Row) {
    |header| > NumberField && header[NumberField] == KeyColumn && KeyColumn !in header[NumberField + 1..]
  }

  /** Under that layout a stored row's field 1 is one of the stored keys. */
  lemma StoredKey(values: seq<Row>, i: nat)
    requires |values| > 0 && KeyedLayout(values[0])
    requires 0 < i < |values| && |values[i]| > NumberField
    ensures values[i][NumberField] in ExistingKeys(Records(values))
  {
    var master := Records(values);
    var r := RecordOf(values[0], values[i]);
    RecordOfAt(values[0], values[i], NumberField);
    assert KeyColumn in r && r[KeyColumn] == values[i][NumberField];
    assert master[i - 1] == r;
    assert r in master;
  }

  /** The records of the stored rows do not change when rows are added
      below them. */
  lemma RecordsExtend(values: seq<Row>, more: seq<Row>, i: nat)
    requires |values| > 0 && i < |Records(values)|
    ensures i < |Records(values + more)| && Records(values + more)[i] == Records(values)[i]
  {
    assert (values + more)[0] == values[0] && (values + more)[i + 1] == values[i + 1];
  }

  /** Every record holds the key column exactly when the header names it. */
  lemma RecordsKeyed(values: seq<Row>)
    ensures forall r :: r in Records(values) ==> (KeyColumn in r <==> KeyColumn in values[0])
  {
    forall r | r in Records(values)
      ensures KeyColumn in r <==> KeyColumn in values[0]
    {
      var n :| 0 <= n < |Records(values)| && Records(values)[n] == r;
      RecordOfKeys(values[0], values[n + 1], KeyColumn);
    }
  }

  /** Rows below an unchanged header keep their stored keys. */
  lemma ExistingKeysGrow(values: seq<Row>, more: seq<Row>)
    requires |values| > 0
    ensures ExistingKeys(Records(values)) <= ExistingKeys(Records(values + more))
  {
    var before, after := Records(values), Records(values + more);
    RecordsKeyed(values);
    forall k | k in ExistingKeys(before)
      ensures k in ExistingKeys(after)
    {
      ExistingKeyStored(before, k);
      var r :| r in before && KeyText(r) == k;
      var i :| 0 <= i < |before| && before[i] == r;
      RecordsExtend(values, more, i);
      assert r in after;
      assert KeyColumn in r;
    }
  }

  /** A listing whose rows are a data frame and whose key columns resolve. */
  predicate Resolved(listing: Listing) {
    listing.Valid() && ResolveColumns(listing.headers).Success?
  }

  /** The resolved columns let the builder read every listing row. */
  lemma ResolvedReadable(listing: Listing)
    requires Resolved(listing)
    ensures Readable(Labels(listing.headers), listing.rows, ResolveColumns(listing.headers).value)
  {
  }

  /** The listing rows whose number is not stored yet, in listing order. */
  function NewListingRows(values: seq<Row>, hs: seq<string>, rows: seq<ListingRow>, cols: KeyColumns): (added: seq<ListingRow>)
    requires Readable(hs, rows, cols)
    ensures Readable(hs, added, cols)
  {
    NewRows(hs, rows, cols.number, ExistingKeys(Records(values)))
  }

  /** The rows one run appends to the store. */
  function Harvest(values: seq<Row>, hs: seq<string>, rows: seq<ListingRow>, cols: KeyColumns, detail: string -> Detail): (appended: seq<Row>)
    requires Readable(hs, rows, cols)
    ensures |appended| == |NewListingRows(values, hs, rows, cols)|
  {
    MasterRows(hs, NewListingRows(values, hs, rows, cols), cols, detail)
  }

  /** No appended row repeats a number that was already stored. */
  lemma AppendedKeysAreNew(values: seq<Row>, hs: seq<string>, rows: seq<ListingRow>, cols: KeyColumns, detail: string -> Detail)
    requires Readable(hs, rows, cols)
    ensures var appended := Harvest(values, hs, rows, cols, detail);
      forall i :: 0 <= i < |appended| ==>
        |appended[i]| == RowWidth && appended[i][NumberField] !in ExistingKeys(Records(values))
  {
    var existing := ExistingKeys(Records(values));
    var added := NewListingRows(values, hs, rows, cols);
    var appended := Harvest(values, hs, rows, cols, detail);
    forall i | 0 <= i < |appended|
      ensures |appended[i]| == RowWidth && appended[i][NumberField] !in existing
    {
      assert added[i] in added;
      NewRowsExactly(hs, rows, cols.number, existing);
      MasterRowsLayout(hs, added, cols, detail);
    }
  }

  /** Under the sheet's layout, the number of every row appended is a
      stored key afterwards. */
  lemma AppendedRowsStored(values: seq<Row>, hs: seq<string>, added: seq<ListingRow>, cols: KeyColumns, detail: string -> Detail)
    requires |values| > 0 && KeyedLayout(values[0])
    requires Readable(hs, added, cols)
    ensures forall r :: r in added ==>
      KeyOf(hs, r, cols.number) in ExistingKeys(Records(values + MasterRows(hs, added, cols, detail)))
  {
    var appended := MasterRows(hs, added, cols, detail);
    var after := values + appended;
    forall r | r in added
      ensures KeyOf(hs, r, cols.number) in ExistingKeys(Records(after))
    {
      var n :| 0 <= n < |added| && added[n] == r;
      var f := appended[n];
      assert f == RowAt(hs, added, n, cols, detail);
      RowAtLayout(hs, added, n, cols, detail);
      assert after[0] == values[0] && after[|values| + n] == f;
      StoredKey(after, |values| + n);
    }
  }

  /** Once a run has appended its rows, the same listing finds nothing new:
      every listing row's number is then stored. */
  lemma HarvestAgainAddsNothing(values: seq<Row>, hs: seq<string>, rows: seq<ListingRow>, cols: KeyColumns, detail: string -> Detail)
    requires Readable(hs, rows, cols)
    requires |values| > 0 && KeyedLayout(values[0])
    ensures NewListingRows(values + Harvest(values, hs, rows, cols, detail), hs, rows, cols) == []
  {
    var existing := ExistingKeys(Records(values));
    var added := NewListingRows(values, hs, rows, cols);
    var after := values + Harvest(values, hs, rows, cols, detail);
    var stored := ExistingKeys(Records(after));
    NewRowsExactly(hs, rows, cols.number, existing);
    ExistingKeysGrow(values, Harvest(values, hs, rows, cols, detail));
    AppendedRowsStored(values, hs, added, cols, detail);
    assert KeysOf(hs, rows, cols.number) <= stored by {
      forall r | r in rows
        ensures KeyOf(hs, r, cols.number) in stored
      {
        if KeyOf(hs, r, cols.number) !in existing {
          assert r in added;
        }
      }
    }
    KnownRowsAreNotNew(hs, rows, cols.number, stored);
  }

  /** A row the builder writes from a closing timestamp expires exactly when
      that timestamp's date is before today, whether the timestamp was
      written day first or, read from the number column, as its `str`. */
  lemma BuiltRowExpiry(hs: seq<string>, row: ListingRow, cols: KeyColumns, detail: string -> Detail, today: Date)
    requires RowReadable(hs, row, cols)
    requires CellAt(hs, row, cols.closing).Stamp? && ValidDate(DateOf(CellAt(hs, row, cols.closing).at))
    ensures Expired(Fields(BuildRecord(hs, row, cols, detail)), today) <==>
      Before(DateOf(CellAt(hs, row, cols.closing).at), today)
  {
    RecordClosing(hs, row, cols, detail);
    var t := CellAt(hs, row, cols.closing).at;
    if cols.closing == cols.number {
      IsoStampNormalises(t);
    } else {
      FormatStampNormalises(t);
    }
  }

  /** How a run ended. */
  datatype RunOutcome =
    | NoListing
    | MissingColumns
    | StoreUnavailable
    | Completed(appended: nat, removed: nat)

  /** The master sheet: its cells, header row first, as the store holds
      them. */
  class Worksheet {
    var values: seq<Row>

    constructor(initial: seq<Row>)
      ensures values == initial
    {
      values := initial;
    }

    /** `append_rows`: the rows go below the last stored row. */
    method AppendRows(filas: seq<Row>)
      modifies this
      ensures values == old(values) + filas
    {
      values := values + filas;
    }

    /** `clear` followed by `update`: the sheet then holds exactly `filas`. */
    method Rewrite(filas: seq<Row>)
      modifies this
      ensures values == filas
    {
      values := filas;
    }

    /** The expiry sweep: the store is rewritten with the header and the
      current rows only when some row has expired. */
    method SweepExpired(today: Date) returns (eliminados: nat)
      modifies this
      ensures values == SweptTable(old(values), today)
      ensures eliminados == |old(values)| - |values|
      ensures eliminados > 0 <==> values != old(values)
    {
      var valoresHoja := values;
      var filasAConservar;
      filasAConservar, eliminados := SweepTable(valoresHoja, today);
      if eliminados > 0 {
        Rewrite(filasAConservar);
      }
    }
  }

  /** Reads the stored keys, builds one row per listing row whose number is
      not among them and appends those rows, when there are any. */
  method AppendNew(sheet: Worksheet, hs: seq<string>, rows: seq<ListingRow>, cols: KeyColumns, detail: string -> Detail)
    returns (agregadas: nat)
    requires Readable(hs, rows, cols)
    modifies sheet
    ensures sheet.values == old(sheet.values) + Harvest(old(sheet.values), hs, rows, cols, detail)
    ensures agregadas == |Harvest(old(sheet.values), hs, rows, cols, detail)|
  {
    ghost var before := sheet.values;
    ghost var appended := Harvest(before, hs, rows, cols, detail);
    var idsExistentes := ExistingKeys(Records(sheet.values));
    var nuevos := NewRows(hs, rows, cols.number, idsExistentes);
    assert nuevos == NewListingRows(before, hs, rows, cols);
    var filasParaAgregar := [];
    if nuevos != [] {
      filasParaAgregar := BuildRows(hs, nuevos, cols, detail);
      assert filasParaAgregar == appended;
      sheet.AppendRows(filasParaAgregar);
    } else {
      assert appended == [] by { assert |appended| == 0; }
      ConcatEmpty(before);
    }
    agregadas := |filasParaAgregar|;
  }

  /** One run. Without a listing, with a key column missing, or without a
      store, nothing is written; otherwise the new rows are appended and the
      expired rows swept. */
  method RunCycle(download: Option<Listing>, connected: bool, sheet: Worksheet, detail: string -> Detail, today: Date)
    returns (outcome: RunOutcome)
    requires download.Some? ==> download.value.Valid()
    modifies sheet
    ensures download.None? <==> outcome == NoListing
    ensures download.Some? && ResolveColumns(download.value.headers).Failure? <==> outcome == MissingColumns
    ensures download.Some? && ResolveColumns(download.value.headers).Success? && !connected <==>
      outcome == StoreUnavailable
    ensures !outcome.Completed? ==> sheet.values == old(sheet.values)
    ensures outcome.Completed? ==> Resolved(download.value)
    ensures outcome.Completed? ==>
      var hs, cols := Labels(download.value.headers), ResolveColumns(download.value.headers).value;
      var appended := Harvest(old(sheet.values), hs, download.value.rows, cols, detail);
      && outcome.appended == |appended|
      && sheet.values == SweptTable(old(sheet.values) + appended, today)
      && outcome.removed == |old(sheet.values)| + outcome.appended - |sheet.values|
  {
    if download.None? {
      return NoListing;
    }
    var listing := download.value;
    var columns := ResolveColumns(listing.headers);
    if columns.Failure? {
      return MissingColumns;
    }
    if !connected {
      return StoreUnavailable;
    }
    ResolvedReadable(listing);
    var agregadas := AppendNew(sheet, Labels(listing.headers), listing.rows, columns.value, detail);
    var eliminados := sheet.SweepExpired(today);
    return Completed(agregadas, eliminados);
  }
}
