/** Which rows of the daily listing are new: the keys already in the master
    table, and the listing rows whose key is not among them
    (main.py:177-187). Keys are compared as text. */
module Reconcile {
  import opened Columns
  import opened Seqs

  /** One master record as the store returns it: column name to cell text. */
  type Record = map<string, string>

  /** The master column holding the procurement number. */
  const KeyColumn: string := "Número"

  /** `str(value)` of a record's key; a record without the column reads as
      the text of a missing value. */
  function KeyText(r: Record): string {
    if KeyColumn in r then r[KeyColumn] else "nan"
  }

  predicate HasKeyColumn(master: seq<Record>) {
    exists r :: r in master && KeyColumn in r
  }

  /** The keys already stored; none when the master is empty or has no
      number column. */
  function ExistingKeys(master: seq<Record>): (keys: set<string>)
    ensures keys == {} <==> |master| == 0 || !HasKeyColumn(master)
    ensures forall r :: r in master && KeyColumn in r ==> r[KeyColumn] in keys
  {
    if |master| == 0 || !HasKeyColumn(master) then {}
    else
      var keys := set r | r in master :: KeyText(r);
      assert KeyText(master[0]) in keys;
      keys
  }

  /** Every existing key is the key text of a stored record, and exists
      only when some record has the number column. */
  lemma ExistingKeyStored(master: seq<Record>, k: string)
    requires k in ExistingKeys(master)
    ensures HasKeyColumn(master)
    ensures exists r :: r in master && KeyText(r) == k
  {
  }

  /** Rows that are data-frame rows of the listing and carry the key column. */
  predicate Keyed(hs: seq<string>, rows: seq<ListingRow>, col: string) {
    col in hs && forall r :: r in rows ==> |r| == |hs|
  }

  /** The key of a listing row: the text of its number cell. */
  function KeyOf(hs: seq<string>, row: ListingRow, col: string): string
    requires col in hs && |row| == |hs|
  {
    CellText(CellAt(hs, row, col))
  }

  /** The keys of a batch of listing rows. */
  function KeysOf(hs: seq<string>, rows: seq<ListingRow>, col: string): set<string>
    requires Keyed(hs, rows, col)
  {
    set r | r in rows :: KeyOf(hs, r, col)
  }

  /** The rows whose key is not among `existing`, in listing order. */
  function NewRows(hs: seq<string>, rows: seq<ListingRow>, col: string, existing: set<string>): (r: seq<ListingRow>)
    requires Keyed(hs, rows, col)
    ensures |r| <= |rows|
    ensures forall x :: x in r ==> x in rows
    ensures Keyed(hs, r, col)
  {
    if rows == [] then []
    else
      var rest := NewRows(hs, rows[1..], col, existing);
      if KeyOf(hs, rows[0], col) in existing then rest else [rows[0]] + rest
  }

  /** A row is new exactly when it is a listing row whose key is not stored. */
  lemma {:induction false} NewRowsExactly(hs: seq<string>, rows: seq<ListingRow>, col: string, existing: set<string>)
    requires Keyed(hs, rows, col)
    ensures forall x :: x in NewRows(hs, rows, col, existing) <==> x in rows && KeyOf(hs, x, col) !in existing
  {
    if rows != [] {
      NewRowsExactly(hs, rows[1..], col, existing);
      assert forall x :: x in rows <==> x == rows[0] || x in rows[1..];
    }
  }

  /** Two batches of keyed rows make one. */
  lemma KeyedConcat(hs: seq<string>, a: seq<ListingRow>, b: seq<ListingRow>, col: string)
    requires Keyed(hs, a, col) && Keyed(hs, b, col)
    ensures Keyed(hs, a + b, col)
  {
    forall r | r in a + b
      ensures |r| == |hs|
    {
      assert r in a || r in b;
    }
  }

  /** The filter works row by row: it keeps the listing's order. */
  lemma {:induction false} NewRowsConcat(hs: seq<string>, a: seq<ListingRow>, b: seq<ListingRow>, col: string, existing: set<string>)
    requires Keyed(hs, a, col) && Keyed(hs, b, col)
    ensures Keyed(hs, a + b, col)
    ensures NewRows(hs, a + b, col, existing) == NewRows(hs, a, col, existing) + NewRows(hs, b, col, existing)
  {
    KeyedConcat(hs, a, b, col);
    if a == [] {
      EmptyConcat(b);
    } else {
      var rest := a[1..];
      assert Keyed(hs, rest, col) by {
        forall r | r in rest ensures |r| == |hs| { assert r in a; }
      }
      ConcatFirst(a, b);
      NewRowsConcat(hs, rest, b, col, existing);
      var head := if KeyOf(hs, a[0], col) in existing then [] else [a[0]];
      assert NewRows(hs, a + b, col, existing) == head + NewRows(hs, rest + b, col, existing);
      assert NewRows(hs, a, col, existing) == head + NewRows(hs, rest, col, existing);
      AppendAssoc(head, NewRows(hs, rest, col, existing), NewRows(hs, b, col, existing));
    }
  }

  /** Rows whose keys are all known are never new. */
  lemma {:induction false} KnownRowsAreNotNew(hs: seq<string>, rows: seq<ListingRow>, col: string, existing: set<string>)
    requires Keyed(hs, rows, col)
    requires KeysOf(hs, rows, col) <= existing
    ensures NewRows(hs, rows, col, existing) == []
  {
    if rows != [] {
      assert KeyOf(hs, rows[0], col) in KeysOf(hs, rows, col);
      assert KeysOf(hs, rows[1..], col) <= KeysOf(hs, rows, col);
      KnownRowsAreNotNew(hs, rows[1..], col, existing);
    }
  }

  /** Filtering again against the stored keys plus the keys just added finds
      nothing new. */
  lemma NewRowsIdempotent(hs: seq<string>, rows: seq<ListingRow>, col: string, existing: set<string>)
    requires Keyed(hs, rows, col)
    ensures var added := NewRows(hs, rows, col, existing);
      NewRows(hs, added, col, existing + KeysOf(hs, added, col)) == []
  {
    var added := NewRows(hs, rows, col, existing);
    KnownRowsAreNotNew(hs, added, col, existing + KeysOf(hs, added, col));
  }

  /** The keys of the new rows are all absent from the store. */
  lemma NewKeysAreUnstored(hs: seq<string>, rows: seq<ListingRow>, col: string, existing: set<string>)
    requires Keyed(hs, rows, col)
    ensures KeysOf(hs, NewRows(hs, rows, col, existing), col) !! existing
  {
    NewRowsExactly(hs, rows, col, existing);
  }

  /** With no stored keys every listing row is new. */
  lemma {:induction false} NothingStoredAllNew(hs: seq<string>, rows: seq<ListingRow>, col: string)
    requires Keyed(hs, rows, col)
    ensures NewRows(hs, rows, col, {}) == rows
  {
    if rows != [] {
      NothingStoredAllNew(hs, rows[1..], col);
    }
  }

  /** An empty master, or one without a number column, makes every listing
      row new. */
  lemma EmptyMasterAllNew(hs: seq<string>, rows: seq<ListingRow>, col: string, master: seq<Record>)
    requires Keyed(hs, rows, col)
    requires |master| == 0 || !HasKeyColumn(master)
    ensures NewRows(hs, rows, col, ExistingKeys(master)) == rows
  {
    NothingStoredAllNew(hs, rows, col);
  }
}
