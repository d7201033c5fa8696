/** The expiry sweep of the master table (main.py:278-316): every stored row
    whose closing date reads as a calendar date strictly before today is
    dropped, every other row is kept, and the header row stays first. */
module Expiry {
  import opened Wrappers
  import opened Dates
  import opened Seqs

  /** A stored row as the store returns it: the text of each cell. */
  type Row = seq<string>

  /** The closing-date field of a stored row: field 5, or "" for a row that
      has no such field. */
  function ClosingFieldText(row: Row): (t: string)
    ensures |row| <= 5 ==> t == ""
  {
    if |row| > 5 then row[5] else ""
  }

  /** The sweep drops a row exactly when its closing date reads as a date
      strictly before `today`. */
  predicate Expired(row: Row, today: Date)
    ensures Expired(row, today) ==> |row| > 5 && |row[5]| > ShortText
  {
    var d := Normalise(ClosingFieldText(row));
    d.Some? && Before(d.value, today)
  }

  /** The rows the sweep keeps, in their order. */
  function KeptRows(rows: seq<Row>, today: Date): (kept: seq<Row>)
    ensures |kept| <= |rows|
    ensures forall r :: r in kept ==> r in rows && !Expired(r, today)
  {
    if rows == [] then []
    else
      var last := rows[|rows| - 1];
      var init := KeptRows(rows[..|rows| - 1], today);
      if Expired(last, today) then init else init + [last]
  }

  /** The rows the sweep drops, in their order. */
  function ExpiredRows(rows: seq<Row>, today: Date): (dropped: seq<Row>)
    ensures |dropped| <= |rows|
    ensures forall r :: r in dropped ==> r in rows && Expired(r, today)
  {
    if rows == [] then []
    else
      var last := rows[|rows| - 1];
      var init := ExpiredRows(rows[..|rows| - 1], today);
      if Expired(last, today) then init + [last] else init
  }

  /** A row is dropped exactly when its field 5 is longer than 8 characters,
      its cleaned date segment parses day first or year first to a valid
      date, and that date is before today. */
  lemma ExpiredExactly(row: Row, today: Date)
    ensures Expired(row, today) <==>
      && |ClosingFieldText(row)| > ShortText
      && ParseSegment(CleanSegment(ClosingFieldText(row))).Some?
      && ValidDate(ParseSegment(CleanSegment(ClosingFieldText(row))).value)
      && Before(ParseSegment(CleanSegment(ClosingFieldText(row))).value, today)
  {
  }

  /** Rows the sweep keeps whatever today is: rows without a field 5, short
      date texts, and texts that are not a valid date in either order. */
  lemma KeptWhenUnreadable(row: Row, today: Date)
    requires |row| <= 5 || |row[5]| <= ShortText || ParseSegment(CleanSegment(row[5])).None?
    ensures !Expired(row, today)
  {
  }

  /** A row whose date is today or later is kept. */
  lemma KeptWhenCurrent(row: Row, today: Date)
    requires Normalise(ClosingFieldText(row)).Some?
    requires !Before(Normalise(ClosingFieldText(row)).value, today)
    ensures !Expired(row, today)
  {
  }

  /** A kept row is one of the input rows that has not expired, and every
      such row is kept. */
  lemma {:induction false} KeptRowsExactly(rows: seq<Row>, today: Date)
    ensures forall r :: r in KeptRows(rows, today) <==> r in rows && !Expired(r, today)
  {
    if rows != [] {
      var init := rows[..|rows| - 1];
      KeptRowsExactly(init, today);
      SplitLast(rows);
    }
  }

  /** The sweep works row by row: it keeps the table's order. */
  lemma {:induction false} KeptRowsConcat(a: seq<Row>, b: seq<Row>, today: Date)
    ensures KeptRows(a + b, today) == KeptRows(a, today) + KeptRows(b, today)
    decreases |b|
  {
    if b == [] {
      ConcatEmpty(a);
      ConcatEmpty(KeptRows(a, today));
    } else {
      KeptRowsConcat(a, b[..|b| - 1], today);
      ConcatLast(a, b);
      AppendAssoc(KeptRows(a, today), KeptRows(b[..|b| - 1], today), [b[|b| - 1]]);
    }
  }

  /** The dropped and the kept rows together are the input rows: their
      numbers add up and, as a multiset, nothing is lost or duplicated. */
  lemma {:induction false} SweepPartition(rows: seq<Row>, today: Date)
    ensures |KeptRows(rows, today)| + |ExpiredRows(rows, today)| == |rows|
    ensures multiset(KeptRows(rows, today)) + multiset(ExpiredRows(rows, today)) == multiset(rows)
  {
    if rows != [] {
      var init := rows[..|rows| - 1];
      SweepPartition(init, today);
      SplitLast(rows);
    }
  }

  /** Nothing is dropped exactly when every row is kept. */
  lemma {:induction false} NothingExpiredKeepsAll(rows: seq<Row>, today: Date)
    ensures ExpiredRows(rows, today) == [] <==> KeptRows(rows, today) == rows
  {
    SweepPartition(rows, today);
    if ExpiredRows(rows, today) == [] && rows != [] {
      var init := rows[..|rows| - 1];
      NothingExpiredKeepsAll(init, today);
      SplitLast(rows);
    }
  }

  /** Rows none of which has expired lose nothing to the sweep. */
  lemma {:induction false} NoneExpiredDropsNothing(rows: seq<Row>, today: Date)
    requires forall r :: r in rows ==> !Expired(r, today)
    ensures ExpiredRows(rows, today) == []
  {
    if rows != [] {
      assert rows[|rows| - 1] in rows;
      NoneExpiredDropsNothing(rows[..|rows| - 1], today);
    }
  }

  /** Sweeping the kept rows again drops nothing. */
  lemma {:induction false} KeptRowsIdempotent(rows: seq<Row>, today: Date)
    ensures KeptRows(KeptRows(rows, today), today) == KeptRows(rows, today)
  {
    var kept := KeptRows(rows, today);
    NoneExpiredDropsNothing(kept, today);
    NothingExpiredKeepsAll(kept, today);
  }

  /** One more row decides one more keep or drop. */
  lemma SweepStep(rows: seq<Row>, i: nat, today: Date)
    requires i < |rows|
    ensures !Expired(rows[i], today) ==>
      && KeptRows(rows[..i + 1], today) == KeptRows(rows[..i], today) + [rows[i]]
      && ExpiredRows(rows[..i + 1], today) == ExpiredRows(rows[..i], today)
    ensures Expired(rows[i], today) ==>
      && KeptRows(rows[..i + 1], today) == KeptRows(rows[..i], today)
      && |ExpiredRows(rows[..i + 1], today)| == |ExpiredRows(rows[..i], today)| + 1
  {
    assert rows[..i + 1][..i] == rows[..i];
  }

  /** The table the sweep leaves behind: unchanged when it has at most a
      header row or nothing has expired, and otherwise the header followed by
      the kept rows. */
  function SweptTable(values: seq<Row>, today: Date): (table: seq<Row>)
    ensures |values| <= 1 ==> table == values
    ensures |values| > 1 ==> |table| >= 1 && table[0] == values[0]
  {
    if |values| <= 1 || ExpiredRows(values[1..], today) == [] then values
    else [values[0]] + KeptRows(values[1..], today)
  }

  /** Whether the sweep rewrites it or not, the table left behind is the
      header followed by the rows that have not expired. */
  lemma SweptTableKeepsCurrent(values: seq<Row>, today: Date)
    requires |values| > 1
    ensures SweptTable(values, today) == [values[0]] + KeptRows(values[1..], today)
  {
    NothingExpiredKeepsAll(values[1..], today);
    SplitFirst(values);
  }

  /** Sweeping twice on the same day changes nothing more. */
  lemma SweptTableIdempotent(values: seq<Row>, today: Date)
    ensures SweptTable(SweptTable(values, today), today) == SweptTable(values, today)
  {
    if |values| > 1 {
      var table := SweptTable(values, today);
      SweptTableKeepsCurrent(values, today);
      KeptRowsIdempotent(values[1..], today);
      assert table[1..] == KeptRows(values[1..], today);
      if |table| > 1 {
        SweptTableKeepsCurrent(table, today);
      }
    }
  }

  /** The sweep loop's table and counter after one more row. */
  lemma SweepLoopStep(filas: seq<Row>, i: nat, today: Date, header: Row, table: seq<Row>, count: nat, conservar: bool)
    requires i < |filas|
    requires table == [header] + KeptRows(filas[..i], today)
    requires count == |ExpiredRows(filas[..i], today)|
    requires conservar <==> !Expired(filas[i], today)
    ensures conservar ==> table + [filas[i]] == [header] + KeptRows(filas[..i + 1], today)
    ensures conservar ==> count == |ExpiredRows(filas[..i + 1], today)|
    ensures !conservar ==> table == [header] + KeptRows(filas[..i + 1], today)
    ensures !conservar ==> count + 1 == |ExpiredRows(filas[..i + 1], today)|
  {
    SweepStep(filas, i, today);
    AppendAssoc([header], KeptRows(filas[..i], today), [filas[i]]);
  }

  /** The counts the sweep loop reaches, and when its table differs from
      the stored one. */
  lemma SweepCount(values: seq<Row>, today: Date)
    requires |values| > 1
    ensures |[values[0]] + KeptRows(values[1..], today)| + |ExpiredRows(values[1..], today)| == |values|
    ensures |ExpiredRows(values[1..], today)| > 0 <==> SweptTable(values, today) != values
    ensures |ExpiredRows(values[1..], today)| > 0 ==> SweptTable(values, today) == [values[0]] + KeptRows(values[1..], today)
  {
    SweepPartition(values[1..], today);
    if |ExpiredRows(values[1..], today)| > 0 {
      assert |SweptTable(values, today)| < |values|;
    }
  }

  /** The decision for one stored row: keep it unless its field 5 is longer
      than 8 characters and reads, day first or else year first, as a date
      before today; any text that does not parse keeps the row. */
  method Conserve(fila: Row, today: Date) returns (conservar: bool)
    ensures conservar <==> !Expired(fila, today)
  {
    var fechaTxt := if |fila| > 5 then fila[5] else "";
    conservar := true;
    if |fechaTxt| > ShortText {
      var fechaTxtLimpia := CleanSegment(fechaTxt);
      var fechaObj := ParseDayFirst(fechaTxtLimpia);
      if fechaObj.None? {
        fechaObj := ParseYearFirst(fechaTxtLimpia);
      }
      assert fechaObj == Normalise(ClosingFieldText(fila));
      if fechaObj.Some? && Before(fechaObj.value, today) {
        conservar := false;
      }
    }
  }

  /** The sweep loop: starting from the header alone, walks the stored rows
      keeping the current ones and counting the expired ones. */
  method SweepRows(encabezados: Row, filas: seq<Row>, today: Date) returns (table: seq<Row>, eliminados: nat)
    ensures table == [encabezados] + KeptRows(filas, today)
    ensures eliminados == |ExpiredRows(filas, today)|
  {
    table := [encabezados];
    eliminados := 0;
    var i := 0;
    assert filas[..i] == [];
    while i < |filas|
      invariant 0 <= i <= |filas|
      invariant table == [encabezados] + KeptRows(filas[..i], today)
      invariant eliminados == |ExpiredRows(filas[..i], today)|
    {
      var fila := filas[i];
      var conservar := Conserve(fila, today);
      SweepLoopStep(filas, i, today, encabezados, table, eliminados, conservar);
      if conservar {
        table := table + [fila];
      } else {
        eliminados := eliminados + 1;
      }
      i := i + 1;
    }
    assert filas[..i] == filas;
  }

  /** The sweep: a table with at most a header row is left as it is;
      otherwise the header is popped and the rows swept. The caller rewrites
      the store with `table` only when `eliminados` is positive. */
  method SweepTable(values: seq<Row>, today: Date) returns (table: seq<Row>, eliminados: nat)
    ensures |values| <= 1 ==> table == values && eliminados == 0
    ensures |values| > 1 ==> table == [values[0]] + KeptRows(values[1..], today)
    ensures |values| > 1 ==> eliminados == |ExpiredRows(values[1..], today)|
    ensures |table| + eliminados == |values|
    ensures eliminados > 0 <==> SweptTable(values, today) != values
    ensures eliminados > 0 ==> table == SweptTable(values, today)
  {
    if |values| <= 1 {
      return values, 0;
    }
    var encabezados := values[0];
    var filas := values[1..];
    table, eliminados := SweepRows(encabezados, filas, today);
    SweepCount(values, today);
  }
}
