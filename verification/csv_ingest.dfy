/**
 * The row rule of the host's `read_csv_file`: records come in file order;
 * a record with both a first and a second field contributes the parsed
 * first field to the `x` values and the parsed second field to the `y`
 * values; a record with fewer fields is skipped; a record the reader
 * cannot deliver, or a field that does not parse, ends the whole read with
 * an error and no values.
 *
 * Opening the file and the CSV reader itself are outside the model: the
 * file is the sequence of rows the reader yields, each either a record
 * (its fields as strings) or a read error. Number parsing is a parameter.
 */
module CsvIngest {
  import opened Wrappers

  datatype Row = Record(fields: seq<string>) | Unreadable

  /** Why a read ended: the reader failed on a row, or a field did not parse. */
  datatype CsvError = ReadError(row: nat) | ParseError(row: nat, column: nat)

  /** The row has a first and a second field. */
  predicate Accepted(row: Row) {
    row.Record? && |row.fields| >= 2
  }

  /** Reading stops at this row with an error. */
  predicate Offending<F>(row: Row, parse: string -> Option<F>) {
    row.Unreadable? ||
    (Accepted(row) && (parse(row.fields[0]).None? || parse(row.fields[1]).None?))
  }

  /** No row of `rows` stops the read. */
  predicate Clean<F>(rows: seq<Row>, parse: string -> Option<F>) {
    forall k :: 0 <= k < |rows| ==> !Offending(rows[k], parse)
  }

  /** The error reported for offending row number `k`; `x` is parsed before `y`. */
  function RowError<F>(row: Row, k: nat, parse: string -> Option<F>): CsvError
    requires Offending(row, parse)
  {
    if row.Unreadable? then ReadError(k)
    else if parse(row.fields[0]).None? then ParseError(k, 0)
    else ParseError(k, 1)
  }

  /** The parsed values of field `column` of the accepted rows, in file order. */
  function Column<F>(rows: seq<Row>, parse: string -> Option<F>, column: nat): seq<F>
    requires column < 2 && Clean(rows, parse)
  {
    if rows == [] then []
    else
      var init, last := rows[..|rows| - 1], rows[|rows| - 1];
      assert Clean(init, parse) by {
        forall k | 0 <= k < |init| ensures !Offending(init[k], parse) {
          assert init[k] == rows[k];
        }
      }
      if Accepted(last) then Column(init, parse, column) + [parse(last.fields[column]).value]
      else Column(init, parse, column)
  }

  /** The number of accepted rows. */
  function CountAccepted(rows: seq<Row>): nat {
    if rows == [] then 0
    else CountAccepted(rows[..|rows| - 1]) + (if Accepted(rows[|rows| - 1]) then 1 else 0)
  }

  /**
   * `read_csv_file`: walks the rows in order. A read error or a field that
   * does not parse returns that error at once; otherwise both vectors of
   * values are returned.
   */
  method ReadCsvFile<F>(rows: seq<Row>, parse: string -> Option<F>)
    returns (r: Result<(seq<F>, seq<F>), CsvError>)
    ensures r.Success? <==> Clean(rows, parse)
    ensures r.Success? ==> r.value == (Column(rows, parse, 0), Column(rows, parse, 1))
    ensures r.Failure? ==>
      var k := r.error.row;
      k < |rows| && Offending(rows[k], parse) && Clean(rows[..k], parse) &&
      r.error == RowError(rows[k], k, parse)
  {
    var xValues: seq<F> := [];
    var yValues: seq<F> := [];
    for k := 0 to |rows|
      invariant Clean(rows[..k], parse)
      invariant xValues == Column(rows[..k], parse, 0)
      invariant yValues == Column(rows[..k], parse, 1)
    {
      var row := rows[k];
      PrefixStep(rows, parse, k);
      if row.Unreadable? {
        return Failure(ReadError(k));
      }
      if |row.fields| > 0 && |row.fields| > 1 {
        var x := parse(row.fields[0]);
        if x.None? {
          return Failure(ParseError(k, 0));
        }
        var y := parse(row.fields[1]);
        if y.None? {
          return Failure(ParseError(k, 1));
        }
        xValues := xValues + [x.value];
        yValues := yValues + [y.value];
      }
    }
    assert rows[..|rows|] == rows;
    return Success((xValues, yValues));
  }

  /** Extending a clean prefix by one row that does not offend. */
  lemma PrefixStep<F>(rows: seq<Row>, parse: string -> Option<F>, k: int)
    requires 0 <= k < |rows| && Clean(rows[..k], parse)
    ensures Clean(rows[..k + 1], parse) <==> !Offending(rows[k], parse)
    ensures !Offending(rows[k], parse) ==>
      rows[..k + 1][..k] == rows[..k] && rows[..k + 1][k] == rows[k]
  {
    assert rows[..k + 1][..k] == rows[..k];
    assert forall j :: 0 <= j < k ==> rows[..k + 1][j] == rows[..k][j];
  }

  /** Every accepted row contributes exactly one value to each column. */
  lemma {:induction false} ColumnLength<F>(rows: seq<Row>, parse: string -> Option<F>, column: nat)
    requires column < 2 && Clean(rows, parse)
    ensures |Column(rows, parse, column)| == CountAccepted(rows)
  {
    if rows != [] {
      var init := rows[..|rows| - 1];
      assert Clean(init, parse) by {
        forall k | 0 <= k < |init| ensures !Offending(init[k], parse) {
          assert init[k] == rows[k];
        }
      }
      ColumnLength(init, parse, column);
    }
  }

  /** A successful read returns as many `x` values as `y` values. */
  lemma ColumnsPair<F>(rows: seq<Row>, parse: string -> Option<F>)
    requires Clean(rows, parse)
    ensures |Column(rows, parse, 0)| == |Column(rows, parse, 1)| == CountAccepted(rows)
  {
    ColumnLength(rows, parse, 0);
    ColumnLength(rows, parse, 1);
  }

  /** The values of a single row: its parsed field if accepted, nothing otherwise. */
  lemma ColumnOfRow<F>(row: Row, parse: string -> Option<F>, column: nat)
    requires column < 2 && !Offending(row, parse)
    ensures Clean([row], parse)
    ensures Column([row], parse, column) ==
            if Accepted(row) then [parse(row.fields[column]).value] else []
  {
    assert [row][..0] == [];
  }

  /**
   * Reading is in file order: the values of two consecutive stretches of
   * rows are those of the first stretch followed by those of the second.
   */
  lemma {:induction false} ColumnAppend<F>(a: seq<Row>, b: seq<Row>, parse: string -> Option<F>, column: nat)
    requires column < 2 && Clean(a, parse) && Clean(b, parse)
    ensures Clean(a + b, parse)
    ensures Column(a + b, parse, column) == Column(a, parse, column) + Column(b, parse, column)
  {
    assert forall k :: 0 <= k < |a + b| ==> (a + b)[k] == if k < |a| then a[k] else b[k - |a|];
    if b != [] {
      var init, last := b[..|b| - 1], b[|b| - 1];
      assert Clean(init, parse) by {
        forall k | 0 <= k < |init| ensures !Offending(init[k], parse) {
          assert init[k] == b[k];
        }
      }
      ColumnAppend(a, init, parse, column);
      assert (a + b)[..|a + b| - 1] == a + init;
      assert (a + b)[|a + b| - 1] == last;
    } else {
      assert a + b == a;
    }
  }

}
