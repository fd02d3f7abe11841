/** The header-less branch of `parseCsv` (src/services/pdfService.ts:13-27):
    once the CSV tokenizer has produced its rows, the column identifiers
    are the positions `"0" .. "w-1"` for the widest row, and each row
    becomes a record keyed by the position of each cell. The tokenizer
    itself is not modelled; its rows are the input. */
module CsvReader {
  import opened JsText
  import opened Types
  import opened FileNames

  /** `Math.max(...rows.map(row => row.length))`, where no rows give
      `-Infinity` and so an empty column list. */
  function MaxWidth(rows: seq<seq<string>>): (w: nat)
    ensures forall k :: 0 <= k < |rows| ==> |rows[k]| <= w
    ensures rows != [] ==> exists k :: 0 <= k < |rows| && |rows[k]| == w
    ensures rows == [] ==> w == 0
  {
    if rows == [] then 0
    else
      var rest := MaxWidth(rows[1..]);
      if |rows[0]| >= rest then |rows[0]| else
        assert rows[1..] != [];
        rest
  }

  /** `Array.from({ length: width }, (_, i) => i.toString())`. */
  function ColumnIds(width: nat): (ids: seq<string>)
    ensures |ids| == width && forall i :: 0 <= i < width ==> ids[i] == Decimal(i)
  {
    seq(width, i requires 0 <= i < width => Decimal(i))
  }

  /** No two columns share an identifier. */
  lemma {:induction false} ColumnIdsDistinct(width: nat)
    ensures var ids := ColumnIds(width);
            forall a, b :: 0 <= a < b < width ==> ids[a] != ids[b]
  {
    forall a, b | 0 <= a < b < width
      ensures Decimal(a) != Decimal(b)
    {
      DecimalInjective(a, b);
    }
  }

  /** The identifiers of the positions `0 .. n-1`. */
  function Positions(n: nat): set<string> {
    set i | 0 <= i < n :: Decimal(i)
  }

  lemma {:induction false} PositionsStep(n: nat)
    ensures Positions(n + 1) == Positions(n) + {Decimal(n)}
  {
  }

  /** `obj` holds every cell of `row` under its position and nothing else. */
  predicate RecordOf(obj: CsvRow, row: seq<string>) {
    && obj.Keys == Positions(|row|)
    && forall i :: 0 <= i < |row| ==> obj[Decimal(i)] == row[i]
  }

  /** The record after the `forEach` has assigned the first `n` cells. */
  function Assigned(row: seq<string>, n: nat): CsvRow
    requires n <= |row|
  {
    if n == 0 then map[] else Assigned(row, n - 1)[Decimal(n - 1) := row[n - 1]]
  }

  /** Assigning the first `n` cells stores each under its own position:
      positions print differently, so no cell overwrites another. */
  lemma {:induction false} AssignedHoldsCells(row: seq<string>, n: nat)
    requires n <= |row|
    ensures Assigned(row, n).Keys == Positions(n)
    ensures forall i :: 0 <= i < n ==> Assigned(row, n)[Decimal(i)] == row[i]
  {
    if n > 0 {
      var k := n - 1;
      AssignedHoldsCells(row, k);
      PositionsStep(k);
      forall i | 0 <= i < n
        ensures Assigned(row, n)[Decimal(i)] == row[i]
      {
        DecimalInjective(i, k);
      }
    }
  }

  /** The `forEach` that copies a row into a fresh record under the
      positions of its cells. */
  method RowToRecord(row: seq<string>) returns (obj: CsvRow)
    ensures obj == Assigned(row, |row|) && RecordOf(obj, row)
  {
    obj := map[];
    for idx := 0 to |row|
      invariant obj == Assigned(row, idx)
    {
      obj := obj[Decimal(idx) := row[idx]];
    }
    AssignedHoldsCells(row, |row|);
  }

  /** `rows.map(...)`: the record of every row, in order. */
  function Records(rows: seq<seq<string>>): (data: seq<CsvRow>)
    ensures |data| == |rows|
  {
    seq(|rows|, k requires 0 <= k < |rows| => Assigned(rows[k], |rows[k]|))
  }

  /** Each record holds every cell of its row under its position and
      nothing else. */
  lemma {:induction false} RecordsHoldRows(rows: seq<seq<string>>)
    ensures forall k :: 0 <= k < |rows| ==> RecordOf(Records(rows)[k], rows[k])
  {
    forall k | 0 <= k < |rows|
      ensures RecordOf(Records(rows)[k], rows[k])
    {
      AssignedHoldsCells(rows[k], |rows[k]|);
    }
  }

  /** The `complete` callback for a file without a header row: one column
      identifier per position up to the widest row, and one record per
      row. */
  method ParseHeaderless(rows: seq<seq<string>>) returns (data: seq<CsvRow>, columns: seq<string>)
    ensures columns == ColumnIds(MaxWidth(rows))
    ensures data == Records(rows)
  {
    data := [];
    for k := 0 to |rows|
      invariant data == Records(rows[..k])
    {
      var obj := RowToRecord(rows[k]);
      assert rows[..k + 1][..k] == rows[..k];
      data := data + [obj];
    }
    assert rows[..|rows|] == rows;
    columns := ColumnIds(MaxWidth(rows));
  }

  /** Every key of every record is a column identifier, and every column
      identifier is a key of some record: the widest row has all of them. */
  lemma {:induction false} RecordsMatchColumns(rows: seq<seq<string>>, data: seq<CsvRow>)
    requires |data| == |rows|
    requires forall k :: 0 <= k < |rows| ==> RecordOf(data[k], rows[k])
    ensures var columns := ColumnIds(MaxWidth(rows));
            && (forall k, key :: 0 <= k < |data| && key in data[k] ==> key in columns)
            && (forall c :: c in columns ==> exists k :: 0 <= k < |data| && c in data[k])
  {
    var width := MaxWidth(rows);
    var columns := ColumnIds(width);
    forall k, key | 0 <= k < |data| && key in data[k]
      ensures key in columns
    {
      var i :| 0 <= i < |rows[k]| && key == Decimal(i);
      assert columns[i] == key;
    }
    forall c | c in columns
      ensures exists k :: 0 <= k < |data| && c in data[k]
    {
      var i :| 0 <= i < |columns| && columns[i] == c;
      var k :| 0 <= k < |rows| && |rows[k]| == width;
      assert c in data[k].Keys;
    }
  }

  /** With header-less data, naming page `index` from column `Decimal(c)`
      reads cell `c` of row `index`: there is a usable cell exactly when
      that row exists, is long enough and has a non-empty cell there. */
  lemma {:induction false} HeaderlessColumnPicksCell(rows: seq<seq<string>>, data: seq<CsvRow>, index: nat, c: nat)
    requires |data| == |rows|
    requires forall k :: 0 <= k < |rows| ==> RecordOf(data[k], rows[k])
    ensures HasCsvCell(index, Decimal(c), data) <==> (index < |rows| && c < |rows[index]| && rows[index][c] != "")
    ensures HasCsvCell(index, Decimal(c), data) ==> data[index][Decimal(c)] == rows[index][c]
  {
    if index < |rows| {
      var row := rows[index];
      if Decimal(c) in data[index] {
        var i :| 0 <= i < |row| && Decimal(c) == Decimal(i);
        DecimalInjective(i, c);
      }
    }
  }
}
