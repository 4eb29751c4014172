/**
 * The annotated features and the filter that reads them from the rows of the
 * feature table (`Feature` and `get_features` in TnSeq.py).
 */
module Features {
  import opened Outcomes
  import PyInt

  /** A cell of the feature table as pandas hands it over: a missing cell is a
      float NaN, a numeric column gives integers or floats, anything else text. */
  datatype Cell = NaN | Text(text: string) | Integer(integer: int) | Float(number: real)

  /** Python's truth value of a cell. NaN is truthy; "", 0 and 0.0 are not. */
  predicate Truthy(c: Cell) {
    match c
    case NaN => true
    case Text(s) => s != ""
    case Integer(i) => i != 0
    case Float(r) => r != 0.0
  }

  /** `int(cell)`; `None` when `int` raises (on NaN, or on text that is not
      an integer). */
  function ToInt(c: Cell): Option<int> {
    match c
    case NaN => None
    case Text(s) => PyInt.ParseInt(s)
    case Integer(i) => Some(i)
    case Float(r) => Some(PyInt.Truncate(r))
  }

  /** The four columns of a feature-table row that the program reads: the
      name, the chromosome, the start and the stop. */
  datatype Row = Row(name: string, chromosome: Cell, start: Cell, stop: Cell)

  /** An annotated feature. The chromosome is the cell exactly as the row
      carried it; start and stop are the converted integers. */
  datatype Feature = Feature(name: string, chromosome: Cell, start: int, stop: int)

  /** The body of the loop in `get_features`: the row becomes a feature, or
      is skipped (`None`). */
  function Convert(row: Row): Option<Feature> {
    if !Truthy(row.start) || !Truthy(row.stop) || !Truthy(row.chromosome) then None
    else
      match (ToInt(row.start), ToInt(row.stop))
      case (Some(start), Some(stop)) => Some(Feature(row.name, row.chromosome, start, stop))
      case _ => None
  }

  /** The list `get_features` returns for the given rows. */
  function Ingest(rows: seq<Row>): seq<Feature>
    decreases |rows|
  {
    if rows == [] then []
    else
      var kept := Ingest(rows[..|rows| - 1]);
      match Convert(rows[|rows| - 1])
      case Some(f) => kept + [f]
      case None => kept
  }

  /** `get_features`, after the table has been read: walk the rows and append
      each one that survives the filter. */
  method GetFeatures(rows: seq<Row>) returns (result: seq<Feature>)
    ensures result == Ingest(rows)
  {
    result := [];
    for i := 0 to |rows|
      invariant result == Ingest(rows[..i])
    {
      assert rows[..i + 1][..i] == rows[..i];
      var row := rows[i];
      if !Truthy(row.start) || !Truthy(row.stop) || !Truthy(row.chromosome) {
        continue;
      }
      var start := ToInt(row.start);
      var stop := ToInt(row.stop);
      if start.None? || stop.None? {
        continue;
      }
      result := result + [Feature(row.name, row.chromosome, start.value, stop.value)];
    }
    assert rows[..|rows|] == rows;
  }

  /** Rows are filtered one at a time: the survivors of two tables in a row
      are the survivors of the first followed by those of the second, so the
      input order is kept. */
  lemma {:induction false} IngestConcat(a: seq<Row>, b: seq<Row>)
    ensures Ingest(a + b) == Ingest(a) + Ingest(b)
    decreases |b|
  {
    if b != [] {
      var b' := b[..|b| - 1];
      assert (a + b)[..|a + b| - 1] == a + b';
      IngestConcat(a, b');
    } else {
      assert a + b == a;
    }
  }

  /** A feature comes out of the filter exactly when some row converts to it. */
  lemma {:induction false} IngestMembers(rows: seq<Row>, f: Feature)
    ensures f in Ingest(rows) <==> exists i | 0 <= i < |rows| :: Convert(rows[i]) == Some(f)
    decreases |rows|
  {
    if rows != [] {
      var init := rows[..|rows| - 1];
      IngestMembers(init, f);
      if exists i | 0 <= i < |init| :: Convert(init[i]) == Some(f) {
        var i :| 0 <= i < |init| && Convert(init[i]) == Some(f);
        assert rows[i] == init[i];
      }
      if exists i | 0 <= i < |rows| :: Convert(rows[i]) == Some(f) {
        var i :| 0 <= i < |rows| && Convert(rows[i]) == Some(f);
        if i < |init| { assert init[i] == rows[i]; }
      }
    }
  }

  /** Dropping is silent: no row adds more than one feature, and a table of
      rows that all pass yields exactly one feature per row. */
  lemma {:induction false} IngestLength(rows: seq<Row>)
    ensures |Ingest(rows)| <= |rows|
    ensures |Ingest(rows)| == |rows| <==> forall i | 0 <= i < |rows| :: Convert(rows[i]).Some?
    decreases |rows|
  {
    if rows != [] {
      var init := rows[..|rows| - 1];
      IngestLength(init);
      assert forall i | 0 <= i < |init| :: init[i] == rows[i];
    }
  }

  /** The row a feature would be written back as, with integer cells. */
  function AsRow(f: Feature): Row {
    Row(f.name, f.chromosome, Integer(f.start), Integer(f.stop))
  }

  function AsRows(fs: seq<Feature>): (rows: seq<Row>)
    ensures |rows| == |fs|
    ensures forall i | 0 <= i < |fs| :: rows[i] == AsRow(fs[i])
  {
    seq(|fs|, i requires 0 <= i < |fs| => AsRow(fs[i]))
  }

  /** A feature that survives being written back as a row: its chromosome
      is truthy and neither its start nor its stop is zero. */
  predicate RoundTrips(f: Feature) {
    Truthy(f.chromosome) && f.start != 0 && f.stop != 0
  }

  /** A feature written back as a row converts to itself, or is dropped when
      it does not round-trip. */
  lemma ConvertAsRow(f: Feature)
    ensures Convert(AsRow(f)) == if RoundTrips(f) then Some(f) else None
  {
  }

  /** Reading features back from their own rows returns them unchanged if,
      and only if, every one of them round-trips (Python drops a literal 0 as
      falsy before converting it). */
  lemma {:induction false} IngestAsRows(fs: seq<Feature>)
    ensures Ingest(AsRows(fs)) == fs <==> forall f | f in fs :: RoundTrips(f)
    decreases |fs|
  {
    if fs != [] {
      var init, f := fs[..|fs| - 1], fs[|fs| - 1];
      var rows := AsRows(fs);
      assert rows[..|rows| - 1] == AsRows(init);
      assert fs == init + [f];
      IngestAsRows(init);
      ConvertAsRow(f);
      if !RoundTrips(f) {
        IngestLength(AsRows(init));
      }
    }
  }

  /** The truth test runs before the conversion: a literal integer 0 start
      is dropped, while the text "0" is truthy and turns into a start of 0. */
  lemma ZeroStart(name: string, chr: string)
    requires chr != ""
    ensures Convert(Row(name, Text(chr), Integer(0), Integer(5))) == None
    ensures Convert(Row(name, Text(chr), Text("0"), Integer(5))) == Some(Feature(name, Text(chr), 0, 5))
  {
    assert PyInt.ParseDigits("0") == Some(0);
  }

  /** A float cell is truncated by `int`: the truthy 0.5 becomes a start of 0. */
  lemma FloatStart(name: string, chr: string)
    requires chr != ""
    ensures Convert(Row(name, Text(chr), Float(0.5), Float(5.0))) == Some(Feature(name, Text(chr), 0, 5))
  {
  }

  /** A missing start (NaN) passes the truth test and is dropped by `int`; a
      missing chromosome (NaN) is kept, while an empty one is dropped. */
  lemma MissingCells(name: string, chr: string)
    requires chr != ""
    ensures Convert(Row(name, Text(chr), NaN, Integer(5))) == None
    ensures Convert(Row(name, NaN, Integer(1), Integer(5))) == Some(Feature(name, NaN, 1, 5))
    ensures Convert(Row(name, Text(""), Integer(1), Integer(5))) == None
  {
  }
}
