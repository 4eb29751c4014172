/**
 * `main` in TnSeq.py, without the file reading and writing: read the
 * features, read the hits, then build the hit table.
 */
module Pipeline {
  import opened Outcomes
  import opened Features
  import opened Containment
  import opened Wig
  import opened WigReader
  import opened Counting

  /** The exception that ends a run: one raised while reading the WIG lines,
      or the failed `start < stop` assertion of the first hit's scan. */
  datatype RunError = HitsUnreadable(wig: WigError) | SpanAssertion(find: FindError)

  /** `main`, given the rows of the feature table and the lines of the WIG
      file; the result is the table `main` writes out, keyed by feature
      name. */
  method BuildHitTable(rows: seq<Row>, lines: seq<string>)
    returns (outcome: Result<map<string, int>, RunError>)
    ensures ReadWig(lines).Failure? ==> outcome == Failure(HitsUnreadable(ReadWig(lines).error))
    ensures ReadWig(lines).Success? ==>
      var fs, hits := Ingest(rows), ReadWig(lines).value;
      && (outcome.Failure? <==> hits != [] && FirstMalformed(fs).Some?)
      && (outcome.Failure? ==> outcome.error == SpanAssertion(AssertionError(FirstMalformed(fs).value)))
      && (outcome.Success? ==> outcome.value == Counts(fs, hits))
  {
    var features := GetFeatures(rows);
    var read := GetHits(lines);
    if read.Failure? {
      return Failure(HitsUnreadable(read.error));
    }
    var counted := CountHits(features, read.value);
    if counted.Failure? {
      return Failure(SpanAssertion(counted.error));
    }
    return Success(counted.value);
  }
}
