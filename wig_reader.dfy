/**
 * The reader `get_hits` itself, proved against the description of what it
 * reads in module `Wig`.
 */
module WigReader {
  import opened Outcomes
  import opened Wig
  import PyText
  import PyInt

  /** The body of `get_hits`'s loop for one line: what the line means, or
      which exception it raises. */
  method ReadLine(line: string) returns (kind: LineKind)
    ensures kind == Classify(line)
  {
    var tokens := PyText.Split(line);
    if IsStepLine(line) {
      if |tokens| < 2 {
        return MissingToken;
      }
      return Step(StepChromosome(line));
    }
    if tokens == [] {
      return MissingToken;
    }
    var position := PyInt.ParseInt(tokens[0]);
    if position.None? {
      return NotInteger;
    }
    return Data(position.value);
  }

  /** `ReadLine` on the line at position `i`, stated in terms of the
      meaning of the whole file. */
  method ReadLineAt(lines: seq<string>, i: nat) returns (kind: LineKind)
    requires i < |lines|
    ensures kind == Kinds(lines)[i]
  {
    kind := ReadLine(lines[i]);
    KindAt(lines, i);
  }

  /** `get_hits(hit_wig_filename)`, on the lines of the file. */
  method GetHits(lines: seq<string>) returns (outcome: Result<seq<Hit>, WigError>)
    ensures outcome == ReadWig(lines)
  {
    var result := [];
    var chromosome := None;
    if lines == [] {
      return Success(result);
    }
    ghost var kinds := Kinds(lines);
    var i := 1;
    while i < |lines|
      invariant 1 <= i <= |lines|
      invariant ReadLines(kinds, i) == Success(WigState(chromosome, result))
    {
      var kind := ReadLineAt(lines, i);
      ReadNext(kinds, i, WigState(chromosome, result));
      match kind {
        case Step(c) =>
          chromosome := Some(c);
        case Data(p) =>
          result := result + [Hit(chromosome, p)];
        case MissingToken =>
          FailureSticks(kinds, i + 1, |lines|);
          return Failure(IndexError(i));
        case NotInteger =>
          FailureSticks(kinds, i + 1, |lines|);
          return Failure(ValueError(i));
      }
      i := i + 1;
    }
    return Success(result);
  }
}
