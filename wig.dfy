/**
 * The WIG reader `get_hits`: after skipping the first line, a line that starts
 * with `variableStep` names the current chromosome and every other line is a
 * hit at the integer in its first column on that chromosome.
 */
module Wig {
  import opened Outcomes
  import PyText
  import PyInt

  /** A `(chromosome, position)` pair. The chromosome is `None` for data
      lines that come before any `variableStep` line. */
  datatype Hit = Hit(chromosome: Option<string>, position: int)

  /** The exceptions the reader can raise, with the position (in the whole
      file, the skipped first line being 0) of the line that raised them:
      a missing token (`split()[1]` or `split()[0]`) or a first token that
      `int` refuses. */
  datatype WigError = IndexError(line: nat) | ValueError(line: nat)

  /** The loop's variables: the current chromosome and the hits so far. */
  datatype WigState = WigState(chromosome: Option<string>, hits: seq<Hit>)

  predicate IsStepLine(line: string) {
    PyText.StartsWith(line, "variableStep")
  }

  /** `line.split()[1].split('=')[-1].strip()` */
  function StepChromosome(line: string): string
    requires |PyText.Split(line)| >= 2
  {
    PyText.Strip(PyText.AfterLast(PyText.Split(line)[1], '='))
  }

  /** What one line means to the loop body. */
  datatype LineKind =
    | Step(chromosome: string)  // a `variableStep` line naming a chromosome
    | Data(position: int)       // a line whose first token is an integer
    | MissingToken              // `split()[1]` or `split()[0]` is out of range
    | NotInteger                // `int` refuses the first token

  function Classify(line: string): LineKind {
    var tokens := PyText.Split(line);
    if IsStepLine(line) then
      if |tokens| < 2 then MissingToken else Step(StepChromosome(line))
    else if tokens == [] then MissingToken
    else
      match PyInt.ParseInt(tokens[0])
      case None => NotInteger
      case Some(p) => Data(p)
  }

  /** The meaning of every line of a file, in order. */
  function Kinds(lines: seq<string>): (kinds: seq<LineKind>)
    ensures |kinds| == |lines|
    decreases |lines|, 1
  {
    if lines == [] then [] else KindsSnoc(lines)
  }

  /** The meaning of every line of a non-empty file: that of the lines
      before the last, then that of the last. (A separate step, so that a
      proof that only passes `Kinds(lines)` around does not also unfold
      `Classify`.) */
  function KindsSnoc(lines: seq<string>): (kinds: seq<LineKind>)
    requires lines != []
    ensures |kinds| == |lines|
    decreases |lines|, 0
  {
    Kinds(lines[..|lines| - 1]) + [Classify(lines[|lines| - 1])]
  }

  lemma {:induction false} KindAt(lines: seq<string>, i: nat)
    requires i < |lines|
    ensures Kinds(lines)[i] == Classify(lines[i])
    decreases |lines|
  {
    if i < |lines| - 1 {
      KindAt(lines[..|lines| - 1], i);
    }
  }

  /** One pass of the loop body over a line of the given kind, found at
      position `index`. */
  function Feed(st: WigState, kind: LineKind, index: nat): Result<WigState, WigError> {
    match kind
    case Step(c) => Success(WigState(Some(c), st.hits))
    case Data(p) => Success(WigState(st.chromosome, st.hits + [Hit(st.chromosome, p)]))
    case MissingToken => Failure(IndexError(index))
    case NotInteger => Failure(ValueError(index))
  }

  /** The loop's state once the lines before position `n` have been read
      (the first of them skipped), or the exception raised on the way. */
  function ReadLines(kinds: seq<LineKind>, n: nat): Result<WigState, WigError>
    requires 1 <= n <= |kinds|
    decreases n
  {
    if n == 1 then Success(WigState(None, []))
    else
      match ReadLines(kinds, n - 1)
      case Failure(e) => Failure(e)
      case Success(st) => Feed(st, kinds[n - 1], n - 1)
  }

  /** What `get_hits` returns, or raises, for a file with these lines. */
  function ReadWig(lines: seq<string>): Result<seq<Hit>, WigError> {
    if lines == [] then Success([])
    else
      match ReadLines(Kinds(lines), |lines|)
      case Failure(e) => Failure(e)
      case Success(st) => Success(st.hits)
  }

  /** Once a line has raised, the reader stays at that exception. */
  lemma {:induction false} FailureSticks(kinds: seq<LineKind>, k: nat, n: nat)
    requires 1 <= k <= n <= |kinds|
    requires ReadLines(kinds, k).Failure?
    ensures ReadLines(kinds, n) == ReadLines(kinds, k)
    decreases n
  {
    if n > k {
      FailureSticks(kinds, k, n - 1);
    }
  }

  lemma ReadNext(kinds: seq<LineKind>, i: nat, st: WigState)
    requires 1 <= i < |kinds| && ReadLines(kinds, i) == Success(st)
    ensures ReadLines(kinds, i + 1) == Feed(st, kinds[i], i)
  {
  }

  /** The first line plays no part: two files that differ only there read
      the same. */
  lemma FirstLineSkipped(a: seq<string>, b: seq<string>)
    requires a != [] && b != [] && a[1..] == b[1..]
    ensures ReadWig(a) == ReadWig(b)
  {
    var ka, kb := Kinds(a), Kinds(b);
    assert ka[1..] == kb[1..] by {
      forall i | 1 <= i < |a| ensures ka[i] == kb[i] {
        KindAt(a, i);
        KindAt(b, i);
        assert a[i] == a[1..][i - 1];
      }
    }
    ReadLinesIgnoresFirst(ka, kb, |a|);
  }

  lemma {:induction false} ReadLinesIgnoresFirst(a: seq<LineKind>, b: seq<LineKind>, n: nat)
    requires 1 <= n <= |a| && |a| == |b| && a[1..] == b[1..]
    ensures ReadLines(a, n) == ReadLines(b, n)
    decreases n
  {
    if n > 1 {
      ReadLinesIgnoresFirst(a, b, n - 1);
      assert a[n - 1] == a[1..][n - 2] == b[n - 1];
    }
  }

  /** A line the reader accepts: a `variableStep` line with a second token,
      or a line whose first token is an integer. */
  predicate Accepted(kind: LineKind) {
    kind.Step? || kind.Data?
  }

  predicate AllAccepted(kinds: seq<LineKind>, k: nat)
    requires k <= |kinds|
  {
    forall i | 1 <= i < k :: Accepted(kinds[i])
  }

  /** The reader fails exactly when some line after the first is not
      accepted, and then it reports the first such line: with an IndexError
      when that line lacks the token it needs, a ValueError when its first
      token is not an integer. */
  lemma {:induction false} ReadLinesErrors(kinds: seq<LineKind>, n: nat)
    requires 1 <= n <= |kinds|
    ensures ReadLines(kinds, n).Success? <==> AllAccepted(kinds, n)
    ensures ReadLines(kinds, n).Failure? ==>
      var i := ReadLines(kinds, n).error.line;
      && 1 <= i < n && !Accepted(kinds[i]) && AllAccepted(kinds, i)
      && (ReadLines(kinds, n).error.IndexError? <==> kinds[i].MissingToken?)
    decreases n
  {
    if n > 1 {
      ReadLinesErrors(kinds, n - 1);
    }
  }

  /** The number of data lines among the lines at positions 1 up to but
      excluding `k`. */
  function DataCount(kinds: seq<LineKind>, k: nat): nat
    requires 1 <= k <= |kinds|
    decreases k
  {
    if k == 1 then 0
    else DataCount(kinds, k - 1) + (if kinds[k - 1].Data? then 1 else 0)
  }

  lemma {:induction false} DataCountGrows(kinds: seq<LineKind>, i: nat, k: nat)
    requires 1 <= i < k <= |kinds| && kinds[i].Data?
    ensures DataCount(kinds, i) < DataCount(kinds, k)
    decreases k
  {
    if k > i + 1 {
      DataCountGrows(kinds, i, k - 1);
    }
  }

  /** The chromosome named by the most recent `variableStep` line before
      position `k`, or `None` when there is none. */
  function ChromosomeBefore(kinds: seq<LineKind>, k: nat): Option<string>
    requires 1 <= k <= |kinds|
    decreases k
  {
    if k == 1 then None
    else
      match kinds[k - 1]
      case Step(c) => Some(c)
      case _ => ChromosomeBefore(kinds, k - 1)
  }

  /** `ChromosomeBefore` is `None` when no `variableStep` line precedes
      position `k`, and otherwise the chromosome of the last one. */
  lemma {:induction false} ChromosomeBeforeIsLatest(kinds: seq<LineKind>, k: nat)
    requires 1 <= k <= |kinds|
    ensures ChromosomeBefore(kinds, k).None? <==> forall i | 1 <= i < k :: !kinds[i].Step?
    ensures forall i | 1 <= i < k && kinds[i].Step? ::
              (forall j | i < j < k :: !kinds[j].Step?) ==>
              ChromosomeBefore(kinds, k) == Some(kinds[i].chromosome)
    decreases k
  {
    if k > 1 {
      ChromosomeBeforeIsLatest(kinds, k - 1);
    }
  }

  /** The state after a successful read: every line was accepted, the
      current chromosome is the one most recently named, and there is one
      hit per data line. */
  lemma {:induction false} ReadLinesState(kinds: seq<LineKind>, n: nat)
    requires 1 <= n <= |kinds| && ReadLines(kinds, n).Success?
    ensures AllAccepted(kinds, n)
    ensures ReadLines(kinds, n).value.chromosome == ChromosomeBefore(kinds, n)
    ensures |ReadLines(kinds, n).value.hits| == DataCount(kinds, n)
    decreases n
  {
    ReadLinesErrors(kinds, n);
    if n > 1 {
      ReadLinesState(kinds, n - 1);
    }
  }

  /** The hit a data line contributes: it sits after the hits of the data
      lines before it, and pairs the chromosome named most recently before
      it with the line's integer. */
  lemma {:induction false} ReadLinesHitAt(kinds: seq<LineKind>, n: nat, i: nat)
    requires 1 <= i < n <= |kinds| && ReadLines(kinds, n).Success? && kinds[i].Data?
    ensures DataCount(kinds, i) < |ReadLines(kinds, n).value.hits|
    ensures ReadLines(kinds, n).value.hits[DataCount(kinds, i)] ==
              Hit(ChromosomeBefore(kinds, i), kinds[i].position)
    decreases n
  {
    var prev := ReadLines(kinds, n - 1).value;
    var st := ReadLines(kinds, n).value;
    assert ReadLines(kinds, n) == Feed(prev, kinds[n - 1], n - 1);
    if i == n - 1 {
      ReadLinesState(kinds, n - 1);
      assert st.hits == prev.hits + [Hit(prev.chromosome, kinds[i].position)];
    } else {
      ReadLinesHitAt(kinds, n - 1, i);
      assert st.hits[..|prev.hits|] == prev.hits;
    }
  }

  /** What a successful read returns: one hit per data line, in file order,
      made of the most recent chromosome and the line's first integer;
      `variableStep` lines contribute none. */
  lemma ReadLinesHits(kinds: seq<LineKind>, n: nat)
    requires 1 <= n <= |kinds| && ReadLines(kinds, n).Success?
    ensures AllAccepted(kinds, n)
    ensures var st := ReadLines(kinds, n).value;
      && st.chromosome == ChromosomeBefore(kinds, n)
      && |st.hits| == DataCount(kinds, n)
      && forall i | 1 <= i < n && kinds[i].Data? ::
           DataCount(kinds, i) < |st.hits| &&
           st.hits[DataCount(kinds, i)] == Hit(ChromosomeBefore(kinds, i), kinds[i].position)
  {
    ReadLinesState(kinds, n);
    forall i | 1 <= i < n && kinds[i].Data?
      ensures DataCount(kinds, i) < |ReadLines(kinds, n).value.hits|
      ensures ReadLines(kinds, n).value.hits[DataCount(kinds, i)] ==
                Hit(ChromosomeBefore(kinds, i), kinds[i].position)
    {
      ReadLinesHitAt(kinds, n, i);
    }
  }

  /** What `get_hits` returns for the lines of a file it reads without an
      exception: one hit per data line after the first line, in file order,
      each pairing the chromosome named most recently before that line with
      the integer the line starts with. */
  lemma ReadWigHits(lines: seq<string>)
    requires lines != [] && ReadWig(lines).Success?
    ensures var kinds, hits := Kinds(lines), ReadWig(lines).value;
      && |hits| == DataCount(kinds, |lines|)
      && forall i | 1 <= i < |lines| && Classify(lines[i]).Data? ::
           DataCount(kinds, i) < |hits| &&
           hits[DataCount(kinds, i)] == Hit(ChromosomeBefore(kinds, i), Classify(lines[i]).position)
  {
    var kinds := Kinds(lines);
    ReadLinesState(kinds, |lines|);
    forall i | 1 <= i < |lines| && Classify(lines[i]).Data?
      ensures DataCount(kinds, i) < |ReadWig(lines).value|
      ensures ReadWig(lines).value[DataCount(kinds, i)] ==
                Hit(ChromosomeBefore(kinds, i), Classify(lines[i]).position)
    {
      KindAt(lines, i);
      ReadLinesHitAt(kinds, |lines|, i);
    }
  }

  /** `get_hits` reads a file without an exception exactly when every line
      after the first is a `variableStep` line with a second token or a line
      whose first token is an integer. */
  lemma ReadWigAccepts(lines: seq<string>)
    requires lines != []
    ensures ReadWig(lines).Success? <==> forall i | 1 <= i < |lines| :: Accepted(Classify(lines[i]))
  {
    var kinds := Kinds(lines);
    ReadLinesErrors(kinds, |lines|);
    forall i | 1 <= i < |lines| ensures kinds[i] == Classify(lines[i]) {
      KindAt(lines, i);
    }
  }

  /** A data line as a WIG file writes it, an integer followed by any other
      columns, is read as a hit at that integer. */
  lemma DataLineReadsPosition(p: int, rest: seq<string>)
    requires forall t | t in rest :: PyText.IsToken(t)
    ensures Classify(PyText.Join([PyInt.IntText(p)] + rest)) == Data(p)
  {
    var first := PyInt.IntText(p);
    var tokens := [first] + rest;
    var line := PyText.Join(tokens);
    PyInt.IntTextToken(p);
    assert forall t | t in tokens :: PyText.IsToken(t);
    PyText.SplitJoin(tokens);
    assert line[0] == first[0] by {
      if rest != [] {
        assert tokens[1..] == rest;
        assert line == first + " " + PyText.Join(rest);
      }
    }
    assert !IsStepLine(line);
    PyInt.ParseIntText(p);
  }

  /** A `variableStep chrom=<c> ...` header line sets the current chromosome
      to `c`. */
  lemma StepLineNamesChromosome(c: string, rest: seq<string>)
    requires PyText.IsToken(c) && '=' !in c
    requires forall t | t in rest :: PyText.IsToken(t)
    ensures Classify(PyText.Join(["variableStep", "chrom=" + c] + rest)) == Step(c)
  {
    var step, chrom := "variableStep", "chrom=" + c;
    var tokens := [step, chrom] + rest;
    var line := PyText.Join(tokens);
    assert PyText.IsToken(step);
    assert PyText.IsToken(chrom) by {
      assert forall i | 6 <= i < |chrom| :: chrom[i] == c[i - 6];
    }
    assert forall t | t in tokens :: PyText.IsToken(t);
    PyText.SplitJoin(tokens);
    assert tokens[1..] == [chrom] + rest;
    assert line == step + " " + PyText.Join([chrom] + rest);
    assert line[..|step|] == step;
    assert chrom == "chrom" + ['='] + c;
    PyText.AfterLastSep("chrom", '=', c);
    PyText.StripNoSpace(c);
  }
}
