# TnSeq hit counter, modelled in Dafny

`TnSeq.py` counts transposon insertions ("hits") per genomic feature. It
works in four steps:

1. It reads annotated features from a feature table (`get_features`). A row
   is kept only when its chromosome, start and stop are truthy and start and
   stop convert with `int`.
2. It reads `(chromosome, position)` hits from a WIG file (`get_hits`). The
   first line is skipped. A `variableStep` line names the current
   chromosome. Every other line is a hit at the integer in its first column.
3. For each hit it scans the feature list (`find_features`). The scan keeps
   every feature on the same chromosome whose inclusive span `[start, stop]`
   holds the position, and asserts `start < stop` of every feature it passes.
4. It counts, per feature name, how many hits each feature received
   (`main`). Every name starts at 0 and each feature found adds 1.

The model takes the rows of the feature table and the lines of the WIG file
as values. Each routine of the program is a Dafny method with the loop the
program has. Each method is proved equal to a recursive specification
function, and the properties of the program are lemmas about those
functions.

Modules:

- `Outcomes`: `Option` and `Result`.
- `PyText`: `str.isspace`, `strip`, `split()`, `startswith`, `split('=')[-1]` and `" ".join`.
- `PyInt`: `int` on text and on floats, and `str` on integers.
- `Features`: table cells, rows, `Feature`, and `get_features`.
- `Containment`: `find_features`.
- `Wig`: what each WIG line means, and what reading the lines produces.
- `WigReader`: the `get_hits` loop.
- `Counting`: the seeding and counting loops of `main`.
- `Pipeline`: `main` without the file reading and writing.

Exceptions become `Failure` results: an `AssertionError` from the scan, or an
`IndexError`/`ValueError` from a WIG line.

The start-before-stop check exists only inside `find_features`. So a
malformed feature stops the run only when there is at least one hit (then the
first hit's scan reaches it). With no hits the run succeeds. The model
follows the code here (`Counting.CountHits`, `Pipeline.BuildHitTable`),
rather than the stronger rule that every feature must have `start < stop`.

## Model

| member | source | states |
|---|---|---|
| Features.Truthy | TnSeq.py:32 | definition: Python's truth value of a table cell (NaN is truthy; "", 0 and 0.0 are not) |
| Features.ToInt | TnSeq.py:35-39 | definition: `int` of a cell, with `None` for the exception the bare `except` swallows (NaN, non-integer text) |
| Features.Convert | TnSeq.py:32-41 | definition: one pass of the loop body, a row becoming a `Feature` or being skipped; characterised by `ConvertAsRow`, `ZeroStart`, `FloatStart`, `MissingCells` |
| Features.Ingest | TnSeq.py:26-43 | definition: the list the loop builds, the converted rows in input order; characterised by `IngestConcat`, `IngestMembers`, `IngestLength` |
| Features.GetFeatures | TnSeq.py:17-43 | the loop appends exactly the rows that pass the truth test and convert, giving `Ingest(rows)` |
| Features.IngestConcat | TnSeq.py:26-41 | rows are filtered one at a time: survivors of `a + b` are survivors of `a` followed by survivors of `b`, so input order is kept |
| Features.IngestMembers | TnSeq.py:26-41 | a feature is returned if and only if some row converts to it |
| Features.IngestLength | TnSeq.py:26-41 | no row adds more than one feature, and there is one feature per row exactly when every row converts |
| Features.ConvertAsRow | TnSeq.py:32-41 | a feature written back as a row converts to itself exactly when its chromosome is truthy and start and stop are nonzero, and is dropped otherwise |
| Features.IngestAsRows | TnSeq.py:26-41 | reading features back from their rows returns them unchanged if and only if every one of them round-trips |
| Features.ZeroStart | TnSeq.py:32-37 | a literal 0 start is dropped by the truth test, but the text "0" is kept and becomes start 0 |
| Features.FloatStart | TnSeq.py:36-37 | a float start is truncated by `int` (0.5 becomes 0) |
| Features.MissingCells | TnSeq.py:32-39 | a NaN start passes the truth test but is dropped by `int`; a NaN chromosome is kept; an empty chromosome is dropped |
| Containment.Covers | TnSeq.py:53 | definition: the match test, the same chromosome text and `start <= position <= stop` |
| Containment.Matching | TnSeq.py:52-54 | every returned feature is in the list and covers the position |
| Containment.FirstMalformed | TnSeq.py:56 | `None` exactly when every feature has `start < stop`, else the index of the first that does not |
| Containment.FindFeatures | TnSeq.py:46-58 | fails with the index of the first feature with `start >= stop`, matching or not; otherwise returns `Matching` |
| Containment.MatchingConcat | TnSeq.py:52-54 | the scan is one feature at a time, so the result keeps list order |
| Containment.MatchingMultiplicity | TnSeq.py:52-54 | a covering feature occurs in the result exactly as often as in the list; any other feature, never |
| Containment.MatchingMembers | TnSeq.py:52-53 | a feature is returned if and only if it is in the list, on the same chromosome, and `start <= position <= stop` |
| Containment.MatchingEmpty | TnSeq.py:47-54 | the result is empty exactly when no feature covers the position |
| Containment.SpanInclusive | TnSeq.py:53 | both ends of a span count as inside; the positions next to them do not |
| PyText.Strip | TnSeq.py:70 | definition: `strip()` as `rstrip()` after `lstrip()` |
| PyText.Split | TnSeq.py:70-73 | definition: `split()`, the maximal whitespace-free runs in order; characterised by `SplitTokens` and `SplitJoin` |
| PyText.StartsWith | TnSeq.py:69 | definition: `startswith`, the text begins with the prefix |
| PyText.LStrip | TnSeq.py:70 | `lstrip()` removes exactly the leading whitespace: the result is a suffix starting with a non-space |
| PyText.RStrip | TnSeq.py:70 | `rstrip()` removes exactly the trailing whitespace: the result is a prefix ending with a non-space |
| PyText.StripNoSpace | TnSeq.py:70 | `strip()` leaves text without whitespace alone |
| PyText.SplitTokens | TnSeq.py:70-73 | every piece of `split()` is non-empty and free of whitespace |
| PyText.SplitJoin | TnSeq.py:70-73 | `split()` undoes a space-join of genuine tokens |
| PyText.AfterLast | TnSeq.py:70 | `split('=')[-1]` is the longest suffix without the separator, preceded by the separator when shorter than the text |
| PyText.AfterLastSep | TnSeq.py:70 | `split('=')[-1]` of `prefix + "=" + suffix` is `suffix` when `suffix` has no `=` |
| PyInt.ParseInt | TnSeq.py:73 | definition: `int` of text, surrounding whitespace stripped, then `ParseSigned`; read back by `ParseIntText` |
| PyInt.ParseSigned | TnSeq.py:73 | definition: an optional `+` or `-` followed by a decimal digit run |
| PyInt.ParseDigits | TnSeq.py:36-37 | a digit run parses exactly when it is non-empty and all ASCII digits |
| PyInt.ParseIntText | TnSeq.py:73 | `int(str(x)) == x` for every integer, for the model's `int` and `str`, which have no digit limit (see "Left out") |
| PyInt.SignedText | TnSeq.py:73 | the signed-number step alone reads `str(x)` back as `x` |
| PyInt.IntTextToken | TnSeq.py:73 | `str(x)` is one whitespace-free token starting with `-` or a digit |
| PyInt.Truncate | TnSeq.py:36-37 | `int` of a float truncates toward zero |
| Wig.StepChromosome | TnSeq.py:70 | definition: `line.split()[1].split('=')[-1].strip()`; `StepLineNamesChromosome` reads it on a header line |
| Wig.Classify | TnSeq.py:69-73 | definition: what the loop body does with one line: name a chromosome, yield a hit, or raise `IndexError`/`ValueError`; characterised by `DataLineReadsPosition` and `StepLineNamesChromosome` |
| Wig.Feed | TnSeq.py:69-73 | definition: one pass of the loop body on the state (current chromosome, hits so far) |
| Wig.ReadLines | TnSeq.py:65-73 | definition: the loop state after the lines before position `n`, the first skipped, or the exception raised on the way |
| Wig.ReadWig | TnSeq.py:60-75 | definition: what `get_hits` returns or raises; characterised by `ReadWigHits` and `ReadWigAccepts` |
| Wig.Kinds | TnSeq.py:68-73 | one meaning per line |
| Wig.KindAt | TnSeq.py:68-73 | the meaning of line `i` depends only on line `i` |
| Wig.FailureSticks | TnSeq.py:68-73 | once a line raises, reading the rest of the lines does not change the exception |
| Wig.FirstLineSkipped | TnSeq.py:67 | two files that differ only in their first line read the same |
| Wig.ReadLinesIgnoresFirst | TnSeq.py:67 | the first line's meaning plays no part in the loop state |
| Wig.ReadLinesErrors | TnSeq.py:68-73 | the reader fails exactly when some line after the first is neither a `variableStep` line with a second token nor an integer line; it reports the first such line, with `IndexError` for a missing token and `ValueError` for a non-integer |
| Wig.DataCountGrows | TnSeq.py:73 | every data line adds a hit after those of earlier data lines |
| Wig.ChromosomeBeforeIsLatest | TnSeq.py:65-71 | the current chromosome is `None` until the first `variableStep` line and is then the one named most recently |
| Wig.ReadLinesState | TnSeq.py:65-73 | after a successful read, every line was accepted, the chromosome is the latest named, and there is one hit per data line |
| Wig.ReadLinesHitAt | TnSeq.py:73 | the hit of a data line sits after the hits of earlier data lines and pairs the latest chromosome with the line's first integer |
| Wig.ReadLinesHits | TnSeq.py:65-75 | a successful read returns one hit per data line, in file order, each tagged with the most recent chromosome; `variableStep` lines add none |
| Wig.ReadWigHits | TnSeq.py:65-75 | for the lines of a file read without an exception: one hit per data line after the first line, in file order, each pairing the most recently named chromosome with the line's first integer |
| Wig.ReadWigAccepts | TnSeq.py:67-73 | a file is read without an exception exactly when every line after the first is a `variableStep` line with a second token or starts with an integer |
| Wig.DataLineReadsPosition | TnSeq.py:73 | a line made of an integer followed by any other columns reads as a hit at that integer |
| Wig.StepLineNamesChromosome | TnSeq.py:69-71 | a `variableStep chrom=<c> ...` line sets the chromosome to `c` |
| WigReader.GetHits | TnSeq.py:60-75 | the loop returns exactly `ReadWig(lines)`: the hits, or the first line's exception |
| Counting.Seed | TnSeq.py:81-85 | every feature name starts at 0, and the table has no other keys |
| Counting.Bump | TnSeq.py:89-90 | the inner loop keeps the table's keys |
| Counting.BumpCounts | TnSeq.py:89-90 | the inner loop adds to each name the number of found features carrying it |
| Counting.Tally | TnSeq.py:87-90 | the hit loop keeps the table's keys |
| Counting.TallyCounts | TnSeq.py:87-90 | after the hit loop, each name's count is its start value plus what every hit added |
| Counting.Counts | TnSeq.py:81-90 | the table is keyed by exactly the feature names; with zero hits it is the seed, all zeros |
| Counting.CountsAreIncrements | TnSeq.py:81-90 | each count is the sum of what the hits added to that name, so it is never negative |
| Counting.AddFound | TnSeq.py:89-90 | the inner loop adds 1 per feature found, giving `Bump` |
| Counting.BumpNext | TnSeq.py:89-90 | one pass of the inner loop adds 1 to the found feature's name |
| Counting.CountHits | TnSeq.py:81-90 | fails exactly when there is a hit and some feature has `start >= stop`, and reports the first such feature; otherwise returns `Counts` |
| Counting.IncrementsConcat | TnSeq.py:87-90 | the contributions of two runs of hits add up |
| Counting.IncrementsRemove | TnSeq.py:87-90 | any single hit's contribution can be taken out of the total |
| Counting.IncrementsPermuted | TnSeq.py:87-90 | the contributions do not depend on the order of the hits |
| Counting.CountsOrderFree | TnSeq.py:87-90 | two hit lists that are permutations of each other give the same table |
| Counting.NameCountAbsent | TnSeq.py:89-90 | a name no found feature carries gets nothing |
| Counting.NameCountFound | TnSeq.py:88-90 | with distinct names, a hit adds 1 to a feature's name exactly when the feature covers it |
| Counting.IncrementsPerFeature | TnSeq.py:87-90 | with distinct names, a name's increments are the number of hits inside its feature |
| Counting.CountsPerFeature | TnSeq.py:81-90 | with distinct names, each feature's count is the number of hits on its chromosome inside its span |
| Counting.TotalFrame | TnSeq.py:87-90 | the sum of counts reads only the features' names |
| Counting.TotalIncrement | TnSeq.py:90 | with distinct names, one `+= 1` raises the sum of counts by 1 |
| Counting.TotalBump | TnSeq.py:89-90 | with distinct names, the inner loop raises the sum by the number of features found |
| Counting.TotalTally | TnSeq.py:87-90 | with distinct names, the hit loop raises the sum by the number of (hit, feature) matches |
| Counting.TotalSeed | TnSeq.py:81-85 | the seeded table sums to 0 |
| Counting.CountsSum | TnSeq.py:81-90 | with distinct names, the sum of all counts equals the sum over the hits of the length of `find_features`'s result |
| Counting.HitsInFour | TnSeq.py:87-90 | on four hits, the hits inside a feature are counted one hit at a time |
| Counting.TwoFeatureExample | TnSeq.py:81-90 | two overlapping features and four hits: a hit in the overlap counts for both, and a hit on another chromosome counts for neither |
| Pipeline.BuildHitTable | TnSeq.py:77-92 | a WIG exception ends the run; otherwise the run fails exactly when there is a hit and a feature has `start >= stop`, and otherwise yields `Counts` of the ingested features and the read hits |

## Left out

- File I/O is not modelled: `pd.read_csv`, `open`/`readline`, `to_csv` and the three filename constants. The model takes the rows and lines already read and returns the table. So `get_features` ignoring its `feature_db_filename` argument has no counterpart.
- Pandas rows and frames are not modelled. A row is given by the four cells the program picks (`row[0]`, `row[8]`, `row[9]`, `row[10]`). The name cell is taken to be text.
- The table update `hits_table.loc[feature.name]["Hits"] += 1` is a pandas chained assignment. Whether it writes through depends on the pandas version. The model gives it its evident meaning, adding 1 to the count kept under the feature's name.
- Duplicate feature names: the table is a map from name to count, so features that share a name share one count. Under pandas, duplicate labels would behave differently.
- Counting.CountsPerFeature, Counting.NameCountFound, Counting.IncrementsPerFeature, Counting.TotalIncrement, Counting.TotalBump, Counting.TotalTally and Counting.CountsSum assume that feature names are distinct (`DistinctNames`). Without that, the count under a name is the total over the features carrying it, which `Counting.CountsAreIncrements` states. The sum of counts `Total` then adds a shared count once per feature carrying the name, so the sum laws do not hold.
- `int` on text accepts surrounding whitespace, an optional sign and ASCII digits. It does not accept underscores or non-ASCII digits. `int` on a float is modelled for finite values; infinities are not modelled.
- PyInt.ParseInt: does not model the interpreter's limit on decimal conversion. Since CPython 3.11 (and the 3.10.7 and 3.9.14 security releases), `int` and `str` raise `ValueError` on more than 4300 decimal digits by default; the limit is set with `sys.set_int_max_str_digits`. With that limit, a WIG data line whose first token has more digits raises at TnSeq.py:73, and a text start or stop cell that long is dropped at TnSeq.py:35-39. The model reads both. The limit depends on the interpreter version and its settings, which the source does not fix.
- PyInt.ParseIntText: holds for the model's `int` and `str`. Under the interpreter's digit limit, `str(x)` itself raises for an `x` of more than 4300 digits.
- Python asserts are removed under `python -O`. The model assumes they are active.
- Line terminators: `split()` and `strip()` discard the `\n` a WIG line carries, so the lines are taken without it.
