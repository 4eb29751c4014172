/**
 * The containment query `find_features`: a linear scan of the feature list
 * that collects every feature on the hit's chromosome whose inclusive span
 * holds the hit position, and that asserts `start < stop` of every feature it
 * passes.
 */
module Containment {
  import opened Outcomes
  import opened Features

  /** The `AssertionError` raised by `assert feature.start < feature.stop`,
      with the position in the list of the feature that raised it. */
  datatype FindError = AssertionError(index: nat)

  /** The test at the head of the scan: the same chromosome (a hit chromosome
      of `None`, or a feature chromosome that is not text, equals nothing) and
      `start <= position <= stop`. */
  predicate Covers(f: Feature, chromosome: Option<string>, position: int) {
    chromosome.Some? && f.chromosome == Text(chromosome.value) &&
    f.start <= position <= f.stop
  }

  predicate WellFormed(f: Feature) {
    f.start < f.stop
  }

  /** The features that cover the position, in list order. */
  function Matching(fs: seq<Feature>, chromosome: Option<string>, position: int): (r: seq<Feature>)
    ensures forall f | f in r :: f in fs && Covers(f, chromosome, position)
    decreases |fs|
  {
    if fs == [] then []
    else
      var found := Matching(fs[..|fs| - 1], chromosome, position);
      var f := fs[|fs| - 1];
      if Covers(f, chromosome, position) then found + [f] else found
  }

  /** The position of the first feature that violates `start < stop`, the one
      whose assertion fails first. */
  function FirstMalformed(fs: seq<Feature>): (r: Option<nat>)
    ensures r.None? <==> forall i | 0 <= i < |fs| :: WellFormed(fs[i])
    ensures r.Some? ==> r.value < |fs| && !WellFormed(fs[r.value]) &&
                        forall i | 0 <= i < r.value :: WellFormed(fs[i])
    decreases |fs|
  {
    if fs == [] then None
    else if !WellFormed(fs[0]) then Some(0)
    else
      match FirstMalformed(fs[1..])
      case None => None
      case Some(k) => Some(k + 1)
  }

  /** `find_features(chromosome, hit_position, feature_list)` */
  method FindFeatures(chromosome: Option<string>, position: int, features: seq<Feature>)
    returns (outcome: Result<seq<Feature>, FindError>)
    ensures outcome.Success? <==> FirstMalformed(features).None?
    ensures outcome.Success? ==> outcome.value == Matching(features, chromosome, position)
    ensures outcome.Failure? ==> FirstMalformed(features) == Some(outcome.error.index)
  {
    var result := [];
    for i := 0 to |features|
      invariant result == Matching(features[..i], chromosome, position)
      invariant forall j | 0 <= j < i :: WellFormed(features[j])
    {
      assert features[..i + 1][..i] == features[..i];
      var feature := features[i];
      if Covers(feature, chromosome, position) {
        result := result + [feature];
      }
      if !(feature.start < feature.stop) {
        return Failure(AssertionError(i));
      }
    }
    assert features[..|features|] == features;
    return Success(result);
  }

  /** The scan is one feature at a time: the matches in two lists in a row are
      the matches in the first followed by the matches in the second. */
  lemma {:induction false} MatchingConcat(a: seq<Feature>, b: seq<Feature>, chromosome: Option<string>, position: int)
    ensures Matching(a + b, chromosome, position) == Matching(a, chromosome, position) + Matching(b, chromosome, position)
    decreases |b|
  {
    if b == [] {
      assert a + b == a;
    } else {
      var b' := b[..|b| - 1];
      assert (a + b)[..|a + b| - 1] == a + b';
      MatchingConcat(a, b', chromosome, position);
    }
  }

  /** The result holds every covering feature exactly as many times as the
      list does, and nothing else. */
  lemma {:induction false} MatchingMultiplicity(fs: seq<Feature>, chromosome: Option<string>, position: int, f: Feature)
    ensures multiset(Matching(fs, chromosome, position))[f] ==
            if Covers(f, chromosome, position) then multiset(fs)[f] else 0
    decreases |fs|
  {
    if fs != [] {
      var init := fs[..|fs| - 1];
      assert fs == init + [fs[|fs| - 1]];
      MatchingMultiplicity(init, chromosome, position, f);
    }
  }

  /** A feature is returned if and only if it is in the list and covers the
      position. */
  lemma MatchingMembers(fs: seq<Feature>, chromosome: Option<string>, position: int, f: Feature)
    ensures f in Matching(fs, chromosome, position) <==> f in fs && Covers(f, chromosome, position)
  {
    MatchingMultiplicity(fs, chromosome, position, f);
  }

  /** The result is empty exactly when no feature of the list covers the
      position: in particular for a chromosome without features, and for a
      position outside every span. */
  lemma MatchingEmpty(fs: seq<Feature>, chromosome: Option<string>, position: int)
    ensures Matching(fs, chromosome, position) == [] <==>
            forall f | f in fs :: !Covers(f, chromosome, position)
  {
    var r := Matching(fs, chromosome, position);
    if r == [] {
      forall f | f in fs ensures !Covers(f, chromosome, position) {
        MatchingMembers(fs, chromosome, position, f);
      }
    }
  }

  /** Both ends of a well-formed span are inside it, and the positions next
      to its ends are not. */
  lemma SpanInclusive(fs: seq<Feature>, i: nat, c: string)
    requires i < |fs| && fs[i].chromosome == Text(c) && WellFormed(fs[i])
    ensures fs[i] in Matching(fs, Some(c), fs[i].start)
    ensures fs[i] in Matching(fs, Some(c), fs[i].stop)
    ensures fs[i] !in Matching(fs, Some(c), fs[i].start - 1)
    ensures fs[i] !in Matching(fs, Some(c), fs[i].stop + 1)
  {
    MatchingMembers(fs, Some(c), fs[i].start, fs[i]);
    MatchingMembers(fs, Some(c), fs[i].stop, fs[i]);
    MatchingMembers(fs, Some(c), fs[i].start - 1, fs[i]);
    MatchingMembers(fs, Some(c), fs[i].stop + 1, fs[i]);
  }
}
