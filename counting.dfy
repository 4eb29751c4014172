/**
 * The hit table of `main` in TnSeq.py: every feature name starts at 0, and
 * each hit adds one to every feature that `find_features` returns for it.
 * The table is keyed by feature name, as the `.loc[feature.name]` lookup is.
 */
module Counting {
  import opened Outcomes
  import opened Features
  import opened Containment
  import opened Wig

  /** The names of the features: the keys of the table. */
  function Names(fs: seq<Feature>): set<string> {
    set f | f in fs :: f.name
  }

  /** The table before any hit: every feature name at 0. */
  function Seed(fs: seq<Feature>): (table: map<string, int>)
    ensures table.Keys == Names(fs)
    ensures forall n | n in table :: table[n] == 0
  {
    map n | n in Names(fs) :: 0
  }

  /** How many of the features carry the given name. */
  function NameCount(found: seq<Feature>, name: string): nat
    decreases |found|
  {
    if found == [] then 0
    else NameCount(found[..|found| - 1], name) + (if found[|found| - 1].name == name then 1 else 0)
  }

  /** The inner loop of `main`: add one to the count of every feature found,
      a feature found twice counting twice. */
  function Bump(table: map<string, int>, found: seq<Feature>): (r: map<string, int>)
    requires forall i | 0 <= i < |found| :: found[i].name in table
    ensures r.Keys == table.Keys
    decreases |found|
  {
    if found == [] then table
    else
      var before := Bump(table, found[..|found| - 1]);
      var name := found[|found| - 1].name;
      before[name := before[name] + 1]
  }

  /** Bumping adds to each name the number of features found that carry it. */
  lemma {:induction false} BumpCounts(table: map<string, int>, found: seq<Feature>, name: string)
    requires forall i | 0 <= i < |found| :: found[i].name in table
    requires name in table
    ensures Bump(table, found)[name] == table[name] + NameCount(found, name)
    decreases |found|
  {
    if found != [] {
      BumpCounts(table, found[..|found| - 1], name);
    }
  }

  /** The features `find_features` returns for a hit. */
  function Found(fs: seq<Feature>, h: Hit): seq<Feature> {
    Matching(fs, h.chromosome, h.position)
  }

  /** How much the hits add to the count of a name: for each hit, the number
      of features found for it that carry the name. */
  function Increments(fs: seq<Feature>, hits: seq<Hit>, name: string): nat
    decreases |hits|
  {
    if hits == [] then 0
    else Increments(fs, hits[..|hits| - 1], name) + NameCount(Found(fs, hits[|hits| - 1]), name)
  }

  /** The outer loop of `main`, from a given table: bump the table for each
      hit in turn. */
  function Tally(fs: seq<Feature>, table: map<string, int>, hits: seq<Hit>): (r: map<string, int>)
    requires Names(fs) <= table.Keys
    ensures r.Keys == table.Keys
    decreases |hits|
  {
    if hits == [] then table
    else
      var before := Tally(fs, table, hits[..|hits| - 1]);
      var found := Found(fs, hits[|hits| - 1]);
      assert forall i | 0 <= i < |found| :: found[i].name in Names(fs) by {
        assert forall i | 0 <= i < |found| :: found[i] in found;
      }
      Bump(before, found)
  }

  /** Tallying adds to each name what the hits add to it. */
  lemma {:induction false} TallyCounts(fs: seq<Feature>, table: map<string, int>, hits: seq<Hit>, name: string)
    requires Names(fs) <= table.Keys && name in table
    ensures Tally(fs, table, hits)[name] == table[name] + Increments(fs, hits, name)
    decreases |hits|
  {
    if hits != [] {
      var found := Found(fs, hits[|hits| - 1]);
      TallyCounts(fs, table, hits[..|hits| - 1], name);
      assert forall i | 0 <= i < |found| :: found[i] in found;
      BumpCounts(Tally(fs, table, hits[..|hits| - 1]), found, name);
    }
  }

  /** The finished table: one entry per feature name; with no hits, the
      seed. */
  function Counts(fs: seq<Feature>, hits: seq<Hit>): (table: map<string, int>)
    ensures table.Keys == Names(fs)
    ensures hits == [] ==> table == Seed(fs)
  {
    Tally(fs, Seed(fs), hits)
  }

  /** The count of a name is the number of times a feature of that name was
      found, over all hits; so it is never negative. */
  lemma CountsAreIncrements(fs: seq<Feature>, hits: seq<Hit>, name: string)
    requires name in Names(fs)
    ensures Counts(fs, hits)[name] == Increments(fs, hits, name) >= 0
  {
    TallyCounts(fs, Seed(fs), hits, name);
  }

  /** The inner loop of `main`: `hits_table.loc[feature.name]["Hits"] += 1`
      for each feature found. */
  method AddFound(table: map<string, int>, found: seq<Feature>) returns (r: map<string, int>)
    requires forall i | 0 <= i < |found| :: found[i].name in table
    ensures r == Bump(table, found)
  {
    r := table;
    for j := 0 to |found|
      invariant r == Bump(table, found[..j])
    {
      BumpNext(table, found, j);
      var name := found[j].name;
      r := r[name := r[name] + 1];
    }
    assert found[..|found|] == found;
  }

  lemma BumpNext(table: map<string, int>, found: seq<Feature>, j: nat)
    requires j < |found| && forall i | 0 <= i < |found| :: found[i].name in table
    ensures var before := Bump(table, found[..j]);
            Bump(table, found[..j + 1]) == before[found[j].name := before[found[j].name] + 1]
  {
    assert found[..j + 1][..j] == found[..j];
  }

  /** The seeding and the two loops of `main`, after the features and hits
      have been read. The first hit scans the whole feature list, so a
      feature with `start >= stop` stops the program then, and not at all
      when there are no hits. */
  method CountHits(features: seq<Feature>, hits: seq<Hit>)
    returns (outcome: Result<map<string, int>, FindError>)
    ensures outcome.Failure? <==> hits != [] && FirstMalformed(features).Some?
    ensures outcome.Failure? ==> FirstMalformed(features) == Some(outcome.error.index)
    ensures outcome.Success? ==> outcome.value == Counts(features, hits)
  {
    var table := Seed(features);
    for k := 0 to |hits|
      invariant table == Tally(features, Seed(features), hits[..k])
      invariant k > 0 ==> FirstMalformed(features).None?
    {
      assert hits[..k + 1][..k] == hits[..k];
      var hit := hits[k];
      var query := FindFeatures(hit.chromosome, hit.position, features);
      if query.Failure? {
        return Failure(query.error);
      }
      assert query.value == Found(features, hit);
      assert forall i | 0 <= i < |query.value| :: query.value[i].name in Names(features) by {
        assert forall i | 0 <= i < |query.value| :: query.value[i] in query.value;
      }
      table := AddFound(table, query.value);
    }
    assert hits[..|hits|] == hits;
    return Success(table);
  }

  lemma {:induction false} IncrementsConcat(fs: seq<Feature>, a: seq<Hit>, b: seq<Hit>, name: string)
    ensures Increments(fs, a + b, name) == Increments(fs, a, name) + Increments(fs, b, name)
    decreases |b|
  {
    if b == [] {
      assert a + b == a;
    } else {
      assert (a + b)[..|a + b| - 1] == a + b[..|b| - 1];
      IncrementsConcat(fs, a, b[..|b| - 1], name);
    }
  }

  /** Taking one hit out of the list takes its increment out of the sum. */
  lemma IncrementsRemove(fs: seq<Feature>, b: seq<Hit>, j: nat, name: string)
    requires j < |b|
    ensures Increments(fs, b, name) ==
            Increments(fs, b[..j] + b[j + 1..], name) + NameCount(Found(fs, b[j]), name)
  {
    var h := b[j];
    assert b == b[..j] + [h] + b[j + 1..];
    IncrementsConcat(fs, b[..j] + [h], b[j + 1..], name);
    IncrementsConcat(fs, b[..j], [h], name);
    IncrementsConcat(fs, b[..j], b[j + 1..], name);
    assert [h][..0] == [];
  }

  /** The increments commute: hits in any order add the same amount. */
  lemma {:induction false} IncrementsPermuted(fs: seq<Feature>, a: seq<Hit>, b: seq<Hit>, name: string)
    requires multiset(a) == multiset(b)
    ensures Increments(fs, a, name) == Increments(fs, b, name)
    decreases |a|
  {
    if a != [] {
      var init, h := a[..|a| - 1], a[|a| - 1];
      assert a == init + [h];
      assert h in multiset(b);
      var j :| 0 <= j < |b| && b[j] == h;
      var rest := b[..j] + b[j + 1..];
      assert b == b[..j] + [h] + b[j + 1..];
      assert multiset(init) == multiset(a) - multiset{h};
      assert multiset(rest) == multiset(b) - multiset{h};
      IncrementsPermuted(fs, init, rest, name);
      IncrementsRemove(fs, b, j, name);
    }
  }

  /** The table does not depend on the order in which the hits come. */
  lemma CountsOrderFree(fs: seq<Feature>, a: seq<Hit>, b: seq<Hit>)
    requires multiset(a) == multiset(b)
    ensures Counts(fs, a) == Counts(fs, b)
  {
    forall n | n in Names(fs) ensures Counts(fs, a)[n] == Counts(fs, b)[n] {
      IncrementsPermuted(fs, a, b, n);
      CountsAreIncrements(fs, a, n);
      CountsAreIncrements(fs, b, n);
    }
  }

  /** No two features share a name, so each has a row of its own. */
  predicate DistinctNames(fs: seq<Feature>) {
    forall i, j | 0 <= i < j < |fs| :: fs[i].name != fs[j].name
  }

  /** The number of hits that fall in a feature's span on its chromosome. */
  function HitsIn(f: Feature, hits: seq<Hit>): nat
    decreases |hits|
  {
    if hits == [] then 0
    else HitsIn(f, hits[..|hits| - 1]) + (if Covers(f, hits[|hits| - 1].chromosome, hits[|hits| - 1].position) then 1 else 0)
  }

  lemma {:induction false} NameCountAbsent(found: seq<Feature>, name: string)
    requires forall f | f in found :: f.name != name
    ensures NameCount(found, name) == 0
    decreases |found|
  {
    if found != [] {
      NameCountAbsent(found[..|found| - 1], name);
    }
  }

  /** With distinct names, a query returns the feature named after `fs[i]`
      once if it covers the hit and not at all otherwise. */
  lemma {:induction false} NameCountFound(fs: seq<Feature>, i: nat, h: Hit)
    requires DistinctNames(fs) && i < |fs|
    ensures NameCount(Found(fs, h), fs[i].name) == if Covers(fs[i], h.chromosome, h.position) then 1 else 0
    decreases |fs|
  {
    var init, last := fs[..|fs| - 1], fs[|fs| - 1];
    var rest := Found(init, h);
    assert Found(fs, h) == if Covers(last, h.chromosome, h.position) then rest + [last] else rest;
    if i == |fs| - 1 {
      forall f | f in rest ensures f.name != last.name {
        var j :| 0 <= j < |init| && init[j] == f;
      }
      NameCountAbsent(rest, last.name);
    } else {
      assert fs[i] == init[i];
      NameCountFound(init, i, h);
    }
  }

  /** With distinct names, what the hits add to a feature's name is the
      number of hits in its span on its chromosome. */
  lemma {:induction false} IncrementsPerFeature(fs: seq<Feature>, hits: seq<Hit>, i: nat)
    requires DistinctNames(fs) && i < |fs|
    ensures Increments(fs, hits, fs[i].name) == HitsIn(fs[i], hits)
    decreases |hits|
  {
    if hits != [] {
      IncrementsPerFeature(fs, hits[..|hits| - 1], i);
      NameCountFound(fs, i, hits[|hits| - 1]);
    }
  }

  /** With distinct names, the count of a feature is the number of hits in
      its span on its chromosome. */
  lemma CountsPerFeature(fs: seq<Feature>, hits: seq<Hit>, i: nat)
    requires DistinctNames(fs) && i < |fs|
    ensures fs[i].name in Counts(fs, hits)
    ensures Counts(fs, hits)[fs[i].name] == HitsIn(fs[i], hits)
  {
    assert fs[i] in fs;
    CountsAreIncrements(fs, hits, fs[i].name);
    IncrementsPerFeature(fs, hits, i);
  }

  /** The sum of the counts of the features. */
  function Total(fs: seq<Feature>, table: map<string, int>): int
    requires Names(fs) <= table.Keys
    decreases |fs|
  {
    if fs == [] then 0
    else Total(fs[..|fs| - 1], table) + table[fs[|fs| - 1].name]
  }

  /** The number of (hit, feature) matches: the sum over the hits of the
      length of the list `find_features` returns. */
  function Scanned(fs: seq<Feature>, hits: seq<Hit>): nat
    decreases |hits|
  {
    if hits == [] then 0
    else Scanned(fs, hits[..|hits| - 1]) + |Found(fs, hits[|hits| - 1])|
  }

  lemma {:induction false} TotalFrame(fs: seq<Feature>, t: map<string, int>, u: map<string, int>)
    requires Names(fs) <= t.Keys && Names(fs) <= u.Keys
    requires forall n | n in Names(fs) :: t[n] == u[n]
    ensures Total(fs, t) == Total(fs, u)
    decreases |fs|
  {
    if fs != [] {
      TotalFrame(fs[..|fs| - 1], t, u);
    }
  }

  /** With distinct names, adding one to the count of a feature's name adds
      one to the total. */
  lemma {:induction false} TotalIncrement(fs: seq<Feature>, table: map<string, int>, name: string)
    requires DistinctNames(fs) && Names(fs) <= table.Keys && name in Names(fs)
    ensures Total(fs, table[name := table[name] + 1]) == Total(fs, table) + 1
    decreases |fs|
  {
    var init, last := fs[..|fs| - 1], fs[|fs| - 1];
    var bumped := table[name := table[name] + 1];
    if last.name == name {
      forall n | n in Names(init) ensures bumped[n] == table[n] {
        var j :| 0 <= j < |init| && init[j].name == n;
      }
      TotalFrame(init, bumped, table);
    } else {
      var j :| 0 <= j < |fs| && fs[j].name == name;
      assert j < |init| && init[j] == fs[j];
      TotalIncrement(init, table, name);
    }
  }

  /** With distinct names, the inner loop adds one to the total per feature
      found. */
  lemma {:induction false} TotalBump(fs: seq<Feature>, table: map<string, int>, found: seq<Feature>)
    requires DistinctNames(fs) && Names(fs) <= table.Keys
    requires forall f | f in found :: f in fs
    ensures Total(fs, Bump(table, found)) == Total(fs, table) + |found|
    decreases |found|
  {
    if found != [] {
      var init := found[..|found| - 1];
      TotalBump(fs, table, init);
      TotalIncrement(fs, Bump(table, init), found[|found| - 1].name);
    }
  }

  lemma {:induction false} TotalTally(fs: seq<Feature>, table: map<string, int>, hits: seq<Hit>)
    requires DistinctNames(fs) && Names(fs) <= table.Keys
    ensures Total(fs, Tally(fs, table, hits)) == Total(fs, table) + Scanned(fs, hits)
    decreases |hits|
  {
    if hits != [] {
      TotalTally(fs, table, hits[..|hits| - 1]);
      TotalBump(fs, Tally(fs, table, hits[..|hits| - 1]), Found(fs, hits[|hits| - 1]));
    }
  }

  lemma {:induction false} TotalSeed(fs: seq<Feature>)
    ensures Total(fs, Seed(fs)) == 0
    decreases |fs|
  {
    if fs != [] {
      TotalFrame(fs[..|fs| - 1], Seed(fs), Seed(fs[..|fs| - 1]));
      TotalSeed(fs[..|fs| - 1]);
    }
  }

  /** With distinct names, the counts add up to the number of
      (hit, feature) matches. */
  lemma CountsSum(fs: seq<Feature>, hits: seq<Hit>)
    requires DistinctNames(fs)
    ensures Total(fs, Counts(fs, hits)) == Scanned(fs, hits)
  {
    TotalSeed(fs);
    TotalTally(fs, Seed(fs), hits);
  }

  /** `HitsIn` on a list of four hits, one hit at a time. */
  lemma HitsInFour(f: Feature, h1: Hit, h2: Hit, h3: Hit, h4: Hit)
    ensures HitsIn(f, [h1, h2, h3, h4]) ==
      (if Covers(f, h1.chromosome, h1.position) then 1 else 0) +
      (if Covers(f, h2.chromosome, h2.position) then 1 else 0) +
      (if Covers(f, h3.chromosome, h3.position) then 1 else 0) +
      (if Covers(f, h4.chromosome, h4.position) then 1 else 0)
  {
    var c := (h: Hit) => if Covers(f, h.chromosome, h.position) then 1 else 0;
    assert [h1][..0] == [];
    assert HitsIn(f, [h1]) == c(h1);
    assert [h1, h2][..1] == [h1];
    assert HitsIn(f, [h1, h2]) == c(h1) + c(h2);
    assert [h1, h2, h3][..2] == [h1, h2];
    assert HitsIn(f, [h1, h2, h3]) == c(h1) + c(h2) + c(h3);
    assert [h1, h2, h3, h4][..3] == [h1, h2, h3];
  }

  /** Two overlapping features on one chromosome, and a hit on another:
      A (10 to 20) holds the hits at 12 and 18, B (15 to 25) those at 18 and
      22, and the hit on the other chromosome counts nowhere. */
  lemma TwoFeatureExample(nameA: string, nameB: string, chr1: string, chr2: string)
    requires nameA != nameB && chr1 != chr2
    ensures var fs := [Feature(nameA, Text(chr1), 10, 20), Feature(nameB, Text(chr1), 15, 25)];
            var hits := [Hit(Some(chr1), 12), Hit(Some(chr1), 18), Hit(Some(chr1), 22), Hit(Some(chr2), 5)];
            var table := Counts(fs, hits);
            table.Keys == {nameA, nameB} && table[nameA] == 2 && table[nameB] == 2
  {
    var a := Feature(nameA, Text(chr1), 10, 20);
    var b := Feature(nameB, Text(chr1), 15, 25);
    var fs := [a, b];
    var h1, h2, h3, h4 := Hit(Some(chr1), 12), Hit(Some(chr1), 18), Hit(Some(chr1), 22), Hit(Some(chr2), 5);
    assert Names(fs) == {nameA, nameB};
    assert DistinctNames(fs);
    CountsPerFeature(fs, [h1, h2, h3, h4], 0);
    CountsPerFeature(fs, [h1, h2, h3, h4], 1);
    HitsInFour(a, h1, h2, h3, h4);
    HitsInFour(b, h1, h2, h3, h4);
  }
}
