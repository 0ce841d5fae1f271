/**
  The feasibility checker: for a list of target SNPs, which registered
  arrays carry each one, how many targets are carried at all, and how many
  targets each array carries.

  The catalogue is an immutable value here, so `check` cannot change it.
 */
module FeasibilityChecker {
  import opened Sequences
  import opened Text
  import opened ArrayCatalogue

  /** Per-target result: the arrays carrying the SNP and those lacking it. */
  datatype SnpCoverage = SnpCoverage(snpId: string, presentOn: seq<string>, missingFrom: seq<string>)

  /** `SNPCoverage.is_available`. */
  predicate IsAvailable(cov: SnpCoverage)
  {
    |cov.presentOn| > 0
  }

  /** `SNPCoverage.coverage_fraction`: share of the listed arrays carrying the SNP. */
  function CoverageFraction(cov: SnpCoverage): (f: real)
    ensures |cov.presentOn| + |cov.missingFrom| == 0 ==> f == 0.0
    ensures |cov.presentOn| + |cov.missingFrom| > 0 ==>
      f * (|cov.presentOn| + |cov.missingFrom|) as real == |cov.presentOn| as real
    ensures 0.0 <= f <= 1.0
  {
    var total := |cov.presentOn| + |cov.missingFrom|;
    if total == 0 then 0.0 else |cov.presentOn| as real / total as real
  }

  /** The aggregate result of `check`. */
  datatype FeasibilityReport = FeasibilityReport(
    targetSnps: int,
    availableCount: int,
    unavailableSnps: seq<string>,
    coverageDetails: seq<SnpCoverage>,
    arraySummary: map<string, int>)

  /** `FeasibilityReport.feasibility_rate`, defined as 0 for no targets. */
  function FeasibilityRate(rep: FeasibilityReport): (rate: real)
    ensures rep.targetSnps == 0 ==> rate == 0.0
    ensures rep.targetSnps != 0 ==> rate * rep.targetSnps as real == rep.availableCount as real
    ensures 0 <= rep.availableCount <= rep.targetSnps ==> 0.0 <= rate <= 1.0
  {
    if rep.targetSnps == 0 then 0.0 else rep.availableCount as real / rep.targetSnps as real
  }

  /** Some registered array holds `snp`. */
  predicate Covered(c: Catalogue, snp: string)
  {
    exists a :: a in c.arrays && snp in c.arrays[a].snpIds
  }

  /**
    The SNPs `check` counts as available are exactly those of the union
    `total_unique_snps` measures.
   */
  lemma CoveredIffInUnion(c: Catalogue, snp: string)
    ensures Covered(c, snp) <==> snp in AllSnps(c)
  {
  }

  /** `[a for a in names if a not in present]`. */
  function Missing(names: seq<string>, present: seq<string>): (r: seq<string>)
    ensures forall a :: a in r <==> a in names && a !in present
    ensures Subsequence(r, names)
  {
    if names == [] then []
    else
      var rest := Missing(names[1..], present);
      assert forall a :: a in names <==> a == names[0] || a in names[1..];
      if names[0] in present then rest else [names[0]] + rest
  }

  /**
    The coverage entry `check` builds for one target: the arrays holding it
    in insertion order, then the other registered arrays in ascending order.
   */
  function CoverageOf(c: Catalogue, snp: string): SnpCoverage
  {
    var present := FindArraysContaining(c, snp);
    SnpCoverage(snp, present, Missing(ArrayNames(c), present))
  }

  /**
    A coverage entry splits the registered arrays in two: those holding the
    SNP, in insertion order, and the rest, in ascending order. It is
    available exactly when some array holds the SNP.
   */
  lemma CoveragePartition(c: Catalogue, snp: string)
    ensures CoverageOf(c, snp).snpId == snp
    ensures forall a :: a in CoverageOf(c, snp).presentOn <==> a in c.arrays && snp in c.arrays[a].snpIds
    ensures forall a :: a in CoverageOf(c, snp).missingFrom <==> a in c.arrays && snp !in c.arrays[a].snpIds
    ensures Subsequence(CoverageOf(c, snp).presentOn, c.order)
    ensures StrictlySorted(CoverageOf(c, snp).missingFrom)
    ensures IsAvailable(CoverageOf(c, snp)) <==> Covered(c, snp)
  {
    var names := ArrayNames(c);
    var present := FindArraysContaining(c, snp);
    SubsequenceSorted(Missing(names, present), names);
    AvailableIffCovered(c, snp);
  }

  /** Each registered array is listed exactly once in a coverage entry. */
  lemma CoverageListsEachArrayOnce(c: Catalogue, snp: string)
    ensures Distinct(CoverageOf(c, snp).presentOn + CoverageOf(c, snp).missingFrom)
    ensures Elems(CoverageOf(c, snp).presentOn + CoverageOf(c, snp).missingFrom) == c.arrays.Keys
    ensures |CoverageOf(c, snp).presentOn| + |CoverageOf(c, snp).missingFrom| == |c.arrays|
  {
    var names := ArrayNames(c);
    var present := FindArraysContaining(c, snp);
    var missing := Missing(names, present);
    SubsequenceDistinct(missing, names) by {
      StrictlySortedDistinct(names);
    }
    JoinDisjoint(present, missing, c.arrays.Keys);
  }

  /** Two distinct, disjoint lists that together hold `keys` list each key once. */
  lemma JoinDisjoint(a: seq<string>, b: seq<string>, keys: set<string>)
    requires Distinct(a) && Distinct(b)
    requires forall x :: x in a ==> x !in b
    requires forall x :: x in keys <==> x in a || x in b
    ensures Distinct(a + b) && Elems(a + b) == keys && |a| + |b| == |keys|
  {
    DisjointConcat(a, b);
    DistinctCard(a + b);
  }

  lemma AvailableIffCovered(c: Catalogue, snp: string)
    ensures |FindArraysContaining(c, snp)| > 0 <==> Covered(c, snp)
  {
    var present := FindArraysContaining(c, snp);
    assert present != [] ==> present[0] in present;
  }

  /** The number of targets some array holds. */
  function AvailableCount(c: Catalogue, ts: seq<string>): nat
  {
    if ts == [] then 0
    else AvailableCount(c, ts[..|ts| - 1]) + (if Covered(c, ts[|ts| - 1]) then 1 else 0)
  }

  /** The targets no array holds, in input order, repeats kept. */
  function Unavailable(c: Catalogue, ts: seq<string>): seq<string>
  {
    if ts == [] then []
    else Unavailable(c, ts[..|ts| - 1]) + (if Covered(c, ts[|ts| - 1]) then [] else [ts[|ts| - 1]])
  }

  /** The number of positions of `ts` whose SNP array `a` holds. */
  function Hits(c: Catalogue, ts: seq<string>, a: string): nat
    requires a in c.arrays
  {
    if ts == [] then 0
    else Hits(c, ts[..|ts| - 1], a) + (if ts[|ts| - 1] in c.arrays[a].snpIds then 1 else 0)
  }

  /** Every target is counted as available or listed as unavailable, not both. */
  lemma {:induction false} CountsAddUp(c: Catalogue, ts: seq<string>)
    ensures AvailableCount(c, ts) + |Unavailable(c, ts)| == |ts|
  {
    if ts != [] {
      CountsAddUp(c, ts[..|ts| - 1]);
    }
  }

  /** An array's hits are targets it holds, so each of them is available. */
  lemma {:induction false} HitsAtMostAvailable(c: Catalogue, ts: seq<string>, a: string)
    requires a in c.arrays
    ensures Hits(c, ts, a) <= AvailableCount(c, ts) <= |ts|
  {
    if ts != [] {
      HitsAtMostAvailable(c, ts[..|ts| - 1], a);
    }
  }

  lemma AllHitsAtMostAvailable(c: Catalogue, ts: seq<string>)
    ensures forall a :: a in c.arrays ==> Hits(c, ts, a) <= AvailableCount(c, ts) <= |ts|
  {
  }

  /** The unavailable list of a concatenation is the concatenation of the lists. */
  lemma {:induction false} UnavailableAppend(c: Catalogue, s: seq<string>, t: seq<string>)
    ensures Unavailable(c, s + t) == Unavailable(c, s) + Unavailable(c, t)
  {
    if t == [] {
      assert s + t == s;
    } else {
      assert (s + t)[..|s + t| - 1] == s + t[..|t| - 1];
      assert (s + t)[|s + t| - 1] == t[|t| - 1];
      UnavailableAppend(c, s, t[..|t| - 1]);
    }
  }

  /**
    A target no array holds is listed as often as it occurs in the input;
    one some array holds is never listed.
   */
  lemma {:induction false} UnavailableOccurrences(c: Catalogue, ts: seq<string>, x: string)
    ensures multiset(Unavailable(c, ts))[x] == if Covered(c, x) then 0 else multiset(ts)[x]
  {
    if ts != [] {
      var init, last := ts[..|ts| - 1], ts[|ts| - 1];
      UnavailableOccurrences(c, init, x);
      assert ts == init + [last];
      var tail := if Covered(c, last) then [] else [last];
      assert Unavailable(c, ts) == Unavailable(c, init) + tail;
      assert multiset(Unavailable(c, ts)) == multiset(Unavailable(c, init)) + multiset(tail);
      assert multiset(ts) == multiset(init) + multiset{last};
    }
  }

  /** `check_overlap`: the distinct targets the named array holds. */
  function CheckOverlap(c: Catalogue, ts: seq<string>, name: string): (r: set<string>)
    ensures name !in c.arrays ==> r == {}
    ensures name in c.arrays ==> r <= Elems(ts) && r <= c.arrays[name].snpIds
    ensures name in c.arrays ==> forall x :: x in ts && x in c.arrays[name].snpIds ==> x in r
  {
    match GetArray(c, name)
    case None => {}
    case Some(rec) => Elems(ts) * SnpSet(rec)
  }

  /**
    An array's hit count is at least the size of its overlap with the
    targets, and equal to it when no target is repeated.
   */
  lemma {:induction false} OverlapAtMostHits(c: Catalogue, ts: seq<string>, a: string)
    requires a in c.arrays
    ensures |CheckOverlap(c, ts, a)| <= Hits(c, ts, a)
    ensures Distinct(ts) ==> |CheckOverlap(c, ts, a)| == Hits(c, ts, a)
  {
    if ts != [] {
      var init, last := ts[..|ts| - 1], ts[|ts| - 1];
      OverlapAtMostHits(c, init, a);
      OverlapSnoc(c, init, last, a);
      assert ts == init + [last];
      var prev := CheckOverlap(c, init, a);
      var extra: set<string> := if last in c.arrays[a].snpIds then {last} else {};
      assert |prev + extra| <= |prev| + |extra|;
      if Distinct(ts) {
        assert Distinct(init);
        assert last !in Elems(init);
        assert prev !! extra;
      }
    }
  }

  lemma OverlapSnoc(c: Catalogue, init: seq<string>, last: string, a: string)
    requires a in c.arrays
    ensures CheckOverlap(c, init + [last], a) ==
      CheckOverlap(c, init, a) + (if last in c.arrays[a].snpIds then {last} else {})
    ensures CheckOverlap(c, init, a) <= Elems(init)
  {
  }

  /** One more target extends the available count or the unavailable list. */
  lemma CountStep(c: Catalogue, ts: seq<string>, i: nat)
    requires i < |ts|
    ensures AvailableCount(c, ts[..i + 1]) == AvailableCount(c, ts[..i]) + (if Covered(c, ts[i]) then 1 else 0)
    ensures Unavailable(c, ts[..i + 1]) == Unavailable(c, ts[..i]) + (if Covered(c, ts[i]) then [] else [ts[i]])
  {
    assert ts[..i + 1][..i] == ts[..i] && ts[..i + 1][i] == ts[i];
  }

  /** Adding one hit per array holding `ts[i]` turns the hits of `ts[..i]` into those of `ts[..i + 1]`. */
  lemma HitsStep(c: Catalogue, ts: seq<string>, i: nat, hits: map<string, int>, hits': map<string, int>)
    requires i < |ts|
    requires hits.Keys == c.arrays.Keys
    requires forall a :: a in hits ==> hits[a] == Hits(c, ts[..i], a)
    requires hits'.Keys == hits.Keys
    requires forall a :: a in hits ==> hits'[a] == hits[a] + (if a in FindArraysContaining(c, ts[i]) then 1 else 0)
    ensures forall a :: a in hits' ==> hits'[a] == Hits(c, ts[..i + 1], a)
  {
    assert ts[..i + 1][..i] == ts[..i] && ts[..i + 1][i] == ts[i];
  }

  /** The inner loop of `check`: add one hit to each array in `present`. */
  method AddHits(hits: map<string, int>, present: seq<string>) returns (hits': map<string, int>)
    requires Distinct(present)
    requires forall a :: a in present ==> a in hits
    ensures hits'.Keys == hits.Keys
    ensures forall a :: a in hits ==> hits'[a] == hits[a] + (if a in present then 1 else 0)
  {
    hits' := hits;
    var j := 0;
    while j < |present|
      invariant 0 <= j <= |present|
      invariant hits'.Keys == hits.Keys
      invariant forall a :: a in hits ==> hits'[a] == hits[a] + (if a in present[..j] then 1 else 0)
    {
      assert present[j] !in present[..j];
      assert present[..j + 1] == present[..j] + [present[j]];
      hits' := hits'[present[j] := hits'[present[j]] + 1];
      j := j + 1;
    }
    assert present[..|present|] == present;
  }

  /** What the loop of `check` has built after the first `i` targets. */
  ghost predicate Scanned(c: Catalogue, ts: seq<string>, i: nat, details: seq<SnpCoverage>,
                          available: int, unavailable: seq<string>, hits: map<string, int>)
    requires i <= |ts|
  {
    && details == MapSeq((snp: string) => CoverageOf(c, snp), ts[..i])
    && available == AvailableCount(c, ts[..i])
    && unavailable == Unavailable(c, ts[..i])
    && hits.Keys == c.arrays.Keys
    && (forall a :: a in hits ==> hits[a] == Hits(c, ts[..i], a))
  }

  /** One iteration of the loop of `check`: process target `ts[i]`. */
  method ScanOne(c: Catalogue, names: seq<string>, ts: seq<string>, i: nat, details: seq<SnpCoverage>,
                 available: int, unavailable: seq<string>, hits: map<string, int>)
    returns (details': seq<SnpCoverage>, available': int, unavailable': seq<string>, hits': map<string, int>)
    requires names == ArrayNames(c)
    requires i < |ts| && Scanned(c, ts, i, details, available, unavailable, hits)
    ensures Scanned(c, ts, i + 1, details', available', unavailable', hits')
  {
    var snp := ts[i];
    var present := FindArraysContaining(c, snp);
    var cov := SnpCoverage(snp, present, Missing(names, present));
    assert cov == CoverageOf(c, snp);
    AvailableIffCovered(c, snp);
    CountStep(c, ts, i);
    MapSeqStep((snp: string) => CoverageOf(c, snp), ts, i);
    details' := details + [cov];
    hits' := hits;
    if IsAvailable(cov) {
      available' := available + 1;
      unavailable' := unavailable;
      hits' := AddHits(hits, present);
    } else {
      available' := available;
      unavailable' := unavailable + [snp];
    }
    HitsStep(c, ts, i, hits, hits');
  }

  /**
    The loop of `check`: walk the targets once, building the coverage
    entries, the available count, the unavailable list and the hit map.
   */
  method ScanTargets(c: Catalogue, ts: seq<string>)
    returns (details: seq<SnpCoverage>, available: int, unavailable: seq<string>, hits: map<string, int>)
    ensures details == MapSeq((snp: string) => CoverageOf(c, snp), ts)
    ensures available == AvailableCount(c, ts)
    ensures unavailable == Unavailable(c, ts)
    ensures hits.Keys == c.arrays.Keys
    ensures forall a :: a in hits ==> hits[a] == Hits(c, ts, a)
  {
    var names := ArrayNames(c);
    hits := map a | a in names :: 0;
    details := [];
    available := 0;
    unavailable := [];
    assert ts[..0] == [];
    var i := 0;
    while i < |ts|
      invariant i <= |ts|
      invariant Scanned(c, ts, i, details, available, unavailable, hits)
    {
      details, available, unavailable, hits := ScanOne(c, names, ts, i, details, available, unavailable, hits);
      i := i + 1;
    }
    assert ts[..|ts|] == ts;
  }

  /**
    `check`: one coverage entry per target, in input order; the available
    count and the unavailable list; and per-array hit counts, seeded with 0
    for every registered array.
   */
  method Check(c: Catalogue, ts: seq<string>) returns (rep: FeasibilityReport)
    ensures rep.targetSnps == |ts|
    ensures |rep.coverageDetails| == |ts|
    ensures forall i :: 0 <= i < |ts| ==> rep.coverageDetails[i] == CoverageOf(c, ts[i])
    ensures rep.availableCount == AvailableCount(c, ts)
    ensures rep.unavailableSnps == Unavailable(c, ts)
    ensures rep.availableCount + |rep.unavailableSnps| == |ts|
    ensures rep.arraySummary.Keys == c.arrays.Keys
    ensures forall a :: a in rep.arraySummary ==> rep.arraySummary[a] == Hits(c, ts, a)
    ensures forall a :: a in rep.arraySummary ==> 0 <= rep.arraySummary[a] <= rep.availableCount
    ensures 0.0 <= FeasibilityRate(rep) <= 1.0
    ensures ts == [] ==> FeasibilityRate(rep) == 0.0
  {
    var details, available, unavailable, hits := ScanTargets(c, ts);
    rep := FeasibilityReport(|ts|, available, unavailable, details, hits);
    CountsAddUp(c, ts);
    AllHitsAtMostAvailable(c, ts);
  }
}
