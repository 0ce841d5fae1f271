/**
  The catalogue the repository's unit tests build (tests/test_checker.py):
  two arrays sharing one SNP, and the answers the tests expect of it.
 */
module Scenarios {
  import opened Sequences
  import opened Text
  import opened ArrayCatalogue
  import opened FeasibilityChecker

  function Gsa(): ArrayRecord
  {
    ArrayRecord("GSA_v3", 650000, {"rs429358", "rs7412", "rs1234"})
  }

  function Axiom(): ArrayRecord
  {
    ArrayRecord("Axiom_UKB", 800000, {"rs429358", "rs5678"})
  }

  /** The test fixture: GSA_v3 registered first, then Axiom_UKB. */
  function Sample(): Catalogue
  {
    CatalogueState(["GSA_v3", "Axiom_UKB"], map["GSA_v3" := Gsa(), "Axiom_UKB" := Axiom()])
  }

  /** The fixture is what the two `register` calls of the tests build. */
  lemma SampleRegistered()
    ensures Register(Register(Empty(), Gsa()), Axiom()) == Sample()
  {
    FirstRegistered();
    SecondRegistered();
  }

  /** The catalogue after the first `register`. */
  function OnlyGsa(): Catalogue
  {
    CatalogueState(["GSA_v3"], map["GSA_v3" := Gsa()])
  }

  lemma FirstRegistered()
    ensures Register(Empty(), Gsa()) == OnlyGsa()
  {
  }

  lemma SecondRegistered()
    ensures Register(OnlyGsa(), Axiom()) == Sample()
  {
    assert "Axiom_UKB" !in OnlyGsa().arrays by {
      assert |"Axiom_UKB"| != |"GSA_v3"|;
    }
    assert ["GSA_v3"] + ["Axiom_UKB"] == ["GSA_v3", "Axiom_UKB"];
  }

  /** Lookups: the registered record comes back with its declared count. */
  lemma SampleLookup()
    ensures "GSA_v3" in ArrayNames(Sample())
    ensures GetArray(Sample(), "GSA_v3") == Some(Gsa())
    ensures GetArray(Sample(), "Illumina") == None
  {
    var c := Sample();
    assert "GSA_v3" in c.order;
    assert c.arrays.Keys == {"GSA_v3", "Axiom_UKB"};
  }

  /** A shared SNP is on both arrays, in insertion order; an unknown one on none. */
  lemma SampleFind()
    ensures FindArraysContaining(Sample(), "rs429358") == ["GSA_v3", "Axiom_UKB"]
    ensures FindArraysContaining(Sample(), "rs999999") == []
  {
    var c := Sample();
    var o := c.order;
    assert o[1..] == ["Axiom_UKB"] && o[1..][1..] == [];
    assert Containing(o[1..], c.arrays, "rs429358") == ["Axiom_UKB"];
    assert Containing(o[1..], c.arrays, "rs999999") == [];
  }

  /** The SNPs of the sample, pooled. */
  function SamplePool(): set<string>
  {
    {"rs429358", "rs7412", "rs1234", "rs5678"}
  }

  /** The union over both arrays. */
  lemma SampleAllSnps()
    ensures AllSnps(Sample()) == SamplePool()
  {
    var c := Sample();
    assert forall x :: x in AllSnps(c) ==> x in Gsa().snpIds || x in Axiom().snpIds;
    assert "rs1234" in c.arrays["GSA_v3"].snpIds;
    assert "rs5678" in c.arrays["Axiom_UKB"].snpIds;
  }

  lemma SamplePoolSize()
    ensures |SamplePool()| == 4
  {
    var a, b, c, d := "rs429358", "rs7412", "rs1234", "rs5678";
    assert |a| != |b| && |a| != |c| && |a| != |d|;
    assert b[2] != c[2] && b[2] != d[2] && c[2] != d[2];
    assert |{a, b, c}| == 3;
  }

  /** Four distinct SNPs across the two arrays. */
  lemma SampleTotal()
    ensures TotalUniqueSnps(Sample()) == 4
  {
    SampleAllSnps();
    SamplePoolSize();
  }

  /** The overlap of three targets with GSA_v3. */
  lemma SampleOverlap()
    ensures CheckOverlap(Sample(), ["rs429358", "rs7412", "rs5678"], "GSA_v3") == {"rs429358", "rs7412"}
  {
    var ts := ["rs429358", "rs7412", "rs5678"];
    assert GetArray(Sample(), "GSA_v3") == Some(Gsa());
    assert Elems(ts) == {"rs429358", "rs7412", "rs5678"};
    var v := "rs5678";
    assert v[2] != "rs7412"[2] && v[2] != "rs1234"[2] && |v| != |"rs429358"|;
    assert v !in Gsa().snpIds;
  }

  /** An array that does not exist overlaps with nothing. */
  lemma SampleOverlapUnknownArray()
    ensures CheckOverlap(Sample(), ["rs429358"], "NonExistent") == {}
  {
  }

  /**
    Checking one shared SNP and one unknown SNP: `check` (whose counts are
    these reference definitions) finds one available and lists the unknown
    one as unavailable.
   */
  lemma SampleAvailability()
    ensures AvailableCount(Sample(), ["rs429358"]) == 1
    ensures Unavailable(Sample(), ["rs429358"]) == []
    ensures AvailableCount(Sample(), ["rs429358", "rs999999"]) == 1
    ensures Unavailable(Sample(), ["rs429358", "rs999999"]) == ["rs999999"]
  {
    SampleCovered();
    var ts := ["rs429358", "rs999999"];
    assert ts[..1] == ["rs429358"] && ts[..1][..0] == [];
  }

  /** `check` of the shared SNP alone: it is available, so the rate is 1. */
  method SampleCheckShared() returns (rep: FeasibilityReport)
    ensures rep.availableCount == 1
    ensures rep.unavailableSnps == []
    ensures FeasibilityRate(rep) == 1.0
  {
    rep := Check(Sample(), ["rs429358"]);
    SampleAvailability();
  }

  /** `check` of the shared SNP and an unknown one: one available, the unknown one listed. */
  method SampleCheckPartial() returns (rep: FeasibilityReport)
    ensures rep.availableCount == 1
    ensures "rs999999" in rep.unavailableSnps
    ensures FeasibilityRate(rep) == 0.5
  {
    rep := Check(Sample(), ["rs429358", "rs999999"]);
    SampleAvailability();
  }

  /** The shared SNP is held by some array; the unknown one by none. */
  lemma SampleCovered()
    ensures Covered(Sample(), "rs429358")
    ensures !Covered(Sample(), "rs999999")
  {
    assert "rs429358" in Sample().arrays["GSA_v3"].snpIds;
    SampleLacksUnknown();
  }

  lemma SampleLacksUnknown()
    ensures forall a :: a in Sample().arrays ==> "rs999999" !in Sample().arrays[a].snpIds
  {
    var u := "rs999999";
    assert u[2] != "rs429358"[2] && |u| != |"rs7412"| && |u| != |"rs1234"| && |u| != |"rs5678"|;
    assert u !in Gsa().snpIds && u !in Axiom().snpIds;
  }

  /** An entry present on two of three arrays covers two thirds of them. */
  lemma SampleFraction()
    ensures CoverageFraction(SnpCoverage("rs1", ["A", "B"], ["C"])) == 2.0 / 3.0
  {
  }

  /** The two data rows of the manifest in the loader's unit test. */
  function ManifestRows(): seq<map<string, string>>
  {
    [map["snp_id" := "rs111", "chr" := "1", "pos" := "100"],
     map["snp_id" := "rs222", "chr" := "2", "pos" := "200"]]
  }

  /** Loading that manifest gives a record of two SNPs, `rs111` among them. */
  lemma SampleManifest()
    ensures ManifestRecord("TestArray", ManifestRows(), "snp_id").snpCount == 2
    ensures "rs111" in ManifestRecord("TestArray", ManifestRows(), "snp_id").snpIds
  {
    SampleManifestIds();
    TwoIds();
  }

  lemma TwoIds()
    ensures |{"rs111", "rs222"}| == 2
  {
    assert "rs111"[2] != "rs222"[2];
  }

  lemma SampleManifestIds()
    ensures ManifestRecord("TestArray", ManifestRows(), "snp_id").snpIds == {"rs111", "rs222"}
  {
    var rows := ManifestRows();
    SampleIdsStripped();
    assert Cell(rows[0], "snp_id") == "rs111" && Cell(rows[1], "snp_id") == "rs222";
  }

  /** Both ids are already stripped. */
  lemma SampleIdsStripped()
    ensures Strip("rs111") == "rs111" && Strip("rs222") == "rs222"
  {
    var a, b := "rs111", "rs222";
    StripWrapped([], a, []);
    StripWrapped([], b, []);
    assert [] + a + [] == a && [] + b + [] == b;
  }
}
