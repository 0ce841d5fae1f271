/**
  The array catalogue: a registry of genotyping arrays, each with the set
  of SNP ids its manifest lists, keyed by array name.

  The source keeps a Python dict; a dict remembers insertion order, and
  overwriting an existing key keeps it where it was. The model therefore
  holds the names in insertion order beside the name-to-record map.
 */
module ArrayCatalogue {
  import opened Sequences
  import opened Text

  datatype Option<T> = None | Some(value: T)

  /** One array's manifest. `snpCount` is informational and unchecked. */
  datatype ArrayRecord = ArrayRecord(arrayName: string, snpCount: int, snpIds: set<string>)

  /** `ArrayRecord.snp_set`: a copy of the record's SNP ids. */
  function SnpSet(r: ArrayRecord): set<string>
  {
    r.snpIds
  }

  datatype CatalogueState = CatalogueState(order: seq<string>, arrays: map<string, ArrayRecord>)

  /**
    What every reachable catalogue satisfies: the insertion order lists each
    registered name once and nothing else, and every record is filed under
    its own name.
   */
  predicate WellFormed(st: CatalogueState)
  {
    && Distinct(st.order)
    && (forall n :: n in st.order ==> n in st.arrays)
    && (forall n :: n in st.arrays ==> n in st.order && st.arrays[n].arrayName == n)
  }

  type Catalogue = st: CatalogueState | WellFormed(st) witness CatalogueState([], map[])

  /** `ArrayCatalogue()` with no records. */
  function Empty(): (c: Catalogue)
    ensures c.arrays == map[]
  {
    CatalogueState([], map[])
  }

  /** `get_array`: the record under `name`, or `None`; never an error. */
  function GetArray(c: Catalogue, name: string): (r: Option<ArrayRecord>)
    ensures r.None? <==> name !in c.arrays
    ensures r.Some? ==> r.value.arrayName == name && r.value == c.arrays[name]
  {
    if name in c.arrays then Some(c.arrays[name]) else None
  }

  /** `register`: insert, or overwrite in place, the record under its own name. */
  function Register(c: Catalogue, r: ArrayRecord): (c': Catalogue)
    ensures GetArray(c', r.arrayName) == Some(r)
    ensures forall n :: n != r.arrayName ==> GetArray(c', n) == GetArray(c, n)
    ensures c'.arrays.Keys == c.arrays.Keys + {r.arrayName}
    ensures |c.order| <= |c'.order| <= |c.order| + 1 && c'.order[..|c.order|] == c.order
  {
    var order := if r.arrayName in c.arrays then c.order else c.order + [r.arrayName];
    var st := CatalogueState(order, c.arrays[r.arrayName := r]);
    assert order[..|c.order|] == c.order;
    st
  }

  /** Registering every record of `rs`, first to last. */
  function RegisterAll(c: Catalogue, rs: seq<ArrayRecord>): Catalogue
  {
    if rs == [] then c else Register(RegisterAll(c, rs[..|rs| - 1]), rs[|rs| - 1])
  }

  /** `rs[j]` is the last record in `rs` named `n`. */
  predicate LastNamed(rs: seq<ArrayRecord>, j: int, n: string)
  {
    0 <= j < |rs| && rs[j].arrayName == n && forall k :: j < k < |rs| ==> rs[k].arrayName != n
  }

  /** Some record in `rs` is named `n`. */
  predicate Named(rs: seq<ArrayRecord>, n: string)
  {
    exists j :: 0 <= j < |rs| && rs[j].arrayName == n
  }

  /** After registering `rs`, the names are the earlier ones plus those of `rs`. */
  lemma {:induction false} RegisterAllKeys(c: Catalogue, rs: seq<ArrayRecord>)
    ensures forall n :: n in RegisterAll(c, rs).arrays <==> n in c.arrays || Named(rs, n)
  {
    if rs != [] {
      var init, last := rs[..|rs| - 1], rs[|rs| - 1];
      RegisterAllKeys(c, init);
      forall n
        ensures n in RegisterAll(c, rs).arrays <==> n in c.arrays || Named(rs, n)
      {
        if Named(init, n) {
          var j :| 0 <= j < |init| && init[j].arrayName == n;
          assert rs[j] == init[j];
        }
        if Named(rs, n) && n != last.arrayName {
          var j :| 0 <= j < |rs| && rs[j].arrayName == n;
          assert rs[j] == init[j];
        }
        if n == last.arrayName {
          assert rs[|rs| - 1].arrayName == n;
        }
      }
    }
  }

  /** After registering `rs`, a name given in `rs` holds the last record with it. */
  lemma {:induction false} RegisterAllLastWins(c: Catalogue, rs: seq<ArrayRecord>)
    ensures forall n, j :: LastNamed(rs, j, n) ==> GetArray(RegisterAll(c, rs), n) == Some(rs[j])
  {
    if rs != [] {
      var init, last := rs[..|rs| - 1], rs[|rs| - 1];
      RegisterAllLastWins(c, init);
      forall n, j | LastNamed(rs, j, n)
        ensures GetArray(RegisterAll(c, rs), n) == Some(rs[j])
      {
        if n != last.arrayName {
          assert rs[j] == init[j];
          forall k | j < k < |init|
            ensures init[k].arrayName != n
          {
            assert rs[k] == init[k];
          }
          assert LastNamed(init, j, n);
        }
      }
    }
  }

  /**
    `ArrayCatalogue(arrays)`: the catalogue built from a list of records,
    each stored as `register` would store it. A name occurring more than
    once ends up with its last record; a name not in the list is absent.
   */
  function FromRecords(rs: seq<ArrayRecord>): (c: Catalogue)
    ensures forall n :: n in c.arrays <==> Named(rs, n)
    ensures forall n, j :: LastNamed(rs, j, n) ==> GetArray(c, n) == Some(rs[j])
  {
    RegisterAllKeys(Empty(), rs);
    RegisterAllLastWins(Empty(), rs);
    RegisterAll(Empty(), rs)
  }

  /** `array_names`: every registered name, in ascending order. */
  function ArrayNames(c: Catalogue): (names: seq<string>)
    ensures StrictlySorted(names)
    ensures forall n :: n in names <==> n in c.arrays
    ensures |names| == |c.arrays|
  {
    var names := SortDistinct(c.order);
    assert forall n :: n in names <==> n in Elems(names);
    assert c.arrays.Keys == Elems(c.order);
    DistinctCard(c.order);
    names
  }

  /**
    Sorting does not depend on insertion order: any ascending list of the
    registered names is the one `array_names` returns.
   */
  lemma ArrayNamesUnique(c: Catalogue, names: seq<string>)
    requires StrictlySorted(names)
    requires forall n :: n in names <==> n in c.arrays
    ensures names == ArrayNames(c)
  {
    var a := ArrayNames(c);
    assert Elems(names) == Elems(a);
    SortedUnique(names, a);
  }

  /** The names in `order` whose record holds `snp`, in the same order. */
  function Containing(order: seq<string>, arrays: map<string, ArrayRecord>, snp: string): (r: seq<string>)
    requires forall n :: n in order ==> n in arrays
    ensures forall n :: n in r <==> n in order && snp in arrays[n].snpIds
    ensures Subsequence(r, order)
  {
    if order == [] then []
    else
      var rest := Containing(order[1..], arrays, snp);
      assert forall n :: n in order <==> n == order[0] || n in order[1..];
      if snp in arrays[order[0]].snpIds then [order[0]] + rest
      else rest
  }

  /**
    `find_arrays_containing`: the names of the arrays holding `snp`, in
    insertion order.
   */
  function FindArraysContaining(c: Catalogue, snp: string): (r: seq<string>)
    ensures forall n :: n in r <==> n in c.arrays && snp in c.arrays[n].snpIds
    ensures Subsequence(r, c.order)
    ensures Distinct(r)
  {
    var r := Containing(c.order, c.arrays, snp);
    SubsequenceDistinct(r, c.order);
    r
  }

  /**
    The insertion-order filter is the only order-preserving list with those
    names: `find_arrays_containing` is fully determined by its contract.
   */
  lemma FindArraysContainingUnique(c: Catalogue, snp: string, r: seq<string>)
    requires Subsequence(r, c.order)
    requires forall n :: n in r <==> n in c.arrays && snp in c.arrays[n].snpIds
    ensures r == FindArraysContaining(c, snp)
  {
    var f := FindArraysContaining(c, snp);
    assert Elems(r) == Elems(f);
    SubsequenceUnique(r, f, c.order);
  }

  /** Every SNP id some registered array holds. */
  function AllSnps(c: Catalogue): set<string>
  {
    set n, x | n in c.arrays && x in c.arrays[n].snpIds :: x
  }

  /** The union of the SNP sets of the arrays named in `order`. */
  function UnionOver(order: seq<string>, arrays: map<string, ArrayRecord>): (u: set<string>)
    requires forall n :: n in order ==> n in arrays
    ensures forall x :: x in u <==> exists n :: n in order && x in arrays[n].snpIds
  {
    if order == [] then {}
    else
      var rest := UnionOver(order[1..], arrays);
      assert forall n :: n in order <==> n == order[0] || n in order[1..];
      arrays[order[0]].snpIds + rest
  }

  /** `total_unique_snps`: the number of distinct SNP ids across all arrays. */
  function TotalUniqueSnps(c: Catalogue): (total: nat)
    ensures total == |AllSnps(c)|
  {
    var u := UnionOver(c.order, c.arrays);
    assert u == AllSnps(c);
    |u|
  }

  /** The sum of the SNP set sizes of the arrays named in `order`. */
  function SizeSum(order: seq<string>, arrays: map<string, ArrayRecord>): nat
    requires forall n :: n in order ==> n in arrays
  {
    if order == [] then 0 else |arrays[order[0]].snpIds| + SizeSum(order[1..], arrays)
  }

  lemma {:induction false} UnionOverBound(order: seq<string>, arrays: map<string, ArrayRecord>)
    requires forall n :: n in order ==> n in arrays
    ensures |UnionOver(order, arrays)| <= SizeSum(order, arrays)
  {
    if order != [] {
      UnionOverBound(order[1..], arrays);
    }
  }

  /**
    The union is no smaller than any one array's set and no larger than the
    sizes added up; an empty catalogue has no SNPs.
   */
  lemma TotalUniqueSnpsBounds(c: Catalogue)
    ensures forall n :: n in c.arrays ==> |c.arrays[n].snpIds| <= TotalUniqueSnps(c)
    ensures TotalUniqueSnps(c) <= SizeSum(c.order, c.arrays)
    ensures c.arrays == map[] ==> TotalUniqueSnps(c) == 0
  {
    forall n | n in c.arrays
      ensures |c.arrays[n].snpIds| <= TotalUniqueSnps(c)
    {
      assert c.arrays[n].snpIds <= AllSnps(c);
      SubsetCard(c.arrays[n].snpIds, AllSnps(c));
    }
    UnionOverBound(c.order, c.arrays);
    assert UnionOver(c.order, c.arrays) == AllSnps(c);
    if c.arrays == map[] {
      assert AllSnps(c) == {};
    }
  }

  /** A subset is no larger than its superset. */
  lemma SubsetCard<T>(a: set<T>, b: set<T>)
    requires a <= b
    ensures |a| <= |b|
  {
    assert b == a + (b - a);
  }

  /**
    Registering an array under a new name adds to the number of distinct
    SNPs exactly the ones no registered array held before: none when its
    SNPs are already covered, all of them when it shares none.
   */
  lemma RegisterNewArrayTotal(c: Catalogue, r: ArrayRecord)
    requires r.arrayName !in c.arrays
    ensures |AllSnps(Register(c, r))| == |AllSnps(c)| + |r.snpIds - AllSnps(c)|
  {
    var before := AllSnps(c);
    var added := r.snpIds - before;
    RegisterNewArraySnps(c, r);
    assert AllSnps(Register(c, r)) == before + added;
    assert before !! added;
  }

  /** Under a new name, the registered record's SNPs join the union. */
  lemma RegisterNewArraySnps(c: Catalogue, r: ArrayRecord)
    requires r.arrayName !in c.arrays
    ensures AllSnps(Register(c, r)) == AllSnps(c) + r.snpIds
  {
    var c' := Register(c, r);
    forall x | x in AllSnps(c')
      ensures x in AllSnps(c) + r.snpIds
    {
      var n :| n in c'.arrays && x in c'.arrays[n].snpIds;
      if n != r.arrayName {
        assert c'.arrays[n] == c.arrays[n];
      }
    }
    forall x | x in AllSnps(c)
      ensures x in AllSnps(c')
    {
      var n :| n in c.arrays && x in c.arrays[n].snpIds;
      assert c'.arrays[n] == c.arrays[n];
    }
    assert c'.arrays[r.arrayName] == r;
  }

  // ---------------------------------------------------------------------------
  // Manifest loading
  // ---------------------------------------------------------------------------

  /** `row.get(column, "")` on one row of a header-keyed CSV reader. */
  function Cell(row: map<string, string>, column: string): string
  {
    if column in row then row[column] else ""
  }

  /** The stripped, non-blank cells of a column, as a set. */
  function CleanIds(cells: seq<string>): set<string>
  {
    set i | 0 <= i < |cells| && Strip(cells[i]) != "" :: Strip(cells[i])
  }

  /** Every id kept from a column is non-empty and already stripped. */
  lemma CleanIdsTrimmed(cells: seq<string>)
    ensures forall x :: x in CleanIds(cells) ==> x != "" && Strip(x) == x
  {
  }

  /**
    The loop of `load_manifest_csv`: strip each cell, and add it to the set
    when something is left.
   */
  function ManifestIds(cells: seq<string>): (ids: set<string>)
    ensures ids == CleanIds(cells)
  {
    if cells == [] then {}
    else
      var init, last := cells[..|cells| - 1], cells[|cells| - 1];
      var sid := Strip(last);
      var ids := ManifestIds(init) + (if sid != "" then {sid} else {});
      assert cells == init + [last];
      CleanIdsSnoc(init, last);
      ids
  }

  lemma CleanIdsSnoc(init: seq<string>, last: string)
    ensures CleanIds(init + [last]) == CleanIds(init) + (if Strip(last) != "" then {Strip(last)} else {})
  {
    var cells := init + [last];
    assert forall i :: 0 <= i < |init| ==> cells[i] == init[i];
    assert cells[|init|] == last;
  }

  /** The column `column` of every row, a missing column reading as "". */
  function Column(rows: seq<map<string, string>>, column: string): (cells: seq<string>)
    ensures |cells| == |rows|
    ensures forall i :: 0 <= i < |rows| ==> cells[i] == Cell(rows[i], column)
  {
    seq(|rows|, i requires 0 <= i < |rows| => Cell(rows[i], column))
  }

  /** The record `load_manifest_csv` builds from the rows of a manifest. */
  function ManifestRecord(name: string, rows: seq<map<string, string>>, column: string): (rec: ArrayRecord)
    ensures rec.arrayName == name
    ensures rec.snpCount == |rec.snpIds|
    ensures forall x :: x in rec.snpIds ==> x != "" && Strip(x) == x
    ensures forall x :: x in rec.snpIds <==>
      exists i :: 0 <= i < |rows| && Strip(Cell(rows[i], column)) == x && x != ""
  {
    var cells := Column(rows, column);
    var ids := ManifestIds(cells);
    CleanIdsTrimmed(cells);
    ArrayRecord(name, |ids|, ids)
  }

  /**
    A column no row has yields an array with no SNPs: the loader reports
    nothing about the missing header.
   */
  lemma MissingColumnIsEmpty(name: string, rows: seq<map<string, string>>, column: string)
    requires forall i :: 0 <= i < |rows| ==> column !in rows[i]
    ensures ManifestRecord(name, rows, column).snpIds == {}
    ensures ManifestRecord(name, rows, column).snpCount == 0
  {
  }

  /**
    `load_manifest_csv` once the file has been read into rows: build the
    record and file it under `name`, overwriting any earlier record.
   */
  function LoadManifest(c: Catalogue, name: string, rows: seq<map<string, string>>, column: string)
    : (res: (Catalogue, ArrayRecord))
    ensures res.1.arrayName == name && res.1.snpCount == |res.1.snpIds|
    ensures forall x :: x in res.1.snpIds <==>
      exists i :: 0 <= i < |rows| && Strip(Cell(rows[i], column)) == x && x != ""
    ensures GetArray(res.0, name) == Some(res.1)
    ensures forall n :: n != name ==> GetArray(res.0, n) == GetArray(c, n)
    ensures res.0.arrays.Keys == c.arrays.Keys + {name}
  {
    var rec := ManifestRecord(name, rows, column);
    (Register(c, rec), rec)
  }
}
