/** Which catalog revisions `main` benchmarks (main.js): an explicit `--revision`
    wins; otherwise the catalog is cut to [begin, end] and that list is thinned to
    every `delta`-th entry, always keeping the two bounds themselves. */
module Revisions {
  import opened Basics
  import opened Sequences

  /** `index % delta === 0` in JavaScript, for an index of the range-filtered list.
      A zero delta makes the remainder NaN, which equals nothing; for a negative delta
      the JavaScript remainder is zero exactly when Dafny's is. */
  predicate OnStride(index: nat, delta: int)
  {
    delta != 0 && index % delta == 0
  }

  /** `catalog.filter(r => r >= begin && r <= end)`. */
  function InRange(catalog: seq<int>, begin: int, end: int): seq<int>
  {
    Filter(catalog, (r: int, index: nat) => begin <= r <= end)
  }

  /** `.filter((r, index) => r === begin || r === end || index % delta === 0)`,
      where `index` is the position in the list being filtered. */
  function Decimate(inRange: seq<int>, begin: int, end: int, delta: int): seq<int>
  {
    Filter(inRange, (r: int, index: nat) => r == begin || r == end || OnStride(index, delta))
  }

  /** The revisions `main` loops over. `if (argv.revision)` is a truthiness test, so a
      revision of 0 counts as not given. */
  function SelectRevisions(catalog: seq<int>, revision: Option<int>, begin: int, end: int, delta: int): seq<int>
  {
    if revision.Some? && revision.value != 0 then [revision.value]
    else Decimate(InRange(catalog, begin, end), begin, end, delta)
  }

  /** An explicit non-zero revision is the whole selection, whatever the catalog holds. */
  lemma ExplicitRevisionWins(catalog: seq<int>, revision: int, begin: int, end: int, delta: int)
    requires revision != 0
    ensures SelectRevisions(catalog, Some(revision), begin, end, delta) == [revision]
  {
  }

  /** A revision of 0 is ignored: the selection is the one made without `--revision`. */
  lemma ZeroRevisionIgnored(catalog: seq<int>, begin: int, end: int, delta: int)
    ensures SelectRevisions(catalog, Some(0), begin, end, delta) == SelectRevisions(catalog, None, begin, end, delta)
  {
  }

  /** A revision is selected exactly when it is in the range-filtered list at some index
      where it is one of the bounds or the index is a multiple of `delta`. */
  lemma SelectionMembership(catalog: seq<int>, begin: int, end: int, delta: int, x: int)
    ensures var rs := InRange(catalog, begin, end);
      x in SelectRevisions(catalog, None, begin, end, delta) <==>
      exists k :: 0 <= k < |rs| && rs[k] == x && (x == begin || x == end || OnStride(k, delta))
  {
    FilterMembership(InRange(catalog, begin, end),
      (r: int, index: nat) => r == begin || r == end || OnStride(index, delta), x);
  }

  /** Without `--revision`, every selected revision is a catalog entry within
      [begin, end], and the selection lists them in catalog order. */
  lemma SelectionWithinCatalog(catalog: seq<int>, begin: int, end: int, delta: int)
    ensures var sel := SelectRevisions(catalog, None, begin, end, delta);
      && (forall x :: x in sel ==> x in catalog && begin <= x <= end)
      && IsSubsequence(sel, catalog)
  {
    var inRange := (r: int, index: nat) => begin <= r <= end;
    var keep := (r: int, index: nat) => r == begin || r == end || OnStride(index, delta);
    var rs := InRange(catalog, begin, end);
    var sel := SelectRevisions(catalog, None, begin, end, delta);
    forall x | x in sel
      ensures x in catalog && begin <= x <= end
    {
      FilterMembership(rs, keep, x);
      var k :| 0 <= k < |rs| && rs[k] == x && keep(rs[k], k);
      assert x in rs;
      FilterMembership(catalog, inRange, x);
    }
    FilterIsSubsequence(catalog, inRange);
    FilterIsSubsequence(rs, keep);
    SubsequenceTransitive(sel, rs, catalog);
  }

  /** A catalog entry equal to `begin` or to `end` is kept whatever `delta` is, as long
      as the range is not empty. */
  lemma BoundsAlwaysKept(catalog: seq<int>, begin: int, end: int, delta: int, x: int)
    requires x in catalog && (x == begin || x == end) && begin <= end
    ensures x in SelectRevisions(catalog, None, begin, end, delta)
  {
    var inRange := (r: int, index: nat) => begin <= r <= end;
    var i :| 0 <= i < |catalog| && catalog[i] == x;
    FilterMembership(catalog, inRange, x);
    var rs := InRange(catalog, begin, end);
    var k :| 0 <= k < |rs| && rs[k] == x;
    SelectionMembership(catalog, begin, end, delta, x);
  }

  /** The stride counts positions in the range-filtered list, not in the catalog:
      entry `k` of that list is kept whenever `k` is a multiple of `delta`. */
  lemma StrideCountsRangePositions(catalog: seq<int>, begin: int, end: int, delta: int, k: nat)
    requires k < |InRange(catalog, begin, end)| && OnStride(k, delta)
    ensures InRange(catalog, begin, end)[k] in SelectRevisions(catalog, None, begin, end, delta)
  {
    SelectionMembership(catalog, begin, end, delta, InRange(catalog, begin, end)[k]);
  }

  /** With a stride of 1 every in-range catalog revision is benchmarked. */
  lemma UnitStrideKeepsRange(catalog: seq<int>, begin: int, end: int)
    ensures SelectRevisions(catalog, None, begin, end, 1) == InRange(catalog, begin, end)
  {
    var keep := (r: int, index: nat) => r == begin || r == end || OnStride(index, 1);
    var rs := InRange(catalog, begin, end);
    forall i | 0 <= i < |rs|
      ensures keep(rs[i], i)
    {
      assert OnStride(i, 1);
    }
    FilterKeepingAll(rs, keep);
  }

  /** With a stride of 0 the remainder is NaN, so only the bounds themselves survive. */
  lemma ZeroStrideKeepsBoundsOnly(catalog: seq<int>, begin: int, end: int, x: int)
    ensures x in SelectRevisions(catalog, None, begin, end, 0) <==>
      x in InRange(catalog, begin, end) && (x == begin || x == end)
  {
    SelectionMembership(catalog, begin, end, 0, x);
  }

  /** Cutting one more catalog entry to the range decides only that entry. */
  lemma InRangeSnoc(catalog: seq<int>, r: int, begin: int, end: int)
    ensures InRange(catalog + [r], begin, end) ==
      InRange(catalog, begin, end) + (if begin <= r <= end then [r] else [])
  {
    FilterSnoc(catalog, r, (r: int, index: nat) => begin <= r <= end);
  }

  /** Thinning one more in-range entry decides only that entry, by its own position. */
  lemma DecimateSnoc(inRange: seq<int>, r: int, begin: int, end: int, delta: int)
    ensures Decimate(inRange + [r], begin, end, delta) ==
      Decimate(inRange, begin, end, delta) + (if r == begin || r == end || OnStride(|inRange|, delta) then [r] else [])
  {
    FilterSnoc(inRange, r, (r: int, index: nat) => r == begin || r == end || OnStride(index, delta));
  }

  /** The range cut of the example below: 1 is below `begin`, the rest lie in [2, 7]. */
  lemma RangeExample()
    ensures InRange([1, 2, 3, 4, 5, 6, 7], 2, 7) == [2, 3, 4, 5, 6, 7]
  {
    InRangeSnoc([], 1, 2, 7);
    assert [] + [1] == [1];
    InRangeSnoc([1], 2, 2, 7);
    assert [1] + [2] == [1, 2];
    InRangeSnoc([1, 2], 3, 2, 7);
    assert [1, 2] + [3] == [1, 2, 3];
    InRangeSnoc([1, 2, 3], 4, 2, 7);
    assert [1, 2, 3] + [4] == [1, 2, 3, 4];
    InRangeSnoc([1, 2, 3, 4], 5, 2, 7);
    assert [1, 2, 3, 4] + [5] == [1, 2, 3, 4, 5];
    InRangeSnoc([1, 2, 3, 4, 5], 6, 2, 7);
    assert [1, 2, 3, 4, 5] + [6] == [1, 2, 3, 4, 5, 6];
    InRangeSnoc([1, 2, 3, 4, 5, 6], 7, 2, 7);
    assert [1, 2, 3, 4, 5, 6] + [7] == [1, 2, 3, 4, 5, 6, 7];
  }

  /** The thinning of the example below: positions 0, 2 and 4 and the end bound remain. */
  lemma DecimateExample()
    ensures Decimate([2, 3, 4, 5, 6, 7], 2, 7, 2) == [2, 4, 6, 7]
  {
    assert !OnStride(1, 2) && OnStride(2, 2) && !OnStride(3, 2) && OnStride(4, 2);
    DecimateSnoc([], 2, 2, 7, 2);
    assert [] + [2] == [2];
    DecimateSnoc([2], 3, 2, 7, 2);
    assert [2] + [3] == [2, 3];
    DecimateSnoc([2, 3], 4, 2, 7, 2);
    assert [2, 3] + [4] == [2, 3, 4];
    DecimateSnoc([2, 3, 4], 5, 2, 7, 2);
    assert [2, 3, 4] + [5] == [2, 3, 4, 5];
    DecimateSnoc([2, 3, 4, 5], 6, 2, 7, 2);
    assert [2, 3, 4, 5] + [6] == [2, 3, 4, 5, 6];
    DecimateSnoc([2, 3, 4, 5, 6], 7, 2, 7, 2);
    assert [2, 3, 4, 5, 6] + [7] == [2, 3, 4, 5, 6, 7];
  }

  /** Thinning by position in the range-filtered list, shown on a small catalog: from
      1..7 with bounds 2 and 7 and stride 2, positions 0, 2 and 4 of [2, 3, 4, 5, 6, 7]
      and the end bound remain. Counting positions in the catalog would keep 3 and 5. */
  lemma StrideExample()
    ensures SelectRevisions([1, 2, 3, 4, 5, 6, 7], None, 2, 7, 2) == [2, 4, 6, 7]
  {
    RangeExample();
    DecimateExample();
  }
}
