/**
 * Entity-to-dof maps: topological dimension -> entity id -> ordered list of dof indices,
 * as carried by every dual set, and the map that the facet-based dual sets
 * (Raviart-Thomas, Brezzi-Douglas-Marini) build with a running counter.
 */
module Dofs {

  type DofList = seq<int>

  type EntityDofs = map<nat, map<nat, DofList>>

  /** Python's list(range(lo, hi)). */
  function Range(lo: int, hi: int): (r: DofList)
    ensures |r| == if lo < hi then hi - lo else 0
    ensures forall k :: 0 <= k < |r| ==> r[k] == lo + k
  {
    if lo < hi then seq(hi - lo, k => lo + k) else []
  }

  lemma {:induction false} RangeMembers(lo: int, hi: int, x: int)
    ensures x in Range(lo, hi) <==> lo <= x < hi
  {
    if lo <= x < hi {
      assert Range(lo, hi)[x - lo] == x;
    }
  }

  /** list(map(partial(add, off), s)). */
  function Shift(s: DofList, off: int): (r: DofList)
    ensures |r| == |s| && forall k :: 0 <= k < |s| ==> r[k] == s[k] + off
  {
    seq(|s|, k requires 0 <= k < |s| => s[k] + off)
  }

  lemma {:induction false} ShiftMembers(s: DofList, off: int, x: int)
    ensures x in Shift(s, off) <==> x - off in s
  {
    if x - off in s {
      var k :| 0 <= k < |s| && s[k] == x - off;
      assert Shift(s, off)[k] == x;
    }
  }

  predicate Has(m: EntityDofs, dim: nat, ent: nat)
  {
    dim in m && ent in m[dim]
  }

  /** The list at (dim, ent), or [] where a defaultdict would create one. */
  function Get(m: EntityDofs, dim: nat, ent: nat): DofList
  {
    if Has(m, dim, ent) then m[dim][ent] else []
  }

  /** {0, ..., n-1} as a set of entity ids. */
  function Indices(n: nat): (r: set<nat>)
    ensures forall x: nat :: x in r <==> x < n
  {
    if n == 0 then {} else Indices(n - 1) + {n - 1}
  }

  predicate NoDup(s: DofList)
  {
    forall i, j :: 0 <= i < j < |s| ==> s[i] != s[j]
  }

  /**
   * The lists of m partition {0, ..., n-1}: no list repeats an index, every index lies
   * in [0, n), every index of [0, n) lies in some list, and in only one.
   */
  ghost predicate Partitions(m: EntityDofs, n: int)
  {
    && (forall dim, ent :: Has(m, dim, ent) ==> NoDup(m[dim][ent]))
    && (forall dim, ent, x :: Has(m, dim, ent) && x in m[dim][ent] ==> 0 <= x < n)
    && (forall x :: 0 <= x < n ==> Covered(m, x))
    && (forall dim1, ent1, dim2, ent2, x ::
          Has(m, dim1, ent1) && Has(m, dim2, ent2) && x in m[dim1][ent1] && x in m[dim2][ent2] ==>
            dim1 == dim2 && ent1 == ent2)
  }

  ghost predicate Covered(m: EntityDofs, x: int)
  {
    exists dim, ent :: Has(m, dim, ent) && x in m[dim][ent]
  }

  // ---------------------------------------------------------------------------
  // The entity ids of the facet-based dual sets.

  /** {j: [] for j in range(count)}. */
  function EmptyEntities(count: nat): map<nat, DofList>
  {
    map j | j in Indices(count) :: []
  }

  /** Facet f gets list(range(f * p, f * p + p)). */
  function FacetRanges(facets: nat, p: nat): map<nat, DofList>
  {
    map f | f in Indices(facets) :: Range(f * p, f * p + p)
  }

  /**
   * The map the facet-based dual sets build for a cell whose topology has
   * topology[d] entities of dimension d (d = 0 .. sd): empty lists on every entity of
   * dimension below sd - 1, p consecutive dofs per facet, then `interior` dofs on the cell.
   */
  function FacetEntityIds(topology: seq<nat>, p: nat, interior: nat): EntityDofs
    requires |topology| >= 2
  {
    var sd := |topology| - 1;
    var nf := topology[sd - 1];
    map dim: nat | dim in Indices(sd + 1) ::
      if dim < sd - 1 then EmptyEntities(topology[dim])
      else if dim == sd - 1 then FacetRanges(nf, p)
      else map[0 := Range(nf * p, nf * p + interior)]
  }

  /** The first loop shared by the facet-based dual sets: every entity of dimension below sd - 1 gets []. */
  method LowerEntityIds(topology: seq<nat>) returns (ids: EntityDofs)
    requires |topology| >= 2
    ensures ids.Keys == Indices(|topology| - 2)
    ensures forall d :: d in ids ==> ids[d] == EmptyEntities(topology[d])
  {
    ids := map[];
    for i: nat := 0 to |topology| - 2
      invariant ids.Keys == Indices(i)
      invariant forall d :: d in ids ==> ids[d] == EmptyEntities(topology[d])
    {
      ids := EmptyEntry(ids, i, topology[i]);
    }
  }

  /** entity_ids[i] = {}, then entity_ids[i][j] = [] for each of the count entities j. */
  method EmptyEntry(ids: EntityDofs, i: nat, count: nat) returns (r: EntityDofs)
    ensures r == ids[i := EmptyEntities(count)]
  {
    var row: map<nat, DofList> := map[];
    r := ids[i := row];
    for j: nat := 0 to count
      invariant r == ids[i := row]
      invariant row.Keys == Indices(j) && forall e :: e in row ==> row[e] == []
    {
      row := row[j := []];
      r := r[i := row];
    }
    assert row == EmptyEntities(count);
  }

  /**
   * The two loops shared by the facet-based dual sets: every entity of dimension below
   * sd - 1 gets [], then facet i gets range(cur, cur + p) while cur advances by p.
   * Returns the map (without the cell entry) and the final counter.
   */
  method BuildFacetEntityIds(topology: seq<nat>, p: nat) returns (ids: EntityDofs, cur: int)
    requires |topology| >= 2
    ensures cur == topology[|topology| - 2] * p
    ensures ids == FacetEntityIds(topology, p, 0) - {|topology| - 1}
  {
    var sd := |topology| - 1;
    ids := LowerEntityIds(topology);
    cur := 0;
    var nf := topology[sd - 1];
    ids := ids[sd - 1 := map[]];
    for i: nat := 0 to nf
      invariant ids.Keys == Indices(sd)
      invariant forall d :: d in ids && d != sd - 1 ==> ids[d] == EmptyEntities(topology[d])
      invariant ids[sd - 1].Keys == Indices(i)
      invariant forall f :: f in ids[sd - 1] ==> ids[sd - 1][f] == Range(f * p, f * p + p)
      invariant cur == i * p
    {
      var facets: map<nat, DofList> := ids[sd - 1];
      ids := ids[sd - 1 := facets[i := Range(cur, cur + p)]];
      cur := cur + p;
      assert cur == (i + 1) * p;
    }
    assert ids[sd - 1] == FacetRanges(nf, p);
    ghost var spec := FacetEntityIds(topology, p, 0) - {sd};
    assert ids.Keys == spec.Keys;
  }

  /**
   * The last step shared by the facet-based dual sets: the cell gets {0: []} and, when it has
   * interior dofs, range(cur, cur + interior) replaces that empty list.
   */
  method AddCellEntry(ids: EntityDofs, topology: seq<nat>, p: nat, cur: int, present: bool, interior: nat)
    returns (r: EntityDofs)
    requires |topology| >= 2
    requires ids == FacetEntityIds(topology, p, 0) - {|topology| - 1}
    requires cur == topology[|topology| - 2] * p
    ensures r == FacetEntityIds(topology, p, if present then interior else 0)
  {
    var sd := |topology| - 1;
    r := ids[sd := map[0 := []]];
    if present {
      var cell: map<nat, DofList> := r[sd];
      assert cell == map[0 := []];
      var full := cell[0 := Range(cur, cur + interior)];
      assert full == map[0 := Range(cur, cur + interior)];
      r := r[sd := full];
      assert r.Keys == ids.Keys + {sd};
      assert r == ids[sd := map[0 := Range(cur, cur + interior)]];
    } else {
      assert Range(cur, cur) == [];
    }
    FacetEntityIdsWithCell(topology, p, if present then interior else 0);
  }

  /** The map with `interior` cell dofs is the one without the cell entry plus that entry. */
  lemma {:induction false} FacetEntityIdsWithCell(topology: seq<nat>, p: nat, interior: nat)
    requires |topology| >= 2
    ensures var sd := |topology| - 1; var start := topology[sd - 1] * p;
      FacetEntityIds(topology, p, interior) ==
      (FacetEntityIds(topology, p, 0) - {sd})[sd := map[0 := Range(start, start + interior)]]
  {
    var sd := |topology| - 1;
    var start := topology[sd - 1] * p;
    var a := FacetEntityIds(topology, p, interior);
    var b := (FacetEntityIds(topology, p, 0) - {sd})[sd := map[0 := Range(start, start + interior)]];
    assert a.Keys == b.Keys;
    forall d | d in a
      ensures a[d] == b[d]
    {
    }
  }

  lemma {:induction false} MulMonotone(a: nat, b: nat, p: nat)
    requires a <= b
    ensures a * p <= b * p
  {
    var k := b - a;
    assert b * p == a * p + k * p;
  }

  /** An index below nf * p belongs to exactly one facet block. */
  lemma {:induction false} FacetOf(x: int, nf: nat, p: nat) returns (f: nat)
    requires 0 <= x < nf * p
    ensures f < nf && f * p <= x < f * p + p
  {
    assert nf * p == (nf - 1) * p + p;
    if x < (nf - 1) * p {
      f := FacetOf(x, nf - 1, p);
    } else {
      f := nf - 1;
    }
  }

  lemma {:induction false} FacetBlocksDisjoint(x: int, f1: nat, f2: nat, p: nat)
    requires f1 * p <= x < f1 * p + p && f2 * p <= x < f2 * p + p
    ensures f1 == f2
  {
    if f1 < f2 {
      MulMonotone(f1 + 1, f2, p);
    } else if f2 < f1 {
      MulMonotone(f2 + 1, f1, p);
    }
  }

  /**
   * Which entities the facet-based table names: every entity of every dimension below
   * sd - 1 with an empty list, the facets 0 .. nf-1 with p dofs each, and the one cell.
   */
  lemma {:induction false} FacetEntityIdsEntities(topology: seq<nat>, p: nat, interior: nat, dim: nat, ent: nat)
    requires |topology| >= 2
    ensures var m, sd := FacetEntityIds(topology, p, interior), |topology| - 1;
      && (Has(m, dim, ent) <==>
            (dim < sd - 1 && ent < topology[dim]) || (dim == sd - 1 && ent < topology[sd - 1]) || (dim == sd && ent == 0))
      && (Has(m, dim, ent) && dim < sd - 1 ==> m[dim][ent] == [])
      && (Has(m, dim, ent) ==> |m[dim][ent]| == if dim < sd - 1 then 0 else if dim == sd - 1 then p else interior)
  {
    var m, sd := FacetEntityIds(topology, p, interior), |topology| - 1;
    var nf := topology[sd - 1];
    if Has(m, dim, ent) && dim == sd - 1 {
      assert m[dim][ent] == Range(ent * p, ent * p + p);
    } else if Has(m, dim, ent) && dim == sd {
      assert m[dim][ent] == Range(nf * p, nf * p + interior);
    }
  }

  /** Where an index listed in the facet-based map lies: in its facet's block or after all facets. */
  lemma {:induction false} FacetEntityIdsAt(topology: seq<nat>, p: nat, interior: nat, dim: nat, ent: nat, x: int)
    requires |topology| >= 2
    requires Has(FacetEntityIds(topology, p, interior), dim, ent)
    requires x in FacetEntityIds(topology, p, interior)[dim][ent]
    ensures var sd, nf := |topology| - 1, topology[|topology| - 2];
      || (dim == sd - 1 && ent < nf && ent * p <= x < ent * p + p && x < nf * p)
      || (dim == sd && ent == 0 && nf * p <= x < nf * p + interior)
  {
    var sd := |topology| - 1;
    var nf := topology[sd - 1];
    FacetEntityIdsList(topology, p, interior, dim, ent);
    if dim == sd - 1 {
      RangeMembers(ent * p, ent * p + p, x);
      MulMonotone(ent + 1, nf, p);
      assert (ent + 1) * p == ent * p + p;
    } else if dim == sd {
      RangeMembers(nf * p, nf * p + interior, x);
    }
  }

  /** The list the facet-based map holds for one of its entities. */
  lemma {:induction false} FacetEntityIdsList(topology: seq<nat>, p: nat, interior: nat, dim: nat, ent: nat)
    requires |topology| >= 2
    requires Has(FacetEntityIds(topology, p, interior), dim, ent)
    ensures var m, sd := FacetEntityIds(topology, p, interior), |topology| - 1;
      && dim <= sd
      && (dim < sd - 1 ==> m[dim][ent] == [])
      && (dim == sd - 1 ==> ent < topology[sd - 1] && m[dim][ent] == Range(ent * p, ent * p + p))
      && (dim == sd ==> ent == 0 && m[dim][ent] == Range(topology[sd - 1] * p, topology[sd - 1] * p + interior))
  {
  }

  /**
   * The facet-based entity map partitions {0, ..., nf * p + interior - 1}: the facets hold
   * the first nf * p dofs in consecutive disjoint blocks and the cell holds the rest.
   */
  lemma {:induction false} FacetEntityIdsPartition(topology: seq<nat>, p: nat, interior: nat)
    requires |topology| >= 2
    ensures Partitions(FacetEntityIds(topology, p, interior), topology[|topology| - 2] * p + interior)
  {
    FacetEntityIdsNoDup(topology, p, interior);
    FacetEntityIdsBounded(topology, p, interior);
    FacetEntityIdsCover(topology, p, interior);
    FacetEntityIdsUnique(topology, p, interior);
  }

  lemma {:induction false} FacetEntityIdsNoDup(topology: seq<nat>, p: nat, interior: nat)
    requires |topology| >= 2
    ensures var m := FacetEntityIds(topology, p, interior);
      forall dim, ent :: Has(m, dim, ent) ==> NoDup(m[dim][ent])
  {
    var m := FacetEntityIds(topology, p, interior);
    var sd := |topology| - 1;
    var nf := topology[sd - 1];
    forall dim: nat, ent: nat | Has(m, dim, ent)
      ensures NoDup(m[dim][ent])
    {
      if dim == sd - 1 {
        assert m[dim][ent] == Range(ent * p, ent * p + p);
      } else if dim == sd {
        assert m[dim][ent] == Range(nf * p, nf * p + interior);
      } else {
        assert m[dim][ent] == [];
      }
    }
  }

  lemma {:induction false} FacetEntityIdsBounded(topology: seq<nat>, p: nat, interior: nat)
    requires |topology| >= 2
    ensures var m := FacetEntityIds(topology, p, interior);
      forall dim, ent, x :: Has(m, dim, ent) && x in m[dim][ent] ==>
        0 <= x < topology[|topology| - 2] * p + interior
  {
    var m := FacetEntityIds(topology, p, interior);
    forall dim: nat, ent: nat, x | Has(m, dim, ent) && x in m[dim][ent]
      ensures 0 <= x < topology[|topology| - 2] * p + interior
    {
      FacetEntityIdsAt(topology, p, interior, dim, ent, x);
    }
  }

  lemma {:induction false} FacetEntityIdsCover(topology: seq<nat>, p: nat, interior: nat)
    requires |topology| >= 2
    ensures forall x :: 0 <= x < topology[|topology| - 2] * p + interior ==>
      Covered(FacetEntityIds(topology, p, interior), x)
  {
    var m := FacetEntityIds(topology, p, interior);
    var sd := |topology| - 1;
    var nf := topology[sd - 1];
    forall x | 0 <= x < nf * p + interior
      ensures Covered(m, x)
    {
      if x < nf * p {
        var f := FacetOf(x, nf, p);
        RangeMembers(f * p, f * p + p, x);
        assert Has(m, sd - 1, f) && x in m[sd - 1][f];
      } else {
        RangeMembers(nf * p, nf * p + interior, x);
        assert Has(m, sd, 0) && x in m[sd][0];
      }
    }
  }

  lemma {:induction false} FacetEntityIdsUnique(topology: seq<nat>, p: nat, interior: nat)
    requires |topology| >= 2
    ensures var m := FacetEntityIds(topology, p, interior);
      forall dim1, ent1, dim2, ent2, x ::
        Has(m, dim1, ent1) && Has(m, dim2, ent2) && x in m[dim1][ent1] && x in m[dim2][ent2] ==>
          dim1 == dim2 && ent1 == ent2
  {
    var m := FacetEntityIds(topology, p, interior);
    var sd := |topology| - 1;
    forall dim1: nat, ent1: nat, dim2: nat, ent2: nat, x |
      Has(m, dim1, ent1) && Has(m, dim2, ent2) && x in m[dim1][ent1] && x in m[dim2][ent2]
      ensures dim1 == dim2 && ent1 == ent2
    {
      FacetEntityIdsAt(topology, p, interior, dim1, ent1, x);
      FacetEntityIdsAt(topology, p, interior, dim2, ent2, x);
      if dim1 == sd - 1 && dim2 == sd - 1 {
        FacetBlocksDisjoint(x, ent1, ent2, p);
      }
    }
  }
}
