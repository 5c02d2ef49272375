/**
 * Raviart-Thomas elements: the index lists RTSpace takes out of the degree k+1 orthonormal
 * sets, the dual set (facet normal moments, then interior component moments) with its
 * entity ids, and the degree shift of the element constructor.
 */
module RaviartThomas {
  import opened Wrappers
  import opened Dofs
  import opened Elements
  import opened NodeLists

  /**
   * vec_Pk_indices: for each component i = 0 .. sd-1, in order, the indices
   * i * dimPkp1 .. i * dimPkp1 + dimPk - 1 of the degree k members inside component i's
   * block of the vector-valued degree k+1 set.
   */
  function VecPkIndices(sd: nat, dimPk: nat, dimPkp1: nat): seq<int>
  {
    if sd == 0 then []
    else VecPkIndices(sd - 1, dimPk, dimPkp1) + Range((sd - 1) * dimPkp1, (sd - 1) * dimPkp1 + dimPk)
  }

  lemma {:induction false} VecPkIndicesLength(sd: nat, dimPk: nat, dimPkp1: nat)
    ensures |VecPkIndices(sd, dimPk, dimPkp1)| == sd * dimPk
  {
    if sd > 0 {
      VecPkIndicesLength(sd - 1, dimPk, dimPkp1);
      assert sd * dimPk == (sd - 1) * dimPk + dimPk;
    }
  }

  /** Member j of component i's run sits at position i * dimPk + j and selects index i * dimPkp1 + j. */
  lemma {:induction false} VecPkIndicesAt(sd: nat, dimPk: nat, dimPkp1: nat, i: nat, j: nat)
    requires i < sd && j < dimPk
    ensures |VecPkIndices(sd, dimPk, dimPkp1)| == sd * dimPk
    ensures i * dimPk + j < sd * dimPk
    ensures VecPkIndices(sd, dimPk, dimPkp1)[i * dimPk + j] == i * dimPkp1 + j
  {
    VecPkIndicesLength(sd, dimPk, dimPkp1);
    VecPkIndicesLength(sd - 1, dimPk, dimPkp1);
    assert sd * dimPk == (sd - 1) * dimPk + dimPk;
    if i < sd - 1 {
      MulMonotone(i + 1, sd - 1, dimPk);
      VecPkIndicesAt(sd - 1, dimPk, dimPkp1, i, j);
    }
  }

  /**
   * When dimPk <= dimPkp1 the selected indices are strictly increasing and all lie in
   * [0, sd * dimPkp1), so `take` picks each member of the vector set at most once.
   */
  lemma {:induction false} VecPkIndicesIncreasing(sd: nat, dimPk: nat, dimPkp1: nat)
    requires dimPk <= dimPkp1
    ensures forall a :: 0 <= a < |VecPkIndices(sd, dimPk, dimPkp1)| ==>
      0 <= VecPkIndices(sd, dimPk, dimPkp1)[a] < sd * dimPkp1
    ensures forall a, b :: 0 <= a < b < |VecPkIndices(sd, dimPk, dimPkp1)| ==>
      VecPkIndices(sd, dimPk, dimPkp1)[a] < VecPkIndices(sd, dimPk, dimPkp1)[b]
  {
    if sd > 0 {
      VecPkIndicesIncreasing(sd - 1, dimPk, dimPkp1);
      var p := VecPkIndices(sd - 1, dimPk, dimPkp1);
      var lo := (sd - 1) * dimPkp1;
      var run := Range(lo, lo + dimPk);
      var v := p + run;
      assert v == VecPkIndices(sd, dimPk, dimPkp1);
      assert sd * dimPkp1 == lo + dimPkp1;
      assert lo >= 0;
      forall a | 0 <= a < |v|
        ensures 0 <= v[a] < sd * dimPkp1
        ensures a < |p| ==> v[a] < lo
        ensures |p| <= a ==> v[a] == lo + (a - |p|)
      {
        if a < |p| {
          assert v[a] == p[a];
        } else {
          assert v[a] == run[a - |p|];
        }
      }
    }
  }

  /** list(range(dimPkm1, dimPk)): the members of Pkp1 of degree exactly k. */
  function HomogeneousIndices(dimPkm1: nat, dimPk: nat): (r: seq<int>)
    ensures |r| == if dimPkm1 <= dimPk then dimPk - dimPkm1 else 0
  {
    Range(dimPkm1, dimPk)
  }

  /**
   * With dimPkm1 <= dimPk <= dimPkp1, the homogeneous indices are the top-degree part of the
   * first component's run of vec_Pk_indices: dimPk - dimPkm1 members, none of degree below k.
   */
  lemma {:induction false} HomogeneousIndicesInFirstRun(sd: nat, dimPkm1: nat, dimPk: nat, dimPkp1: nat)
    requires 1 <= sd && dimPkm1 <= dimPk <= dimPkp1
    ensures |HomogeneousIndices(dimPkm1, dimPk)| == dimPk - dimPkm1
    ensures dimPk <= |VecPkIndices(sd, dimPk, dimPkp1)|
    ensures HomogeneousIndices(dimPkm1, dimPk) == VecPkIndices(sd, dimPk, dimPkp1)[dimPkm1..dimPk]
  {
    VecPkIndicesLength(sd, dimPk, dimPkp1);
    MulMonotone(1, sd, dimPk);
    var h := HomogeneousIndices(dimPkm1, dimPk);
    var v := VecPkIndices(sd, dimPk, dimPkp1)[dimPkm1..dimPk];
    forall k | 0 <= k < |h|
      ensures h[k] == v[k]
    {
      VecPkIndicesAt(sd, dimPk, dimPkp1, 0, dimPkm1 + k);
    }
  }

  /**
   * The Raviart-Thomas dual basis for a cell with nf facets and spatial dimension sd:
   * facetPolys scaled-normal moments per facet, facet by facet, then (degree > 0) for each
   * component d the moments against the dimPkm1 members of P_{degree-1}.
   * Both families use quadrature of degree degree + 1.
   */
  function RTNodes(nf: nat, sd: nat, degree: int, facetPolys: nat, dimPkm1: nat): seq<Functional>
  {
    MomentGrid(FacetNormal, nf, facetPolys, degree + 1)
      + (if degree > 0 then MomentGrid(Component, sd, dimPkm1, degree + 1) else [])
  }

  lemma {:induction false} RTNodesLength(nf: nat, sd: nat, degree: int, facetPolys: nat, dimPkm1: nat)
    ensures |RTNodes(nf, sd, degree, facetPolys, dimPkm1)| ==
      nf * facetPolys + (if degree > 0 then sd * dimPkm1 else 0)
  {
    MomentGridLength(FacetNormal, nf, facetPolys, degree + 1);
    MomentGridLength(Component, sd, dimPkm1, degree + 1);
  }

  /** Facet moments come first, facet-major: member i on facet f is node f * facetPolys + i. */
  lemma {:induction false} RTFacetNodeAt(nf: nat, sd: nat, degree: int, facetPolys: nat, dimPkm1: nat, f: nat, i: nat)
    requires f < nf && i < facetPolys
    ensures f * facetPolys + i < |RTNodes(nf, sd, degree, facetPolys, dimPkm1)|
    ensures RTNodes(nf, sd, degree, facetPolys, dimPkm1)[f * facetPolys + i] == ScaledNormalMoment(f, i, degree + 1)
  {
    RTNodesLength(nf, sd, degree, facetPolys, dimPkm1);
    MomentGridAt(FacetNormal, nf, facetPolys, degree + 1, f, i);
  }

  /** Interior moments follow all facet moments, component-major: node nf * facetPolys + d * dimPkm1 + i. */
  lemma {:induction false} RTInteriorNodeAt(nf: nat, sd: nat, degree: int, facetPolys: nat, dimPkm1: nat, d: nat, i: nat)
    requires degree > 0 && d < sd && i < dimPkm1
    ensures nf * facetPolys + d * dimPkm1 + i < |RTNodes(nf, sd, degree, facetPolys, dimPkm1)|
    ensures RTNodes(nf, sd, degree, facetPolys, dimPkm1)[nf * facetPolys + d * dimPkm1 + i] ==
      IntegralMoment(d, i, degree + 1)
  {
    RTNodesLength(nf, sd, degree, facetPolys, dimPkm1);
    MomentGridLength(FacetNormal, nf, facetPolys, degree + 1);
    MomentGridAt(Component, sd, dimPkm1, degree + 1, d, i);
  }

  /** With degree 0 there are no interior moments. */
  lemma {:induction false} RTLowestOrderHasOnlyFacetNodes(nf: nat, sd: nat, degree: int, facetPolys: nat, dimPkm1: nat)
    requires degree <= 0
    ensures forall n :: n in RTNodes(nf, sd, degree, facetPolys, dimPkm1) ==> n.ScaledNormalMoment?
  {
    MomentGridLength(FacetNormal, nf, facetPolys, degree + 1);
    var g := MomentGrid(FacetNormal, nf, facetPolys, degree + 1);
    forall n | n in g
      ensures n.ScaledNormalMoment?
    {
      var a :| 0 <= a < |g| && g[a] == n;
      var f, i := FacetOfNode(a, nf, facetPolys);
      MomentGridAt(FacetNormal, nf, facetPolys, degree + 1, f, i);
    }
  }

  lemma {:induction false} FacetOfNode(a: nat, nf: nat, count: nat) returns (f: nat, i: nat)
    requires a < nf * count
    ensures f < nf && i < count && a == f * count + i
  {
    f := FacetOf(a, nf, count);
    i := a - f * count;
  }

  /**
   * RTDualSet: appends the facet moments and, when degree > 0, the interior moments in nested
   * loops, then fills entity_ids with a running counter. facetPolys is the number of members of
   * the degree-`degree` set on the facet, ptsPerFacet the number of points make_points gives on
   * facet 0, dimPkm1 the dimension of P_{degree-1} on the cell.
   */
  method RTDualSet(cell: ReferenceCell, degree: int, facetPolys: nat, ptsPerFacet: nat, dimPkm1: nat)
    returns (nodes: seq<Functional>, entityIds: EntityDofs)
    requires cell.Valid()
    ensures nodes == RTNodes(cell.NumFacets(), |cell.topology| - 1, degree, facetPolys, dimPkm1)
    ensures entityIds == FacetEntityIds(cell.topology, ptsPerFacet,
                                        if degree > 0 then dimPkm1 * (|cell.topology| - 1) else 0)
    ensures facetPolys == ptsPerFacet ==> Partitions(entityIds, |nodes|)
  {
    nodes := RTNodeLoops(cell, degree, facetPolys, dimPkm1);
    entityIds := RTEntityIds(cell, degree, ptsPerFacet, dimPkm1);
    if facetPolys == ptsPerFacet {
      RTEntityIdsPartition(cell, degree, facetPolys, dimPkm1);
    }
  }

  /** The node loops of RTDualSet: facet moments, then (degree > 0) interior moments. */
  method RTNodeLoops(cell: ReferenceCell, degree: int, facetPolys: nat, dimPkm1: nat) returns (nodes: seq<Functional>)
    requires cell.Valid()
    ensures nodes == RTNodes(cell.NumFacets(), |cell.topology| - 1, degree, facetPolys, dimPkm1)
  {
    nodes := AppendMoments([], FacetNormal, cell.NumFacets(), facetPolys, degree + 1);
    if degree > 0 {
      nodes := AppendMoments(nodes, Component, |cell.topology| - 1, dimPkm1, degree + 1);
    }
  }

  /** The entity_ids loops of RTDualSet, with num_internal_nodes = dimPkm1 per component. */
  method RTEntityIds(cell: ReferenceCell, degree: int, ptsPerFacet: nat, dimPkm1: nat) returns (entityIds: EntityDofs)
    requires cell.Valid()
    ensures entityIds == FacetEntityIds(cell.topology, ptsPerFacet,
                                        if degree > 0 then dimPkm1 * (|cell.topology| - 1) else 0)
  {
    var sd: nat := |cell.topology| - 1;
    var cur;
    entityIds, cur := BuildFacetEntityIds(cell.topology, ptsPerFacet);
    entityIds := AddCellEntry(entityIds, cell.topology, ptsPerFacet, cur, degree > 0, dimPkm1 * sd);
  }

  /** When every facet carries as many moments as facet 0 has points, the entity ids partition the nodes. */
  lemma {:induction false} RTEntityIdsPartition(cell: ReferenceCell, degree: int, facetPolys: nat, dimPkm1: nat)
    requires cell.Valid()
    ensures var sd := |cell.topology| - 1;
      Partitions(FacetEntityIds(cell.topology, facetPolys, if degree > 0 then dimPkm1 * sd else 0),
                 |RTNodes(cell.NumFacets(), sd, degree, facetPolys, dimPkm1)|)
  {
    var sd := |cell.topology| - 1;
    FacetEntityIdsPartition(cell.topology, facetPolys, if degree > 0 then dimPkm1 * sd else 0);
    RTNodesLength(cell.NumFacets(), sd, degree, facetPolys, dimPkm1);
    assert sd * dimPkm1 == dimPkm1 * sd;
  }

  /**
   * RaviartThomas(ref_el, q): the polynomial space and the dual set are both built with
   * degree q - 1; the element is an (sd-1)-form with the contravariant Piola mapping.
   */
  method NewElement(cell: ReferenceCell, q: int, facetPolys: nat, ptsPerFacet: nat, dimPkm1: nat)
    returns (e: CiarletElement)
    requires cell.Valid()
    ensures var sd := |cell.topology| - 1;
      e == CiarletElement(cell, RTSpace(q - 1),
                          RTNodes(cell.NumFacets(), sd, q - 1, facetPolys, dimPkm1),
                          FacetEntityIds(cell.topology, ptsPerFacet, if q - 1 > 0 then dimPkm1 * sd else 0),
                          q - 1, sd - 1, Some("contravariant piola"))
  {
    var degree := q - 1;
    var space := RTSpace(degree);
    var nodes, ids := RTDualSet(cell, degree, facetPolys, ptsPerFacet, dimPkm1);
    var formDegree := cell.SpatialDimension() - 1;
    e := CiarletElement(cell, space, nodes, ids, degree, formDegree, Some("contravariant piola"));
  }
}
