/**
 * Brezzi-Douglas-Marini elements: the parsing and validation of the `variant` argument
 * (point evaluation, or integral moments with a default or user-given quadrature degree),
 * the dual set of either variant with its entity ids, and the element constructor.
 */
module BrezziDouglasMarini {
  import opened Wrappers
  import opened Dofs
  import opened Elements
  import opened NodeLists
  import opened Strings

  /** The parsed variant: point evaluation, or integral moments with their quadrature degree. */
  datatype Variant = PointVariant | IntegralVariant(quadDegree: int)

  /** The ValueError / Exception cases of the constructor, in the order they are checked. */
  datatype BDMError =
    | UnknownVariant
    | WrongFormat
    | QuadratureTooLow(minimum: int)
    | DegreeTooLow

  /**
   * The constructor's handling of (degree, variant): None means "point"; anything that
   * is neither "point" nor contains "integral" is refused; "integral" takes quadrature degree
   * 5 (degree + 1); any other string containing "integral" takes the integer made of all its
   * digits, which must exist and be at least degree + 1; and only then degree < 1 is refused.
   */
  function ParseVariant(variant: Option<string>, degree: int): (r: Result<Variant, BDMError>)
    ensures r.Success? ==> degree >= 1
    ensures r.Success? && r.value.IntegralVariant? ==> r.value.quadDegree >= degree + 1
    ensures r.Success? ==> (r.value.PointVariant? <==> variant == None || variant == Some("point"))
    ensures r == Failure(UnknownVariant) <==>
      variant.Some? && variant.value != "point" && !Contains(variant.value, "integral")
    ensures r == Failure(WrongFormat) <==>
      variant.Some? && variant.value != "integral" && Contains(variant.value, "integral")
      && Digits(variant.value) == []
  {
    var v := if variant.None? then "point" else variant.value;
    if !(v == "point" || Contains(v, "integral")) then Failure(UnknownVariant)
    else
      var quad: Result<Option<int>, BDMError> :=
        if v == "integral" then Success(Some(5 * (degree + 1)))
        else if Contains(v, "integral") then
          var ds := Digits(v);
          if ds == [] then Failure(WrongFormat)
          else if DecimalValue(ds) < degree + 1 then Failure(QuadratureTooLow(degree + 1))
          else Success(Some(DecimalValue(ds) as int))
        else Success(None);
      if quad.Failure? then Failure(quad.error)
      else if degree < 1 then Failure(DegreeTooLow)
      else if quad.value.Some? then Success(IntegralVariant(quad.value.value))
      else Success(PointVariant)
  }

  /** Leaving the variant out is the same as asking for "point". */
  lemma {:induction false} ParseDefaultIsPoint(degree: int)
    ensures ParseVariant(None, degree) == ParseVariant(Some("point"), degree)
    ensures degree >= 1 ==> ParseVariant(None, degree) == Success(PointVariant)
    ensures degree < 1 ==> ParseVariant(None, degree) == Failure(DegreeTooLow)
  {
  }

  /** Plain "integral" uses quadrature degree 5 (degree + 1), once the degree is at least 1. */
  lemma {:induction false} ParsePlainIntegral(degree: int)
    ensures degree >= 1 ==> ParseVariant(Some("integral"), degree) == Success(IntegralVariant(5 * (degree + 1)))
    ensures degree < 1 ==> ParseVariant(Some("integral"), degree) == Failure(DegreeTooLow)
  {
  }

  /** The digits of "integral(" + d + ")" are the digits of d. */
  lemma {:induction false} DigitsOfIntegralSpelling(d: string)
    ensures Digits("integral(" + d + ")") == Digits(d)
  {
    DigitsConcat("integral(" + d, ")");
    DigitsConcat("integral(", d);
    DigitsOfNonDigitString("integral(");
    DigitsOfNonDigitString(")");
  }

  /** "integral(" + d + ")" contains "integral" but is neither "integral" nor "point". */
  lemma {:induction false} IntegralSpellingClass(d: string)
    ensures var v := "integral(" + d + ")";
      Contains(v, "integral") && v != "integral" && v != "point"
  {
    var v := "integral(" + d + ")";
    assert v[..|"integral"|] == "integral";
    ContainsPrefix(v, "integral");
    assert |v| > |"integral"|;
  }

  /**
   * Writing variant="integral(q)": the digits of the string, read back as a number, are q.
   * So q >= degree + 1 selects quadrature degree q, and a q below degree + 1 is reported
   * before the degree itself is checked, even when degree < 1.
   */
  lemma {:induction false} ParseSpelledIntegral(degree: int, q: nat)
    ensures ParseVariant(Some("integral(" + DecimalString(q) + ")"), degree) ==
      if q < degree + 1 then Failure(QuadratureTooLow(degree + 1))
      else if degree < 1 then Failure(DegreeTooLow)
      else Success(IntegralVariant(q))
  {
    var d := DecimalString(q);
    var v := "integral(" + d + ")";
    IntegralSpellingClass(d);
    DigitsOfIntegralSpelling(d);
    DigitsOfDigitString(d);
    DecimalRoundTrip(q);
    ParseDigitsSpelling(v, degree);
  }

  /** Any variant other than "integral" that contains "integral" and some digit takes the number its digits spell. */
  lemma {:induction false} ParseDigitsSpelling(v: string, degree: int)
    requires Contains(v, "integral") && v != "integral" && v != "point" && Digits(v) != []
    ensures ParseVariant(Some(v), degree) ==
      if DecimalValue(Digits(v)) < degree + 1 then Failure(QuadratureTooLow(degree + 1))
      else if degree < 1 then Failure(DegreeTooLow)
      else Success(IntegralVariant(DecimalValue(Digits(v))))
  {
  }

  /** Every facet has m nodes: m facet polynomials for the integral variant, m points on each facet otherwise. */
  predicate UniformFacets(variant: Variant, facetPolys: nat, facetPoints: seq<seq<Point>>, m: nat)
  {
    if variant.IntegralVariant? then facetPolys == m
    else forall f :: 0 <= f < |facetPoints| ==> |facetPoints[f]| == m
  }

  /** The quadrature degree of the interior moments: the variant's own, or 2 (degree + 1) for point evaluation. */
  function InteriorQuadDegree(variant: Variant, degree: int): int
  {
    if variant.IntegralVariant? then variant.quadDegree else 2 * (degree + 1)
  }

  /**
   * The BDM dual basis. Integral variant with quadrature degree q: facetPolys scaled-normal
   * moments on every facet, facet by facet. Point variant: one scaled-normal evaluation per
   * point of facetPoints[f] (the points make_points gives on facet f), facet by facet.
   * For degree > 1 both add the Frobenius moments against the numNedelec members of the
   * degree - 1 Nedelec basis, with quadrature degree q (integral) or 2 (degree + 1) (point).
   */
  function BDMNodes(variant: Variant, nf: nat, degree: int, facetPolys: nat,
                    facetPoints: seq<seq<Point>>, numNedelec: nat): seq<Functional>
  {
    (match variant
     case IntegralVariant(q) => MomentGrid(FacetNormal, nf, facetPolys, q)
     case PointVariant => FacetPointNormals(facetPoints))
    + (if degree > 1 then Frobenii(numNedelec, InteriorQuadDegree(variant, degree)) else [])
  }

  /**
   * Node counts: nf * facetPolys (integral) or nf * m with m points on each facet (point),
   * plus numNedelec interior moments when degree > 1.
   */
  lemma {:induction false} BDMNodesLength(variant: Variant, nf: nat, degree: int, facetPolys: nat,
                       facetPoints: seq<seq<Point>>, numNedelec: nat, m: nat)
    requires |facetPoints| == nf
    requires UniformFacets(variant, facetPolys, facetPoints, m)
    ensures |BDMNodes(variant, nf, degree, facetPolys, facetPoints, numNedelec)| ==
      nf * m + (if degree > 1 then numNedelec else 0)
  {
    match variant
    case IntegralVariant(q) =>
      MomentGridLength(FacetNormal, nf, facetPolys, q);
    case PointVariant =>
      FacetPointNormalsUniformLength(facetPoints, m);
  }

  /** In the point variant, point j of facet f is evaluated by node f * m + j. */
  lemma {:induction false} BDMPointNodeAt(nf: nat, degree: int, facetPoints: seq<seq<Point>>, numNedelec: nat, m: nat, f: nat, j: nat)
    requires |facetPoints| == nf && forall g :: 0 <= g < nf ==> |facetPoints[g]| == m
    requires f < nf && j < m
    ensures f * m + j < |BDMNodes(PointVariant, nf, degree, 0, facetPoints, numNedelec)|
    ensures BDMNodes(PointVariant, nf, degree, 0, facetPoints, numNedelec)[f * m + j] ==
      PointScaledNormalEvaluation(f, facetPoints[f][j])
  {
    FacetPointNormalsAt(facetPoints, m, f, j);
  }

  /** In the integral variant, member i on facet f is node f * facetPolys + i. */
  lemma {:induction false} BDMIntegralNodeAt(q: int, nf: nat, degree: int, facetPolys: nat, facetPoints: seq<seq<Point>>,
                          numNedelec: nat, f: nat, i: nat)
    requires f < nf && i < facetPolys
    ensures f * facetPolys + i < |BDMNodes(IntegralVariant(q), nf, degree, facetPolys, facetPoints, numNedelec)|
    ensures BDMNodes(IntegralVariant(q), nf, degree, facetPolys, facetPoints, numNedelec)[f * facetPolys + i] ==
      ScaledNormalMoment(f, i, q)
  {
    MomentGridAt(FacetNormal, nf, facetPolys, q, f, i);
  }

  /** For degree > 1 the Frobenius moments follow all facet nodes, in Nedelec member order. */
  lemma {:induction false} BDMInteriorNodeAt(variant: Variant, nf: nat, degree: int, facetPolys: nat,
                          facetPoints: seq<seq<Point>>, numNedelec: nat, i: nat)
    requires degree > 1 && i < numNedelec
    ensures var nodes := BDMNodes(variant, nf, degree, facetPolys, facetPoints, numNedelec);
      && numNedelec <= |nodes|
      && nodes[|nodes| - numNedelec + i] == FrobeniusIntegralMoment(i, InteriorQuadDegree(variant, degree))
  {
    var facet := match variant
      case IntegralVariant(q) => MomentGrid(FacetNormal, nf, facetPolys, q)
      case PointVariant => FacetPointNormals(facetPoints);
    var interior := Frobenii(numNedelec, InteriorQuadDegree(variant, degree));
    assert BDMNodes(variant, nf, degree, facetPolys, facetPoints, numNedelec) == facet + interior;
    assert (facet + interior)[|facet| + i] == interior[i];
  }


  /** The node loops of BDMDualSet for either variant. */
  method BDMNodeLoops(cell: ReferenceCell, degree: int, variant: Variant, facetPolys: nat,
                      facetPoints: seq<seq<Point>>, numNedelec: nat) returns (nodes: seq<Functional>)
    requires cell.Valid()
    ensures nodes == BDMNodes(variant, cell.NumFacets(), degree, facetPolys, facetPoints, numNedelec)
  {
    match variant {
      case IntegralVariant(q) =>
        nodes := AppendMoments([], FacetNormal, cell.NumFacets(), facetPolys, q);
        if degree > 1 {
          nodes := AppendFrobenii(nodes, numNedelec, q);
        }
      case PointVariant =>
        nodes := AppendPointNormals([], facetPoints);
        if degree > 1 {
          nodes := AppendFrobenii(nodes, numNedelec, 2 * (degree + 1));
        }
    }
  }

  /** The entity_ids loops of BDMDualSet: pts_per_facet dofs per facet, numNedelec on the cell. */
  method BDMEntityIds(cell: ReferenceCell, degree: int, ptsPerFacet: nat, numNedelec: nat)
    returns (entityIds: EntityDofs)
    requires cell.Valid()
    ensures entityIds == FacetEntityIds(cell.topology, ptsPerFacet, if degree > 1 then numNedelec else 0)
  {
    var cur;
    entityIds, cur := BuildFacetEntityIds(cell.topology, ptsPerFacet);
    entityIds := AddCellEntry(entityIds, cell.topology, ptsPerFacet, cur, degree > 1, numNedelec);
  }

  /**
   * BDMDualSet(ref_el, degree, variant, quad_deg). facetPoints[f] are the points make_points
   * gives on facet f (the first of them fixes pts_per_facet for the entity ids); facetPolys is the
   * dimension of the degree-`degree` set on the facet; numNedelec is the size of the degree - 1
   * Nedelec basis.
   */
  method BDMDualSet(cell: ReferenceCell, degree: int, variant: Variant, facetPolys: nat,
                    facetPoints: seq<seq<Point>>, numNedelec: nat)
    returns (nodes: seq<Functional>, entityIds: EntityDofs)
    requires cell.Valid() && cell.NumFacets() >= 1 && |facetPoints| == cell.NumFacets()
    ensures nodes == BDMNodes(variant, cell.NumFacets(), degree, facetPolys, facetPoints, numNedelec)
    ensures entityIds == FacetEntityIds(cell.topology, |facetPoints[0]|, if degree > 1 then numNedelec else 0)
    ensures UniformFacets(variant, facetPolys, facetPoints, |facetPoints[0]|) ==> Partitions(entityIds, |nodes|)
  {
    nodes := BDMNodeLoops(cell, degree, variant, facetPolys, facetPoints, numNedelec);
    var ptsPerFacet := |facetPoints[0]|;
    entityIds := BDMEntityIds(cell, degree, ptsPerFacet, numNedelec);
    if UniformFacets(variant, facetPolys, facetPoints, ptsPerFacet) {
      BDMEntityIdsPartition(cell, degree, variant, facetPolys, facetPoints, numNedelec, ptsPerFacet);
    }
  }

  /** With uniform facet counts the entity ids partition the nodes of either variant. */
  lemma {:induction false} BDMEntityIdsPartition(cell: ReferenceCell, degree: int, variant: Variant, facetPolys: nat,
                              facetPoints: seq<seq<Point>>, numNedelec: nat, m: nat)
    requires cell.Valid() && |facetPoints| == cell.NumFacets()
    requires UniformFacets(variant, facetPolys, facetPoints, m)
    ensures Partitions(FacetEntityIds(cell.topology, m, if degree > 1 then numNedelec else 0),
                       |BDMNodes(variant, cell.NumFacets(), degree, facetPolys, facetPoints, numNedelec)|)
  {
    FacetEntityIdsPartition(cell.topology, m, if degree > 1 then numNedelec else 0);
    BDMNodesLength(variant, cell.NumFacets(), degree, facetPolys, facetPoints, numNedelec, m);
  }

  /**
   * The validation steps of BrezziDouglasMarini(ref_el, degree, variant), in the order the
   * constructor runs them, reassigning variant and quad_deg as it goes.
   */
  method CheckVariant(variant: Option<string>, degree: int) returns (r: Result<Variant, BDMError>)
    ensures r == ParseVariant(variant, degree)
  {
    var v: string;
    if variant.None? {
      v := "point";
    } else {
      v := variant.value;
    }
    if !(v == "point" || Contains(v, "integral")) {
      return Failure(UnknownVariant);
    }
    var quadDeg: Option<int>;
    if v == "integral" {
      quadDeg := Some(5 * (degree + 1));
    } else if Contains(v, "integral") {
      var ds := Digits(v);
      if ds == [] {
        return Failure(WrongFormat);
      }
      var q := DecimalValue(ds);
      if q < degree + 1 {
        return Failure(QuadratureTooLow(degree + 1));
      }
      quadDeg := Some(q);
      v := "integral";
    } else {
      quadDeg := None;
    }
    if degree < 1 {
      return Failure(DegreeTooLow);
    }
    r := if quadDeg.Some? then Success(IntegralVariant(quadDeg.value)) else Success(PointVariant);
  }

  /**
   * The element record BrezziDouglasMarini builds from its space and dual set: the vector
   * degree-`degree` space on the cell, an (sd-1)-form with the contravariant Piola mapping.
   */
  function ContravariantElement(cell: ReferenceCell, degree: int, nodes: seq<Functional>, ids: EntityDofs): CiarletElement
    requires cell.Valid()
  {
    var sd := |cell.topology| - 1;
    CiarletElement(cell, ONPolynomialSet(degree, [sd]), nodes, ids, degree, sd - 1, Some("contravariant piola"))
  }

  /**
   * BrezziDouglasMarini(ref_el, degree, variant): validates (degree, variant), then builds the
   * space, the dual set and the element.
   */
  method NewElement(cell: ReferenceCell, degree: int, variant: Option<string>, facetPolys: nat,
                    facetPoints: seq<seq<Point>>, numNedelec: nat)
    returns (r: Result<CiarletElement, BDMError>)
    requires cell.Valid() && cell.NumFacets() >= 1 && |facetPoints| == cell.NumFacets()
    ensures r.Failure? <==> ParseVariant(variant, degree).Failure?
    ensures r.Failure? ==> r.error == ParseVariant(variant, degree).error
    ensures r.Success? ==>
      r.value == ContravariantElement(
        cell, degree,
        BDMNodes(ParseVariant(variant, degree).value, cell.NumFacets(), degree, facetPolys, facetPoints, numNedelec),
        FacetEntityIds(cell.topology, |facetPoints[0]|, if degree > 1 then numNedelec else 0))
  {
    var parsed := CheckVariant(variant, degree);
    if parsed.Failure? {
      return Failure(parsed.error);
    }
    var nodes, ids := BDMDualSet(cell, degree, parsed.value, facetPolys, facetPoints, numNedelec);
    r := Success(ContravariantElement(cell, degree, nodes, ids));
  }
}
