/**
 * Node lists built by the facet-based dual sets (Raviart-Thomas, Brezzi-Douglas-Marini):
 * loops that append one functional per (facet or component, family member), in that order.
 */
module NodeLists {
  import opened Sequences
  import opened Dofs
  import opened Elements

  /** Which moment a (row, member) pair stands for: a facet normal moment or a component moment. */
  datatype MomentFamily = FacetNormal | Component

  function Moment(family: MomentFamily, row: nat, k: nat, q: int): Functional
  {
    match family
    case FacetNormal => ScaledNormalMoment(row, k, q)
    case Component => IntegralMoment(row, k, q)
  }

  /** The moments of one row against members 0 .. count-1, in member order. */
  function MomentRow(family: MomentFamily, row: nat, count: nat, q: int): (r: seq<Functional>)
    ensures |r| == count
    ensures forall k :: 0 <= k < count ==> r[k] == Moment(family, row, k, q)
  {
    if count == 0 then [] else MomentRow(family, row, count - 1, q) + [Moment(family, row, count - 1, q)]
  }

  /** Rows 0 .. rows-1, each with its members 0 .. count-1: row-major order. */
  function MomentGrid(family: MomentFamily, rows: nat, count: nat, q: int): seq<Functional>
  {
    if rows == 0 then [] else MomentGrid(family, rows - 1, count, q) + MomentRow(family, rows - 1, count, q)
  }

  lemma {:induction false} MomentGridLength(family: MomentFamily, rows: nat, count: nat, q: int)
    ensures |MomentGrid(family, rows, count, q)| == rows * count
  {
    if rows > 0 {
      MomentGridLength(family, rows - 1, count, q);
      assert rows * count == (rows - 1) * count + count;
    }
  }

  /** Member k of row `row` sits at position row * count + k. */
  lemma {:induction false} MomentGridAt(family: MomentFamily, rows: nat, count: nat, q: int, row: nat, k: nat)
    requires row < rows && k < count
    ensures |MomentGrid(family, rows, count, q)| == rows * count
    ensures row * count + k < rows * count
    ensures MomentGrid(family, rows, count, q)[row * count + k] == Moment(family, row, k, q)
  {
    MomentGridLength(family, rows, count, q);
    MomentGridLength(family, rows - 1, count, q);
    assert rows * count == (rows - 1) * count + count;
    if row < rows - 1 {
      MulMonotone(row + 1, rows - 1, count);
      MomentGridAt(family, rows - 1, count, q, row, k);
    }
  }

  /**
   * The nested loop the dual sets run for one family: for each row, for each member,
   * append that moment to the node list.
   */
  method AppendMoments(nodes: seq<Functional>, family: MomentFamily, rows: nat, count: nat, q: int)
    returns (r: seq<Functional>)
    ensures r == nodes + MomentGrid(family, rows, count, q)
  {
    r := nodes;
    for row: nat := 0 to rows
      invariant r == nodes + MomentGrid(family, row, count, q)
    {
      r := AppendMomentRow(r, family, row, count, q);
      assert MomentGrid(family, row + 1, count, q) == MomentGrid(family, row, count, q) + MomentRow(family, row, count, q);
      AppendAssoc(nodes, MomentGrid(family, row, count, q), MomentRow(family, row, count, q));
    }
  }

  /** The inner loop: the moments of one row against members 0 .. count-1, appended in order. */
  method AppendMomentRow(nodes: seq<Functional>, family: MomentFamily, row: nat, count: nat, q: int)
    returns (r: seq<Functional>)
    ensures r == nodes + MomentRow(family, row, count, q)
  {
    r := nodes;
    for k: nat := 0 to count
      invariant r == nodes + MomentRow(family, row, k, q)
    {
      r := r + [Moment(family, row, k, q)];
    }
  }

  /** The loop over a vector family's members: one Frobenius moment each, appended in order. */
  method AppendFrobenii(nodes: seq<Functional>, count: nat, q: int) returns (r: seq<Functional>)
    ensures r == nodes + Frobenii(count, q)
  {
    r := nodes;
    for k: nat := 0 to count
      invariant r == nodes + Frobenii(k, q)
    {
      r := r + [FrobeniusIntegralMoment(k, q)];
    }
  }

  /** The loops over facets and their points: one scaled-normal evaluation per point. */
  method AppendPointNormals(nodes: seq<Functional>, pts: seq<seq<Point>>) returns (r: seq<Functional>)
    ensures r == nodes + FacetPointNormals(pts)
  {
    r := nodes;
    for f: nat := 0 to |pts|
      invariant r == nodes + FacetPointNormals(pts[..f])
    {
      assert pts[..f + 1][..f] == pts[..f];
      for j: nat := 0 to |pts[f]|
        invariant r == nodes + FacetPointNormals(pts[..f]) + PointRow(f, pts[f][..j])
      {
        assert pts[f][..j + 1][..j] == pts[f][..j];
        r := r + [PointScaledNormalEvaluation(f, pts[f][j])];
      }
      assert pts[f][..|pts[f]|] == pts[f];
    }
    assert pts[..|pts|] == pts;
  }

  /** Frobenius moments against members 0 .. count-1 of a vector family. */
  function Frobenii(count: nat, q: int): (r: seq<Functional>)
    ensures |r| == count
    ensures forall k :: 0 <= k < count ==> r[k] == FrobeniusIntegralMoment(k, q)
  {
    if count == 0 then [] else Frobenii(count - 1, q) + [FrobeniusIntegralMoment(count - 1, q)]
  }

  /** One scaled-normal point evaluation per point of one facet, in point order. */
  function PointRow(facet: nat, pts: seq<Point>): (r: seq<Functional>)
    ensures |r| == |pts|
    ensures forall j :: 0 <= j < |pts| ==> r[j] == PointScaledNormalEvaluation(facet, pts[j])
  {
    if pts == [] then [] else PointRow(facet, pts[..|pts| - 1]) + [PointScaledNormalEvaluation(facet, pts[|pts| - 1])]
  }

  /** The point rows of facets 0 .. |pts|-1, where pts[f] are the points made on facet f. */
  function FacetPointNormals(pts: seq<seq<Point>>): seq<Functional>
  {
    if pts == [] then [] else FacetPointNormals(pts[..|pts| - 1]) + PointRow(|pts| - 1, pts[|pts| - 1])
  }

  lemma {:induction false} FacetPointNormalsLength(pts: seq<seq<Point>>)
    ensures |FacetPointNormals(pts)| == Sum(Lengths(pts))
  {
    if pts != [] {
      var p := pts[..|pts| - 1];
      FacetPointNormalsLength(p);
      assert Lengths(pts)[..|pts| - 1] == Lengths(p);
    }
  }

  /** With m points on every facet, point j of facet f is evaluated at position f * m + j. */
  lemma {:induction false} FacetPointNormalsAt(pts: seq<seq<Point>>, m: nat, f: nat, j: nat)
    requires forall g :: 0 <= g < |pts| ==> |pts[g]| == m
    requires f < |pts| && j < m
    ensures |FacetPointNormals(pts)| == |pts| * m
    ensures f * m + j < |pts| * m
    ensures FacetPointNormals(pts)[f * m + j] == PointScaledNormalEvaluation(f, pts[f][j])
  {
    var n := |pts|;
    var p := pts[..n - 1];
    assert n * m == (n - 1) * m + m;
    if n - 1 > 0 {
      FacetPointNormalsUniformLength(p, m);
    }
    if f < n - 1 {
      MulMonotone(f + 1, n - 1, m);
      FacetPointNormalsAt(p, m, f, j);
    }
  }

  lemma {:induction false} FacetPointNormalsUniformLength(pts: seq<seq<Point>>, m: nat)
    requires forall g :: 0 <= g < |pts| ==> |pts[g]| == m
    ensures |FacetPointNormals(pts)| == |pts| * m
  {
    if pts != [] {
      var n := |pts|;
      FacetPointNormalsUniformLength(pts[..n - 1], m);
      assert n * m == (n - 1) * m + m;
    }
  }
}
