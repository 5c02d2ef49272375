/**
 * The high-order Hermite element on an interval: a literal entity table, a node list of
 * point evaluations with two first-derivative functionals spliced in, and the element.
 */
module HighOrderHermite {
  import opened Wrappers
  import opened Dofs
  import opened Elements

  /**
   * The entity table: vertex 0 owns dofs 0 and 1, vertex 1 owns dofs
   * degree - 1 and degree, and the edge interior owns 2 .. degree - 2.
   */
  function HermiteEntityIds(degree: int): (r: EntityDofs)
    ensures r.Keys == {0, 1} && r[0].Keys == {0, 1} && r[1].Keys == {0}
    ensures r[0][0] == [0, 1] && r[0][1] == [degree - 1, degree]
    ensures forall x :: x in r[1][0] <==> 2 <= x < degree - 1
  {
    var edge := Range(2, degree - 1);
    assert forall x :: x in edge <==> 2 <= x < degree - 1 by {
      forall x ensures x in edge <==> 2 <= x < degree - 1 {
        RangeMembers(2, degree - 1, x);
      }
    }
    map[0 := map[0 := [0, 1], 1 := [degree - 1, degree]], 1 := map[0 := edge]]
  }

  /** Where a listed dof lies. */
  lemma {:induction false} HermiteEntityIdsAt(degree: int, dim: nat, ent: nat, x: int)
    requires Has(HermiteEntityIds(degree), dim, ent) && x in HermiteEntityIds(degree)[dim][ent]
    ensures || (dim == 0 && ent == 0 && (x == 0 || x == 1))
            || (dim == 0 && ent == 1 && (x == degree - 1 || x == degree))
            || (dim == 1 && ent == 0 && 2 <= x < degree - 1)
  {
  }

  /** For degree >= 3 the table partitions {0, ..., degree}: one dof per node of the node list. */
  lemma {:induction false} HermiteEntityIdsPartition(degree: int)
    requires degree >= 3
    ensures Partitions(HermiteEntityIds(degree), degree + 1)
  {
    var m := HermiteEntityIds(degree);
    forall dim: nat, ent: nat | Has(m, dim, ent)
      ensures NoDup(m[dim][ent])
    {
      if dim == 1 {
        assert m[dim][ent] == Range(2, degree - 1);
      }
    }
    forall dim: nat, ent: nat, x | Has(m, dim, ent) && x in m[dim][ent]
      ensures 0 <= x < degree + 1
    {
      HermiteEntityIdsAt(degree, dim, ent, x);
    }
    forall x | 0 <= x < degree + 1
      ensures Covered(m, x)
    {
      if x <= 1 {
        assert Has(m, 0, 0) && x in m[0][0];
      } else if x >= degree - 1 {
        assert Has(m, 0, 1) && x in m[0][1];
      } else {
        assert Has(m, 1, 0) && x in m[1][0];
      }
    }
    forall dim1: nat, ent1: nat, dim2: nat, ent2: nat, x |
      Has(m, dim1, ent1) && Has(m, dim2, ent2) && x in m[dim1][ent1] && x in m[dim2][ent2]
      ensures dim1 == dim2 && ent1 == ent2
    {
      HermiteEntityIdsAt(degree, dim1, ent1, x);
      HermiteEntityIdsAt(degree, dim2, ent2, x);
    }
  }

  /** For degree 2 the two vertex lists share dof 1, so the table is not a partition there. */
  lemma {:induction false} HermiteEntityIdsOverlapAtDegreeTwo()
    ensures 1 in HermiteEntityIds(2)[0][0] && 1 in HermiteEntityIds(2)[0][1]
  {
  }

  /** Python's list.insert(i, x) for i >= 0: an index past the end appends. */
  function ListInsert<T>(s: seq<T>, i: nat, x: T): (r: seq<T>)
    ensures |r| == |s| + 1
    ensures var j := if i < |s| then i else |s|;
      r[j] == x && r[..j] == s[..j] && r[j + 1..] == s[j..]
  {
    var j := if i < |s| then i else |s|;
    s[..j] + [x] + s[j..]
  }

  /** One point evaluation per point, in point order. */
  function PointEvaluations(points: seq<Point>): (r: seq<Functional>)
    ensures |r| == |points|
    ensures forall k :: 0 <= k < |points| ==> r[k] == PointEvaluation(points[k])
  {
    seq(|points|, k requires 0 <= k < |points| => PointEvaluation(points[k]))
  }

  /** The d/dx functional at a vertex. */
  function VertexDerivative(v: Point): Functional
  {
    PointDerivative(v, [1])
  }

  /**
   * HighOrderHermiteDualSet: the point evaluations at `points` (the points make_points
   * generates), then the derivative at the cell's vertex 0 inserted at position 1 and the derivative at
   * vertex 1 appended.
   */
  method HermiteDualSet(cell: ReferenceCell, degree: int, points: seq<Point>)
    returns (nodes: seq<Functional>, entityIds: EntityDofs)
    requires |cell.vertices| >= 2
    ensures |nodes| == |points| + 2
    ensures nodes[if |points| == 0 then 0 else 1] == VertexDerivative(cell.vertices[0])
    ensures nodes[|nodes| - 1] == VertexDerivative(cell.vertices[1])
    ensures |points| >= 1 ==> nodes[..1] + nodes[2..|nodes| - 1] == PointEvaluations(points)
    ensures entityIds == HermiteEntityIds(degree)
  {
    entityIds := map[0 := map[0 := [0, 1], 1 := [degree - 1, degree]], 1 := map[0 := Range(2, degree - 1)]];
    nodes := PointEvaluations(points);
    nodes := ListInsert(nodes, 1, VertexDerivative(cell.vertices[0]));
    nodes := nodes + [VertexDerivative(cell.vertices[1])];
    if |points| >= 1 {
      var pe := PointEvaluations(points);
      assert nodes[..1] == pe[..1];
      assert nodes[2..|nodes| - 1] == pe[1..];
      assert pe[..1] + pe[1..] == pe;
    }
  }

  /**
   * With degree - 1 points (the interior lattice of the interval) every dof of the table
   * names a node: vertex 0 owns the first point evaluation and its derivative, vertex 1 the
   * last point evaluation and its derivative, and the edge the point evaluations between.
   */
  lemma {:induction false} HermiteNodesMatchTable(degree: int, points: seq<Point>, vertices: seq<Point>, nodes: seq<Functional>)
    requires degree >= 3 && |points| == degree - 1 && |vertices| >= 2
    requires |nodes| == |points| + 2
    requires nodes[1] == VertexDerivative(vertices[0]) && nodes[|nodes| - 1] == VertexDerivative(vertices[1])
    requires nodes[..1] + nodes[2..|nodes| - 1] == PointEvaluations(points)
    ensures |nodes| == degree + 1
    ensures nodes[0] == PointEvaluation(points[0])
    ensures nodes[degree - 1] == PointEvaluation(points[degree - 2])
    ensures forall x :: x in HermiteEntityIds(degree)[1][0] ==> 0 <= x - 1 < |points| && nodes[x] == PointEvaluation(points[x - 1])
  {
    var pe := PointEvaluations(points);
    assert pe[0] == (nodes[..1] + nodes[2..|nodes| - 1])[0];
    forall x | x in HermiteEntityIds(degree)[1][0]
      ensures 0 <= x - 1 < |points| && nodes[x] == PointEvaluation(points[x - 1])
    {
      assert pe[x - 1] == (nodes[..1] + nodes[2..|nodes| - 1])[x - 1];
    }
    assert pe[degree - 2] == (nodes[..1] + nodes[2..|nodes| - 1])[degree - 2];
  }

  /** HighOrderHermite(ref_el, degree): the scalar degree-`degree` space, a 0-form, no mapping given. */
  method NewElement(cell: ReferenceCell, degree: int, points: seq<Point>)
    returns (e: CiarletElement)
    requires |cell.vertices| >= 2
    ensures e.space == ONPolynomialSet(degree, []) && e.degree == degree && e.formDegree == 0
    ensures e.cell == cell && e.mapping == None
    ensures e.entityIds == HermiteEntityIds(degree) && |e.nodes| == |points| + 2
    ensures e.nodes[if |points| == 0 then 0 else 1] == VertexDerivative(cell.vertices[0])
    ensures e.nodes[|e.nodes| - 1] == VertexDerivative(cell.vertices[1])
    ensures |points| >= 1 ==> e.nodes[..1] + e.nodes[2..|e.nodes| - 1] == PointEvaluations(points)
  {
    var space := ONPolynomialSet(degree, []);
    var nodes, ids := HermiteDualSet(cell, degree, points);
    e := CiarletElement(cell, space, nodes, ids, degree, 0, None);
  }
}
