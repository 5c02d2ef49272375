/**
 * The quadratic serendipity element S2 on the reference quadrilateral: its fixed entity
 * table, its empty dual basis, its degree and value shape, and the layout of its tabulation
 * (which derivative orders are keys, and the 8 x |points| table stored under each).
 */
module Serendipity {
  import opened Wrappers
  import opened Dofs
  import opened Elements

  /** The UFC reference quadrilateral [0, 1]^2: 4 vertices, 4 edges, 1 cell. */
  const UFCQuadrilateral := ReferenceCell(Quadrilateral, [4, 4, 1], [[0.0, 0.0], [0.0, 1.0], [1.0, 0.0], [1.0, 1.0]])

  /** The S2 entity table: vertex v owns dof v, edge e owns dof 4 + e, the cell owns nothing. */
  function S2EntityIds(): (r: EntityDofs)
    ensures r.Keys == {0, 1, 2} && r[0].Keys == {0, 1, 2, 3} && r[1].Keys == {0, 1, 2, 3} && r[2].Keys == {0}
    ensures forall v :: v in r[0] ==> r[0][v] == [v as int]
    ensures forall e :: e in r[1] ==> r[1][e] == [4 + e as int]
    ensures r[2][0] == []
  {
    map[0 := map[0 := [0], 1 := [1], 2 := [2], 3 := [3]],
        1 := map[0 := [4], 1 := [5], 2 := [6], 3 := [7]],
        2 := map[0 := []]]
  }

  /** The S2 entity table partitions {0, ..., 7}. */
  lemma {:induction false} S2EntityIdsPartition()
    ensures Partitions(S2EntityIds(), 8)
  {
    var m := S2EntityIds();
    forall dim: nat, ent: nat, x | Has(m, dim, ent) && x in m[dim][ent]
      ensures (dim == 0 && ent < 4 && x == ent) || (dim == 1 && ent < 4 && x == ent + 4)
    {
    }
    forall x | 0 <= x < 8
      ensures Covered(m, x)
    {
      if x < 4 {
        var v: nat := x;
        assert Has(m, 0, v) && x in m[0][v];
      } else {
        var e: nat := x - 4;
        assert Has(m, 1, e) && x in m[1][e];
      }
    }
  }

  /** What S2(ref_el, degree) holds: its cell, the degree it was given, its dual set and form degree. */
  datatype S2Element = S2Element(
    cell: ReferenceCell, givenDegree: int, nodes: seq<Functional>, entityIds: EntityDofs, formDegree: int)

  /**
   * S2(ref_el, degree): only the reference quadrilateral is accepted (None stands for the
   * failed assertion); the dual set has the fixed table and no nodes; it is a 0-form.
   */
  function NewS2(cell: ReferenceCell, degree: int): (r: Option<S2Element>)
    ensures r.Some? <==> cell == UFCQuadrilateral
    ensures r.Some? ==>
      (r.value.cell == cell && r.value.nodes == [] && r.value.entityIds == S2EntityIds()
       && r.value.formDegree == 0)
  {
    if cell != UFCQuadrilateral then None
    else Some(S2Element(cell, degree, [], S2EntityIds(), 0))
  }

  /** S2.degree(): 3, whatever degree the element was given. */
  function Degree(e: S2Element): int
  {
    3
  }

  /** S2.value_shape(): scalar. */
  function ValueShape(e: S2Element): seq<nat>
  {
    []
  }

  /**
   * Every S2 element reports degree 3 and scalar values, and its table names dofs 0 .. 7
   * although its node list is empty: no listed dof is the index of a node.
   */
  lemma {:induction false} S2Properties(cell: ReferenceCell, degree: int)
    requires NewS2(cell, degree).Some?
    ensures var e := NewS2(cell, degree).value;
      Degree(e) == 3 && ValueShape(e) == [] && Partitions(e.entityIds, 8)
      && e.nodes == []
  {
    S2EntityIdsPartition();
  }

  /** A derivative order: (x_order, y_order). */
  type Key = (nat, nat)

  /** The first k keys of diagonal d, in loop order: (d - y, y) for y = 0 .. k-1. */
  function DiagonalKeys(d: nat, k: nat): set<Key>
    requires k <= d + 1
  {
    if k == 0 then {} else DiagonalKeys(d, k - 1) + {(d - (k - 1), k - 1)}
  }

  lemma {:induction false} DiagonalKeysMembers(d: nat, k: nat)
    requires k <= d + 1
    ensures forall key: Key :: key in DiagonalKeys(d, k) <==> key.0 + key.1 == d && key.1 < k
    ensures |DiagonalKeys(d, k)| == k
  {
    if k > 0 {
      DiagonalKeysMembers(d, k - 1);
      assert (d - (k - 1), k - 1) !in DiagonalKeys(d, k - 1);
    }
  }

  /** The keys of diagonals 0 .. n-1, in loop order. */
  function DerivativeKeys(n: nat): set<Key>
  {
    if n == 0 then {} else DerivativeKeys(n - 1) + DiagonalKeys(n - 1, n)
  }

  /** The keys of diagonals 0 .. n-1 are exactly the derivative orders of total order below n. */
  lemma {:induction false} DerivativeKeysMembers(n: nat)
    ensures forall key: Key :: key in DerivativeKeys(n) <==> key.0 + key.1 < n
  {
    if n > 0 {
      DerivativeKeysMembers(n - 1);
      DiagonalKeysMembers(n - 1, n);
    }
  }

  /** Diagonal d adds d + 1 new keys, so there are n (n + 1) / 2 keys of total order below n. */
  lemma {:induction false} DerivativeKeysCount(n: nat)
    ensures |DerivativeKeys(n)| == n * (n + 1) / 2
  {
    DerivativeKeysTriangle(n);
    TriangleClosedForm(n);
  }

  /** 0 + 1 + ... + (n - 1) + n. */
  function Triangle(n: nat): nat
  {
    if n == 0 then 0 else Triangle(n - 1) + n
  }

  lemma {:induction false} TriangleClosedForm(n: nat)
    ensures Triangle(n) == n * (n + 1) / 2
  {
    if n > 0 {
      TriangleClosedForm(n - 1);
      assert n * (n + 1) == (n - 1) * n + 2 * n;
    }
  }

  /** Diagonal n - 1 adds n keys, none of them on an earlier diagonal. */
  lemma {:induction false} DerivativeKeysTriangle(n: nat)
    ensures |DerivativeKeys(n)| == Triangle(n)
  {
    if n > 0 {
      DerivativeKeysTriangle(n - 1);
      DiagonalNew(n - 1);
      DisjointUnionSize(DerivativeKeys(n - 1), DiagonalKeys(n - 1, n));
    }
  }

  /** Diagonal d has d + 1 keys, none on diagonals 0 .. d-1. */
  lemma {:induction false} DiagonalNew(d: nat)
    ensures DerivativeKeys(d) !! DiagonalKeys(d, d + 1)
    ensures |DiagonalKeys(d, d + 1)| == d + 1
  {
    DerivativeKeysMembers(d);
    DiagonalKeysMembers(d, d + 1);
  }

  lemma {:induction false} DisjointUnionSize<T>(a: set<T>, b: set<T>)
    requires a !! b
    ensures |a + b| == |a| + |b|
  {
    assert a * b == {};
  }

  /** rows is the table stored under key: row i holds basis function i, differentiated by key, at each point. */
  predicate IsKeyTable(rows: seq<seq<real>>, key: Key, cellPoints: seq<Point>, basis: (nat, nat, nat, Point) -> real)
  {
    && |rows| == 8
    && (forall i :: 0 <= i < 8 ==> |rows[i]| == |cellPoints|)
    && (forall i: nat, j :: i < 8 && 0 <= j < |cellPoints| ==> rows[i][j] == basis(key.0, key.1, i, cellPoints[j]))
  }

  /** Copy an 8 x n buffer into a table of rows. */
  method Snapshot(a: array2<real>) returns (rows: seq<seq<real>>)
    ensures |rows| == a.Length0
    ensures forall i :: 0 <= i < a.Length0 ==> |rows[i]| == a.Length1
    ensures forall i, j :: 0 <= i < a.Length0 && 0 <= j < a.Length1 ==> rows[i][j] == a[i, j]
  {
    rows := [];
    for i := 0 to a.Length0
      invariant |rows| == i
      invariant forall i' :: 0 <= i' < i ==> |rows[i']| == a.Length1
      invariant forall i', j :: 0 <= i' < i && 0 <= j < a.Length1 ==> rows[i'][j] == a[i', j]
    {
      var row := [];
      for j := 0 to a.Length1
        invariant |row| == j
        invariant forall j' :: 0 <= j' < j ==> row[j'] == a[i, j']
      {
        row := row + [a[i, j]];
      }
      rows := rows + [row];
    }
  }

  /**
   * result_cur for one key: an 8 x |cellPoints| buffer of zeros whose entry (i, j) is then set
   * to the key's derivative of basis function i at point j.
   */
  method FillTable(key: Key, cellPoints: seq<Point>, basis: (nat, nat, nat, Point) -> real)
    returns (rows: seq<seq<real>>)
    ensures IsKeyTable(rows, key, cellPoints, basis)
  {
    var cur := new real[8, |cellPoints|]((i, j) => 0.0);
    for i := 0 to 8
      invariant forall i', j :: 0 <= i' < i && 0 <= j < |cellPoints| ==> cur[i', j] == basis(key.0, key.1, i', cellPoints[j])
    {
      for j := 0 to |cellPoints|
        invariant forall i', j' :: 0 <= i' < i && 0 <= j' < |cellPoints| ==> cur[i', j'] == basis(key.0, key.1, i', cellPoints[j'])
        invariant forall j' :: 0 <= j' < j ==> cur[i, j'] == basis(key.0, key.1, i, cellPoints[j'])
      {
        cur[i, j] := basis(key.0, key.1, i, cellPoints[j]);
      }
    }
    rows := Snapshot(cur);
  }

  /**
   * S2.tabulate(order, points, entity): the points are mapped into the cell by the entity's
   * transform, where no entity means the cell itself, (spatial dimension, 0); then for every total order d = 0 .. order and y_order = 0 .. d, an 8 x |points|
   * buffer is filled with the derivative (d - y_order, y_order) of each of the 8 basis functions
   * at each point and stored under that key. `transform(dim, id, p)` stands for the entity
   * transform and `basis(xo, yo, i, p)` for the value of the (xo, yo) derivative of basis
   * function i at p.
   */
  method Tabulate(e: S2Element, order: nat, points: seq<Point>, entity: Option<(nat, nat)>,
                  transform: (nat, nat, Point) -> Point, basis: (nat, nat, nat, Point) -> real)
    returns (result: map<Key, seq<seq<real>>>)
    requires e.cell.Valid()
    ensures result.Keys == DerivativeKeys(order + 1)
    ensures forall key :: key in result ==> |result[key]| == 8 && forall i :: 0 <= i < 8 ==> |result[key][i]| == |points|
    ensures entity.Some? ==> forall key, i, j :: key in result && 0 <= i < 8 && 0 <= j < |points| ==>
      result[key][i][j] == basis(key.0, key.1, i, transform(entity.value.0, entity.value.1, points[j]))
    ensures entity.None? ==> forall key, i, j :: key in result && 0 <= i < 8 && 0 <= j < |points| ==>
      result[key][i][j] == basis(key.0, key.1, i, transform(e.cell.SpatialDimension() as nat, 0, points[j]))
  {
    var ent := if entity.None? then (e.cell.SpatialDimension() as nat, 0) else entity.value;
    var cellPoints := seq(|points|, j requires 0 <= j < |points| => transform(ent.0, ent.1, points[j]));
    result := TabulateKeys(order, cellPoints, basis);
    forall key, i, j | key in result && 0 <= i < 8 && 0 <= j < |points|
      ensures result[key][i][j] == basis(key.0, key.1, i, transform(ent.0, ent.1, points[j]))
    {
      assert IsKeyTable(result[key], key, cellPoints, basis);
      assert cellPoints[j] == transform(ent.0, ent.1, points[j]);
    }
  }

  /** The loops over (diff_order, y_order) of S2.tabulate, storing one table per key. */
  method TabulateKeys(order: nat, cellPoints: seq<Point>, basis: (nat, nat, nat, Point) -> real)
    returns (result: map<Key, seq<seq<real>>>)
    ensures result.Keys == DerivativeKeys(order + 1)
    ensures forall key :: key in result ==> IsKeyTable(result[key], key, cellPoints, basis)
  {
    result := map[];
    for diff: nat := 0 to order + 1
      invariant result.Keys == DerivativeKeys(diff)
      invariant forall key :: key in result ==> IsKeyTable(result[key], key, cellPoints, basis)
    {
      result := TabulateDiagonal(result, diff, cellPoints, basis);
    }
  }

  /** The inner loop for one diff_order d: the keys (d - y_order, y_order) for y_order = 0 .. d. */
  method TabulateDiagonal(result0: map<Key, seq<seq<real>>>, diff: nat, cellPoints: seq<Point>,
                          basis: (nat, nat, nat, Point) -> real)
    returns (result: map<Key, seq<seq<real>>>)
    requires result0.Keys == DerivativeKeys(diff)
    requires forall key :: key in result0 ==> IsKeyTable(result0[key], key, cellPoints, basis)
    ensures result.Keys == DerivativeKeys(diff + 1)
    ensures forall key :: key in result ==> IsKeyTable(result[key], key, cellPoints, basis)
  {
    result := result0;
    for yOrder: nat := 0 to diff + 1
      invariant result.Keys == result0.Keys + DiagonalKeys(diff, yOrder)
      invariant forall key :: key in result ==> IsKeyTable(result[key], key, cellPoints, basis)
    {
      var xOrder: nat := diff - yOrder;
      result := StoreTable(result, (xOrder, yOrder), cellPoints, basis);
      DiagonalKeysStep(result0.Keys, diff, yOrder, (xOrder, yOrder));
    }
    DerivativeKeysStep(diff);
  }

  lemma {:induction false} DerivativeKeysStep(n: nat)
    ensures DerivativeKeys(n + 1) == DerivativeKeys(n) + DiagonalKeys(n, n + 1)
  {
  }

  /** Storing key (d - k, k) extends the first k keys of diagonal d by one. */
  lemma {:induction false} DiagonalKeysStep(prev: set<Key>, d: nat, k: nat, key: Key)
    requires k <= d && key == (d - k, k)
    ensures prev + DiagonalKeys(d, k) + {key} == prev + DiagonalKeys(d, k + 1)
  {
  }

  /** result[(x_order, y_order)] = result_cur, with result_cur filled for that key. */
  method StoreTable(result0: map<Key, seq<seq<real>>>, key: Key, cellPoints: seq<Point>,
                    basis: (nat, nat, nat, Point) -> real)
    returns (result: map<Key, seq<seq<real>>>)
    requires forall k :: k in result0 ==> IsKeyTable(result0[k], k, cellPoints, basis)
    ensures result.Keys == result0.Keys + {key}
    ensures forall k :: k in result ==> IsKeyTable(result[k], k, cellPoints, basis)
  {
    var rows := FillTable(key, cellPoints, basis);
    result := result0[key := rows];
  }

  /** Tabulating up to order n yields (n + 1)(n + 2) / 2 tables. */
  lemma {:induction false} TabulateKeyCount(order: nat)
    ensures |DerivativeKeys(order + 1)| == (order + 1) * (order + 2) / 2
    ensures forall key: Key :: key in DerivativeKeys(order + 1) <==> key.0 + key.1 <= order
  {
    DerivativeKeysCount(order + 1);
    DerivativeKeysMembers(order + 1);
  }
}
