/**
 * The vocabulary the element families share: reference cells, degrees of freedom
 * (functionals, as abstract tags: the model checks their order and counts, not their
 * numeric values) and the records an element constructor produces.
 */
module Elements {
  import opened Wrappers
  import opened Dofs

  /** A point of the reference cell, as coordinates. */
  type Point = seq<real>

  datatype CellShape = Interval | Triangle | Tetrahedron | Quadrilateral

  /**
   * A reference cell: its shape and topology[d], the number of entities of dimension d
   * (d = 0 .. spatial dimension), and the coordinates of its vertices, so that cells of one
   * shape with different vertices (the default and the UFC triangle) are different cells.
   * Two cells are the same cell when the values are equal.
   */
  datatype ReferenceCell = ReferenceCell(shape: CellShape, topology: seq<nat>, vertices: seq<Point>)
  {
    predicate Valid()
    {
      |topology| >= 2
    }

    function SpatialDimension(): int
    {
      |topology| - 1
    }

    /** The number of entities of codimension 1. */
    function NumFacets(): nat
      requires Valid()
    {
      topology[|topology| - 2]
    }
  }

  /**
   * One degree of freedom. Weights, quadrature points and normals are not modelled; each
   * moment records which member of its weight family it integrates against (k) and the
   * degree of the quadrature rule it was built with.
   */
  datatype Functional =
    | PointEvaluation(pt: Point)
    | PointDerivative(pt: Point, alpha: seq<nat>)
      /** IntegralMoment against member k of a scalar family, on vector component comp. */
    | IntegralMoment(comp: nat, k: nat, quadDegree: int)
      /** IntegralMomentOfScaledNormalEvaluation on facet `facet` against member k. */
    | ScaledNormalMoment(facet: nat, k: nat, quadDegree: int)
    | PointScaledNormalEvaluation(facet: nat, pt: Point)
      /** FrobeniusIntegralMoment against member k of a vector family. */
    | FrobeniusIntegralMoment(k: nat, quadDegree: int)

  /** The primal polynomial spaces the constructors pass on (their construction is not modelled). */
  datatype PolynomialSpace =
    | ONPolynomialSet(degree: int, shape: seq<nat>)
    | RTSpace(degree: int)

  /**
   * What a CiarletElement constructor is given: cell, primal space, dual basis with its
   * entity ids, degree, form degree and mapping (None: the constructor's default).
   */
  datatype CiarletElement = CiarletElement(
    cell: ReferenceCell,
    space: PolynomialSpace,
    nodes: seq<Functional>,
    entityIds: EntityDofs,
    degree: int,
    formDegree: int,
    mapping: Option<string>)

  /**
   * A finite element as a mixed element sees it: its reference cell, dual basis,
   * entity dofs, space dimension, value shape and per-dof mappings.
   */
  datatype FiniteElement = FiniteElement(
    cell: ReferenceCell,
    nodes: seq<Functional>,
    entityDofs: EntityDofs,
    spaceDimension: nat,
    valueShape: seq<nat>,
    mappings: seq<string>)
}
