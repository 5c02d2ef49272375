# FIAT element bookkeeping in Dafny

This project models the discrete core of several FIAT finite elements. It covers how each
element orders its dual basis (its nodes, the degrees of freedom as functionals), how it
assigns dof numbers to the entities of the reference cell, and how a mixed element
assembles sub-elements into one. Functionals are an abstract tagged datatype
(`Elements.Functional`): a point evaluation, a point derivative, an integral moment, a
scaled-normal moment, a scaled-normal point evaluation or a Frobenius moment. So the model
checks order, counts and numbering, not numerical values.

Modules, one per file:

- `Wrappers`: `Option` and `Result`.
- `Sequences`: sums, running offsets (`numpy.cumsum` with a leading 0) and concatenation.
- `Strings`: the substring test, the digit filter and `int()` of a digit string, which the
  Brezzi-Douglas-Marini variant parsing relies on.
- `Dofs`: entity-dof maps (`dim -> entity -> dof list`), ranges and shifts, and the
  `Partitions` predicate (every dof `0 .. n-1` on exactly one entity, no repeats). It also
  holds the facet-based entity table that Raviart-Thomas and BDM both build with a running
  `cur` counter.
- `Elements`: reference cells (shape, entity counts per dimension and vertex coordinates), functionals,
  polynomial spaces, and the element records a constructor produces.
- `NodeLists`: the nested loops that append moment and point functionals.
- `RaviartThomas`, `BrezziDouglasMarini`, `HighOrderHermite`, `Serendipity`: one per element
  family.
- `Mixed`: `MixedElement` construction and its pure queries.
- `MixedEntityDofs`: the entity-dof merge loop.
- `MixedTabulate`: the block splatting of `tabulate`.

Where the source works step by step, the model is imperative and each method is proved
against a specification function:

- appending to node lists;
- filling `entity_ids` with a running counter;
- merging entity dofs with `+=`;
- writing tables into zero arrays;
- the serendipity `tabulate` loops, over an `array2`.

Lemmas then prove what the source promises about those functions. Every `Partitions` result
is such a lemma, and so are the block and zero facts of mixed tabulation.

Quantities computed by code outside these files are parameters of the model:
`make_points`, `polynomial_dimension`, the Nedelec dimension, the facet polynomial count and
the sub-element tabulations.

## Model

| member | source | states |
|---|---|---|
| Sequences.Offsets | FIAT/mixed.py:51-52 | offsets has one more entry than its input, starts at 0, steps by each entry, and ends at the total |
| Sequences.OffsetsMonotone | FIAT/mixed.py:85-86 | running offsets never decrease |
| Sequences.ConcatLength | FIAT/mixed.py:48 | a flattened list of lists is as long as the sum of the lengths |
| Sequences.ConcatAt | FIAT/mixed.py:48 | item k of list i sits at the offset of list i plus k in the flattened list |
| Mixed.SharedCell | FIAT/mixed.py:47 | the one-cell unpacking succeeds iff there is exactly one distinct cell, i.e. the list is non-empty and every sub-element's cell equals the first one's; the result is that cell |
| Mixed.SharedCellOfNone | FIAT/mixed.py:47 | an empty element list does not yield a reference cell |
| Mixed.SharedCellNeedsSameVertices | FIAT/mixed.py:47 | two sub-elements on cells of one shape and entity counts but different vertices give two distinct cells, so the one-cell unpacking fails |
| Mixed.NewMixed | FIAT/mixed.py:44-60 | the constructor fails iff the list is empty or some cell differs from the first; otherwise it holds the shared cell, the sub-elements, the concatenated nodes, the offsets and the merged entity dofs |
| Mixed.MixedNodesLength | FIAT/mixed.py:48 | the mixed node count is the sum of the sub-node counts, and equals the last offset when each sub-element's dimension is its node count |
| Mixed.MixedNodesAt | FIAT/mixed.py:48 | node k of sub-element i is mixed node offsets[i] + k |
| Mixed.MixedOffsets | FIAT/mixed.py:51-52 | offsets[0] = 0, offsets[i+1] = offsets[i] + space dimension of element i, and the last offset is the total dimension |
| Mixed.MixedEntityDofsAt | FIAT/mixed.py:53-56 | the merged list of each (dim, entity) is the in-order concatenation of the sub-elements' lists shifted by their offsets, and it is present iff some sub-element has that entity |
| Mixed.MixedEntityDofsPartition | FIAT/mixed.py:51-56 | if each sub-element's entity dofs partition its own dofs, the merged entity dofs partition all mixed dofs |
| Mixed.ProdOfSmallShapes | FIAT/mixed.py:69 | a scalar shape () has one component and a vector shape (n,) has n |
| Mixed.ValueShapeOfScalars | FIAT/mixed.py:68-69 | mixing n scalar elements gives value shape (n,) |
| Mixed.ValueShapeIsLastComponentOffset | FIAT/mixed.py:68-69 | the value shape is a 1-tuple equal to the last column offset that tabulation uses |
| Mixed.MappingAt | FIAT/mixed.py:71-72 | mapping() has the total number of sub-mappings, and mapping k of sub-element i sits after all mappings of the earlier sub-elements |
| Mixed.NumSubElementsOfNew | FIAT/mixed.py:65-66 | a constructed mixed element keeps its sub-elements in order, and num_sub_elements is their count |
| MixedEntityDofs.MergeEntityDofs | FIAT/mixed.py:53-56 | the nested loops leave exactly the merged map of all sub-elements' shifted lists |
| MixedEntityDofs.AccumulateShifted | FIAT/mixed.py:54-56 | one sub-element's pass over dims and entities appends its shifted lists to the accumulated map, whatever order the dict yields |
| MixedEntityDofs.AddShiftedAt | FIAT/mixed.py:56 | after one sub-element, an entity is present iff it was present before or in the sub-element, and its list is the old list followed by the shifted new one |
| MixedEntityDofs.MergedDofsAt | FIAT/mixed.py:53-56 | the merged list of an entity is the concatenation of the shifted sub-lists, in sub-element order |
| MixedEntityDofs.MergedDofsHas | FIAT/mixed.py:53-56 | an entity is in the merged map iff some sub-element lists it |
| MixedEntityDofs.AddShiftedPartition | FIAT/mixed.py:56 | appending a sub-map that partitions b dofs, shifted by a, to a map that partitions a dofs gives a partition of a + b dofs |
| MixedEntityDofs.MergedDofsPartition | FIAT/mixed.py:51-56 | merging with cumulative offsets sub-maps that each partition their own dimension partitions the total |
| MixedTabulate.Zeros | FIAT/mixed.py:95 | a fresh array has the requested shape and is zero everywhere |
| MixedTabulate.SplatEntry | FIAT/mixed.py:101 | the slice assignment writes the sub-table inside its block and keeps every other entry |
| MixedTabulate.SplatTables | FIAT/mixed.py:91-101 | the loop over one sub-element's keys gives each key a zero array on first sight and writes the block, whatever the key order |
| MixedTabulate.OutputHas | FIAT/mixed.py:88-96 | a multi-index is an output key iff some sub-element tabulated it |
| MixedTabulate.OutputShaped | FIAT/mixed.py:78-96 | every output array is shaped (space dimension, components, points) |
| MixedTabulate.OutputBlock | FIAT/mixed.py:82-101 | rows [irange[i], irange[i+1]) and columns [crange[i], crange[i+1]) of the array for d hold sub-element i's table for d |
| MixedTabulate.OutputOffBlock | FIAT/mixed.py:82-101 | every entry outside the blocks of the sub-elements that tabulated d stays 0 |
| MixedTabulate.TabulateTables | FIAT/mixed.py:82-103 | the loop over sub-elements, each splatting its keys, returns exactly the specified output |
| MixedTabulate.Tabulate | FIAT/mixed.py:78-103 | tabulate returns the specified output, each array shaped (number of mixed nodes, value shape, points) |
| Dofs.Range | FIAT/raviart_thomas.py:118 | list(range(lo, hi)) holds lo, lo+1, ... and is empty when hi <= lo |
| Dofs.RangeMembers | FIAT/raviart_thomas.py:118 | x is in range(lo, hi) iff lo <= x < hi |
| Dofs.Shift | FIAT/mixed.py:56 | adding an offset to each dof keeps the length and shifts every entry |
| Dofs.ShiftMembers | FIAT/mixed.py:56 | x is in the shifted list iff x - off is in the original |
| Dofs.LowerEntityIds | FIAT/raviart_thomas.py:106-109 | the first loop maps every entity of every dimension below sd - 1 to [] |
| Dofs.EmptyEntry | FIAT/raviart_thomas.py:106-108 | one pass of that loop: dimension i maps each of its entities to [], and the other dimensions are kept |
| Dofs.BuildFacetEntityIds | FIAT/raviart_thomas.py:106-119 | after the facet loop, facet i holds [i*p, i*p + p) and the counter is nf*p |
| Dofs.AddCellEntry | FIAT/raviart_thomas.py:122-126 | the cell entry holds the interior range starting at the counter when it applies, and [] otherwise |
| Dofs.FacetEntityIdsEntities | FIAT/raviart_thomas.py:106-126 | the table names exactly the lower entities (all with []), the facets (p dofs each) and the one cell (the interior count) |
| Dofs.FacetEntityIdsAt | FIAT/raviart_thomas.py:111-126 | every listed dof lies in its facet's block [f*p, f*p + p) or in the interior block after all facets |
| Dofs.FacetEntityIdsPartition | FIAT/raviart_thomas.py:105-126 | the table partitions dofs 0 .. nf*p + interior - 1: no repeats, all in range, each on one entity |
| NodeLists.AppendMoments | FIAT/raviart_thomas.py:81-103 | the nested loops append, row by row, every moment of each row in member order |
| NodeLists.MomentGridLength | FIAT/raviart_thomas.py:81-103 | rows times members moments are appended |
| NodeLists.MomentGridAt | FIAT/raviart_thomas.py:81-103 | member k of row r is appended at position r*count + k |
| NodeLists.AppendFrobenii | FIAT/brezzi_douglas_marini.py:44-47 | one Frobenius moment per Nedelec member is appended in member order |
| NodeLists.AppendPointNormals | FIAT/brezzi_douglas_marini.py:52-57 | one scaled-normal evaluation per point is appended, facet by facet, in point order |
| NodeLists.FacetPointNormalsLength | FIAT/brezzi_douglas_marini.py:52-57 | the point loop appends as many functionals as there are points on all facets |
| NodeLists.FacetPointNormalsAt | FIAT/brezzi_douglas_marini.py:52-57 | with m points per facet, point j of facet f is evaluated at position f*m + j |
| RaviartThomas.VecPkIndicesLength | FIAT/raviart_thomas.py:25-26 | the index list has sd*dimPk entries |
| RaviartThomas.VecPkIndicesAt | FIAT/raviart_thomas.py:25-26 | entry i*dimPk + j is i*dimPkp1 + j: run i of component i, in order |
| RaviartThomas.VecPkIndicesIncreasing | FIAT/raviart_thomas.py:25-26 | when dimPk <= dimPkp1 the indices lie in [0, sd*dimPkp1) and strictly increase |
| RaviartThomas.HomogeneousIndices | FIAT/raviart_thomas.py:30 | the homogeneous selection has dimPk - dimPkm1 members |
| RaviartThomas.HomogeneousIndicesInFirstRun | FIAT/raviart_thomas.py:25-30 | the homogeneous indices dimPkm1 .. dimPk-1 are the tail of the first component's run |
| RaviartThomas.RTNodeLoops | FIAT/raviart_thomas.py:81-103 | the loops build facet normal moments facet-major, then interior moments by component and polynomial only when degree > 0 |
| RaviartThomas.RTNodesLength | FIAT/raviart_thomas.py:81-103 | nf*facetPolys nodes, plus sd*dimPkm1 when degree > 0 |
| RaviartThomas.RTFacetNodeAt | FIAT/raviart_thomas.py:81-89 | node f*facetPolys + i is the moment of facet f against polynomial i, with quadrature degree degree + 1 |
| RaviartThomas.RTInteriorNodeAt | FIAT/raviart_thomas.py:92-103 | after the facet nodes, node d*dimPkm1 + i is the moment of component d against polynomial i |
| RaviartThomas.RTLowestOrderHasOnlyFacetNodes | FIAT/raviart_thomas.py:92 | at degree 0 every node is a facet moment |
| RaviartThomas.RTEntityIds | FIAT/raviart_thomas.py:105-126 | the entity table has [] below the facets, pts_per_facet consecutive dofs per facet, and sd*dimPkm1 interior dofs only when degree > 0 |
| RaviartThomas.RTEntityIdsPartition | FIAT/raviart_thomas.py:105-126 | when the facet polynomial count equals pts_per_facet, the entity table partitions the node numbers |
| RaviartThomas.RTDualSet | FIAT/raviart_thomas.py:68-128 | the dual set holds those nodes and that table, which partitions the nodes when the facet counts agree |
| RaviartThomas.NewElement | FIAT/raviart_thomas.py:134-141 | RaviartThomas(q) uses degree q - 1 for space and dual set, form degree sd - 1 and the contravariant Piola mapping |
| Strings.ContainsIffOccurrence | FIAT/brezzi_douglas_marini.py:110 | the substring test holds iff the substring occurs at some position |
| Strings.Digits | FIAT/brezzi_douglas_marini.py:119 | the filtered string has only digit characters and is no longer than the input |
| Strings.DigitsConcat | FIAT/brezzi_douglas_marini.py:119 | filtering digits distributes over concatenation, which keeps the digits in order |
| Strings.DecimalRoundTrip | FIAT/brezzi_douglas_marini.py:119 | int() of the decimal spelling of n is n |
| BrezziDouglasMarini.ParseVariant | FIAT/brezzi_douglas_marini.py:103-129 | success needs degree >= 1 and gives quad degree >= degree + 1 for integral; the point variant is chosen iff None or "point"; the unknown-variant and wrong-format errors occur exactly under their conditions |
| BrezziDouglasMarini.ParseDefaultIsPoint | FIAT/brezzi_douglas_marini.py:105-108 | None behaves as "point" |
| BrezziDouglasMarini.ParsePlainIntegral | FIAT/brezzi_douglas_marini.py:114-129 | exactly "integral" gives quadrature degree 5*(degree + 1) when degree >= 1, and the degree error when degree < 1 |
| BrezziDouglasMarini.ParseSpelledIntegral | FIAT/brezzi_douglas_marini.py:117-129 | "integral(q)" gives quadrature degree q when q >= degree + 1 and degree >= 1; a too-low q is reported even when the degree is also below 1, because the quadrature check comes first |
| BrezziDouglasMarini.CheckVariant | FIAT/brezzi_douglas_marini.py:105-129 | the branches of the constructor compute exactly ParseVariant |
| BrezziDouglasMarini.BDMNodeLoops | FIAT/brezzi_douglas_marini.py:23-71 | the loops build the variant's facet nodes facet-major, then one Frobenius moment per Nedelec member only when degree > 1 |
| BrezziDouglasMarini.BDMNodesLength | FIAT/brezzi_douglas_marini.py:23-71 | nf*m facet nodes, plus the Nedelec count when degree > 1 |
| BrezziDouglasMarini.BDMPointNodeAt | FIAT/brezzi_douglas_marini.py:49-57 | point variant: node f*m + j is the scaled-normal evaluation at point j of facet f |
| BrezziDouglasMarini.BDMIntegralNodeAt | FIAT/brezzi_douglas_marini.py:23-33 | integral variant: node f*facetPolys + i is the moment of facet f against polynomial i |
| BrezziDouglasMarini.BDMInteriorNodeAt | FIAT/brezzi_douglas_marini.py:36-71 | when degree > 1 the last numNedelec nodes are the Frobenius moments of the Nedelec members in order, with quadrature degree q for integral(q) and 2*(degree + 1) for point |
| BrezziDouglasMarini.BDMEntityIds | FIAT/brezzi_douglas_marini.py:73-95 | [] below the facets, pts_per_facet consecutive dofs per facet, and the Nedelec count on the cell only when degree > 1 |
| BrezziDouglasMarini.BDMEntityIdsPartition | FIAT/brezzi_douglas_marini.py:73-95 | when every facet has m nodes the entity table partitions the node numbers |
| BrezziDouglasMarini.BDMDualSet | FIAT/brezzi_douglas_marini.py:13-97 | the dual set holds those nodes and that table, a partition when the facet counts agree |
| BrezziDouglasMarini.NewElement | FIAT/brezzi_douglas_marini.py:103-136 | the constructor fails exactly when parsing fails, with the same error; otherwise it is the vector degree-k space, form degree sd - 1 and the contravariant Piola mapping |
| HighOrderHermite.HermiteEntityIds | FIAT/high_order_hermite.py:18-20 | vertex 0 has [0, 1], vertex 1 has [degree - 1, degree], and the edge has exactly 2 .. degree - 2 |
| HighOrderHermite.HermiteEntityIdsAt | FIAT/high_order_hermite.py:18-20 | each listed dof belongs to the vertex or edge range it was listed under |
| HighOrderHermite.HermiteEntityIdsPartition | FIAT/high_order_hermite.py:18-20 | for degree >= 3 the lists partition 0 .. degree |
| HighOrderHermite.HermiteEntityIdsOverlapAtDegreeTwo | FIAT/high_order_hermite.py:18-20 | at degree 2 dof 1 is listed on both vertices, so the table partitions only from degree 3 |
| HighOrderHermite.ListInsert | FIAT/high_order_hermite.py:24 | list.insert puts x at index i (clamped to the end) and keeps the rest in order |
| HighOrderHermite.PointEvaluations | FIAT/high_order_hermite.py:22 | one point evaluation per generated point, in order |
| HighOrderHermite.HermiteDualSet | FIAT/high_order_hermite.py:17-27 | the node list has two more nodes than points: the vertex-0 derivative at index 1 (index 0 when there are no points), the vertex-1 derivative last, the point evaluations in order elsewhere; the table is the literal one |
| HighOrderHermite.HermiteNodesMatchTable | FIAT/high_order_hermite.py:18-25 | with degree - 1 points the nodes number 0 .. degree, and every edge dof is a point evaluation at an interior point |
| HighOrderHermite.NewElement | FIAT/high_order_hermite.py:22-37 | the element uses the scalar degree-k space, form degree 0 and no mapping name; its nodes are the dual set above: the derivative at the cell's vertex 0 at index 1 (index 0 with no points), the derivative at vertex 1 last, the point evaluations in order elsewhere |
| Serendipity.S2EntityIds | FIAT/serendipity.py:34-43 | vertex v has [v], edge e has [4 + e], and the interior has [] |
| Serendipity.S2EntityIdsPartition | FIAT/serendipity.py:34-43 | the table partitions dofs 0 .. 7 |
| Serendipity.NewS2 | FIAT/serendipity.py:53-57 | construction succeeds iff the cell is the UFC quadrilateral, with no nodes, the table above and form degree 0 |
| Serendipity.S2Properties | FIAT/serendipity.py:45-65 | degree() is 3 and value_shape() is (); the table partitions 8 dofs while the dual basis is empty |
| Serendipity.DiagonalKeysMembers | FIAT/serendipity.py:101-102 | the first k keys of derivative order d are the pairs with sum d and y order below k |
| Serendipity.DerivativeKeysMembers | FIAT/serendipity.py:100-102 | the keys of orders below n are exactly the pairs with x + y < n |
| Serendipity.DerivativeKeysTriangle | FIAT/serendipity.py:100-102 | order d adds d + 1 new keys, disjoint from the lower orders, so the count is the triangular number |
| Serendipity.TriangleClosedForm | FIAT/serendipity.py:100-102 | the triangular number of n is n(n + 1)/2 |
| Serendipity.DerivativeKeysCount | FIAT/serendipity.py:100-102 | there are n(n + 1)/2 of them |
| Serendipity.Snapshot | FIAT/serendipity.py:103-108 | the stored table holds every entry of the filled array |
| Serendipity.FillTable | FIAT/serendipity.py:103-107 | the 8 x points array holds basis i's derivative at point j in entry (i, j) |
| Serendipity.StoreTable | FIAT/serendipity.py:108 | storing one key adds exactly that key and keeps every stored table correct |
| Serendipity.TabulateDiagonal | FIAT/serendipity.py:101-108 | one pass over y orders extends the keys from the orders below diff to those up to diff |
| Serendipity.TabulateKeys | FIAT/serendipity.py:100-108 | the loops store a correct table under every key of order up to order, and no other |
| Serendipity.Tabulate | FIAT/serendipity.py:67-110 | the result's keys are the pairs of order up to order; each array has 8 rows and one column per point, holding the basis derivative at the point transformed by the given entity, or by the cell itself, (spatial dimension, 0), when none is given |
| Serendipity.TabulateKeyCount | FIAT/serendipity.py:100-108 | there are (order + 1)(order + 2)/2 keys, exactly those with x + y <= order |

## Left out

- RaviartThomas.NewElement: the numerical `RTSpace` construction (FIAT/raviart_thomas.py:32-60) is not modelled. It uses quadrature, dot products and an SVD-based union. The space is the tag `RTSpace(degree)`, and only the index lists at lines 25-30 are modelled.
- Numerical values:
  - quadrature rules, polynomial tabulations and functional weights are not computed;
  - functionals carry their facet or component, their member index and their quadrature degree;
  - the facet polynomial count, `polynomial_dimension`, the Nedelec dimension and `make_points` are parameters.
- Serendipity.Tabulate:
  - the sympy basis functions and their derivatives are not modelled; a `basis` function parameter stands for them;
  - the entity transform is a parameter too.
- MixedTabulate.Tabulate:
  - each sub-element's tabulation is a parameter, taken already reshaped to (its dimension, its components, points);
  - numpy's `reshape` is not modelled;
  - the caller has to supply tables of that shape.
- Mutable state: numpy arrays, dicts and lists updated in place are modelled as values. The model does not capture aliasing between the dict and the arrays it holds. Serendipity's per-key array is an `array2` and is copied out.
- Dict iteration order is left open: the loops over `dict.items()` pick an arbitrary remaining key. The model proves the result is the same in every order.
- BrezziDouglasMarini.NewElement:
  - the `print` warning for a missing variant is I/O and is left out;
  - the `ValueError` and `Exception` raises become `Failure` results;
  - `str.isdigit` is modelled on ASCII digits only, not on other Unicode digits.
- Serendipity.NewS2: the failing `assert` on the cell is modelled as `None`, and reference cell equality is value equality of shape, entity counts and vertex coordinates.
- Mixed.NewMixed: sub-element cells are compared as values (shape, entity counts and vertex coordinates), so cells of one shape with different vertices are different cells and the constructor fails on them. Two separately built cells with equal values count as one cell, where FIAT counts them as one only if its own cell equality says so.
- Mixed.NewMixed: the space dimension of each sub-element is a field of the sub-element record. `finite_element.py` and `dual_set.py` are not part of this model, so the nodal-basis solve and `DualSet` internals are not modelled. The mixed properties that need it assume each sub-element's space dimension equals its node count.
- BrezziDouglasMarini.BDMDualSet: the facet-point lists are required to have one entry per facet, with at least one facet, because `pts_facet_0` uses facet 0's points.
- HighOrderHermite.HermiteDualSet: `make_points` gives the points and is a parameter, and `get_vertices` is the cell's vertex list, which needs at least two vertices.
