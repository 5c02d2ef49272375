/**
 * The mixed element: a tuple of sub-elements on one reference cell, with their dual bases
 * concatenated, their dofs renumbered by running offsets and merged per entity, a flat
 * value shape and the concatenated mappings.
 */
module Mixed {
  import opened Wrappers
  import opened Sequences
  import opened Dofs
  import opened Elements
  import opened MixedEntityDofs

  /** The distinct reference cells of the sub-elements. */
  function Cells(els: seq<FiniteElement>): set<ReferenceCell>
  {
    set e | e in els :: e.cell
  }

  /**
   * `ref_el, = set(...)`: the one reference cell of the sub-elements, or None when there
   * are none or more than one.
   */
  function SharedCell(els: seq<FiniteElement>): (r: Option<ReferenceCell>)
    ensures r.Some? <==> |Cells(els)| == 1
    ensures r.Some? <==> |els| > 0 && forall i :: 0 <= i < |els| ==> els[i].cell == els[0].cell
    ensures r.Some? ==> r.value == els[0].cell && Cells(els) == {r.value}
  {
    SharedCellCases(els);
    if |els| > 0 && Cells(els) == {els[0].cell} then Some(els[0].cell) else None
  }

  lemma {:induction false} SharedCellCases(els: seq<FiniteElement>)
    ensures |els| > 0 && Cells(els) == {els[0].cell} <==> |Cells(els)| == 1
    ensures |els| > 0 && Cells(els) == {els[0].cell} <==>
      |els| > 0 && forall i :: 0 <= i < |els| ==> els[i].cell == els[0].cell
  {
    var cs := Cells(els);
    if |els| > 0 {
      assert els[0] in els;
      assert els[0].cell in cs;
      if |cs| == 1 {
        var c :| c in cs;
        assert cs - {c} == {} by {
          assert |cs - {c}| == 0;
        }
        forall i | 0 <= i < |els|
          ensures els[i].cell == els[0].cell
        {
          assert els[i] in els;
          assert els[i].cell in cs;
        }
      }
      if forall i :: 0 <= i < |els| ==> els[i].cell == els[0].cell {
        forall c | c in cs
          ensures c == els[0].cell
        {
          var e :| e in els && e.cell == c;
          var i :| 0 <= i < |els| && els[i] == e;
        }
      }
    } else {
      assert cs == {};
    }
  }

  /** Mixing no sub-elements fails: there is no reference cell to share. */
  lemma {:induction false} SharedCellOfNone()
    ensures SharedCell([]) == None
  {
  }

  /**
   * Sub-elements on two cells of one shape and entity counts but different vertices (the
   * default and the UFC triangle, say) share no cell, so mixing them fails.
   */
  lemma {:induction false} SharedCellNeedsSameVertices(a: FiniteElement, b: FiniteElement)
    requires a.cell.shape == b.cell.shape && a.cell.topology == b.cell.topology
    requires a.cell.vertices != b.cell.vertices
    ensures SharedCell([a, b]) == None && MixedOf([a, b]) == None
  {
    assert [a, b][1].cell != [a, b][0].cell;
  }

  /** The dual bases of the sub-elements, in order. */
  function SubNodes(els: seq<FiniteElement>): (r: seq<seq<Functional>>)
    ensures |r| == |els| && forall i :: 0 <= i < |els| ==> r[i] == els[i].nodes
  {
    seq(|els|, i requires 0 <= i < |els| => els[i].nodes)
  }

  /** nodes = [L for e in elements for L in e.dual_basis()]. */
  function MixedNodes(els: seq<FiniteElement>): seq<Functional>
  {
    Concat(SubNodes(els))
  }

  /** The space dimensions of the sub-elements, in order. */
  function SubDimensions(els: seq<FiniteElement>): (r: seq<nat>)
    ensures |r| == |els| && forall i :: 0 <= i < |els| ==> r[i] == els[i].spaceDimension
  {
    seq(|els|, i requires 0 <= i < |els| => els[i].spaceDimension)
  }

  /** offsets = cumsum([0] + [e.space_dimension() for e in elements]). */
  function MixedOffsets(els: seq<FiniteElement>): (r: seq<nat>)
    ensures |r| == |els| + 1 && r[0] == 0 && r[|els|] == Sum(SubDimensions(els))
    ensures forall i :: 0 <= i < |els| ==> r[i + 1] == r[i] + els[i].spaceDimension
  {
    Offsets(SubDimensions(els))
  }

  /** The entity-dof maps of the sub-elements, in order. */
  function SubEntityDofs(els: seq<FiniteElement>): (r: seq<EntityDofs>)
    ensures |r| == |els| && forall i :: 0 <= i < |els| ==> r[i] == els[i].entityDofs
  {
    seq(|els|, i requires 0 <= i < |els| => els[i].entityDofs)
  }

  /** A sub-element is consistent when its space dimension is the length of its dual basis. */
  predicate Consistent(e: FiniteElement)
  {
    e.spaceDimension == |e.nodes|
  }

  /** What MixedElement(elements) holds after construction. */
  datatype MixedElement = MixedElement(
    cell: ReferenceCell,
    elements: seq<FiniteElement>,
    nodes: seq<Functional>,
    offsets: seq<nat>,
    entityDofs: EntityDofs)

  /** The mixed element of els, or None where the constructor fails. */
  function MixedOf(els: seq<FiniteElement>): Option<MixedElement>
  {
    match SharedCell(els)
    case None => None
    case Some(cell) =>
      Some(MixedElement(cell, els, MixedNodes(els), MixedOffsets(els),
                        MergedDofs(SubEntityDofs(els), MixedOffsets(els))))
  }

  /** MixedElement.__init__. */
  method NewMixed(els: seq<FiniteElement>) returns (r: Option<MixedElement>)
    ensures r == MixedOf(els)
    ensures r.None? <==> |els| == 0 || exists i :: 0 <= i < |els| && els[i].cell != els[0].cell
  {
    var cell := SharedCell(els);
    if cell.None? {
      return None;
    }
    var nodes := MixedNodes(els);
    var offsets := MixedOffsets(els);
    var entityDofs := MergeEntityDofs(SubEntityDofs(els), offsets);
    r := Some(MixedElement(cell.value, els, nodes, offsets, entityDofs));
  }

  /** The mixed dual basis is as long as the sub-bases together. */
  lemma {:induction false} MixedNodesLength(els: seq<FiniteElement>)
    ensures |MixedNodes(els)| == Sum(Lengths(SubNodes(els)))
    ensures (forall i :: 0 <= i < |els| ==> Consistent(els[i])) ==>
      |MixedNodes(els)| == MixedOffsets(els)[|els|]
  {
    ConcatLength(SubNodes(els));
    assert (forall i :: 0 <= i < |els| ==> Consistent(els[i])) ==> Lengths(SubNodes(els)) == SubDimensions(els);
  }

  /** Node k of sub-element i is node offsets[i] + k of the mixed basis. */
  lemma {:induction false} MixedNodesAt(els: seq<FiniteElement>, i: nat, k: nat)
    requires forall j :: 0 <= j < |els| ==> Consistent(els[j])
    requires i < |els| && k < |els[i].nodes|
    ensures MixedOffsets(els)[i] + k < |MixedNodes(els)|
    ensures MixedNodes(els)[MixedOffsets(els)[i] + k] == els[i].nodes[k]
  {
    SubNodesLengths(els);
    ConcatAt(SubNodes(els), i, k);
    assert MixedOffsets(els) == Offsets(Lengths(SubNodes(els)));
  }

  /** With consistent sub-elements, the sub-basis lengths are the space dimensions. */
  lemma {:induction false} SubNodesLengths(els: seq<FiniteElement>)
    requires forall j :: 0 <= j < |els| ==> Consistent(els[j])
    ensures Lengths(SubNodes(els)) == SubDimensions(els)
  {
  }

  /**
   * The merged list of (dim, ent) is the concatenation, over the sub-elements in order, of
   * their lists for (dim, ent) shifted by their offsets; present iff some sub-element has it.
   */
  lemma {:induction false} MixedEntityDofsAt(els: seq<FiniteElement>, dim: nat, ent: nat)
    ensures var m := MergedDofs(SubEntityDofs(els), MixedOffsets(els));
      && Get(m, dim, ent) == Concat(ShiftedLists(SubEntityDofs(els), MixedOffsets(els), dim, ent))
      && (Has(m, dim, ent) <==> exists i :: 0 <= i < |els| && Has(els[i].entityDofs, dim, ent))
  {
    MergedDofsAt(SubEntityDofs(els), MixedOffsets(els), dim, ent);
    MergedDofsHas(SubEntityDofs(els), MixedOffsets(els), dim, ent);
  }

  /**
   * If every sub-element's entity dofs partition its own dof numbers, the merged entity dofs
   * partition the mixed dof numbers, one per node of the mixed dual basis.
   */
  lemma {:induction false} MixedEntityDofsPartition(els: seq<FiniteElement>)
    requires forall i :: 0 <= i < |els| ==> Consistent(els[i]) && Partitions(els[i].entityDofs, |els[i].nodes|)
    ensures Partitions(MergedDofs(SubEntityDofs(els), MixedOffsets(els)), |MixedNodes(els)|)
  {
    MergedDofsPartition(SubEntityDofs(els), SubDimensions(els));
    MixedNodesLength(els);
  }

  /** numpy.prod of a shape, 1 for the empty shape (a scalar). */
  function Prod(shape: seq<nat>): nat
  {
    if shape == [] then 1 else Prod(shape[..|shape| - 1]) * shape[|shape| - 1]
  }

  /** The number of value components of each sub-element, in order. */
  function SubComponents(els: seq<FiniteElement>): (r: seq<nat>)
    ensures |r| == |els| && forall i :: 0 <= i < |els| ==> r[i] == Prod(els[i].valueShape)
  {
    seq(|els|, i requires 0 <= i < |els| => Prod(els[i].valueShape))
  }

  /** value_shape(): one axis holding all components of all sub-elements. */
  function ValueShape(m: MixedElement): seq<nat>
  {
    [Sum(SubComponents(m.elements))]
  }

  /** A scalar contributes one component and a vector of length n contributes n. */
  lemma {:induction false} ProdOfSmallShapes(n: nat)
    ensures Prod([]) == 1 && Prod([n]) == n
  {
    assert [n][..0] == [];
  }

  lemma {:induction false} SumOfOnes(s: seq<nat>)
    requires forall i :: 0 <= i < |s| ==> s[i] == 1
    ensures Sum(s) == |s|
  {
    if s != [] {
      SumOfOnes(s[..|s| - 1]);
    }
  }

  /** Mixing n scalar elements gives n components; in general the sum of the sub-products. */
  lemma {:induction false} ValueShapeOfScalars(m: MixedElement)
    requires forall i :: 0 <= i < |m.elements| ==> m.elements[i].valueShape == []
    ensures ValueShape(m) == [|m.elements|]
  {
    SumOfOnes(SubComponents(m.elements));
  }

  /** The value shape is the last of the component offsets the tabulation uses. */
  lemma {:induction false} ValueShapeIsLastComponentOffset(m: MixedElement)
    ensures |ValueShape(m)| == 1
    ensures ValueShape(m)[0] == Offsets(SubComponents(m.elements))[|m.elements|]
  {
  }

  /** The per-sub-element mapping lists, in order. */
  function SubMappings(els: seq<FiniteElement>): (r: seq<seq<string>>)
    ensures |r| == |els| && forall i :: 0 <= i < |els| ==> r[i] == els[i].mappings
  {
    seq(|els|, i requires 0 <= i < |els| => els[i].mappings)
  }

  /** mapping(): [m for e in elements for m in e.mapping()]. */
  function Mapping(m: MixedElement): seq<string>
  {
    Concat(SubMappings(m.elements))
  }

  /** Mapping k of sub-element i sits after all mappings of sub-elements 0 .. i-1. */
  lemma {:induction false} MappingAt(m: MixedElement, i: nat, k: nat)
    requires i < |m.elements| && k < |m.elements[i].mappings|
    ensures |Mapping(m)| == Sum(Lengths(SubMappings(m.elements)))
    ensures Offsets(Lengths(SubMappings(m.elements)))[i] + k < |Mapping(m)|
    ensures Mapping(m)[Offsets(Lengths(SubMappings(m.elements)))[i] + k] == m.elements[i].mappings[k]
  {
    ConcatAt(SubMappings(m.elements), i, k);
  }

  /** num_sub_elements(). */
  function NumSubElements(m: MixedElement): nat
  {
    |m.elements|
  }

  /** A constructed mixed element keeps all its sub-elements, in order. */
  lemma {:induction false} NumSubElementsOfNew(els: seq<FiniteElement>)
    requires MixedOf(els).Some?
    ensures NumSubElements(MixedOf(els).value) == |els| && MixedOf(els).value.elements == els
  {
  }
}
