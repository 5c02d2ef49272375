/**
 * The entity-dof merge of the mixed element: every sub-element's dof lists, shifted by the
 * sub-element's offset, appended to a defaultdict of defaultdicts of lists.
 */
module MixedEntityDofs {
  import opened Sequences
  import opened Dofs

  /** The dimensions of d that have at least one entity: the ones the merge loop touches. */
  function Populated(d: EntityDofs): set<nat>
  {
    set dim | dim in d && d[dim] != map[]
  }

  /** The entities of dimension dim in m, or none. */
  function EntsOf(m: EntityDofs, dim: nat): set<nat>
  {
    if dim in m then m[dim].Keys else {}
  }

  /**
   * acc after `acc[dim][ent] += list(map(partial(add, off), l))` for every (dim, ent, l) of d:
   * the defaultdicts gain the keys d touches, and each list gains d's list shifted by off.
   */
  function AddShifted(acc: EntityDofs, d: EntityDofs, off: int): EntityDofs
  {
    map dim | dim in acc.Keys + Populated(d) ::
      map ent | ent in EntsOf(acc, dim) + EntsOf(d, dim) :: Get(acc, dim, ent) + Shift(Get(d, dim, ent), off)
  }

  /** What AddShifted holds at (dim, ent), present or not. */
  lemma {:induction false} AddShiftedAt(acc: EntityDofs, d: EntityDofs, off: int, dim: nat, ent: nat)
    ensures Has(AddShifted(acc, d, off), dim, ent) <==> Has(acc, dim, ent) || Has(d, dim, ent)
    ensures Get(AddShifted(acc, d, off), dim, ent) == Get(acc, dim, ent) + Shift(Get(d, dim, ent), off)
  {
    if Has(d, dim, ent) {
      assert dim in Populated(d);
    }
  }

  /** The dimensions and entities AddShifted holds. */
  lemma {:induction false} AddShiftedShape(acc: EntityDofs, d: EntityDofs, off: int, dim: nat)
    ensures dim in AddShifted(acc, d, off) <==> dim in acc || dim in Populated(d)
    ensures dim in AddShifted(acc, d, off) ==> AddShifted(acc, d, off)[dim].Keys == EntsOf(acc, dim) + EntsOf(d, dim)
  {
  }

  /** Two entity maps with the same dimensions, entities and lists are equal. */
  lemma {:induction false} EntityDofsExt(a: EntityDofs, b: EntityDofs)
    requires a.Keys == b.Keys
    requires forall k :: k in a ==> a[k].Keys == b[k].Keys
    requires forall k, e :: Has(a, k, e) ==> a[k][e] == b[k][e]
    ensures a == b
  {
    forall k | k in a
      ensures a[k] == b[k]
    {
      assert forall e :: e in a[k] ==> Has(a, k, e);
    }
  }

  /** The merged map of sub-maps ds[0 .. |ds|-1], sub-map i shifted by offs[i]. */
  function MergedDofs(ds: seq<EntityDofs>, offs: seq<int>): EntityDofs
    requires |ds| <= |offs|
  {
    if ds == [] then map[]
    else AddShifted(MergedDofs(ds[..|ds| - 1], offs), ds[|ds| - 1], offs[|ds| - 1])
  }

  /** The lists sub-map i gives to (dim, ent), each shifted by offs[i]. */
  function ShiftedLists(ds: seq<EntityDofs>, offs: seq<int>, dim: nat, ent: nat): (r: seq<DofList>)
    requires |ds| <= |offs|
    ensures |r| == |ds| && forall i :: 0 <= i < |ds| ==> r[i] == Shift(Get(ds[i], dim, ent), offs[i])
  {
    seq(|ds|, i requires 0 <= i < |ds| => Shift(Get(ds[i], dim, ent), offs[i]))
  }

  /**
   * The merged list of (dim, ent) is the concatenation, over the sub-maps in order, of their
   * lists for (dim, ent) shifted by their offsets.
   */
  lemma {:induction false} MergedDofsAt(ds: seq<EntityDofs>, offs: seq<int>, dim: nat, ent: nat)
    requires |ds| <= |offs|
    ensures Get(MergedDofs(ds, offs), dim, ent) == Concat(ShiftedLists(ds, offs, dim, ent))
  {
    if ds != [] {
      var n := |ds|;
      var p := ds[..n - 1];
      MergedDofsAt(p, offs, dim, ent);
      AddShiftedAt(MergedDofs(p, offs), ds[n - 1], offs[n - 1], dim, ent);
      assert ShiftedLists(ds, offs, dim, ent)[..n - 1] == ShiftedLists(p, offs, dim, ent);
    }
  }

  /** (dim, ent) is a key of the merged map iff some sub-map has it. */
  lemma {:induction false} MergedDofsHas(ds: seq<EntityDofs>, offs: seq<int>, dim: nat, ent: nat)
    requires |ds| <= |offs|
    ensures Has(MergedDofs(ds, offs), dim, ent) <==> exists i :: 0 <= i < |ds| && Has(ds[i], dim, ent)
  {
    if ds != [] {
      var n := |ds|;
      var p := ds[..n - 1];
      MergedDofsHas(p, offs, dim, ent);
      AddShiftedAt(MergedDofs(p, offs), ds[n - 1], offs[n - 1], dim, ent);
      if exists i :: 0 <= i < n - 1 && Has(p[i], dim, ent) {
        var i :| 0 <= i < n - 1 && Has(p[i], dim, ent);
        assert Has(ds[i], dim, ent);
      }
      if exists i :: 0 <= i < n && Has(ds[i], dim, ent) {
        var i :| 0 <= i < n && Has(ds[i], dim, ent);
        if i < n - 1 {
          assert Has(p[i], dim, ent);
        }
      }
    }
  }

  lemma {:induction false} NoDupConcat(a: DofList, b: DofList)
    requires NoDup(a) && NoDup(b)
    requires forall x, y :: x in a && y in b ==> x != y
    ensures NoDup(a + b)
  {
    var c := a + b;
    forall i, j | 0 <= i < j < |c|
      ensures c[i] != c[j]
    {
      if j < |a| {
        assert c[i] == a[i] && c[j] == a[j];
      } else if i >= |a| {
        assert c[i] == b[i - |a|] && c[j] == b[j - |a|];
      } else {
        assert c[i] in a && c[j] in b;
      }
    }
  }

  lemma {:induction false} NoDupShift(s: DofList, off: int)
    requires NoDup(s)
    ensures NoDup(Shift(s, off))
  {
  }

  /**
   * If acc partitions {0 .. a-1} and d partitions {0 .. b-1}, then adding d shifted by a
   * partitions {0 .. a+b-1}: acc's dofs stay below a, d's land in [a, a + b).
   */
  lemma {:induction false} AddShiftedPartition(acc: EntityDofs, d: EntityDofs, a: nat, b: nat)
    requires Partitions(acc, a) && Partitions(d, b)
    ensures Partitions(AddShifted(acc, d, a), a + b)
  {
    var m := AddShifted(acc, d, a);
    forall dim: nat, ent: nat | Has(m, dim, ent)
      ensures NoDup(m[dim][ent])
    {
      AddShiftedAt(acc, d, a, dim, ent);
      var l1, l2 := Get(acc, dim, ent), Get(d, dim, ent);
      var s := Shift(l2, a);
      forall x, y | x in l1 && y in s
        ensures x != y
      {
        ShiftMembers(l2, a, y);
      }
      NoDupShift(l2, a);
      NoDupConcat(l1, s);
    }
    forall dim: nat, ent: nat, x | Has(m, dim, ent) && x in m[dim][ent]
      ensures 0 <= x < a + b
    {
      AddShiftedAt(acc, d, a, dim, ent);
      ShiftMembers(Get(d, dim, ent), a, x);
    }
    forall x | 0 <= x < a + b
      ensures Covered(m, x)
    {
      if x < a {
        assert Covered(acc, x);
        var dim: nat, ent: nat :| Has(acc, dim, ent) && x in acc[dim][ent];
        AddShiftedAt(acc, d, a, dim, ent);
        assert Has(m, dim, ent) && x in m[dim][ent];
      } else {
        assert Covered(d, x - a);
        var dim: nat, ent: nat :| Has(d, dim, ent) && x - a in d[dim][ent];
        AddShiftedAt(acc, d, a, dim, ent);
        ShiftMembers(Get(d, dim, ent), a, x);
        assert Has(m, dim, ent) && x in m[dim][ent];
      }
    }
    forall dim1: nat, ent1: nat, dim2: nat, ent2: nat, x |
      Has(m, dim1, ent1) && Has(m, dim2, ent2) && x in m[dim1][ent1] && x in m[dim2][ent2]
      ensures dim1 == dim2 && ent1 == ent2
    {
      AddShiftedAt(acc, d, a, dim1, ent1);
      AddShiftedAt(acc, d, a, dim2, ent2);
      ShiftMembers(Get(d, dim1, ent1), a, x);
      ShiftMembers(Get(d, dim2, ent2), a, x);
      if x >= a {
        assert x - a in d[dim1][ent1] && x - a in d[dim2][ent2];
      }
    }
  }

  /**
   * When sub-map i partitions {0 .. dims[i]-1} for every i, the merged map with offsets
   * Offsets(dims) partitions {0 .. Sum(dims)-1}.
   */
  lemma {:induction false} MergedDofsPartition(ds: seq<EntityDofs>, dims: seq<nat>)
    requires |ds| == |dims|
    requires forall i :: 0 <= i < |ds| ==> Partitions(ds[i], dims[i])
    ensures Partitions(MergedDofs(ds, Offsets(dims)), Sum(dims))
  {
    if ds != [] {
      var n := |ds|;
      var p, q := ds[..n - 1], dims[..n - 1];
      OffsetsPrefix(dims, n - 1);
      MergedDofsPartition(p, q);
      MergedDofsPrefixOffsets(p, q, dims);
      AddShiftedPartition(MergedDofs(p, Offsets(dims)), ds[n - 1], Sum(q), dims[n - 1]);
    }
  }

  /** The merged map of a prefix depends only on the offsets of that prefix. */
  lemma {:induction false} MergedDofsPrefixOffsets(p: seq<EntityDofs>, q: seq<nat>, dims: seq<nat>)
    requires |p| == |q| < |dims| && q == dims[..|q|]
    ensures MergedDofs(p, Offsets(q)) == MergedDofs(p, Offsets(dims))
  {
    OffsetsPrefix(dims, |q|);
    MergedDofsSameOffsets(p, Offsets(q), Offsets(dims));
  }

  lemma {:induction false} MergedDofsSameOffsets(ds: seq<EntityDofs>, o1: seq<int>, o2: seq<int>)
    requires |ds| <= |o1| && |ds| <= |o2|
    requires forall i :: 0 <= i < |ds| ==> o1[i] == o2[i]
    ensures MergedDofs(ds, o1) == MergedDofs(ds, o2)
  {
    if ds != [] {
      MergedDofsSameOffsets(ds[..|ds| - 1], o1, o2);
    }
  }

  // ---------------------------------------------------------------------------
  // The merge loops.

  /** The populated dimensions of d among dims, with their dicts: what a pass over dims has added. */
  function PopulatedPart(d: EntityDofs, dims: set<nat>): EntityDofs
  {
    map k | k in dims && k in d && d[k] != map[] :: d[k]
  }

  /** done with the entities ents of dofs recorded under dim (nothing when ents is empty). */
  function WithEntries(done: EntityDofs, dim: nat, dofs: map<nat, DofList>, ents: set<nat>): EntityDofs
  {
    if ents == {} then done else done[dim := map e | e in ents && e in dofs :: dofs[e]]
  }

  lemma {:induction false} WithEntriesStep(done: EntityDofs, dim: nat, dofs: map<nat, DofList>, ents: set<nat>, ent: nat)
    requires dim !in done && ent in dofs && ent !in ents
    ensures var cur := WithEntries(done, dim, dofs, ents);
      cur[dim := EntriesOf(cur, dim)[ent := dofs[ent]]] == WithEntries(done, dim, dofs, ents + {ent})
  {
    var cur := WithEntries(done, dim, dofs, ents);
    var inner := EntriesOf(cur, dim)[ent := dofs[ent]];
    var full := map e | e in ents + {ent} && e in dofs :: dofs[e];
    assert inner.Keys == full.Keys;
    assert inner == full;
    assert ent in ents + {ent};
    assert WithEntries(done, dim, dofs, ents + {ent}) == done[dim := full];
    assert cur[dim := inner] == done[dim := inner];
  }

  /** Finishing dimension dim of d extends the processed part by d's populated entry for dim. */
  lemma {:induction false} PopulatedPartStep(d: EntityDofs, dims: set<nat>, dim: nat)
    requires dim in d && dim !in dims
    ensures dim !in PopulatedPart(d, dims)
    ensures WithEntries(PopulatedPart(d, dims), dim, d[dim], d[dim].Keys) == PopulatedPart(d, dims + {dim})
  {
    var dofs := d[dim];
    var full := map e | e in dofs.Keys && e in dofs :: dofs[e];
    assert full == dofs;
    if dofs.Keys == {} {
      assert dofs == map[];
    }
  }

  /** Adding a map with no lists changes nothing. */
  lemma {:induction false} AddShiftedNothing(acc: EntityDofs, d: EntityDofs, off: int)
    requires d == map[]
    ensures AddShifted(acc, d, off) == acc
  {
    var r := AddShifted(acc, d, off);
    forall k: nat
      ensures k in r <==> k in acc
      ensures k in r ==> r[k].Keys == acc[k].Keys
    {
      AddShiftedShape(acc, d, off, k);
    }
    forall k: nat, e: nat | Has(r, k, e)
      ensures r[k][e] == acc[k][e]
    {
      AddShiftedAt(acc, d, off, k, e);
      assert Shift([], off) == [];
    }
    EntityDofsExt(r, acc);
  }

  /**
   * One sub-element's pass: for dim, dofs in d.items(), for ent, off in dofs.items(),
   * entity_dofs[dim][ent] += shifted list. Dict iteration order is left open (each pass
   * touches every (dim, ent) at most once, so it does not matter).
   */
  method AccumulateShifted(acc: EntityDofs, d: EntityDofs, off: int) returns (r: EntityDofs)
    ensures r == AddShifted(acc, d, off)
  {
    r := acc;
    ghost var doneDims: set<nat> := {};
    AddShiftedNothing(acc, PopulatedPart(d, doneDims), off);
    var dims := d.Keys;
    while dims != {}
      invariant dims + doneDims == d.Keys && dims !! doneDims
      invariant r == AddShifted(acc, PopulatedPart(d, doneDims), off)
      decreases dims
    {
      var dim :| dim in dims;
      PopulatedPartStep(d, doneDims, dim);
      r := AccumulateEntities(r, acc, PopulatedPart(d, doneDims), dim, d[dim], off);
      dims := dims - {dim};
      doneDims := doneDims + {dim};
    }
    AddShiftedSamePopulated(acc, PopulatedPart(d, doneDims), d, off);
  }

  /** The inner loop for one dimension: each entity's list, shifted, is appended in turn. */
  method AccumulateEntities(r0: EntityDofs, ghost acc: EntityDofs, ghost done: EntityDofs, dim: nat,
                            dofs: map<nat, DofList>, off: int) returns (r: EntityDofs)
    requires dim !in done
    requires r0 == AddShifted(acc, done, off)
    ensures r == AddShifted(acc, WithEntries(done, dim, dofs, dofs.Keys), off)
  {
    r := r0;
    var ents := dofs.Keys;
    ghost var doneEnts: set<nat> := {};
    while ents != {}
      invariant ents + doneEnts == dofs.Keys && ents !! doneEnts
      invariant r == AddShifted(acc, WithEntries(done, dim, dofs, doneEnts), off)
      decreases ents
    {
      var ent :| ent in ents;
      ghost var cur := WithEntries(done, dim, dofs, doneEnts);
      AddShiftedStep(acc, cur, off, dim, ent, dofs[ent]);
      WithEntriesStep(done, dim, dofs, doneEnts, ent);
      r := Append(r, dim, ent, Shift(dofs[ent], off));
      ents := ents - {ent};
      doneEnts := doneEnts + {ent};
    }
  }

  /** m[dim], or an empty dict where the defaultdict would create one. */
  function EntriesOf(m: EntityDofs, dim: nat): map<nat, DofList>
  {
    if dim in m then m[dim] else map[]
  }

  /** m[dim][ent] += l on a defaultdict of defaultdicts of lists. */
  function Append(m: EntityDofs, dim: nat, ent: nat, l: DofList): EntityDofs
  {
    m[dim := EntriesOf(m, dim)[ent := Get(m, dim, ent) + l]]
  }

  /** Append creates (dim, ent) if needed, extends that one list by l and leaves every other list alone. */
  lemma {:induction false} AppendAt(m: EntityDofs, dim: nat, ent: nat, l: DofList, k: nat, e: nat)
    ensures k in Append(m, dim, ent, l) <==> k in m || k == dim
    ensures Has(Append(m, dim, ent, l), k, e) <==> Has(m, k, e) || (k == dim && e == ent)
    ensures Get(Append(m, dim, ent, l), k, e) == if k == dim && e == ent then Get(m, k, e) + l else Get(m, k, e)
  {
  }

  /** Recording l at (dim, ent) adds that one entry, populates dim and leaves every other entry alone. */
  lemma {:induction false} RecordAt(done: EntityDofs, dim: nat, ent: nat, l: DofList, k: nat, e: nat)
    ensures var done' := done[dim := EntriesOf(done, dim)[ent := l]];
      && (k in Populated(done') <==> k in Populated(done) || k == dim)
      && (k in done' ==> done'[k].Keys == EntsOf(done, k) + (if k == dim then {ent} else {}))
      && (Has(done', k, e) <==> Has(done, k, e) || (k == dim && e == ent))
      && Get(done', k, e) == if k == dim && e == ent then l else Get(done, k, e)
  {
    var done' := done[dim := EntriesOf(done, dim)[ent := l]];
    assert ent in done'[dim];
  }

  /** Adding one more (dim, ent, l) to the processed part appends l shifted to that one list. */
  lemma {:induction false} AddShiftedStep(acc: EntityDofs, done: EntityDofs, off: int, dim: nat, ent: nat, l: DofList)
    requires !Has(done, dim, ent)
    ensures AddShifted(acc, done[dim := EntriesOf(done, dim)[ent := l]], off) ==
      Append(AddShifted(acc, done, off), dim, ent, Shift(l, off))
  {
    var done' := done[dim := EntriesOf(done, dim)[ent := l]];
    var lhs := AddShifted(acc, done', off);
    var rhs := Append(AddShifted(acc, done, off), dim, ent, Shift(l, off));
    AddShiftedStepKeys(acc, done, off, dim, ent, l);
    AddShiftedStepValues(acc, done, off, dim, ent, l);
    EntityDofsExt(lhs, rhs);
  }

  lemma {:induction false} AddShiftedStepKeys(acc: EntityDofs, done: EntityDofs, off: int, dim: nat, ent: nat, l: DofList)
    ensures var lhs := AddShifted(acc, done[dim := EntriesOf(done, dim)[ent := l]], off);
      var rhs := Append(AddShifted(acc, done, off), dim, ent, Shift(l, off));
      lhs.Keys == rhs.Keys && forall k :: k in lhs ==> lhs[k].Keys == rhs[k].Keys
  {
    forall k: nat {
      AddShiftedStepKeysAt(acc, done, off, dim, ent, l, k);
    }
  }

  lemma {:induction false} AddShiftedStepKeysAt(acc: EntityDofs, done: EntityDofs, off: int, dim: nat, ent: nat, l: DofList, k: nat)
    ensures var lhs := AddShifted(acc, done[dim := EntriesOf(done, dim)[ent := l]], off);
      var rhs := Append(AddShifted(acc, done, off), dim, ent, Shift(l, off));
      (k in lhs <==> k in rhs) && (k in lhs ==> lhs[k].Keys == rhs[k].Keys)
  {
    var done' := done[dim := EntriesOf(done, dim)[ent := l]];
    var old' := AddShifted(acc, done, off);
    var lhs := AddShifted(acc, done', off);
    var rhs := Append(old', dim, ent, Shift(l, off));
    AddShiftedShape(acc, done, off, k);
    AddShiftedShape(acc, done', off, k);
    AppendAt(old', dim, ent, Shift(l, off), k, 0);
    RecordAt(done, dim, ent, l, k, 0);
    assert k in lhs <==> k in rhs;
    if k in lhs {
      forall e: nat
        ensures e in lhs[k] <==> e in rhs[k]
      {
        AddShiftedStepHas(acc, done, off, dim, ent, l, k, e);
      }
    }
  }

  lemma {:induction false} AddShiftedStepHas(acc: EntityDofs, done: EntityDofs, off: int, dim: nat, ent: nat, l: DofList, k: nat, e: nat)
    ensures var lhs := AddShifted(acc, done[dim := EntriesOf(done, dim)[ent := l]], off);
      var rhs := Append(AddShifted(acc, done, off), dim, ent, Shift(l, off));
      Has(lhs, k, e) <==> Has(rhs, k, e)
  {
    var done' := done[dim := EntriesOf(done, dim)[ent := l]];
    var old' := AddShifted(acc, done, off);
    AddShiftedAt(acc, done, off, k, e);
    AddShiftedAt(acc, done', off, k, e);
    AppendAt(old', dim, ent, Shift(l, off), k, e);
    RecordAt(done, dim, ent, l, k, e);
  }

  lemma {:induction false} AddShiftedStepValues(acc: EntityDofs, done: EntityDofs, off: int, dim: nat, ent: nat, l: DofList)
    requires !Has(done, dim, ent)
    ensures var lhs := AddShifted(acc, done[dim := EntriesOf(done, dim)[ent := l]], off);
      var rhs := Append(AddShifted(acc, done, off), dim, ent, Shift(l, off));
      forall k, e :: Has(lhs, k, e) ==> Has(rhs, k, e) && lhs[k][e] == rhs[k][e]
  {
    forall k: nat, e: nat {
      AddShiftedStepValuesAt(acc, done, off, dim, ent, l, k, e);
    }
  }

  lemma {:induction false} AddShiftedStepValuesAt(acc: EntityDofs, done: EntityDofs, off: int, dim: nat, ent: nat, l: DofList, k: nat, e: nat)
    requires !Has(done, dim, ent)
    ensures var lhs := AddShifted(acc, done[dim := EntriesOf(done, dim)[ent := l]], off);
      var rhs := Append(AddShifted(acc, done, off), dim, ent, Shift(l, off));
      Has(lhs, k, e) ==> Has(rhs, k, e) && lhs[k][e] == rhs[k][e]
  {
    var done' := done[dim := EntriesOf(done, dim)[ent := l]];
    var old' := AddShifted(acc, done, off);
    var lhs := AddShifted(acc, done', off);
    var rhs := Append(old', dim, ent, Shift(l, off));
    AddShiftedAt(acc, done, off, k, e);
    AddShiftedAt(acc, done', off, k, e);
    AppendAt(old', dim, ent, Shift(l, off), k, e);
    RecordAt(done, dim, ent, l, k, e);
    StepList(Get(acc, k, e), Get(done, k, e), Get(done', k, e), l, off, k == dim && e == ent);
    assert Get(lhs, k, e) == Get(rhs, k, e);
  }

  /** The list algebra of one step: the recorded entry gains l shifted, every other entry is unchanged. */
  lemma {:induction false} StepList(a: DofList, before: DofList, after: DofList, l: DofList, off: int, here: bool)
    requires here ==> before == [] && after == l
    requires !here ==> after == before
    ensures a + Shift(after, off) == if here then a + Shift(before, off) + Shift(l, off) else a + Shift(before, off)
  {
    if here {
      assert Shift(before, off) == [];
      assert a + [] == a;
    }
  }

  /** Only the populated dimensions matter: dims whose entity dict is empty change nothing. */
  lemma {:induction false} AddShiftedSamePopulated(acc: EntityDofs, done: EntityDofs, d: EntityDofs, off: int)
    requires forall k :: k in done ==> k in d && done[k] == d[k]
    requires forall k :: k in d && d[k] != map[] ==> k in done
    ensures AddShifted(acc, done, off) == AddShifted(acc, d, off)
  {
    var lhs, rhs := AddShifted(acc, done, off), AddShifted(acc, d, off);
    forall k: nat
      ensures k in lhs <==> k in rhs
      ensures k in lhs ==> lhs[k].Keys == rhs[k].Keys
    {
      AddShiftedShape(acc, done, off, k);
      AddShiftedShape(acc, d, off, k);
      assert k in Populated(done) <==> k in Populated(d);
      assert EntsOf(done, k) == EntsOf(d, k);
    }
    forall k: nat, e: nat | Has(lhs, k, e)
      ensures lhs[k][e] == rhs[k][e]
    {
      AddShiftedAt(acc, done, off, k, e);
      AddShiftedAt(acc, d, off, k, e);
      assert Get(done, k, e) == Get(d, k, e);
    }
    EntityDofsExt(lhs, rhs);
  }

  /**
   * The merge of the mixed constructor: offsets[i] shifts sub-map i, and the sub-maps are
   * processed in order.
   */
  method MergeEntityDofs(ds: seq<EntityDofs>, offs: seq<int>) returns (merged: EntityDofs)
    requires |ds| <= |offs|
    ensures merged == MergedDofs(ds, offs)
  {
    merged := map[];
    for i := 0 to |ds|
      invariant merged == MergedDofs(ds[..i], offs)
    {
      assert ds[..i + 1][..i] == ds[..i];
      merged := AccumulateShifted(merged, ds[i], offs[i]);
    }
    assert ds[..|ds|] == ds;
  }
}
