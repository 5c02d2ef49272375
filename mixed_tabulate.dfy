/**
 * MixedElement.tabulate: every sub-element's table for a derivative multi-index is written
 * into its block of rows (its dofs) and columns (its value components) of a zero-filled
 * array shaped (space dimension, value components, points), one array per multi-index.
 */
module MixedTabulate {
  import opened Wrappers
  import opened Sequences
  import opened Elements
  import opened Mixed

  /** A derivative multi-index, the key of a tabulation. */
  type Key = seq<nat>

  /** A basis-function table indexed [dof][component][point]. */
  type Tensor = seq<seq<seq<real>>>

  /** What tabulate returns: one table per derivative multi-index. */
  type Table = map<Key, Tensor>

  predicate Shaped(t: Tensor, rows: nat, cols: nat, pts: nat)
  {
    |t| == rows && forall r :: 0 <= r < rows ==> |t[r]| == cols && forall c :: 0 <= c < cols ==> |t[r][c]| == pts
  }

  /** numpy.zeros(shape). */
  function Zeros(rows: nat, cols: nat, pts: nat): (z: Tensor)
    ensures Shaped(z, rows, cols, pts)
    ensures forall r, c, p :: 0 <= r < rows && 0 <= c < cols && 0 <= p < pts ==> z[r][c][p] == 0.0
  {
    Repeat(rows, Repeat(cols, Repeat(pts, 0.0)))
  }

  /** n copies of x. */
  function Repeat<T>(n: nat, x: T): (r: seq<T>)
    ensures |r| == n && forall i :: 0 <= i < n ==> r[i] == x
  {
    if n == 0 then [] else Repeat(n - 1, x) + [x]
  }

  /** Whether entry (r, c, p) of an array lies in the block of tab placed at row r0, column c0. */
  predicate InBlock(tab: Tensor, r0: nat, c0: nat, r: nat, c: nat, p: nat)
  {
    r0 <= r < r0 + |tab| && c0 <= c < c0 + |tab[r - r0]| && p < |tab[r - r0][c - c0]|
  }

  /** arr[r0:r0+R, c0:c0+C] = tab: the block is overwritten, every other entry kept. */
  function Splat(arr: Tensor, r0: nat, c0: nat, tab: Tensor): (o: Tensor)
    ensures |o| == |arr|
    ensures forall r :: 0 <= r < |arr| ==> o[r] == SplatRow(arr[r], r, r0, c0, tab)
  {
    seq(|arr|, r requires 0 <= r < |arr| => SplatRow(arr[r], r, r0, c0, tab))
  }

  /** Row r of a splatted array, given row r of the array it overwrites. */
  function SplatRow(row: seq<seq<real>>, r: nat, r0: nat, c0: nat, tab: Tensor): (o: seq<seq<real>>)
    ensures |o| == |row|
    ensures forall c :: 0 <= c < |row| ==> o[c] == SplatCell(row[c], r, c, r0, c0, tab)
  {
    seq(|row|, c requires 0 <= c < |row| => SplatCell(row[c], r, c, r0, c0, tab))
  }

  /** The entries (r, c, .) of a splatted array, given those of the array it overwrites. */
  function SplatCell(cell: seq<real>, r: nat, c: nat, r0: nat, c0: nat, tab: Tensor): (o: seq<real>)
    ensures |o| == |cell|
    ensures forall p :: 0 <= p < |cell| ==> o[p] == if InBlock(tab, r0, c0, r, c, p) then tab[r - r0][c - c0][p] else cell[p]
  {
    seq(|cell|, p requires 0 <= p < |cell| => if InBlock(tab, r0, c0, r, c, p) then tab[r - r0][c - c0][p] else cell[p])
  }

  lemma {:induction false} SplatShaped(arr: Tensor, r0: nat, c0: nat, tab: Tensor, rows: nat, cols: nat, pts: nat)
    requires Shaped(arr, rows, cols, pts)
    ensures Shaped(Splat(arr, r0, c0, tab), rows, cols, pts)
  {
  }

  /** The processing of one sub-element's table: each of its keys gets its block written. */
  function SplatElement(out: Table, sub: Table, r0: nat, c0: nat, zero: Tensor): Table
  {
    map d | d in out.Keys + sub.Keys ::
      if d in sub then Splat(if d in out then out[d] else zero, r0, c0, sub[d]) else out[d]
  }

  /**
   * The output after sub-elements 0 .. |tables|-1, where tables[i] is what sub-element i
   * tabulated, ir and cr the dof and component offsets, and zero the fresh array.
   */
  function MixedTable(tables: seq<Table>, ir: seq<nat>, cr: seq<nat>, zero: Tensor): Table
    requires |tables| <= |ir| && |tables| <= |cr|
  {
    if tables == [] then map[]
    else
      var n := |tables| - 1;
      SplatElement(MixedTable(tables[..n], ir, cr, zero), tables[n], ir[n], cr[n], zero)
  }

  /** Processing sub-element i after the first i. */
  lemma {:induction false} MixedTableStep(tables: seq<Table>, i: nat, ir: seq<nat>, cr: seq<nat>, zero: Tensor)
    requires i < |tables| <= |ir| && |tables| <= |cr|
    ensures MixedTable(tables[..i + 1], ir, cr, zero) == SplatElement(MixedTable(tables[..i], ir, cr, zero), tables[i], ir[i], cr[i], zero)
  {
    assert tables[..i + 1][..i] == tables[..i];
  }

  /** The keys of sub a restricted to keys. */
  function Restrict(sub: Table, keys: set<Key>): Table
  {
    map d | d in keys && d in sub :: sub[d]
  }

  lemma {:induction false} SplatNothing(out: Table, sub: Table, r0: nat, c0: nat, zero: Tensor)
    ensures SplatElement(out, Restrict(sub, {}), r0, c0, zero) == out
  {
    assert Restrict(sub, {}) == map[];
  }

  /** A key not yet processed still holds what it held before the loop. */
  lemma {:induction false} SplatPending(out: Table, sub: Table, done: set<Key>, r0: nat, c0: nat, zero: Tensor, d: Key)
    requires d !in done
    ensures var cur := SplatElement(out, Restrict(sub, done), r0, c0, zero);
      && (d in cur <==> d in out)
      && (d in out ==> cur[d] == out[d])
  {
    assert d !in Restrict(sub, done);
  }

  lemma {:induction false} SplatStep(out: Table, sub: Table, done: set<Key>, r0: nat, c0: nat, zero: Tensor, d: Key)
    requires d in sub && d !in done
    ensures SplatElement(out, Restrict(sub, done), r0, c0, zero)[d := Splat(if d in out then out[d] else zero, r0, c0, sub[d])]
         == SplatElement(out, Restrict(sub, done + {d}), r0, c0, zero)
  {
    var cur := SplatElement(out, Restrict(sub, done), r0, c0, zero);
    var lhs := cur[d := Splat(if d in out then out[d] else zero, r0, c0, sub[d])];
    var rhs := SplatElement(out, Restrict(sub, done + {d}), r0, c0, zero);
    assert d in done + {d};
    assert lhs.Keys == rhs.Keys;
    forall k | k in lhs
      ensures lhs[k] == rhs[k]
    {
      if k != d {
        assert k in Restrict(sub, done) <==> k in Restrict(sub, done + {d});
      } else {
        assert Restrict(sub, done + {d})[d] == sub[d];
      }
    }
  }

  /** The loop over one sub-element's keys, in whatever order the dict yields them. */
  method SplatTables(out0: Table, sub: Table, r0: nat, c0: nat, zero: Tensor) returns (out: Table)
    ensures out == SplatElement(out0, sub, r0, c0, zero)
  {
    out := out0;
    var keys := sub.Keys;
    ghost var done: set<Key> := {};
    SplatNothing(out0, sub, r0, c0, zero);
    while keys != {}
      invariant keys + done == sub.Keys && keys !! done
      invariant out == SplatElement(out0, Restrict(sub, done), r0, c0, zero)
      decreases keys
    {
      var d :| d in keys;
      SplatPending(out0, sub, done, r0, c0, zero, d);
      SplatStep(out0, sub, done, r0, c0, zero, d);
      var arr: Tensor;
      if d in out {
        arr := out[d];
      } else {
        arr := zero;
      }
      out := out[d := Splat(arr, r0, c0, sub[d])];
      keys := keys - {d};
      done := done + {d};
    }
    assert Restrict(sub, done) == sub;
  }

  /** Every table of sub-element i is shaped (space dimension, components, points). */
  predicate WellShaped(tables: seq<Table>, dims: seq<nat>, cmps: seq<nat>, pts: nat)
    requires |tables| <= |dims| && |tables| <= |cmps|
  {
    forall i, d :: 0 <= i < |tables| && d in tables[i] ==> Shaped(tables[i][d], dims[i], cmps[i], pts)
  }

  /** The output for dof dimensions dims and component counts cmps. */
  function Output(tables: seq<Table>, dims: seq<nat>, cmps: seq<nat>, pts: nat): Table
    requires |tables| <= |dims| && |tables| <= |cmps|
  {
    MixedTable(tables, Offsets(dims), Offsets(cmps), Zeros(Sum(dims), Sum(cmps), pts))
  }

  /** A multi-index is in the output iff some sub-element tabulated it. */
  lemma {:induction false} OutputHas(tables: seq<Table>, dims: seq<nat>, cmps: seq<nat>, pts: nat, d: Key)
    requires |tables| <= |dims| && |tables| <= |cmps|
    ensures d in Output(tables, dims, cmps, pts) <==> exists i :: 0 <= i < |tables| && d in tables[i]
  {
    if tables != [] {
      var n := |tables| - 1;
      OutputHas(tables[..n], dims, cmps, pts, d);
      if d in tables[n] {
        assert exists i :: 0 <= i < |tables| && d in tables[i];
      }
      if exists i :: 0 <= i < n && d in tables[..n][i] {
        var i :| 0 <= i < n && d in tables[..n][i];
        assert d in tables[i];
      }
      if exists i :: 0 <= i < |tables| && d in tables[i] {
        var i :| 0 <= i < |tables| && d in tables[i];
        if i < n {
          assert d in tables[..n][i];
        }
      }
    }
  }

  /** Every array in the output has the shape (space dimension, components, points). */
  lemma {:induction false} OutputShaped(tables: seq<Table>, dims: seq<nat>, cmps: seq<nat>, pts: nat, d: Key)
    requires |tables| <= |dims| && |tables| <= |cmps|
    requires d in Output(tables, dims, cmps, pts)
    ensures Shaped(Output(tables, dims, cmps, pts)[d], Sum(dims), Sum(cmps), pts)
  {
    var n := |tables| - 1;
    var prev := Output(tables[..n], dims, cmps, pts);
    var zero := Zeros(Sum(dims), Sum(cmps), pts);
    if d in prev {
      OutputShaped(tables[..n], dims, cmps, pts, d);
    }
    if d in tables[n] {
      SplatShaped(if d in prev then prev[d] else zero, Offsets(dims)[n], Offsets(cmps)[n], tables[n][d],
                  Sum(dims), Sum(cmps), pts);
    }
  }

  /** One entry of a splatted array. */
  lemma {:induction false} SplatAt(arr: Tensor, r0: nat, c0: nat, tab: Tensor, r: nat, c: nat, p: nat)
    requires r < |arr| && c < |arr[r]| && p < |arr[r][c]|
    ensures Splat(arr, r0, c0, tab)[r][c][p] == if InBlock(tab, r0, c0, r, c, p) then tab[r - r0][c - c0][p] else arr[r][c][p]
  {
  }

  /** The array for d after the last sub-element, in terms of the one before it. */
  lemma {:induction false} OutputLast(tables: seq<Table>, dims: seq<nat>, cmps: seq<nat>, pts: nat, n: nat, d: Key)
    requires n + 1 == |tables| && |tables| <= |dims| && |tables| <= |cmps|
    requires d in Output(tables, dims, cmps, pts)
    ensures d !in tables[n] ==> d in Output(tables[..n], dims, cmps, pts)
    ensures d in tables[n] ==>
      Output(tables, dims, cmps, pts)[d] ==
      Splat(if d in Output(tables[..n], dims, cmps, pts) then Output(tables[..n], dims, cmps, pts)[d] else Zeros(Sum(dims), Sum(cmps), pts),
            Offsets(dims)[n], Offsets(cmps)[n], tables[n][d])
    ensures d !in tables[n] ==> Output(tables, dims, cmps, pts)[d] == Output(tables[..n], dims, cmps, pts)[d]
  {
  }

  lemma {:induction false} WellShapedPrefix(tables: seq<Table>, dims: seq<nat>, cmps: seq<nat>, pts: nat, n: nat)
    requires n <= |tables| <= |dims| && |tables| <= |cmps| && WellShaped(tables, dims, cmps, pts)
    ensures WellShaped(tables[..n], dims, cmps, pts)
  {
    forall i, d | 0 <= i < n && d in tables[..n][i]
      ensures Shaped(tables[..n][i][d], dims[i], cmps[i], pts)
    {
      assert tables[..n][i] == tables[i];
    }
  }

  /** An entry of a splatted array inside the block of a table shaped (rows, cols, pts). */
  lemma {:induction false} SplatInside(arr: Tensor, r0: nat, c0: nat, tab: Tensor, rows: nat, cols: nat, pts: nat, r: nat, c: nat, p: nat)
    requires Shaped(tab, rows, cols, pts) && r < rows && c < cols && p < pts
    requires r0 + r < |arr| && c0 + c < |arr[r0 + r]| && p < |arr[r0 + r][c0 + c]|
    ensures Splat(arr, r0, c0, tab)[r0 + r][c0 + c][p] == tab[r][c][p]
  {
    assert InBlock(tab, r0, c0, r0 + r, c0 + c, p);
  }

  /** An entry of a splatted array outside the rows or columns of a table shaped (rows, cols, pts). */
  lemma {:induction false} SplatOutside(arr: Tensor, r0: nat, c0: nat, tab: Tensor, rows: nat, cols: nat, pts: nat, r: nat, c: nat, p: nat)
    requires Shaped(tab, rows, cols, pts) && !(r0 <= r < r0 + rows && c0 <= c < c0 + cols)
    requires r < |arr| && c < |arr[r]| && p < |arr[r][c]|
    ensures Splat(arr, r0, c0, tab)[r][c][p] == arr[r][c][p]
  {
    assert !InBlock(tab, r0, c0, r, c, p);
  }

  /** Whether d was already in the output before the last sub-element, number n. */
  predicate Before(tables: seq<Table>, dims: seq<nat>, cmps: seq<nat>, pts: nat, n: nat, d: Key)
    requires n + 1 == |tables| && |tables| <= |dims| && |tables| <= |cmps|
  {
    d in Output(tables[..n], dims, cmps, pts)
  }

  /** Whether the last sub-element's table for d, number n, covers entry (row, col, p). */
  predicate LastWrites(tables: seq<Table>, dims: seq<nat>, cmps: seq<nat>, n: nat, d: Key, row: nat, col: nat, p: nat)
    requires n + 1 == |tables| && |tables| <= |dims| && |tables| <= |cmps|
  {
    d in tables[n] && InBlock(tables[n][d], Offsets(dims)[n], Offsets(cmps)[n], row, col, p)
  }

  /** After the last sub-element, number n, an entry inside its block for d holds its table's entry. */
  lemma {:induction false} OutputEntryWritten(tables: seq<Table>, dims: seq<nat>, cmps: seq<nat>, pts: nat, n: nat, d: Key,
                           row: nat, col: nat, p: nat)
    requires n + 1 == |tables| && |tables| <= |dims| && |tables| <= |cmps|
    requires d in Output(tables, dims, cmps, pts) && row < Sum(dims) && col < Sum(cmps) && p < pts
    requires LastWrites(tables, dims, cmps, n, d, row, col, p)
    ensures row < |Output(tables, dims, cmps, pts)[d]| && col < |Output(tables, dims, cmps, pts)[d][row]|
    ensures p < |Output(tables, dims, cmps, pts)[d][row][col]|
    ensures Output(tables, dims, cmps, pts)[d][row][col][p] == tables[n][d][row - Offsets(dims)[n]][col - Offsets(cmps)[n]][p]
  {
    var prev := Output(tables[..n], dims, cmps, pts);
    var out := Output(tables, dims, cmps, pts);
    var arr := if d in prev then prev[d] else Zeros(Sum(dims), Sum(cmps), pts);
    assert out[d] == Splat(arr, Offsets(dims)[n], Offsets(cmps)[n], tables[n][d])
        && row < |arr| && col < |arr[row]| && p < |arr[row][col]| by {
      OutputLast(tables, dims, cmps, pts, n, d);
      if d in prev {
        OutputShaped(tables[..n], dims, cmps, pts, d);
      }
    }
    SplatEntryIn(out[d], arr, Offsets(dims)[n], Offsets(cmps)[n], tables[n][d], row, col, p);
  }

  /** After the last sub-element, number n, an entry outside its block keeps the earlier array's entry. */
  lemma {:induction false} OutputEntryKept(tables: seq<Table>, dims: seq<nat>, cmps: seq<nat>, pts: nat, n: nat, d: Key,
                        row: nat, col: nat, p: nat)
    requires n + 1 == |tables| && |tables| <= |dims| && |tables| <= |cmps|
    requires d in Output(tables, dims, cmps, pts) && row < Sum(dims) && col < Sum(cmps) && p < pts
    requires !LastWrites(tables, dims, cmps, n, d, row, col, p) && Before(tables, dims, cmps, pts, n, d)
    ensures Shaped(Output(tables, dims, cmps, pts)[d], Sum(dims), Sum(cmps), pts)
    ensures Shaped(Output(tables[..n], dims, cmps, pts)[d], Sum(dims), Sum(cmps), pts)
    ensures Output(tables, dims, cmps, pts)[d][row][col][p] == Output(tables[..n], dims, cmps, pts)[d][row][col][p]
  {
    var prev := Output(tables[..n], dims, cmps, pts);
    OutputShaped(tables, dims, cmps, pts, d);
    OutputShaped(tables[..n], dims, cmps, pts, d);
    OutputLast(tables, dims, cmps, pts, n, d);
    if d in tables[n] {
      SplatEntry(Output(tables, dims, cmps, pts)[d], prev[d], Offsets(dims)[n], Offsets(cmps)[n], tables[n][d], row, col, p);
    }
  }

  lemma {:induction false} SplatEntry(o: Tensor, arr: Tensor, r0: nat, c0: nat, tab: Tensor, r: nat, c: nat, p: nat)
    requires o == Splat(arr, r0, c0, tab)
    requires r < |arr| && c < |arr[r]| && p < |arr[r][c]|
    ensures InBlock(tab, r0, c0, r, c, p) ==> o[r][c][p] == tab[r - r0][c - c0][p]
    ensures !InBlock(tab, r0, c0, r, c, p) ==> o[r][c][p] == arr[r][c][p]
  {
  }

  lemma {:induction false} SplatEntryIn(o: Tensor, arr: Tensor, r0: nat, c0: nat, tab: Tensor, r: nat, c: nat, p: nat)
    requires o == Splat(arr, r0, c0, tab) && InBlock(tab, r0, c0, r, c, p)
    requires r < |arr| && c < |arr[r]| && p < |arr[r][c]|
    ensures r < |o| && c < |o[r]| && p < |o[r][c]|
    ensures o[r][c][p] == tab[r - r0][c - c0][p]
  {
  }

  /** Block i of the array for d holds sub-element i's table for d, entry by entry. */
  lemma {:induction false} OutputBlock(tables: seq<Table>, dims: seq<nat>, cmps: seq<nat>, pts: nat,
                                       i: nat, d: Key, row: nat, col: nat, p: nat)
    requires |tables| <= |dims| && |tables| <= |cmps| && WellShaped(tables, dims, cmps, pts)
    requires i < |tables| && d in tables[i] && p < pts
    requires Offsets(dims)[i] <= row < Offsets(dims)[i + 1] && Offsets(cmps)[i] <= col < Offsets(cmps)[i + 1]
    ensures row < Sum(dims) && col < Sum(cmps)
    ensures d in Output(tables, dims, cmps, pts)
    ensures Shaped(Output(tables, dims, cmps, pts)[d], Sum(dims), Sum(cmps), pts)
    ensures Shaped(tables[i][d], dims[i], cmps[i], pts)
    ensures Output(tables, dims, cmps, pts)[d][row][col][p] == tables[i][d][row - Offsets(dims)[i]][col - Offsets(cmps)[i]][p]
    decreases |tables|, 1
  {
    if i == |tables| - 1 {
      OutputBlockLast(tables, dims, cmps, pts, i, d, row, col, p);
    } else {
      OutputBlockEarlier(tables, dims, cmps, pts, i, d, row, col, p);
    }
  }

  /** The last sub-element's block: written by the last step. */
  lemma {:induction false} OutputBlockLast(tables: seq<Table>, dims: seq<nat>, cmps: seq<nat>, pts: nat,
                                       i: nat, d: Key, row: nat, col: nat, p: nat)
    requires |tables| <= |dims| && |tables| <= |cmps| && WellShaped(tables, dims, cmps, pts)
    requires i < |tables| && d in tables[i] && p < pts
    requires Offsets(dims)[i] <= row < Offsets(dims)[i + 1] && Offsets(cmps)[i] <= col < Offsets(cmps)[i + 1]
    requires i == |tables| - 1
    ensures row < Sum(dims) && col < Sum(cmps)
    ensures d in Output(tables, dims, cmps, pts)
    ensures Shaped(Output(tables, dims, cmps, pts)[d], Sum(dims), Sum(cmps), pts)
    ensures Shaped(tables[i][d], dims[i], cmps[i], pts)
    ensures Output(tables, dims, cmps, pts)[d][row][col][p] == tables[i][d][row - Offsets(dims)[i]][col - Offsets(cmps)[i]][p]
  {
    OffsetsMonotone(dims, i + 1, |dims|);
    OffsetsMonotone(cmps, i + 1, |cmps|);
    assert Shaped(tables[i][d], dims[i], cmps[i], pts);
    OutputHas(tables, dims, cmps, pts, d);
    assert LastWrites(tables, dims, cmps, i, d, row, col, p);
    OutputEntryWritten(tables, dims, cmps, pts, i, d, row, col, p);
    OutputShaped(tables, dims, cmps, pts, d);
  }

  /** An earlier sub-element's block: written before the last step and kept by it. */
  lemma {:induction false} OutputBlockEarlier(tables: seq<Table>, dims: seq<nat>, cmps: seq<nat>, pts: nat,
                                       i: nat, d: Key, row: nat, col: nat, p: nat)
    requires |tables| <= |dims| && |tables| <= |cmps| && WellShaped(tables, dims, cmps, pts)
    requires i < |tables| && d in tables[i] && p < pts
    requires Offsets(dims)[i] <= row < Offsets(dims)[i + 1] && Offsets(cmps)[i] <= col < Offsets(cmps)[i + 1]
    requires i < |tables| - 1
    ensures row < Sum(dims) && col < Sum(cmps)
    ensures d in Output(tables, dims, cmps, pts)
    ensures Shaped(Output(tables, dims, cmps, pts)[d], Sum(dims), Sum(cmps), pts)
    ensures Shaped(tables[i][d], dims[i], cmps[i], pts)
    ensures Output(tables, dims, cmps, pts)[d][row][col][p] == tables[i][d][row - Offsets(dims)[i]][col - Offsets(cmps)[i]][p]
    decreases |tables|, 0
  {
    var n := |tables| - 1;
    OffsetsMonotone(dims, i + 1, |dims|);
    OffsetsMonotone(cmps, i + 1, |cmps|);
    assert Shaped(tables[i][d], dims[i], cmps[i], pts);
    assert row < Sum(dims) && col < Sum(cmps);
    assert d in Output(tables, dims, cmps, pts) by {
      OutputHas(tables, dims, cmps, pts, d);
      assert 0 <= i < |tables| && d in tables[i];
    }
    assert Before(tables, dims, cmps, pts, n, d) &&
      Output(tables[..n], dims, cmps, pts)[d][row][col][p] == tables[i][d][row - Offsets(dims)[i]][col - Offsets(cmps)[i]][p] by {
      WellShapedPrefix(tables, dims, cmps, pts, n);
      assert tables[..n][i] == tables[i];
      OutputBlock(tables[..n], dims, cmps, pts, i, d, row, col, p);
    }
    EarlierBlockNotLast(tables, dims, cmps, pts, n, i, d, row, col, p);
    OutputEntryKept(tables, dims, cmps, pts, n, d, row, col, p);
  }

  /** An entry in the row block of an earlier sub-element lies outside the last one's block. */
  lemma {:induction false} EarlierBlockNotLast(tables: seq<Table>, dims: seq<nat>, cmps: seq<nat>, pts: nat,
                                               n: nat, i: nat, d: Key, row: nat, col: nat, p: nat)
    requires n + 1 == |tables| && |tables| <= |dims| && |tables| <= |cmps| && WellShaped(tables, dims, cmps, pts)
    requires i < n && row < Offsets(dims)[i + 1]
    ensures !LastWrites(tables, dims, cmps, n, d, row, col, p)
  {
    if d in tables[n] {
      OffsetsMonotone(dims, i + 1, n);
      assert Shaped(tables[n][d], dims[n], cmps[n], pts);
    }
  }

  /** Outside the blocks of the sub-elements that tabulated d, the array for d is zero. */
  lemma {:induction false} OutputOffBlock(tables: seq<Table>, dims: seq<nat>, cmps: seq<nat>, pts: nat,
                                          d: Key, r: nat, c: nat, p: nat)
    requires |tables| <= |dims| && |tables| <= |cmps| && WellShaped(tables, dims, cmps, pts)
    requires d in Output(tables, dims, cmps, pts) && r < Sum(dims) && c < Sum(cmps) && p < pts
    requires forall i :: 0 <= i < |tables| && d in tables[i] ==>
      !(Offsets(dims)[i] <= r < Offsets(dims)[i + 1] && Offsets(cmps)[i] <= c < Offsets(cmps)[i + 1])
    ensures Shaped(Output(tables, dims, cmps, pts)[d], Sum(dims), Sum(cmps), pts)
    ensures Output(tables, dims, cmps, pts)[d][r][c][p] == 0.0
  {
    var n := |tables| - 1;
    var ir, cr := Offsets(dims), Offsets(cmps);
    var N, C := Sum(dims), Sum(cmps);
    var prev := Output(tables[..n], dims, cmps, pts);
    OutputShaped(tables, dims, cmps, pts, d);
    OutputLast(tables, dims, cmps, pts, n, d);
    var arr := if d in prev then prev[d] else Zeros(N, C, pts);
    assert Shaped(arr, N, C, pts) && arr[r][c][p] == 0.0 by {
      if d in prev {
        WellShapedPrefix(tables, dims, cmps, pts, n);
        PrefixOffBlock(tables, dims, cmps, d, r, c, n);
        OutputShaped(tables[..n], dims, cmps, pts, d);
        OutputOffBlock(tables[..n], dims, cmps, pts, d, r, c, p);
      }
    }
    if d in tables[n] {
      assert ir[n + 1] == ir[n] + dims[n] && cr[n + 1] == cr[n] + cmps[n];
      SplatOutside(arr, ir[n], cr[n], tables[n][d], dims[n], cmps[n], pts, r, c, p);
    }
  }

  lemma {:induction false} PrefixOffBlock(tables: seq<Table>, dims: seq<nat>, cmps: seq<nat>, d: Key, r: nat, c: nat, n: nat)
    requires n <= |tables| <= |dims| && |tables| <= |cmps|
    requires forall i :: 0 <= i < |tables| && d in tables[i] ==>
      !(Offsets(dims)[i] <= r < Offsets(dims)[i + 1] && Offsets(cmps)[i] <= c < Offsets(cmps)[i + 1])
    ensures forall i :: 0 <= i < n && d in tables[..n][i] ==>
      !(Offsets(dims)[i] <= r < Offsets(dims)[i + 1] && Offsets(cmps)[i] <= c < Offsets(cmps)[i + 1])
  {
    forall i | 0 <= i < n && d in tables[..n][i]
      ensures !(Offsets(dims)[i] <= r < Offsets(dims)[i + 1] && Offsets(cmps)[i] <= c < Offsets(cmps)[i + 1])
    {
      assert tables[..n][i] == tables[i];
    }
  }

  /**
   * tabulate(order, points, entity), given tables[i], what sub-element i tabulates for the
   * same arguments, shaped (its space dimension, its value components, points).
   */
  method Tabulate(m: MixedElement, points: seq<Point>, tables: seq<Table>) returns (output: Table)
    requires MixedOf(m.elements) == Some(m)
    requires forall i :: 0 <= i < |m.elements| ==> Consistent(m.elements[i])
    requires |tables| == |m.elements|
    requires WellShaped(tables, SubDimensions(m.elements), SubComponents(m.elements), |points|)
    ensures |m.nodes| == Sum(SubDimensions(m.elements)) && ValueShape(m) == [Sum(SubComponents(m.elements))]
    ensures output == Output(tables, SubDimensions(m.elements), SubComponents(m.elements), |points|)
    ensures forall d :: d in output ==> Shaped(output[d], |m.nodes|, ValueShape(m)[0], |points|)
  {
    var els := m.elements;
    var dims, cmps := SubDimensions(els), SubComponents(els);
    assert |m.nodes| == Sum(dims) && ValueShape(m) == [Sum(cmps)] by {
      MixedNodesLength(els);
    }
    output := TabulateTables(tables, dims, cmps, |points|);
    OutputAllShaped(tables, dims, cmps, |points|);
  }

  /**
   * The loop of tabulate over the sub-elements: a zero array of the full shape for every key,
   * each sub-element's tables written into its block of dofs and components.
   */
  method TabulateTables(tables: seq<Table>, dims: seq<nat>, cmps: seq<nat>, pts: nat) returns (output: Table)
    requires |tables| <= |dims| && |tables| <= |cmps|
    ensures output == Output(tables, dims, cmps, pts)
  {
    var irange := Offsets(dims);
    var crange := Offsets(cmps);
    var zero := Zeros(Sum(dims), Sum(cmps), pts);
    output := map[];
    for i: nat := 0 to |tables|
      invariant output == MixedTable(tables[..i], irange, crange, zero)
    {
      MixedTableStep(tables, i, irange, crange, zero);
      output := SplatTables(output, tables[i], irange[i], crange[i], zero);
    }
    assert tables[..|tables|] == tables;
  }

  lemma {:induction false} OutputAllShaped(tables: seq<Table>, dims: seq<nat>, cmps: seq<nat>, pts: nat)
    requires |tables| <= |dims| && |tables| <= |cmps|
    ensures forall d :: d in Output(tables, dims, cmps, pts) ==> Shaped(Output(tables, dims, cmps, pts)[d], Sum(dims), Sum(cmps), pts)
  {
    forall d | d in Output(tables, dims, cmps, pts)
      ensures Shaped(Output(tables, dims, cmps, pts)[d], Sum(dims), Sum(cmps), pts)
    {
      OutputShaped(tables, dims, cmps, pts, d);
    }
  }
}
