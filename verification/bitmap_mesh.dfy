/**
 * The triangle indices drawBitmapMesh builds for a regular grid of
 * (meshWidth + 1) x (meshHeight + 1) points, numbered row by row. Each cell
 * is split into two triangles; the indices go into a 16-bit buffer.
 */
module BitmapMesh {
  import opened Basics

  newtype uint16 = x: int | 0 <= x < 0x1_0000

  /** ptCount: the number of grid points. */
  function PointCount(meshWidth: nat, meshHeight: nat): nat {
    (meshWidth + 1) * (meshHeight + 1)
  }

  /** indexCount: six indices per cell. */
  function IndexCount(meshWidth: nat, meshHeight: nat): nat {
    meshWidth * meshHeight * 6
  }

  /** The number of cells in the first `rows` rows, counted row by row. */
  function Cells(w: nat, rows: nat): nat {
    if rows == 0 then 0 else Cells(w, rows - 1) + w
  }

  /** The number of the first point of row `r`: each row has `w + 1` points. */
  function FirstPoint(w: nat, r: nat): nat {
    if r == 0 then 0 else FirstPoint(w, r - 1) + w + 1
  }

  /**
   * The lower-left and the upper-right triangle of the cell whose first
   * point is `k`, in a grid `w` cells wide.
   */
  function CellIndices(w: nat, k: nat): seq<int> {
    [k, k + w + 1, k + w + 2, k, k + w + 2, k + 1]
  }

  /** The indices of the first `c` cells of row `r`. */
  function RowIndices(w: nat, r: nat, c: nat): (s: seq<int>)
    ensures |s| == 6 * c
  {
    if c == 0 then [] else RowIndices(w, r, c - 1) + CellIndices(w, FirstPoint(w, r) + c - 1)
  }

  /** The indices of the first `rows` rows of a grid `w` cells wide. */
  function MeshIndices(w: nat, rows: nat): (s: seq<int>)
    ensures |s| == 6 * Cells(w, rows)
  {
    if rows == 0 then [] else MeshIndices(w, rows - 1) + RowIndices(w, rows - 1, w)
  }

  // ---------------------------------------------------------------------------
  // Counting
  // ---------------------------------------------------------------------------

  /** The counts in closed form. */
  lemma {:induction false} ClosedForms(w: nat, r: nat)
    ensures Cells(w, r) == r * w && FirstPoint(w, r) == r * (w + 1)
  {
    if r > 0 {
      ClosedForms(w, r - 1);
      assert r * w == (r - 1) * w + w;
      assert r * (w + 1) == (r - 1) * (w + 1) + w + 1;
    }
  }

  /** The row-by-row counts agree with the products the drawing code computes. */
  lemma CountsAreProducts(w: nat, h: nat)
    ensures 6 * Cells(w, h) == IndexCount(w, h)
    ensures FirstPoint(w, h) + w + 1 == PointCount(w, h)
  {
    ClosedForms(w, h);
  }

  /** The mesh has exactly meshWidth * meshHeight * 6 indices. */
  lemma MeshIndicesLength(w: nat, h: nat)
    ensures |MeshIndices(w, h)| == IndexCount(w, h)
  {
    CountsAreProducts(w, h);
  }

  lemma {:induction false} CountsMonotone(w: nat, a: nat, b: nat)
    requires a <= b
    ensures Cells(w, a) <= Cells(w, b) && FirstPoint(w, a) <= FirstPoint(w, b)
    decreases b
  {
    if a < b {
      CountsMonotone(w, a, b - 1);
    }
  }

  // ---------------------------------------------------------------------------
  // Where each cell's indices are, and what they are
  // ---------------------------------------------------------------------------

  /** Every index of the first `c` cells of row `r` is a point of rows `r` and `r + 1`. */
  lemma {:induction false} RowIndicesBounds(w: nat, r: nat, c: nat)
    requires c <= w
    ensures forall t :: 0 <= t < |RowIndices(w, r, c)| ==>
              FirstPoint(w, r) <= RowIndices(w, r, c)[t] < FirstPoint(w, r) + 2 * (w + 1)
  {
    if c > 0 {
      RowIndicesBounds(w, r, c - 1);
    }
  }

  /** Every index of the first `h` rows names one of their points or the points of the row after them. */
  lemma {:induction false} MeshIndicesBelow(w: nat, h: nat)
    ensures forall t :: 0 <= t < |MeshIndices(w, h)| ==> 0 <= MeshIndices(w, h)[t] < FirstPoint(w, h) + w + 1
  {
    if h > 0 {
      var s, prev, row := MeshIndices(w, h), MeshIndices(w, h - 1), RowIndices(w, h - 1, w);
      MeshIndicesBelow(w, h - 1);
      RowIndicesBounds(w, h - 1, w);
      assert s == prev + row;
      forall t | 0 <= t < |s|
        ensures 0 <= s[t] < FirstPoint(w, h) + w + 1
      {
        if t < |prev| {
          assert s[t] == prev[t];
        } else {
          assert s[t] == row[t - |prev|];
        }
      }
    }
  }

  /** Every index names one of the grid's points. */
  lemma MeshIndicesInRange(w: nat, h: nat)
    ensures forall t :: 0 <= t < |MeshIndices(w, h)| ==> 0 <= MeshIndices(w, h)[t] < PointCount(w, h)
  {
    MeshIndicesBelow(w, h);
    CountsAreProducts(w, h);
  }

  /** Cell `c` of a row, in the row's first `d` cells, is at position 6 * c. */
  lemma {:induction false} CellInRow(w: nat, r: nat, c: nat, d: nat, k: nat)
    requires c < d && k < 6
    ensures RowIndices(w, r, d)[6 * c + k] == CellIndices(w, FirstPoint(w, r) + c)[k]
    decreases d
  {
    if c + 1 < d {
      CellInRow(w, r, c, d - 1, k);
    }
  }

  /** Row `r`, in the grid's first `h` rows, starts at position 6 * Cells(w, r). */
  lemma {:induction false} RowInMesh(w: nat, r: nat, h: nat, t: nat)
    requires r < h && t < 6 * w
    ensures 6 * Cells(w, r) + t < |MeshIndices(w, h)|
    ensures MeshIndices(w, h)[6 * Cells(w, r) + t] == RowIndices(w, r, w)[t]
    decreases h
  {
    if r + 1 < h {
      RowInMesh(w, r, h - 1, t);
      CountsMonotone(w, r + 1, h - 1);
    }
  }

  /**
   * The cell in row `r` and column `c` gets the six indices from position
   * 6 * (r * w + c) on: with `k` = r * (w + 1) + c its first point, the
   * triangles k, k + w + 1, k + w + 2 and k, k + w + 2, k + 1. Stated for
   * the cell's index number `t`, 0 to 5.
   */
  lemma MeshIndicesCell(w: nat, h: nat, r: nat, c: nat, t: nat)
    requires r < h && c < w && t < 6
    ensures 6 * (r * w + c) + t < |MeshIndices(w, h)|
    ensures MeshIndices(w, h)[6 * (r * w + c) + t] == CellIndices(w, r * (w + 1) + c)[t]
  {
    ClosedForms(w, r);
    RowInMesh(w, r, h, 6 * c + t);
    CellInRow(w, r, c, w, t);
  }

  /** The cell in row `i`, column `j` fits in the buffer, and its largest index in 16 bits. */
  lemma CellFits(w: nat, h: nat, i: nat, j: nat)
    requires i < h && j < w
    ensures FirstPoint(w, i) + j + w + 2 < PointCount(w, h)
    ensures 6 * Cells(w, i) + 6 * j + 6 <= 6 * Cells(w, h)
  {
    CountsMonotone(w, i + 1, h);
    CountsAreProducts(w, h);
  }

  // ---------------------------------------------------------------------------
  // The loops
  // ---------------------------------------------------------------------------

  /**
   * The six stores of one cell, each followed by a bump of the write
   * position: when the buffer holds `done` below `at`, it holds `done`
   * followed by the indices of the cell whose first point is `k` below
   * `at + 6`.
   */
  method WriteCell(indices: array<uint16>, at: nat, w: nat, k: nat, ghost done: seq<int>)
    requires at + 6 <= indices.Length && k + w + 2 < 0x1_0000 && |done| == at
    requires forall t :: 0 <= t < at ==> indices[t] as int == done[t]
    modifies indices
    ensures forall t :: 0 <= t < at + 6 ==> indices[t] as int == (done + CellIndices(w, k))[t]
  {
    var indexPtr := at;
    // first triangle: k, k + w + 1, k + w + 2
    indices[indexPtr] := k as uint16;
    indexPtr := indexPtr + 1;
    indices[indexPtr] := (k + w + 1) as uint16;
    indexPtr := indexPtr + 1;
    indices[indexPtr] := (k + w + 2) as uint16;
    indexPtr := indexPtr + 1;
    // second triangle: k, k + w + 2, k + 1
    indices[indexPtr] := k as uint16;
    indexPtr := indexPtr + 1;
    indices[indexPtr] := (k + w + 2) as uint16;
    indexPtr := indexPtr + 1;
    indices[indexPtr] := (k + 1) as uint16;
  }

  /**
   * The index loops of drawBitmapMesh: two triangles per cell, row by row,
   * with a running index that skips the last point of each row. The buffer
   * ends up holding exactly the mesh's indices, every one a grid point.
   */
  method FillMeshIndices(indices: array<uint16>, meshWidth: nat, meshHeight: nat)
    requires indices.Length == IndexCount(meshWidth, meshHeight)
    requires PointCount(meshWidth, meshHeight) <= 0x1_0000
    modifies indices
    ensures |MeshIndices(meshWidth, meshHeight)| == indices.Length
    ensures forall t :: 0 <= t < indices.Length ==> indices[t] as int == MeshIndices(meshWidth, meshHeight)[t]
    ensures forall t :: 0 <= t < indices.Length ==> indices[t] as int < PointCount(meshWidth, meshHeight)
  {
    var w := meshWidth;
    MeshIndicesLength(w, meshHeight);
    var indexPtr := 0;
    var index := 0;
    for i := 0 to meshHeight
      invariant indexPtr == 6 * Cells(w, i) <= indices.Length
      invariant index == FirstPoint(w, i)
      invariant forall t :: 0 <= t < indexPtr ==> indices[t] as int == MeshIndices(w, i)[t]
    {
      indexPtr, index := FillRow(indices, w, meshHeight, i, indexPtr, index);
      // skip the row's last point: no cell starts there
      index := index + 1;
    }
    MeshIndicesInRange(meshWidth, meshHeight);
  }

  /**
   * The inner loop of drawBitmapMesh for row `i`: fills the row's cells from
   * `start` on, starting the running index at `first`, the row's first point.
   */
  method FillRow(indices: array<uint16>, w: nat, h: nat, i: nat, start: nat, first: nat) returns (indexPtr: nat, index: nat)
    requires indices.Length == 6 * Cells(w, h) && PointCount(w, h) <= 0x1_0000 && i < h
    requires start == 6 * Cells(w, i) <= indices.Length && first == FirstPoint(w, i)
    requires forall t :: 0 <= t < start ==> indices[t] as int == MeshIndices(w, i)[t]
    modifies indices
    ensures indexPtr == 6 * Cells(w, i + 1) <= indices.Length && index == first + w
    ensures forall t :: 0 <= t < indexPtr ==> indices[t] as int == MeshIndices(w, i + 1)[t]
  {
    CountsMonotone(w, i + 1, h);
    indexPtr, index := start, first;
    ghost var done := MeshIndices(w, i);
    for j := 0 to w
      invariant indexPtr == start + 6 * j == |done|
      invariant index == first + j
      invariant done == MeshIndices(w, i) + RowIndices(w, i, j)
      invariant forall t :: 0 <= t < indexPtr ==> indices[t] as int == done[t]
    {
      CellFits(w, h, i, j);
      WriteCell(indices, indexPtr, w, index, done);
      done := done + CellIndices(w, index);
      indexPtr := indexPtr + 6;
      // the next cell starts at the next point
      index := index + 1;
    }
  }

  /**
   * The debug check that follows the loops: every index, read as unsigned,
   * is below `ptCount` read as unsigned. A negative count reads as at least
   * 2^31, above every 16-bit index.
   */
  method IndicesInRange(indices: array<uint16>, ptCount: int32) returns (ok: bool)
    ensures ok <==> forall t :: 0 <= t < indices.Length ==> (indices[t] as int) < AsUnsigned(ptCount)
    ensures ptCount < 0 ==> ok
  {
    for i := 0 to indices.Length
      invariant forall t :: 0 <= t < i ==> (indices[t] as int) < AsUnsigned(ptCount)
    {
      if indices[i] as int >= AsUnsigned(ptCount) {
        return false;
      }
    }
    return true;
  }
}
