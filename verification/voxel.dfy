/**
 * conformalVoxel.cs: the point grid between a top and a bottom surface, and
 * the cuboids (`GenerateConformalVoxels`) given as six quadrilateral faces of
 * point indices.
 *
 * Surface evaluation and blending are floating point and are not modelled:
 * a grid entry is the `Sample` it stands for, named by its column (u, v) and
 * its layer within the column (0 on the top surface, then the blended
 * points, the bottom surface last).
 */
module Voxel {
  import opened Sequences

  /** The grid point of column (u, v) at `layer` from the top. */
  datatype Sample = Sample(u: nat, v: nat, layer: nat)

  /** The `GH_Path(w, v, u)` of one cuboid. */
  datatype Cell = Cell(w: nat, v: nat, u: nat)

  /** One branch of the data tree: a path and its integers. */
  datatype Branch = Branch(path: Cell, items: seq<int>)

  // ---------------------------------------------------------------------
  // Index arithmetic
  // ---------------------------------------------------------------------

  /**
   * `a * b` as `a` copies of `b`. Index arithmetic goes through this
   * function so that the prover is never left with products of unknowns;
   * `MulIsProduct` ties it to `*`.
   */
  function Mul(a: nat, b: nat): nat {
    if a == 0 then 0 else Mul(a - 1, b) + b
  }

  lemma {:induction false} MulIsProduct(a: nat, b: nat)
    ensures Mul(a, b) == a * b
  {
    if a > 0 {
      MulIsProduct(a - 1, b);
    }
  }

  lemma {:induction false} MulMono(p: nat, q: nat, m: nat)
    requires p <= q
    ensures Mul(p, m) <= Mul(q, m)
    decreases q
  {
    if p < q {
      MulMono(p, q - 1, m);
    }
  }

  /** The place of (x, y, z) in a block of `b` by `a` entries per z laid out with x fastest: z b a + y a + x. */
  function Lattice(b: nat, a: nat, z: nat, y: nat, x: nat): nat {
    Mul(z, Mul(b, a)) + Mul(y, a) + x
  }

  /** Inside a block of `c` by `b` by `a` entries, every place is in range. */
  lemma LatticeBounds(c: nat, b: nat, a: nat, z: nat, y: nat, x: nat)
    requires z < c && y < b && x < a
    ensures Mul(y, a) + x < Mul(b, a)
    ensures Lattice(b, a, z, y, x) < Mul(c, Mul(b, a))
  {
    assert Mul(y + 1, a) == Mul(y, a) + a;
    MulMono(y + 1, b, a);
    assert Mul(z + 1, Mul(b, a)) == Mul(z, Mul(b, a)) + Mul(b, a);
    MulMono(z + 1, c, Mul(b, a));
  }

  // ---------------------------------------------------------------------
  // The point grid (SolveInstance, the u / v / blend loops)
  // ---------------------------------------------------------------------

  /** Points per column: the top, `wDivisions - 1` blended points, the bottom. */
  function Height(wDivisions: int): (h: nat)
    ensures h >= 2
  {
    if wDivisions >= 1 then wDivisions + 1 else 2
  }

  /** One column: the top point, the blended points for i = 1 .. wDivisions - 1, the bottom point. */
  function Column(u: nat, v: nat, wDivisions: int): (col: seq<Sample>)
    ensures |col| == Height(wDivisions)
    ensures forall l :: 0 <= l < |col| ==> col[l] == Sample(u, v, l)
  {
    var blends := seq(if wDivisions > 1 then wDivisions - 1 else 0, i requires i >= 0 => Sample(u, v, i + 1));
    [Sample(u, v, 0)] + blends + [Sample(u, v, Height(wDivisions) - 1)]
  }

  /** The inner `v` loop for one `u`, over its first `n` columns. */
  function Columns(u: nat, wDivisions: int, n: nat): (r: seq<Sample>)
    ensures |r| == Mul(n, Height(wDivisions))
  {
    if n == 0 then [] else Columns(u, wDivisions, n - 1) + Column(u, n - 1, wDivisions)
  }

  /** Column `v` of the row for `u` starts at v * Height. */
  lemma {:induction false} ColumnsAt(u: nat, wDivisions: int, n: nat, v: nat, layer: nat)
    requires v < n && layer < Height(wDivisions)
    ensures Mul(v, Height(wDivisions)) + layer < |Columns(u, wDivisions, n)|
    ensures Columns(u, wDivisions, n)[Mul(v, Height(wDivisions)) + layer] == Sample(u, v, layer)
  {
    if v < n - 1 {
      ColumnsAt(u, wDivisions, n - 1, v, layer);
    }
  }

  /** The outer `u` loop over its first `m` rows, each of `n` columns. */
  function Rows(n: nat, wDivisions: int, m: nat): (r: seq<Sample>)
    ensures |r| == Mul(m, Mul(n, Height(wDivisions)))
  {
    if m == 0 then [] else Rows(n, wDivisions, m - 1) + Columns(m - 1, wDivisions, n)
  }

  /** Row `u` starts at u * n * Height. */
  lemma {:induction false} RowsAt(n: nat, wDivisions: int, m: nat, u: nat, x: nat)
    requires u < m && x < Mul(n, Height(wDivisions))
    ensures Mul(u, Mul(n, Height(wDivisions))) + x < |Rows(n, wDivisions, m)|
    ensures Rows(n, wDivisions, m)[Mul(u, Mul(n, Height(wDivisions))) + x] == Columns(u, wDivisions, n)[x]
  {
    var size := Mul(n, Height(wDivisions));
    var prefix := Rows(n, wDivisions, m - 1);
    var row := Columns(m - 1, wDivisions, n);
    assert Rows(n, wDivisions, m) == prefix + row;
    if u < m - 1 {
      RowsAt(n, wDivisions, m - 1, u, x);
      assert (prefix + row)[Mul(u, size) + x] == prefix[Mul(u, size) + x];
    } else {
      assert (prefix + row)[|prefix| + x] == row[x];
    }
  }

  /**
   * The point grid for `uDivisions` by `vDivisions` by `wDivisions`: columns
   * with u outermost, then v, each column listed top to bottom.
   */
  function PointGrid(uDivisions: int, vDivisions: int, wDivisions: int): (g: seq<Sample>)
    ensures uDivisions < 0 || vDivisions < 0 ==> g == []
    ensures uDivisions >= 0 && vDivisions >= 0 ==>
      |g| == Mul(uDivisions + 1, Mul(vDivisions + 1, Height(wDivisions)))
  {
    if uDivisions < 0 || vDivisions < 0 then []
    else Rows(vDivisions + 1, wDivisions, uDivisions + 1)
  }

  /** The grid holds (U + 1)(V + 1) columns of `Height(W)` points each. */
  lemma GridLength(uDivisions: nat, vDivisions: nat, wDivisions: int)
    ensures |PointGrid(uDivisions, vDivisions, wDivisions)| == (uDivisions + 1) * ((vDivisions + 1) * Height(wDivisions))
  {
    MulIsProduct(vDivisions + 1, Height(wDivisions));
    MulIsProduct(uDivisions + 1, Mul(vDivisions + 1, Height(wDivisions)));
  }

  /** Where the grid keeps sample (u, v, layer). */
  function GridIndex(vDivisions: nat, wDivisions: int, u: nat, v: nat, layer: nat): nat {
    Lattice(vDivisions + 1, Height(wDivisions), u, v, layer)
  }

  /** Every sample of the grid sits at its `GridIndex`. */
  lemma GridHolds(uDivisions: nat, vDivisions: nat, wDivisions: int, u: nat, v: nat, layer: nat)
    requires u <= uDivisions && v <= vDivisions && layer < Height(wDivisions)
    ensures GridIndex(vDivisions, wDivisions, u, v, layer) < |PointGrid(uDivisions, vDivisions, wDivisions)|
    ensures PointGrid(uDivisions, vDivisions, wDivisions)[GridIndex(vDivisions, wDivisions, u, v, layer)] == Sample(u, v, layer)
  {
    RowsHold(vDivisions + 1, wDivisions, uDivisions + 1, u, v, layer);
  }

  /** `GridHolds` for `m` rows of `n` columns. */
  lemma RowsHold(n: nat, wDivisions: int, m: nat, u: nat, v: nat, layer: nat)
    requires u < m && v < n && layer < Height(wDivisions)
    ensures Lattice(n, Height(wDivisions), u, v, layer) < |Rows(n, wDivisions, m)|
    ensures Rows(n, wDivisions, m)[Lattice(n, Height(wDivisions), u, v, layer)] == Sample(u, v, layer)
  {
    var h := Height(wDivisions);
    LatticeBounds(1, n, h, 0, v, layer);
    RowsAt(n, wDivisions, m, u, Mul(v, h) + layer);
    ColumnsAt(u, wDivisions, n, v, layer);
  }

  // ---------------------------------------------------------------------
  // Cuboids (GenerateConformalVoxels)
  // ---------------------------------------------------------------------

  /** Which corner is one step along u, v and w from p0, in the order p0 .. p7. */
  const CornerU: seq<nat> := [0, 1, 0, 1, 0, 1, 0, 1]
  const CornerV: seq<nat> := [0, 0, 1, 1, 0, 0, 1, 1]
  const CornerW: seq<nat> := [0, 0, 0, 0, 1, 1, 1, 1]

  /** The six faces by corner number: right, left, bottom, top, front, back. */
  const FaceCorners: seq<seq<nat>> := [[0, 1, 3, 2], [4, 5, 7, 6], [0, 4, 6, 2], [1, 5, 7, 3], [0, 1, 5, 4], [2, 3, 7, 6]]

  /** Corners `j` and `k` are joined by an edge of the cube: they differ along exactly one axis. */
  predicate CubeEdge(j: nat, k: nat)
    requires j < 8 && k < 8
  {
    (if CornerU[j] == CornerU[k] then 0 else 1)
    + (if CornerV[j] == CornerV[k] then 0 else 1)
    + (if CornerW[j] == CornerW[k] then 0 else 1) == 1
  }

  /** A face of the cube: four corners, each joined to the next (and the last to the first) by a cube edge. */
  predicate Square(face: seq<nat>) {
    && |face| == 4 && face[0] < 8 && face[1] < 8 && face[2] < 8 && face[3] < 8
    && CubeEdge(face[0], face[1]) && CubeEdge(face[1], face[2])
    && CubeEdge(face[2], face[3]) && CubeEdge(face[3], face[0])
  }

  /** Every one of the six faces runs round a square of the cube. */
  lemma FacesAreSquares()
    ensures forall f :: 0 <= f < |FaceCorners| ==> Square(FaceCorners[f])
  {
    assert Square(FaceCorners[0]) && Square(FaceCorners[1]) && Square(FaceCorners[2]);
    assert Square(FaceCorners[3]) && Square(FaceCorners[4]) && Square(FaceCorners[5]);
  }

  /** The 24 integers of one cuboid: its six faces in order, each as four corner indices. */
  function Faces(p: seq<int>): (items: seq<int>)
    requires |p| == 8
    ensures |items| == 24
    ensures forall f, i :: 0 <= f < 6 && 0 <= i < 4 ==> FaceCorners[f][i] < 8 && items[4 * f + i] == p[FaceCorners[f][i]]
  {
    [p[0], p[1], p[3], p[2]] + [p[4], p[5], p[7], p[6]] + [p[0], p[4], p[6], p[2]]
    + [p[1], p[5], p[7], p[3]] + [p[0], p[1], p[5], p[4]] + [p[2], p[3], p[7], p[6]]
  }

  /** How the corner indices of a cell are computed. */
  datatype Layout =
    | AsWritten   // p0 = w (U+1)(V+1) + v (U+1) + u, then the offsets of p1 .. p7
    | GridCells   // each corner at the grid index of its own sample

  /** p0 .. p7 of the cell as `GenerateConformalVoxels` computes them. */
  function CornersAsWritten(uDivisions: nat, vDivisions: nat, c: Cell): (p: seq<int>)
    ensures |p| == 8
  {
    var p0 := Mul(Mul(c.w, uDivisions + 1), vDivisions + 1) + Mul(c.v, uDivisions + 1) + c.u;
    var p1 := p0 + 1;
    var p2 := p0 + (uDivisions + 1);
    var p3 := p2 + 1;
    var p4 := p0 + Mul(uDivisions + 1, vDivisions + 1);
    var p5 := p4 + 1;
    var p6 := p4 + (uDivisions + 1);
    var p7 := p6 + 1;
    [p0, p1, p2, p3, p4, p5, p6, p7]
  }

  /** p0 .. p7 as the grid lays its samples out: corner k is sample (u, v, w) plus its offsets. */
  function CellCorners(vDivisions: nat, wDivisions: int, c: Cell): (p: seq<int>)
    ensures |p| == 8
    ensures forall k :: 0 <= k < 8 ==>
      p[k] == GridIndex(vDivisions, wDivisions, c.u + CornerU[k], c.v + CornerV[k], c.w + CornerW[k])
  {
    seq(8, k requires 0 <= k < 8 => GridIndex(vDivisions, wDivisions, c.u + CornerU[k], c.v + CornerV[k], c.w + CornerW[k]))
  }

  function Corners(layout: Layout, uDivisions: nat, vDivisions: nat, wDivisions: int, c: Cell): (p: seq<int>)
    ensures |p| == 8
  {
    match layout
    case AsWritten => CornersAsWritten(uDivisions, vDivisions, c)
    case GridCells => CellCorners(vDivisions, wDivisions, c)
  }

  /** The branch the data tree gets for cell `c`: its path and its 24 face indices. */
  function BranchFor(layout: Layout, uDivisions: nat, vDivisions: nat, wDivisions: int, c: Cell): Branch {
    Branch(c, Faces(Corners(layout, uDivisions, vDivisions, wDivisions, c)))
  }

  // The three nested loops visit the cells w outermost, then v, then u.

  /** The innermost `u` loop over its first `n` cells. */
  function CellRow(w: nat, v: nat, n: nat): (r: seq<Cell>)
    ensures |r| == n
    ensures forall u :: 0 <= u < n ==> r[u] == Cell(w, v, u)
  {
    if n == 0 then [] else CellRow(w, v, n - 1) + [Cell(w, v, n - 1)]
  }

  /** The `v` loop for one `w`, over its first `m` rows of cells. */
  function CellLayer(uDivisions: nat, w: nat, m: nat): (r: seq<Cell>)
    ensures |r| == Mul(m, uDivisions)
  {
    if m == 0 then [] else CellLayer(uDivisions, w, m - 1) + CellRow(w, m - 1, uDivisions)
  }

  /** Row `v` of layer `w` starts at v * uDivisions. */
  lemma {:induction false} CellLayerAt(uDivisions: nat, w: nat, m: nat, v: nat, u: nat)
    requires v < m && u < uDivisions
    ensures Mul(v, uDivisions) + u < |CellLayer(uDivisions, w, m)|
    ensures CellLayer(uDivisions, w, m)[Mul(v, uDivisions) + u] == Cell(w, v, u)
  {
    var prefix := CellLayer(uDivisions, w, m - 1);
    var row := CellRow(w, m - 1, uDivisions);
    assert CellLayer(uDivisions, w, m) == prefix + row;
    if v < m - 1 {
      CellLayerAt(uDivisions, w, m - 1, v, u);
      assert (prefix + row)[Mul(v, uDivisions) + u] == prefix[Mul(v, uDivisions) + u];
    } else {
      assert (prefix + row)[|prefix| + u] == row[u];
    }
  }

  /** The outer `w` loop over its first `k` layers of cells. */
  function CellOrder(uDivisions: nat, vDivisions: nat, k: nat): (r: seq<Cell>)
    ensures |r| == Mul(k, Mul(vDivisions, uDivisions))
  {
    if k == 0 then [] else CellOrder(uDivisions, vDivisions, k - 1) + CellLayer(uDivisions, k - 1, vDivisions)
  }

  /** Layer `w` starts at w * vDivisions * uDivisions. */
  lemma {:induction false} CellOrderAt(uDivisions: nat, vDivisions: nat, k: nat, w: nat, x: nat)
    requires w < k && x < Mul(vDivisions, uDivisions)
    ensures Mul(w, Mul(vDivisions, uDivisions)) + x < |CellOrder(uDivisions, vDivisions, k)|
    ensures CellOrder(uDivisions, vDivisions, k)[Mul(w, Mul(vDivisions, uDivisions)) + x] == CellLayer(uDivisions, w, vDivisions)[x]
  {
    var size := Mul(vDivisions, uDivisions);
    var prefix := CellOrder(uDivisions, vDivisions, k - 1);
    var layer := CellLayer(uDivisions, k - 1, vDivisions);
    assert CellOrder(uDivisions, vDivisions, k) == prefix + layer;
    if w < k - 1 {
      CellOrderAt(uDivisions, vDivisions, k - 1, w, x);
      assert (prefix + layer)[Mul(w, size) + x] == prefix[Mul(w, size) + x];
    } else {
      assert (prefix + layer)[|prefix| + x] == layer[x];
    }
  }

  /** Cell (w, v, u) is visited at step w V U + v U + u. */
  lemma CellVisited(uDivisions: nat, vDivisions: nat, wDivisions: nat, w: nat, v: nat, u: nat)
    requires w < wDivisions && v < vDivisions && u < uDivisions
    ensures var at := Lattice(vDivisions, uDivisions, w, v, u);
      at < |CellOrder(uDivisions, vDivisions, wDivisions)| && CellOrder(uDivisions, vDivisions, wDivisions)[at] == Cell(w, v, u)
  {
    var x := Mul(v, uDivisions) + u;
    LatticeBounds(1, vDivisions, uDivisions, 0, v, u);
    CellOrderAt(uDivisions, vDivisions, wDivisions, w, x);
    CellLayerAt(uDivisions, w, vDivisions, v, u);
  }

  /**
   * `GenerateConformalVoxels`: one branch per cell, w outermost and u
   * innermost; no branch at all when a division count is not positive.
   */
  function GenerateConformalVoxels(layout: Layout, uDivisions: int, vDivisions: int, wDivisions: int): (tree: seq<Branch>)
    ensures uDivisions <= 0 || vDivisions <= 0 || wDivisions <= 0 ==> tree == []
    ensures uDivisions > 0 && vDivisions > 0 && wDivisions > 0 ==> |tree| == wDivisions * (vDivisions * uDivisions)
    ensures forall w, v, u :: 0 <= w < wDivisions && 0 <= v < vDivisions && 0 <= u < uDivisions ==>
      var i := Lattice(vDivisions, uDivisions, w, v, u);
      i < |tree| && tree[i] == BranchFor(layout, uDivisions, vDivisions, wDivisions, Cell(w, v, u))
    ensures forall i :: 0 <= i < |tree| ==> |tree[i].items| == 24
  {
    if uDivisions <= 0 || vDivisions <= 0 || wDivisions <= 0 then []
    else
      var cells := CellOrder(uDivisions, vDivisions, wDivisions);
      MulIsProduct(vDivisions, uDivisions);
      MulIsProduct(wDivisions, Mul(vDivisions, uDivisions));
      forall w, v, u | 0 <= w < wDivisions && 0 <= v < vDivisions && 0 <= u < uDivisions
        ensures var i := Lattice(vDivisions, uDivisions, w, v, u); i < |cells| && cells[i] == Cell(w, v, u)
      {
        CellVisited(uDivisions, vDivisions, wDivisions, w, v, u);
      }
      seq(|cells|, i requires 0 <= i < |cells| => BranchFor(layout, uDivisions, vDivisions, wDivisions, cells[i]))
  }

  // ---------------------------------------------------------------------
  // Where the corners of a cell point into the grid
  // ---------------------------------------------------------------------

  /**
   * The corners as written are laid out w outermost, then v, with u
   * fastest, in blocks of `uDivisions + 1` by `vDivisions + 1`.
   */
  lemma AsWrittenLattice(uDivisions: nat, vDivisions: nat, c: Cell, k: nat)
    requires k < 8
    ensures CornersAsWritten(uDivisions, vDivisions, c)[k]
         == Lattice(vDivisions + 1, uDivisions + 1, c.w + CornerW[k], c.v + CornerV[k], c.u + CornerU[k])
  {
    var x := uDivisions + 1;
    var y := vDivisions + 1;
    MulAssoc(c.w, x, y);
    MulComm(x, y);
    assert Mul(c.w + 1, Mul(y, x)) == Mul(c.w, Mul(y, x)) + Mul(y, x);
    assert Mul(c.v + 1, x) == Mul(c.v, x) + x;
  }

  lemma MulComm(x: nat, y: nat)
    ensures Mul(x, y) == Mul(y, x)
  {
    MulIsProduct(x, y);
    MulIsProduct(y, x);
  }

  /** `w * x * y`, evaluated left to right, is w blocks of y * x. */
  lemma MulAssoc(w: nat, x: nat, y: nat)
    ensures Mul(Mul(w, x), y) == Mul(w, Mul(y, x))
  {
    MulIsProduct(w, x);
    MulIsProduct(Mul(w, x), y);
    MulIsProduct(y, x);
    MulIsProduct(w, Mul(y, x));
    Assoc3(w, x, y);
  }

  lemma Assoc3(w: int, x: int, y: int)
    ensures (w * x) * y == w * (y * x)
  {
    assert y * x == x * y;
  }

  /**
   * When there are as many u as w divisions, corner k of a cell as written
   * names the grid sample with u and w exchanged: the grid runs u outermost
   * and layers fastest, the corners w outermost and u fastest.
   */
  lemma AsWrittenTransposed(uDivisions: nat, vDivisions: nat, wDivisions: nat, c: Cell, k: nat)
    requires uDivisions == wDivisions
    requires c.u < uDivisions && c.v < vDivisions && c.w < wDivisions && k < 8
    ensures var at := CornersAsWritten(uDivisions, vDivisions, c)[k];
      0 <= at < |PointGrid(uDivisions, vDivisions, wDivisions)|
      && PointGrid(uDivisions, vDivisions, wDivisions)[at] == Sample(c.w + CornerW[k], c.v + CornerV[k], c.u + CornerU[k])
  {
    AsWrittenLattice(uDivisions, vDivisions, c, k);
    GridHolds(uDivisions, vDivisions, wDivisions, c.w + CornerW[k], c.v + CornerV[k], c.u + CornerU[k]);
  }

  /**
   * Whenever cell (w, v, u) = (0, 0, 1) exists (two or more u divisions, one
   * or more v and w divisions), its corner p0 as written is point 1, the
   * second point of column (0, 0). The cell's own corner p0 is the top point
   * of column (1, 0), which the grid keeps at (V + 1)(W + 1): point 4 when
   * U = 2 and V = W = 1.
   */
  lemma CornersAsWrittenMisplaced(uDivisions: nat, vDivisions: nat, wDivisions: nat)
    requires uDivisions >= 2 && vDivisions >= 1 && wDivisions >= 1
    ensures CornersAsWritten(uDivisions, vDivisions, Cell(0, 0, 1))[0] == 1
    ensures PointGrid(uDivisions, vDivisions, wDivisions)[1] == Sample(0, 0, 1)
    ensures var own := CellCorners(vDivisions, wDivisions, Cell(0, 0, 1))[0];
      own == Mul(vDivisions + 1, wDivisions + 1) && own != 1
      && 0 <= own < |PointGrid(uDivisions, vDivisions, wDivisions)|
      && PointGrid(uDivisions, vDivisions, wDivisions)[own] == Sample(1, 0, 0)
  {
    AsWrittenLattice(uDivisions, vDivisions, Cell(0, 0, 1), 0);
    GridHolds(uDivisions, vDivisions, wDivisions, 0, 0, 1);
    GridHolds(uDivisions, vDivisions, wDivisions, 1, 0, 0);
    assert Mul(vDivisions + 1, wDivisions + 1) == Mul(vDivisions, wDivisions + 1) + wDivisions + 1;
  }

  /** Each corner of a cell, laid out as the grid is, is the grid sample at that corner. */
  lemma CellCornersAreCellSamples(uDivisions: nat, vDivisions: nat, wDivisions: nat, c: Cell, k: nat)
    requires c.u < uDivisions && c.v < vDivisions && c.w < wDivisions && k < 8
    ensures var at := CellCorners(vDivisions, wDivisions, c)[k];
      0 <= at < |PointGrid(uDivisions, vDivisions, wDivisions)|
      && PointGrid(uDivisions, vDivisions, wDivisions)[at] == Sample(c.u + CornerU[k], c.v + CornerV[k], c.w + CornerW[k])
  {
    GridHolds(uDivisions, vDivisions, wDivisions, c.u + CornerU[k], c.v + CornerV[k], c.w + CornerW[k]);
  }

  /**
   * In the corrected tree every face lists grid points of its own cell:
   * entry i of face f is the sample at corner `FaceCorners[f][i]`.
   */
  lemma FacesNameCellSamples(uDivisions: nat, vDivisions: nat, wDivisions: nat, c: Cell, f: nat, i: nat)
    requires c.u < uDivisions && c.v < vDivisions && c.w < wDivisions && f < 6 && i < 4
    ensures var items := BranchFor(GridCells, uDivisions, vDivisions, wDivisions, c).items;
      var k := FaceCorners[f][i];
      |items| == 24 && k < 8 && 0 <= items[4 * f + i] < |PointGrid(uDivisions, vDivisions, wDivisions)|
      && PointGrid(uDivisions, vDivisions, wDivisions)[items[4 * f + i]] == Sample(c.u + CornerU[k], c.v + CornerV[k], c.w + CornerW[k])
  {
    CellCornersAreCellSamples(uDivisions, vDivisions, wDivisions, c, FaceCorners[f][i]);
  }

  /** Each face has four distinct corners. */
  lemma FaceCornersDistinct()
    ensures forall f :: 0 <= f < |FaceCorners| ==> Distinct(FaceCorners[f])
  {
    assert Distinct(FaceCorners[0]) && Distinct(FaceCorners[1]) && Distinct(FaceCorners[2]);
    assert Distinct(FaceCorners[3]) && Distinct(FaceCorners[4]) && Distinct(FaceCorners[5]);
  }

  /** How many of the first `n` faces have corner `k`. */
  function FacesAt(k: nat, n: nat): (count: nat)
    requires n <= |FaceCorners|
    ensures count <= n
  {
    if n == 0 then 0 else FacesAt(k, n - 1) + (if k in FaceCorners[n - 1] then 1 else 0)
  }

  /** Every corner of the cube lies on exactly three of the six faces. */
  lemma EveryCornerOnThreeFaces()
    ensures forall k :: 0 <= k < 8 ==> FacesAt(k, 6) == 3
  {
    forall k | 0 <= k < 8
      ensures FacesAt(k, 6) == 3
    {
      assert FacesAt(k, 1) == (if k in [0, 1, 3, 2] then 1 else 0);
      assert FacesAt(k, 2) == FacesAt(k, 1) + (if k in [4, 5, 7, 6] then 1 else 0);
      assert FacesAt(k, 3) == FacesAt(k, 2) + (if k in [0, 4, 6, 2] then 1 else 0);
      assert FacesAt(k, 4) == FacesAt(k, 3) + (if k in [1, 5, 7, 3] then 1 else 0);
      assert FacesAt(k, 5) == FacesAt(k, 4) + (if k in [0, 1, 5, 4] then 1 else 0);
    }
  }

  /** With at least one u and one v division the eight corners as written strictly increase. */
  lemma CornersIncrease(uDivisions: nat, vDivisions: nat, c: Cell)
    requires uDivisions >= 1 && vDivisions >= 1
    ensures var p := CornersAsWritten(uDivisions, vDivisions, c);
      forall k :: 0 <= k < 7 ==> p[k] < p[k + 1]
  {
    var x := uDivisions + 1;
    MulComm(x, vDivisions + 1);
    MulMono(1, vDivisions, x);
    assert Mul(vDivisions + 1, x) == Mul(vDivisions, x) + x;
  }

  /** Every corner as written lies in [0, (U+1)(V+1)(W+1)), the size of the grid. */
  lemma AsWrittenInRange(uDivisions: nat, vDivisions: nat, wDivisions: nat, c: Cell, k: nat)
    requires c.u < uDivisions && c.v < vDivisions && c.w < wDivisions && k < 8
    ensures 0 <= CornersAsWritten(uDivisions, vDivisions, c)[k] < |PointGrid(uDivisions, vDivisions, wDivisions)|
  {
    AsWrittenLattice(uDivisions, vDivisions, c, k);
    CornerBound(uDivisions, vDivisions, wDivisions, c, k);
    GridSize(uDivisions, vDivisions, wDivisions);
  }

  lemma CornerBound(uDivisions: nat, vDivisions: nat, wDivisions: nat, c: Cell, k: nat)
    requires c.u < uDivisions && c.v < vDivisions && c.w < wDivisions && k < 8
    ensures Lattice(vDivisions + 1, uDivisions + 1, c.w + CornerW[k], c.v + CornerV[k], c.u + CornerU[k])
          < Mul(uDivisions + 1, Mul(vDivisions + 1, wDivisions + 1))
  {
    LatticeBounds(wDivisions + 1, vDivisions + 1, uDivisions + 1, c.w + CornerW[k], c.v + CornerV[k], c.u + CornerU[k]);
    MulSwap(uDivisions + 1, vDivisions + 1, wDivisions + 1);
  }

  /** The top corner p7 of the last cell as written is the last point of the grid. */
  lemma LastCornerIsLastPoint(uDivisions: nat, vDivisions: nat, wDivisions: nat)
    requires uDivisions >= 1 && vDivisions >= 1 && wDivisions >= 1
    ensures CornersAsWritten(uDivisions, vDivisions, Cell(wDivisions - 1, vDivisions - 1, uDivisions - 1))[7]
         == |PointGrid(uDivisions, vDivisions, wDivisions)| - 1
  {
    var c := Cell(wDivisions - 1, vDivisions - 1, uDivisions - 1);
    AsWrittenLattice(uDivisions, vDivisions, c, 7);
    assert c.w + CornerW[7] == wDivisions && c.v + CornerV[7] == vDivisions && c.u + CornerU[7] == uDivisions;
    LastLattice(uDivisions, vDivisions, wDivisions);
    GridSize(uDivisions, vDivisions, wDivisions);
  }

  lemma LastLattice(uDivisions: nat, vDivisions: nat, wDivisions: nat)
    ensures Lattice(vDivisions + 1, uDivisions + 1, wDivisions, vDivisions, uDivisions)
         == Mul(uDivisions + 1, Mul(vDivisions + 1, wDivisions + 1)) - 1
  {
    var x, y := uDivisions + 1, vDivisions + 1;
    MulSwap(x, y, wDivisions + 1);
    assert Mul(wDivisions + 1, Mul(y, x)) == Mul(wDivisions, Mul(y, x)) + Mul(y, x);
    assert Mul(y, x) == Mul(vDivisions, x) + x;
  }

  /** The grid holds (U+1)(V+1)(W+1) points once there is a w division. */
  lemma GridSize(uDivisions: nat, vDivisions: nat, wDivisions: nat)
    requires wDivisions >= 1
    ensures |PointGrid(uDivisions, vDivisions, wDivisions)| == Mul(uDivisions + 1, Mul(vDivisions + 1, wDivisions + 1))
  {
  }

  lemma MulSwap(x: nat, y: nat, z: nat)
    ensures Mul(x, Mul(y, z)) == Mul(z, Mul(y, x))
  {
    MulIsProduct(y, z);
    MulIsProduct(y, x);
    MulIsProduct(x, Mul(y, z));
    MulIsProduct(z, Mul(y, x));
    Swap3(x, y, z);
  }

  lemma Swap3(x: int, y: int, z: int)
    ensures x * (y * z) == z * (y * x)
  {
    assert y * x == x * y;
    assert x * (y * z) == (x * y) * z;
  }

  /** Distinct places of a block of `b` by `a` entries have distinct coordinates. */
  lemma LatticeInjective(b: nat, a: nat, z: nat, y: nat, x: nat, z': nat, y': nat, x': nat)
    requires y < b && x < a && y' < b && x' < a
    requires Lattice(b, a, z, y, x) == Lattice(b, a, z', y', x')
    ensures z == z' && y == y' && x == x'
  {
    LatticeBounds(z + 1, b, a, z, y, x);
    LatticeBounds(z' + 1, b, a, z', y', x');
    if z < z' {
      MulMono(z + 1, z', Mul(b, a));
    } else if z' < z {
      MulMono(z' + 1, z, Mul(b, a));
    }
    assert z == z';
    if y < y' {
      MulMono(y + 1, y', a);
    } else if y' < y {
      MulMono(y' + 1, y, a);
    }
  }

  /** Distinct cells get distinct base corners p0. */
  lemma BaseCornerInjective(uDivisions: nat, vDivisions: nat, c: Cell, d: Cell)
    requires c.u < uDivisions && c.v < vDivisions && d.u < uDivisions && d.v < vDivisions
    requires CornersAsWritten(uDivisions, vDivisions, c)[0] == CornersAsWritten(uDivisions, vDivisions, d)[0]
    ensures c == d
  {
    AsWrittenLattice(uDivisions, vDivisions, c, 0);
    AsWrittenLattice(uDivisions, vDivisions, d, 0);
    LatticeInjective(vDivisions + 1, uDivisions + 1, c.w, c.v, c.u, d.w, d.v, d.u);
  }
}
