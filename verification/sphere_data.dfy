/**
  The index side of the UV-sphere generator (`generateUVSphere`).

  The generator walks a latitude/longitude grid of `stacks + 1` rows of
  `sectors + 1` vertices each and emits two triangles for every grid cell.
  A vertex is represented here by the grid coordinates it is computed from:
  its floating-point position is a function of `(radius, i, j)` alone, so the
  pair `(i, j)` identifies it.  The index arithmetic is done in C++
  `unsigned int`, which is written out below as reduction modulo 2^32.
*/
module SphereData {

  /** Modulus of C++ `unsigned int` arithmetic. */
  const U32: int := 0x1_0000_0000

  /** The value an `unsigned int` expression takes: the exact value modulo 2^32. */
  function Wrap(x: int): (r: nat)
    ensures r < U32
    ensures 0 <= x < U32 ==> r == x
    ensures 0 <= x ==> r <= x
  {
    x % U32
  }

  /** A vertex, named by the stack `i` (polar angle) and the sector `j`
      (azimuth) its position is computed from. */
  datatype GridVertex = GridVertex(stack: nat, sector: nat)

  /** Number of vertices of a grid with the given number of stacks and sectors. */
  function VertexCount(stacks: nat, sectors: nat): nat
  {
    (stacks + 1) * (sectors + 1)
  }

  /** The first `n` vertices of stack `i`: sectors `0 .. n-1`. */
  function GridRow(i: nat, n: nat): seq<GridVertex>
  {
    if n == 0 then [] else GridRow(i, n - 1) + [GridVertex(i, n - 1)]
  }

  /** Stacks `0 .. n-1`, each a full row of `sectors + 1` vertices, one after the other. */
  function GridRows(n: nat, sectors: nat): seq<GridVertex>
  {
    if n == 0 then [] else GridRows(n - 1, sectors) + GridRow(n - 1, sectors + 1)
  }

  /** The whole vertex list: stacks `0 .. stacks`, pole rows included. */
  function Grid(stacks: nat, sectors: nat): seq<GridVertex>
  {
    GridRows(stacks + 1, sectors)
  }

  /** `i * (sectors + 1)`, the index of the first vertex of stack `i`, in
      `unsigned int` arithmetic.  Written as repeated addition of the row
      width; `RowStartProduct` shows it is the wrapped product. */
  function RowStart(i: nat, sectors: nat): (r: nat)
    ensures r < U32
  {
    if i == 0 then 0 else Wrap(RowStart(i - 1, sectors) + Wrap(sectors + 1))
  }

  /** The six indices pushed for a cell whose upper row starts at `row1` and
      lower row at `row2`, at sector `j`: the triangle `(row1+j, row2+j, row1+j+1)`
      followed by `(row1+j+1, row2+j, row2+j+1)`, in `unsigned int` arithmetic. */
  function CellIndices(row1: nat, row2: nat, j: nat): seq<nat>
  {
    [Wrap(row1 + j), Wrap(row2 + j), Wrap(row1 + j + 1),
     Wrap(row1 + j + 1), Wrap(row2 + j), Wrap(row2 + j + 1)]
  }

  /** The six indices of cell `(i, j)`. */
  function Cell(sectors: nat, i: nat, j: nat): seq<nat>
  {
    CellIndices(RowStart(i, sectors), RowStart(i + 1, sectors), j)
  }

  /** The indices of cells `0 .. n-1` of the stack whose rows start at `row1` and `row2`. */
  function RowIndices(row1: nat, row2: nat, n: nat): seq<nat>
  {
    if n == 0 then [] else RowIndices(row1, row2, n - 1) + CellIndices(row1, row2, n - 1)
  }

  /** The indices of all cells of stacks `0 .. n-1`, stack by stack. */
  function GridIndices(n: nat, sectors: nat): seq<nat>
  {
    if n == 0 then []
    else GridIndices(n - 1, sectors) + RowIndices(RowStart(n - 1, sectors), RowStart(n, sectors), sectors)
  }

  /** A mesh in the form the generator leaves it in its two output vectors. */
  datatype Mesh = Mesh(vertices: seq<GridVertex>, indices: seq<nat>)

  /** `generateUVSphere`: both output vectors are cleared, the vertex grid is
      pushed row by row, then the cells' indices stack by stack.  `radius`
      only scales positions and is not represented.  The loops `i <= stacks`
      and `j <= sectors` run forever when the bound is the largest
      `unsigned int`, hence the precondition. */
  method GenerateUVSphere(stacks: nat, sectors: nat, prior: Mesh) returns (mesh: Mesh)
    requires stacks < U32 - 1 && sectors < U32 - 1
    ensures mesh.vertices == Grid(stacks, sectors)
    ensures mesh.indices == GridIndices(stacks, sectors)
  {
    var vertices := PushVertexGrid(stacks, sectors);
    var indices := [];

    var i := 0;
    while i < stacks
      invariant i <= stacks
      invariant indices == GridIndices(i, sectors)
    {
      var row1 := Wrap(i * Wrap(sectors + 1));
      var row2 := Wrap(Wrap(i + 1) * Wrap(sectors + 1));
      RowStartProduct(i, sectors);
      RowStartProduct(i + 1, sectors);
      indices := PushStackIndices(indices, row1, row2, sectors);
      i := i + 1;
    }
    mesh := Mesh(vertices, indices);
  }

  /** The vertex loops of `generateUVSphere`: stacks `0 .. stacks`, each a
      row of sectors `0 .. sectors`, pushed in that order. */
  method PushVertexGrid(stacks: nat, sectors: nat) returns (vertices: seq<GridVertex>)
    requires stacks < U32 - 1 && sectors < U32 - 1
    ensures vertices == Grid(stacks, sectors)
  {
    vertices := [];
    var i := 0;
    while i <= stacks
      invariant i <= stacks + 1
      invariant vertices == GridRows(i, sectors)
    {
      vertices := PushVertexRow(vertices, i, sectors);
      i := i + 1;
    }
  }

  /** The inner vertex loop: sectors `0 .. sectors` of stack `i`, appended
      to the vertices already present. */
  method PushVertexRow(prefix: seq<GridVertex>, i: nat, sectors: nat) returns (vertices: seq<GridVertex>)
    requires sectors < U32 - 1
    ensures vertices == prefix + GridRow(i, sectors + 1)
  {
    vertices := prefix;
    var j := 0;
    while j <= sectors
      invariant j <= sectors + 1
      invariant vertices == prefix + GridRow(i, j)
    {
      vertices := vertices + [GridVertex(i, j)];
      j := j + 1;
    }
  }

  /** The inner index loop of `generateUVSphere`: for each sector `j` of one
      stack, push the two triangles of cell `j` one index at a time. */
  method PushStackIndices(prefix: seq<nat>, row1: nat, row2: nat, sectors: nat) returns (indices: seq<nat>)
    ensures indices == prefix + RowIndices(row1, row2, sectors)
  {
    indices := prefix;
    var j := 0;
    while j < sectors
      invariant j <= sectors
      invariant indices == prefix + RowIndices(row1, row2, j)
    {
      // first triangle
      indices := indices + [Wrap(row1 + j)];
      indices := indices + [Wrap(row2 + j)];
      indices := indices + [Wrap(row1 + j + 1)];
      // second triangle
      indices := indices + [Wrap(row1 + j + 1)];
      indices := indices + [Wrap(row2 + j)];
      indices := indices + [Wrap(row2 + j + 1)];
      j := j + 1;
    }
  }

  // ---------------------------------------------------------------------
  // Arithmetic helpers
  // ---------------------------------------------------------------------

  /** `(a + 1) * b` unfolds to `a * b + b`. */
  lemma MulSucc(a: int, b: int)
    ensures (a + 1) * b == a * b + b
  {
  }

  /** Multiplying by a natural number is monotone. */
  lemma MulMono(a: int, b: int, d: nat)
    ensures a <= b ==> a * d <= b * d
  {
    if a <= b {
      assert b * d == a * d + (b - a) * d;
    }
  }

  /** A product of naturals vanishes exactly when a factor does. */
  lemma ProductZero(a: nat, b: nat)
    ensures a * b == 0 <==> a == 0 || b == 0
  {
    MulMono(1, a, b);
  }

  /** Euclidean division recovers quotient and remainder of `q * d + r`. */
  lemma DivModOf(q: nat, d: nat, r: nat)
    requires r < d
    ensures (q * d + r) / d == q
    ensures (q * d + r) % d == r
  {
    var a := q * d + r;
    var q' := a / d;
    var r' := a % d;
    assert a == q' * d + r';
    MulMono(q' + 1, q, d);
    MulMono(q + 1, q', d);
    MulSucc(q', d);
    MulSucc(q, d);
  }

  /** Reducing an intermediate sum modulo 2^32 does not change the final result. */
  lemma WrapAdd(x: nat, y: nat)
    ensures Wrap(Wrap(x) + y) == Wrap(x + y)
  {
    var q := x / U32;
    var z := Wrap(x) + y;
    var q2 := z / U32;
    var r := z % U32;
    assert x + y == (q + q2) * U32 + r;
    DivModOf(q + q2, U32, r);
  }

  /** Adding `w` to the wrapped value of `x` wraps to the value of `x + w`. */
  lemma WrapStep(prev: nat, x: nat, w: nat, sum: nat)
    requires prev == Wrap(x) && sum == x + w
    ensures Wrap(prev + w) == Wrap(sum)
  {
    WrapAdd(x, w);
  }

  /** The repeated addition of `RowStart` is the source's wrapped product
      `i * (sectors + 1)`. */
  lemma {:induction false} RowStartProduct(i: nat, sectors: nat)
    ensures RowStart(i, sectors) == Wrap(i * Wrap(sectors + 1))
  {
    if i > 0 {
      var w := Wrap(sectors + 1);
      RowStartProduct(i - 1, sectors);
      MulSucc(i - 1, w);
      MulMono(0, i - 1, w);
      WrapStep(RowStart(i - 1, sectors), (i - 1) * w, w, i * w);
    }
  }

  // ---------------------------------------------------------------------
  // Vertex grid
  // ---------------------------------------------------------------------

  lemma {:induction false} GridRowShape(i: nat, n: nat)
    ensures |GridRow(i, n)| == n
    ensures forall k :: 0 <= k < n ==> GridRow(i, n)[k] == GridVertex(i, k)
  {
    if n > 0 {
      GridRowShape(i, n - 1);
    }
  }

  lemma {:induction false} GridRowsLength(n: nat, sectors: nat)
    ensures |GridRows(n, sectors)| == n * (sectors + 1)
  {
    if n > 0 {
      GridRowsLength(n - 1, sectors);
      GridRowShape(n - 1, sectors + 1);
      MulSucc(n - 1, sectors + 1);
    }
  }

  /** Within the first `n` stacks, stack `i`, sector `j` sits at `i*(sectors+1) + j`. */
  lemma {:induction false} GridRowsAt(n: nat, sectors: nat, i: nat, j: nat)
    requires i < n && j <= sectors
    ensures i * (sectors + 1) + j < |GridRows(n, sectors)|
    ensures GridRows(n, sectors)[i * (sectors + 1) + j] == GridVertex(i, j)
  {
    if i < n - 1 {
      GridRowsAt(n - 1, sectors, i, j);
      GridRowsExtend(n, sectors, i * (sectors + 1) + j);
    } else {
      GridRowsLast(n, sectors, j);
    }
  }

  /** Appending stack `n - 1` keeps every earlier vertex where it was. */
  lemma GridRowsExtend(n: nat, sectors: nat, k: nat)
    requires 0 < n && k < |GridRows(n - 1, sectors)|
    ensures k < |GridRows(n, sectors)|
    ensures GridRows(n, sectors)[k] == GridRows(n - 1, sectors)[k]
  {
    assert GridRows(n, sectors) == GridRows(n - 1, sectors) + GridRow(n - 1, sectors + 1);
  }

  /** The last of `n` stacks starts at `(n-1)*(sectors+1)` and holds its own sectors. */
  lemma GridRowsLast(n: nat, sectors: nat, j: nat)
    requires 0 < n && j <= sectors
    ensures (n - 1) * (sectors + 1) + j < |GridRows(n, sectors)|
    ensures GridRows(n, sectors)[(n - 1) * (sectors + 1) + j] == GridVertex(n - 1, j)
  {
    var w := sectors + 1;
    var before := GridRows(n - 1, sectors);
    var last := GridRow(n - 1, w);
    assert GridRows(n, sectors) == before + last;
    assert |before| == (n - 1) * w && |last| == w && last[j] == GridVertex(n - 1, j) by {
      GridRowsLength(n - 1, sectors);
      GridRowShape(n - 1, w);
    }
    assert (before + last)[|before| + j] == last[j];
  }

  /** Vertex count is `(stacks+1)*(sectors+1)` and the list is row-major:
      entry `k` comes from stack `k / (sectors+1)`, sector `k % (sectors+1)`. */
  lemma GridLayout(stacks: nat, sectors: nat)
    ensures |Grid(stacks, sectors)| == VertexCount(stacks, sectors)
    ensures forall k :: 0 <= k < |Grid(stacks, sectors)| ==>
      Grid(stacks, sectors)[k] == GridVertex(k / (sectors + 1), k % (sectors + 1))
  {
    var w := sectors + 1;
    GridRowsLength(stacks + 1, sectors);
    forall k | 0 <= k < |Grid(stacks, sectors)|
      ensures Grid(stacks, sectors)[k] == GridVertex(k / w, k % w)
    {
      GridCoordinates(stacks, sectors, k);
    }
  }

  /** Entry `k` of the grid, found through its stack and sector. */
  lemma GridCoordinates(stacks: nat, sectors: nat, k: nat)
    requires k < (stacks + 1) * (sectors + 1)
    ensures k < |Grid(stacks, sectors)|
    ensures Grid(stacks, sectors)[k] == GridVertex(k / (sectors + 1), k % (sectors + 1))
  {
    var w := sectors + 1;
    var i, j := k / w, k % w;
    assert k == i * w + j;
    MulMono(stacks + 1, i, w);
    GridRowsAt(stacks + 1, sectors, i, j);
  }

  /** The vertex of stack `i`, sector `j` sits at index `i*(sectors+1) + j`. */
  lemma GridAt(stacks: nat, sectors: nat, i: nat, j: nat)
    requires i <= stacks && j <= sectors
    ensures i * (sectors + 1) + j < |Grid(stacks, sectors)|
    ensures Grid(stacks, sectors)[i * (sectors + 1) + j] == GridVertex(i, j)
  {
    GridRowsAt(stacks + 1, sectors, i, j);
  }

  // ---------------------------------------------------------------------
  // Index list
  // ---------------------------------------------------------------------

  lemma {:induction false} RowIndicesLayout(row1: nat, row2: nat, n: nat)
    ensures |RowIndices(row1, row2, n)| == 6 * n
    ensures forall j, t :: 0 <= j < n && 0 <= t < 6 ==>
      RowIndices(row1, row2, n)[6 * j + t] == CellIndices(row1, row2, j)[t]
  {
    if n > 0 {
      RowIndicesLayout(row1, row2, n - 1);
      var row := RowIndices(row1, row2, n);
      var before := RowIndices(row1, row2, n - 1);
      forall j, t | 0 <= j < n && 0 <= t < 6
        ensures row[6 * j + t] == CellIndices(row1, row2, j)[t]
      {
        if j < n - 1 {
          assert row[6 * j + t] == before[6 * j + t];
        }
      }
    }
  }

  lemma {:induction false} GridIndicesLength(n: nat, sectors: nat)
    ensures |GridIndices(n, sectors)| == 6 * (n * sectors)
  {
    if n > 0 {
      GridIndicesLength(n - 1, sectors);
      RowIndicesLayout(RowStart(n - 1, sectors), RowStart(n, sectors), sectors);
      MulSucc(n - 1, sectors);
    }
  }

  /** The index list holds `6 * stacks * sectors` entries, a whole number of
      triangles, and is empty exactly when `stacks` or `sectors` is zero. */
  lemma IndexCount(stacks: nat, sectors: nat)
    ensures |GridIndices(stacks, sectors)| == 6 * (stacks * sectors)
    ensures |GridIndices(stacks, sectors)| % 3 == 0
    ensures |GridIndices(stacks, sectors)| == 0 <==> stacks == 0 || sectors == 0
  {
    GridIndicesLength(stacks, sectors);
    ProductZero(stacks, sectors);
    var p := stacks * sectors;
    assert 6 * p == (2 * p) * 3;
    DivModOf(2 * p, 3, 0);
  }

  /** The indices of the first `m` stacks are a prefix of those of the first `n`. */
  lemma {:induction false} GridIndicesPrefix(m: nat, n: nat, sectors: nat)
    requires m <= n
    ensures |GridIndices(m, sectors)| <= |GridIndices(n, sectors)|
    ensures GridIndices(n, sectors)[..|GridIndices(m, sectors)|] == GridIndices(m, sectors)
    decreases n
  {
    if m < n {
      GridIndicesPrefix(m, n - 1, sectors);
      var before := GridIndices(n - 1, sectors);
      var row := RowIndices(RowStart(n - 1, sectors), RowStart(n, sectors), sectors);
      var all := before + row;
      assert GridIndices(n, sectors) == all;
      var k := |GridIndices(m, sectors)|;
      assert all[..k] == before[..k];
    }
  }

  /** Within one stack, cell `j` occupies offsets `6*j .. 6*j+5`. */
  lemma {:induction false} RowIndicesCell(row1: nat, row2: nat, n: nat, j: nat)
    requires j < n
    ensures 6 * j + 6 <= |RowIndices(row1, row2, n)|
    ensures RowIndices(row1, row2, n)[6 * j .. 6 * j + 6] == CellIndices(row1, row2, j)
  {
    if j < n - 1 {
      RowIndicesCell(row1, row2, n - 1, j);
      RowIndicesExtend(row1, row2, n, 6 * j, 6 * j + 6);
    } else {
      RowIndicesLast(row1, row2, n);
    }
  }

  /** Appending cell `n - 1` keeps every earlier slice of the stack. */
  lemma RowIndicesExtend(row1: nat, row2: nat, n: nat, lo: nat, hi: nat)
    requires 0 < n && lo <= hi <= |RowIndices(row1, row2, n - 1)|
    ensures hi <= |RowIndices(row1, row2, n)|
    ensures RowIndices(row1, row2, n)[lo .. hi] == RowIndices(row1, row2, n - 1)[lo .. hi]
  {
    var before := RowIndices(row1, row2, n - 1);
    var row := RowIndices(row1, row2, n);
    assert row == before + CellIndices(row1, row2, n - 1);
    assert row[..|before|] == before;
    SliceOfPrefix(row, before, lo, hi);
  }

  /** The last of `n` cells sits at offset `6*(n-1)`. */
  lemma RowIndicesLast(row1: nat, row2: nat, n: nat)
    requires 0 < n
    ensures 6 * n <= |RowIndices(row1, row2, n)|
    ensures RowIndices(row1, row2, n)[6 * (n - 1) .. 6 * n] == CellIndices(row1, row2, n - 1)
  {
    var before := RowIndices(row1, row2, n - 1);
    var cell := CellIndices(row1, row2, n - 1);
    assert RowIndices(row1, row2, n) == before + cell;
    assert |before| == 6 * (n - 1) by {
      RowIndicesLayout(row1, row2, n - 1);
    }
    SliceOfSuffix(before, cell, 0, 6);
    assert cell[0 .. 6] == cell;
  }

  /** The offset of cell `(i, j)` in row-major cell order, six indices per cell. */
  function CellOffset(sectors: nat, i: nat, j: nat): nat
  {
    6 * (i * sectors + j)
  }

  /** Cell `(i, j)` writes its six indices at offset `6 * (i*sectors + j)`. */
  lemma CellLayout(stacks: nat, sectors: nat, i: nat, j: nat)
    requires i < stacks && j < sectors
    ensures CellOffset(sectors, i, j) + 6 <= |GridIndices(stacks, sectors)|
    ensures GridIndices(stacks, sectors)[CellOffset(sectors, i, j) .. CellOffset(sectors, i, j) + 6]
         == Cell(sectors, i, j)
  {
    GridIndicesLength(i, sectors);
    CellAt(stacks, sectors, i, j, |GridIndices(i, sectors)| + 6 * j);
  }

  /** Helper for `CellLayout`, stated for the offset `off` of the cell. */
  lemma CellAt(stacks: nat, sectors: nat, i: nat, j: nat, off: nat)
    requires i < stacks && j < sectors
    requires off == |GridIndices(i, sectors)| + 6 * j
    ensures off + 6 <= |GridIndices(stacks, sectors)|
    ensures GridIndices(stacks, sectors)[off .. off + 6] == Cell(sectors, i, j)
  {
    CellInStack(sectors, i, j);
    GridSliceOfPrefix(i + 1, stacks, sectors, off, off + 6);
  }

  /** A slice inside the first `m` stacks' indices is the same in the first `n >= m`. */
  lemma GridSliceOfPrefix(m: nat, n: nat, sectors: nat, lo: nat, hi: nat)
    requires m <= n && lo <= hi <= |GridIndices(m, sectors)|
    ensures hi <= |GridIndices(n, sectors)|
    ensures GridIndices(n, sectors)[lo .. hi] == GridIndices(m, sectors)[lo .. hi]
  {
    GridIndicesPrefix(m, n, sectors);
    SliceOfPrefix(GridIndices(n, sectors), GridIndices(m, sectors), lo, hi);
  }

  /** Stack `i` follows the first `i` stacks, cell `(i, j)` at `6*j` within it. */
  lemma CellInStack(sectors: nat, i: nat, j: nat)
    requires j < sectors
    ensures |GridIndices(i, sectors)| + 6 * j + 6 <= |GridIndices(i + 1, sectors)|
    ensures var off := |GridIndices(i, sectors)| + 6 * j;
            GridIndices(i + 1, sectors)[off .. off + 6] == Cell(sectors, i, j)
  {
    var before := GridIndices(i, sectors);
    var row1, row2 := RowStart(i, sectors), RowStart(i + 1, sectors);
    var row := RowIndices(row1, row2, sectors);
    assert GridIndices(i + 1, sectors) == before + row;
    assert 6 * j + 6 <= |row| && row[6 * j .. 6 * j + 6] == CellIndices(row1, row2, j) by {
      RowIndicesCell(row1, row2, sectors, j);
    }
    SliceOfSuffix(before, row, 6 * j, 6 * j + 6);
  }

  /** A slice inside a prefix is the same slice of the prefix. */
  lemma SliceOfPrefix(all: seq<nat>, pre: seq<nat>, lo: nat, hi: nat)
    requires |pre| <= |all| && all[..|pre|] == pre && lo <= hi <= |pre|
    ensures all[lo .. hi] == pre[lo .. hi]
  {
    forall k | lo <= k < hi
      ensures all[k] == pre[k]
    {
      assert all[..|pre|][k] == all[k];
    }
  }

  /** A slice past the first part of a concatenation is a slice of the second part. */
  lemma SliceOfSuffix(a: seq<nat>, b: seq<nat>, lo: nat, hi: nat)
    requires lo <= hi <= |b|
    ensures (a + b)[|a| + lo .. |a| + hi] == b[lo .. hi]
  {
  }

  /** When the vertex count fits in 32 bits, the first vertex of each stack
      is the exact product `i * (sectors + 1)`, and a full row still follows it. */
  lemma RowStartExact(stacks: nat, sectors: nat, i: nat)
    requires VertexCount(stacks, sectors) <= U32
    requires i <= stacks
    ensures RowStart(i, sectors) == i * (sectors + 1)
    ensures i * (sectors + 1) + sectors + 1 <= VertexCount(stacks, sectors)
  {
    var w := sectors + 1;
    MulMono(i, stacks, w);
    MulMono(1, stacks + 1, w);
    MulSucc(stacks, w);
    RowStartProduct(i, sectors);
  }

  /** When the vertex count fits in 32 bits, no `unsigned int` expression of
      a cell wraps: the cell's indices are the exact grid offsets. */
  lemma CellExact(stacks: nat, sectors: nat, i: nat, j: nat)
    requires VertexCount(stacks, sectors) <= U32
    requires i < stacks && j < sectors
    ensures var row1 := i * (sectors + 1);
            var row2 := (i + 1) * (sectors + 1);
            Cell(sectors, i, j)
              == [row1 + j, row2 + j, row1 + j + 1, row1 + j + 1, row2 + j, row2 + j + 1]
    ensures forall t :: 0 <= t < 6 ==> Cell(sectors, i, j)[t] < VertexCount(stacks, sectors)
  {
    RowStartExact(stacks, sectors, i);
    RowStartExact(stacks, sectors, i + 1);
    MulSucc(i, sectors + 1);
  }

  lemma {:induction false} RowIndicesBounded(row1: nat, row2: nat, n: nat, bound: nat)
    requires row1 <= row2 && row2 + n < bound
    ensures forall k :: 0 <= k < |RowIndices(row1, row2, n)| ==> RowIndices(row1, row2, n)[k] < bound
  {
    if n > 0 {
      RowIndicesBounded(row1, row2, n - 1, bound);
    }
  }

  lemma {:induction false} GridIndicesBounded(stacks: nat, sectors: nat, n: nat)
    requires VertexCount(stacks, sectors) <= U32
    requires n <= stacks
    ensures forall k :: 0 <= k < |GridIndices(n, sectors)| ==>
      GridIndices(n, sectors)[k] < VertexCount(stacks, sectors)
  {
    if n > 0 {
      GridIndicesBounded(stacks, sectors, n - 1);
      RowStartExact(stacks, sectors, n - 1);
      RowStartExact(stacks, sectors, n);
      MulSucc(n - 1, sectors + 1);
      RowIndicesBounded(RowStart(n - 1, sectors), RowStart(n, sectors), sectors, VertexCount(stacks, sectors));
    }
  }

  /** Every index names an existing vertex, provided the vertex count fits
      in 32 bits so that the row offsets do not wrap. */
  lemma IndicesInBounds(stacks: nat, sectors: nat)
    requires VertexCount(stacks, sectors) <= U32
    ensures forall k :: 0 <= k < |GridIndices(stacks, sectors)| ==>
      GridIndices(stacks, sectors)[k] < |Grid(stacks, sectors)|
  {
    GridIndicesBounded(stacks, sectors, stacks);
    GridLayout(stacks, sectors);
  }

  /** Each of the two triangles of a cell has three distinct corners, and the
      two share exactly the diagonal `{row2+j, row1+j+1}`. */
  lemma CellTriangles(stacks: nat, sectors: nat, i: nat, j: nat)
    requires VertexCount(stacks, sectors) <= U32
    requires i < stacks && j < sectors
    ensures var c := Cell(sectors, i, j);
            c[0] != c[1] && c[1] != c[2] && c[0] != c[2]
    ensures var c := Cell(sectors, i, j);
            c[3] != c[4] && c[4] != c[5] && c[3] != c[5]
    ensures var c := Cell(sectors, i, j);
            {c[0], c[1], c[2]} * {c[3], c[4], c[5]}
              == {(i + 1) * (sectors + 1) + j, i * (sectors + 1) + j + 1}
  {
    CellExact(stacks, sectors, i, j);
    var row1 := i * (sectors + 1);
    var row2 := (i + 1) * (sectors + 1);
    assert row2 == row1 + sectors + 1;
  }
}
