/**
 * The grid builder: the page is cut into square cells whose side is the
 * page width divided (rounding down) by the requested column count; as many
 * whole rows as fit are used and the remainder strips stay blank.
 */
module Grid {

  /** 8.5 x 11 inches at 300 DPI. */
  const PageWidth: nat := 2550
  const PageHeight: nat := 3300

  /** (cell_w, cols, rows) as returned by compute_cell_grid. */
  datatype CellGrid = CellGrid(cellW: nat, cols: nat, rows: nat)

  /** A grid of whole square cells that fits on the page. */
  predicate ValidGrid(g: CellGrid)
  {
    && 1 <= g.cellW && 1 <= g.cols && 1 <= g.rows
    && g.cellW * g.cols <= PageWidth
    && g.cellW * g.rows <= PageHeight
  }

  /** compute_cell_grid. The source divides by the column count and then by
      the cell width, so it fails for 0 columns and for more columns than
      the page has pixels; those inputs are excluded. The result is the
      largest cell width with which `cols` cells fit across the page, and
      the largest row count with which whole rows fit down the page. */
  function ComputeCellGrid(gridCols: int): (g: CellGrid)
    requires 1 <= gridCols <= PageWidth
    ensures ValidGrid(g) && g.cols == gridCols
    ensures PageWidth < (g.cellW + 1) * g.cols
    ensures PageHeight < g.cellW * (g.rows + 1)
  {
    var cellW := PageWidth / gridCols;
    assert 1 <= cellW <= PageWidth by {
      DivBounds(PageWidth, gridCols);
    }
    var rows := PageHeight / cellW;
    DivBounds(PageHeight, cellW);
    CellGrid(cellW, gridCols, rows)
  }

  /** Floor division characterised by multiplication. */
  lemma DivBounds(n: nat, d: nat)
    requires 1 <= d <= n
    ensures 1 <= n / d <= n
    ensures (n / d) * d <= n < (n / d + 1) * d
  {
    var q := n / d;
    assert n == q * d + n % d;
    assert (q + 1) * d == q * d + d;
    MulMono(1, d, q);
  }

  /** The pixels of cell (r, c): columns left..left+cellW-1 and rows
      top..top+cellW-1, with left = c*cellW and top = r*cellW. */
  predicate InCell(g: CellGrid, r: int, c: int, x: int, y: int)
  {
    c * g.cellW <= x < c * g.cellW + g.cellW && r * g.cellW <= y < r * g.cellW + g.cellW
  }

  /** The pixels covered by the grid; the rest of the page is the remainder. */
  predicate InGridArea(g: CellGrid, x: int, y: int)
  {
    0 <= x < g.cols * g.cellW && 0 <= y < g.rows * g.cellW
  }

  /** Every cell of the grid lies inside the page. */
  lemma CellInsidePage(g: CellGrid, r: nat, c: nat)
    requires ValidGrid(g) && r < g.rows && c < g.cols
    ensures 0 <= c * g.cellW && c * g.cellW + g.cellW <= g.cols * g.cellW <= PageWidth
    ensures 0 <= r * g.cellW && r * g.cellW + g.cellW <= g.rows * g.cellW <= PageHeight
  {
    MulMono(c + 1, g.cols, g.cellW);
    MulMono(r + 1, g.rows, g.cellW);
  }

  lemma MulMono(a: nat, b: nat, k: nat)
    requires a <= b
    ensures a * k <= b * k
  {
    assert b * k == a * k + (b - a) * k;
  }

  /** Cells are pairwise disjoint: a pixel lies in at most one cell. */
  lemma CellsDisjoint(g: CellGrid, r1: int, c1: int, r2: int, c2: int, x: int, y: int)
    requires g.cellW >= 1
    requires InCell(g, r1, c1, x, y) && InCell(g, r2, c2, x, y)
    ensures r1 == r2 && c1 == c2
  {
    SameBlock(g.cellW, r1, r2, y);
    SameBlock(g.cellW, c1, c2, x);
  }

  lemma SameBlock(w: int, i: int, j: int, v: int)
    requires w >= 1
    requires i * w <= v < i * w + w && j * w <= v < j * w + w
    ensures i == j
  {
    if i != j {
      var lo, hi := if i < j then i else j, if i < j then j else i;
      assert hi * w == lo * w + (hi - lo) * w;
      MulMono(1, hi - lo, w);
    }
  }

  /** Every pixel of the grid area lies in the cell (y / cellW, x / cellW),
      which is a cell of the grid. */
  lemma PixelCell(g: CellGrid, x: int, y: int)
    requires ValidGrid(g) && InGridArea(g, x, y)
    ensures 0 <= y / g.cellW < g.rows && 0 <= x / g.cellW < g.cols
    ensures InCell(g, y / g.cellW, x / g.cellW, x, y)
  {
    BlockOf(g.cellW, g.cols, x);
    BlockOf(g.cellW, g.rows, y);
  }

  lemma BlockOf(w: int, n: int, v: int)
    requires w >= 1 && 0 <= v < n * w
    ensures 0 <= v / w < n
    ensures (v / w) * w <= v < (v / w) * w + w
  {
    var q := v / w;
    assert v == q * w + v % w;
    assert 0 <= v % w < w;
    if q >= n {
      MulMono(n, q, w);
    }
  }

  /** A pixel of a cell of the grid lies in the grid area. */
  lemma CellInGridArea(g: CellGrid, x: int, y: int, r: int, c: int)
    requires ValidGrid(g) && 0 <= r < g.rows && 0 <= c < g.cols
    requires InCell(g, r, c, x, y)
    ensures InGridArea(g, x, y)
  {
    CellInsidePage(g, r, c);
  }
}
