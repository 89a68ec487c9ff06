/**
 * generate_mosaic_pages, up to the solution page: the label grid (one
 * palette key per cell, from the cell's average colour) and the solution
 * page (a white page on which every cell is filled with its key's colour).
 */
module Mosaic {
  import opened Palette
  import opened Grid
  import opened Averaging

  const White: Rgb := Rgb(255, 255, 255)

  /** The normalised input: exactly PageHeight rows of PageWidth pixels. */
  predicate IsPage(img: Image)
  {
    |img| == PageHeight && forall y :: 0 <= y < |img| ==> |img[y]| == PageWidth
  }

  /** rows lists of cols palette keys each. */
  predicate IsLabelGrid(labels: seq<seq<Label>>, g: CellGrid)
  {
    && |labels| == g.rows
    && (forall r :: 0 <= r < |labels| ==> |labels[r]| == g.cols)
    && (forall r, c :: 0 <= r < |labels| && 0 <= c < |labels[r]| ==> IsKey(labels[r][c]))
  }

  /** The key of cell (r, c): the nearest palette key to the average colour
      of the cellW x cellW block with top-left corner (c*cellW, r*cellW). */
  function CellLabel(img: Image, g: CellGrid, r: nat, c: nat): (key: Label)
    requires IsPage(img) && ValidGrid(g) && r < g.rows && c < g.cols
    ensures IsKey(key)
  {
    CellInsidePage(g, r, c);
    Nearest(AverageColorOfRegion(img, c * g.cellW, r * g.cellW, g.cellW, g.cellW))
  }

  /** The label-grid loops of generate_mosaic_pages: the grid is built by
      appending one row of keys per grid row. */
  method BuildLabelGrid(img: Image, g: CellGrid) returns (labelGrid: seq<seq<Label>>)
    requires IsPage(img) && ValidGrid(g)
    ensures IsLabelGrid(labelGrid, g)
    ensures forall r, c :: 0 <= r < g.rows && 0 <= c < g.cols ==> labelGrid[r][c] == CellLabel(img, g, r, c)
  {
    labelGrid := [];
    for r := 0 to g.rows
      invariant |labelGrid| == r
      invariant forall r' :: 0 <= r' < r ==> |labelGrid[r']| == g.cols
      invariant forall r', c :: 0 <= r' < r && 0 <= c < g.cols ==> labelGrid[r'][c] == CellLabel(img, g, r', c)
    {
      var rowLabels := BuildRowLabels(img, g, r);
      labelGrid := labelGrid + [rowLabels];
    }
  }

  /** The inner loop: the keys of grid row r, built by appending one key
      per column. */
  method BuildRowLabels(img: Image, g: CellGrid, r: nat) returns (rowLabels: seq<Label>)
    requires IsPage(img) && ValidGrid(g) && r < g.rows
    ensures |rowLabels| == g.cols
    ensures forall c :: 0 <= c < g.cols ==> rowLabels[c] == CellLabel(img, g, r, c)
  {
    rowLabels := [];
    var top := r * g.cellW;
    for c := 0 to g.cols
      invariant |rowLabels| == c
      invariant forall c' :: 0 <= c' < c ==> rowLabels[c'] == CellLabel(img, g, r, c')
    {
      var left := c * g.cellW;
      CellInsidePage(g, r, c);
      var avg := AverageColorOfRegion(img, left, top, g.cellW, g.cellW);
      var best := NearestPaletteLabel(avg);
      rowLabels := rowLabels + [best.value];
    }
  }

  /** The colour of pixel (x, y) of the finished solution page: white or a
      palette colour, so always an 8-bit colour. */
  function SolutionPixel(g: CellGrid, labels: seq<seq<Label>>, x: int, y: int): (p: Rgb)
    requires ValidGrid(g) && IsLabelGrid(labels, g)
    ensures Is8Bit(p)
    ensures p == White || exists i :: 0 <= i < |Entries| && p == Entries[i].color
  {
    PaletteWellFormed();
    if InGridArea(g, x, y) then
      PixelCell(g, x, y);
      ColorOf(labels[y / g.cellW][x / g.cellW])
    else White
  }

  /** Every pixel of cell (r, c) has the colour of the cell's key; every
      pixel right of or below the grid area is white. */
  lemma SolutionPageLayout(g: CellGrid, labels: seq<seq<Label>>, x: int, y: int)
    requires ValidGrid(g) && IsLabelGrid(labels, g)
    ensures forall r, c :: 0 <= r < g.rows && 0 <= c < g.cols && InCell(g, r, c, x, y) ==>
      SolutionPixel(g, labels, x, y) == ColorOf(labels[r][c])
    ensures !InGridArea(g, x, y) ==> SolutionPixel(g, labels, x, y) == White
  {
    forall r, c | 0 <= r < g.rows && 0 <= c < g.cols && InCell(g, r, c, x, y)
      ensures SolutionPixel(g, labels, x, y) == ColorOf(labels[r][c])
    {
      CellInGridArea(g, x, y, r, c);
      PixelCell(g, x, y);
      CellsDisjoint(g, r, c, y / g.cellW, x / g.cellW, x, y);
    }
  }

  /** The page while the fill is at cell (r, c): the cells before it in
      row-major order are painted, everything else is still white. */
  function Painted(g: CellGrid, labels: seq<seq<Label>>, r: nat, c: nat, x: int, y: int): Rgb
    requires ValidGrid(g) && IsLabelGrid(labels, g)
  {
    if InGridArea(g, x, y) && (y / g.cellW < r || (y / g.cellW == r && x / g.cellW < c)) then
      PixelCell(g, x, y);
      ColorOf(labels[y / g.cellW][x / g.cellW])
    else White
  }

  lemma PaintedStep(g: CellGrid, labels: seq<seq<Label>>, r: nat, c: nat, x: int, y: int)
    requires ValidGrid(g) && IsLabelGrid(labels, g) && r < g.rows && c < g.cols
    ensures Painted(g, labels, r, c + 1, x, y) ==
      if InCell(g, r, c, x, y) then ColorOf(labels[r][c]) else Painted(g, labels, r, c, x, y)
  {
    if InCell(g, r, c, x, y) {
      CellInGridArea(g, x, y, r, c);
      PixelCell(g, x, y);
      CellsDisjoint(g, r, c, y / g.cellW, x / g.cellW, x, y);
    } else if InGridArea(g, x, y) {
      PixelCell(g, x, y);
    }
  }

  lemma PaintedNextRow(g: CellGrid, labels: seq<seq<Label>>, r: nat, x: int, y: int)
    requires ValidGrid(g) && IsLabelGrid(labels, g) && r < g.rows
    ensures Painted(g, labels, r, g.cols, x, y) == Painted(g, labels, r + 1, 0, x, y)
  {
    if InGridArea(g, x, y) {
      PixelCell(g, x, y);
    }
  }

  lemma PaintedDone(g: CellGrid, labels: seq<seq<Label>>, x: int, y: int)
    requires ValidGrid(g) && IsLabelGrid(labels, g)
    ensures Painted(g, labels, g.rows, 0, x, y) == SolutionPixel(g, labels, x, y)
  {
    if InGridArea(g, x, y) {
      PixelCell(g, x, y);
    }
  }

  /** ImageDraw.rectangle with a fill and no outline: the corners are
      inclusive, so the pixels x0..x1 by y0..y1 take the fill colour and
      nothing else changes. */
  method FillRectangle(canvas: array2<Rgb>, x0: int, y0: int, x1: int, y1: int, fill: Rgb)
    requires 0 <= x0 <= x1 < canvas.Length1 && 0 <= y0 <= y1 < canvas.Length0
    modifies canvas
    ensures forall y, x :: 0 <= y < canvas.Length0 && 0 <= x < canvas.Length1 ==>
      canvas[y, x] == if x0 <= x <= x1 && y0 <= y <= y1 then fill else old(canvas[y, x])
  {
    for y := y0 to y1 + 1
      invariant forall yy, xx :: 0 <= yy < canvas.Length0 && 0 <= xx < canvas.Length1 ==>
        canvas[yy, xx] == if x0 <= xx <= x1 && y0 <= yy < y then fill else old(canvas[yy, xx])
    {
      for x := x0 to x1 + 1
        invariant forall yy, xx :: 0 <= yy < canvas.Length0 && 0 <= xx < canvas.Length1 ==>
          canvas[yy, xx] == if (x0 <= xx <= x1 && y0 <= yy < y) || (yy == y && x0 <= xx < x)
                            then fill else old(canvas[yy, xx])
      {
        canvas[y, x] := fill;
      }
    }
  }

  /** One iteration of the fill: the rectangle
      [c*cellW, r*cellW, c*cellW+cellW-1, r*cellW+cellW-1] takes the colour of
      the cell's key, which paints cell (r, c) and nothing else. */
  method FillCell(solution: array2<Rgb>, g: CellGrid, labels: seq<seq<Label>>, r: nat, c: nat)
    requires ValidGrid(g) && IsLabelGrid(labels, g) && r < g.rows && c < g.cols
    requires solution.Length0 == PageHeight && solution.Length1 == PageWidth
    requires forall y, x :: 0 <= y < PageHeight && 0 <= x < PageWidth ==>
      solution[y, x] == Painted(g, labels, r, c, x, y)
    modifies solution
    ensures forall y, x :: 0 <= y < PageHeight && 0 <= x < PageWidth ==>
      solution[y, x] == Painted(g, labels, r, c + 1, x, y)
  {
    var top, left := r * g.cellW, c * g.cellW;
    CellInsidePage(g, r, c);
    FillRectangle(solution, left, top, left + g.cellW - 1, top + g.cellW - 1, ColorOf(labels[r][c]));
    forall y, x | 0 <= y < PageHeight && 0 <= x < PageWidth
      ensures solution[y, x] == Painted(g, labels, r, c + 1, x, y)
    {
      PaintedStep(g, labels, r, c, x, y);
    }
  }

  /** The solution page: a fresh white page on which every cell is filled,
      row by row, with the colour of its key. */
  method RenderSolution(g: CellGrid, labels: seq<seq<Label>>) returns (solution: array2<Rgb>)
    requires ValidGrid(g) && IsLabelGrid(labels, g)
    ensures fresh(solution)
    ensures solution.Length0 == PageHeight && solution.Length1 == PageWidth
    ensures forall y, x :: 0 <= y < PageHeight && 0 <= x < PageWidth ==>
      solution[y, x] == SolutionPixel(g, labels, x, y)
  {
    solution := new Rgb[PageHeight, PageWidth]((y, x) => White);
    for r := 0 to g.rows
      invariant forall y, x :: 0 <= y < PageHeight && 0 <= x < PageWidth ==>
        solution[y, x] == Painted(g, labels, r, 0, x, y)
    {
      for c := 0 to g.cols
        invariant forall y, x :: 0 <= y < PageHeight && 0 <= x < PageWidth ==>
          solution[y, x] == Painted(g, labels, r, c, x, y)
      {
        FillCell(solution, g, labels, r, c);
      }
      forall y, x | 0 <= y < PageHeight && 0 <= x < PageWidth
        ensures solution[y, x] == Painted(g, labels, r + 1, 0, x, y)
      {
        PaintedNextRow(g, labels, r, x, y);
      }
    }
    forall y, x | 0 <= y < PageHeight && 0 <= x < PageWidth
      ensures solution[y, x] == SolutionPixel(g, labels, x, y)
    {
      PaintedDone(g, labels, x, y);
    }
  }

  /** generate_mosaic_pages up to the solution page, for an input already
      normalised to the page size: the grid from the column count, the label
      grid, and the filled solution page. */
  method GenerateSolutionPage(img: Image, gridCols: int)
    returns (g: CellGrid, labelGrid: seq<seq<Label>>, solution: array2<Rgb>)
    requires IsPage(img) && 1 <= gridCols <= PageWidth
    ensures g == ComputeCellGrid(gridCols) && ValidGrid(g)
    ensures IsLabelGrid(labelGrid, g)
    ensures forall r, c :: 0 <= r < g.rows && 0 <= c < g.cols ==> labelGrid[r][c] == CellLabel(img, g, r, c)
    ensures fresh(solution)
    ensures solution.Length0 == PageHeight && solution.Length1 == PageWidth
    ensures forall y, x :: 0 <= y < PageHeight && 0 <= x < PageWidth ==>
      solution[y, x] == SolutionPixel(g, labelGrid, x, y)
  {
    g := ComputeCellGrid(gridCols);
    labelGrid := BuildLabelGrid(img, g);
    solution := RenderSolution(g, labelGrid);
  }

  /** The solution page as an image value, pixel for pixel what
      RenderSolution paints. */
  function SolutionImage(g: CellGrid, labels: seq<seq<Label>>): (img: Image)
    requires ValidGrid(g) && IsLabelGrid(labels, g)
    ensures IsPage(img)
  {
    seq(PageHeight, y => seq(PageWidth, x => SolutionPixel(g, labels, x, y)))
  }

  /** Feeding a solution page back through the reducer gives back the label
      grid it was painted from: each cell is uniformly its key's colour, that
      colour is its own average, and a palette colour maps to its own key. */
  lemma ReductionIdempotent(g: CellGrid, labels: seq<seq<Label>>, r: nat, c: nat)
    requires ValidGrid(g) && IsLabelGrid(labels, g) && r < g.rows && c < g.cols
    ensures CellLabel(SolutionImage(g, labels), g, r, c) == labels[r][c]
  {
    var img := SolutionImage(g, labels);
    var w := g.cellW;
    var color := ColorOf(labels[r][c]);
    CellInsidePage(g, r, c);
    forall y, x | r * w <= y < r * w + w && c * w <= x < c * w + w
      ensures img[y][x] == color
    {
      SolutionPageLayout(g, labels, x, y);
    }
    AverageOfUniform(img, c * w, r * w, w, w, color);
    NearestOfPaletteColor(labels[r][c]);
  }

  /** A page of one palette colour gets that colour's key in every cell. */
  lemma UniformPageLabels(img: Image, g: CellGrid, key: Label, r: nat, c: nat)
    requires IsPage(img) && ValidGrid(g) && IsKey(key) && r < g.rows && c < g.cols
    requires forall y, x :: 0 <= y < PageHeight && 0 <= x < PageWidth ==> img[y][x] == ColorOf(key)
    ensures CellLabel(img, g, r, c) == key
  {
    var w := g.cellW;
    CellInsidePage(g, r, c);
    AverageOfUniform(img, c * w, r * w, w, w, ColorOf(key));
    NearestOfPaletteColor(key);
  }
}
