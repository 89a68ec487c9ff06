# Mystery Mosaic: grid and palette pipeline

This project models the core of the Mystery Mosaic colour-by-number generator
(`App.py`). `generate_mosaic_pages` first converts the uploaded image to RGB
and resizes and crops it to one 8.5 x 11 inch page at 300 DPI (2550 x 3300
pixels). The model starts from the image after that step, as a 2550 x 3300
array of pixels, and covers the four things the generator then does:

- It cuts the page into square cells. The cell side is the page width divided
  by the requested column count, rounded down. As many whole rows as fit are
  used.
- It averages the colour of every cell.
- It gives every cell the key of the nearest colour in a fixed 28-entry
  palette. The distance is squared RGB distance, and the first minimal entry
  in palette order wins a tie.
- It paints the solution page: a white page on which every cell is filled
  with the colour of its key.

Modules, one per component of `App.py`:

- `Palette` (`palette.dfy`): the palette as an ordered list of (key, colour)
  entries, which is the Python dict in its insertion order. It also holds the
  squared distance, the first-argmin specification `FirstMinIndex`, and the
  scan `ScanPalette` / `NearestPaletteLabel` that is proved against it.
- `Grid` (`grid.dfy`): `compute_cell_grid` and the geometry of cells. Cells
  lie inside the page, are pairwise disjoint, and pixel (x, y) of the grid
  area is in cell (y / cellW, x / cellW).
- `Averaging` (`averaging.dfy`): the page image as rows of pixels, channel
  sums over a block, and `average_color_of_region` as the floored mean. The
  floored mean lies within any bounds of the block's pixels.
- `Mosaic` (`mosaic.dfy`): the label-grid loops, which append keys and rows,
  and the solution fill of an `array2<Rgb>` canvas in place, one inclusive
  rectangle per cell. It also holds the idempotence of the reducer on its own
  solution pages.

Three behaviours of the code shape the model:

- The code has no grid-validation error. `compute_cell_grid` divides by zero
  for 0 columns and for more columns than 2550. The model therefore requires
  `1 <= cols <= 2550`, which covers the 20..150 range of the column slider.
- An empty cell region has no fallback colour in the code: the mean of an
  empty slice is NaN and `int()` raises. The model requires a non-empty,
  in-bounds block; every cell of a valid grid is one.
- Ties are broken by the dict's insertion order.

## Model

| member | source | states |
|---|---|---|
| `Palette.Keys` | App.py:23 | PALETTE_KEYS lists the keys of PALETTE in insertion order (entry i is the key of palette entry i), exactly the keys of PALETTE, and no key twice |
| `Palette.PaletteWellFormed` | App.py:11-22 | the palette constant `Entries` (PALETTE, entry for entry in insertion order) has 28 entries, keys are unique, colours are pairwise distinct and every channel is in 0..255 |
| `Palette.ColorOf` | App.py:86 | `PALETTE[key]` is the colour of the entry with that key |
| `Palette.SqDist` | App.py:35-36 | the squared RGB distance is non-negative and is zero exactly when the two colours are equal |
| `Palette.FirstMinIndex` | App.py:34-39 | after scanning the first n entries, the kept index has a distance no larger than any scanned entry, and every entry before it is strictly farther |
| `Palette.NearestIsFirstArgmin` | App.py:30-40 | the chosen key is a key of PALETTE, its colour is at minimal distance over the whole palette, and all earlier entries are strictly farther (ties go to the first minimal entry) |
| `Palette.FirstArgminUnique` | App.py:37 | any index that is minimal and has only strictly farther entries before it is the chosen index, so the choice is determined |
| `Palette.FirstMinAtOwnColor` | App.py:34-39 | in any palette, scanning for the colour of an entry that no other entry shares selects that entry |
| `Palette.NearestOfPaletteColor` | App.py:11-40 | a colour that is exactly a palette value maps back to its own key |
| `Palette.RedMapsToA` | App.py:15 | (255, 0, 0) is the colour of key "A" and maps to "A" |
| `Palette.NearestIndex` | App.py:30-40 | the index of the entry nearest_palette_label picks is a position of the 28-entry palette |
| `Palette.Nearest` | App.py:30-40 | the key nearest_palette_label returns for a colour is a key of PALETTE |
| `Palette.ScanPalette` | App.py:30-40 | the scan with strict `<` replacement returns the key at the first-argmin index of the palette, and None only for an empty palette |
| `Palette.NearestPaletteLabel` | App.py:30-40 | on PALETTE the scan never returns None and returns the first nearest key |
| `Grid.ComputeCellGrid` | App.py:51-54 | with PageWidth = 2550 and PageHeight = 3300 (App.py:10), for 1 <= cols <= 2550 the columns are unchanged, cellW >= 1 and rows >= 1, cellW*cols <= 2550 < (cellW+1)*cols and cellW*rows <= 3300 < cellW*(rows+1) |
| `Grid.CellInsidePage` | App.py:67-72 | every cell (r, c) of the grid, with left c*cellW and top r*cellW, lies inside the grid area and so inside the 2550 x 3300 page |
| `Grid.CellsDisjoint` | App.py:67-71 | two cells that share a pixel are the same cell |
| `Grid.PixelCell` | App.py:80-85 | every pixel of the grid area lies in cell (y / cellW, x / cellW), which is a cell of the grid |
| `Grid.CellInGridArea` | App.py:80-85 | a pixel of a grid cell lies in the grid area |
| `Averaging.AverageColorOfRegion` | App.py:56-59 | each channel of the average of a non-empty in-bounds block is the mean rounded down: times the pixel count it does not exceed the channel sum, and one more would |
| `Averaging.RowSum` | App.py:57-58 | the channel sum over one row of the block is non-negative when its pixels are |
| `Averaging.RegionSum` | App.py:57-58 | the channel sum over the whole block is non-negative when its pixels are, so flooring its quotient agrees with `int()` truncation of the mean |
| `Averaging.RegionSumWithin` | App.py:57-58 | if every pixel's channel lies in lo..hi, the block's channel sum lies between count*lo and count*hi |
| `Averaging.AverageWithin` | App.py:56-59 | each channel of the average lies between any bounds of that channel over the block, in particular between its minimum and maximum |
| `Averaging.AverageIs8Bit` | App.py:56-59 | a block of 8-bit pixels has an 8-bit average |
| `Averaging.AverageOfUniform` | App.py:56-59 | a block of one colour averages to exactly that colour |
| `Mosaic.CellLabel` | App.py:69-73 | the key of cell (r, c), the nearest palette key to the average of its cellW x cellW block, is a key of PALETTE |
| `Mosaic.BuildRowLabels` | App.py:68-74 | the appended row has cols keys, key c being the cell label of (r, c) |
| `Mosaic.BuildLabelGrid` | App.py:66-75 | the grid has rows rows of cols keys of PALETTE, entry [r][c] being the nearest key to the average of cell (r, c) |
| `Mosaic.SolutionPixel` | App.py:78-87 | every pixel of the finished solution page is white or one of the palette colours, so an 8-bit colour |
| `Mosaic.SolutionPageLayout` | App.py:78-87 | on the solution page every pixel of cell (r, c) has colour `PALETTE[label_grid[r][c]]` and every pixel right of or below the grid area is white |
| `Mosaic.FillRectangle` | App.py:84-87 | filling the inclusive rectangle [x0, y0, x1, y1] sets exactly its pixels to the fill colour and leaves every other pixel unchanged |
| `Mosaic.FillCell` | App.py:81-87 | one fill iteration paints exactly the pixels of cell (r, c) with `PALETTE[label_grid[r][c]]`, taking the page from "cells before (r, c) painted" to "cells up to (r, c) painted" |
| `Mosaic.RenderSolution` | App.py:78-87 | a fresh white 2550 x 3300 canvas, after all cells are filled in row-major order, holds the solution page pixel for pixel |
| `Mosaic.GenerateSolutionPage` | App.py:61-87 | from a page-sized image and a column count, the grid is compute_cell_grid's, the label grid is the per-cell nearest keys, and the solution canvas is the solution page |
| `Mosaic.SolutionImage` | App.py:78-87 | the solution page as an image value has the page's size |
| `Mosaic.ReductionIdempotent` | App.py:66-87 | reducing a solution page again gives back, cell by cell, the label grid it was painted from |
| `Mosaic.UniformPageLabels` | App.py:66-75 | a page of one palette colour gets that colour's key in every cell |

## Left out

- Resizing and cropping to the page (App.py:42-49): floating-point scale, truncating casts and Lanczos resampling in the imaging library. The model takes the image as already exactly 2550 x 3300.
- `.convert("RGB")` and numpy's floating-point mean (App.py:58, App.py:62): the mean is modelled as integer sum divided by count, rounded down. For non-negative pixels and these block sizes the float computation truncates to the same value.
- The puzzle page (App.py:89-108): font loading with its fallback, text metrics, float centring and outline strokes are drawing-library behaviour.
- PNG and PDF encoding (App.py:112-115, App.py:152-153) and the Streamlit interface (App.py:118-159): I/O.
- Grid.ComputeCellGrid: column counts outside 1..2550 are excluded by a precondition. The code raises ZeroDivisionError for 0 and for more than 2550 columns, and returns a negative grid for negative counts.
- Averaging.AverageColorOfRegion: empty or out-of-bounds blocks are excluded by a precondition. numpy would clip an out-of-range slice and produce NaN for an empty one; no cell of a valid grid is either.
- Mosaic.FillRectangle: the drawing library's clipping of rectangles that leave the canvas, and its handling of reversed corners, are not modelled; every rectangle drawn here lies inside the page.
- Pixel channels are unbounded integers. The 8-bit range of the image appears only as a hypothesis (`Averaging.AverageIs8Bit`), since the reducer itself works on Python integers.
