/** Grid dimensions of the halftone background: the cell size chosen by the
    viewport breakpoint and the row and column counts that cover the canvas. */
module HalftoneGrid {

  /** Viewports narrower than this many pixels count as mobile. */
  const MobileBreakpointPx: nat := 768
  /** Cell size on mobile viewports: denser grid. */
  const MobileGridSize: nat := 15
  /** Cell size on wider viewports. */
  const DesktopGridSize: nat := 20

  /** Cell size chosen by `window.innerWidth`. */
  function GridSize(viewportWidth: nat): (g: nat)
    ensures g > 0
    ensures viewportWidth < MobileBreakpointPx ==> g < DesktopGridSize
  {
    if viewportWidth < MobileBreakpointPx then MobileGridSize else DesktopGridSize
  }

  /** `Math.ceil(n / d)` on non-negative integers: the least `q` with `q * d >= n`. */
  function CeilDiv(n: nat, d: nat): (q: nat)
    requires d > 0
    ensures q * d >= n
    ensures q * d < n + d
  {
    (n + d - 1) / d
  }

  /** One frame's grid: the cell size, and the number of rows and columns drawn. */
  datatype GridLayout = GridLayout(gridSize: nat, rows: nat, cols: nat)

  /** The grid computed at the start of `drawHalftoneWave`. The cell size depends
      on the viewport width; the counts depend on the canvas size. */
  function Layout(viewportWidth: nat, canvasWidth: nat, canvasHeight: nat): (r: GridLayout)
    ensures r.gridSize == GridSize(viewportWidth)
    ensures r.cols * r.gridSize >= canvasWidth && r.cols * r.gridSize < canvasWidth + r.gridSize
    ensures r.rows * r.gridSize >= canvasHeight && r.rows * r.gridSize < canvasHeight + r.gridSize
  {
    var g := GridSize(viewportWidth);
    GridLayout(g, CeilDiv(canvasHeight, g), CeilDiv(canvasWidth, g))
  }

  /** Every cell centre `(x * gridSize, y * gridSize)` with `x < cols` and
      `y < rows` lies on the canvas. */
  lemma CentresOnCanvas(viewportWidth: nat, canvasWidth: nat, canvasHeight: nat, x: nat, y: nat)
    requires x < Layout(viewportWidth, canvasWidth, canvasHeight).cols
    requires y < Layout(viewportWidth, canvasWidth, canvasHeight).rows
    ensures x * GridSize(viewportWidth) < canvasWidth
    ensures y * GridSize(viewportWidth) < canvasHeight
  {
  }

  /** Every pixel column of the canvas falls in the cell of some drawn column. */
  lemma EveryPixelColumnCovered(viewportWidth: nat, canvasWidth: nat, canvasHeight: nat, p: nat)
    requires p < canvasWidth
    ensures p / GridSize(viewportWidth) < Layout(viewportWidth, canvasWidth, canvasHeight).cols
    ensures (p / GridSize(viewportWidth)) * GridSize(viewportWidth) <= p
  {
  }

  /** A zero-sized canvas draws no cells; a non-empty one draws at least one. */
  lemma EmptyCanvasDrawsNothing(viewportWidth: nat, canvasWidth: nat, canvasHeight: nat)
    ensures Layout(viewportWidth, canvasWidth, canvasHeight).cols == 0 <==> canvasWidth == 0
    ensures Layout(viewportWidth, canvasWidth, canvasHeight).rows == 0 <==> canvasHeight == 0
  {
  }
}
