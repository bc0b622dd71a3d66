/** The pixel window of the region of interest: lines 27 to 37 of the
    extraction turn the region's corner coordinates into a rasterio Window.
    The geographic-to-pixel inverse `rowcol` belongs to the raster library
    and is a parameter here. */
module Clip {

  /** The region's bounds in degrees (DC_BOUNDS). */
  const WEST: real := -77.12
  const EAST: real := -76.90
  const SOUTH: real := 38.80
  const NORTH: real := 39.00

  /** A (row, col) pixel position, as rowcol returns it. */
  datatype Pixel = Pixel(row: int, col: int)

  /** A pixel position as latlon_to_pixel returns it: column first. */
  datatype Point = Point(x: int, y: int)

  /** rasterio's Window(col_off, row_off, width, height). */
  datatype Window = Window(colOff: int, rowOff: int, width: int, height: int)

  /** latlon_to_pixel: the (row, col) of the library's inverse transform,
      handed back as (col, row). */
  function LatLonToPixel(rowcol: (real, real) -> Pixel, lon: real, lat: real): (q: Point)
    ensures q.x == rowcol(lon, lat).col && q.y == rowcol(lon, lat).row
  {
    var rc := rowcol(lon, lat);
    Point(rc.col, rc.row)
  }

  /** The window read from the raster.  x_min and y_max come from the
      north-west corner, x_max and y_min from the south-east one. */
  function ClipWindow(rowcol: (real, real) -> Pixel): (w: Window)
    ensures w.colOff == rowcol(WEST, NORTH).col && w.rowOff == rowcol(EAST, SOUTH).row
    ensures w.colOff + w.width == rowcol(EAST, SOUTH).col
    ensures w.rowOff + w.height == rowcol(WEST, NORTH).row
  {
    var nw := LatLonToPixel(rowcol, WEST, NORTH);
    var se := LatLonToPixel(rowcol, EAST, SOUTH);
    var xMin, yMax := nw.x, nw.y;
    var xMax, yMin := se.x, se.y;
    Window(xMin, yMin, xMax - xMin, yMax - yMin)
  }

}
