/** The raster of a temperature map and the mapping between geographic
    coordinates and positions in its row-major data buffer (src/utils.js).

    Row 0 is the northern edge: latitude decreases by `latitudeStep` per row,
    longitude increases by `longitudeStep` per column, and the upper-left
    corner of cell 0 is (`latitude`, `longitude`). Coordinates are exact reals,
    so `Floor` plays the part of `Math.floor` without rounding error. */
module Grid {
  import opened Wrappers

  /** One raster cell: `None` is a no-data cell (`null` in the source). */
  type Cell = Option<real>

  /** The temperature map object built by generateTemperatureMap. `rows` is
      carried along but no query of the source reads it. */
  datatype TemperatureMap = TemperatureMap(
    data: seq<Cell>,
    rows: int,
    columns: int,
    latitude: real,
    longitude: real,
    latitudeStep: real,
    longitudeStep: real)

  /** What the queries need of a map: they divide by the column count and by
      both steps, so all three must be positive. */
  predicate Valid(g: TemperatureMap)
  {
    g.columns > 0 && g.latitudeStep > 0.0 && g.longitudeStep > 0.0
  }

  /** The index the source returns for a point that is not on the grid. */
  const NoIndex: int := -1

  /** A position in the order mapIndexToPoint returns it: `[lng, lat]`. */
  datatype Point = Point(lng: real, lat: real)

  /** JavaScript's `%`, which truncates toward zero, so a negative dividend
      gives a non-positive remainder (Dafny's `%` never does). */
  function JsRem(i: int, n: int): (r: int)
    requires n > 0
    ensures i >= 0 ==> 0 <= r < n
    ensures i < 0 ==> -n < r <= 0
    ensures (i - r) % n == 0
  {
    if i >= 0 then
      DivModUnique(i - i % n, n, i / n, 0);
      i % n
    else
      DivModUnique(i + (-i) % n, n, -((-i) / n), 0);
      -((-i) % n)
  }

  /** `y` in mapPointToIndex: the row whose band contains `lat`, counted
      southward from the northern edge. */
  function RowOf(g: TemperatureMap, lat: real): int
    requires Valid(g)
  {
    ((lat - g.latitude) / g.latitudeStep * -1.0).Floor
  }

  /** `x` in mapPointToIndex: the column whose band contains `lng`. */
  function ColumnOf(g: TemperatureMap, lng: real): int
    requires Valid(g)
  {
    ((lng - g.longitude) / g.longitudeStep).Floor
  }

  /** mapIndexToPoint: the upper-left corner of the cell at buffer index `i`,
      longitude first. */
  function MapIndexToPoint(g: TemperatureMap, i: int): (p: Point)
    requires Valid(g)
    ensures i >= 0 ==>
              g.longitude <= p.lng < g.longitude + g.columns as real * g.longitudeStep
    ensures i >= 0 ==> p.lat <= g.latitude
  {
    var row := (i as real / g.columns as real).Floor;
    var col := JsRem(i, g.columns);
    PositionBound(col, g.columns, g.longitudeStep);
    Point(col as real * g.longitudeStep + g.longitude,
          row as real * g.latitudeStep * -1.0 + g.latitude)
  }

  /** A column below the column count lies inside the grid's longitude span. */
  lemma PositionBound(col: int, columns: int, step: real)
    requires col < columns && step > 0.0
    ensures col as real * step < columns as real * step
  {
  }

  /** mapPointToIndex: the buffer index of the cell holding (`lat`, `lng`),
      or `NoIndex` for a point north or west of the grid, or one whose linear
      index runs past the end of the buffer. Only those two checks are made:
      a point east of the last column is not rejected (see
      EastOfGridWrapsToNextRow). */
  function MapPointToIndex(g: TemperatureMap, lat: real, lng: real): (r: int)
    requires Valid(g)
    ensures r == NoIndex || 0 <= r < |g.data|
    ensures lat > g.latitude || lng < g.longitude ==> r == NoIndex
    ensures r != NoIndex <==>
              lat <= g.latitude && g.longitude <= lng
              && RowOf(g, lat) * g.columns + ColumnOf(g, lng) < |g.data|
  {
    var y := RowOf(g, lat);
    var x := ColumnOf(g, lng);
    if lat > g.latitude || lng < g.longitude then
      NoIndex
    else if y * g.columns + x >= |g.data| then
      NoIndex
    else
      NonNegativeIndex(g, lat, lng);
      y * g.columns + x
  }

  /** A point south-east of the upper-left corner has a non-negative row and
      column, hence a non-negative linear index. */
  lemma NonNegativeIndex(g: TemperatureMap, lat: real, lng: real)
    requires Valid(g)
    requires lat <= g.latitude && g.longitude <= lng
    ensures RowOf(g, lat) >= 0 && ColumnOf(g, lng) >= 0
    ensures RowOf(g, lat) * g.columns + ColumnOf(g, lng) >= 0
  {
    assert (lat - g.latitude) / g.latitudeStep * -1.0 >= 0.0;
    assert (lng - g.longitude) / g.longitudeStep >= 0.0;
  }

  /** temperature: the cell at a point. The outer `None` is the source's
      `undefined` (it indexes the buffer with -1); `Some(None)` is a no-data
      cell. */
  function Temperature(g: TemperatureMap, lat: real, lng: real): (r: Option<Cell>)
    requires Valid(g)
    ensures r.None? <==> MapPointToIndex(g, lat, lng) == NoIndex
    ensures r.Some? ==> r.value == g.data[MapPointToIndex(g, lat, lng)]
  {
    var i := MapPointToIndex(g, lat, lng);
    if 0 <= i < |g.data| then Some(g.data[i]) else None
  }

  /** Round trip: the corner of every cell maps back to that cell's index. */
  lemma IndexRoundTrip(g: TemperatureMap, i: int)
    requires Valid(g) && 0 <= i < |g.data|
    ensures var p := MapIndexToPoint(g, i); MapPointToIndex(g, p.lat, p.lng) == i
  {
    var c := g.columns;
    var row := i / c;
    var col := i % c;
    assert i == row * c + col;
    FloorOfQuotient(i, c);
    assert (i as real / c as real).Floor == row;
    var p := MapIndexToPoint(g, i);
    assert p.lng == col as real * g.longitudeStep + g.longitude;
    assert p.lat == row as real * g.latitudeStep * -1.0 + g.latitude;
    assert (p.lat - g.latitude) / g.latitudeStep * -1.0 == row as real;
    assert (p.lng - g.longitude) / g.longitudeStep == col as real;
    assert RowOf(g, p.lat) == row;
    assert ColumnOf(g, p.lng) == col;
  }

  /** `Math.floor(i / n)` on exact reals is Dafny's integer division for a
      non-negative `i`. */
  lemma FloorOfQuotient(i: int, n: int)
    requires i >= 0 && n > 0
    ensures (i as real / n as real).Floor == i / n
  {
    var q := i / n;
    var r := i % n;
    assert i == q * n + r && 0 <= r < n;
    assert i as real == q as real * n as real + r as real;
    assert i as real / n as real == q as real + r as real / n as real;
    assert 0.0 <= r as real / n as real < 1.0;
  }

  /** The upper-left corner of the map is cell 0 of any non-empty buffer. */
  lemma OriginIsIndexZero(g: TemperatureMap)
    requires Valid(g) && |g.data| > 0
    ensures MapPointToIndex(g, g.latitude, g.longitude) == 0
  {
    assert RowOf(g, g.latitude) == 0;
    assert ColumnOf(g, g.longitude) == 0;
  }

  /** A point whose column is inside the grid lies in the cell its index names:
      within one step east of that cell's corner and one step south of it. */
  lemma PointLiesInItsCell(g: TemperatureMap, lat: real, lng: real)
    requires Valid(g)
    requires MapPointToIndex(g, lat, lng) != NoIndex
    requires ColumnOf(g, lng) < g.columns
    ensures var p := MapIndexToPoint(g, MapPointToIndex(g, lat, lng));
            p.lng <= lng < p.lng + g.longitudeStep
            && p.lat - g.latitudeStep < lat <= p.lat
  {
    var y, x := RowOf(g, lat), ColumnOf(g, lng);
    CornerOfCellAt(g, lat, lng, y, x);
    LongitudeBand(g, lng, x);
    LatitudeBand(g, lat, y);
  }

  /** The corner of the cell a point maps to, in terms of its row and
      column. */
  lemma CornerOfCellAt(g: TemperatureMap, lat: real, lng: real, y: int, x: int)
    requires Valid(g)
    requires MapPointToIndex(g, lat, lng) != NoIndex
    requires y == RowOf(g, lat) && x == ColumnOf(g, lng) && x < g.columns
    ensures MapIndexToPoint(g, MapPointToIndex(g, lat, lng))
            == Point(x as real * g.longitudeStep + g.longitude,
                     y as real * g.latitudeStep * -1.0 + g.latitude)
  {
    IndexOfPoint(g, lat, lng);
    CornerOfRowAndColumn(g, y, x, MapPointToIndex(g, lat, lng));
  }

  /** An index that is not `NoIndex` is the point's row times the column
      count plus its column. */
  lemma IndexOfPoint(g: TemperatureMap, lat: real, lng: real)
    requires Valid(g)
    requires MapPointToIndex(g, lat, lng) != NoIndex
    ensures RowOf(g, lat) >= 0 && ColumnOf(g, lng) >= 0
    ensures MapPointToIndex(g, lat, lng) == RowOf(g, lat) * g.columns + ColumnOf(g, lng)
  {
    NonNegativeIndex(g, lat, lng);
  }

  /** When the buffer holds exactly `rows * columns` cells, a point south of
      the last row has no index. */
  lemma SouthOfGridHasNoIndex(g: TemperatureMap, lat: real, lng: real)
    requires Valid(g) && g.rows >= 0 && |g.data| == g.rows * g.columns
    requires lat <= g.latitude - g.rows as real * g.latitudeStep
    ensures MapPointToIndex(g, lat, lng) == NoIndex
  {
    if lat <= g.latitude && g.longitude <= lng {
      var y, x := RowOf(g, lat), ColumnOf(g, lng);
      NonNegativeIndex(g, lat, lng);
      LatitudeBand(g, lat, y);
      RowPastLast(y, g.rows, g.latitudeStep, g.latitude, lat);
      RowsFillBuffer(y, g.rows, g.columns, x);
    }
  }

  /** A latitude in row `y`'s band that lies `rows` steps or more below the
      top edge puts `y` at or past `rows`. */
  lemma RowPastLast(y: int, rows: int, step: real, top: real, lat: real)
    requires step > 0.0
    requires y as real * step * -1.0 + top - step < lat <= top - rows as real * step
    ensures y >= rows
  {
    if y < rows {
      assert (y + 1) as real * step == y as real * step + step;
      MulMono((y + 1) as real, rows as real, step);
    }
  }

  /** A row at or past `rows` starts at or past the end of a
      `rows * columns` buffer. */
  lemma RowsFillBuffer(y: int, rows: int, columns: int, x: int)
    requires columns > 0 && y >= rows && x >= 0
    ensures y * columns + x >= rows * columns
  {
    assert y * columns - rows * columns == (y - rows) * columns;
  }

  /** The corner of the cell at row `y`, column `x`. */
  lemma CornerOfRowAndColumn(g: TemperatureMap, y: int, x: int, i: int)
    requires Valid(g) && y >= 0 && 0 <= x < g.columns && i == y * g.columns + x
    ensures MapIndexToPoint(g, i)
            == Point(x as real * g.longitudeStep + g.longitude,
                     y as real * g.latitudeStep * -1.0 + g.latitude)
  {
    DivModUnique(i, g.columns, y, x);
    FloorOfQuotient(i, g.columns);
  }

  /** A longitude lies within one step east of its column's edge. */
  lemma LongitudeBand(g: TemperatureMap, lng: real, x: int)
    requires Valid(g) && x == ColumnOf(g, lng)
    ensures x as real * g.longitudeStep + g.longitude <= lng
            < x as real * g.longitudeStep + g.longitude + g.longitudeStep
  {
    QuotientBand(lng - g.longitude, g.longitudeStep);
  }

  /** A latitude lies within one step south of its row's edge. */
  lemma LatitudeBand(g: TemperatureMap, lat: real, y: int)
    requires Valid(g) && y == RowOf(g, lat)
    ensures y as real * g.latitudeStep * -1.0 + g.latitude - g.latitudeStep < lat
            <= y as real * g.latitudeStep * -1.0 + g.latitude
  {
    assert (lat - g.latitude) / g.latitudeStep * -1.0 == (g.latitude - lat) / g.latitudeStep;
    QuotientBand(g.latitude - lat, g.latitudeStep);
    assert y as real * g.latitudeStep * -1.0 == -(y as real * g.latitudeStep);
  }

  /** `Math.floor(d / s)` steps of size `s` fit in `d`, one more does not. */
  lemma QuotientBand(d: real, s: real)
    requires s > 0.0
    ensures (d / s).Floor as real * s <= d < (d / s).Floor as real * s + s
  {
    var q := d / s;
    var f := q.Floor as real;
    assert q * s == d;
    MulMono(q, f + 1.0, s);
    assert q * s < (f + 1.0) * s;
    assert (f + 1.0) * s == f * s + s;
    assert d < f * s + s;
    assert f * s <= d by { MulMono(f, q, s); }
  }

  /** Multiplying by a positive factor keeps the order. */
  lemma MulMono(a: real, b: real, s: real)
    requires s > 0.0 && a <= b
    ensures a * s <= b * s
    ensures a < b ==> a * s < b * s
  {
  }

  /** Division with remainder is unique. */
  lemma DivModUnique(i: int, c: int, q: int, r: int)
    requires c > 0 && 0 <= r < c && i == q * c + r
    ensures i / c == q && i % c == r
  {
    var d := q - i / c;
    assert d * c == i % c - r;
  }

  /** The longitude check never rejects a point east of the last column: such
      a point takes the index of a cell on a later row, as long as that index
      is inside the buffer. Here a 2 x 2 grid with unit steps maps the point
      two columns east of the origin to cell 2, the first cell of row 1. */
  lemma EastOfGridWrapsToNextRow()
    ensures var g := TemperatureMap([Some(1.0), Some(2.0), Some(3.0), None], 2, 2, 10.0, 10.0, 1.0, 1.0);
            MapPointToIndex(g, 10.0, 12.0) == 2
            && MapIndexToPoint(g, 2) == Point(10.0, 9.0)
  {
    var g := TemperatureMap([Some(1.0), Some(2.0), Some(3.0), None], 2, 2, 10.0, 10.0, 1.0, 1.0);
    assert RowOf(g, 10.0) == 0;
    assert ColumnOf(g, 12.0) == 2;
    FloorOfQuotient(2, 2);
  }

  /** Looking up the corner of a cell yields exactly that cell's content. */
  lemma TemperatureAtCellCorner(g: TemperatureMap, i: int)
    requires Valid(g) && 0 <= i < |g.data|
    ensures var p := MapIndexToPoint(g, i); Temperature(g, p.lat, p.lng) == Some(g.data[i])
  {
    IndexRoundTrip(g, i);
  }
}
