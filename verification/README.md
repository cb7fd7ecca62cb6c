# temperatures — a Dafny model of the raster core

The `temperatures` server reads a gridded temperature raster. The raster comes
as a `.bil` data buffer plus a `KEY VALUE` header file. The server answers
questions about points and boxes on it, and projects it to GeoJSON points.
This project models the pure part of that server:

- `src/utils.js`: the grid index mapping (`mapPointToIndex`, `mapIndexToPoint`,
  `temperature`), the bounding-box queries (`arrangeBounds`,
  `valuesWithinBounds`, `averageTemperature`) and the GeoJSON projection
  (`toGeoJson`);
- `src/read.js`: the header-line parser (`parseHeaderLine` with
  `/^(\w+)\s+(\S+)/`), the split / filter / reduce that `readHeaderFile`
  applies to the header text, and `generateTemperatureMap`.

Modules, in dependency order:

- `Wrappers`: `Option` and `Compact` (`.filter(v => v)` over optional values).
- `Chars`: the character classes of the pattern and the greedy scan `Span`.
- `Decimal`: the `parseFloat` / `isNaN` conversion of a header token.
- `Grid`: the temperature map record and the index mapping.
- `Bounds`: the box queries.
- `GeoJson`: the projection to features.
- `Header`: the line parser, the line split and the fold.
- `Assemble`: `generateTemperatureMap` and the header-text-to-map pipeline.

Choices made in the model:

- Coordinates and steps are exact `real`s, and `Floor` stands for `Math.floor`.
- JavaScript's truncating `%` is written out as `Grid.JsRem`.
- `temperature` returns `Option<Option<real>>`. The outer `None` is the
  source's `undefined`, from indexing the buffer with `-1`. `Some(None)` is a
  no-data cell (`null`).
- The `+=` loops of `valuesWithinBounds` are modelled on the lattice they walk
  over exact reals: the k-th longitude is `west + k * longitudeStep`, and the
  j-th latitude is `south + j * latitudeStep`.
- The header fold skips the key `__proto__`. On a plain JavaScript object,
  `config['__proto__'] = v` does not create a property when `v` is a number or
  a string.

Behaviours of the code that are easy to miss, all modelled as written:

- `valuesWithinBounds` keeps a value only when it is truthy (`if (value)`), so
  a reading of exactly 0 is dropped along with the no-data cells.
  `Bounds.ZeroReadingIsDropped` shows the effect on an average. `toGeoJson`
  tests `temp === null` and keeps zeros.
- `mapPointToIndex` rejects only points north or west of the grid and indices
  past the buffer's end. A point east of the last column therefore lands on a
  later row (`Grid.EastOfGridWrapsToNextRow`), and a box east of the grid can
  have an average (`Bounds.AverageEastOfGridExample`). A box south of the last
  row has none when the buffer holds exactly `rows * columns` cells
  (`Bounds.AverageSouthOfGridIsNone`).
- `ULYMAP` and `ULXMAP` are floored from, so they act as the upper-left corner
  of cell 0.
- The header object is read only at `NODATA`, `NROWS`, `NCOLS`, `ULYMAP`,
  `ULXMAP`, `YDIM` and `XDIM`. `Object.prototype` has none of these, so an
  absent key reads as `undefined`, which `Assemble.Lookup` gives as `None`.

## Model

| member | source | states |
|---|---|---|
| Grid.JsRem | src/utils.js:76 | `i % columns` differs from `i` by a multiple of `columns`, and lies in `[0, columns)` for a non-negative index and in `(-columns, 0]` for a negative one: JavaScript's truncating `%` |
| Grid.MapPointToIndex | src/utils.js:82-97 | the index is `-1` or a position in the buffer; it is `-1` for every point north or west of the grid's corner; it is not `-1` exactly when the point is south-east of the corner and `y * columns + x` is below the buffer length |
| Grid.MapIndexToPoint | src/utils.js:72-79 | for a non-negative index, the longitude lies within the grid's `columns * longitudeStep` span east of the corner, and the latitude is at or south of the top edge |
| Grid.Temperature | src/utils.js:17-19 | the lookup is absent (`undefined`) exactly when mapPointToIndex gives `-1`; otherwise it is the buffer's cell at that index |
| Grid.IndexRoundTrip | src/utils.js:72-97 | for every index of the buffer, mapPointToIndex of mapIndexToPoint gives the index back |
| Grid.OriginIsIndexZero | src/utils.js:82-96 | the grid's upper-left corner maps to index 0 whenever the buffer is non-empty |
| Grid.PointLiesInItsCell | src/utils.js:72-97 | a point with an index, and a column inside the grid, lies within one step east and one step south of the corner mapIndexToPoint gives for its index |
| Grid.EastOfGridWrapsToNextRow | src/utils.js:85-96 | east-of-grid points are not rejected: on a 2 x 2 grid the point two columns east of the corner maps to cell 2, whose corner is on the next row |
| Grid.TemperatureAtCellCorner | src/utils.js:17-19 | looking up the corner of any cell yields that cell's content |
| Grid.SouthOfGridHasNoIndex | src/utils.js:85-96 | when the buffer holds exactly `rows * columns` cells, every point `rows` steps or more south of the top edge maps to `-1` |
| Bounds.ArrangeBounds | src/utils.js:24-30 | the result is arranged (low corner at or below the high corner on both axes); it contains both input corners; it lies inside every box that contains them; and each coordinate comes from one of the inputs |
| Bounds.ArrangeBoundsSymmetric | src/utils.js:24-30 | swapping the two input corners gives the same box |
| Bounds.ArrangeBoundsIdempotent | src/utils.js:24-30 | an arranged box is left unchanged, so arranging twice equals arranging once |
| Bounds.LoopBounds | src/utils.js:44-45 | the loop test `lng <= east` holds for exactly the first `floor((east - west) / longitudeStep) + 1` longitudes, and likewise for latitudes |
| Bounds.Reading | src/utils.js:47-50 | a reading is kept exactly when the point has an index and the cell there holds a non-zero value, and then it is that value |
| Bounds.LatSweep | src/utils.js:45-51 | the inner loop's entries are each what the source pushes for their point, all at the loop's longitude, within the latitude range, and strictly increasing in latitude |
| Bounds.LatSweepOnLattice | src/utils.js:45 | every entry of the inner loop is at one of the latitudes the loop visits |
| Bounds.LatSweepComplete | src/utils.js:45-50 | every visited latitude up to the northern edge whose reading is kept is in the inner loop's result |
| Bounds.LngSweep | src/utils.js:44-52 | the outer loop's entries are each what the source pushes for their point, and lie within the box's longitude and latitude ranges |
| Bounds.LngSweepSorted | src/utils.js:44-45 | the outer loop's entries are sorted longitude-major, then by latitude, both strictly ascending |
| Bounds.EntryOnLattice | src/utils.js:44-45 | every entry of the outer loop sits on a lattice point the two loops visit |
| Bounds.LngSweepComplete | src/utils.js:44-50 | every lattice point of the box whose reading is kept is in the outer loop's result |
| Bounds.ValuesWithinBounds | src/utils.js:40-55 | the result is exactly the kept lattice points of the arranged box: each entry has `index == mapPointToIndex(lat, lng)` and `data[index] == value`, a non-zero value, and a point inside the box on the lattice; the entries are in loop order; and every kept lattice point appears |
| Bounds.SumAppend | src/utils.js:68 | the sum of two runs of values laid end to end is the sum of their sums |
| Bounds.SumAtLeast | src/utils.js:68 | `n` values, each at least `lo`, sum to at least `n * lo` |
| Bounds.SumAtMost | src/utils.js:68 | `n` values, each at most `hi`, sum to at most `n * hi` |
| Bounds.Mean | src/utils.js:68 | the mean of a non-empty sequence is its sum divided by its length, and lies between its smallest and largest element |
| Bounds.AverageOf | src/utils.js:66-68 | `null` exactly for no entries; otherwise the sum of the values over their count, which is at least one value and at most another |
| Bounds.AverageTemperature | src/utils.js:61-69 | `null` exactly when valuesWithinBounds of the query box is empty; otherwise the mean of its values, which lies between the smallest and largest of them |
| Bounds.AverageOutsideGridIsNone | src/utils.js:61-69 | a box entirely north of the grid, or entirely west of it, has no average |
| Bounds.AverageSouthOfGridIsNone | src/utils.js:61-69 | when the buffer holds exactly `rows * columns` cells, a box entirely south of the last row has no average |
| Bounds.AverageEastOfGridExample | src/utils.js:40-96 | a box wholly east of a 2 x 2 grid still has an average: its one point lands on the next row's first cell, so the average is that cell's 3 |
| Bounds.EntriesLieOnGrid | src/utils.js:47-50 | every entry lies south-east of the grid's upper-left corner |
| Bounds.AverageExample | src/utils.js:40-69 | over a 2 x 2 grid with one no-data cell, the box from (9, 9) to (11, 11) averages the three readings to 2 |
| Bounds.ZeroReadingIsDropped | src/utils.js:50 | on a grid holding `[0, 4]` the average over both cells is 4, not 2: the zero reading is dropped |
| GeoJson.PresentIndices | src/utils.js:105-118 | the indices of the non-null cells, strictly increasing, each below the bound, and all of them |
| GeoJson.Project | src/utils.js:105-117 | one entry per cell; an entry is `null` exactly when its cell is; otherwise it is the feature placed at mapIndexToPoint of the cell's index and carrying the cell's value |
| GeoJson.ToGeoJson | src/utils.js:102-120 | the j-th feature is the feature of the j-th non-null cell in index order, placed at mapIndexToPoint of its index and carrying its value |
| GeoJson.ProjectThenCompact | src/utils.js:105-118 | mapping the cells to features or `null` and then filtering out the nulls gives the features of the non-null cells, in order |
| GeoJson.FeaturesMatchCells | src/utils.js:102-120 | every feature comes from a cell holding its value at its coordinates, and every non-null cell (zero included) yields its feature |
| GeoJson.FeatureCount | src/utils.js:105-118 | there are as many features as non-null cells |
| Decimal.ParseNumber | src/read.js:11 | the token reads as a number exactly when, after an optional sign, it starts with a digit or with a point followed by a digit |
| Decimal.ParseIntRoundTrip | src/read.js:11 | a decimal integer, negative ones included, reads back as that integer |
| Decimal.ParseFractionExample | src/read.js:11 | a fraction is read and trailing text is ignored: `-124.5W` reads as -124.5 |
| Header.ToHeaderValue | src/read.js:11 | the value is numeric exactly when the token starts numerically, and then it is the parsed number; otherwise it is the raw token |
| Header.ParseHeaderLine | src/read.js:7-12 | an accepted line starts with its key, a non-empty run of word characters shorter than the line, and the key is followed by white space |
| Header.ParseHeaderLineSound | src/read.js:4-12 | an accepted line matches `^(\w+)\s+(\S+)`, its key is the first group, and its value is the converted second group, taken greedily |
| Header.ParseAcceptsEveryMatch | src/read.js:4-11 | every line that matches the pattern is accepted, with the match's first group as key and its greedy second group as the value's token |
| Header.ParseRefusesNonMatches | src/read.js:4-8 | a line the pattern does not match yields `null` |
| Header.MatchBoundsAreSpans | src/read.js:4 | the bounds of any match are where the greedy scans stop |
| Header.ShapeUnique | src/read.js:4 | two greedy matches of one line are the same match |
| Header.TrailingTextIgnored | src/read.js:4-11 | text after the token, starting with white space, leaves the parse unchanged |
| Header.NoSpaceAfterKeyRefused | src/read.js:4-8 | a line whose leading word run is empty or not followed by white space yields `null` |
| Header.LeadingSpaceRefused | src/read.js:4-8 | a line starting with white space yields `null` |
| Header.EqualsSignRefused | src/read.js:4-8 | `KEY=VALUE` yields `null`, whatever the value |
| Header.KeyNumberLineParsed | src/read.js:4-11 | `KEY n`, with a word key and a decimal integer `n`, yields the pair of the key and the number `n` |
| Header.SplitLines | src/read.js:17 | `split(/\n/)` yields at least one piece, none holds a line feed, and joining the pieces with line feeds gives the text back |
| Header.SplitJoinRoundTrip | src/read.js:17 | splitting the join of pieces without line feeds gives the pieces back |
| Header.ParsedLines | src/read.js:17 | one parse result per piece of the split, in the pieces' order |
| Header.Assign | src/read.js:19-22 | `config[key] = value` binds the key to the value (for `__proto__` the object is left as it was) and leaves every other key's presence and binding unchanged |
| Header.FoldHeaders | src/read.js:19-22 | after the reduce a key is bound exactly when some parsed line carries it (`__proto__` aside), and then to the value of the last such line |
| Header.FoldPrefixFiltered | src/read.js:17-22 | stepping over the unparsed lines during the fold is the same as filtering them out first and then folding |
| Header.FoldParsed | src/read.js:17-22 | a key is bound exactly when some parsed line carries it (`__proto__` aside), and then to the value of the last such line |
| Header.ReadHeaderText | src/read.js:16-23 | for the raw header text: a key is bound exactly when some line of the text parses with that key (`__proto__` aside), and then to the value of the last such line |
| Assemble.MarkNoData | src/read.js:49 | a sample becomes `null` exactly when it equals a numeric NODATA, and is otherwise kept |
| Assemble.IsNoData | src/read.js:49 | a sample is no-data only when the header binds `NODATA` to exactly that number; without a numeric `NODATA` no sample is |
| Assemble.NoDataIsOneValue | src/read.js:49 | at most one value is the no-data value |
| Assemble.GenerateTemperatureMap | src/read.js:47-57 | the data keeps its length; cell i is `null` exactly when sample i equals NODATA, and otherwise holds the sample; the six metadata fields are NROWS, NCOLS, ULYMAP, ULXMAP, YDIM and XDIM of the header |
| Assemble.RestoreNoData | src/read.js:49 | writing NODATA back into the `null` cells restores the data buffer exactly |
| Assemble.NoNumericNoDataKeepsAll | src/read.js:49 | without a numeric NODATA, every sample is kept |
| Assemble.ColumnsFromLastHeaderLine | src/read.js:17-22 | the column count of the assembled map is the value of the last header line with key NCOLS |
| Assemble.ColumnsMissing | src/read.js:17-22 | with no NCOLS line the column count is `undefined` |
| Assemble.ReadAsTemperatureMap | src/read.js:61-66 | from the header text and the samples: one cell per sample; a cell is `null` exactly when its sample equals the `NODATA` number of the folded header, and otherwise holds the sample; the six metadata fields are the folded header's NROWS, NCOLS, ULYMAP, ULXMAP, YDIM and XDIM |
| Assemble.NoDataFromLastHeaderLine | src/read.js:17-22 | end to end: when the last header line parsing with key `NODATA` carries the number `x`, a cell is `null` exactly when its sample is `x` |

## Left out

- `src/server.js`: HTTP routing, static files, and tile building and encoding. The tile libraries it calls are not part of this model.
- `readFilePromise`, and the file reads in `readHeaderFile` and `readFileAsTemperatureMap`: asynchronous file I/O. The model starts from the header text and the decoded samples (`Assemble.ReadAsTemperatureMap`).
- `readDataFile`: decoding 32-bit little-endian IEEE-754 floats. The samples are taken as given `real`s, so NaN samples are not modelled either.
- Floating-point rounding: all arithmetic is exact. The accumulating `+=` loops of `valuesWithinBounds` can drift from the lattice at the box's edges, and that drift is not modelled.
- Decimal.ParseNumber: handles only an optional sign, decimal digits and an optional fraction. Exponents, `Infinity`, and `parseFloat`'s skipping of leading white space are left out. Header tokens never start with white space, so that last omission does not affect the parse.
- Chars.IsSpace: treats `\s` as ASCII white space only. The Unicode spaces the JavaScript class also covers are left out.
- Grid.Valid: the queries require a positive column count and positive steps. With a zero or negative step the loops of `valuesWithinBounds` never end (`lng += 0` does not advance, and a negative step walks away from the arranged box's far edge); that non-termination is the source's behaviour, and it is why the `decreases` of `Bounds.LatSweep` and `Bounds.LngSweep` need Valid. A negative `columns` makes `mapPointToIndex` return negative indices other than -1, and a zero `columns` makes `mapIndexToPoint` divide by zero; neither is modelled.
- Grid.PointLiesInItsCell: stated only for points whose column is inside the grid. East-of-grid points wrap around (`Grid.EastOfGridWrapsToNextRow`).
- `rows`: carried in the map, but no query reads it; it appears only in the hypothesis `|data| == rows * columns` of the south-of-grid lemmas.
- Assemble.ToGrid: a bridge from the untyped object to the typed map, not a step of the source. The source does not check the header's fields and would compute with `undefined` or strings.
