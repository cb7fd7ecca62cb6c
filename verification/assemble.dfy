/** generateTemperatureMap (src/read.js): the header object and the decoded
    data buffer combined into one temperature map, with no-data samples
    replaced by `null`. */
module Assemble {
  import opened Wrappers
  import opened Header
  import opened Grid

  /** The object generateTemperatureMap returns, before anything checks its
      fields: each metadata field is whatever the header holds under its
      key, `None` standing for `undefined` when the key is missing. */
  datatype RawTemperatureMap = RawTemperatureMap(
    data: seq<Cell>,
    rows: Option<HeaderValue>,
    columns: Option<HeaderValue>,
    latitude: Option<HeaderValue>,
    longitude: Option<HeaderValue>,
    latitudeStep: Option<HeaderValue>,
    longitudeStep: Option<HeaderValue>)

  /** `headers[key]` for one of the seven keys the source reads, none of
      which `Object.prototype` defines. */
  function Lookup(headers: map<string, HeaderValue>, key: string): Option<HeaderValue>
  {
    if key in headers then Some(headers[key]) else None
  }

  /** `v === headers.NODATA`: only a numeric NODATA equal to the sample
      matches; a missing or textual NODATA matches no number. */
  predicate IsNoData(headers: map<string, HeaderValue>, v: real)
    ensures IsNoData(headers, v) ==> "NODATA" in headers && headers["NODATA"] == Num(v)
    ensures !("NODATA" in headers && headers["NODATA"].Num?) ==> !IsNoData(headers, v)
  {
    Lookup(headers, "NODATA") == Some(Num(v))
  }

  /** At most one sample value is the no-data value. */
  lemma NoDataIsOneValue(headers: map<string, HeaderValue>, v: real, w: real)
    requires IsNoData(headers, v) && IsNoData(headers, w)
    ensures v == w
  {
  }

  /** The per-sample map `v => v === headers.NODATA ? null : v`. */
  function MarkNoData(headers: map<string, HeaderValue>, v: real): (c: Cell)
    ensures c.None? <==> IsNoData(headers, v)
    ensures c.Some? ==> c.value == v
  {
    if IsNoData(headers, v) then None else Some(v)
  }

  /** generateTemperatureMap: every sample equal to NODATA becomes a no-data
      cell, every other sample is kept in place, and the six metadata fields
      are read from NROWS, NCOLS, ULYMAP, ULXMAP, YDIM and XDIM. */
  function GenerateTemperatureMap(headers: map<string, HeaderValue>, data: seq<real>): (t: RawTemperatureMap)
    ensures |t.data| == |data|
    ensures forall i :: 0 <= i < |data| ==> (t.data[i].None? <==> IsNoData(headers, data[i]))
    ensures forall i :: 0 <= i < |data| && t.data[i].Some? ==> t.data[i].value == data[i]
    ensures t.rows == Lookup(headers, "NROWS") && t.columns == Lookup(headers, "NCOLS")
    ensures t.latitude == Lookup(headers, "ULYMAP") && t.longitude == Lookup(headers, "ULXMAP")
    ensures t.latitudeStep == Lookup(headers, "YDIM") && t.longitudeStep == Lookup(headers, "XDIM")
  {
    RawTemperatureMap(
      seq(|data|, i requires 0 <= i < |data| => MarkNoData(headers, data[i])),
      Lookup(headers, "NROWS"),
      Lookup(headers, "NCOLS"),
      Lookup(headers, "ULYMAP"),
      Lookup(headers, "ULXMAP"),
      Lookup(headers, "YDIM"),
      Lookup(headers, "XDIM"))
  }

  /** Every cell with its no-data gaps filled with `fill`. */
  function FillNoData(cells: seq<Cell>, fill: real): (r: seq<real>)
    ensures |r| == |cells|
    ensures forall i :: 0 <= i < |cells| ==> r[i] == cells[i].GetOr(fill)
  {
    seq(|cells|, i requires 0 <= i < |cells| => cells[i].GetOr(fill))
  }

  /** The replacement loses nothing: putting NODATA back into the no-data
      cells restores the data buffer exactly. */
  lemma RestoreNoData(headers: map<string, HeaderValue>, data: seq<real>, nodata: real)
    requires Lookup(headers, "NODATA") == Some(Num(nodata))
    ensures FillNoData(GenerateTemperatureMap(headers, data).data, nodata) == data
  {
    var t := GenerateTemperatureMap(headers, data);
    var r := FillNoData(t.data, nodata);
    forall i | 0 <= i < |data|
      ensures r[i] == data[i]
    {
      if t.data[i].None? {
        assert IsNoData(headers, data[i]);
      }
    }
  }

  /** Without a numeric NODATA nothing is replaced: every sample becomes a
      present cell holding it. */
  lemma NoNumericNoDataKeepsAll(headers: map<string, HeaderValue>, data: seq<real>)
    requires !Lookup(headers, "NODATA").Some? || !Lookup(headers, "NODATA").value.Num?
    ensures var t := GenerateTemperatureMap(headers, data);
            forall i :: 0 <= i < |data| ==> t.data[i] == Some(data[i])
  {
  }

  /** readFileAsTemperatureMap once both files are read: the header text
      folded into an object, then combined with the samples. A cell is
      `null` exactly when its sample equals the folded header's numeric
      NODATA, and the metadata fields are the folded header's values. */
  function ReadAsTemperatureMap(headerText: string, data: seq<real>): (t: RawTemperatureMap)
    ensures |t.data| == |data|
    ensures forall i :: 0 <= i < |data| ==>
              (t.data[i].None? <==> IsNoData(ReadHeaderText(headerText), data[i]))
    ensures var headers := ReadHeaderText(headerText);
            && t.rows == Lookup(headers, "NROWS") && t.columns == Lookup(headers, "NCOLS")
            && t.latitude == Lookup(headers, "ULYMAP") && t.longitude == Lookup(headers, "ULXMAP")
            && t.latitudeStep == Lookup(headers, "YDIM") && t.longitudeStep == Lookup(headers, "XDIM")
    ensures forall i :: 0 <= i < |data| ==> t.data[i].GetOr(data[i]) == data[i]
    ensures forall i, j :: 0 <= i < |data| && 0 <= j < |data| && t.data[i].None? ==>
              (t.data[j].None? <==> data[j] == data[i])
  {
    GenerateTemperatureMap(ReadHeaderText(headerText), data)
  }

  /** End to end: the column count of the map is the value of the last line
      of the header text that parses with key NCOLS. */
  lemma ColumnsFromLastHeaderLine(headerText: string, data: seq<real>, ps: seq<Option<HeaderLine>>, i: int)
    requires ps == ParsedLines(headerText)
    requires 0 <= i < |ps| && ps[i].Some? && ps[i].value.key == "NCOLS"
    requires forall j :: i < j < |ps| ==> KeyOf(ps[j]) != Some("NCOLS")
    ensures ReadAsTemperatureMap(headerText, data).columns == Some(ps[i].value.value)
  {
    assert ps[i].value.key != ProtoKey;
  }

  /** End to end: when the last line of the header text that parses with key
      NODATA carries the number `x`, a cell is `null` exactly when its sample
      is `x`. */
  lemma NoDataFromLastHeaderLine(headerText: string, data: seq<real>, ps: seq<Option<HeaderLine>>, i: int, x: real)
    requires ps == ParsedLines(headerText)
    requires 0 <= i < |ps| && ps[i] == Some(HeaderLine("NODATA", Num(x)))
    requires forall j :: i < j < |ps| ==> KeyOf(ps[j]) != Some("NODATA")
    ensures var t := ReadAsTemperatureMap(headerText, data);
            forall k :: 0 <= k < |data| ==> (t.data[k].None? <==> data[k] == x)
  {
    assert ps[i].value.key != ProtoKey;
    assert ReadHeaderText(headerText)["NODATA"] == Num(x);
  }

  /** When no line of the header text parses with key NCOLS, the column
      count is `undefined`. */
  lemma ColumnsMissing(headerText: string, data: seq<real>, ps: seq<Option<HeaderLine>>)
    requires ps == ParsedLines(headerText)
    requires forall j :: 0 <= j < |ps| ==> KeyOf(ps[j]) != Some("NCOLS")
    ensures ReadAsTemperatureMap(headerText, data).columns == None
  {
  }

  /** The whole number a header value holds, if it holds one. */
  function WholeNumber(v: Option<HeaderValue>): (n: Option<int>)
    ensures n.Some? <==> v.Some? && v.value.Num? && v.value.num == v.value.num.Floor as real
    ensures n.Some? ==> n.value as real == v.value.num
  {
    if v.Some? && v.value.Num? && v.value.num == v.value.num.Floor as real then Some(v.value.num.Floor)
    else None
  }

  /** The number a header value holds, if it holds one. */
  function Number(v: Option<HeaderValue>): (x: Option<real>)
    ensures x.Some? <==> v.Some? && v.value.Num?
    ensures x.Some? ==> x.value == v.value.num
  {
    if v.Some? && v.value.Num? then Some(v.value.num) else None
  }

  /** The typed map the queries of src/utils.js work on, when every field
      is numeric and the two counts are whole numbers; `None` otherwise
      (the source does not check, and its queries then compute with
      `undefined` or strings). */
  function ToGrid(t: RawTemperatureMap): (g: Option<TemperatureMap>)
    ensures g.Some? <==>
              && WholeNumber(t.rows).Some? && WholeNumber(t.columns).Some?
              && Number(t.latitude).Some? && Number(t.longitude).Some?
              && Number(t.latitudeStep).Some? && Number(t.longitudeStep).Some?
    ensures g.Some? ==>
              && g.value.data == t.data
              && g.value.rows as real == t.rows.value.num
              && g.value.columns as real == t.columns.value.num
              && g.value.latitude == t.latitude.value.num
              && g.value.longitude == t.longitude.value.num
              && g.value.latitudeStep == t.latitudeStep.value.num
              && g.value.longitudeStep == t.longitudeStep.value.num
  {
    var rows, columns := WholeNumber(t.rows), WholeNumber(t.columns);
    var lat, lng := Number(t.latitude), Number(t.longitude);
    var latStep, lngStep := Number(t.latitudeStep), Number(t.longitudeStep);
    if rows.Some? && columns.Some? && lat.Some? && lng.Some? && latStep.Some? && lngStep.Some? then
      Some(TemperatureMap(t.data, rows.value, columns.value, lat.value, lng.value,
                          latStep.value, lngStep.value))
    else
      None
  }
}
