/** Projection of a temperature map onto point features (toGeoJson in
    src/utils.js): one feature per cell that is not a no-data cell, placed at
    the corner mapIndexToPoint gives for the cell's index. */
module GeoJson {
  import opened Wrappers
  import opened Grid

  /** A `Point` feature: `geometry.coordinates` and `properties.value`. */
  datatype Feature = Feature(coordinates: Point, value: real)

  /** `{ type: 'FeatureCollection', features }`. */
  datatype FeatureCollection = FeatureCollection(features: seq<Feature>)

  /** The feature for cell `i`, which must hold a value. */
  function FeatureAt(g: TemperatureMap, i: int): Feature
    requires Valid(g) && 0 <= i < |g.data| && g.data[i].Some?
  {
    Feature(MapIndexToPoint(g, i), g.data[i].value)
  }

  /** The indices below `n` of the cells that hold a value, in increasing
      order. The clauses pin the sequence down: it is the sorted list of
      exactly those indices. */
  function PresentIndices(data: seq<Cell>, n: int): (r: seq<int>)
    requires 0 <= n <= |data|
    ensures forall p, q :: 0 <= p < q < |r| ==> r[p] < r[q]
    ensures forall j :: 0 <= j < |r| ==> 0 <= r[j] < n && data[r[j]].Some?
    ensures forall i :: 0 <= i < n && data[i].Some? ==> i in r
  {
    if n == 0 then []
    else PresentIndices(data, n - 1) + (if data[n - 1].Some? then [n - 1] else [])
  }

  /** `data.map((temp, i) => temp === null ? null : feature)`. */
  function Project(g: TemperatureMap): (r: seq<Option<Feature>>)
    requires Valid(g)
    ensures |r| == |g.data|
    ensures forall i :: 0 <= i < |r| ==> (r[i].None? <==> g.data[i].None?)
    ensures forall i :: 0 <= i < |r| && r[i].Some? ==>
              r[i].value.coordinates == MapIndexToPoint(g, i) && Some(r[i].value.value) == g.data[i]
  {
    seq(|g.data|, i requires 0 <= i < |g.data| =>
      if g.data[i].None? then None else Some(FeatureAt(g, i)))
  }

  /** The features of the cells listed in `idx`, in that order. */
  function FeaturesAt(g: TemperatureMap, idx: seq<int>): (r: seq<Feature>)
    requires Valid(g)
    requires forall j :: 0 <= j < |idx| ==> 0 <= idx[j] < |g.data| && g.data[idx[j]].Some?
    ensures |r| == |idx|
  {
    seq(|idx|, j requires 0 <= j < |idx| => FeatureAt(g, idx[j]))
  }

  /** toGeoJson: the j-th feature is the feature of the j-th cell that holds
      a value, counting in index order. Zero readings are kept: only `null`
      cells are dropped. */
  function ToGeoJson(g: TemperatureMap): (fc: FeatureCollection)
    requires Valid(g)
    ensures var idx := PresentIndices(g.data, |g.data|);
            |fc.features| == |idx|
            && forall j :: 0 <= j < |idx| ==> fc.features[j] == FeatureAt(g, idx[j])
  {
    ProjectThenCompact(g, |g.data|);
    assert Project(g)[..|g.data|] == Project(g);
    FeatureCollection(Compact(Project(g)))
  }

  /** Mapping then filtering the first `n` cells gives the features of the
      present cells among them. */
  lemma {:induction false} ProjectThenCompact(g: TemperatureMap, n: int)
    requires Valid(g) && 0 <= n <= |g.data|
    ensures Compact(Project(g)[..n]) == FeaturesAt(g, PresentIndices(g.data, n))
  {
    if n > 0 {
      var p := Project(g)[..n];
      assert p[..n - 1] == Project(g)[..n - 1];
      ProjectThenCompact(g, n - 1);
      var before := PresentIndices(g.data, n - 1);
      if g.data[n - 1].Some? {
        assert FeaturesAt(g, before + [n - 1]) == FeaturesAt(g, before) + [FeatureAt(g, n - 1)];
      } else {
        assert PresentIndices(g.data, n) == before;
      }
    }
  }

  /** Every feature comes from a cell that holds its value at its position,
      and every cell that holds a value, zero included, yields its feature. */
  lemma FeaturesMatchCells(g: TemperatureMap)
    requires Valid(g)
    ensures forall f <- ToGeoJson(g).features :: exists i ::
              0 <= i < |g.data| && g.data[i] == Some(f.value) && f.coordinates == MapIndexToPoint(g, i)
    ensures forall i :: 0 <= i < |g.data| && g.data[i].Some? ==>
              Feature(MapIndexToPoint(g, i), g.data[i].value) in ToGeoJson(g).features
  {
    var fs := ToGeoJson(g).features;
    var idx := PresentIndices(g.data, |g.data|);
    forall f <- fs
      ensures exists i ::
                0 <= i < |g.data| && g.data[i] == Some(f.value) && f.coordinates == MapIndexToPoint(g, i)
    {
      var j :| 0 <= j < |fs| && fs[j] == f;
      assert f == FeatureAt(g, idx[j]);
    }
    forall i | 0 <= i < |g.data| && g.data[i].Some?
      ensures Feature(MapIndexToPoint(g, i), g.data[i].value) in fs
    {
      var j :| 0 <= j < |idx| && idx[j] == i;
      assert fs[j] == FeatureAt(g, i);
    }
  }

  /** The number of features is the number of cells that hold a value. */
  lemma FeatureCount(g: TemperatureMap)
    requires Valid(g)
    ensures |ToGeoJson(g).features| == |set i | 0 <= i < |g.data| && g.data[i].Some?|
  {
    var idx := PresentIndices(g.data, |g.data|);
    var cells := set i | 0 <= i < |g.data| && g.data[i].Some?;
    assert cells == set j | 0 <= j < |idx| :: idx[j];
    DistinctCount(idx);
  }

  /** A strictly increasing sequence has as many elements as it has values. */
  lemma {:induction false} DistinctCount(s: seq<int>)
    requires forall p, q :: 0 <= p < q < |s| ==> s[p] < s[q]
    ensures |set j | 0 <= j < |s| :: s[j]| == |s|
  {
    if |s| > 0 {
      var init := s[..|s| - 1];
      DistinctCount(init);
      var a := set j | 0 <= j < |init| :: init[j];
      var b := set j | 0 <= j < |s| :: s[j];
      assert b == a + {s[|s| - 1]};
      assert s[|s| - 1] !in a;
    }
  }
}
