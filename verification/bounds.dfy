/** Bounding-box queries over a temperature map (src/utils.js):
    arrangeBounds, valuesWithinBounds and averageTemperature.

    The source walks the box with `lng += longitudeStep` and
    `lat += latitudeStep`. On exact reals the k-th longitude it visits is
    `west + k * longitudeStep`, and likewise for latitudes, so the walk is
    modelled on that lattice. */
module Bounds {
  import opened Wrappers
  import opened Grid

  /** A corner as the callers pass it: `[lat, lng]`. */
  datatype Corner = Corner(lat: real, lng: real)

  /** Two corners `[c0, c1]`. Once arranged, `c0` is the south-west corner
      and `c1` the north-east one. */
  datatype Box = Box(c0: Corner, c1: Corner)

  /** One row of the result of valuesWithinBounds: `{ index, value, lat, lng }`. */
  datatype Entry = Entry(index: int, value: real, lat: real, lng: real)

  function Min(a: real, b: real): real { if a <= b then a else b }

  function Max(a: real, b: real): real { if a <= b then b else a }

  /** `c0` is south-west of (or level with) `c1` on both axes. */
  predicate Arranged(b: Box)
  {
    b.c0.lat <= b.c1.lat && b.c0.lng <= b.c1.lng
  }

  /** `p` lies in the closed rectangle spanned by `b.c0` (low) and `b.c1` (high). */
  predicate Contains(b: Box, p: Corner)
  {
    b.c0.lat <= p.lat <= b.c1.lat && b.c0.lng <= p.lng <= b.c1.lng
  }

  /** arrangeBounds: the smallest arranged box holding both input corners. */
  function ArrangeBounds(b: Box): (r: Box)
    ensures Arranged(r)
    ensures Contains(r, b.c0) && Contains(r, b.c1)
    ensures forall other: Box :: Contains(other, b.c0) && Contains(other, b.c1) ==>
              Contains(other, r.c0) && Contains(other, r.c1)
    ensures r.c0.lat in {b.c0.lat, b.c1.lat} && r.c0.lng in {b.c0.lng, b.c1.lng}
    ensures r.c1.lat in {b.c0.lat, b.c1.lat} && r.c1.lng in {b.c0.lng, b.c1.lng}
  {
    Box(Corner(Min(b.c0.lat, b.c1.lat), Min(b.c0.lng, b.c1.lng)),
        Corner(Max(b.c0.lat, b.c1.lat), Max(b.c0.lng, b.c1.lng)))
  }

  /** The order of the two corners does not matter. */
  lemma ArrangeBoundsSymmetric(b: Box)
    ensures ArrangeBounds(Box(b.c1, b.c0)) == ArrangeBounds(b)
  {
  }

  /** Arranging an arranged box changes nothing, so arranging twice is
      arranging once. */
  lemma ArrangeBoundsIdempotent(b: Box)
    ensures Arranged(b) ==> ArrangeBounds(b) == b
    ensures ArrangeBounds(ArrangeBounds(b)) == ArrangeBounds(b)
  {
  }

  /** The k-th longitude the outer loop visits. */
  function SampleLng(g: TemperatureMap, b: Box, k: int): real
  {
    b.c0.lng + k as real * g.longitudeStep
  }

  /** The j-th latitude the inner loop visits. */
  function SampleLat(g: TemperatureMap, b: Box, j: int): real
  {
    b.c0.lat + j as real * g.latitudeStep
  }

  /** How many steps fit between the low and the high edge on each axis. */
  function LngSteps(g: TemperatureMap, b: Box): int
    requires Valid(g)
  {
    ((b.c1.lng - b.c0.lng) / g.longitudeStep).Floor
  }

  function LatSteps(g: TemperatureMap, b: Box): int
    requires Valid(g)
  {
    ((b.c1.lat - b.c0.lat) / g.latitudeStep).Floor
  }

  /** The loop test `lng <= east` holds for exactly the first
      `LngSteps + 1` longitudes, and `lat <= north` for the first
      `LatSteps + 1` latitudes. */
  lemma LoopBounds(g: TemperatureMap, b: Box, n: int)
    requires Valid(g) && n >= 0
    ensures SampleLng(g, b, n) <= b.c1.lng <==> n <= LngSteps(g, b)
    ensures SampleLat(g, b, n) <= b.c1.lat <==> n <= LatSteps(g, b)
  {
    StepsWithin(b.c1.lng - b.c0.lng, g.longitudeStep, n);
    StepsWithin(b.c1.lat - b.c0.lat, g.latitudeStep, n);
  }

  /** `n` steps of size `s` fit in `d` exactly when `n <= Math.floor(d / s)`. */
  lemma StepsWithin(d: real, s: real, n: int)
    requires s > 0.0
    ensures n as real * s <= d <==> n <= (d / s).Floor
  {
    var q := d / s;
    assert q * s == d;
    if n as real * s <= d {
      if n as real > q {
        MulMono(q, n as real, s);
        assert false;
      }
    } else if n <= q.Floor {
      MulMono(n as real, q, s);
      assert false;
    }
  }

  /** The next sample lies strictly further east, and strictly further
      north. */
  lemma SampleStep(g: TemperatureMap, b: Box, n: int)
    requires Valid(g)
    ensures SampleLng(g, b, n) < SampleLng(g, b, n + 1)
    ensures SampleLat(g, b, n) < SampleLat(g, b, n + 1)
  {
    assert (n + 1) as real * g.longitudeStep == n as real * g.longitudeStep + g.longitudeStep;
    assert (n + 1) as real * g.latitudeStep == n as real * g.latitudeStep + g.latitudeStep;
  }

  /** The value the source keeps for a point: `data[mapPointToIndex(...)]`
      when it is truthy, that is, present, not a no-data cell and not 0. */
  function Reading(g: TemperatureMap, lat: real, lng: real): (r: Option<real>)
    requires Valid(g)
    ensures r.Some? <==>
              var i := MapPointToIndex(g, lat, lng);
              i != NoIndex && g.data[i].Some? && g.data[i].value != 0.0
    ensures r.Some? ==> g.data[MapPointToIndex(g, lat, lng)] == Some(r.value)
  {
    match Temperature(g, lat, lng)
    case Some(Some(v)) => if v != 0.0 then Some(v) else None
    case _ => None
  }

  /** The entry the source pushes for a point whose reading is kept. */
  function EntryAt(g: TemperatureMap, lat: real, lng: real): Entry
    requires Valid(g) && Reading(g, lat, lng).Some?
  {
    Entry(MapPointToIndex(g, lat, lng), Reading(g, lat, lng).value, lat, lng)
  }

  /** `e` is what the source would push for its own coordinates. */
  predicate IsEntryFor(g: TemperatureMap, e: Entry)
    requires Valid(g)
  {
    Reading(g, e.lat, e.lng) == Some(e.value)
    && e.index == MapPointToIndex(g, e.lat, e.lng)
  }

  /** Longitude-major, then latitude, both ascending. */
  predicate Before(e1: Entry, e2: Entry)
  {
    e1.lng < e2.lng || (e1.lng == e2.lng && e1.lat < e2.lat)
  }

  /** Strictly increasing in the order of Before. */
  predicate Sorted(r: seq<Entry>)
  {
    forall p, q :: 0 <= p < q < |r| ==> Before(r[p], r[q])
  }

  /** The inner loop from the j-th latitude on, at longitude `lng`. */
  function LatSweep(g: TemperatureMap, b: Box, lng: real, j: int): (r: seq<Entry>)
    requires Valid(g) && j >= 0
    ensures forall e <- r :: IsEntryFor(g, e) && e.lng == lng
    ensures forall e <- r :: SampleLat(g, b, j) <= e.lat <= b.c1.lat
    ensures forall p, q :: 0 <= p < q < |r| ==> r[p].lat < r[q].lat
    decreases LatSteps(g, b) + 1 - j
  {
    var lat := SampleLat(g, b, j);
    SampleStep(g, b, j);
    if lat <= b.c1.lat then
      LoopBounds(g, b, j);
      var here := if Reading(g, lat, lng).Some? then [EntryAt(g, lat, lng)] else [];
      here + LatSweep(g, b, lng, j + 1)
    else
      []
  }

  /** Every entry of the inner loop sits on a latitude of the lattice. */
  lemma {:induction false} LatSweepOnLattice(g: TemperatureMap, b: Box, lng: real, j: int)
    requires Valid(g) && j >= 0
    ensures forall e <- LatSweep(g, b, lng, j) :: exists j' :: j <= j' && SampleLat(g, b, j') == e.lat
    decreases LatSteps(g, b) + 1 - j
  {
    if SampleLat(g, b, j) <= b.c1.lat {
      LoopBounds(g, b, j);
      LatSweepOnLattice(g, b, lng, j + 1);
    }
  }

  /** Every latitude of the lattice from the j-th on, up to the northern
      edge, whose reading is kept is in the inner loop's result. */
  lemma {:induction false} LatSweepComplete(g: TemperatureMap, b: Box, lng: real, j: int)
    requires Valid(g) && j >= 0
    ensures forall j' ::
              (j <= j' && SampleLat(g, b, j') <= b.c1.lat
               && Reading(g, SampleLat(g, b, j'), lng).Some?) ==>
              EntryAt(g, SampleLat(g, b, j'), lng) in LatSweep(g, b, lng, j)
    decreases LatSteps(g, b) + 1 - j
  {
    if SampleLat(g, b, j) <= b.c1.lat {
      LoopBounds(g, b, j);
      LatSweepComplete(g, b, lng, j + 1);
    } else {
      forall j' | j <= j'
        ensures SampleLat(g, b, j) <= SampleLat(g, b, j')
      {
        MulMono(j as real, j' as real, g.latitudeStep);
      }
    }
  }

  /** The outer loop from the k-th longitude on. */
  function LngSweep(g: TemperatureMap, b: Box, k: int): (r: seq<Entry>)
    requires Valid(g) && k >= 0
    ensures forall e <- r :: IsEntryFor(g, e)
    ensures forall e <- r :: SampleLng(g, b, k) <= e.lng <= b.c1.lng
    ensures forall e <- r :: SampleLat(g, b, 0) <= e.lat <= b.c1.lat
    decreases LngSteps(g, b) + 1 - k
  {
    var lng := SampleLng(g, b, k);
    SampleStep(g, b, k);
    if lng <= b.c1.lng then
      LoopBounds(g, b, k);
      LatSweep(g, b, lng, 0) + LngSweep(g, b, k + 1)
    else
      []
  }

  /** The outer loop visits longitudes in increasing order and, within one
      longitude, latitudes in increasing order. */
  lemma {:induction false} LngSweepSorted(g: TemperatureMap, b: Box, k: int)
    requires Valid(g) && k >= 0
    ensures Sorted(LngSweep(g, b, k))
    decreases LngSteps(g, b) + 1 - k
  {
    var lng := SampleLng(g, b, k);
    if lng <= b.c1.lng {
      LoopBounds(g, b, k);
      SampleStep(g, b, k);
      var column := LatSweep(g, b, lng, 0);
      var rest := LngSweep(g, b, k + 1);
      LngSweepSorted(g, b, k + 1);
      AppendSorted(column, rest, lng);
    }
  }

  /** A column at one longitude, followed by entries all further east, is
      sorted when the column is sorted by latitude and the rest is sorted. */
  lemma AppendSorted(column: seq<Entry>, rest: seq<Entry>, lng: real)
    requires forall e <- column :: e.lng == lng
    requires forall p, q :: 0 <= p < q < |column| ==> column[p].lat < column[q].lat
    requires forall e <- rest :: lng < e.lng
    requires Sorted(rest)
    ensures Sorted(column + rest)
  {
    var r := column + rest;
    forall p, q | 0 <= p < q < |r|
      ensures Before(r[p], r[q])
    {
      if q < |column| {
        assert r[p] == column[p] && r[q] == column[q];
      } else if p < |column| {
        assert r[p] == column[p] && r[q] == rest[q - |column|];
        assert r[p] in column && r[q] in rest;
      } else {
        assert r[p] == rest[p - |column|] && r[q] == rest[q - |column|];
      }
    }
  }

  /** Entry `e` sits at a lattice point whose longitude is the k-th or a
      later one. */
  ghost predicate OnLattice(g: TemperatureMap, b: Box, k: int, e: Entry)
  {
    exists k', j' :: k <= k' && 0 <= j' && SampleLng(g, b, k') == e.lng && SampleLat(g, b, j') == e.lat
  }

  /** An entry of the column at the k-th longitude is on the lattice. */
  lemma ColumnOnLattice(g: TemperatureMap, b: Box, k: int, e: Entry)
    requires Valid(g) && k >= 0
    requires e in LatSweep(g, b, SampleLng(g, b, k), 0)
    ensures OnLattice(g, b, k, e)
  {
    LatSweepOnLattice(g, b, SampleLng(g, b, k), 0);
    var j' :| 0 <= j' && SampleLat(g, b, j') == e.lat;
    assert SampleLng(g, b, k) == e.lng;
  }

  /** Being on the lattice from the (k+1)-th longitude on implies being on
      it from the k-th on. */
  lemma LaterOnLattice(g: TemperatureMap, b: Box, k: int, e: Entry)
    requires OnLattice(g, b, k + 1, e)
    ensures OnLattice(g, b, k, e)
  {
    var k', j' :| k + 1 <= k' && 0 <= j' && SampleLng(g, b, k') == e.lng && SampleLat(g, b, j') == e.lat;
  }

  /** An entry of the outer loop from the k-th longitude on sits on the
      sampling lattice, at the k-th longitude or a later one. */
  lemma {:induction false} EntryOnLattice(g: TemperatureMap, b: Box, k: int, e: Entry)
    requires Valid(g) && k >= 0 && e in LngSweep(g, b, k)
    ensures OnLattice(g, b, k, e)
    decreases LngSteps(g, b) + 1 - k
  {
    if SampleLng(g, b, k) <= b.c1.lng {
      LoopBounds(g, b, k);
      LngSweepColumn(g, b, k);
      if e in LatSweep(g, b, SampleLng(g, b, k), 0) {
        ColumnOnLattice(g, b, k, e);
      } else {
        EntryOnLattice(g, b, k + 1, e);
        LaterOnLattice(g, b, k, e);
      }
    } else {
      LngSweepStops(g, b, k);
      assert false;
    }
  }

  /** Every entry of the outer loop sits on the sampling lattice. */
  lemma LngSweepOnLattice(g: TemperatureMap, b: Box, k: int)
    requires Valid(g) && k >= 0
    ensures forall e <- LngSweep(g, b, k) :: OnLattice(g, b, k, e)
  {
    forall e <- LngSweep(g, b, k)
      ensures OnLattice(g, b, k, e)
    {
      EntryOnLattice(g, b, k, e);
    }
  }

  /** Every lattice point from the k-th longitude on whose reading is kept
      is in the outer loop's result. */
  lemma {:induction false} LngSweepComplete(g: TemperatureMap, b: Box, k: int)
    requires Valid(g) && k >= 0
    ensures forall k', j' ::
              (k <= k' && 0 <= j'
               && SampleLng(g, b, k') <= b.c1.lng && SampleLat(g, b, j') <= b.c1.lat
               && Reading(g, SampleLat(g, b, j'), SampleLng(g, b, k')).Some?) ==>
              EntryAt(g, SampleLat(g, b, j'), SampleLng(g, b, k')) in LngSweep(g, b, k)
    decreases LngSteps(g, b) + 1 - k
  {
    var lng := SampleLng(g, b, k);
    if lng <= b.c1.lng {
      LoopBounds(g, b, k);
      var column := LatSweep(g, b, lng, 0);
      var rest := LngSweep(g, b, k + 1);
      LatSweepComplete(g, b, lng, 0);
      LngSweepComplete(g, b, k + 1);
      assert LngSweep(g, b, k) == column + rest;
    } else {
      forall k' | k <= k'
        ensures SampleLng(g, b, k) <= SampleLng(g, b, k')
      {
        MulMono(k as real, k' as real, g.longitudeStep);
      }
    }
  }

  /** valuesWithinBounds: every lattice point of the arranged box whose
      reading is kept, in the order the loops visit them. The result is fully
      determined by these clauses: exactly the kept lattice points, each as
      the source records it, sorted longitude-major. */
  function ValuesWithinBounds(g: TemperatureMap, bounds: Box): (r: seq<Entry>)
    requires Valid(g)
    ensures var a := ArrangeBounds(bounds);
            forall e <- r :: IsEntryFor(g, e) && Contains(a, Corner(e.lat, e.lng))
    ensures forall e <- r :: 0 <= e.index < |g.data| && g.data[e.index] == Some(e.value)
                            && e.value != 0.0
    ensures var a := ArrangeBounds(bounds);
            forall e <- r :: exists k, j ::
              0 <= k && 0 <= j && SampleLng(g, a, k) == e.lng && SampleLat(g, a, j) == e.lat
    ensures Sorted(r)
    ensures var a := ArrangeBounds(bounds);
            forall k, j ::
              (0 <= k && 0 <= j
               && Contains(a, Corner(SampleLat(g, a, j), SampleLng(g, a, k)))
               && Reading(g, SampleLat(g, a, j), SampleLng(g, a, k)).Some?) ==>
              EntryAt(g, SampleLat(g, a, j), SampleLng(g, a, k)) in r
  {
    var a := ArrangeBounds(bounds);
    LngSweepSorted(g, a, 0);
    LngSweepOnLattice(g, a, 0);
    LngSweepComplete(g, a, 0);
    LngSweep(g, a, 0)
  }

  /** `temps.map(v => v.value)`. */
  function Values(es: seq<Entry>): (vs: seq<real>)
    ensures |vs| == |es|
    ensures forall i :: 0 <= i < |es| ==> vs[i] == es[i].value
  {
    seq(|es|, i requires 0 <= i < |es| => es[i].value)
  }

  /** `reduce((sum, temp) => sum + temp)`: the values added left to right.
      SumAppend, SumAtLeast and SumAtMost state what it computes. */
  function Sum(xs: seq<real>): real
  {
    if |xs| == 0 then 0.0 else Sum(xs[..|xs| - 1]) + xs[|xs| - 1]
  }

  /** Summing a concatenation is the sum of the sums: splitting the
      readings anywhere splits the sum. */
  lemma {:induction false} SumAppend(a: seq<real>, b: seq<real>)
    ensures Sum(a + b) == Sum(a) + Sum(b)
  {
    if |b| > 0 {
      var init := b[..|b| - 1];
      assert (a + b)[..|a + b| - 1] == a + init;
      SumAppend(a, init);
    } else {
      assert a + b == a;
    }
  }

  /** `n` values, each at least `lo`, sum to at least `n * lo`. */
  lemma {:induction false} SumAtLeast(xs: seq<real>, lo: real)
    requires forall x <- xs :: lo <= x
    ensures |xs| as real * lo <= Sum(xs)
  {
    if |xs| > 0 {
      var init := xs[..|xs| - 1];
      assert forall x <- init :: x in xs;
      SumAtLeast(init, lo);
      assert xs[|xs| - 1] in xs;
      AddOneStep(|init|, lo);
    }
  }

  /** `n` values, each at most `hi`, sum to at most `n * hi`. */
  lemma {:induction false} SumAtMost(xs: seq<real>, hi: real)
    requires forall x <- xs :: x <= hi
    ensures Sum(xs) <= |xs| as real * hi
  {
    if |xs| > 0 {
      var init := xs[..|xs| - 1];
      assert forall x <- init :: x in xs;
      SumAtMost(init, hi);
      assert xs[|xs| - 1] in xs;
      AddOneStep(|init|, hi);
    }
  }

  /** The position of a smallest element. */
  function ArgMin(xs: seq<real>): (i: int)
    requires |xs| > 0
    ensures 0 <= i < |xs| && forall x <- xs :: xs[i] <= x
  {
    if |xs| == 1 then 0
    else
      var j := ArgMin(xs[1..]);
      assert forall x <- xs :: x == xs[0] || x in xs[1..];
      if xs[0] <= xs[1..][j] then 0 else j + 1
  }

  /** The position of a largest element. */
  function ArgMax(xs: seq<real>): (i: int)
    requires |xs| > 0
    ensures 0 <= i < |xs| && forall x <- xs :: x <= xs[i]
  {
    if |xs| == 1 then 0
    else
      var j := ArgMax(xs[1..]);
      assert forall x <- xs :: x == xs[0] || x in xs[1..];
      if xs[1..][j] <= xs[0] then 0 else j + 1
  }

  /** `(n + 1) * x == n * x + x`. */
  lemma AddOneStep(n: int, x: real)
    ensures (n + 1) as real * x == n as real * x + x
  {
  }

  /** Dividing both sides of `n * lo <= s <= n * hi` by a positive `n`. */
  lemma DivideBounds(s: real, n: real, lo: real, hi: real)
    requires n > 0.0 && n * lo <= s <= n * hi
    ensures lo <= s / n <= hi
  {
    var m := s / n;
    assert m * n == s;
    if m < lo {
      MulMono(m, lo, n);
      assert false;
    }
    if m > hi {
      MulMono(hi, m, n);
      assert false;
    }
  }

  /** The mean of a non-empty sequence: it times the length is the sum, and
      it lies between the smallest and the largest element. */
  function Mean(xs: seq<real>): (m: real)
    requires |xs| > 0
    ensures m == Sum(xs) / |xs| as real
    ensures xs[ArgMin(xs)] <= m <= xs[ArgMax(xs)]
  {
    var n := |xs| as real;
    SumAtLeast(xs, xs[ArgMin(xs)]);
    SumAtMost(xs, xs[ArgMax(xs)]);
    DivideBounds(Sum(xs), n, xs[ArgMin(xs)], xs[ArgMax(xs)]);
    Sum(xs) / n
  }

  /** The box the averaging endpoint passes on: `[[lat0, lng0], [lat1, lng1]]`. */
  function QueryBox(lat0: real, lng0: real, lat1: real, lng1: real): Box
  {
    Box(Corner(lat0, lng0), Corner(lat1, lng1))
  }

  /** The mean of the entries' values is one of them or lies between two
      of them. */
  lemma MeanOfEntries(temps: seq<Entry>)
    requires |temps| > 0
    ensures exists i :: 0 <= i < |temps| && temps[i].value <= Sum(Values(temps)) / |temps| as real
    ensures exists i :: 0 <= i < |temps| && Sum(Values(temps)) / |temps| as real <= temps[i].value
  {
    var vs := Values(temps);
    var mean := Mean(vs);
    assert |vs| == |temps|;
    assert temps[ArgMin(vs)].value <= mean;
    assert mean <= temps[ArgMax(vs)].value;
  }

  /** The tail of averageTemperature: `null` for no entries, else the mean
      of their values. */
  function AverageOf(temps: seq<Entry>): (r: Option<real>)
    ensures r.None? <==> |temps| == 0
    ensures r.Some? ==> r.value == Sum(Values(temps)) / |temps| as real
    ensures r.Some? ==> exists i :: 0 <= i < |temps| && temps[i].value <= r.value
    ensures r.Some? ==> exists i :: 0 <= i < |temps| && r.value <= temps[i].value
  {
    if |temps| == 0 then
      None
    else
      MeanOfEntries(temps);
      Some(Sum(Values(temps)) / |temps| as real)
  }

  /** averageTemperature: `None` (the source's `null`) exactly when the box
      holds no kept reading; otherwise the mean of the kept readings, which
      lies between the smallest and the largest of them. */
  function AverageTemperature(g: TemperatureMap, lat0: real, lng0: real, lat1: real, lng1: real)
    : (r: Option<real>)
    requires Valid(g)
    ensures var temps := ValuesWithinBounds(g, QueryBox(lat0, lng0, lat1, lng1));
            && (r.None? <==> |temps| == 0)
            && (r.Some? ==> r.value == Sum(Values(temps)) / |temps| as real)
            && (r.Some? ==> exists i :: 0 <= i < |temps| && temps[i].value <= r.value)
            && (r.Some? ==> exists i :: 0 <= i < |temps| && r.value <= temps[i].value)
  {
    var temps := ValuesWithinBounds(g, QueryBox(lat0, lng0, lat1, lng1));
    AverageOf(temps)
  }

  /** A box entirely north of the grid, or entirely west of it, has no
      average. */
  lemma AverageOutsideGridIsNone(g: TemperatureMap, lat0: real, lng0: real, lat1: real, lng1: real)
    requires Valid(g)
    requires Min(lat0, lat1) > g.latitude || Max(lng0, lng1) < g.longitude
    ensures AverageTemperature(g, lat0, lng0, lat1, lng1) == None
  {
    var temps := ValuesWithinBounds(g, QueryBox(lat0, lng0, lat1, lng1));
    EntriesLieOnGrid(g, QueryBox(lat0, lng0, lat1, lng1));
    if Min(lat0, lat1) > g.latitude {
      NoneBetween(temps, Min(lat0, lat1), g.latitude, true);
    } else {
      NoneBetween(temps, g.longitude, Max(lng0, lng1), false);
    }
  }

  /** When the buffer holds exactly `rows * columns` cells, a box entirely
      south of the last row has no average either. */
  lemma AverageSouthOfGridIsNone(g: TemperatureMap, lat0: real, lng0: real, lat1: real, lng1: real)
    requires Valid(g) && g.rows >= 0 && |g.data| == g.rows * g.columns
    requires Max(lat0, lat1) <= g.latitude - g.rows as real * g.latitudeStep
    ensures AverageTemperature(g, lat0, lng0, lat1, lng1) == None
  {
    var temps := ValuesWithinBounds(g, QueryBox(lat0, lng0, lat1, lng1));
    if |temps| > 0 {
      var e := temps[0];
      assert e in temps;
      assert e.lat <= Max(lat0, lat1);
      SouthOfGridHasNoIndex(g, e.lat, e.lng);
      assert false;
    }
  }

  /** No entry can have a latitude (or, with `onLat` false, a longitude) that
      is both at least `lo` and at most `hi` when `hi < lo`. */
  lemma NoneBetween(temps: seq<Entry>, lo: real, hi: real, onLat: bool)
    requires hi < lo
    requires onLat ==> forall e <- temps :: lo <= e.lat <= hi
    requires !onLat ==> forall e <- temps :: lo <= e.lng <= hi
    ensures temps == []
  {
    HeadIsMember(temps);
  }

  /** The first element of a non-empty sequence is one of its elements. */
  lemma HeadIsMember(s: seq<Entry>)
    ensures |s| > 0 ==> s[0] in s
  {
  }

  /** Every entry lies south-east of the grid's upper-left corner, since
      mapPointToIndex rejects every other point. */
  lemma EntriesLieOnGrid(g: TemperatureMap, bounds: Box)
    requires Valid(g)
    ensures forall e <- ValuesWithinBounds(g, bounds) :: e.lat <= g.latitude && g.longitude <= e.lng
  {
  }

  /** The 2 x 2 grid with corner (10, 10), unit steps and cells
      `[1, 2, 3, null]`. */
  const Example2x2 := TemperatureMap([Some(1.0), Some(2.0), Some(3.0), None], 2, 2, 10.0, 10.0, 1.0, 1.0)

  /** The arranged box from (9, 9) to (11, 11). */
  const ExampleBox := Box(Corner(9.0, 9.0), Corner(11.0, 11.0))

  /** One step of the inner loop at a latitude whose reading is kept. */
  lemma LatSweepKeeps(g: TemperatureMap, b: Box, lng: real, j: int)
    requires Valid(g) && j >= 0 && SampleLat(g, b, j) <= b.c1.lat
    requires Reading(g, SampleLat(g, b, j), lng).Some?
    ensures LatSweep(g, b, lng, j) == [EntryAt(g, SampleLat(g, b, j), lng)] + LatSweep(g, b, lng, j + 1)
  {
  }

  /** One step of the inner loop at a latitude whose reading is dropped. */
  lemma LatSweepSkips(g: TemperatureMap, b: Box, lng: real, j: int)
    requires Valid(g) && j >= 0 && SampleLat(g, b, j) <= b.c1.lat
    requires Reading(g, SampleLat(g, b, j), lng).None?
    ensures LatSweep(g, b, lng, j) == LatSweep(g, b, lng, j + 1)
  {
  }

  /** The inner loop ends past the northern edge. */
  lemma LatSweepStops(g: TemperatureMap, b: Box, lng: real, j: int)
    requires Valid(g) && j >= 0 && SampleLat(g, b, j) > b.c1.lat
    ensures LatSweep(g, b, lng, j) == []
  {
  }

  /** One step of the outer loop: a whole column, then the rest. */
  lemma LngSweepColumn(g: TemperatureMap, b: Box, k: int)
    requires Valid(g) && k >= 0 && SampleLng(g, b, k) <= b.c1.lng
    ensures LngSweep(g, b, k) == LatSweep(g, b, SampleLng(g, b, k), 0) + LngSweep(g, b, k + 1)
  {
  }

  /** The outer loop ends past the eastern edge. */
  lemma LngSweepStops(g: TemperatureMap, b: Box, k: int)
    requires Valid(g) && k >= 0 && SampleLng(g, b, k) > b.c1.lng
    ensures LngSweep(g, b, k) == []
  {
  }

  /** The four cells of Example2x2 and where they lie. */
  lemma ExampleIndices()
    ensures MapPointToIndex(Example2x2, 10.0, 10.0) == 0
    ensures MapPointToIndex(Example2x2, 10.0, 11.0) == 1
    ensures MapPointToIndex(Example2x2, 9.0, 10.0) == 2
    ensures MapPointToIndex(Example2x2, 9.0, 11.0) == 3
  {
    var g := Example2x2;
    assert RowOf(g, 10.0) == 0 && RowOf(g, 9.0) == 1;
    assert ColumnOf(g, 10.0) == 0 && ColumnOf(g, 11.0) == 1;
  }

  /** The latitudes the inner loop visits over ExampleBox. */
  lemma ExampleLatitudes()
    ensures SampleLat(Example2x2, ExampleBox, 0) == 9.0
    ensures SampleLat(Example2x2, ExampleBox, 1) == 10.0
    ensures SampleLat(Example2x2, ExampleBox, 2) == 11.0
    ensures SampleLat(Example2x2, ExampleBox, 3) == 12.0
  {
  }

  lemma ExampleColumnWest()
    ensures LatSweep(Example2x2, ExampleBox, 9.0, 0) == []
  {
    var g, b := Example2x2, ExampleBox;
    ExampleLatitudes();
    LatSweepStops(g, b, 9.0, 3);
    LatSweepSkips(g, b, 9.0, 2);
    LatSweepSkips(g, b, 9.0, 1);
    LatSweepSkips(g, b, 9.0, 0);
  }

  lemma ExampleColumnMiddle()
    ensures LatSweep(Example2x2, ExampleBox, 10.0, 0)
            == [Entry(2, 3.0, 9.0, 10.0), Entry(0, 1.0, 10.0, 10.0)]
  {
    var g, b := Example2x2, ExampleBox;
    ExampleLatitudes();
    ExampleIndices();
    LatSweepStops(g, b, 10.0, 3);
    LatSweepSkips(g, b, 10.0, 2);
    LatSweepKeeps(g, b, 10.0, 1);
    LatSweepKeeps(g, b, 10.0, 0);
  }

  lemma ExampleColumnEast()
    ensures LatSweep(Example2x2, ExampleBox, 11.0, 0) == [Entry(1, 2.0, 10.0, 11.0)]
  {
    var g, b := Example2x2, ExampleBox;
    ExampleLatitudes();
    ExampleIndices();
    LatSweepStops(g, b, 11.0, 3);
    LatSweepSkips(g, b, 11.0, 2);
    LatSweepKeeps(g, b, 11.0, 1);
    LatSweepSkips(g, b, 11.0, 0);
  }

  lemma ExampleSweep()
    ensures LngSweep(Example2x2, ExampleBox, 0)
            == [Entry(2, 3.0, 9.0, 10.0), Entry(0, 1.0, 10.0, 10.0), Entry(1, 2.0, 10.0, 11.0)]
  {
    var g, b := Example2x2, ExampleBox;
    assert SampleLng(g, b, 0) == 9.0 && SampleLng(g, b, 1) == 10.0;
    assert SampleLng(g, b, 2) == 11.0 && SampleLng(g, b, 3) == 12.0;
    ExampleColumnWest();
    ExampleColumnMiddle();
    ExampleColumnEast();
    LngSweepStops(g, b, 3);
    LngSweepColumn(g, b, 2);
    LngSweepColumn(g, b, 1);
    LngSweepColumn(g, b, 0);
  }

  lemma ExampleMean()
    ensures AverageOf([Entry(2, 3.0, 9.0, 10.0), Entry(0, 1.0, 10.0, 10.0), Entry(1, 2.0, 10.0, 11.0)])
            == Some(2.0)
  {
    var temps := [Entry(2, 3.0, 9.0, 10.0), Entry(0, 1.0, 10.0, 10.0), Entry(1, 2.0, 10.0, 11.0)];
    assert Values(temps) == [3.0, 1.0, 2.0];
    assert Sum([3.0, 1.0, 2.0]) == 6.0 by {
      assert [3.0, 1.0, 2.0][..2] == [3.0, 1.0];
      assert [3.0, 1.0][..1] == [3.0];
    }
  }

  /** Over the 2 x 2 example the box from (9, 9) to (11, 11) averages the
      three readings to 2; the no-data cell is skipped. */
  lemma AverageExample()
    ensures AverageTemperature(Example2x2, 9.0, 9.0, 11.0, 11.0) == Some(2.0)
  {
    assert ArrangeBounds(QueryBox(9.0, 9.0, 11.0, 11.0)) == ExampleBox;
    ExampleSweep();
    ExampleMean();
  }

  /** The single point (10, 12), one column east of Example2x2's last one. */
  const EastPoint := Box(Corner(10.0, 12.0), Corner(10.0, 12.0))

  lemma EastSweep()
    ensures LngSweep(Example2x2, EastPoint, 0) == [Entry(2, 3.0, 10.0, 12.0)]
  {
    var g, b := Example2x2, EastPoint;
    assert SampleLng(g, b, 0) == 12.0 && SampleLng(g, b, 1) == 13.0;
    assert SampleLat(g, b, 0) == 10.0 && SampleLat(g, b, 1) == 11.0;
    assert RowOf(g, 10.0) == 0 && ColumnOf(g, 12.0) == 2;
    assert MapPointToIndex(g, 10.0, 12.0) == 2;
    LatSweepStops(g, b, 12.0, 1);
    LatSweepKeeps(g, b, 12.0, 0);
    LngSweepStops(g, b, 1);
    LngSweepColumn(g, b, 0);
  }

  /** The source has no eastern edge: column 2 of a 2-column grid is column
      0 of the next row, so a box wholly east of Example2x2 still reads the
      cell at index 2 and averages to 3. */
  lemma AverageEastOfGridExample()
    ensures AverageTemperature(Example2x2, 10.0, 12.0, 10.0, 12.0) == Some(3.0)
  {
    assert ArrangeBounds(QueryBox(10.0, 12.0, 10.0, 12.0)) == EastPoint;
    EastSweep();
    assert Values([Entry(2, 3.0, 10.0, 12.0)]) == [3.0];
    assert Sum([3.0]) == 3.0 by {
      assert [3.0][..0] == [];
    }
  }

  /** A 1 x 2 grid holding `[0, 4]`. */
  const ExampleWithZero := TemperatureMap([Some(0.0), Some(4.0)], 1, 2, 0.0, 0.0, 1.0, 1.0)

  /** The box spanning the two cells of ExampleWithZero. */
  const ZeroBox := Box(Corner(0.0, 0.0), Corner(0.0, 1.0))

  lemma ZeroExampleColumns()
    ensures LatSweep(ExampleWithZero, ZeroBox, 0.0, 0) == []
    ensures LatSweep(ExampleWithZero, ZeroBox, 1.0, 0) == [Entry(1, 4.0, 0.0, 1.0)]
  {
    var g, b := ExampleWithZero, ZeroBox;
    assert SampleLat(g, b, 0) == 0.0 && SampleLat(g, b, 1) == 1.0;
    assert RowOf(g, 0.0) == 0 && ColumnOf(g, 0.0) == 0 && ColumnOf(g, 1.0) == 1;
    assert MapPointToIndex(g, 0.0, 0.0) == 0 && MapPointToIndex(g, 0.0, 1.0) == 1;
    LatSweepStops(g, b, 0.0, 1);
    LatSweepSkips(g, b, 0.0, 0);
    LatSweepStops(g, b, 1.0, 1);
    LatSweepKeeps(g, b, 1.0, 0);
  }

  lemma ZeroExampleSweep()
    ensures LngSweep(ExampleWithZero, ZeroBox, 0) == [Entry(1, 4.0, 0.0, 1.0)]
  {
    var g, b := ExampleWithZero, ZeroBox;
    assert SampleLng(g, b, 0) == 0.0 && SampleLng(g, b, 1) == 1.0 && SampleLng(g, b, 2) == 2.0;
    ZeroExampleColumns();
    LngSweepStops(g, b, 2);
    LngSweepColumn(g, b, 1);
    LngSweepColumn(g, b, 0);
  }

  /** A reading of exactly 0 is dropped like a no-data cell: over the grid
      holding `[0, 4]` the average is 4, not 2. */
  lemma ZeroReadingIsDropped()
    ensures AverageTemperature(ExampleWithZero, 0.0, 0.0, 0.0, 1.0) == Some(4.0)
  {
    assert ArrangeBounds(QueryBox(0.0, 0.0, 0.0, 1.0)) == ZeroBox;
    ZeroExampleSweep();
    assert Values([Entry(1, 4.0, 0.0, 1.0)]) == [4.0];
    assert Sum([4.0]) == 4.0 by {
      assert [4.0][..0] == [];
    }
  }
}
