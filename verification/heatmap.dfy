/** The k-nearest-neighbour proportion grid behind the heatmap overlay
    (`proportionGrid` in worldmap-site/src/main.ts). For each point of a
    `res` x `res` grid laid over the viewport it takes the `k` wrecks
    nearest to the point, keeps those within `maxDist`, and colours the
    pixel by the share of them whose year falls in the window; a point
    with no wreck in reach stays fully transparent. */
module Heatmap {
  import opened Seqs
  import opened StableSort
  import opened YearRange

  /** A geolocated, dated wreck. */
  datatype Wreck = Wreck(lat: real, lon: real, year: int)

  /** The longitude/latitude box the grid covers. */
  datatype Viewport = Viewport(xMin: real, xMax: real, yMin: real, yMax: real)

  datatype Point = Point(x: real, y: real)

  /** A wreck as seen from one grid point: its squared distance and year. */
  datatype Neighbour = Neighbour(dSq: real, year: int)

  /** The two tallies of one grid cell. */
  datatype Counts = Counts(valid: nat, inWindow: nat)

  /** The arguments of `proportionGrid` besides the viewport. */
  datatype GridParams = GridParams(res: int, k: int, maxDist: real, window: Range)

  type Byte = x: int | 0 <= x < 256

  datatype Rgb = Rgb(r: Byte, g: Byte, b: Byte)

  datatype Pixel = Pixel(rgb: Rgb, alpha: Byte)

  /** The opacity of every cell that has data. */
  const DataAlpha: Byte := 150

  /** A fresh `ImageData` pixel: transparent black. */
  const Transparent := Pixel(Rgb(0, 0, 0), 0)

  /** The result of `proportionGrid`: the pixels of its `ImageData`, keyed
      by the byte offset of each pixel's red channel, or the exception
      `createImageData` raises for a zero size. */
  datatype GridResult = Image(pixels: map<int, Pixel>) | IndexSizeError

  // ---------------------------------------------------------------------
  // Candidate wrecks

  predicate NearViewport(w: Wreck, vp: Viewport, margin: real)
  {
    && vp.xMin - margin <= w.lon <= vp.xMax + margin
    && vp.yMin - margin <= w.lat <= vp.yMax + margin
  }

  function InMarginBox(vp: Viewport, margin: real): Wreck -> bool
  {
    (w: Wreck) => NearViewport(w, vp, margin)
  }

  /** The wrecks inside the viewport widened by `2 * maxDist` on every side,
      in their original order. */
  function RelevantWrecks(wrecks: seq<Wreck>, vp: Viewport, maxDist: real): seq<Wreck>
  {
    Filter(wrecks, InMarginBox(vp, 2.0 * maxDist))
  }

  // ---------------------------------------------------------------------
  // Grid geometry

  function Step(lo: real, hi: real, res: int, i: int): real
    requires res > 0
  {
    lo + (i as real) * ((hi - lo) / (res as real))
  }

  /** The grid point of cell `(i, j)`: `xMin + i * xStep`, `yMin + j * yStep`. */
  function GridPoint(vp: Viewport, res: int, i: int, j: int): Point
    requires res > 0
  {
    Point(Step(vp.xMin, vp.xMax, res, i), Step(vp.yMin, vp.yMax, res, j))
  }

  lemma StepWithin(lo: real, hi: real, res: int, i: int)
    requires res > 0 && 0 <= i < res && lo <= hi
    ensures lo <= Step(lo, hi, res, i) <= hi
    ensures lo < hi ==> Step(lo, hi, res, i) < hi
  {
    var step := (hi - lo) / (res as real);
    assert step * (res as real) == hi - lo;
    assert step >= 0.0;
    assert (i as real) * step >= 0.0;
    assert ((res - 1 - i) as real) * step >= 0.0;
    assert (i as real) * step <= ((res - 1) as real) * step;
    assert ((res - 1) as real) * step == hi - lo - step;
  }

  /** Every grid point lies in the viewport: from its lower-left corner up
      to, but not including, its upper and right edges. */
  lemma GridPointInViewport(vp: Viewport, res: int, i: int, j: int)
    requires res > 0 && 0 <= i < res && 0 <= j < res
    requires vp.xMin < vp.xMax && vp.yMin < vp.yMax
    ensures vp.xMin <= GridPoint(vp, res, i, j).x < vp.xMax
    ensures vp.yMin <= GridPoint(vp, res, i, j).y < vp.yMax
  {
    StepWithin(vp.xMin, vp.xMax, res, i);
    StepWithin(vp.yMin, vp.yMax, res, j);
  }

  // ---------------------------------------------------------------------
  // Nearest neighbours of one grid point

  function DSq(n: Neighbour): real { n.dSq }

  /** The squared Euclidean distance from `c` to `w`, with `w`'s year. */
  function Measure(c: Point, w: Wreck): Neighbour
  {
    Neighbour((c.x - w.lon) * (c.x - w.lon) + (c.y - w.lat) * (c.y - w.lat), w.year)
  }

  function Distances(c: Point, wrecks: seq<Wreck>): (ns: seq<Neighbour>)
    ensures |ns| == |wrecks|
    ensures forall n :: 0 <= n < |ns| ==> ns[n] == Measure(c, wrecks[n])
  {
    if |wrecks| == 0 then [] else [Measure(c, wrecks[0])] + Distances(c, wrecks[1..])
  }

  /** `dists.sort(...)` followed by `dists.slice(0, k)`. */
  function Nearest(c: Point, wrecks: seq<Wreck>, k: int): seq<Neighbour>
  {
    SlicePrefix(Sort(Distances(c, wrecks), DSq), k)
  }

  /** The selected neighbours are a prefix of the ascending-distance order:
      none of them is farther than any neighbour left out, and for
      `k >= 0` there are `min(k, |wrecks|)` of them. */
  lemma NearestIsClosest(c: Point, wrecks: seq<Wreck>, k: int)
    ensures var sorted := Sort(Distances(c, wrecks), DSq);
            var near := Nearest(c, wrecks, k);
            && near == sorted[..|near|]
            && (forall a, b :: 0 <= a < |near| <= b < |sorted| ==> near[a].dSq <= sorted[b].dSq)
            && (k >= 0 ==> |near| == Min(k, |wrecks|))
            && (k < 0 ==> |near| == Max(|wrecks| + k, 0))
  {
  }

  function Within(maxDistSq: real): Neighbour -> bool
  {
    AtMost(DSq, maxDistSq)
  }

  function NeighbourInWindow(window: Range): Neighbour -> bool
  {
    (n: Neighbour) => Contains(window, n.year)
  }

  /** The counting loop over the selected neighbours: `validCount` counts
      those within reach, `inWindowCount` those of them whose year lies in
      the window. */
  function Tally(ns: seq<Neighbour>, maxDistSq: real, window: Range): (c: Counts)
    ensures c.valid == |Filter(ns, Within(maxDistSq))|
    ensures c.inWindow == |Filter(Filter(ns, Within(maxDistSq)), NeighbourInWindow(window))|
    ensures c.inWindow <= c.valid <= |ns|
  {
    if |ns| == 0 then Counts(0, 0)
    else
      var rest := Tally(ns[1..], maxDistSq, window);
      var valid := Filter(ns[1..], Within(maxDistSq));
      assert Within(maxDistSq) == AtMost(DSq, maxDistSq);
      assert AtMost(DSq, maxDistSq)(ns[0]) <==> DSq(ns[0]) <= maxDistSq;
      if ns[0].dSq <= maxDistSq then
        var kept := [ns[0]] + valid;
        assert Filter(ns, Within(maxDistSq)) == kept;
        assert kept[0] == ns[0] && kept[1..] == valid;
        assert NeighbourInWindow(window)(ns[0]) <==> Contains(window, ns[0].year);
        Counts(rest.valid + 1, rest.inWindow + (if Contains(window, ns[0].year) then 1 else 0))
      else
        assert Filter(ns, Within(maxDistSq)) == valid;
        rest
  }

  /** The tallies of the grid point `c`, with `wrecks` as the candidates. */
  function CellCounts(c: Point, wrecks: seq<Wreck>, k: int, maxDist: real, window: Range): (r: Counts)
    ensures r.inWindow <= r.valid
    ensures k >= 0 ==> r.valid <= Min(k, |wrecks|)
  {
    Tally(Nearest(c, wrecks, k), maxDist * maxDist, window)
  }

  /** `validCount > 0 ? inWindowCount / validCount : 0` */
  function Proportion(c: Counts): (p: real)
    ensures c.inWindow <= c.valid ==> 0.0 <= p <= 1.0
    ensures c.valid > 0 ==> p * (c.valid as real) == c.inWindow as real
  {
    if c.valid > 0 then (c.inWindow as real) / (c.valid as real) else 0.0
  }

  // ---------------------------------------------------------------------
  // The image

  /** The byte offset of cell `(i, j)`'s pixel; the image's row 0 is the
      grid's top row, so the rows are flipped. */
  function PixelIndex(res: int, i: int, j: int): int
  {
    ((res - 1 - j) * res + i) * 4
  }

  /** The byte offsets of the first channel of every pixel of an `n` x `n`
      image. */
  function PixelIndices(n: nat): set<int>
  {
    set idx | 0 <= idx < 4 * n * n && idx % 4 == 0
  }

  /** `createImageData(n, n)`: every pixel transparent black. */
  function Blank(n: nat): (image: map<int, Pixel>)
    ensures image.Keys == PixelIndices(n)
  {
    map idx | idx in PixelIndices(n) :: Transparent
  }

  lemma MulAtLeast(e: int, b: int)
    requires e >= 1 && b > 0
    ensures e * b >= b
  {
    assert (e - 1) * b >= 0;
  }

  lemma DivModUnique(a: int, b: int, q: int, r: int)
    requires b > 0 && 0 <= r < b && a == q * b + r
    ensures a / b == q && a % b == r
  {
    var q', r' := a / b, a % b;
    assert a == q' * b + r';
    var e := q' - q;
    assert e * b == r - r';
    if e > 0 {
      MulAtLeast(e, b);
    } else if e < 0 {
      MulAtLeast(-e, b);
    }
  }

  /** The pixel index of a cell lies in the image, on a pixel boundary, and
      determines the cell: its row is `res - 1 - j` and its column `i`. So
      distinct cells write distinct pixels, and row `j = 0` lands in the
      image's last row. */
  lemma PixelIndexLayout(res: int, i: int, j: int)
    requires res > 0 && 0 <= i < res && 0 <= j < res
    ensures 0 <= PixelIndex(res, i, j) <= 4 * res * res - 4
    ensures PixelIndex(res, i, j) in PixelIndices(res)
    ensures (PixelIndex(res, i, j) / 4) / res == res - 1 - j
    ensures (PixelIndex(res, i, j) / 4) % res == i
  {
    var row := res - 1 - j;
    var p := row * res + i;
    assert 0 <= row * res <= (res - 1) * res;
    assert 0 <= p <= res * res - 1;
    DivModUnique(4 * p, 4, p, 0);
    DivModUnique(p, res, row, i);
  }

  lemma PixelIndexInjective(res: int, i: int, j: int, i': int, j': int)
    requires res > 0 && 0 <= i < res && 0 <= j < res && 0 <= i' < res && 0 <= j' < res
    ensures PixelIndex(res, i, j) == PixelIndex(res, i', j') <==> i == i' && j == j'
  {
    PixelIndexLayout(res, i, j);
    PixelIndexLayout(res, i', j');
  }

  /** Every pixel of the image belongs to exactly one grid cell. */
  lemma PixelIndexOnto(res: int, idx: int)
    requires res > 0 && idx in PixelIndices(res)
    ensures 0 <= (idx / 4) % res < res && 0 <= res - 1 - (idx / 4) / res < res
    ensures PixelIndex(res, (idx / 4) % res, res - 1 - (idx / 4) / res) == idx
  {
    var p := idx / 4;
    assert idx == 4 * p;
    assert p < res * res;
    var row, i := p / res, p % res;
    assert p == row * res + i;
    assert row * res <= p < res * res;
    assert row < res;
  }

  /** The pixel a cell ends up with: transparent when no neighbour is in
      reach, otherwise the colour of the proportion at the fixed opacity. */
  function CellPixel(c: Counts, colour: real -> Rgb): (p: Pixel)
    ensures p.alpha == 0 <==> c.valid == 0
    ensures p.alpha != 0 ==> p.alpha == DataAlpha
  {
    if c.valid == 0 then Transparent else Pixel(colour(Proportion(c)), DataAlpha)
  }

  /** "No data" is never drawn like a proportion of 0: a cell with
      neighbours in reach always differs from one without, whatever the
      colour scale. */
  lemma NoDataIsNotZero(empty: Counts, data: Counts, colour: real -> Rgb)
    requires empty.valid == 0 && data.valid > 0
    ensures CellPixel(empty, colour) != CellPixel(data, colour)
    ensures CellPixel(empty, colour).alpha == 0 && CellPixel(data, colour).alpha == DataAlpha
  {
  }

  /** The pixel writes of one cell. A cell without data only sets the alpha
      channel, leaving the other three channels as they were. */
  function Paint(image: map<int, Pixel>, idx: int, c: Counts, colour: real -> Rgb): map<int, Pixel>
    requires idx in image
  {
    if c.valid == 0 then image[idx := Pixel(image[idx].rgb, 0)]
    else image[idx := Pixel(colour(Proportion(c)), DataAlpha)]
  }

  function CellAt(wrecks: seq<Wreck>, vp: Viewport, prm: GridParams, i: int, j: int): Counts
    requires prm.res > 0
  {
    CellCounts(GridPoint(vp, prm.res, i, j), wrecks, prm.k, prm.maxDist, prm.window)
  }

  /** The two nested loops from cell `(ci, cj)` onwards, where `cells(i, j)`
      gives the tallies of cell `(i, j)`. */
  function PaintFrom(image: map<int, Pixel>, res: int, cells: (int, int) -> Counts,
                     colour: real -> Rgb, ci: int, cj: int): (r: map<int, Pixel>)
    requires res > 0 && 0 <= ci <= res && 0 <= cj <= res
    requires forall i, j :: 0 <= i < res && 0 <= j < res ==> PixelIndex(res, i, j) in image
    requires forall i, j :: 0 <= i < res && 0 <= j < res ==>
      image[PixelIndex(res, i, j)] == (if j < cj || (j == cj && i < ci) then CellPixel(cells(i, j), colour) else Transparent)
    ensures r.Keys == image.Keys
    ensures forall i, j :: 0 <= i < res && 0 <= j < res ==> r[PixelIndex(res, i, j)] == CellPixel(cells(i, j), colour)
    decreases res - cj, res - ci
  {
    if cj >= res then
      image
    else if ci >= res then
      PaintFrom(image, res, cells, colour, 0, cj + 1)
    else
      var idx := PixelIndex(res, ci, cj);
      var next := Paint(image, idx, cells(ci, cj), colour);
      assert forall i, j :: 0 <= i < res && 0 <= j < res && (i != ci || j != cj) ==> PixelIndex(res, i, j) != idx by {
        forall i, j | 0 <= i < res && 0 <= j < res && (i != ci || j != cj)
          ensures PixelIndex(res, i, j) != idx
        {
          PixelIndexInjective(res, i, j, ci, cj);
        }
      }
      PaintFrom(next, res, cells, colour, ci + 1, cj)
  }

  /** `proportionGrid`: the heatmap image. For `res > 0` every cell's pixel
      is the one its tallies over the pre-filtered wrecks call for; a
      negative `res` gives a blank image of `|res|` x `|res|` pixels, since
      the loops do not run. */
  function ProportionGrid(wrecks: seq<Wreck>, vp: Viewport, prm: GridParams, colour: real -> Rgb): (out: GridResult)
    ensures out.IndexSizeError? <==> prm.res == 0
    ensures out.Image? ==> out.pixels.Keys == PixelIndices(if prm.res < 0 then -prm.res else prm.res)
    ensures prm.res < 0 ==> forall idx :: idx in out.pixels ==> out.pixels[idx] == Transparent
    ensures prm.res > 0 ==> forall i, j :: 0 <= i < prm.res && 0 <= j < prm.res ==>
      PixelIndex(prm.res, i, j) in out.pixels
    ensures prm.res > 0 ==> forall i, j :: 0 <= i < prm.res && 0 <= j < prm.res ==>
      out.pixels[PixelIndex(prm.res, i, j)] ==
        CellPixel(CellAt(RelevantWrecks(wrecks, vp, prm.maxDist), vp, prm, i, j), colour)
  {
    if prm.res == 0 then IndexSizeError
    else if prm.res < 0 then Image(Blank(-prm.res))
    else
      var candidates := RelevantWrecks(wrecks, vp, prm.maxDist);
      var blank := Blank(prm.res);
      assert forall i, j :: 0 <= i < prm.res && 0 <= j < prm.res ==> PixelIndex(prm.res, i, j) in blank by {
        forall i, j | 0 <= i < prm.res && 0 <= j < prm.res ensures PixelIndex(prm.res, i, j) in blank {
          PixelIndexLayout(prm.res, i, j);
        }
      }
      var cells := (i: int, j: int) => CellAt(candidates, vp, prm, i, j);
      Image(PaintFrom(blank, prm.res, cells, colour, 0, 0))
  }

  // ---------------------------------------------------------------------
  // The pre-filter is only an optimisation

  /** The viewport, `k` and `maxDist` under which the pre-filter to the
      viewport plus a `2 * maxDist` margin cannot change any cell. */
  predicate PrefilterSafe(vp: Viewport, prm: GridParams)
  {
    prm.maxDist >= 0.0 && prm.k >= 0 && vp.xMin <= vp.xMax && vp.yMin <= vp.yMax
  }

  lemma FarSquare(d: real, m: real)
    requires 0.0 <= m < d
    ensures d * d > m * m
  {
    var e := d - m;
    assert d * d == m * m + e * (d + m);
    assert e * (d + m) > 0.0;
  }

  /** A wreck the pre-filter drops is out of reach of every grid point. */
  lemma DroppedWreckOutOfReach(vp: Viewport, res: int, i: int, j: int, maxDist: real, w: Wreck)
    requires res > 0 && 0 <= i < res && 0 <= j < res
    requires maxDist >= 0.0 && vp.xMin <= vp.xMax && vp.yMin <= vp.yMax
    requires !NearViewport(w, vp, 2.0 * maxDist)
    ensures Measure(GridPoint(vp, res, i, j), w).dSq > maxDist * maxDist
  {
    var c := GridPoint(vp, res, i, j);
    StepWithin(vp.xMin, vp.xMax, res, i);
    StepWithin(vp.yMin, vp.yMax, res, j);
    var dx, dy := c.x - w.lon, c.y - w.lat;
    assert dx * dx >= 0.0 && dy * dy >= 0.0;
    if w.lon < vp.xMin - 2.0 * maxDist {
      FarSquare(dx, maxDist);
    } else if w.lon > vp.xMax + 2.0 * maxDist {
      FarSquare(-dx, maxDist);
    } else if w.lat < vp.yMin - 2.0 * maxDist {
      FarSquare(dy, maxDist);
    } else {
      FarSquare(-dy, maxDist);
    }
  }

  lemma DroppedWrecksOutOfReach(wrecks: seq<Wreck>, vp: Viewport, prm: GridParams, i: int, j: int)
    requires prm.res > 0 && 0 <= i < prm.res && 0 <= j < prm.res
    requires PrefilterSafe(vp, prm)
    ensures forall n :: 0 <= n < |wrecks| && !InMarginBox(vp, 2.0 * prm.maxDist)(wrecks[n]) ==>
      Measure(GridPoint(vp, prm.res, i, j), wrecks[n]).dSq > prm.maxDist * prm.maxDist
  {
    forall n | 0 <= n < |wrecks| && !InMarginBox(vp, 2.0 * prm.maxDist)(wrecks[n])
      ensures Measure(GridPoint(vp, prm.res, i, j), wrecks[n]).dSq > prm.maxDist * prm.maxDist
    {
      DroppedWreckOutOfReach(vp, prm.res, i, j, prm.maxDist, wrecks[n]);
    }
  }

  lemma WithinMeans(m: real, n: Neighbour)
    ensures Within(m)(n) <==> n.dSq <= m
  {
    assert Within(m) == AtMost(DSq, m);
    assert AtMost(DSq, m)(n) <==> DSq(n) <= m;
  }

  /** Dropping wrecks that are out of reach of `c` leaves the neighbours of
      `c` within reach unchanged, order included. */
  lemma {:induction false} DropFarWrecks(c: Point, wrecks: seq<Wreck>, keep: Wreck -> bool, maxDistSq: real)
    requires forall n :: 0 <= n < |wrecks| && !keep(wrecks[n]) ==> Measure(c, wrecks[n]).dSq > maxDistSq
    ensures Filter(Distances(c, Filter(wrecks, keep)), Within(maxDistSq))
         == Filter(Distances(c, wrecks), Within(maxDistSq))
  {
    if |wrecks| > 0 {
      var w := wrecks[0];
      var m := Measure(c, w);
      var kept := Filter(wrecks[1..], keep);
      var rest := Filter(Distances(c, wrecks[1..]), Within(maxDistSq));
      DropFarWrecks(c, wrecks[1..], keep, maxDistSq);
      WithinMeans(maxDistSq, m);
      assert Filter(Distances(c, wrecks), Within(maxDistSq)) == (if m.dSq <= maxDistSq then [m] else []) + rest;
      if keep(w) {
        var f := [w] + kept;
        assert Filter(wrecks, keep) == f;
        assert f[0] == w && f[1..] == kept;
        var d := Distances(c, f);
        assert d == [m] + Distances(c, kept);
        assert d[0] == m && d[1..] == Distances(c, kept);
      } else {
        assert Filter(wrecks, keep) == kept;
      }
    }
  }

  /** The neighbours within reach among the `k` nearest are the `k` nearest
      of those within reach. */
  lemma NearestWithinReach(c: Point, wrecks: seq<Wreck>, k: int, maxDistSq: real)
    requires k >= 0
    ensures Filter(Nearest(c, wrecks, k), Within(maxDistSq))
         == Take(Sort(Filter(Distances(c, wrecks), Within(maxDistSq)), DSq), k)
  {
    var sorted := Sort(Distances(c, wrecks), DSq);
    assert Nearest(c, wrecks, k) == Take(sorted, k);
    FilterSortedPrefix(sorted, DSq, maxDistSq, k);
    FilterSort(Distances(c, wrecks), DSq, Within(maxDistSq));
  }

  /** The tallies depend only on the neighbours within reach. */
  lemma TallyDependsOnReach(ns1: seq<Neighbour>, ns2: seq<Neighbour>, maxDistSq: real, window: Range)
    requires Filter(ns1, Within(maxDistSq)) == Filter(ns2, Within(maxDistSq))
    ensures Tally(ns1, maxDistSq, window) == Tally(ns2, maxDistSq, window)
  {
  }

  /** The pre-filter of `proportionGrid` does not change any cell's
      tallies: every grid point sees the same `validCount` and
      `inWindowCount` over the relevant wrecks as over all of them. */
  lemma PrefilterPreservesCounts(wrecks: seq<Wreck>, vp: Viewport, prm: GridParams, i: int, j: int)
    requires prm.res > 0 && 0 <= i < prm.res && 0 <= j < prm.res
    requires PrefilterSafe(vp, prm)
    ensures CellAt(RelevantWrecks(wrecks, vp, prm.maxDist), vp, prm, i, j) == CellAt(wrecks, vp, prm, i, j)
  {
    DroppedWrecksOutOfReach(wrecks, vp, prm, i, j);
    CountsIgnoreFarWrecks(GridPoint(vp, prm.res, i, j), wrecks, InMarginBox(vp, 2.0 * prm.maxDist),
                          prm.k, prm.maxDist, prm.window);
  }

  /** The tallies of a grid point do not change when wrecks out of its
      reach are dropped from the candidates. */
  lemma CountsIgnoreFarWrecks(c: Point, wrecks: seq<Wreck>, keep: Wreck -> bool, k: int, maxDist: real, window: Range)
    requires k >= 0
    requires forall n :: 0 <= n < |wrecks| && !keep(wrecks[n]) ==> Measure(c, wrecks[n]).dSq > maxDist * maxDist
    ensures CellCounts(c, Filter(wrecks, keep), k, maxDist, window) == CellCounts(c, wrecks, k, maxDist, window)
  {
    var m := maxDist * maxDist;
    var relevant := Filter(wrecks, keep);
    NearestIgnoresFarWrecks(c, wrecks, keep, k, m);
    TallyDependsOnReach(Nearest(c, relevant, k), Nearest(c, wrecks, k), m, window);
    CellCountsUnfold(c, relevant, k, maxDist, window);
    CellCountsUnfold(c, wrecks, k, maxDist, window);
  }

  /** Dropping wrecks out of reach of `c` does not change which of the `k`
      nearest are within reach. */
  lemma NearestIgnoresFarWrecks(c: Point, wrecks: seq<Wreck>, keep: Wreck -> bool, k: int, maxDistSq: real)
    requires k >= 0
    requires forall n :: 0 <= n < |wrecks| && !keep(wrecks[n]) ==> Measure(c, wrecks[n]).dSq > maxDistSq
    ensures Filter(Nearest(c, Filter(wrecks, keep), k), Within(maxDistSq))
         == Filter(Nearest(c, wrecks, k), Within(maxDistSq))
  {
    DropFarWrecks(c, wrecks, keep, maxDistSq);
    NearestWithinReach(c, Filter(wrecks, keep), k, maxDistSq);
    NearestWithinReach(c, wrecks, k, maxDistSq);
  }

  lemma CellCountsUnfold(c: Point, wrecks: seq<Wreck>, k: int, maxDist: real, window: Range)
    ensures CellCounts(c, wrecks, k, maxDist, window) == Tally(Nearest(c, wrecks, k), maxDist * maxDist, window)
  {
  }

  /** Hence the whole image is the one computed over all wrecks. */
  lemma ProportionGridIgnoresPrefilter(wrecks: seq<Wreck>, vp: Viewport, prm: GridParams, colour: real -> Rgb)
    requires prm.res > 0 && PrefilterSafe(vp, prm)
    ensures forall i, j :: 0 <= i < prm.res && 0 <= j < prm.res ==>
      PixelIndex(prm.res, i, j) in ProportionGrid(wrecks, vp, prm, colour).pixels &&
      ProportionGrid(wrecks, vp, prm, colour).pixels[PixelIndex(prm.res, i, j)]
        == CellPixel(CellAt(wrecks, vp, prm, i, j), colour)
  {
    forall i, j | 0 <= i < prm.res && 0 <= j < prm.res
      ensures CellAt(RelevantWrecks(wrecks, vp, prm.maxDist), vp, prm, i, j) == CellAt(wrecks, vp, prm, i, j)
    {
      PrefilterPreservesCounts(wrecks, vp, prm, i, j);
    }
  }

  lemma InMarginBoxMeans(vp: Viewport, margin: real, w: Wreck)
    ensures InMarginBox(vp, margin)(w) <==> NearViewport(w, vp, margin)
  {
  }

  lemma DistancesPair(c: Point, x: Wreck, y: Wreck)
    ensures Distances(c, [x, y]) == [Measure(c, x), Measure(c, y)]
  {
    var ds := Distances(c, [x, y]);
    assert |ds| == 2 && ds[0] == Measure(c, x) && ds[1] == Measure(c, y);
  }

  lemma TallySingle(n: Neighbour, maxDistSq: real, window: Range)
    ensures Tally([n], maxDistSq, window)
         == if n.dSq <= maxDistSq then Counts(1, if Contains(window, n.year) then 1 else 0) else Counts(0, 0)
  {
    assert [n][1..] == [];
  }

  /** A negative `maxDist` breaks the pre-filter: its margin shrinks the
      viewport while `maxDist * maxDist` still reaches out, so a wreck on
      the grid point itself is dropped. */
  lemma PrefilterNeedsNonNegativeMaxDist()
    ensures var vp := Viewport(0.0, 1.0, 0.0, 1.0);
            var prm := GridParams(1, 1, -1.0, Range(1900, 2000));
            var wrecks := [Wreck(0.0, 0.0, 1950)];
            && CellAt(RelevantWrecks(wrecks, vp, prm.maxDist), vp, prm, 0, 0) == Counts(0, 0)
            && CellAt(wrecks, vp, prm, 0, 0) == Counts(1, 1)
  {
    var vp := Viewport(0.0, 1.0, 0.0, 1.0);
    var prm := GridParams(1, 1, -1.0, Range(1900, 2000));
    var w := Wreck(0.0, 0.0, 1950);
    InMarginBoxMeans(vp, 2.0 * prm.maxDist, w);
    assert [w][1..] == [];
    assert RelevantWrecks([w], vp, prm.maxDist) == [];
    var c := GridPoint(vp, 1, 0, 0);
    assert c == Point(0.0, 0.0);
    var n := Measure(c, w);
    assert n == Neighbour(0.0, 1950);
    assert Distances(c, [w]) == [n];
    SortSingleton(n, DSq);
    assert Nearest(c, [w], 1) == [n];
    CellCountsUnfold(c, [w], 1, prm.maxDist, prm.window);
    TallySingle(n, 1.0, prm.window);
  }

  /** A negative `k` breaks it too: `slice(0, k)` then drops the `-k`
      farthest candidates, and which those are depends on how many
      candidates the pre-filter left. */
  lemma PrefilterNeedsNonNegativeK()
    ensures var vp := Viewport(0.0, 1.0, 0.0, 1.0);
            var prm := GridParams(1, -1, 1.0, Range(1900, 2000));
            var wrecks := [Wreck(0.0, 0.0, 1950), Wreck(3.0, 4.0, 1950)];
            && CellAt(RelevantWrecks(wrecks, vp, prm.maxDist), vp, prm, 0, 0) == Counts(0, 0)
            && CellAt(wrecks, vp, prm, 0, 0) == Counts(1, 1)
  {
    var vp := Viewport(0.0, 1.0, 0.0, 1.0);
    var near, far := Wreck(0.0, 0.0, 1950), Wreck(3.0, 4.0, 1950);
    var window := Range(1900, 2000);
    assert GridPoint(vp, 1, 0, 0) == Point(0.0, 0.0);
    MarginDropsFarWreck(vp, near, far);
    NegativeKCutsLast(near, far, window);
  }

  lemma MarginDropsFarWreck(vp: Viewport, near: Wreck, far: Wreck)
    requires vp == Viewport(0.0, 1.0, 0.0, 1.0)
    requires near == Wreck(0.0, 0.0, 1950) && far == Wreck(3.0, 4.0, 1950)
    ensures RelevantWrecks([near, far], vp, 1.0) == [near]
  {
    var keep := InMarginBox(vp, 2.0 * 1.0);
    InMarginBoxMeans(vp, 2.0, near);
    InMarginBoxMeans(vp, 2.0, far);
    assert [near, far][1..] == [far] && [far][1..] == [];
    assert Filter([far], keep) == [];
  }

  lemma NegativeKCutsLast(near: Wreck, far: Wreck, window: Range)
    requires near == Wreck(0.0, 0.0, 1950) && far == Wreck(3.0, 4.0, 1950)
    requires window == Range(1900, 2000)
    ensures CellCounts(Point(0.0, 0.0), [near], -1, 1.0, window) == Counts(0, 0)
    ensures CellCounts(Point(0.0, 0.0), [near, far], -1, 1.0, window) == Counts(1, 1)
  {
    NegativeKCutsOnly(Point(0.0, 0.0), near, window);
    NegativeKCutsFar(Point(0.0, 0.0), near, far, window);
  }

  /** With the pre-filter the only candidate is cut by `slice(0, -1)`. */
  lemma NegativeKCutsOnly(c: Point, near: Wreck, window: Range)
    ensures CellCounts(c, [near], -1, 1.0, window) == Counts(0, 0)
  {
    assert |Nearest(c, [near], -1)| == 0;
    CellCountsUnfold(c, [near], -1, 1.0, window);
  }

  /** Without it the far wreck is the one cut. */
  lemma NegativeKCutsFar(c: Point, near: Wreck, far: Wreck, window: Range)
    requires c == Point(0.0, 0.0)
    requires near == Wreck(0.0, 0.0, 1950) && far == Wreck(3.0, 4.0, 1950)
    requires window == Range(1900, 2000)
    ensures CellCounts(c, [near, far], -1, 1.0, window) == Counts(1, 1)
  {
    NearestOfPair(c, near, far);
    CellCountsUnfold(c, [near, far], -1, 1.0, window);
    TallySingle(Measure(c, near), 1.0, window);
  }

  lemma NearestOfPair(c: Point, near: Wreck, far: Wreck)
    requires c == Point(0.0, 0.0)
    requires near == Wreck(0.0, 0.0, 1950) && far == Wreck(3.0, 4.0, 1950)
    ensures Nearest(c, [near, far], -1) == [Measure(c, near)]
  {
    var a, b := Measure(c, near), Measure(c, far);
    assert a.dSq == 0.0 && b.dSq == 25.0;
    DistancesPair(c, near, far);
    SortPair(a, b, DSq);
    assert [a, b][..1] == [a];
  }

  // ---------------------------------------------------------------------
  // Limiting cases

  function WreckInWindow(window: Range): Wreck -> bool
  {
    (w: Wreck) => Contains(window, w.year)
  }

  /** Measuring distances keeps each wreck's year, so as many neighbours as
      wrecks fall in the window. */
  lemma {:induction false} DistancesInWindow(c: Point, wrecks: seq<Wreck>, window: Range)
    ensures |Filter(Distances(c, wrecks), NeighbourInWindow(window))| == |Filter(wrecks, WreckInWindow(window))|
  {
    if |wrecks| > 0 {
      var ds := Distances(c, wrecks);
      DistancesInWindow(c, wrecks[1..], window);
      assert ds[0] == Measure(c, wrecks[0]) && ds[1..] == Distances(c, wrecks[1..]);
      assert NeighbourInWindow(window)(ds[0]) <==> WreckInWindow(window)(wrecks[0]);
    }
  }

  /** With `k` at least the number of candidates and every candidate in
      reach, a cell tallies the whole list: `validCount` is the number of
      wrecks and `inWindowCount` the number of them dated in the window,
      wherever the grid point lies. */
  lemma AllInReach(c: Point, wrecks: seq<Wreck>, k: int, maxDist: real, window: Range)
    requires k >= |wrecks|
    requires forall n :: 0 <= n < |wrecks| ==> Measure(c, wrecks[n]).dSq <= maxDist * maxDist
    ensures CellCounts(c, wrecks, k, maxDist, window)
         == Counts(|wrecks|, |Filter(wrecks, WreckInWindow(window))|)
  {
    var m := maxDist * maxDist;
    var ds := Distances(c, wrecks);
    var sorted := Sort(ds, DSq);
    assert Nearest(c, wrecks, k) == sorted;
    forall n | 0 <= n < |ds| ensures Within(m)(ds[n]) {
      WithinMeans(m, ds[n]);
    }
    FilterAll(ds, Within(m));
    FilterSort(ds, DSq, Within(m));
    FilterSort(ds, DSq, NeighbourInWindow(window));
    DistancesInWindow(c, wrecks, window);
    CellCountsUnfold(c, wrecks, k, maxDist, window);
  }

  /** A wreck lying exactly on a grid point is that cell's only neighbour
      (for any `k >= 1`), so the cell has data and its proportion is 1 or 0
      as the wreck's year is in the window or not. */
  lemma SingleWreckOnGridPoint(w: Wreck, vp: Viewport, prm: GridParams, i: int, j: int)
    requires prm.res > 0 && 0 <= i < prm.res && 0 <= j < prm.res && prm.k >= 1
    requires GridPoint(vp, prm.res, i, j) == Point(w.lon, w.lat)
    ensures CellAt([w], vp, prm, i, j) == Counts(1, if Contains(prm.window, w.year) then 1 else 0)
    ensures Proportion(CellAt([w], vp, prm, i, j)) == if Contains(prm.window, w.year) then 1.0 else 0.0
  {
    var c := GridPoint(vp, prm.res, i, j);
    assert Measure(c, w).dSq == 0.0;
    assert [w][1..] == [];
    assert Filter([w], WreckInWindow(prm.window)) == if Contains(prm.window, w.year) then [w] else [];
    AllInReach(c, [w], prm.k, prm.maxDist, prm.window);
  }

  /** A single wreck at the viewport's lower-left corner, which is the
      grid point of cell `(0, 0)` at every resolution: that cell is drawn
      at data opacity with the colour of 1 when the wreck's year is in the
      window and of 0 when it is not (never as "no data"). The one-cell
      grid over a one-degree viewport with windows 1990..2010 and
      2001..2010 around a wreck of 2000 is the instance `res = 1`, where
      the cell's pixel is at offset 0. */
  lemma SingleWreckExample(w: Wreck, vp: Viewport, prm: GridParams, colour: real -> Rgb)
    requires prm.res > 0 && prm.k >= 1 && PrefilterSafe(vp, prm)
    requires w.lon == vp.xMin && w.lat == vp.yMin
    ensures var out := ProportionGrid([w], vp, prm, colour);
            && out.Image?
            && PixelIndex(prm.res, 0, 0) in out.pixels
            && out.pixels[PixelIndex(prm.res, 0, 0)]
               == Pixel(colour(if Contains(prm.window, w.year) then 1.0 else 0.0), DataAlpha)
    ensures prm.res == 1 ==> PixelIndex(prm.res, 0, 0) == 0
  {
    SingleWreckCell(w, vp, prm, colour);
    ProportionGridIgnoresPrefilter([w], vp, prm, colour);
  }

  lemma SingleWreckCell(w: Wreck, vp: Viewport, prm: GridParams, colour: real -> Rgb)
    requires prm.res > 0 && prm.k >= 1
    requires w.lon == vp.xMin && w.lat == vp.yMin
    ensures CellPixel(CellAt([w], vp, prm, 0, 0), colour)
         == Pixel(colour(if Contains(prm.window, w.year) then 1.0 else 0.0), DataAlpha)
  {
    assert GridPoint(vp, prm.res, 0, 0) == Point(w.lon, w.lat);
    SingleWreckOnGridPoint(w, vp, prm, 0, 0);
  }

  /** With no wrecks every cell is "no data": the whole image is
      transparent. */
  lemma NoWrecksNoData(vp: Viewport, prm: GridParams, colour: real -> Rgb)
    requires prm.res != 0
    ensures var out := ProportionGrid([], vp, prm, colour);
            forall idx :: idx in out.pixels ==> out.pixels[idx] == Transparent
  {
    var out := ProportionGrid([], vp, prm, colour);
    if prm.res > 0 {
      forall idx | idx in out.pixels
        ensures out.pixels[idx] == Transparent
      {
        PixelIndexOnto(prm.res, idx);
        var i, j := (idx / 4) % prm.res, prm.res - 1 - (idx / 4) / prm.res;
        assert RelevantWrecks([], vp, prm.maxDist) == [];
        assert CellAt([], vp, prm, i, j).valid == 0;
      }
    }
  }
}
