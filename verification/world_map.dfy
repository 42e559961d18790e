/** One redraw of the wreck map (`update` in worldmap-site/src/main.ts):
    the two year inputs are put in order, the wreck markers are the wrecks
    inside the viewport and the year window, and the heatmap overlay is the
    proportion grid over the same window. The viewport is taken as given;
    how it follows from the centre and zoom inputs is not modelled. */
module WorldMap {
  import opened Seqs
  import opened YearRange
  import opened Heatmap

  /** The inputs one redraw reads, already parsed. */
  datatype MapInputs = MapInputs(
    vp: Viewport,
    yearMin: int, yearMax: int,
    k: int, maxDist: real, res: int,
    showWrecks: bool, showOverlay: bool)

  /** The heatmap layer: not drawn, or drawn from a `proportionGrid` call. */
  datatype Overlay = Hidden | Shown(grid: GridResult)

  /** What one redraw puts on the map. */
  datatype MapView = MapView(markers: seq<Wreck>, overlay: Overlay)

  /** The marker filter: year in the window and position in the closed
      viewport box. */
  function VisibleIn(vp: Viewport, window: Range): Wreck -> bool
  {
    (w: Wreck) =>
      && Contains(window, w.year)
      && vp.xMin <= w.lon <= vp.xMax
      && vp.yMin <= w.lat <= vp.yMax
  }

  /** `wrecks.filter(...)`: the wrecks to draw as markers, in their
      original order. */
  function VisibleWrecks(wrecks: seq<Wreck>, vp: Viewport, window: Range): seq<Wreck>
  {
    Filter(wrecks, VisibleIn(vp, window))
  }

  /** The marker list holds exactly the wrecks of the input dated in the
      window and lying in the closed viewport box. */
  lemma VisibleWrecksExactly(wrecks: seq<Wreck>, vp: Viewport, window: Range)
    ensures forall i :: 0 <= i < |VisibleWrecks(wrecks, vp, window)| ==>
      var w := VisibleWrecks(wrecks, vp, window)[i];
      && w in wrecks
      && window.lo <= w.year <= window.hi
      && vp.xMin <= w.lon <= vp.xMax && vp.yMin <= w.lat <= vp.yMax
    ensures forall i :: 0 <= i < |wrecks| ==>
      (window.lo <= wrecks[i].year <= window.hi
       && vp.xMin <= wrecks[i].lon <= vp.xMax && vp.yMin <= wrecks[i].lat <= vp.yMax)
      ==> wrecks[i] in VisibleWrecks(wrecks, vp, window)
  {
    FilterMembers(wrecks, VisibleIn(vp, window));
  }

  /** The markers keep the input order: the markers of a concatenation
      are the markers of the first part followed by those of the second. */
  lemma VisibleWrecksKeepOrder(a: seq<Wreck>, b: seq<Wreck>, vp: Viewport, window: Range)
    ensures VisibleWrecks(a + b, vp, window) == VisibleWrecks(a, vp, window) + VisibleWrecks(b, vp, window)
  {
    FilterAppend(a, b, VisibleIn(vp, window));
  }

  /** Every marker lies in the viewport, so for a non-negative `maxDist` it
      is among the heatmap's pre-filtered candidates as well. */
  lemma MarkersAreCandidates(wrecks: seq<Wreck>, vp: Viewport, window: Range, maxDist: real)
    requires maxDist >= 0.0
    ensures forall i :: 0 <= i < |VisibleWrecks(wrecks, vp, window)| ==>
      VisibleWrecks(wrecks, vp, window)[i] in RelevantWrecks(wrecks, vp, maxDist)
  {
    var visible := VisibleWrecks(wrecks, vp, window);
    var keep := InMarginBox(vp, 2.0 * maxDist);
    FilterMembers(wrecks, VisibleIn(vp, window));
    FilterMembers(wrecks, keep);
    forall i | 0 <= i < |visible|
      ensures visible[i] in RelevantWrecks(wrecks, vp, maxDist)
    {
      var j :| 0 <= j < |wrecks| && wrecks[j] == visible[i];
      InMarginBoxMeans(vp, 2.0 * maxDist, wrecks[j]);
    }
  }

  /** One redraw: the year inputs are swapped into order, then the markers
      (when shown) and the overlay (when shown) are computed over the same
      window. */
  function Update(wrecks: seq<Wreck>, inputs: MapInputs, colour: real -> Rgb): (view: MapView)
    ensures !inputs.showWrecks ==> view.markers == []
    ensures view.overlay.Shown? <==> inputs.showOverlay
    ensures view.overlay.Shown? ==> (view.overlay.grid.IndexSizeError? <==> inputs.res == 0)
  {
    var window := Ordered(inputs.yearMin, inputs.yearMax);
    var markers := if inputs.showWrecks then VisibleWrecks(wrecks, inputs.vp, window) else [];
    var overlay :=
      if inputs.showOverlay
      then Shown(ProportionGrid(wrecks, inputs.vp,
                                GridParams(inputs.res, inputs.k, inputs.maxDist, window), colour))
      else Hidden;
    MapView(markers, overlay)
  }

  /** The markers of a redraw are the wrecks whose year lies between the
      two year inputs, whichever of them is the larger, and that lie in
      the viewport. */
  lemma UpdateMarkers(wrecks: seq<Wreck>, inputs: MapInputs, colour: real -> Rgb)
    requires inputs.showWrecks
    ensures var view := Update(wrecks, inputs, colour);
            var (y1, y2, vp) := (inputs.yearMin, inputs.yearMax, inputs.vp);
            && (forall i :: 0 <= i < |view.markers| ==>
                  && view.markers[i] in wrecks
                  && (y1 <= view.markers[i].year <= y2 || y2 <= view.markers[i].year <= y1)
                  && vp.xMin <= view.markers[i].lon <= vp.xMax
                  && vp.yMin <= view.markers[i].lat <= vp.yMax)
            && (forall i :: 0 <= i < |wrecks| ==>
                  ((y1 <= wrecks[i].year <= y2 || y2 <= wrecks[i].year <= y1)
                   && vp.xMin <= wrecks[i].lon <= vp.xMax && vp.yMin <= wrecks[i].lat <= vp.yMax)
                  ==> wrecks[i] in view.markers)
  {
    var window := Ordered(inputs.yearMin, inputs.yearMax);
    VisibleWrecksExactly(wrecks, inputs.vp, window);
  }

  /** The overlay's year window is never empty because of the order of the
      inputs: the grid is computed over the window from the smaller input
      to the larger. */
  lemma UpdateOverlayWindow(wrecks: seq<Wreck>, inputs: MapInputs, colour: real -> Rgb)
    requires inputs.showOverlay
    ensures var view := Update(wrecks, inputs, colour);
            var lo := Min(inputs.yearMin, inputs.yearMax);
            var hi := Max(inputs.yearMin, inputs.yearMax);
            var prm := GridParams(inputs.res, inputs.k, inputs.maxDist, Range(lo, hi));
            view.overlay == Shown(ProportionGrid(wrecks, inputs.vp, prm, colour))
  {
  }

  /** Entering the years the other way round draws the same map. */
  lemma UpdateIgnoresYearOrder(wrecks: seq<Wreck>, inputs: MapInputs, colour: real -> Rgb)
    ensures Update(wrecks, inputs, colour)
         == Update(wrecks, inputs.(yearMin := inputs.yearMax, yearMax := inputs.yearMin), colour)
  {
    OrderedIsSymmetric(inputs.yearMin, inputs.yearMax, inputs.yearMin);
  }
}
