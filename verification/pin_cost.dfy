/** Pin-footprint stamping into the cost planes (`addPinAvoidingCostToGrid`
    and `getGridLayers`, src/GridBasedRouter.cpp). A pad's footprint, already
    converted to a half-open rectangle of grid cells, is stamped on each of
    its grid layers: every in-bounds cell of it gets `value` added to the base
    cost and/or the via cost and may be marked via-forbidden, as three flags
    say. Costs are integers here (floats in the source), so additions are
    exact. */
module PinCost {
  import opened Grid

  /** `padType::SMD` versus every other pad type. */
  datatype PadType = Smd | NonSmd

  /** The driver's layer tables: `mDbLayerIdToGridLayer` and
      `mGridLayerToName` (only its length matters here). */
  datatype LayerTable = LayerTable(dbLayerToGrid: map<int, int>, gridLayerNames: seq<string>)

  /** A rectangle of grid cells, lower-left corner included and upper-right
      excluded: [llx, urx) x [lly, ury). */
  datatype Rect = Rect(llx: int, lly: int, urx: int, ury: int)

  /** What the database supplies about one pad of one instance: the pad type,
      the instance's database layer id, and the pad's footprint in grid
      cells (floor of the lower-left, ceiling of the upper-right corner). */
  datatype Pad = Pad(padType: PadType, instLayer: int, footprint: Rect)

  datatype StampFlags = StampFlags(toViaCost: bool, toViaForbidden: bool, toBaseCost: bool)

  /** The persistent planes of a `BoardGrid`: base cost, via cost, and the
      via-forbidden marks. */
  datatype CostPlanes = CostPlanes(base: map<Location, int>, via: map<Location, int>, viaForbidden: set<Location>)

  /** The planes cover exactly the grid's cells and only mark cells in it. */
  ghost predicate PlanesFit(g: BoardGrid, p: CostPlanes)
  {
    && (forall c :: c in p.base <==> ValidateLocation(g, c))
    && (forall c :: c in p.via <==> ValidateLocation(g, c))
    && (forall c :: c in p.viaForbidden ==> ValidateLocation(g, c))
  }

  /** `getGridLayers`: appends to `layers` (never clears it) the SMD pad's
      mapped instance layer, if the instance's layer is mapped, or every grid
      layer index in order for any other pad type; always reports success. */
  function GridLayers(table: LayerTable, pad: Pad, layers: seq<int>): (r: (seq<int>, bool))
    ensures r.1
    ensures |layers| <= |r.0| && r.0[..|layers|] == layers
    ensures pad.padType == Smd ==>
              r.0[|layers|..] == if pad.instLayer in table.dbLayerToGrid
                                 then [table.dbLayerToGrid[pad.instLayer]] else []
    ensures pad.padType != Smd ==>
              |r.0| == |layers| + |table.gridLayerNames|
              && forall i :: |layers| <= i < |r.0| ==> r.0[i] == i - |layers|
  {
    if pad.padType == Smd then
      var found := pad.instLayer in table.dbLayerToGrid;
      var out := if found then layers + [table.dbLayerToGrid[pad.instLayer]] else layers;
      assert out[..|layers|] == layers;
      (out, true)
    else
      (AppendLayerIndices(layers, table.gridLayerNames), true)
  }

  /** The counting loop over `mGridLayerToName`: pushes 0, 1, ... */
  function AppendLayerIndices(layers: seq<int>, names: seq<string>): (r: seq<int>)
    ensures |r| == |layers| + |names| && r[..|layers|] == layers
    ensures forall i :: |layers| <= i < |r| ==> r[i] == i - |layers|
  {
    if names == [] then layers
    else AppendLayerIndices(layers, names[..|names| - 1]) + [|names| - 1]
  }

  /** The layers a pad is stamped on (the source starts from an empty list). */
  function PadLayers(table: LayerTable, pad: Pad): seq<int>
  {
    GridLayers(table, pad, []).0
  }

  predicate InRect(rect: Rect, c: Location)
  {
    rect.llx <= c.x < rect.urx && rect.lly <= c.y < rect.ury
  }

  /** `value` once for every occurrence of layer z in `layers`. */
  function Delta(layers: seq<int>, z: int, value: int): int
  {
    if layers == [] then 0
    else (if layers[0] == z then value else 0) + Delta(layers[1..], z, value)
  }

  lemma {:induction false} DeltaNegates(layers: seq<int>, z: int, value: int)
    ensures Delta(layers, z, -value) == -Delta(layers, z, value)
  {
    if layers != [] {
      DeltaNegates(layers[1..], z, value);
    }
  }

  lemma {:induction false} DeltaOutsideLayers(layers: seq<int>, z: int, value: int)
    requires z !in layers
    ensures Delta(layers, z, value) == 0
  {
    if layers != [] {
      DeltaOutsideLayers(layers[1..], z, value);
    }
  }

  /** The body of the innermost loop: an out-of-bounds cell is skipped;
      otherwise the flagged planes get `value` added and the cell may be
      marked via-forbidden. */
  function StampCell(g: BoardGrid, p: CostPlanes, c: Location, value: int, f: StampFlags): (r: CostPlanes)
    requires PlanesFit(g, p)
    ensures PlanesFit(g, r)
  {
    if !ValidateLocation(g, c) then p
    else
      var base := if f.toBaseCost then p.base[c := p.base[c] + value] else p.base;
      var via := if f.toViaCost then p.via[c := p.via[c] + value] else p.via;
      var forbidden := if f.toViaForbidden then p.viaForbidden + {c} else p.viaForbidden;
      CostPlanes(base, via, forbidden)
  }

  /** What the innermost loop body does to one in-bounds cell `d`: only the
      visited cell `c` changes, and only in the flagged planes; an
      out-of-bounds `c` changes nothing. */
  lemma {:induction false} StampCellAt(g: BoardGrid, p: CostPlanes, c: Location, value: int, f: StampFlags, d: Location)
    requires PlanesFit(g, p) && ValidateLocation(g, d)
    ensures var r := StampCell(g, p, c, value, f);
            && r.base[d] == p.base[d] + (if f.toBaseCost && d == c then value else 0)
            && r.via[d] == p.via[d] + (if f.toViaCost && d == c then value else 0)
            && (d in r.viaForbidden <==> d in p.viaForbidden || (f.toViaForbidden && d == c))
  {
  }

  /** The y loop at fixed x and layer: cells (x, y .. ury-1, layer). */
  function StampColumn(g: BoardGrid, p: CostPlanes, layer: int, x: int, y: int, ury: int,
                       value: int, f: StampFlags): (r: CostPlanes)
    requires PlanesFit(g, p)
    ensures PlanesFit(g, r)
    decreases ury - y
  {
    if y >= ury then p
    else StampColumn(g, StampCell(g, p, Location(x, y, layer), value, f), layer, x, y + 1, ury, value, f)
  }

  predicate InColumn(layer: int, x: int, y: int, ury: int, d: Location)
  {
    d.x == x && d.z == layer && y <= d.y < ury
  }

  /** What the y loop does to one cell. */
  lemma {:induction false} StampColumnAt(g: BoardGrid, p: CostPlanes, layer: int, x: int, y: int, ury: int,
                                         value: int, f: StampFlags, d: Location)
    requires PlanesFit(g, p) && ValidateLocation(g, d)
    ensures var r := StampColumn(g, p, layer, x, y, ury, value, f);
            && r.base[d] == p.base[d] + (if f.toBaseCost && InColumn(layer, x, y, ury, d) then value else 0)
            && r.via[d] == p.via[d] + (if f.toViaCost && InColumn(layer, x, y, ury, d) then value else 0)
            && (d in r.viaForbidden <==> d in p.viaForbidden || (f.toViaForbidden && InColumn(layer, x, y, ury, d)))
    decreases ury - y
  {
    // The loop body is used only through StampCellAt; hiding its definition
    // keeps the solver from unfolding every nested stamp.
    hide StampCell;
    if y < ury {
      var c := Location(x, y, layer);
      var next := StampCell(g, p, c, value, f);
      StampCellAt(g, p, c, value, f, d);
      StampColumnAt(g, next, layer, x, y + 1, ury, value, f, d);
      assert InColumn(layer, x, y, ury, d) <==> d == c || InColumn(layer, x, y + 1, ury, d);
    }
  }

  /** The x loop at a fixed layer: columns x .. urx-1 of the rectangle. */
  function StampRows(g: BoardGrid, p: CostPlanes, layer: int, x: int, rect: Rect,
                     value: int, f: StampFlags): (r: CostPlanes)
    requires PlanesFit(g, p)
    ensures PlanesFit(g, r)
    decreases rect.urx - x
  {
    if x >= rect.urx then p
    else
      var column := StampColumn(g, p, layer, x, rect.lly, rect.ury, value, f);
      StampRows(g, column, layer, x + 1, rect, value, f)
  }

  predicate InRows(layer: int, x: int, rect: Rect, d: Location)
  {
    d.z == layer && x <= d.x < rect.urx && rect.lly <= d.y < rect.ury
  }

  /** What the x loop does to one cell. */
  lemma {:induction false} StampRowsAt(g: BoardGrid, p: CostPlanes, layer: int, x: int, rect: Rect,
                                       value: int, f: StampFlags, d: Location)
    requires PlanesFit(g, p) && ValidateLocation(g, d)
    ensures var r := StampRows(g, p, layer, x, rect, value, f);
            && r.base[d] == p.base[d] + (if f.toBaseCost && InRows(layer, x, rect, d) then value else 0)
            && r.via[d] == p.via[d] + (if f.toViaCost && InRows(layer, x, rect, d) then value else 0)
            && (d in r.viaForbidden <==> d in p.viaForbidden || (f.toViaForbidden && InRows(layer, x, rect, d)))
    decreases rect.urx - x
  {
    hide StampColumn;
    if x < rect.urx {
      var column := StampColumn(g, p, layer, x, rect.lly, rect.ury, value, f);
      StampColumnAt(g, p, layer, x, rect.lly, rect.ury, value, f, d);
      StampRowsAt(g, column, layer, x + 1, rect, value, f, d);
    }
  }

  /** The layer loop: the whole rectangle on every listed layer (a layer
      listed twice is stamped twice). */
  function StampLayers(g: BoardGrid, p: CostPlanes, layers: seq<int>, rect: Rect,
                       value: int, f: StampFlags): (r: CostPlanes)
    requires PlanesFit(g, p)
    ensures PlanesFit(g, r)
    decreases |layers|
  {
    if layers == [] then p
    else
      var first := StampRows(g, p, layers[0], rect.llx, rect, value, f);
      StampLayers(g, first, layers[1..], rect, value, f)
  }

  /** What the layer loop does to one cell. */
  lemma {:induction false} StampLayersAt(g: BoardGrid, p: CostPlanes, layers: seq<int>, rect: Rect,
                                         value: int, f: StampFlags, d: Location)
    requires PlanesFit(g, p) && ValidateLocation(g, d)
    ensures var r := StampLayers(g, p, layers, rect, value, f);
            && r.base[d] == p.base[d] + (if f.toBaseCost && InRect(rect, d) then Delta(layers, d.z, value) else 0)
            && r.via[d] == p.via[d] + (if f.toViaCost && InRect(rect, d) then Delta(layers, d.z, value) else 0)
            && (d in r.viaForbidden <==> d in p.viaForbidden || (f.toViaForbidden && InRect(rect, d) && d.z in layers))
    decreases |layers|
  {
    hide StampRows;
    if layers != [] {
      var first := StampRows(g, p, layers[0], rect.llx, rect, value, f);
      StampRowsAt(g, p, layers[0], rect.llx, rect, value, f, d);
      StampLayersAt(g, first, layers[1..], rect, value, f, d);
      assert d.z in layers <==> d.z == layers[0] || d.z in layers[1..] by {
        assert layers == [layers[0]] + layers[1..];
      }
    }
  }

  /** `addPinAvoidingCostToGrid(pad, inst, value, toViaCost, toViaForbidden,
      toBaseCost)`: stamps `value` on the pad's footprint on each of its grid
      layers. What it does to each cell is `AddPinAvoidingCostAt`. */
  function AddPinAvoidingCost(g: BoardGrid, p: CostPlanes, table: LayerTable, pad: Pad,
                              value: int, f: StampFlags): (r: CostPlanes)
    requires PlanesFit(g, p)
    ensures PlanesFit(g, r)
  {
    StampLayers(g, p, PadLayers(table, pad), pad.footprint, value, f)
  }

  /** What stamping one pad does to one in-bounds cell: base and via cost
      (each if flagged) change by exactly `value` per pad layer on the
      footprint, and by nothing elsewhere (`PadDeltaOffFootprint`); the cell
      becomes via-forbidden exactly when flagged and on the footprint. */
  lemma {:induction false} AddPinAvoidingCostAt(g: BoardGrid, p: CostPlanes, table: LayerTable, pad: Pad,
                                                value: int, f: StampFlags, d: Location)
    requires PlanesFit(g, p) && ValidateLocation(g, d)
    ensures var r := AddPinAvoidingCost(g, p, table, pad, value, f);
            && r.base[d] == p.base[d] + (if f.toBaseCost then PadDelta(table, pad, d, value) else 0)
            && r.via[d] == p.via[d] + (if f.toViaCost then PadDelta(table, pad, d, value) else 0)
            && (d in r.viaForbidden <==> d in p.viaForbidden || (f.toViaForbidden && InFootprint(table, pad, d)))
  {
    StampLayersAt(g, p, PadLayers(table, pad), pad.footprint, value, f, d);
  }

  /** The cells a pad covers: its footprint on its layers. */
  predicate InFootprint(table: LayerTable, pad: Pad, c: Location)
  {
    InRect(pad.footprint, c) && c.z in PadLayers(table, pad)
  }

  /** What stamping one pad with `value` adds at a cell (before the flags). */
  function PadDelta(table: LayerTable, pad: Pad, c: Location, value: int): int
  {
    if InRect(pad.footprint, c) then Delta(PadLayers(table, pad), c.z, value) else 0
  }

  lemma {:induction false} PadDeltaNegates(table: LayerTable, pad: Pad, c: Location, value: int)
    ensures PadDelta(table, pad, c, -value) == -PadDelta(table, pad, c, value)
  {
    DeltaNegates(PadLayers(table, pad), c.z, value);
  }

  /** Cells off the pad's footprint never change cost. */
  lemma {:induction false} PadDeltaOffFootprint(table: LayerTable, pad: Pad, c: Location, value: int)
    requires !InFootprint(table, pad, c)
    ensures PadDelta(table, pad, c, value) == 0
  {
    if InRect(pad.footprint, c) {
      DeltaOutsideLayers(PadLayers(table, pad), c.z, value);
    }
  }

  /** Removing a pad's cost and adding it back with the same flags restores
      base and via cost exactly; the via-forbidden marks can only have grown. */
  lemma {:induction false} StampRoundTrip(g: BoardGrid, p: CostPlanes, table: LayerTable, pad: Pad, value: int, f: StampFlags)
    requires PlanesFit(g, p)
    ensures var q := AddPinAvoidingCost(g, AddPinAvoidingCost(g, p, table, pad, -value, f), table, pad, value, f);
            q.base == p.base && q.via == p.via && p.viaForbidden <= q.viaForbidden
  {
    hide AddPinAvoidingCost;
    var mid := AddPinAvoidingCost(g, p, table, pad, -value, f);
    var q := AddPinAvoidingCost(g, mid, table, pad, value, f);
    forall d | ValidateLocation(g, d)
      ensures q.base[d] == p.base[d] && q.via[d] == p.via[d]
      ensures d in p.viaForbidden ==> d in q.viaForbidden
    {
      var delta := PadDelta(table, pad, d, value);
      AddPinAvoidingCostAt(g, p, table, pad, -value, f, d);
      PadDeltaNegates(table, pad, d, value);
      assert mid.base[d] == p.base[d] - (if f.toBaseCost then delta else 0);
      assert mid.via[d] == p.via[d] - (if f.toViaCost then delta else 0);
      AddPinAvoidingCostAt(g, mid, table, pad, value, f, d);
    }
    assert q.base.Keys == p.base.Keys;
    assert q.via.Keys == p.via.Keys;
  }

  /** Stamping is additive, not idempotent: stamping the same pad twice adds
      twice its stamp to each flagged cost. */
  lemma {:induction false} StampTwiceDoubles(g: BoardGrid, p: CostPlanes, table: LayerTable, pad: Pad, value: int, f: StampFlags)
    requires PlanesFit(g, p)
    ensures var q := AddPinAvoidingCost(g, AddPinAvoidingCost(g, p, table, pad, value, f), table, pad, value, f);
            && (forall d :: d in q.base ==>
                  q.base[d] == p.base[d] + (if f.toBaseCost then 2 * PadDelta(table, pad, d, value) else 0))
            && (forall d :: d in q.via ==>
                  q.via[d] == p.via[d] + (if f.toViaCost then 2 * PadDelta(table, pad, d, value) else 0))
  {
    hide AddPinAvoidingCost;
    var mid := AddPinAvoidingCost(g, p, table, pad, value, f);
    var q := AddPinAvoidingCost(g, mid, table, pad, value, f);
    forall d | ValidateLocation(g, d)
      ensures q.base[d] == p.base[d] + (if f.toBaseCost then 2 * PadDelta(table, pad, d, value) else 0)
      ensures q.via[d] == p.via[d] + (if f.toViaCost then 2 * PadDelta(table, pad, d, value) else 0)
    {
      AddPinAvoidingCostAt(g, p, table, pad, value, f, d);
      AddPinAvoidingCostAt(g, mid, table, pad, value, f, d);
    }
  }
}
