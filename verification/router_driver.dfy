/** The cost bookkeeping of the routing drivers
    (`testRouterWithPinAndKeepoutAvoidance` and
    `testRouterWithAvoidanceAndVariousPadType`, src/GridBasedRouter.cpp):
    every instance pad is first stamped into the planes as an obstacle; then,
    per net, the net's own pin costs are removed, the net is routed, and the
    pin costs are put back. The search itself is not modelled: its effect on
    the planes is the additive base-cost and via-cost footprint of the
    committed route, given as a parameter. */
module RouterDriver {
  import opened Grid
  import opened PinCost

  /** The flags the per-net removal and restoration use: via and base cost,
      no via-forbidden marks. */
  const PinFlags: StampFlags := StampFlags(toViaCost := true, toViaForbidden := false, toBaseCost := true)

  /** The seeding flags of the two drivers. */
  const KeepoutSeedFlags: StampFlags := StampFlags(toViaCost := true, toViaForbidden := false, toBaseCost := true)
  const PadTypeSeedFlags: StampFlags := StampFlags(toViaCost := true, toViaForbidden := true, toBaseCost := true)

  /** A placed instance: whether its component id is valid, and its pads. */
  datatype Instance = Instance(componentValid: bool, pads: seq<Pad>)

  /** A net as the database gives it: id, netclass id, and its pins' pads. */
  datatype Net = Net(id: int, netclassId: int, pins: seq<Pad>)

  /** Stamps several pads one after the other. */
  function StampPads(g: BoardGrid, p: CostPlanes, table: LayerTable, pads: seq<Pad>,
                     value: int, f: StampFlags): (r: CostPlanes)
    requires PlanesFit(g, p)
    ensures PlanesFit(g, r)
    decreases |pads|
  {
    if pads == [] then p
    else StampPads(g, AddPinAvoidingCost(g, p, table, pads[0], value, f), table, pads[1..], value, f)
  }

  /** The sum of the pads' stamps at one cell. */
  function PadsDelta(table: LayerTable, pads: seq<Pad>, d: Location, value: int): int
  {
    if pads == [] then 0 else PadDelta(table, pads[0], d, value) + PadsDelta(table, pads[1..], d, value)
  }

  predicate InAnyFootprint(table: LayerTable, pads: seq<Pad>, d: Location)
  {
    exists i :: 0 <= i < |pads| && InFootprint(table, pads[i], d)
  }

  /** What stamping several pads does to one cell. */
  lemma {:induction false} StampPadsAt(g: BoardGrid, p: CostPlanes, table: LayerTable, pads: seq<Pad>,
                                       value: int, f: StampFlags, d: Location)
    requires PlanesFit(g, p) && ValidateLocation(g, d)
    ensures var r := StampPads(g, p, table, pads, value, f);
            && r.base[d] == p.base[d] + (if f.toBaseCost then PadsDelta(table, pads, d, value) else 0)
            && r.via[d] == p.via[d] + (if f.toViaCost then PadsDelta(table, pads, d, value) else 0)
            && (d in r.viaForbidden <==> d in p.viaForbidden || (f.toViaForbidden && InAnyFootprint(table, pads, d)))
    decreases |pads|
  {
    // One pad's stamp is used only through AddPinAvoidingCostAt; here and in
    // the lemmas below its definition is hidden so that the nested stamp
    // loops are not unfolded.
    hide AddPinAvoidingCost;
    if pads != [] {
      var first := AddPinAvoidingCost(g, p, table, pads[0], value, f);
      AddPinAvoidingCostAt(g, p, table, pads[0], value, f, d);
      StampPadsAt(g, first, table, pads[1..], value, f, d);
      InAnyFootprintSplit(table, pads, d);
    }
  }

  lemma {:induction false} InAnyFootprintSplit(table: LayerTable, pads: seq<Pad>, d: Location)
    requires pads != []
    ensures InAnyFootprint(table, pads, d) <==>
            InFootprint(table, pads[0], d) || InAnyFootprint(table, pads[1..], d)
  {
    if InAnyFootprint(table, pads, d) && !InFootprint(table, pads[0], d) {
      var i :| 0 <= i < |pads| && InFootprint(table, pads[i], d);
      assert pads[1..][i - 1] == pads[i];
    }
    if InAnyFootprint(table, pads[1..], d) {
      var i :| 0 <= i < |pads[1..]| && InFootprint(table, pads[1..][i], d);
      assert pads[i + 1] == pads[1..][i];
    }
  }

  lemma {:induction false} PadsDeltaNegates(table: LayerTable, pads: seq<Pad>, d: Location, value: int)
    ensures PadsDelta(table, pads, d, -value) == -PadsDelta(table, pads, d, value)
  {
    if pads != [] {
      PadDeltaNegates(table, pads[0], d, value);
      PadsDeltaNegates(table, pads[1..], d, value);
    }
  }

  /** Every pad of an instance whose component id is valid, in order. */
  function ObstaclePads(instances: seq<Instance>): seq<Pad>
  {
    if instances == [] then []
    else (if instances[0].componentValid then instances[0].pads else []) + ObstaclePads(instances[1..])
  }

  /** The seeding loop: instances with an invalid component id are skipped,
      every pad of the others is stamped with `pinCost`. */
  function SeedObstacles(g: BoardGrid, p: CostPlanes, table: LayerTable, instances: seq<Instance>,
                         pinCost: int, f: StampFlags): (r: CostPlanes)
    requires PlanesFit(g, p)
    ensures PlanesFit(g, r)
    decreases |instances|
  {
    if instances == [] then p
    else
      var q := if instances[0].componentValid
               then StampPads(g, p, table, instances[0].pads, pinCost, f) else p;
      SeedObstacles(g, q, table, instances[1..], pinCost, f)
  }

  lemma {:induction false} StampPadsAppend(g: BoardGrid, p: CostPlanes, table: LayerTable,
                                           a: seq<Pad>, b: seq<Pad>, value: int, f: StampFlags)
    requires PlanesFit(g, p)
    ensures StampPads(g, p, table, a + b, value, f)
            == StampPads(g, StampPads(g, p, table, a, value, f), table, b, value, f)
    decreases |a|
  {
    hide AddPinAvoidingCost;
    if a == [] {
      assert a + b == b;
    } else {
      assert (a + b)[1..] == a[1..] + b;
      StampPadsAppend(g, AddPinAvoidingCost(g, p, table, a[0], value, f), table, a[1..], b, value, f);
    }
  }

  /** Seeding stamps exactly the pads of the valid instances, in order. */
  lemma {:induction false} SeedStampsObstaclePads(g: BoardGrid, p: CostPlanes, table: LayerTable,
                                                  instances: seq<Instance>, pinCost: int, f: StampFlags)
    requires PlanesFit(g, p)
    ensures SeedObstacles(g, p, table, instances, pinCost, f)
            == StampPads(g, p, table, ObstaclePads(instances), pinCost, f)
    decreases |instances|
  {
    hide AddPinAvoidingCost;
    if instances != [] {
      var own := if instances[0].componentValid then instances[0].pads else [];
      StampPadsAppend(g, p, table, own, ObstaclePads(instances[1..]), pinCost, f);
      var q := StampPads(g, p, table, own, pinCost, f);
      SeedStampsObstaclePads(g, q, table, instances[1..], pinCost, f);
    }
  }

  /** Seeding at one cell: every valid instance's pad adds its stamp to the
      costs the flags select, and marks its footprint when the flags ask for
      via-forbidden marks. */
  lemma {:induction false} SeedObstaclesAt(g: BoardGrid, p: CostPlanes, table: LayerTable,
                                           instances: seq<Instance>, pinCost: int, f: StampFlags, d: Location)
    requires PlanesFit(g, p) && ValidateLocation(g, d)
    ensures var r := SeedObstacles(g, p, table, instances, pinCost, f);
            var delta := PadsDelta(table, ObstaclePads(instances), d, pinCost);
            && r.base[d] == p.base[d] + (if f.toBaseCost then delta else 0)
            && r.via[d] == p.via[d] + (if f.toViaCost then delta else 0)
            && (d in r.viaForbidden <==>
                  d in p.viaForbidden || (f.toViaForbidden && InAnyFootprint(table, ObstaclePads(instances), d)))
  {
    hide AddPinAvoidingCost;
    SeedStampsObstaclePads(g, p, table, instances, pinCost, f);
    StampPadsAt(g, p, table, ObstaclePads(instances), pinCost, f, d);
  }

  /** The pin-and-keepout driver's seeding adds the pads' cost to base and
      via cost alike and forbids no via. */
  lemma {:induction false} KeepoutSeedingForbidsNoVia(g: BoardGrid, p: CostPlanes, table: LayerTable,
                                                      instances: seq<Instance>, pinCost: int, d: Location)
    requires PlanesFit(g, p) && ValidateLocation(g, d)
    ensures var r := SeedObstacles(g, p, table, instances, pinCost, KeepoutSeedFlags);
            && r.base[d] - p.base[d] == r.via[d] - p.via[d] == PadsDelta(table, ObstaclePads(instances), d, pinCost)
            && (d in r.viaForbidden <==> d in p.viaForbidden)
  {
    hide AddPinAvoidingCost, SeedObstacles;
    SeedObstaclesAt(g, p, table, instances, pinCost, KeepoutSeedFlags, d);
  }

  /** The pad-type driver's seeding also forbids a via at exactly the cells
      some obstacle pad covers. */
  lemma {:induction false} PadTypeSeedingForbidsPadVias(g: BoardGrid, p: CostPlanes, table: LayerTable,
                                                        instances: seq<Instance>, pinCost: int, d: Location)
    requires PlanesFit(g, p) && ValidateLocation(g, d)
    ensures var r := SeedObstacles(g, p, table, instances, pinCost, PadTypeSeedFlags);
            && r.base[d] - p.base[d] == r.via[d] - p.via[d] == PadsDelta(table, ObstaclePads(instances), d, pinCost)
            && (d in r.viaForbidden <==> d in p.viaForbidden || InAnyFootprint(table, ObstaclePads(instances), d))
  {
    hide AddPinAvoidingCost, SeedObstacles;
    SeedObstaclesAt(g, p, table, instances, pinCost, PadTypeSeedFlags, d);
  }

  /** The cost a committed route leaves in the planes: a base-cost and a
      via-cost footprint, each zero off its keys. */
  datatype RouteFootprint = RouteFootprint(base: map<Location, int>, via: map<Location, int>)

  /** A pair of base and via cost at one cell. */
  datatype CellCost = CellCost(base: int, via: int)

  function CostAt(m: map<Location, int>, d: Location): int
  {
    if d in m then m[d] else 0
  }

  function FootprintAt(route: RouteFootprint, d: Location): CellCost
  {
    CellCost(CostAt(route.base, d), CostAt(route.via, d))
  }

  /** The committed route's footprint added to base and via cost. */
  function AddRouteCost(g: BoardGrid, p: CostPlanes, route: RouteFootprint): (r: CostPlanes)
    requires PlanesFit(g, p)
    ensures PlanesFit(g, r)
    ensures forall d {:trigger r.base[d]} :: d in r.base ==> r.base[d] == p.base[d] + FootprintAt(route, d).base
    ensures forall d {:trigger r.via[d]} :: d in r.via ==> r.via[d] == p.via[d] + FootprintAt(route, d).via
    ensures r.viaForbidden == p.viaForbidden
  {
    p.(base := map d | d in p.base :: p.base[d] + CostAt(route.base, d),
       via := map d | d in p.via :: p.via[d] + CostAt(route.via, d))
  }

  /** The result of one iteration of the net loop. */
  datatype NetStep = NetStep(planes: CostPlanes, routed: bool)

  /** One iteration of the net loop as written: a net of fewer than two pins
      is skipped; otherwise its pin costs are removed, and only then is the
      netclass id checked, so a net with an invalid netclass id `continue`s
      with its pin costs still removed. */
  function RouteNetAsWritten(g: BoardGrid, p: CostPlanes, table: LayerTable, netclassIds: set<int>,
                             net: Net, pinCost: int, route: RouteFootprint): (s: NetStep)
    requires PlanesFit(g, p)
    ensures PlanesFit(g, s.planes)
    ensures s.routed <==> |net.pins| >= 2 && net.netclassId in netclassIds
    ensures |net.pins| < 2 ==> s.planes == p
  {
    if |net.pins| < 2 then NetStep(p, false)
    else
      var removed := StampPads(g, p, table, net.pins, -pinCost, PinFlags);
      if net.netclassId !in netclassIds then NetStep(removed, false)
      else
        var routed := AddRouteCost(g, removed, route);
        NetStep(StampPads(g, routed, table, net.pins, pinCost, PinFlags), true)
  }

  /** As written, a net with an invalid netclass id leaves its pins' cost
      removed from the base and via cost of every later search. */
  lemma {:induction false} AsWrittenInvalidNetclassDropsPinCost(g: BoardGrid, p: CostPlanes, table: LayerTable,
                                             netclassIds: set<int>, net: Net, pinCost: int,
                                             route: RouteFootprint, d: Location)
    requires PlanesFit(g, p) && ValidateLocation(g, d)
    requires |net.pins| >= 2 && net.netclassId !in netclassIds
    ensures var r := RouteNetAsWritten(g, p, table, netclassIds, net, pinCost, route).planes;
            && r.base[d] == p.base[d] - PadsDelta(table, net.pins, d, pinCost)
            && r.via[d] == p.via[d] - PadsDelta(table, net.pins, d, pinCost)
  {
    hide AddPinAvoidingCost, AddRouteCost, StampPads;
    var removed := StampPads(g, p, table, net.pins, -pinCost, PinFlags);
    assert RouteNetAsWritten(g, p, table, netclassIds, net, pinCost, route).planes == removed;
    StampPinsAt(g, p, table, net.pins, -pinCost, d);
    PadsDeltaNegates(table, net.pins, d, pinCost);
  }

  /** A concrete case: a 1x1 single-layer grid, a two-pin net whose through-hole
      pads both cover the one cell, pin cost 10, and no valid netclass. The
      cell's base cost drops from 0 to -20 and stays there. */
  lemma AsWrittenCounterexample()
    ensures var g := NewBoardGrid(1, 1, 1);
            var c := Location(0, 0, 0);
            var p := CostPlanes(map[c := 0], map[c := 0], {});
            var table := LayerTable(map[], ["F.Cu"]);
            var pad := Pad(NonSmd, 0, Rect(0, 0, 1, 1));
            var net := Net(1, 5, [pad, pad]);
            PlanesFit(g, p)
            && RouteNetAsWritten(g, p, table, {}, net, 10, RouteFootprint(map[], map[])).planes.base[c] == -20
  {
    var g := NewBoardGrid(1, 1, 1);
    var c := Location(0, 0, 0);
    var p := CostPlanes(map[c := 0], map[c := 0], {});
    var table := LayerTable(map[], ["F.Cu"]);
    var pad := Pad(NonSmd, 0, Rect(0, 0, 1, 1));
    var net := Net(1, 5, [pad, pad]);
    assert ValidCells(g) == {c} by {
      forall e | e in ValidCells(g) ensures e == c { }
    }
    assert PlanesFit(g, p);
    assert PadLayers(table, pad) == [0];
    assert PadDelta(table, pad, c, 10) == 10;
    assert PadsDelta(table, net.pins, c, 10) == 20 by {
      assert net.pins[1..] == [pad];
      assert [pad][1..] == [];
      assert PadsDelta(table, [pad], c, 10) == 10;
    }
    AsWrittenInvalidNetclassDropsPinCost(g, p, table, {}, net, 10, RouteFootprint(map[], map[]), c);
  }

  /** One iteration of the net loop with the netclass id checked before any
      cost changes: an invalid net leaves the planes as they were. */
  function RouteNet(g: BoardGrid, p: CostPlanes, table: LayerTable, netclassIds: set<int>,
                    net: Net, pinCost: int, route: RouteFootprint): (s: NetStep)
    requires PlanesFit(g, p)
    ensures PlanesFit(g, s.planes)
    ensures s.routed <==> |net.pins| >= 2 && net.netclassId in netclassIds
    ensures !s.routed ==> s.planes == p
  {
    if |net.pins| < 2 || net.netclassId !in netclassIds then NetStep(p, false)
    else
      var removed := StampPads(g, p, table, net.pins, -pinCost, PinFlags);
      var routed := AddRouteCost(g, removed, route);
      NetStep(StampPads(g, routed, table, net.pins, pinCost, PinFlags), true)
  }

  /** On every net the as-written loop reaches the netclass check with a valid
      id, or never reaches it, the two iterations agree. */
  lemma {:induction false} RouteNetAsWrittenAgrees(g: BoardGrid, p: CostPlanes, table: LayerTable,
                                                   netclassIds: set<int>, net: Net, pinCost: int,
                                                   route: RouteFootprint)
    requires PlanesFit(g, p)
    requires |net.pins| < 2 || net.netclassId in netclassIds
    ensures RouteNetAsWritten(g, p, table, netclassIds, net, pinCost, route)
            == RouteNet(g, p, table, netclassIds, net, pinCost, route)
  {
    hide AddPinAvoidingCost;
  }

  /** The cell's cost a net adds when it is routed. */
  function NetCostAt(netclassIds: set<int>, net: Net, route: RouteFootprint, d: Location): CellCost
  {
    if Routable(netclassIds, net) then FootprintAt(route, d) else CellCost(0, 0)
  }

  /** What one net does to one cell. */
  lemma {:induction false} RouteNetAt(g: BoardGrid, p: CostPlanes, table: LayerTable, netclassIds: set<int>,
                   net: Net, pinCost: int, route: RouteFootprint, d: Location)
    requires PlanesFit(g, p) && ValidateLocation(g, d)
    ensures var s := RouteNet(g, p, table, netclassIds, net, pinCost, route);
            && s.planes.base[d] == p.base[d] + NetCostAt(netclassIds, net, route, d).base
            && s.planes.via[d] == p.via[d] + NetCostAt(netclassIds, net, route, d).via
            && (d in s.planes.viaForbidden <==> d in p.viaForbidden)
  {
    hide AddPinAvoidingCost, StampPads;
    if Routable(netclassIds, net) {
      RemoveRouteRestoreAt(g, p, table, net.pins, pinCost, route, d);
    }
  }

  /** Stamping a net's pins with the per-net flags, at one cell: base and via
      cost both move by the pins' stamps, the via-forbidden marks stay. */
  lemma {:induction false} StampPinsAt(g: BoardGrid, p: CostPlanes, table: LayerTable, pins: seq<Pad>,
                                       value: int, d: Location)
    requires PlanesFit(g, p) && ValidateLocation(g, d)
    ensures var r := StampPads(g, p, table, pins, value, PinFlags);
            && r.base[d] == p.base[d] + PadsDelta(table, pins, d, value)
            && r.via[d] == p.via[d] + PadsDelta(table, pins, d, value)
            && (d in r.viaForbidden <==> d in p.viaForbidden)
  {
    hide AddPinAvoidingCost;
    StampPadsAt(g, p, table, pins, value, PinFlags, d);
  }

  /** The routed branch of one net at one cell: the pins' costs are removed,
      the route's footprint is added, and the pins' costs are put back. */
  lemma {:induction false} RemoveRouteRestoreAt(g: BoardGrid, p: CostPlanes, table: LayerTable, pins: seq<Pad>,
                             pinCost: int, route: RouteFootprint, d: Location)
    requires PlanesFit(g, p) && ValidateLocation(g, d)
    ensures var removed := StampPads(g, p, table, pins, -pinCost, PinFlags);
            var restored := StampPads(g, AddRouteCost(g, removed, route), table, pins, pinCost, PinFlags);
            && restored.base[d] == p.base[d] + FootprintAt(route, d).base
            && restored.via[d] == p.via[d] + FootprintAt(route, d).via
            && (d in restored.viaForbidden <==> d in p.viaForbidden)
  {
    hide AddPinAvoidingCost, StampPads;
    var removed := StampPads(g, p, table, pins, -pinCost, PinFlags);
    var routed := AddRouteCost(g, removed, route);
    var delta := PadsDelta(table, pins, d, pinCost);
    StampPinsAt(g, p, table, pins, -pinCost, d);
    PadsDeltaNegates(table, pins, d, pinCost);
    assert removed.base[d] == p.base[d] - delta && removed.via[d] == p.via[d] - delta;
    assert d in routed.base && d in routed.via;
    assert routed.base[d] == removed.base[d] + FootprintAt(route, d).base;
    assert routed.via[d] == removed.via[d] + FootprintAt(route, d).via;
    StampPinsAt(g, routed, table, pins, pinCost, d);
  }

  /** Removing and restoring a net's pin costs cancel exactly: after a net the
      base and via cost have gained exactly the committed route's footprints,
      and the via-forbidden marks are unchanged. */
  lemma {:induction false} RouteNetRestoresPinCosts(g: BoardGrid, p: CostPlanes, table: LayerTable, netclassIds: set<int>,
                                 net: Net, pinCost: int, route: RouteFootprint)
    requires PlanesFit(g, p)
    ensures var s := RouteNet(g, p, table, netclassIds, net, pinCost, route);
            && (forall d :: d in s.planes.base ==>
                  s.planes.base[d] == p.base[d] + if s.routed then FootprintAt(route, d).base else 0)
            && (forall d :: d in s.planes.via ==>
                  s.planes.via[d] == p.via[d] + if s.routed then FootprintAt(route, d).via else 0)
            && s.planes.viaForbidden == p.viaForbidden
  {
    hide AddPinAvoidingCost, StampPads;
    var s := RouteNet(g, p, table, netclassIds, net, pinCost, route);
    var r := s.planes;
    forall d | ValidateLocation(g, d)
      ensures r.base[d] == p.base[d] + if s.routed then FootprintAt(route, d).base else 0
      ensures r.via[d] == p.via[d] + if s.routed then FootprintAt(route, d).via else 0
      ensures d in r.viaForbidden <==> d in p.viaForbidden
    {
      RouteNetAt(g, p, table, netclassIds, net, pinCost, route, d);
    }
    assert r.viaForbidden == p.viaForbidden;
  }

  /** The whole net loop, in net order, with the netclass id checked first;
      `routes[i]` is the footprint the router commits for `nets[i]`. */
  function RouteNets(g: BoardGrid, p: CostPlanes, table: LayerTable, netclassIds: set<int>,
                     nets: seq<Net>, pinCost: int, routes: seq<RouteFootprint>): (r: CostPlanes)
    requires PlanesFit(g, p) && |routes| == |nets|
    ensures PlanesFit(g, r)
    decreases |nets|
  {
    if nets == [] then p
    else
      var s := RouteNet(g, p, table, netclassIds, nets[0], pinCost, routes[0]);
      RouteNets(g, s.planes, table, netclassIds, nets[1..], pinCost, routes[1..])
  }

  /** The whole net loop as written. */
  function RouteNetsAsWritten(g: BoardGrid, p: CostPlanes, table: LayerTable, netclassIds: set<int>,
                              nets: seq<Net>, pinCost: int, routes: seq<RouteFootprint>): (r: CostPlanes)
    requires PlanesFit(g, p) && |routes| == |nets|
    ensures PlanesFit(g, r)
    decreases |nets|
  {
    if nets == [] then p
    else
      var s := RouteNetAsWritten(g, p, table, netclassIds, nets[0], pinCost, routes[0]);
      RouteNetsAsWritten(g, s.planes, table, netclassIds, nets[1..], pinCost, routes[1..])
  }

  /** Every net of two or more pins names a netclass of the database. */
  predicate NetclassesValid(netclassIds: set<int>, nets: seq<Net>)
  {
    forall i :: 0 <= i < |nets| ==> |nets[i].pins| < 2 || nets[i].netclassId in netclassIds
  }

  /** When every net that reaches the netclass check passes it, the loop as
      written and the corrected loop end with the same planes. */
  lemma {:induction false} RouteNetsAsWrittenAgrees(g: BoardGrid, p: CostPlanes, table: LayerTable,
                                                    netclassIds: set<int>, nets: seq<Net>, pinCost: int,
                                                    routes: seq<RouteFootprint>)
    requires PlanesFit(g, p) && |routes| == |nets|
    requires NetclassesValid(netclassIds, nets)
    ensures RouteNetsAsWritten(g, p, table, netclassIds, nets, pinCost, routes)
            == RouteNets(g, p, table, netclassIds, nets, pinCost, routes)
    decreases |nets|
  {
    hide AddPinAvoidingCost, StampPads, RouteNetAsWritten, RouteNet;
    if nets != [] {
      assert NetclassesValid(netclassIds, nets[1..]) by {
        forall i | 0 <= i < |nets[1..]|
          ensures |nets[1..][i].pins| < 2 || nets[1..][i].netclassId in netclassIds
        {
          assert nets[1..][i] == nets[i + 1];
        }
      }
      assert |nets[0].pins| < 2 || nets[0].netclassId in netclassIds;
      RouteNetAsWrittenAgrees(g, p, table, netclassIds, nets[0], pinCost, routes[0]);
      var s := RouteNet(g, p, table, netclassIds, nets[0], pinCost, routes[0]);
      RouteNetsAsWrittenAgrees(g, s.planes, table, netclassIds, nets[1..], pinCost, routes[1..]);
    }
  }

  predicate Routable(netclassIds: set<int>, net: Net)
  {
    |net.pins| >= 2 && net.netclassId in netclassIds
  }

  /** The summed footprints, at one cell, of the nets that get routed. */
  function Committed(netclassIds: set<int>, nets: seq<Net>, routes: seq<RouteFootprint>, d: Location): CellCost
    requires |routes| == |nets|
  {
    if nets == [] then CellCost(0, 0)
    else
      var own := NetCostAt(netclassIds, nets[0], routes[0], d);
      var rest := Committed(netclassIds, nets[1..], routes[1..], d);
      CellCost(own.base + rest.base, own.via + rest.via)
  }

  /** Over the whole session the pin-cost juggling leaves no trace: base and
      via cost end as the seeded ones plus the routed nets' footprints, and
      the via-forbidden marks end as seeded. */
  lemma {:induction false} RouteNetsKeepsSeeding(g: BoardGrid, p: CostPlanes, table: LayerTable,
                                                 netclassIds: set<int>, nets: seq<Net>, pinCost: int,
                                                 routes: seq<RouteFootprint>, d: Location)
    requires PlanesFit(g, p) && |routes| == |nets| && ValidateLocation(g, d)
    ensures var r := RouteNets(g, p, table, netclassIds, nets, pinCost, routes);
            && r.base[d] == p.base[d] + Committed(netclassIds, nets, routes, d).base
            && r.via[d] == p.via[d] + Committed(netclassIds, nets, routes, d).via
            && r.viaForbidden == p.viaForbidden
    decreases |nets|
  {
    hide AddPinAvoidingCost;
    if nets != [] {
      var s := RouteNet(g, p, table, netclassIds, nets[0], pinCost, routes[0]);
      RouteNetRestoresPinCosts(g, p, table, netclassIds, nets[0], pinCost, routes[0]);
      RouteNetAt(g, p, table, netclassIds, nets[0], pinCost, routes[0], d);
      RouteNetsKeepsSeeding(g, s.planes, table, netclassIds, nets[1..], pinCost, routes[1..], d);
    }
  }
}
