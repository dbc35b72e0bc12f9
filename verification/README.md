# PcbRouter grid core in Dafny

A model of the small, sequential pieces around the routing grid of the
PcbRouter grid-based PCB router:

- **Grid value types** (`Grid`): the `Location` triple, its hash
  `((53+x)*53+y)*53+z`, the `Route` and `MultipinRoute` records and their
  constructors, and the `BoardGrid(w, h, l)` dimensions, with `size = w*h*l`
  proved to be the number of cells `validate_location` accepts.
- **The search priority queue** (`LocationQueue`): a min-priority queue whose
  comparator looks only at the priority, so equal priorities come out in no
  promised order.
- **The feature walk of `writeNets`** (`NetWriter`): a net's feature sequence
  is read pairwise. Each adjacent pair gives a via when the layer changes and
  a segment when the planar position changes. The walk keeps a per-net and a
  total via count, and skips nets with an invalid net id, an invalid netclass
  id or no features.
- **Output assembly** (`KicadOutput`): the input board file's last `)` is cut,
  the nets are written, and one `)` line closes the file again.
- **Pin-footprint stamping** (`PinCost`): `getGridLayers` picks a pad's grid
  layers. `addPinAvoidingCostToGrid` adds a value to base and via cost over a
  pad's half-open footprint rectangle on those layers, and can mark the cells
  via-forbidden.
- **Driver bookkeeping** (`RouterDriver`): every pad of each instance with a
  valid component id is seeded as an obstacle; instances with an invalid
  component id are skipped. Then, per net, the net's own pin costs are removed, the net is
  routed, and the pin costs are put back.

Costs and priorities are integers (floats in the source), so cost additions
are exact and "remove then restore" is an exact round trip. `validate_location`
is declared in src/BoardGrid.h:189 but its body is not part of this model. It
is taken to mean `0 <= x < w && 0 <= y < h && 0 <= z < l`. The bodies of
`base_cost_add`, `via_cost_add` and `setViaForbidden` are not part of this
model either. They are taken to add at one cell and mark one cell.

src/GridBasedRouter.cpp uses a newer version of `Location` (fields `m_x`,
`m_y`, `m_z`) and of `MultipinRoute` (`addPin`, `MultipinRoute{netId}`) than
the one in src/BoardGrid.h. The model follows the header for the types and
the .cpp for the behaviour.

Two behaviours worth knowing:
- The queue's comparator ignores the item, so the queue promises no order
  among equal priorities (`LocationQueue.TiesHaveNoOrder`).
- A net with an invalid netclass id leaves its pin costs removed from the
  planes (see Findings).

## Model

| member | source | states |
|---|---|---|
| `Grid.DefaultLocation` | src/BoardGrid.h:70-75 | The default location is (0, 0, 0). |
| `Grid.Hash` | src/BoardGrid.h:86-89 | The hash is a `size_t` (below 2^64) fixed by the location alone, congruent to `((53+x)*53+y)*53+z`, so equal locations hash equally. |
| `Grid.HashValueDecodes` | src/BoardGrid.h:86-89 | With 0 <= y, z < 53, z, y and x can be read back from the hash value by division and remainder by 53. |
| `Grid.HashValueInjective` | src/BoardGrid.h:86-89 | With 0 <= y, z < 53, two locations have the same hash value iff they are equal. |
| `Grid.HashCollidesAcrossLayers` | src/BoardGrid.h:86-89 | Outside those bounds the hash collides: (0,0,53) and (0,1,0) differ but hash equally. |
| `Grid.NewRoute` | src/BoardGrid.h:118-123 | `Route(start, end)` stores both ends, sets net id 0, and starts with no came-from entries and no features. |
| `Grid.NewRouteOfNet` | src/BoardGrid.h:124-129 | `Route(start, end, netId)` stores both ends and the net id, and starts with no came-from entries and no features. |
| `Grid.NewMultipinRoute` | src/BoardGrid.h:142-146 | `MultipinRoute(pins)` stores the pins, sets net id 0, and starts with empty came-from maps and features. |
| `Grid.NewMultipinRouteOfNet` | src/BoardGrid.h:147-151 | `MultipinRoute(pins, netId)` stores the pins and net id, and starts with empty came-from maps and features. |
| `Grid.NewBoardGrid` | src/BoardGrid.h:209-214 | The grid records w, h, l and `size == w*h*l`. For non-negative dimensions, its `size` (w*h*l) equals the number of locations `validate_location` accepts. |
| `Grid.ValidateLocation` | src/BoardGrid.h:189 | `validate_location`, taken to be the bounds check 0 <= x < w, 0 <= y < h, 0 <= z < l; `Grid.ValidCells` states the set it accepts. |
| `Grid.ValidCells` | src/BoardGrid.h:189 | The set of grid cells holds exactly the locations `validate_location` accepts. |
| `Grid.CellCount` | src/BoardGrid.h:214 | A w x h x l grid has exactly w*h*l cells. |
| `LocationQueue.EmptyQueue` | src/BoardGrid.h:21-31 | A default-constructed queue has size 0 and is empty. |
| `LocationQueue.Empty` | src/BoardGrid.h:28-41 | `empty()` holds iff `size()` is 0. |
| `LocationQueue.Push` | src/BoardGrid.h:33-36 | `push` raises the size by one, and the queued bag gains exactly the (priority, item) pair. |
| `LocationQueue.Top` | src/BoardGrid.h:96-103 | The top pair is queued, and no queued pair precedes it under the priority-only comparator. |
| `LocationQueue.Front` | src/BoardGrid.h:43-48 | `front()` returns the item of a queued pair whose priority is at most every queued priority. |
| `LocationQueue.Pop` | src/BoardGrid.h:50-53 | `pop()` lowers the size by one and removes exactly the pair `front()` reads. |
| `LocationQueue.PopIsMonotone` | src/BoardGrid.h:24-53 | After a pop, the new top's priority is at least the popped one's. |
| `LocationQueue.TiesHaveNoOrder` | src/BoardGrid.h:96-103 | Of two pairs pushed with equal priority, either may be the top: no first-in-first-out promise. |
| `LocationQueue.DrainStep` | src/BoardGrid.h:43-53 | Popping the top keeps the popped pairs in non-decreasing priority, none above any pair still queued. |
| `LocationQueue.Drain` | src/BoardGrid.h:21-54 | Popping until empty yields every queued pair exactly once, in non-decreasing priority. |
| `NetWriter.StepEvents` | src/GridBasedRouter.cpp:106-140 | For a step prev -> cur, a via at prev is emitted iff the step is adjacent and changes layer. A segment prev -> cur on cur's layer is emitted iff it is adjacent and moves in the plane. The records are exactly these, at most one of each, the via first. A non-adjacent step emits nothing. |
| `NetWriter.WalkFrom` | src/GridBasedRouter.cpp:97-143 | The `last_location` walk over the remaining features emits at most two records per feature. |
| `NetWriter.FeatureEvents` | src/GridBasedRouter.cpp:97-143 | A net's records as the loop writes them: none for at most one feature, and at most two per step otherwise. `NetWriter.WalkIsPairwise` equates them with the pairwise records. |
| `NetWriter.WalkIsPairwise` | src/GridBasedRouter.cpp:97-143 | The walk with its moving `last_location` emits exactly the concatenated records of the consecutive pairs. A skipped step still moves `last_location` on. |
| `NetWriter.EveryStepIsEmitted` | src/GridBasedRouter.cpp:106-140 | Every layer-changing adjacent pair puts its via in the net's records, and every planar adjacent pair puts its segment there. |
| `NetWriter.EveryEventHasAStep` | src/GridBasedRouter.cpp:106-140 | Every record comes from a consecutive pair: a via from a layer-changing adjacent pair, a segment from a planar adjacent one. |
| `NetWriter.ShortFeaturesEmitNothing` | src/GridBasedRouter.cpp:97-102 | A feature sequence of length at most one emits nothing. |
| `NetWriter.ViaCountIsLayerChanges` | src/GridBasedRouter.cpp:100-113 | The number of vias a net emits equals its number of adjacent layer-changing consecutive pairs. |
| `NetWriter.WriteNetFeatures` | src/GridBasedRouter.cpp:97-143 | The per-net loop emits the pairwise records, and its via counter equals both the number of layer-changing adjacent pairs and the number of emitted vias. |
| `NetWriter.WriteNet` | src/GridBasedRouter.cpp:80-143 | A net is rejected for an invalid net id, else for an invalid netclass id, else for empty features, each iff its condition holds. Otherwise it yields the pairwise records and its via count. |
| `NetWriter.WriteNets` | src/GridBasedRouter.cpp:73-148 | The total via count equals the number of vias among all emitted records. |
| `NetWriter.WriteNetsSingle` | src/GridBasedRouter.cpp:73-148 | Writing one net alone yields exactly its pairwise records and its layer-change count when it is written, and nothing when it is skipped. |
| `NetWriter.WriteNetsAppend` | src/GridBasedRouter.cpp:73-148 | Writing the nets a then b yields a's records followed by b's, and the sum of their via totals: the loop carries nothing from one net to the next but the totals. |
| `NetWriter.SkippedNetAddsNothing` | src/GridBasedRouter.cpp:80-94 | A skipped net, wherever it stands, adds no record and no via to the totals. |
| `KicadOutput.LastIndexOf` | src/GridBasedRouter.cpp:42-43 | `find_last_of` gives none iff the character is absent. Otherwise it gives an index holding it with no later occurrence. |
| `KicadOutput.LastParenLine` | src/GridBasedRouter.cpp:41-47 | The scan finds none iff no line has `)`. Otherwise it finds a line with `)` after which no line has one. |
| `KicadOutput.TrimLastParen` | src/GridBasedRouter.cpp:40-48 | The trim changes at most the highest line containing `)`, which becomes its prefix before its last `)`. All other lines are kept, and input with no `)` is unchanged. |
| `KicadOutput.CutRemovesOneParen` | src/GridBasedRouter.cpp:42-45 | Cutting a line before its last `)` removes exactly one `)`. |
| `KicadOutput.TrimRemovesOneParen` | src/GridBasedRouter.cpp:41-48 | If the file has a `)`, the trim removes exactly one `)` from the file. |
| `KicadOutput.OutputDocument` | src/GridBasedRouter.cpp:22-61 | Output fails iff the line vector is empty (line 22); the reading loop at lines 13-18 never leaves it empty. Otherwise it is the file's lines with the last `)` cut, then the net lines unchanged, then a final `)` line. |
| `KicadOutput.OutputKeepsParenCount` | src/GridBasedRouter.cpp:40-61 | When the input file has a `)`, the output has exactly as many `)` as the input file and the net lines together. |
| `PinCost.GridLayers` | src/GridBasedRouter.cpp:442-457 | Layers are appended and never cleared. An SMD pad appends its instance's mapped layer, or nothing if unmapped. Any other pad appends 0 .. n-1 in order. The result is always true. |
| `PinCost.AppendLayerIndices` | src/GridBasedRouter.cpp:449-454 | The counting loop keeps the given prefix and appends 0, 1, ... once per grid layer name. |
| `PinCost.StampCell` | src/GridBasedRouter.cpp:412-427 | The innermost loop body keeps the planes covering exactly the grid cells; what it does to each cell is `PinCost.StampCellAt`. |
| `PinCost.StampCellAt` | src/GridBasedRouter.cpp:412-427 | An out-of-bounds cell is skipped. An in-bounds cell gets `value` added to each flagged plane and is marked via-forbidden when flagged. No other cell changes. |
| `PinCost.StampColumn` | src/GridBasedRouter.cpp:411-428 | The y loop keeps the planes covering exactly the grid cells. |
| `PinCost.StampColumnAt` | src/GridBasedRouter.cpp:411-428 | The y loop changes a cell by `value` exactly when it is in its column. It marks exactly those cells when flagged. |
| `PinCost.StampRows` | src/GridBasedRouter.cpp:410-429 | The x loop keeps the planes covering exactly the grid cells. |
| `PinCost.StampRowsAt` | src/GridBasedRouter.cpp:410-429 | The x loop changes a cell by `value` exactly when it is in the remaining rectangle on its layer. It marks exactly those cells when flagged. |
| `PinCost.StampLayers` | src/GridBasedRouter.cpp:409-430 | The layer loop keeps the planes covering exactly the grid cells. |
| `PinCost.StampLayersAt` | src/GridBasedRouter.cpp:409-430 | The layer loop adds `value` once per occurrence of a cell's layer in the list, only inside the rectangle. It marks in-rectangle cells on listed layers when flagged. |
| `PinCost.AddPinAvoidingCost` | src/GridBasedRouter.cpp:381-431 | `addPinAvoidingCostToGrid` keeps the planes covering exactly the grid cells; its per-cell effect is `PinCost.AddPinAvoidingCostAt`. |
| `PinCost.AddPinAvoidingCostAt` | src/GridBasedRouter.cpp:381-431 | At every in-bounds cell, base cost (if flagged) and via cost (if flagged) change by exactly the pad's stamp: `value` once per pad layer equal to the cell's layer, inside the footprint rectangle. A cell becomes via-forbidden iff it already was, or the flag is set and the pad covers it. |
| `PinCost.PadDeltaOffFootprint` | src/GridBasedRouter.cpp:409-416 | A cell outside the pad's footprint rectangle or layers gets no cost. |
| `PinCost.StampRoundTrip` | src/GridBasedRouter.cpp:409-427 | Stamping -v and then v with the same flags restores base and via cost exactly. The via-forbidden marks only grow. |
| `PinCost.StampTwiceDoubles` | src/GridBasedRouter.cpp:418-423 | Stamping is additive, not idempotent: stamping twice adds twice the pad's stamp to base cost and to via cost, each when flagged. |
| `RouterDriver.StampPads` | src/GridBasedRouter.cpp:203-217 | Stamping a net's pads one by one keeps the planes covering exactly the grid cells. |
| `RouterDriver.StampPadsAt` | src/GridBasedRouter.cpp:203-217 | Each cell changes by the sum of the pads' stamps per flag. It is marked iff it already was or some pad covers it (when flagged). |
| `RouterDriver.SeedObstacles` | src/GridBasedRouter.cpp:179-191 | Seeding keeps the planes fitting the grid. |
| `RouterDriver.SeedStampsObstaclePads` | src/GridBasedRouter.cpp:179-191 | Seeding stamps exactly the pads of the instances with a valid component id, in order, and skips the others. |
| `RouterDriver.SeedObstaclesAt` | src/GridBasedRouter.cpp:178-191 | At each cell, seeding adds the obstacle pads' summed stamp to each flagged cost. It marks the cell iff it was marked or, when flagged, some obstacle pad covers it. |
| `RouterDriver.KeepoutSeedingForbidsNoVia` | src/GridBasedRouter.cpp:187-190 | The first driver's seeding raises base and via cost by the same obstacle stamp and marks no cell via-forbidden. |
| `RouterDriver.PadTypeSeedingForbidsPadVias` | src/GridBasedRouter.cpp:294-297 | The second driver's seeding raises base and via cost by the same obstacle stamp and marks exactly the cells some obstacle pad covers. |
| `RouterDriver.AddRouteCost` | src/GridBasedRouter.cpp:234 | Committing a route adds its base footprint to base cost and its via footprint to via cost at every cell. Via-forbidden marks are untouched. |
| `RouterDriver.RouteNetAsWritten` | src/GridBasedRouter.cpp:196-241 | As written, a net is routed iff it has two or more pins and a valid netclass id. A net of fewer than two pins changes nothing. |
| `RouterDriver.AsWrittenInvalidNetclassDropsPinCost` | src/GridBasedRouter.cpp:214-222 | As written, a net with two or more pins and an invalid netclass id leaves base and via cost lowered by its pins' stamps. |
| `RouterDriver.AsWrittenCounterexample` | src/GridBasedRouter.cpp:214-222 | Concrete case: two pads on a 1x1x1 grid, pin cost 10, invalid netclass. The cell's base cost ends at -20 instead of 0. |
| `RouterDriver.RouteNet` | src/GridBasedRouter.cpp:196-241 | A net is routed iff it has two or more pins and a valid netclass id. An unrouted net leaves the planes unchanged. |
| `RouterDriver.RouteNetAsWrittenAgrees` | src/GridBasedRouter.cpp:196-241 | On a net with fewer than two pins or a valid netclass id, the loop body as written and the corrected one give the same result. |
| `RouterDriver.RouteNetAt` | src/GridBasedRouter.cpp:214-240 | Per cell, a routed net adds exactly its route's base and via footprints to base and via cost. An unrouted net adds nothing. The via-forbidden mark is unchanged. |
| `RouterDriver.RouteNetRestoresPinCosts` | src/GridBasedRouter.cpp:214-240 | Removing and restoring the pin costs cancel exactly. Base and via cost gain exactly the committed route's footprints, and via-forbidden marks are unchanged. |
| `RouterDriver.RouteNets` | src/GridBasedRouter.cpp:194-241 | The net loop keeps the planes fitting the grid. |
| `RouterDriver.RouteNetsAsWritten` | src/GridBasedRouter.cpp:194-241 | The net loop as written keeps the planes fitting the grid. |
| `RouterDriver.RouteNetsAsWrittenAgrees` | src/GridBasedRouter.cpp:194-241 | When every net of two or more pins has a valid netclass id, the loop as written and the corrected loop end with the same planes. |
| `RouterDriver.RouteNetsKeepsSeeding` | src/GridBasedRouter.cpp:194-241 | After all nets, base and via cost are the seeded costs plus the routed nets' committed footprints. Via-forbidden marks are exactly as seeded. |

## Findings

| source | as written | input that shows it | evidently intended | confidence | as-written member | corrected member |
|---|---|---|---|---|---|---|
| src/GridBasedRouter.cpp:214-222 | Each pin's cost is removed (line 216; also 334 in the second driver) before the netclass id is checked. An invalid netclass id `continue`s past the loop that puts the costs back (237-240; 355-357). | A net with two pads covering one cell of a 1x1x1 grid, pin cost 10, and a netclass id not in the database: the cell's base cost goes from 0 to -20 and stays there. | The removal is temporary. A skipped net should leave the planes as they were, with the netclass checked before any cost change. | medium, not executed | `RouterDriver.AsWrittenCounterexample` | `RouterDriver.RouteNetRestoresPinCosts` |

The net loop `RouterDriver.RouteNets` uses the corrected `RouterDriver.RouteNet`.
`RouterDriver.RouteNetsAsWritten` is the loop as written, and
`RouterDriver.RouteNetsAsWrittenAgrees` shows the two agree whenever every net
of two or more pins has a valid netclass id.

## Left out

- The search engine and route commit/rip-up: `dijkstras_with_came_from`, `breadth_first_search*`, `neighbors`, `came_from_to_features`, `add_route`/`ripup_route`, `add/remove_route_from_base_cost`, `addRoute`, `addRouteWithGridPins` and `addPin`. Their bodies are not part of this model. Their effect on the planes is a parameter: the committed route's additive base-cost and via-cost footprints.
- `working_cost` and its operations: used only by the search.
- The line reading of `outputResults2KiCadFile` (src/GridBasedRouter.cpp:13-18): the `eof` loop pushes one line per `getline`, so an empty file gives one empty line and a file ending in a newline gives a trailing empty line. The line vector is an input.
- File and console I/O: reading and writing files, removing the output on failure, stream precision, all logging, and `writeNets` returning false for a bad stream.
- The text of the via and segment records: coordinate scaling by `grid_factor`, the board offsets, via size/drill, trace width, net id, and layer names. The `mGridLayerToName.at` lookup would throw for a layer without a name. Records stay in grid coordinates.
- Wirelength estimates (`getDistance`, `getDistance2D`): floating point, logging only.
- Floating-point coordinate conversion (`dbPointToGridPoint*`, `gridPointToDbPoint`), grid dimension and board-outline computation. A pad's footprint rectangle in grid cells and its instance layer are inputs.
- Database lookups (`mDb.*`): the Pin to padstack/instance resolution overloads (src/GridBasedRouter.cpp:372-379, 433-440), net/netclass/component validity, and pad rotation. They become inputs: `Pad`, `Database`, `Instance`, `Net`, the netclass id set.
- Float costs and priorities: modelled as integers so that additions are exact.
- 32-bit `int` width: `Location` fields, `abs` of coordinate differences, and `w*h*l` are unbounded integers here. Overflow in the source is undefined behaviour and not modelled.
- Grid.Hash: agrees with the source only while `((53+x)*53+y)*53+z` fits a 32-bit `int`. Signed overflow there is undefined behaviour, so only the conversion to `size_t` is modelled.
- The binary-heap layout of `std::priority_queue`. The model's `top()` is the first least-priority pair, one legal choice among ties.
- The default constructors `Route()` and `MultipinRoute()`: they leave `netId` uninitialised.
- The route list the drivers collect for output. The second driver adds a net's route before the netclass check (line 313), the first after it (line 231). `writeNets` skips such routes anyway, as they have no features.
- RouterDriver.AddRouteCost: leaves the via-forbidden marks untouched. Whether `addRoute`/`addRouteWithGridPins` mark cells via-forbidden is decided in their bodies, which are not part of this model.
- RouterDriver.RouteNets: uses the corrected net step, so its contracts speak of the loop with the netclass check first. The loop as written is `RouterDriver.RouteNetsAsWritten`. The two agree when every net of two or more pins has a valid netclass id (`RouterDriver.RouteNetsAsWrittenAgrees`). Otherwise the loop as written differs as Findings shows.
- RouterDriver.RouteNetsKeepsSeeding: states the seeding is kept for the corrected loop only. As written, each net of two or more pins with an invalid netclass id also leaves its pins' stamps subtracted (`RouterDriver.AsWrittenInvalidNetclassDropsPinCost`).
- Design-rule state (`set_current_rules`): consumed only by the unseen route commit.
- `BoardGrid` allocation, allocation failure (`exit(-1)`), the destructor, and `initilization`.
- Debug dumps (`printGnuPlot`, `printMatPlot`, `pprint`, `print_*`), the legacy `test_router` driver, and the commented-out output blocks.
