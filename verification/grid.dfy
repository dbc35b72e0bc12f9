/** Grid value types of the router (src/BoardGrid.h): the `Location` triple and
    its hash, the `Route` and `MultipinRoute` records, and the dimensions of a
    `BoardGrid` together with its bounds check. */
module Grid {

  /** A board position: x and y in grid cells, z the copper-layer index. */
  datatype Location = Location(x: int, y: int, z: int)

  /** The default constructor `Location()`. */
  function DefaultLocation(): (l: Location)
    ensures l.x == 0 && l.y == 0 && l.z == 0
  {
    Location(0, 0, 0)
  }

  /** The multiplier of the `std::hash<Location>` specialisation. */
  const HashPrime: int := 53

  /** `std::size_t` is 64 bits wide; the hash's `int` value is converted to it. */
  const SizeTModulus: int := 0x1_0000_0000_0000_0000

  /** The hash before its conversion to `std::size_t`. */
  function HashValue(l: Location): int
  {
    ((HashPrime + l.x) * HashPrime + l.y) * HashPrime + l.z
  }

  /** `std::hash<Location>`: the value above converted to an unsigned 64-bit
      integer (modular conversion, so negative values wrap). */
  function Hash(l: Location): (h: nat)
    ensures h < SizeTModulus
    ensures h % SizeTModulus == HashValue(l) % SizeTModulus
  {
    HashValue(l) % SizeTModulus
  }

  /** For locations whose y and z both lie in 0 .. 52 the hash value
      determines the location: z, y and x can be read back from it. */
  lemma HashValueDecodes(l: Location)
    requires 0 <= l.y < HashPrime && 0 <= l.z < HashPrime
    ensures HashValue(l) % HashPrime == l.z
    ensures (HashValue(l) / HashPrime) % HashPrime == l.y
    ensures HashValue(l) / (HashPrime * HashPrime) == HashPrime + l.x
  {
    var v := HashValue(l);
    var q := (HashPrime + l.x) * HashPrime + l.y;
    assert v == q * HashPrime + l.z;
    DivModPrime(v, q, l.z);
    DivModPrime(q, HashPrime + l.x, l.y);
    assert v == (HashPrime + l.x) * (HashPrime * HashPrime) + (l.y * HashPrime + l.z);
    DivPrimeSquared(v, HashPrime + l.x, l.y * HashPrime + l.z);
  }

  lemma DivModPrime(v: int, q: int, r: int)
    requires 0 <= r < HashPrime && v == q * HashPrime + r
    ensures v / HashPrime == q && v % HashPrime == r
  {
  }

  lemma DivPrimeSquared(v: int, q: int, r: int)
    requires 0 <= r < HashPrime * HashPrime && v == q * (HashPrime * HashPrime) + r
    ensures v / (HashPrime * HashPrime) == q
  {
  }

  /** Within those bounds two different locations never share a hash value. */
  lemma HashValueInjective(a: Location, b: Location)
    requires 0 <= a.y < HashPrime && 0 <= a.z < HashPrime
    requires 0 <= b.y < HashPrime && 0 <= b.z < HashPrime
    ensures HashValue(a) == HashValue(b) <==> a == b
  {
    HashValueDecodes(a);
    HashValueDecodes(b);
  }

  /** Outside those bounds the hash collides: it is a hash, not an index. */
  lemma HashCollidesAcrossLayers()
    ensures Location(0, 0, 53) != Location(0, 1, 0)
    ensures Hash(Location(0, 0, 53)) == Hash(Location(0, 1, 0))
  {
  }

  /** A two-terminal route. */
  datatype Route = Route(
    start: Location,
    end: Location,
    cameFrom: map<Location, Location>,
    features: seq<Location>,
    netId: int)

  /** `Route(start, end)`: net id 0, no search state and no geometry yet. */
  function NewRoute(start: Location, end: Location): (r: Route)
    ensures r.start == start && r.end == end && r.netId == 0
    ensures r.cameFrom == map[] && r.features == []
  {
    Route(start, end, map[], [], 0)
  }

  /** `Route(start, end, netId)`. */
  function NewRouteOfNet(start: Location, end: Location, netId: int): (r: Route)
    ensures r.start == start && r.end == end && r.netId == netId
    ensures r.cameFrom == map[] && r.features == []
  {
    Route(start, end, map[], [], netId)
  }

  /** A net's routing job and result: pins in order, one came-from map per
      connection step, the accumulated feature sequence, and the net id. */
  datatype MultipinRoute = MultipinRoute(
    pins: seq<Location>,
    cameFrom: seq<map<Location, Location>>,
    features: seq<Location>,
    netId: int)

  /** `MultipinRoute(pins)`. */
  function NewMultipinRoute(pins: seq<Location>): (r: MultipinRoute)
    ensures r.pins == pins && r.netId == 0
    ensures r.cameFrom == [] && r.features == []
  {
    MultipinRoute(pins, [], [], 0)
  }

  /** `MultipinRoute(pins, netId)`. */
  function NewMultipinRouteOfNet(pins: seq<Location>, netId: int): (r: MultipinRoute)
    ensures r.pins == pins && r.netId == netId
    ensures r.cameFrom == [] && r.features == []
  {
    MultipinRoute(pins, [], [], netId)
  }

  /** The dimensions of a board grid and its cell count. */
  datatype BoardGrid = BoardGrid(w: int, h: int, l: int, size: int)

  /** `BoardGrid(w, h, l)`. The three cost buffers it allocates are modelled
      separately (PinCost.CostPlanes). */
  function NewBoardGrid(w: int, h: int, l: int): (g: BoardGrid)
    ensures g.w == w && g.h == h && g.l == l && g.size == w * h * l
    ensures w >= 0 && h >= 0 && l >= 0 ==> g.size == |ValidCells(g)|
  {
    var g := BoardGrid(w, h, l, w * h * l);
    if w >= 0 && h >= 0 && l >= 0 then
      CellCount(w, h, l);
      g
    else
      g
  }

  /** `validate_location`: the location lies inside the grid. */
  predicate ValidateLocation(g: BoardGrid, c: Location)
  {
    0 <= c.x < g.w && 0 <= c.y < g.h && 0 <= c.z < g.l
  }

  /** Every location `validate_location` accepts. */
  function ValidCells(g: BoardGrid): (s: set<Location>)
    ensures forall c :: c in s <==> ValidateLocation(g, c)
  {
    Cells(g.w, g.h, g.l)
  }

  function Cells(w: int, h: int, l: int): (s: set<Location>)
    ensures forall c :: c in s <==> 0 <= c.x < w && 0 <= c.y < h && 0 <= c.z < l
  {
    set x, y, z | 0 <= x < w && 0 <= y < h && 0 <= z < l :: Location(x, y, z)
  }

  function Layer(w: int, h: int, z: int): (s: set<Location>)
    ensures forall c :: c in s <==> 0 <= c.x < w && 0 <= c.y < h && c.z == z
  {
    set x, y | 0 <= x < w && 0 <= y < h :: Location(x, y, z)
  }

  function Row(w: int, y: int, z: int): (s: set<Location>)
    ensures forall c :: c in s <==> 0 <= c.x < w && c.y == y && c.z == z
  {
    set x | 0 <= x < w :: Location(x, y, z)
  }

  lemma {:induction false} RowCount(w: nat, y: int, z: int)
    ensures |Row(w, y, z)| == w
  {
    if w > 0 {
      RowCount(w - 1, y, z);
      assert Row(w, y, z) == Row(w - 1, y, z) + {Location(w - 1, y, z)};
    }
  }

  lemma {:induction false} LayerCount(w: nat, h: nat, z: int)
    ensures |Layer(w, h, z)| == w * h
  {
    if h > 0 {
      LayerCount(w, h - 1, z);
      RowCount(w, h - 1, z);
      LayerSplit(w, h, z);
      MulStep(w, h);
    }
  }

  /** The grid holds exactly w*h*l cells. */
  lemma {:induction false} CellCount(w: nat, h: nat, l: nat)
    ensures |Cells(w, h, l)| == w * h * l
  {
    if l > 0 {
      CellCount(w, h, l - 1);
      LayerCount(w, h, l - 1);
      CellsSplit(w, h, l);
      MulStep(w * h, l);
    }
  }

  lemma {:induction false} CellsSplit(w: nat, h: nat, l: nat)
    requires l > 0
    ensures Cells(w, h, l) == Cells(w, h, l - 1) + Layer(w, h, l - 1)
    ensures Cells(w, h, l - 1) !! Layer(w, h, l - 1)
  {
    var below, top := Cells(w, h, l - 1), Layer(w, h, l - 1);
    forall c | c in Cells(w, h, l)
      ensures c in below + top
    {
    }
  }

  lemma {:induction false} LayerSplit(w: nat, h: nat, z: int)
    requires h > 0
    ensures Layer(w, h, z) == Layer(w, h - 1, z) + Row(w, h - 1, z)
    ensures Layer(w, h - 1, z) !! Row(w, h - 1, z)
  {
    forall c | c in Layer(w, h, z)
      ensures c in Layer(w, h - 1, z) + Row(w, h - 1, z)
    {
    }
  }

  lemma MulStep(a: int, n: int)
    ensures a * n == a * (n - 1) + a
  {
  }
}
