/** The geometry walk of `writeNets` (src/GridBasedRouter.cpp): each net's
    feature sequence is read pairwise and turned into KiCad `via` and
    `segment` records, counted per net and in total. Coordinates stay in grid
    units; the scaling to board units and the text format are not modelled. */
module NetWriter {
  import opened Grid

  /** One emitted record: a through-hole via at a grid location, or a track
      segment between two grid locations on a layer. */
  datatype Event = Via(at: Location) | Segment(from: Location, to: Location, layer: int)

  function Abs(n: int): nat
  {
    if n < 0 then -n else n
  }

  /** The closeness test of the walk: the two locations differ by at most one
      cell on every axis. */
  predicate Adjacent(a: Location, b: Location)
  {
    Abs(b.x - a.x) <= 1 && Abs(b.y - a.y) <= 1 && Abs(b.z - a.z) <= 1
  }

  predicate ChangesLayer(prev: Location, cur: Location)
  {
    Adjacent(prev, cur) && prev.z != cur.z
  }

  predicate MovesInPlane(prev: Location, cur: Location)
  {
    Adjacent(prev, cur) && (prev.x != cur.x || prev.y != cur.y)
  }

  /** The records one step prev -> cur of the walk emits: a via at prev when
      the step is adjacent and changes layer, then a segment prev -> cur on
      cur's layer when it is adjacent and moves in the plane. */
  function StepEvents(prev: Location, cur: Location): (es: seq<Event>)
    ensures Via(prev) in es <==> ChangesLayer(prev, cur)
    ensures Segment(prev, cur, cur.z) in es <==> MovesInPlane(prev, cur)
    ensures forall e :: e in es ==> e == Via(prev) || e == Segment(prev, cur, cur.z)
    ensures !Adjacent(prev, cur) ==> es == []
    ensures |es| == (if ChangesLayer(prev, cur) then 1 else 0) + (if MovesInPlane(prev, cur) then 1 else 0)
    ensures ChangesLayer(prev, cur) ==> es[0] == Via(prev)
  {
    (if ChangesLayer(prev, cur) then [Via(prev)] else [])
    + (if MovesInPlane(prev, cur) then [Segment(prev, cur, cur.z)] else [])
  }

  /** The loop as written: `last` is `last_location`, and it moves on to every
      feature, whether or not the step emitted anything. */
  function WalkFrom(last: Location, rest: seq<Location>): (r: seq<Event>)
    ensures |r| <= 2 * |rest|
    decreases |rest|
  {
    if rest == [] then []
    else StepEvents(last, rest[0]) + WalkFrom(rest[0], rest[1..])
  }

  /** The records of one net's feature sequence. */
  function FeatureEvents(features: seq<Location>): (r: seq<Event>)
    ensures |features| <= 1 ==> r == []
    ensures |features| >= 1 ==> |r| <= 2 * (|features| - 1)
  {
    if features == [] then [] else WalkFrom(features[0], features[1..])
  }

  /** Independent reference: the records of the consecutive pairs
      (f[i-1], f[i]), i = 1 .. |f|-1, concatenated in order. */
  function PairwiseEvents(f: seq<Location>): seq<Event>
  {
    if |f| < 2 then []
    else PairwiseEvents(f[..|f| - 1]) + StepEvents(f[|f| - 2], f[|f| - 1])
  }

  lemma {:induction false} WalkFromSplits(last: Location, rest: seq<Location>, cur: Location)
    ensures WalkFrom(last, rest + [cur])
         == WalkFrom(last, rest) + StepEvents(if rest == [] then last else rest[|rest| - 1], cur)
    decreases |rest|
  {
    hide StepEvents;
    if rest != [] {
      assert (rest + [cur])[1..] == rest[1..] + [cur];
      WalkFromSplits(rest[0], rest[1..], cur);
    }
  }

  /** The walk emits exactly the records of the consecutive pairs, so a
      skipped (non-adjacent) step never shifts which location the next step
      starts from. */
  lemma {:induction false} WalkIsPairwise(f: seq<Location>)
    ensures FeatureEvents(f) == PairwiseEvents(f)
  {
    if |f| >= 2 {
      var init := f[..|f| - 1];
      WalkIsPairwise(init);
      assert f[1..] == init[1..] + [f[|f| - 1]];
      WalkFromSplits(f[0], init[1..], f[|f| - 1]);
    }
  }

  /** Every adjacent step's records are emitted: a via at f[i-1] when the
      step changes layer, a segment f[i-1] -> f[i] on f[i]'s layer when it
      moves in the plane. */
  lemma {:induction false} EveryStepIsEmitted(f: seq<Location>, i: int)
    requires 1 <= i < |f|
    ensures ChangesLayer(f[i - 1], f[i]) ==> Via(f[i - 1]) in PairwiseEvents(f)
    ensures MovesInPlane(f[i - 1], f[i]) ==> Segment(f[i - 1], f[i], f[i].z) in PairwiseEvents(f)
  {
    var init := f[..|f| - 1];
    if i < |f| - 1 {
      EveryStepIsEmitted(init, i);
    }
  }

  /** The record `e` is one the step prev -> cur emits. */
  predicate EmittedBy(prev: Location, cur: Location, e: Event)
  {
    (e == Via(prev) && ChangesLayer(prev, cur)) || (e == Segment(prev, cur, cur.z) && MovesInPlane(prev, cur))
  }

  /** Nothing else is emitted: each record comes from a step of the walk that
      changes layer (a via at its start) or moves in the plane (a segment). */
  lemma {:induction false} EveryEventHasAStep(f: seq<Location>, e: Event)
    requires e in PairwiseEvents(f)
    ensures exists i :: 1 <= i < |f| && EmittedBy(f[i - 1], f[i], e)
  {
    var init := f[..|f| - 1];
    var n := |f| - 1;
    if e in PairwiseEvents(init) {
      EveryEventHasAStep(init, e);
      var i :| 1 <= i < |init| && EmittedBy(init[i - 1], init[i], e);
      assert init[i - 1] == f[i - 1] && init[i] == f[i];
    } else {
      assert e in StepEvents(f[n - 1], f[n]);
      assert EmittedBy(f[n - 1], f[n], e);
    }
  }

  /** A sequence of at most one feature emits nothing. */
  lemma {:induction false} ShortFeaturesEmitNothing(f: seq<Location>)
    requires |f| <= 1
    ensures FeatureEvents(f) == []
  {
  }

  /** The number of vias among some records. */
  function CountVias(es: seq<Event>): nat
  {
    if es == [] then 0 else (if es[0].Via? then 1 else 0) + CountVias(es[1..])
  }

  lemma {:induction false} CountViasAppend(a: seq<Event>, b: seq<Event>)
    ensures CountVias(a + b) == CountVias(a) + CountVias(b)
  {
    if a == [] {
      assert a + b == b;
    } else {
      assert (a + b)[1..] == a[1..] + b;
      CountViasAppend(a[1..], b);
    }
  }

  /** The number of consecutive pairs of f that are adjacent and change layer. */
  function LayerChanges(f: seq<Location>): nat
  {
    if |f| < 2 then 0
    else LayerChanges(f[..|f| - 1]) + (if ChangesLayer(f[|f| - 2], f[|f| - 1]) then 1 else 0)
  }

  /** A net's via count is its number of adjacent, layer-changing steps. */
  lemma {:induction false} ViaCountIsLayerChanges(f: seq<Location>)
    ensures CountVias(FeatureEvents(f)) == LayerChanges(f)
  {
    WalkIsPairwise(f);
    PairwiseViaCount(f);
  }

  lemma {:induction false} PairwiseViaCount(f: seq<Location>)
    ensures CountVias(PairwiseEvents(f)) == LayerChanges(f)
  {
    if |f| >= 2 {
      PairwiseViaCount(f[..|f| - 1]);
      var prev, cur := f[|f| - 2], f[|f| - 1];
      CountViasAppend(PairwiseEvents(f[..|f| - 1]), StepEvents(prev, cur));
      StepViaCount(prev, cur);
    }
  }

  lemma {:induction false} StepViaCount(prev: Location, cur: Location)
    ensures CountVias(StepEvents(prev, cur)) == if ChangesLayer(prev, cur) then 1 else 0
  {
    var v: seq<Event> := if ChangesLayer(prev, cur) then [Via(prev)] else [];
    var g: seq<Event> := if MovesInPlane(prev, cur) then [Segment(prev, cur, cur.z)] else [];
    CountViasAppend(v, g);
    assert StepEvents(prev, cur) == v + g;
  }

  /** The per-net loop of `writeNets`, with `last_location` and the via
      counter as in the source. */
  method WriteNetFeatures(features: seq<Location>) returns (events: seq<Event>, numVia: nat)
    ensures events == PairwiseEvents(features)
    ensures numVia == LayerChanges(features)
    ensures numVia == CountVias(events)
  {
    events := [];
    numVia := 0;
    if features == [] {
      return;
    }
    var last := features[0];
    var i := 1;
    while i < |features|
      invariant 1 <= i <= |features|
      invariant last == features[i - 1]
      invariant events == PairwiseEvents(features[..i])
      invariant numVia == LayerChanges(features[..i])
    {
      var feature := features[i];
      assert features[..i + 1][..i] == features[..i];
      ghost var before := events;
      assert PairwiseEvents(features[..i + 1]) == before + StepEvents(last, feature);
      if Adjacent(last, feature) {
        if feature.z != last.z {
          numVia := numVia + 1;
          events := events + [Via(last)];
        }
        if feature.x != last.x || feature.y != last.y {
          events := events + [Segment(last, feature, feature.z)];
        }
      }
      assert events == before + StepEvents(last, feature);
      last := feature;
      i := i + 1;
    }
    assert features[..i] == features;
    PairwiseViaCount(features);
  }

  /** The database facts `writeNets` consults: the valid net ids, each mapped
      to its netclass id, and the valid netclass ids. */
  datatype Database = Database(netclassOfNet: map<int, int>, netclassIds: set<int>)

  predicate IsNetId(db: Database, netId: int)
  {
    netId in db.netclassOfNet
  }

  predicate IsNetclassId(db: Database, id: int)
  {
    id in db.netclassIds
  }

  /** What `writeNets` does with one net. */
  datatype NetOutcome =
    | InvalidNet
    | InvalidNetclass
    | NoFeatures
    | Written(events: seq<Event>, vias: nat)

  /** One net: checked for a valid net id, then a valid netclass id, then a
      non-empty feature sequence, in that order; only then walked. */
  function WriteNet(db: Database, net: MultipinRoute): (o: NetOutcome)
    ensures o.InvalidNet? <==> !IsNetId(db, net.netId)
    ensures o.InvalidNetclass? <==>
              IsNetId(db, net.netId) && !IsNetclassId(db, db.netclassOfNet[net.netId])
    ensures o.NoFeatures? <==>
              IsNetId(db, net.netId) && IsNetclassId(db, db.netclassOfNet[net.netId])
              && net.features == []
    ensures o.Written? ==> o.events == PairwiseEvents(net.features)
                           && o.vias == LayerChanges(net.features)
                           && o.vias == CountVias(o.events)
  {
    if !IsNetId(db, net.netId) then InvalidNet
    else if !IsNetclassId(db, db.netclassOfNet[net.netId]) then InvalidNetclass
    else if net.features == [] then NoFeatures
    else
      WalkIsPairwise(net.features);
      ViaCountIsLayerChanges(net.features);
      Written(FeatureEvents(net.features), LayerChanges(net.features))
  }

  /** The records of all nets, in net order, and the total via count. */
  datatype Output = Output(events: seq<Event>, totalVias: nat)

  function WriteNets(db: Database, nets: seq<MultipinRoute>): (r: Output)
    ensures r.totalVias == CountVias(r.events)
  {
    if nets == [] then Output([], 0)
    else
      var rest := WriteNets(db, nets[1..]);
      match WriteNet(db, nets[0])
      case Written(es, v) =>
        CountViasAppend(es, rest.events);
        Output(es + rest.events, v + rest.totalVias)
      case _ => rest
  }

  /** A net that is skipped adds no record and no via, wherever it stands. */
  lemma {:induction false} SkippedNetAddsNothing(db: Database, before: seq<MultipinRoute>,
                                                 net: MultipinRoute, after: seq<MultipinRoute>)
    requires !WriteNet(db, net).Written?
    ensures WriteNets(db, before + [net] + after) == WriteNets(db, before + after)
  {
    if before == [] {
      assert before + [net] + after == [net] + after;
      assert ([net] + after)[1..] == after;
      assert before + after == after;
    } else {
      SkippedNetAddsNothing(db, before[1..], net, after);
      assert (before + [net] + after)[1..] == before[1..] + [net] + after;
      assert (before + after)[1..] == before[1..] + after;
    }
  }

  /** What one net contributes to the output: its pairwise records and its
      layer-change count when it is written, nothing otherwise. */
  lemma {:induction false} WriteNetsSingle(db: Database, net: MultipinRoute)
    ensures WriteNet(db, net).Written? ==>
              WriteNets(db, [net]) == Output(PairwiseEvents(net.features), LayerChanges(net.features))
    ensures !WriteNet(db, net).Written? ==> WriteNets(db, [net]) == Output([], 0)
  {
    assert [net][1..] == [];
    if WriteNet(db, net).Written? {
      assert WriteNet(db, net).events + [] == WriteNet(db, net).events;
    }
  }

  /** Puts one net's outcome in front of the output of the nets after it. */
  function Prepend(o: NetOutcome, rest: Output): Output
  {
    if o.Written? then Output(o.events + rest.events, o.vias + rest.totalVias) else rest
  }

  lemma {:induction false} WriteNetsCons(db: Database, nets: seq<MultipinRoute>)
    requires nets != []
    ensures WriteNets(db, nets) == Prepend(WriteNet(db, nets[0]), WriteNets(db, nets[1..]))
  {
  }

  /** Putting an outcome in front commutes with appending more output. */
  lemma {:induction false} PrependAppend(o: NetOutcome, ra: Output, rb: Output)
    ensures Prepend(o, Output(ra.events + rb.events, ra.totalVias + rb.totalVias))
         == Output(Prepend(o, ra).events + rb.events, Prepend(o, ra).totalVias + rb.totalVias)
  {
    if o.Written? {
      assert o.events + (ra.events + rb.events) == (o.events + ra.events) + rb.events;
    }
  }

  /** The output of a net list is the output of its first part followed by
      that of its second part: records concatenate, via totals add. */
  lemma {:induction false} WriteNetsAppend(db: Database, a: seq<MultipinRoute>, b: seq<MultipinRoute>)
    ensures WriteNets(db, a + b)
         == Output(WriteNets(db, a).events + WriteNets(db, b).events,
                   WriteNets(db, a).totalVias + WriteNets(db, b).totalVias)
    decreases |a|
  {
    if a == [] {
      assert a + b == b;
      assert WriteNets(db, a) == Output([], 0);
      assert [] + WriteNets(db, b).events == WriteNets(db, b).events;
    } else {
      assert (a + b)[1..] == a[1..] + b;
      assert (a + b)[0] == a[0];
      WriteNetsAppend(db, a[1..], b);
      WriteNetsCons(db, a);
      WriteNetsCons(db, a + b);
      PrependAppend(WriteNet(db, a[0]), WriteNets(db, a[1..]), WriteNets(db, b));
    }
  }
}
