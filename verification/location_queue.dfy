/** `LocationQueue` (src/BoardGrid.h): the min-priority queue of the grid
    search, a `std::priority_queue` over (priority, item) pairs ordered by
    `std::greater`, whose specialisation for (float, Location) pairs compares
    the priorities only. Priorities are modelled as integers. The heap layout
    is not modelled: the queue is the bag of its pairs, kept in a sequence.
    The template is instantiated with `Location` items only, and so is this
    model. */
module LocationQueue {
  import opened Grid

  /** `PQElement`: a (priority, item) pair. */
  datatype PQElement = PQElement(priority: int, item: Location)

  datatype LocationQueue = LocationQueue(elements: seq<PQElement>)

  /** The specialised `std::greater`: x comes after y iff its priority is
      larger; the items take no part in the comparison. */
  predicate Greater(x: PQElement, y: PQElement)
  {
    x.priority > y.priority
  }

  /** A queue holding no element (the default-constructed queue). */
  function EmptyQueue(): (q: LocationQueue)
    ensures Size(q) == 0 && Empty(q)
  {
    LocationQueue([])
  }

  /** `size()`: the number of queued pairs. */
  function Size(q: LocationQueue): nat
  {
    |q.elements|
  }

  /** `empty()`. */
  predicate Empty(q: LocationQueue)
    ensures Empty(q) <==> Size(q) == 0
  {
    q.elements == []
  }

  /** `push(item, priority)`: the bag gains exactly one (priority, item) pair. */
  function Push(q: LocationQueue, item: Location, priority: int): (r: LocationQueue)
    ensures Size(r) == Size(q) + 1
    ensures multiset(r.elements) == multiset(q.elements) + multiset{PQElement(priority, item)}
  {
    LocationQueue(q.elements + [PQElement(priority, item)])
  }

  /** A pair is a legal `top()` of the queue: it is queued and no queued pair
      precedes it under the comparator. */
  predicate IsTop(q: LocationQueue, e: PQElement)
  {
    e in q.elements && forall x :: x in q.elements ==> !Greater(e, x)
  }

  /** The position of the pair this model hands out as `top()`: the first one
      of least priority. The source fixes no order among equal priorities. */
  function TopIndex(s: seq<PQElement>): (i: nat)
    requires |s| > 0
    ensures i < |s|
    ensures forall j :: 0 <= j < |s| ==> s[i].priority <= s[j].priority
  {
    if |s| == 1 then 0
    else
      var k := TopIndex(s[1..]);
      if Greater(s[0], s[1..][k]) then k + 1 else 0
  }

  /** `top()`; calling it on an empty queue is undefined in the source. */
  function Top(q: LocationQueue): (e: PQElement)
    requires !Empty(q)
    ensures IsTop(q, e)
  {
    q.elements[TopIndex(q.elements)]
  }

  /** `front()`: the item of the top pair. */
  function Front(q: LocationQueue): (item: Location)
    requires !Empty(q)
    ensures exists i :: 0 <= i < Size(q) && IsTop(q, q.elements[i]) && q.elements[i].item == item
  {
    Top(q).item
  }

  /** `pop()`: removes exactly the pair `front()` reads. */
  function Pop(q: LocationQueue): (r: LocationQueue)
    requires !Empty(q)
    ensures Size(r) == Size(q) - 1
    ensures multiset(r.elements) + multiset{Top(q)} == multiset(q.elements)
  {
    var i := TopIndex(q.elements);
    assert q.elements == q.elements[..i] + [q.elements[i]] + q.elements[i + 1..];
    LocationQueue(q.elements[..i] + q.elements[i + 1..])
  }

  /** Popping never exposes a pair that precedes the one popped before it. */
  lemma {:induction false} PopIsMonotone(q: LocationQueue)
    requires Size(q) >= 2
    ensures Top(q).priority <= Top(Pop(q)).priority
  {
    var r := Pop(q);
    assert Top(r) in multiset(r.elements);
    assert Top(r) in multiset(q.elements);
  }

  /** With equal priorities either pair is a legal top: the queue promises no
      first-in-first-out order among ties. */
  lemma TiesHaveNoOrder(a: Location, b: Location, p: int)
    ensures var q := Push(Push(EmptyQueue(), a, p), b, p);
            IsTop(q, PQElement(p, a)) && IsTop(q, PQElement(p, b))
  {
    var q := Push(Push(EmptyQueue(), a, p), b, p);
    assert q.elements == [PQElement(p, a), PQElement(p, b)];
  }

  predicate SortedByPriority(s: seq<PQElement>)
  {
    forall i, j :: 0 <= i < j < |s| ==> s[i].priority <= s[j].priority
  }

  /** No pair already popped has a larger priority than a pair still queued. */
  predicate PoppedNoLater(order: seq<PQElement>, rest: LocationQueue)
  {
    forall i, x :: 0 <= i < |order| && x in rest.elements ==> order[i].priority <= x.priority
  }

  /** Pops the queue until it is empty, as the search loop does, and returns
      the pairs in the order popped: every queued pair exactly once, in
      non-decreasing priority. */
  method Drain(q: LocationQueue) returns (order: seq<PQElement>)
    ensures multiset(order) == multiset(q.elements)
    ensures SortedByPriority(order)
  {
    var rest := q;
    order := [];
    while !Empty(rest)
      invariant multiset(order) + multiset(rest.elements) == multiset(q.elements)
      invariant SortedByPriority(order)
      invariant PoppedNoLater(order, rest)
      decreases Size(rest)
    {
      DrainStep(order, rest);
      order := order + [Top(rest)];
      rest := Pop(rest);
    }
  }

  /** One pop of the drain loop keeps the popped pairs sorted and no later
      than what is left. */
  lemma {:induction false} DrainStep(order: seq<PQElement>, rest: LocationQueue)
    requires !Empty(rest)
    requires SortedByPriority(order) && PoppedNoLater(order, rest)
    ensures SortedByPriority(order + [Top(rest)])
    ensures PoppedNoLater(order + [Top(rest)], Pop(rest))
  {
    var top := Top(rest);
    var next := Pop(rest);
    PopLeavesNoSmaller(rest);
    var order' := order + [top];
    forall i, x | 0 <= i < |order'| && x in next.elements
      ensures order'[i].priority <= x.priority
    {
      assert x in multiset(rest.elements);
      if i < |order| {
        assert order'[i] == order[i];
      }
    }
  }

  /** Every pair left after a pop is no smaller than the popped one. */
  lemma {:induction false} PopLeavesNoSmaller(q: LocationQueue)
    requires !Empty(q)
    ensures forall x :: x in Pop(q).elements ==> Top(q).priority <= x.priority
  {
    forall x | x in Pop(q).elements
      ensures Top(q).priority <= x.priority
    {
      assert x in multiset(Pop(q).elements);
      assert x in multiset(q.elements);
    }
  }
}
