/** The reference object of all the rings: a first-in first-out queue of bounded capacity. */
module BoundedFifo {

  /** What one step of an implementation shows to its callers. */
  datatype Event<T> = Quiet | Put(item: T) | Take(item: T) | Full | Empty

  /** The queue may show `e`. */
  ghost predicate Possible<T>(q: seq<T>, e: Event<T>, capacity: nat) {
    match e
    case Quiet => true
    case Put(_) => |q| < capacity
    case Take(x) => q != [] && x == q[0]
    case Full => |q| == capacity
    case Empty => q == []
  }

  function Effect<T>(q: seq<T>, e: Event<T>): seq<T> {
    match e
    case Put(x) => q + [x]
    case Take(_) => if q == [] then q else q[1..]
    case _ => q
  }

  ghost predicate Allows<T>(q: seq<T>, e: Event<T>, r: seq<T>, capacity: nat) {
    Possible(q, e, capacity) && r == Effect(q, e)
  }

  /** A whole trace is one the reference queue can show, ending with contents `r`. */
  ghost predicate Accepts<T>(q: seq<T>, trace: seq<Event<T>>, r: seq<T>, capacity: nat)
    decreases |trace|
  {
    if trace == [] then r == q
    else Possible(q, trace[0], capacity) && Accepts(Effect(q, trace[0]), trace[1..], r, capacity)
  }

  function Puts<T>(trace: seq<Event<T>>): seq<T> {
    if trace == [] then []
    else (if trace[0].Put? then [trace[0].item] else []) + Puts(trace[1..])
  }

  function Takes<T>(trace: seq<Event<T>>): seq<T> {
    if trace == [] then []
    else (if trace[0].Take? then [trace[0].item] else []) + Takes(trace[1..])
  }

  /** Whatever is accepted conserves items and their order. */
  lemma {:induction false} AcceptedConserves<T>(q: seq<T>, trace: seq<Event<T>>, r: seq<T>, capacity: nat)
    requires Accepts(q, trace, r, capacity)
    ensures q + Puts(trace) == Takes(trace) + r
    decreases |trace|
  {
    if trace != [] {
      var m, rest := Effect(q, trace[0]), trace[1..];
      AcceptedConserves(m, rest, r, capacity);
      OneEventConserves(q, trace[0], m, Puts(rest), Takes(rest), r);
    }
  }

  lemma OneEventConserves<T>(q: seq<T>, e: Event<T>, m: seq<T>, puts: seq<T>, takes: seq<T>, r: seq<T>)
    requires m == Effect(q, e) && m + puts == takes + r
    requires e.Take? ==> q != [] && e.item == q[0]
    ensures q + ((if e.Put? then [e.item] else []) + puts) == ((if e.Take? then [e.item] else []) + takes) + r
  {
    match e
    case Put(x) =>
      assert q + ([x] + puts) == m + puts && [] + takes == takes;
    case Take(x) =>
      assert q == [x] + m;
      assert [] + puts == puts;
      assert q + puts == [x] + (m + puts) == [x] + (takes + r) == ([x] + takes) + r;
    case _ =>
      assert [] + puts == puts && [] + takes == takes;
  }
}
