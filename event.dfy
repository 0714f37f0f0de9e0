/** The event record of the logic simulator (logicsim/event.h) and the
    comparator that orders a heap of events by time. */
module LogicSim {
  import opened Orders
  import Heaps

  newtype uint64 = x: int | 0 <= x < 0x1_0000_0000_0000_0000

  /** The address of the wire an event drives; wires are not part of this model. */
  type WireRef = nat

  /** A scheduled change of `wire` to `state` at simulation time `time`. */
  datatype Event = Event(time: uint64, wire: WireRef, state: char)

  /** EventLess::operator() (logicsim/event.h:15-19): the earlier event has priority. */
  function EventLess(e1: Event, e2: Event): bool {
    e1.time < e2.time
  }

  /** EventLess meets the comparator requirement of the heap. */
  lemma EventLessIsStrictWeakOrder()
    ensures StrictWeakOrder(EventLess)
  {
  }

  /** Of two events, at most one has priority over the other. */
  lemma EventLessIsAsymmetric(e1: Event, e2: Event)
    ensures EventLess(e1, e2) ==> !EventLess(e2, e1)
  {
    EventLessIsStrictWeakOrder();
    StrictWeakOrderIsAsymmetric(EventLess, e1, e2);
  }

  /** Events scheduled for the same time are unordered in both directions. */
  lemma SameTimeUnordered(e1: Event, e2: Event)
    requires e1.time == e2.time
    ensures !EventLess(e1, e2) && !EventLess(e2, e1)
  {
  }

  /** Only the times matter: wire and state are ignored. */
  lemma EventLessIgnoresPayload(e1: Event, e2: Event, f1: Event, f2: Event)
    requires e1.time == f1.time && e2.time == f2.time
    ensures EventLess(e1, e2) == EventLess(f1, f2)
  {
  }

  /** In a heap ordered by EventLess the root is an earliest event. */
  lemma EarliestAtTop(s: seq<Event>, m: nat)
    requires Heaps.HeapOrdered(s, m, EventLess)
    ensures forall i :: 0 <= i < |s| ==> s[0].time <= s[i].time
  {
    EventLessIsStrictWeakOrder();
    Heaps.TopIsBest(s, m, EventLess);
  }
}
