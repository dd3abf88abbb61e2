/** Operations in the order of the clock. */
module Clocks {

  datatype Event<Op> = Event(now: int, op: Op)

  /** The clock never runs backwards. */
  predicate Timely<Op>(events: seq<Event<Op>>, from: int) {
    if events == [] then true
    else from <= events[0].now && Timely(events[1..], events[0].now)
  }
}
