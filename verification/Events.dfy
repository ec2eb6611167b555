/** The vocabulary of the event scheduler: instants, event classes, keys and heap entries. */
module Events {
  const U64_MAX: int := 0xFFFF_FFFF_FFFF_FFFF

  type U64 = n: int | 0 <= n <= U64_MAX witness 0

  /** Nanoseconds since the start of the scenario. */
  type SimTime = U64

  datatype EventClass =
    | Control
    | MobilityStep
    | SignalPhase
    | PhyEnd
    | MacTimer
    | PhyStart
    | NodeTask
    | NetDeliver
    | FlowTimer
    | Observe
  {
    function Priority(): nat {
      match this
      case Control => 0
      case MobilityStep => 1
      case SignalPhase => 2
      case PhyEnd => 3
      case MacTimer => 4
      case PhyStart => 5
      case NodeTask => 6
      case NetDeliver => 7
      case FlowTimer => 8
      case Observe => 9
    }
  }

  /** Whether one `(time, priority)` pair sorts before another. */
  predicate Earlier(time: SimTime, priority: nat, time': SimTime, priority': nat) {
    time < time' || (time == time' && priority < priority')
  }

  datatype EventKey = EventKey(time: SimTime, priority: nat, seqNo: U64) {
    /** Dispatch order: time, then priority, then sequence number. */
    predicate Less(that: EventKey) {
      Earlier(time, priority, that.time, that.priority)
      || (time == that.time && priority == that.priority && seqNo < that.seqNo)
    }

    predicate AtMost(that: EventKey) {
      !that.Less(this)
    }
  }

  datatype Entry<E> = Entry(key: EventKey, payload: E)

  /** Addition that stops at the end of time instead of wrapping. */
  function SaturatingAdd(t: SimTime, delay: U64): SimTime {
    if t + delay > U64_MAX then U64_MAX else t + delay
  }
}
