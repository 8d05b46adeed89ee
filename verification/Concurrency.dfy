/** What the concurrent objects share: the calls made on them, and a unit's phases (unit.go). */
module Concurrency {
  datatype Phase = UnitOpen | UnitClosing | UnitClosed | UnitFailed | UnitAborted

  /** A call of a method, standing for its goroutine and its contexts. */
  type Call = nat
}
