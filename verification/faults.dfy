/** Outcomes of the ring buffer's operations.

    The buffer reports "retry later" through a zero count, never through an
    error. The only failures are its defensive assertions, which abort the
    program; the model makes each of them an explicit `Abort` value so that
    the conditions under which they fire can be stated and proved.
 */
module Faults {

  /** The defensive assertions of the buffer that a caller can reach. */
  datatype Fault =
    | SegmentsAliased   // two in-use segments start at the same physical index
    | SlotStillInUse    // write tried to start a new segment in a slot that is in use

  /** Either the result of an operation or the assertion that stopped it. */
  datatype Result<+R> = Ok(value: R) | Abort(fault: Fault)
}
