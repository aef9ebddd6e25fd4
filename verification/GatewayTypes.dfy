/** Result codes and the event frame of include/SoaServiceManager.hpp. */
module GatewayTypes {

  datatype ErrorCode =
    | NullPointer | RegistryFull | ServiceNotFound | SubscriberFull | QueueFull
    | Unauthorized | InvalidArgument | E2eViolation | IpcBufferFull | AlreadyRegistered
    | NotInitialized | ChecksumMismatch | SequenceError | Timeout

  datatype VoidResult = Ok | Err(error: ErrorCode)

  const MAX_PAYLOAD_BYTES: nat := 256

  const TWO_32: nat := 0x1_0000_0000

  /** An unsigned 32-bit field. */
  type U32 = n: nat | n < TWO_32

  datatype SoaEvent = SoaEvent(
    serviceId: bv16, eventId: bv16, sessionId: U32, payloadLen: bv8, payload: seq<bv8>)
  {
    ghost predicate WellFormed() {
      |payload| == MAX_PAYLOAD_BYTES
    }
  }

  function Min(a: int, b: int): int {
    if a < b then a else b
  }

  /** Result of adding one to an unsigned 32-bit counter. */
  function Increment32(n: nat): (r: nat)
    ensures r < TWO_32
    ensures n + 1 < TWO_32 ==> r == n + 1
  {
    (n + 1) % TWO_32
  }
}
