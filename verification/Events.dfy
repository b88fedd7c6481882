/** What crosses the bus: events, the errors of its operations, and fragments handed to it. */
module Events {
  import opened Bytes
  import opened Wire

  datatype BusError =
    | ErrProtocol | ErrEpoch | ErrWouldBlock | ErrPayload
    | ErrModuleRuntime | ErrModuleMessage | ErrModuleConfig | ErrContext

  datatype Event = Event(frame: Frame, payload: bytes)

  /** One call of `RequestFragment` or `ReplyFragment`. */
  datatype Fragment = Fragment(kind: uint32, correlation: uint64, payload: bytes, more: bool)
}
