/** What a frame stream hands to the connection driver. */
module Events {
  import opened Common

  datatype ErrorKind = Io | ParseError | RoutingFailed | ConnectionClosed | NoRoutingFrame | BufferLimitExceeded

  datatype ParsedData<F> = Parsed(frame: F) | Passthrough(bytes: Bytes)

  /** One item of a frame stream; `End` is the end marker, after which the stream may go on. */
  datatype Event<F> = Item(data: ParsedData<F>) | Broken(kind: ErrorKind) | End
}
