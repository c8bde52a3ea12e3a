/** The canonical event record shared by the packages (pkg/canon/canon.go). */
module Canon {
  import opened Bytes

  datatype Event = Event(traceId: bytes, seqNo: uint64, prevHash: bytes, eventHash: bytes, payload: bytes, tick: uint64)
}
