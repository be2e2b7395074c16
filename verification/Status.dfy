/** The status bytes of responses, and the error codes handlers return. */
module Status {
  import opened Bits

  const RESPONSE_OK: byte := 0x00
  const RESPONSE_ERROR: byte := 0xff

  datatype Error = MsgSize | NoBufs | NotSupported | Invalid | NoData
}
