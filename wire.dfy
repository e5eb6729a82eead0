/**
 * The message shapes of the RPC service (`store.pb.go`). Only the fields
 * are modelled; the zero values below are what the nil-safe getters return.
 */
module Wire {
  import opened Basics

  /**
   * The reply code. `NoError` is `ErrCode_None` (0) and `ErrNotFound` is
   * `ErrCode_ErrNotFound` (1). `Others` is the catch-all code that the
   * server uses for every other failure.
   */
  datatype ErrCode = NoError | ErrNotFound | Others

  datatype CommonRequest = CommonRequest(key: string, value: Bytes)

  datatype CommonReply = CommonReply(code: ErrCode, msg: string, value: Bytes, success: bool, size: int)

  datatype QueryRequest = QueryRequest(q: Bytes)

  datatype QueryReply = QueryReply(code: ErrCode, msg: string, res: Bytes)

  /** `&CommonReply{}`: every field at its zero value. */
  const EmptyReply := CommonReply(NoError, "", [], false, 0)
}
