/**
 * `DataStore` of `dsrpc.go`: the datastore client that turns the RPC
 * service's replies back into datastore results. Each method gets the
 * transport's answer, a reply or an RPC error, as its argument.
 */
module DsRpc {
  import opened Basics
  import opened Wire
  import Dedup

  /** A datastore error: `ds.ErrNotFound`, an RPC error passed on, or `xerrors.New(reply.Msg)`. */
  datatype DsError = NotFound | Transport(msg: string) | Remote(msg: string)

  /** What a unary RPC call returns: the reply, or the transport's error. */
  type Reply = Result<CommonReply, string>

  datatype DataStore<C> = DataStore(client: C)

  const MissingClient := "missing KVStoreClient instance"

  /** A store needs a client; without one there is an error and no store. */
  function NewDataStore<C>(client: Option<C>): (r: Result<DataStore<C>, string>)
    ensures r.Err? <==> client.None?
    ensures client.Some? ==> r == Ok(DataStore(client.value))
    ensures client.None? ==> r.error == MissingClient
  {
    match client
    case None => Err(MissingClient)
    case Some(c) => Ok(DataStore(c))
  }

  function Put(r: Reply): (err: Option<DsError>)
    ensures err.None? <==> r.Ok? && r.value.code == NoError
    ensures r.Err? ==> err == Some(Transport(r.error))
    ensures r.Ok? && r.value.code != NoError ==> err == Some(Remote(r.value.msg))
  {
    match r
    case Err(e) => Some(Transport(e))
    case Ok(reply) => if reply.code != NoError then Some(Remote(reply.msg)) else None
  }

  function Get(r: Reply): (res: Result<Bytes, DsError>)
    ensures res.Ok? <==> r.Ok? && r.value.code == NoError
    ensures res.Ok? ==> res.value == r.value.value
    ensures r.Ok? && r.value.code == ErrNotFound ==> res == Err(NotFound)
    ensures r.Ok? && r.value.code == Others ==> res == Err(Remote(r.value.msg))
    ensures r.Err? ==> res == Err(Transport(r.error))
  {
    match r
    case Err(e) => Err(Transport(e))
    case Ok(reply) =>
      if reply.code != NoError then
        if reply.code == ErrNotFound then Err(NotFound) else Err(Remote(reply.msg))
      else Ok(reply.value)
  }

  /** Not found is not an error for `Has`: it is the answer `false`. */
  function Has(r: Reply): (res: Result<bool, DsError>)
    ensures r.Ok? && r.value.code == ErrNotFound ==> res == Ok(false)
    ensures r.Ok? && r.value.code == NoError ==> res == Ok(r.value.success)
    ensures res.Err? <==> r.Err? || r.value.code.Others?
    ensures r.Err? ==> res == Err(Transport(r.error))
    ensures r.Ok? && r.value.code == Others ==> res == Err(Remote(r.value.msg))
  {
    match r
    case Err(e) => Err(Transport(e))
    case Ok(reply) =>
      if reply.code != NoError then
        if reply.code == ErrNotFound then Ok(false) else Err(Remote(reply.msg))
      else Ok(reply.success)
  }

  /** `GetSize`'s `(int, error)`: the size is -1 whenever there is an error. */
  datatype SizeResult = SizeResult(size: int, err: Option<DsError>)

  function GetSize(r: Reply): (res: SizeResult)
    ensures res.err.Some? ==> res.size == -1
    ensures res.err.None? <==> r.Ok? && r.value.code == NoError
    ensures res.err.None? ==> res.size == r.value.size
    ensures r.Ok? && r.value.code == ErrNotFound ==> res.err == Some(NotFound)
    ensures r.Ok? && r.value.code == Others ==> res.err == Some(Remote(r.value.msg))
    ensures r.Err? ==> res.err == Some(Transport(r.error))
  {
    match r
    case Err(e) => SizeResult(-1, Some(Transport(e)))
    case Ok(reply) =>
      if reply.code != NoError then
        if reply.code == ErrNotFound then SizeResult(-1, Some(NotFound))
        else SizeResult(-1, Some(Remote(reply.msg)))
      else SizeResult(reply.size, None)
  }

  /** Deleting what is not there succeeds. */
  function Delete(r: Reply): (err: Option<DsError>)
    ensures err.None? <==> r.Ok? && r.value.code in {NoError, ErrNotFound}
    ensures r.Ok? && r.value.code == Others ==> err == Some(Remote(r.value.msg))
    ensures r.Err? ==> err == Some(Transport(r.error))
  {
    match r
    case Err(e) => Some(Transport(e))
    case Ok(reply) =>
      if reply.code != NoError then
        if reply.code == ErrNotFound then None else Some(Remote(reply.msg))
      else None
  }

  function Sync(key: string): (err: Option<DsError>)
    ensures err.None?
  {
    None
  }

  function Close(): (err: Option<DsError>)
    ensures err.None?
  {
    None
  }

  // ------------------------------------------------------ queries

  /** A `dsq.Result`: an entry, or an error with the zero entry. */
  datatype QueryResult = QueryResult(entry: Dedup.Entry, error: Option<string>)

  const NoEntry := Dedup.Entry("", [], 0)

  /** The client end of the server stream opened by `Query`. */
  class QueryStream {
    /** The `Res` payloads the server has sent that are not yet received. */
    var pending: seq<Bytes>
    /** What `Recv` reports once they are used up: `io.EOF` or the server's error. */
    const end: string

    constructor (pending: seq<Bytes>, end: string)
      ensures this.pending == pending && this.end == end
    {
      this.pending := pending;
      this.end := end;
    }

    method Recv() returns (r: Result<Bytes, string>)
      modifies this
      ensures old(pending) == [] ==> r == Err(end) && pending == []
      ensures old(pending) != [] ==> r == Ok(old(pending)[0]) && pending == old(pending)[1..]
    {
      if pending == [] {
        r := Err(end);
      } else {
        r := Ok(pending[0]);
        pending := pending[1..];
      }
    }
  }

  /**
   * `nextValue`: receives one reply and decodes it. A receive or decode
   * error comes back as the result's error with `false`, which ends the
   * iteration; a decoded entry comes back with `true`.
   */
  method NextValue(s: QueryStream, decode: Bytes -> Result<Dedup.Entry, string>)
    returns (res: QueryResult, more: bool)
    modifies s
    ensures old(s.pending) == [] ==> res == QueryResult(NoEntry, Some(s.end)) && !more && s.pending == []
    ensures old(s.pending) != [] ==> s.pending == old(s.pending)[1..]
    ensures old(s.pending) != [] ==>
      match decode(old(s.pending)[0])
      case Ok(e) => res == QueryResult(e, None) && more
      case Err(m) => res == QueryResult(NoEntry, Some(m)) && !more
    ensures more <==> res.error.None?
  {
    var item := s.Recv();
    if item.Err? {
      return QueryResult(NoEntry, Some(item.error)), false;
    }
    var ent := decode(item.value);
    if ent.Err? {
      return QueryResult(NoEntry, Some(ent.error)), false;
    }
    return QueryResult(ent.value, None), true;
  }
}
