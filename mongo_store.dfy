/**
 * `MongoStore` of `ds-mongo/store.go`: the RPC handlers in front of
 * `DSMongo`. A block's id is the lowercase hex of the SHA-256 digest of
 * its value; the digest itself is a parameter (`sum256`). Every backend
 * error becomes a reply code, so a unary handler has no error result.
 */
module MongoStore {
  import opened Basics
  import opened Wire
  import Dedup
  import DsMongo

  // ------------------------------------------------------ block ids

  /** A SHA-256 digest: 32 bytes. */
  type Digest = d: Bytes | |d| == 32 witness seq(32, _ => 0)

  predicate IsLowerHexDigit(c: char) {
    '0' <= c <= '9' || 'a' <= c <= 'f'
  }

  function HexDigit(n: int): (c: char)
    requires 0 <= n < 16
    ensures IsLowerHexDigit(c)
  {
    if n < 10 then ('0' as int + n) as char else ('a' as int + n - 10) as char
  }

  function DigitValue(c: char): (n: int)
    ensures 0 <= n < 16
  {
    if '0' <= c <= '9' then c as int - '0' as int
    else if 'a' <= c <= 'f' then c as int - 'a' as int + 10
    else 0
  }

  /** `fmt.Sprintf("%x", d)`: two lowercase hex digits per byte, high nibble first. */
  function Hex(d: Bytes): (s: string)
    ensures |s| == 2 * |d|
    ensures forall i :: 0 <= i < |s| ==> IsLowerHexDigit(s[i])
  {
    if d == [] then ""
    else [HexDigit(d[0] as int / 16), HexDigit(d[0] as int % 16)] + Hex(d[1..])
  }

  /** Reads two hex digits per byte back. */
  function UnHex(s: string): (d: Bytes) {
    if |s| < 2 then []
    else [(DigitValue(s[0]) * 16 + DigitValue(s[1])) as byte] + UnHex(s[2..])
  }

  /** Hex encoding loses nothing. */
  lemma {:induction false} UnHexHex(d: Bytes)
    ensures UnHex(Hex(d)) == d
  {
    if d != [] {
      var s := Hex(d);
      assert s[2..] == Hex(d[1..]);
      UnHexHex(d[1..]);
      assert d == [d[0]] + d[1..];
    }
  }

  /** `sha256String(d)`: the block id of a value. */
  function Sha256String(sum256: Bytes -> Digest, d: Bytes): (id: string)
    ensures |id| == 64
    ensures forall i :: 0 <= i < |id| ==> IsLowerHexDigit(id[i])
  {
    Hex(sum256(d))
  }

  /** Two values share a block id exactly when their digests agree. */
  lemma BlockIdsAgreeIffDigestsAgree(sum256: Bytes -> Digest, a: Bytes, b: Bytes)
    ensures Sha256String(sum256, a) == Sha256String(sum256, b) <==> sum256(a) == sum256(b)
  {
    UnHexHex(sum256(a));
    UnHexHex(sum256(b));
  }

  /**
   * The block and the reference `Put` hands to `DSMongo`: the block is the
   * value under its id, the reference names the key and the same id.
   */
  function NewItems(sum256: Bytes -> Digest, req: CommonRequest): (r: (Dedup.StoreItem, Dedup.RefItem))
    ensures r.0.id == r.1.ref == Sha256String(sum256, req.value)
    ensures r.0.value == req.value && r.1.id == req.key
  {
    var hk := Sha256String(sum256, req.value);
    (Dedup.StoreItem(hk, req.value, 0), Dedup.RefItem(req.key, hk, 0))
  }

  /** Byte-equal values put under any two keys target the same block. */
  lemma EqualValuesShareBlock(sum256: Bytes -> Digest, a: CommonRequest, b: CommonRequest)
    requires a.value == b.value
    ensures NewItems(sum256, a).0 == NewItems(sum256, b).0
    ensures NewItems(sum256, a).1.ref == NewItems(sum256, b).1.ref
  {
  }

  /** Every block sits under the id of its own value. */
  ghost predicate ContentAddressed(t: Dedup.Tables, sum256: Bytes -> Digest) {
    forall h :: h in t.blocks ==> h == Sha256String(sum256, t.blocks[h].value)
  }

  lemma PutKeepsContentAddressed(t: Dedup.Tables, sum256: Bytes -> Digest, req: CommonRequest)
    requires ContentAddressed(t, sum256)
    ensures ContentAddressed(Dedup.Put(t, NewItems(sum256, req).0, NewItems(sum256, req).1), sum256)
  {
  }

  lemma DeleteKeepsContentAddressed(t: Dedup.Tables, sum256: Bytes -> Digest, key: string)
    requires ContentAddressed(t, sum256)
    ensures ContentAddressed(Dedup.Delete(t, key).0, sum256)
  {
  }

  // ------------------------------------------------------ replies

  /** The reply for a backend error: "no documents" is `ErrNotFound`, anything else `Others`. */
  function ErrorReply(err: Dedup.DbError): (r: CommonReply)
    ensures r.code != NoError
    ensures r.code == ErrNotFound <==> err.ErrNoDocuments?
    ensures r.msg == err.Message()
  {
    CommonReply(if err.ErrNoDocuments? then ErrNotFound else Others, err.Message(), [], false, 0)
  }

  /** The reply of `Put` and of `Delete`, which report only success or the error. */
  function StatusReply(err: Option<Dedup.DbError>): (r: CommonReply)
    ensures r.code == NoError <==> err.None?
    ensures err.None? ==> r == EmptyReply
  {
    match err
    case None => EmptyReply
    case Some(e) => ErrorReply(e)
  }

  function GetReply(res: Result<Bytes, Dedup.DbError>): (r: CommonReply)
    ensures r.code == NoError <==> res.Ok?
    ensures res.Ok? ==> r.value == res.value
  {
    match res
    case Ok(v) => EmptyReply.(value := v)
    case Err(e) => ErrorReply(e)
  }

  function HasReply(res: Result<bool, Dedup.DbError>): (r: CommonReply)
    ensures r.code == NoError <==> res.Ok?
    ensures res.Ok? ==> r.success == res.value
  {
    match res
    case Ok(b) => EmptyReply.(success := b)
    case Err(e) => ErrorReply(e)
  }

  function GetSizeReply(res: Result<int, Dedup.DbError>): (r: CommonReply)
    ensures r.code == NoError <==> res.Ok?
    ensures res.Ok? ==> r.size == res.value
  {
    match res
    case Ok(n) => EmptyReply.(size := n)
    case Err(e) => ErrorReply(e)
  }

  /** Every unary handler reports a backend error the same way. */
  lemma UnaryHandlersClassifyErrors(e: Dedup.DbError)
    ensures StatusReply(Some(e)) == ErrorReply(e)
    ensures GetReply(Err(e)) == HasReply(Err(e)) == GetSizeReply(Err(e)) == ErrorReply(e)
    ensures ErrorReply(e).code == (if e.ErrNoDocuments? then ErrNotFound else Others)
  {
  }

  /**
   * `Has` of a key without a reference comes back as `ErrNotFound`, not as
   * a successful reply with `success == false`.
   */
  lemma HasAbsentIsNotFound(t: Dedup.Tables, key: string)
    requires key !in t.refs
    ensures HasReply(Dedup.HasRef(t, key)).code == ErrNotFound
  {
  }

  // ------------------------------------------------------ queries

  /**
   * The outcome of relaying `es`: the replies sent are, in order, the
   * marshalled entries, one each; the relay stops at the first entry that
   * does not marshal or whose send fails, and reports that error.
   * `send(i)` is the transport's answer to the `i`-th send.
   */
  ghost predicate Relayed(es: seq<Dedup.Entry>, marshal: Dedup.Entry -> Result<Bytes, string>,
                          send: nat -> Option<string>, sent: seq<QueryReply>, err: Option<string>)
  {
    && |sent| <= |es|
    && (forall i :: 0 <= i < |sent| ==>
          marshal(es[i]).Ok? && send(i).None? && sent[i] == QueryReply(NoError, "", marshal(es[i]).value))
    && (err.None? <==> |sent| == |es|)
    && (|sent| < |es| ==>
          if marshal(es[|sent|]).Err? then err == Some(marshal(es[|sent|]).error)
          else send(|sent|).Some? && err == send(|sent|))
  }

  class MongoStore {
    const client: DsMongo.DSMongo
    /** SHA-256 (FIPS 180-4), not modelled. */
    const sum256: Bytes -> Digest

    constructor (client: DsMongo.DSMongo, sum256: Bytes -> Digest)
      ensures this.client == client && this.sum256 == sum256
      ensures Dedup.Valid(client.State()) && ContentAddressed(client.State(), sum256) ==> Valid()
    {
      this.client := client;
      this.sum256 := sum256;
    }

    ghost predicate Valid()
      reads this, client
    {
      Dedup.Valid(client.State()) && ContentAddressed(client.State(), sum256)
    }

    method Put(req: CommonRequest) returns (reply: CommonReply)
      modifies client
      ensures client.State() == Dedup.Put(old(client.State()), NewItems(sum256, req).0, NewItems(sum256, req).1)
      ensures reply == EmptyReply
      ensures old(Valid()) ==> Valid()
    {
      ghost var before := client.State();
      var items := NewItems(sum256, req);
      var err := client.Put(items.0, items.1);
      reply := StatusReply(err);
      if ContentAddressed(before, sum256) {
        PutKeepsContentAddressed(before, sum256, req);
      }
    }

    method Delete(req: CommonRequest) returns (reply: CommonReply)
      modifies client
      ensures client.State() == Dedup.Delete(old(client.State()), req.key).0
      ensures reply == StatusReply(Dedup.Delete(old(client.State()), req.key).1)
      ensures old(Valid()) ==> Valid()
    {
      ghost var before := client.State();
      var err := client.Delete(req.key);
      reply := StatusReply(err);
      if ContentAddressed(before, sum256) {
        DeleteKeepsContentAddressed(before, sum256, req.key);
      }
    }

    method Get(req: CommonRequest) returns (reply: CommonReply)
      ensures reply == GetReply(Dedup.Get(client.State(), req.key))
      ensures Valid() && req.key in client.refs ==>
        reply.code == NoError && Sha256String(sum256, reply.value) == client.refs[req.key].ref
    {
      var v := client.Get(req.key);
      reply := GetReply(v);
    }

    method Has(req: CommonRequest) returns (reply: CommonReply)
      ensures reply == HasReply(Dedup.HasRef(client.State(), req.key))
      ensures reply.code == NoError <==> req.key in client.refs
    {
      var has := client.Has(req.key);
      reply := HasReply(has);
    }

    method GetSize(req: CommonRequest) returns (reply: CommonReply)
      ensures reply == GetSizeReply(Dedup.GetSize(client.State(), req.key))
    {
      var n := client.GetSize(req.key);
      reply := GetSizeReply(n);
    }

    /**
     * Decodes the query, runs it, and sends one reply per entry. JSON
     * decoding and encoding (`decode`, `marshal`) and the stream's `Send`
     * (`send`) are parameters.
     */
    method Query(req: QueryRequest, decode: Bytes -> Result<Dedup.Query, string>,
                 marshal: Dedup.Entry -> Result<Bytes, string>, send: nat -> Option<string>)
      returns (sent: seq<QueryReply>, err: Option<string>)
      ensures decode(req.q).Err? ==> sent == [] && err == Some(decode(req.q).error)
      ensures decode(req.q).Ok? ==>
        var r := Dedup.QueryEntries(client.State(), decode(req.q).value);
        && (r.Err? ==> sent == [] && err == Some(r.error.Message()))
        && (r.Ok? ==> Relayed(r.value, marshal, send, sent, err))
    {
      sent := [];
      var q := decode(req.q);
      if q.Err? {
        return [], Some(q.error);
      }
      var items := client.Query(q.value);
      if items.Err? {
        return [], Some(items.error.Message());
      }
      var es := items.value;
      var i := 0;
      while i < |es|
        invariant 0 <= i <= |es| && |sent| == i
        invariant forall j :: 0 <= j < i ==>
          marshal(es[j]).Ok? && send(j).None? && sent[j] == QueryReply(NoError, "", marshal(es[j]).value)
      {
        var b := marshal(es[i]);
        if b.Err? {
          return sent, Some(b.error);
        }
        var e := send(i);
        if e.Some? {
          return sent, e;
        }
        sent := sent + [QueryReply(NoError, "", b.value)];
        i := i + 1;
      }
      err := None;
    }
  }
}
