/**
 * What a datastore client observes: the store's result, mapped to a reply
 * by the server and read back by the client. The transport delivers each
 * reply (`Ok(reply)`) in these lemmas.
 */
module EndToEnd {
  import opened Basics
  import opened Wire
  import Dedup
  import MongoStore
  import DsRpc

  /** The datastore error a backend error arrives as. */
  function Arrives(e: Dedup.DbError): (r: DsRpc.DsError) {
    match e
    case ErrNoDocuments => DsRpc.NotFound
    case Failure(m) => DsRpc.Remote(m)
  }

  // ------------------------------------------- replies, read back

  lemma PutRoundTrip(err: Option<Dedup.DbError>)
    ensures DsRpc.Put(Ok(MongoStore.StatusReply(err))) ==
      match err
      case None => None
      case Some(e) => Some(DsRpc.Remote(e.Message()))
  {
  }

  lemma GetRoundTrip(res: Result<Bytes, Dedup.DbError>)
    ensures DsRpc.Get(Ok(MongoStore.GetReply(res))) ==
      match res
      case Ok(v) => Ok(v)
      case Err(e) => Err(Arrives(e))
  {
  }

  lemma HasRoundTrip(res: Result<bool, Dedup.DbError>)
    ensures DsRpc.Has(Ok(MongoStore.HasReply(res))) ==
      match res
      case Ok(b) => Ok(b)
      case Err(ErrNoDocuments) => Ok(false)
      case Err(Failure(m)) => Err(DsRpc.Remote(m))
  {
  }

  lemma GetSizeRoundTrip(res: Result<int, Dedup.DbError>)
    ensures DsRpc.GetSize(Ok(MongoStore.GetSizeReply(res))) ==
      match res
      case Ok(n) => DsRpc.SizeResult(n, None)
      case Err(e) => DsRpc.SizeResult(-1, Some(Arrives(e)))
  {
  }

  lemma DeleteRoundTrip(err: Option<Dedup.DbError>)
    ensures DsRpc.Delete(Ok(MongoStore.StatusReply(err))) ==
      match err
      case None => None
      case Some(ErrNoDocuments) => None
      case Some(Failure(m)) => Some(DsRpc.Remote(m))
  {
  }

  // ------------------------------------------- composed operations

  /** Deleting a key that has no reference succeeds at the client and changes nothing. */
  lemma DeleteAbsentSucceeds(t: Dedup.Tables, key: string)
    requires key !in t.refs
    ensures Dedup.Delete(t, key).0 == t
    ensures DsRpc.Delete(Ok(MongoStore.StatusReply(Dedup.Delete(t, key).1))) == None
  {
    Dedup.DeleteAbsentKey(t, key);
  }

  /** The client's `Has` is true exactly when the key has a reference, and never an error. */
  lemma HasAnswersPresence(t: Dedup.Tables, key: string)
    ensures DsRpc.Has(Ok(MongoStore.HasReply(Dedup.HasRef(t, key)))) == Ok(key in t.refs)
  {
  }

  /** After `Delete(k)`, whether `k` existed or not, the client's `Get(k)` is `NotFound`. */
  lemma GetAfterDeleteIsNotFound(t: Dedup.Tables, key: string)
    ensures DsRpc.Get(Ok(MongoStore.GetReply(Dedup.Get(Dedup.Delete(t, key).0, key)))) == Err(DsRpc.NotFound)
  {
    Dedup.GetAfterDelete(t, key);
  }

  /** The tables after the server handles `Put(req)`. */
  function ServePut(t: Dedup.Tables, sum256: Bytes -> MongoStore.Digest, req: CommonRequest): (r: Dedup.Tables) {
    Dedup.Put(t, MongoStore.NewItems(sum256, req).0, MongoStore.NewItems(sum256, req).1)
  }

  /**
   * After putting `v` under a new key, the client reads back a value with
   * the digest of `v`: `v` itself, or a value whose digest collides with it.
   */
  lemma GetAfterPut(t: Dedup.Tables, sum256: Bytes -> MongoStore.Digest, req: CommonRequest)
    requires Dedup.Valid(t) && MongoStore.ContentAddressed(t, sum256)
    requires req.key !in t.refs
    ensures var r := DsRpc.Get(Ok(MongoStore.GetReply(Dedup.Get(ServePut(t, sum256, req), req.key))));
      r.Ok? && sum256(r.value) == sum256(req.value)
  {
    var h := MongoStore.Sha256String(sum256, req.value);
    var t' := ServePut(t, sum256, req);
    Dedup.PutNewKey(t, MongoStore.NewItems(sum256, req).0, MongoStore.NewItems(sum256, req).1);
    var w := t'.blocks[h].value;
    assert Dedup.Get(t', req.key) == Ok(w);
    if h in t.blocks {
      assert h == MongoStore.Sha256String(sum256, w);
      MongoStore.BlockIdsAgreeIffDigestsAgree(sum256, w, req.value);
    }
  }

  /** With no other value sharing its digest, the client reads back exactly the value put. */
  lemma GetAfterPutCollisionFree(t: Dedup.Tables, sum256: Bytes -> MongoStore.Digest, req: CommonRequest)
    requires Dedup.Valid(t) && MongoStore.ContentAddressed(t, sum256)
    requires req.key !in t.refs
    requires forall w :: sum256(w) == sum256(req.value) ==> w == req.value
    ensures DsRpc.Get(Ok(MongoStore.GetReply(Dedup.Get(ServePut(t, sum256, req), req.key)))) == Ok(req.value)
  {
    GetAfterPut(t, sum256, req);
  }

  /** After putting under a new key, the client's `GetSize` is the length of the value. */
  lemma GetSizeAfterPut(t: Dedup.Tables, sum256: Bytes -> MongoStore.Digest, req: CommonRequest)
    requires req.key !in t.refs
    ensures DsRpc.GetSize(Ok(MongoStore.GetSizeReply(Dedup.GetSize(ServePut(t, sum256, req), req.key))))
            == DsRpc.SizeResult(|req.value|, None)
  {
    Dedup.PutNewKey(t, MongoStore.NewItems(sum256, req).0, MongoStore.NewItems(sum256, req).1);
  }

  /**
   * The same value under two new keys is stored once: one new block, with
   * the value and a count of 2, and both keys point at it.
   */
  lemma SameValueTwoKeysOneBlock(t: Dedup.Tables, sum256: Bytes -> MongoStore.Digest, v: Bytes, k1: string, k2: string)
    requires Dedup.Valid(t)
    requires k1 != k2 && k1 !in t.refs && k2 !in t.refs
    requires MongoStore.Sha256String(sum256, v) !in t.blocks
    ensures var h := MongoStore.Sha256String(sum256, v);
      var t2 := ServePut(ServePut(t, sum256, CommonRequest(k1, v)), sum256, CommonRequest(k2, v));
      && Dedup.Valid(t2)
      && t2.blocks.Keys == t.blocks.Keys + {h}
      && t2.blocks[h] == Dedup.StoreItem(h, v, 2)
      && t2.refs[k1].ref == h && t2.refs[k2].ref == h
  {
    var r1, r2 := CommonRequest(k1, v), CommonRequest(k2, v);
    var t1 := ServePut(t, sum256, r1);
    Dedup.PutPreservesValid(t, MongoStore.NewItems(sum256, r1).0, MongoStore.NewItems(sum256, r1).1);
    Dedup.PutNewKey(t, MongoStore.NewItems(sum256, r1).0, MongoStore.NewItems(sum256, r1).1);
    Dedup.PutPreservesValid(t1, MongoStore.NewItems(sum256, r2).0, MongoStore.NewItems(sum256, r2).1);
    Dedup.PutNewKey(t1, MongoStore.NewItems(sum256, r2).0, MongoStore.NewItems(sum256, r2).1);
  }

  /**
   * The walk-through: put `x` and then `y` with the same three bytes,
   * read them through the client, delete both, and the block is gone.
   */
  lemma Scenario(sum256: Bytes -> MongoStore.Digest)
    ensures var v: Bytes := [1, 2, 3];
      var h := MongoStore.Sha256String(sum256, v);
      var t1 := ServePut(Dedup.Empty, sum256, CommonRequest("x", v));
      var t2 := ServePut(t1, sum256, CommonRequest("y", v));
      var t3 := Dedup.Delete(t2, "x").0;
      var t4 := Dedup.Delete(t3, "y").0;
      && DsRpc.Get(Ok(MongoStore.GetReply(Dedup.Get(t1, "x")))) == Ok(v)
      && t2.blocks[h].refCount == 2
      && DsRpc.GetSize(Ok(MongoStore.GetSizeReply(Dedup.GetSize(t2, "y")))) == DsRpc.SizeResult(3, None)
      && t3.blocks[h].refCount == 1
      && DsRpc.Get(Ok(MongoStore.GetReply(Dedup.Get(t3, "y")))) == Ok(v)
      && h !in t4.blocks
      && DsRpc.Get(Ok(MongoStore.GetReply(Dedup.Get(t4, "y")))) == Err(DsRpc.NotFound)
  {
    var v: Bytes := [1, 2, 3];
    var h := MongoStore.Sha256String(sum256, v);
    var t1 := ServePut(Dedup.Empty, sum256, CommonRequest("x", v));
    var t2 := ServePut(t1, sum256, CommonRequest("y", v));
    assert t2.refs["x"].ref == h && t2.refs["y"].ref == h;
    var t3 := Dedup.Delete(t2, "x").0;
    assert t3.refs == map["y" := t2.refs["y"]];
  }

  /**
   * References `a/1`, `a/2`, `a/3`, `b/1` put in that order: a query for
   * prefix `a/` with limit 2 yields `a/1` and `a/2`.
   */
  lemma PrefixLimitExample(sum256: Bytes -> MongoStore.Digest, v1: Bytes, v2: Bytes, v3: Bytes, v4: Bytes)
    ensures var t := ServePut(ServePut(ServePut(ServePut(Dedup.Empty,
               sum256, CommonRequest("a/1", v1)), sum256, CommonRequest("a/2", v2)),
               sum256, CommonRequest("a/3", v3)), sum256, CommonRequest("b/1", v4));
      var r := Dedup.QueryEntries(t, Dedup.Query("a/", false, false, 0, 2, true));
      r.Ok? && |r.value| == 2 && r.value[0].key == "a/1" && r.value[1].key == "a/2"
  {
    var t1 := ServePut(Dedup.Empty, sum256, CommonRequest("a/1", v1));
    var t2 := ServePut(t1, sum256, CommonRequest("a/2", v2));
    var t3 := ServePut(t2, sum256, CommonRequest("a/3", v3));
    var t := ServePut(t3, sum256, CommonRequest("b/1", v4));
    assert t1.order == ["a/1"] && "a/1" in t1.refs;
    assert t2.order == ["a/1", "a/2"] && "a/1" in t2.refs && "a/2" in t2.refs;
    assert t3.order == ["a/1", "a/2", "a/3"] && "a/1" in t3.refs && "a/2" in t3.refs && "a/3" in t3.refs;
    assert t.order == ["a/1", "a/2", "a/3", "b/1"];
    assert "a/1" in t.refs && "a/2" in t.refs && "a/3" in t.refs;
    var q := Dedup.Query("a/", false, false, 0, 2, true);
    MatchingExample(t.refs);
    Dedup.CursorDocs(t, q);
    Dedup.EmitEntries(t.blocks, Dedup.Cursor(t, q), true);
  }

  lemma MatchingExample(refs: map<string, Dedup.RefItem>)
    requires "a/1" in refs && "a/2" in refs && "a/3" in refs
    ensures Dedup.MatchingKeys(["a/1", "a/2", "a/3", "b/1"], refs, "a/") == ["a/1", "a/2", "a/3"]
  {
    var order := ["a/1", "a/2", "a/3", "b/1"];
    assert !Dedup.PrefixMatch("a/", "b/1") by {
      assert Dedup.Lower("a/"[0]) != Dedup.Lower("b/1"[0]);
    }
    assert Dedup.PrefixMatch("a/", "a/1") && Dedup.PrefixMatch("a/", "a/2") && Dedup.PrefixMatch("a/", "a/3");
    assert order[3..] == ["b/1"] && order[3..][1..] == [];
    assert Dedup.MatchingKeys(order[3..], refs, "a/") == [];
    assert order[2..][1..] == order[3..];
    assert Dedup.MatchingKeys(order[2..], refs, "a/") == ["a/3"];
    assert order[1..][1..] == order[2..];
    assert Dedup.MatchingKeys(order[1..], refs, "a/") == ["a/2", "a/3"];
  }

  // ------------------------------------------------------- query stream

  /** The `Res` payloads of the replies the server sent. */
  function Payloads(sent: seq<QueryReply>): (ps: seq<Bytes>)
    ensures |ps| == |sent| && forall i :: 0 <= i < |sent| ==> ps[i] == sent[i].res
  {
    seq(|sent|, i requires 0 <= i < |sent| => sent[i].res)
  }

  /**
   * A query relayed in full by the server, read back by the client with
   * `nextValue` until it stops: when decoding undoes encoding, the client
   * gets every entry in order, and then the stream's end error.
   */
  method ClientReadsRelayedEntries(es: seq<Dedup.Entry>, marshal: Dedup.Entry -> Result<Bytes, string>,
                                   send: nat -> Option<string>, sent: seq<QueryReply>,
                                   decode: Bytes -> Result<Dedup.Entry, string>, end: string)
    returns (got: seq<Dedup.Entry>, last: DsRpc.QueryResult)
    requires MongoStore.Relayed(es, marshal, send, sent, None)
    requires forall e :: marshal(e).Ok? ==> decode(marshal(e).value) == Ok(e)
    ensures got == es
    ensures last == DsRpc.QueryResult(DsRpc.NoEntry, Some(end))
  {
    var ps := Payloads(sent);
    var s := new DsRpc.QueryStream(ps, end);
    got, last := [], DsRpc.QueryResult(DsRpc.NoEntry, None);
    var i := 0;
    while true
      invariant 0 <= i <= |es| == |ps|
      invariant got == es[..i]
      invariant s.pending == ps[i..] && s.end == end
      decreases |es| - i
    {
      var res, more := DsRpc.NextValue(s, decode);
      if !more {
        assert i == |es|;
        assert es[..i] == es;
        last := res;
        break;
      }
      assert i < |es| && ps[i] == marshal(es[i]).value;
      assert ps[i..][1..] == ps[i + 1..];
      assert es[..i + 1] == es[..i] + [es[i]];
      got := got + [res.entry];
      i := i + 1;
    }
  }
}
