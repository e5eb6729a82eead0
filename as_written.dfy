/**
 * Two places where `ds-mongo/db.go` does not do what the rest of the code
 * and its design evidently intend, modelled as written. The rest of the
 * model uses the intended behaviour (`Dedup.Put`, `Dedup.QueryEntries`).
 */
module AsWritten {
  import opened Basics
  import opened Wire
  import Dedup
  import MongoStore
  import DsRpc

  /** The driver's refusal of an update document whose keys do not start with `$`. */
  const NonDollarKey := "update document must contain key beginning with '$'"

  /**
   * `DSMongo.Put` as written: the count update for an existing block is
   * sent without `$set`, which the driver refuses, so the call fails after
   * the lookup and nothing is written.
   */
  function PutAsWritten(t: Dedup.Tables, item: Dedup.StoreItem, ref: Dedup.RefItem): (r: (Dedup.Tables, Option<Dedup.DbError>)) {
    if ref.id in t.refs then (t, None)
    else if item.id in t.blocks then (t, Some(Dedup.Failure(NonDollarKey)))
    else (Dedup.Put(t, item, ref), None)
  }

  /**
   * As written, a value already stored is never shared: putting it under a
   * new key leaves the tables unchanged and the client's `Put` fails, where
   * the intended `Put` succeeds and raises the block's count by one.
   */
  lemma PutAsWrittenRefusesSharedValue(t: Dedup.Tables, sum256: Bytes -> MongoStore.Digest, req: CommonRequest)
    requires Dedup.Valid(t)
    requires req.key !in t.refs
    requires MongoStore.Sha256String(sum256, req.value) in t.blocks
    ensures var (item, ref) := MongoStore.NewItems(sum256, req);
      var (t', err) := PutAsWritten(t, item, ref);
      && t' == t
      && DsRpc.Put(Ok(MongoStore.StatusReply(err))) == Some(DsRpc.Remote(NonDollarKey))
      && req.key !in t'.refs
    ensures var (item, ref) := MongoStore.NewItems(sum256, req);
      var t' := Dedup.Put(t, item, ref);
      && DsRpc.Put(Ok(MongoStore.StatusReply(None))) == None
      && t'.refs[req.key].ref == item.id
      && t'.blocks[item.id].refCount == t.blocks[item.id].refCount + 1
  {
    var (item, ref) := MongoStore.NewItems(sum256, req);
    Dedup.PutNewKey(t, item, ref);
  }

  /** How the query goroutine's channel ends, with the entries the relay received. */
  datatype Stream = Completes(delivered: seq<Dedup.Entry>)  // closed once, after the entries
                  | Hangs(delivered: seq<Dedup.Entry>)      // never closed: the relay loop waits forever
                  | Panics(delivered: seq<Dedup.Entry>)     // a send on the closed channel

  /**
   * The query goroutine's loop over the cursor's documents `docs`, with
   * `delivered` sent so far and `closed` telling whether `out` is closed.
   * Each iteration breaks (no more documents, or a block that cannot be
   * found) or builds the entry and sends it, which panics on a closed
   * channel. With `closeInLoop`, as written, `close(out)` ends every
   * iteration that does not break; otherwise `out` is closed once after
   * the loop.
   */
  function Goroutine(blocks: map<string, Dedup.StoreItem>, docs: seq<Dedup.RefItem>, keysOnly: bool,
                     closeInLoop: bool, delivered: seq<Dedup.Entry>, closed: bool): (r: Stream)
    decreases |docs|
  {
    if docs == [] || (!keysOnly && docs[0].ref !in blocks) then
      if !closeInLoop || closed then Completes(delivered) else Hangs(delivered)
    else if closed then Panics(delivered)
    else
      var ent := Dedup.Entry(docs[0].id, if keysOnly then [] else blocks[docs[0].ref].value, docs[0].size);
      Goroutine(blocks, docs[1..], keysOnly, closeInLoop, delivered + [ent], closeInLoop)
  }

  /**
   * As written, a query whose loop sends nothing never closes its channel,
   * a query with exactly one entry to send completes, and one with two or
   * more delivers only the first before the second send panics.
   */
  lemma ChannelAsWrittenLosesEntries(blocks: map<string, Dedup.StoreItem>, docs: seq<Dedup.RefItem>, keysOnly: bool)
    ensures var es := Dedup.Emit(blocks, docs, keysOnly);
      var r := Goroutine(blocks, docs, keysOnly, true, [], false);
      && (|es| == 0 ==> r == Hangs([]))
      && (|es| == 1 ==> r == Completes(es))
      && (|es| >= 2 ==> r == Panics([es[0]]))
  {
    if docs != [] {
      Dedup.EmitFirst(blocks, docs, keysOnly);
      if |docs| > 1 {
        Dedup.EmitFirst(blocks, docs[1..], keysOnly);
      }
    }
  }

  /**
   * With the channel closed once after the loop, every entry `Emit` yields
   * is delivered, in order, and the channel is closed.
   */
  lemma {:induction false} ChannelClosedOnceDeliversAll(blocks: map<string, Dedup.StoreItem>, docs: seq<Dedup.RefItem>,
                                                         keysOnly: bool, delivered: seq<Dedup.Entry>)
    ensures Goroutine(blocks, docs, keysOnly, false, delivered, false) == Completes(delivered + Dedup.Emit(blocks, docs, keysOnly))
    decreases |docs|
  {
    if docs == [] || (!keysOnly && docs[0].ref !in blocks) {
      assert delivered + [] == delivered;
    } else {
      var ent := Dedup.Entry(docs[0].id, if keysOnly then [] else blocks[docs[0].ref].value, docs[0].size);
      Dedup.EmitFirst(blocks, docs, keysOnly);
      ChannelClosedOnceDeliversAll(blocks, docs[1..], keysOnly, delivered + [ent]);
      assert delivered + [ent] + Dedup.Emit(blocks, docs[1..], keysOnly)
          == delivered + ([ent] + Dedup.Emit(blocks, docs[1..], keysOnly));
    }
  }

  /** The corrected goroutine delivers exactly the query's result and then ends it. */
  lemma CorrectedChannelDeliversQuery(t: Dedup.Tables, q: Dedup.Query)
    requires !q.hasOrders && !q.hasFilters
    ensures Goroutine(t.blocks, Dedup.Cursor(t, q), q.keysOnly, false, [], false)
            == Completes(Dedup.QueryEntries(t, q).value)
  {
    ChannelClosedOnceDeliversAll(t.blocks, Dedup.Cursor(t, q), q.keysOnly, []);
    assert [] + Dedup.Emit(t.blocks, Dedup.Cursor(t, q), q.keysOnly) == Dedup.Emit(t.blocks, Dedup.Cursor(t, q), q.keysOnly);
  }
}
