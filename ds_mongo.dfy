/**
 * `DSMongo` of `ds-mongo/db.go`: the two MongoDB collections become two
 * map fields (and the natural order of `block_refs`), and each method
 * performs the source's read-modify-write steps on them. Every method is
 * proved to carry out the matching function of module `Dedup`.
 */
module DsMongo {
  import opened Basics
  import opened Dedup

  class DSMongo {
    /** The `blocks` collection, by `_id` (the content hash). */
    var blocks: map<string, StoreItem>
    /** The `block_refs` collection, by `_id` (the caller's key). */
    var refs: map<string, RefItem>
    /** The keys of `block_refs` in insertion order. */
    var order: seq<string>

    function State(): Tables
      reads this
    {
      Tables(blocks, refs, order)
    }

    /** A store over two empty collections. */
    constructor ()
      ensures State() == Empty && Valid(State())
    {
      blocks, refs, order := map[], map[], [];
    }

    /** `hasRef`: whether `block_refs` holds `id`, with "no documents" when it does not. */
    method HasRef(id: string) returns (r: Result<bool, DbError>)
      ensures r == Dedup.HasRef(State(), id)
      ensures r.Ok? <==> id in refs
    {
      if id in refs {
        r := Ok(true);
      } else {
        r := Err(ErrNoDocuments);
      }
    }

    /** `hasBlock`: whether `blocks` holds `id`. */
    method HasBlock(id: string) returns (r: Result<bool, DbError>)
      ensures r == Dedup.HasBlock(State(), id)
      ensures r.Ok? <==> id in blocks
    {
      if id in blocks {
        r := Ok(true);
      } else {
        r := Err(ErrNoDocuments);
      }
    }

    /**
     * Records `ref.id` as a reference to block `item.id`, unless the key
     * already has one. Never fails on in-memory collections.
     */
    method Put(item: StoreItem, ref: RefItem) returns (err: Option<DbError>)
      modifies this
      ensures State() == Dedup.Put(old(State()), item, ref)
      ensures err == None
      ensures old(Valid(State())) ==> Valid(State())
    {
      ghost var before := State();
      // An existing reference makes the call a no-op.
      var has := HasRef(ref.id);
      if has.Ok? {
        return None;
      }
      // Find the block's count: raise it by one, or insert the block with count 1.
      if item.id in blocks {
        var refCount := blocks[item.id].refCount;
        blocks := blocks[item.id := blocks[item.id].(refCount := refCount + 1)];
      } else {
        blocks := blocks[item.id := item.(refCount := 1)];
      }
      // Insert the reference with the size of the value.
      var saved := RefItem(ref.id, item.id, |item.value|);
      refs := refs[ref.id := saved];
      order := order + [ref.id];
      err := None;
      if Valid(before) {
        PutPreservesValid(before, item, ref);
      }
    }

    /**
     * Removes the reference of `id`, then lowers its block's count and
     * drops the block once the count falls below 1.
     */
    method Delete(id: string) returns (err: Option<DbError>)
      modifies this
      ensures (State(), err) == Dedup.Delete(old(State()), id)
      ensures old(Valid(State())) ==> Valid(State())
    {
      ghost var before := State();
      if id !in refs {
        return Some(ErrNoDocuments);
      }
      var blockId := refs[id].ref;
      refs := refs - {id};
      order := Without(order, id);
      if blockId !in blocks {
        return Some(ErrNoDocuments);
      }
      var rc := blocks[blockId].refCount - 1;
      if rc < 1 {
        blocks := blocks - {blockId};
      } else {
        blocks := blocks[blockId := blocks[blockId].(refCount := rc)];
      }
      err := None;
      if Valid(before) {
        DeletePreservesValid(before, id);
      }
    }

    /** The value of the block that `id`'s reference points at. */
    method Get(id: string) returns (r: Result<Bytes, DbError>)
      ensures r == Dedup.Get(State(), id)
      ensures Valid(State()) && id in refs ==> r == Ok(blocks[refs[id].ref].value)
      ensures id !in refs ==> r == Err(ErrNoDocuments)
    {
      if id !in refs {
        return Err(ErrNoDocuments);
      }
      var blockId := refs[id].ref;
      if blockId !in blocks {
        return Err(ErrNoDocuments);
      }
      r := Ok(blocks[blockId].value);
    }

    /** `Has` is `hasRef`. */
    method Has(id: string) returns (r: Result<bool, DbError>)
      ensures r == Dedup.HasRef(State(), id)
      ensures r.Ok? <==> id in refs
    {
      r := HasRef(id);
    }

    /** The size cached on `id`'s reference; `blocks` is not read. */
    method GetSize(id: string) returns (r: Result<int, DbError>)
      ensures r == Dedup.GetSize(State(), id)
      ensures id in refs ==> r == Ok(refs[id].size)
    {
      if id !in refs {
        return Err(ErrNoDocuments);
      }
      r := Ok(refs[id].size);
    }

    /**
     * Runs a query: refused with orders or filters; otherwise walks the
     * cursor over the matching references (after skip and limit) and emits
     * one entry per document, attaching the block's value unless keys-only.
     * A block that cannot be found ends the stream.
     */
    method Query(q: Dedup.Query) returns (r: Result<seq<Entry>, DbError>)
      ensures r == QueryEntries(State(), q)
    {
      if q.hasOrders || q.hasFilters {
        return Err(Failure(UnsupportedQuery));
      }
      var cur := Cursor(State(), q);
      ghost var all := Emit(blocks, cur, q.keysOnly);
      var out: seq<Entry> := [];
      var i := 0;
      while i < |cur|
        invariant 0 <= i <= |cur|
        invariant out + Emit(blocks, cur[i..], q.keysOnly) == all
      {
        var ref := cur[i];
        EmitFirst(blocks, cur[i..], q.keysOnly);
        var ent := Entry(ref.id, [], ref.size);
        if !q.keysOnly {
          if ref.ref !in blocks {
            assert Emit(blocks, cur[i..], q.keysOnly) == [];
            assert out == all;
            break;
          }
          ent := ent.(value := blocks[ref.ref].value);
        }
        assert cur[i..][1..] == cur[i + 1..];
        assert Emit(blocks, cur[i..], q.keysOnly) == [ent] + Emit(blocks, cur[i + 1..], q.keysOnly);
        out := out + [ent];
        i := i + 1;
      }
      assert i == |cur| ==> cur[i..] == [] && out == all;
      r := Ok(out);
    }
  }
}
