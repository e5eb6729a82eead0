/**
 * The deduplicating, reference-counted store of `ds-mongo/db.go` as a pure
 * model: the `blocks` and `block_refs` collections are two maps, and each
 * operation is a function from the old tables to the new ones. The class
 * `DsMongo.DSMongo` carries out these functions step by step.
 */
module Dedup {
  import opened Basics

  /** A document of `blocks`: a payload stored once, under its content hash. */
  datatype StoreItem = StoreItem(id: string, value: Bytes, refCount: int)

  /** A document of `block_refs`: a caller key, the block it names and the payload size. */
  datatype RefItem = RefItem(id: string, ref: string, size: int)

  /** A backend error: a lookup that matched nothing, or any other failure. */
  datatype DbError = ErrNoDocuments | Failure(msg: string) {
    /** `err.Error()`. */
    function Message(): (m: string) {
      match this
      case ErrNoDocuments => "mongo: no documents in result"
      case Failure(msg) => msg
    }
  }

  const UnsupportedQuery := "dsrpc currently not support orders or filters"

  /**
   * Both collections. `order` is the natural order of `block_refs`, in
   * which a cursor over it yields documents: the order of insertion.
   */
  datatype Tables = Tables(blocks: map<string, StoreItem>, refs: map<string, RefItem>, order: seq<string>)

  const Empty := Tables(map[], map[], [])

  /** The keys whose reference points at block `h`. */
  function RefsTo(refs: map<string, RefItem>, h: string): (ks: set<string>) {
    set k | k in refs && refs[k].ref == h
  }

  ghost predicate Distinct(s: seq<string>) {
    forall i, j :: 0 <= i < j < |s| ==> s[i] != s[j]
  }

  /**
   * The store's invariant: every document sits under its own id, every
   * block's count is the number of references to it and at least one,
   * every reference names an existing block, and the natural order lists
   * each reference exactly once.
   */
  ghost predicate Valid(t: Tables) {
    && IdsAgree(t)
    && CountsExact(t.blocks, t.refs)
    && RefsResolve(t.blocks, t.refs)
    && ListsKeys(t.order, t.refs)
  }

  ghost predicate IdsAgree(t: Tables) {
    && (forall h :: h in t.blocks ==> t.blocks[h].id == h)
    && (forall k :: k in t.refs ==> t.refs[k].id == k)
  }

  ghost predicate CountsExact(blocks: map<string, StoreItem>, refs: map<string, RefItem>) {
    forall h :: h in blocks ==> blocks[h].refCount == |RefsTo(refs, h)| && blocks[h].refCount >= 1
  }

  ghost predicate RefsResolve(blocks: map<string, StoreItem>, refs: map<string, RefItem>) {
    forall k :: k in refs ==> refs[k].ref in blocks
  }

  ghost predicate ListsKeys(order: seq<string>, refs: map<string, RefItem>) {
    Distinct(order) && forall k :: k in refs <==> k in order
  }

  /** `s` without the occurrences of `k`. */
  function Without(s: seq<string>, k: string): (r: seq<string>)
    ensures forall x :: x in r <==> x in s && x != k
  {
    if s == [] then []
    else Without(s[..|s| - 1], k) + (if s[|s| - 1] == k then [] else [s[|s| - 1]])
  }

  // ---------------------------------------------------------------- Put

  /**
   * `DSMongo.Put(item, ref)`: nothing happens when `ref.id` already has a
   * reference; otherwise the block `item.id` gains one reference (or is
   * created with count 1) and the reference is recorded with the size of
   * `item.value`.
   */
  function Put(t: Tables, item: StoreItem, ref: RefItem): (r: Tables) {
    if ref.id in t.refs then t
    else
      var block :=
        if item.id in t.blocks then t.blocks[item.id].(refCount := t.blocks[item.id].refCount + 1)
        else item.(refCount := 1);
      Tables(t.blocks[item.id := block],
             t.refs[ref.id := RefItem(ref.id, item.id, |item.value|)],
             t.order + [ref.id])
  }

  // ------------------------------------------------------------- Delete

  /**
   * `DSMongo.Delete(id)`: the new tables and the error returned. The
   * reference is removed before its block is looked up, so a missing block
   * leaves the reference deleted and reports "no documents".
   */
  function Delete(t: Tables, id: string): (r: (Tables, Option<DbError>)) {
    if id !in t.refs then (t, Some(ErrNoDocuments))
    else
      var blockId := t.refs[id].ref;
      var refs := t.refs - {id};
      var order := Without(t.order, id);
      if blockId !in t.blocks then (Tables(t.blocks, refs, order), Some(ErrNoDocuments))
      else
        var rc := t.blocks[blockId].refCount - 1;
        if rc < 1 then (Tables(t.blocks - {blockId}, refs, order), None)
        else (Tables(t.blocks[blockId := t.blocks[blockId].(refCount := rc)], refs, order), None)
  }

  // ------------------------------------------------------------ lookups

  /** `DSMongo.Get(id)`: the value of the block the reference points at. */
  function Get(t: Tables, id: string): (r: Result<Bytes, DbError>) {
    if id !in t.refs then Err(ErrNoDocuments)
    else if t.refs[id].ref !in t.blocks then Err(ErrNoDocuments)
    else Ok(t.blocks[t.refs[id].ref].value)
  }

  /** `DSMongo.hasRef(id)`, which `Has` returns: `(true, nil)` or `(false, ErrNoDocuments)`. */
  function HasRef(t: Tables, id: string): (r: Result<bool, DbError>) {
    if id in t.refs then Ok(true) else Err(ErrNoDocuments)
  }

  /** `DSMongo.hasBlock(id)`. */
  function HasBlock(t: Tables, id: string): (r: Result<bool, DbError>) {
    if id in t.blocks then Ok(true) else Err(ErrNoDocuments)
  }

  /** `DSMongo.GetSize(id)`: the size cached on the reference. */
  function GetSize(t: Tables, id: string): (r: Result<int, DbError>) {
    if id in t.refs then Ok(t.refs[id].size) else Err(ErrNoDocuments)
  }

  // -------------------------------------------------------------- Query

  /** The fields of a `dsq.Query` that the store reads. */
  datatype Query = Query(prefix: string, hasOrders: bool, hasFilters: bool,
                         offset: int, limit: int, keysOnly: bool)

  /** A `dsq.Entry`; `value` stays empty for a keys-only query. */
  datatype Entry = Entry(key: string, value: Bytes, size: int)

  function Lower(c: char): (l: char) {
    if 'A' <= c <= 'Z' then (c as int - 'A' as int + 'a' as int) as char else c
  }

  /** The key starts with `prefix`, ignoring the case of ASCII letters. */
  predicate PrefixMatch(prefix: string, key: string) {
    |prefix| <= |key| && forall i :: 0 <= i < |prefix| ==> Lower(prefix[i]) == Lower(key[i])
  }

  /** The keys of `order` that have a reference matching `prefix`, in order. */
  function MatchingKeys(order: seq<string>, refs: map<string, RefItem>, prefix: string): (r: seq<string>)
    ensures |r| <= |order|
    ensures forall i :: 0 <= i < |r| ==> r[i] in refs && PrefixMatch(prefix, r[i])
    ensures forall k :: k in r <==> k in order && k in refs && PrefixMatch(prefix, k)
  {
    if order == [] then []
    else
      var rest := MatchingKeys(order[1..], refs, prefix);
      if order[0] in refs && PrefixMatch(prefix, order[0]) then [order[0]] + rest else rest
  }

  /** Skip `offset` elements when it is positive, then keep at most `limit` when it is positive. */
  function Window<T>(s: seq<T>, offset: int, limit: int): (r: seq<T>)
    ensures var start := if offset > 0 then Min(offset, |s|) else 0;
            && |r| == (if limit > 0 then Min(limit, |s| - start) else |s| - start)
            && forall i :: 0 <= i < |r| ==> r[i] == s[start + i]
  {
    var rest := if offset > 0 then (if offset <= |s| then s[offset..] else []) else s;
    if limit > 0 && limit < |rest| then rest[..limit] else rest
  }

  function Min(a: int, b: int): (m: int) { if a <= b then a else b }

  /** The documents the `Find` cursor yields: matching references, then skip and limit. */
  function Cursor(t: Tables, q: Query): (docs: seq<RefItem>)
  {
    var keys := Window(MatchingKeys(t.order, t.refs, q.prefix), q.offset, q.limit);
    seq(|keys|, i requires 0 <= i < |keys| => t.refs[keys[i]])
  }

  /**
   * The entries emitted for the cursor's documents: key and size from the
   * reference, and, unless keys-only, the value of its block. The stream
   * ends silently at the first block that cannot be found.
   */
  function Emit(blocks: map<string, StoreItem>, docs: seq<RefItem>, keysOnly: bool): (es: seq<Entry>)
  {
    if docs == [] then []
    else if !keysOnly && docs[0].ref !in blocks then []
    else
      var value := if keysOnly then [] else blocks[docs[0].ref].value;
      [Entry(docs[0].id, value, docs[0].size)] + Emit(blocks, docs[1..], keysOnly)
  }

  /** The cursor holds, in order, the references of the window of matching keys. */
  lemma CursorDocs(t: Tables, q: Query)
    ensures var keys := Window(MatchingKeys(t.order, t.refs, q.prefix), q.offset, q.limit);
      && |Cursor(t, q)| == |keys|
      && forall i :: 0 <= i < |keys| ==> keys[i] in t.refs && Cursor(t, q)[i] == t.refs[keys[i]]
  {
  }

  /**
   * The emitted entries follow the documents one for one, carrying key and
   * size from the reference and, unless keys-only, the block's value; they
   * stop short only at a document whose block is missing.
   */
  lemma {:induction false} EmitEntries(blocks: map<string, StoreItem>, docs: seq<RefItem>, keysOnly: bool)
    ensures var es := Emit(blocks, docs, keysOnly);
      && |es| <= |docs|
      && (forall i :: 0 <= i < |es| ==>
            && es[i].key == docs[i].id && es[i].size == docs[i].size
            && (if keysOnly then es[i].value == []
                else docs[i].ref in blocks && es[i].value == blocks[docs[i].ref].value))
      && (|es| < |docs| ==> !keysOnly && docs[|es|].ref !in blocks)
  {
    if docs != [] && (keysOnly || docs[0].ref in blocks) {
      EmitEntries(blocks, docs[1..], keysOnly);
    }
  }

  /** One step of `Emit`: the first document decides whether the stream goes on. */
  lemma EmitFirst(blocks: map<string, StoreItem>, docs: seq<RefItem>, keysOnly: bool)
    requires docs != []
    ensures Emit(blocks, docs, keysOnly) ==
      if !keysOnly && docs[0].ref !in blocks then []
      else [Entry(docs[0].id, if keysOnly then [] else blocks[docs[0].ref].value, docs[0].size)]
           + Emit(blocks, docs[1..], keysOnly)
  {
  }

  /** `DSMongo.Query(q)`: refused with orders or filters, otherwise the emitted entries. */
  function QueryEntries(t: Tables, q: Query): (r: Result<seq<Entry>, DbError>)
    ensures r.Err? <==> q.hasOrders || q.hasFilters
    ensures r.Err? ==> r.error == Failure(UnsupportedQuery)
  {
    if q.hasOrders || q.hasFilters then Err(Failure(UnsupportedQuery))
    else Ok(Emit(t.blocks, Cursor(t, q), q.keysOnly))
  }

  // ============================================================ lemmas

  lemma RefsToInsert(refs: map<string, RefItem>, k: string, r: RefItem, h: string)
    requires k !in refs
    ensures RefsTo(refs[k := r], h) == if r.ref == h then RefsTo(refs, h) + {k} else RefsTo(refs, h)
  {
  }

  lemma RefsToRemove(refs: map<string, RefItem>, k: string, h: string)
    ensures RefsTo(refs - {k}, h) == RefsTo(refs, h) - {k}
  {
  }

  lemma {:induction false} WithoutDistinct(s: seq<string>, k: string)
    requires Distinct(s)
    ensures Distinct(Without(s, k))
  {
    if s != [] {
      var init, last := s[..|s| - 1], s[|s| - 1];
      assert Distinct(init);
      WithoutDistinct(init, k);
      assert last !in init by {
        forall i | 0 <= i < |init| ensures init[i] != last {
          assert init[i] == s[i];
        }
      }
    }
  }

  lemma {:induction false} WithoutAbsent(s: seq<string>, k: string)
    requires k !in s
    ensures Without(s, k) == s
  {
    if s != [] {
      WithoutAbsent(s[..|s| - 1], k);
      assert s[..|s| - 1] + [s[|s| - 1]] == s;
    }
  }

  /** `Without` filters element by element: it distributes over concatenation. */
  lemma {:induction false} WithoutConcat(a: seq<string>, b: seq<string>, k: string)
    ensures Without(a + b, k) == Without(a, k) + Without(b, k)
    decreases |b|
  {
    if b == [] {
      assert a + b == a;
    } else {
      var b' := b[..|b| - 1];
      var tail := if b[|b| - 1] == k then [] else [b[|b| - 1]];
      assert (a + b)[..|a + b| - 1] == a + b';
      assert (a + b)[|a + b| - 1] == b[|b| - 1];
      WithoutConcat(a, b', k);
      assert Without(a + b, k) == Without(a, k) + Without(b', k) + tail;
    }
  }

  /** Removing the one occurrence of `k` from a list without repeats keeps the others in order. */
  lemma WithoutRemovesOne(s: seq<string>, k: string, j: int)
    requires 0 <= j < |s| && s[j] == k
    requires k !in s[..j] && k !in s[j + 1..]
    ensures Without(s, k) == s[..j] + s[j + 1..]
  {
    var a, b := s[..j], s[j + 1..];
    assert s == (a + [k]) + b;
    WithoutConcat(a + [k], b, k);
    assert Without(a + [k], k) == Without(a, k) by {
      assert (a + [k])[..|a + [k]| - 1] == a;
    }
    WithoutAbsent(a, k);
    WithoutAbsent(b, k);
  }

  lemma WithoutRemovesAt(s: seq<string>, k: string)
    requires Distinct(s)
    ensures forall j :: 0 <= j < |s| && s[j] == k ==> Without(s, k) == s[..j] + s[j + 1..]
  {
    forall j | 0 <= j < |s| && s[j] == k ensures Without(s, k) == s[..j] + s[j + 1..] {
      assert k !in s[..j] && k !in s[j + 1..];
      WithoutRemovesOne(s, k, j);
    }
  }

  lemma WithoutAppended(s: seq<string>, k: string)
    requires k !in s
    ensures Without(s + [k], k) == s
  {
    assert (s + [k])[..|s|] == s;
    WithoutAbsent(s, k);
  }

  /** A `Put` for a key that already has a reference changes nothing. */
  lemma PutExistingKeyIsNoop(t: Tables, item: StoreItem, ref: RefItem)
    requires ref.id in t.refs
    ensures Put(t, item, ref) == t
  {
  }

  /**
   * A `Put` for a new key records the reference `{ref.id -> item.id,
   * |item.value|}`. An unseen hash gets the block `item` with count 1; an
   * existing block keeps its value and gains exactly one reference. No other
   * key or block changes.
   */
  lemma PutNewKey(t: Tables, item: StoreItem, ref: RefItem)
    requires ref.id !in t.refs
    ensures var t' := Put(t, item, ref);
      && t'.refs.Keys == t.refs.Keys + {ref.id}
      && t'.refs[ref.id] == RefItem(ref.id, item.id, |item.value|)
      && t'.order == t.order + [ref.id]
      && (forall k :: k in t.refs ==> t'.refs[k] == t.refs[k])
      && t'.blocks.Keys == t.blocks.Keys + {item.id}
      && (item.id !in t.blocks ==> t'.blocks[item.id] == StoreItem(item.id, item.value, 1))
      && (item.id in t.blocks ==>
            && t'.blocks[item.id].value == t.blocks[item.id].value
            && t'.blocks[item.id].refCount == t.blocks[item.id].refCount + 1)
      && (forall h :: h in t.blocks && h != item.id ==> t'.blocks[h] == t.blocks[h])
  {
  }

  /** `Put` keeps the invariant. */
  lemma PutPreservesValid(t: Tables, item: StoreItem, ref: RefItem)
    requires Valid(t)
    ensures Valid(Put(t, item, ref))
  {
    if ref.id !in t.refs {
      PutKeepsCounts(t.blocks, t.refs, item, ref);
      assert ref.id !in t.order;
      AppendDistinct(t.order, ref.id);
    }
  }

  /** The reference-count half of `PutPreservesValid`. */
  lemma PutKeepsCounts(blocks: map<string, StoreItem>, refs: map<string, RefItem>, item: StoreItem, ref: RefItem)
    requires CountsExact(blocks, refs) && RefsResolve(blocks, refs)
    requires ref.id !in refs
    ensures var block := if item.id in blocks then blocks[item.id].(refCount := blocks[item.id].refCount + 1)
                         else item.(refCount := 1);
      CountsExact(blocks[item.id := block], refs[ref.id := RefItem(ref.id, item.id, |item.value|)])
  {
    var r := RefItem(ref.id, item.id, |item.value|);
    if item.id !in blocks {
      assert forall k :: k in refs ==> refs[k].ref != item.id;
      assert RefsTo(refs, item.id) == {};
    }
    forall h {
      RefsToInsert(refs, ref.id, r, h);
    }
  }

  lemma AppendDistinct(s: seq<string>, k: string)
    requires Distinct(s) && k !in s
    ensures Distinct(s + [k])
  {
    forall i, j | 0 <= i < j < |s + [k]| ensures (s + [k])[i] != (s + [k])[j] {
      if j == |s| {
        assert (s + [k])[i] == s[i];
      }
    }
  }

  /** Deleting a key that has no reference reports "no documents" and changes nothing. */
  lemma DeleteAbsentKey(t: Tables, id: string)
    requires id !in t.refs
    ensures Delete(t, id) == (t, Some(ErrNoDocuments))
  {
  }

  /**
   * Deleting a key with a reference removes it. Its block is removed when
   * the decremented count falls below 1 and otherwise keeps its value with
   * the decremented count. No other key or block changes.
   */
  lemma DeleteExistingKey(t: Tables, id: string)
    requires Valid(t)
    requires id in t.refs
    ensures var (t', err) := Delete(t, id);
      var h := t.refs[id].ref;
      var rc := t.blocks[h].refCount - 1;
      && err == None
      && t'.refs == t.refs - {id}
      && id !in t'.order
      && (forall j :: 0 <= j < |t.order| && t.order[j] == id ==> t'.order == t.order[..j] + t.order[j + 1..])
      && (rc < 1 ==> h !in t'.blocks)
      && (rc >= 1 ==> h in t'.blocks && t'.blocks[h] == t.blocks[h].(refCount := rc))
      && (forall b :: b in t.blocks && b != h ==> b in t'.blocks && t'.blocks[b] == t.blocks[b])
      && t'.blocks.Keys <= t.blocks.Keys
  {
    WithoutRemovesAt(t.order, id);
  }

  /** `Delete` keeps the invariant. */
  lemma DeletePreservesValid(t: Tables, id: string)
    requires Valid(t)
    ensures Valid(Delete(t, id).0)
  {
    if id in t.refs {
      WithoutDistinct(t.order, id);
      DeleteKeepsCounts(t.blocks, t.refs, id);
    }
  }

  /** The reference-count half of `DeletePreservesValid`. */
  lemma DeleteKeepsCounts(blocks: map<string, StoreItem>, refs: map<string, RefItem>, id: string)
    requires CountsExact(blocks, refs) && RefsResolve(blocks, refs)
    requires id in refs
    ensures var h := refs[id].ref;
      var rc := blocks[h].refCount - 1;
      var blocks' := if rc < 1 then blocks - {h} else blocks[h := blocks[h].(refCount := rc)];
      CountsExact(blocks', refs - {id}) && RefsResolve(blocks', refs - {id})
  {
    var h := refs[id].ref;
    var rc := blocks[h].refCount - 1;
    var blocks' := if rc < 1 then blocks - {h} else blocks[h := blocks[h].(refCount := rc)];
    var refs' := refs - {id};
    assert id in RefsTo(refs, h);
    forall b ensures RefsTo(refs', b) == RefsTo(refs, b) - {id} {
      RefsToRemove(refs, id, b);
    }
    assert |RefsTo(refs', h)| == rc;
    if rc < 1 {
      assert RefsTo(refs', h) == {};
      forall k | k in refs' ensures refs'[k].ref in blocks' {
        assert k !in RefsTo(refs', h);
      }
    }
    forall b | b in blocks' ensures blocks'[b].refCount == |RefsTo(refs', b)| && blocks'[b].refCount >= 1 {
      if b != h {
        assert id !in RefsTo(refs, b);
      }
    }
  }

  /** Putting a fresh key and deleting it again restores the tables, natural order included. */
  lemma PutThenDeleteRestores(t: Tables, item: StoreItem, ref: RefItem)
    requires Valid(t)
    requires ref.id !in t.refs
    ensures Delete(Put(t, item, ref), ref.id) == (t, None)
  {
    assert ref.id !in t.order;
    assert item.id in t.blocks ==> t.blocks[item.id].refCount >= 1;
    PutThenDeleteTables(t, item, ref);
  }

  lemma PutThenDeleteTables(t: Tables, item: StoreItem, ref: RefItem)
    requires ref.id !in t.refs && ref.id !in t.order
    requires item.id in t.blocks ==> t.blocks[item.id].refCount >= 1
    ensures Delete(Put(t, item, ref), ref.id) == (t, None)
  {
    var t' := Put(t, item, ref);
    WithoutAppended(t.order, ref.id);
    assert t'.refs[ref.id].ref == item.id;
    assert t'.refs - {ref.id} == t.refs;
    if item.id in t.blocks {
      var b := t.blocks[item.id];
      assert t'.blocks[item.id] == b.(refCount := b.refCount + 1);
      assert t'.blocks[item.id := b] == t.blocks;
    } else {
      assert t'.blocks[item.id].refCount == 1;
      assert t'.blocks - {item.id} == t.blocks;
    }
  }

  /** `Get` answers with the value of the referenced block; without a reference, "no documents". */
  lemma GetResolvesReference(t: Tables, id: string)
    requires Valid(t)
    ensures id in t.refs ==> Get(t, id) == Ok(t.blocks[t.refs[id].ref].value)
    ensures id !in t.refs ==> Get(t, id) == Err(ErrNoDocuments)
  {
  }

  /** `Has` succeeds, with `true`, exactly when the key has a reference. */
  lemma HasIffReference(t: Tables, id: string)
    ensures HasRef(t, id).Ok? <==> id in t.refs
    ensures HasRef(t, id).Ok? ==> HasRef(t, id).value
  {
  }

  /** `GetSize` reads only the reference: it does not depend on `blocks`. */
  lemma GetSizeIgnoresBlocks(t: Tables, blocks: map<string, StoreItem>, id: string)
    ensures GetSize(t, id) == GetSize(t.(blocks := blocks), id)
    ensures id in t.refs <==> GetSize(t, id).Ok?
    ensures id in t.refs ==> GetSize(t, id) == Ok(t.refs[id].size)
    ensures id !in t.refs ==> GetSize(t, id) == Err(ErrNoDocuments)
  {
  }

  /** `Get` after `Delete` of the same key finds nothing, whether the key existed or not. */
  lemma GetAfterDelete(t: Tables, id: string)
    ensures Get(Delete(t, id).0, id) == Err(ErrNoDocuments)
  {
  }

  /** Whatever the tables, the matching keys of `a + b` are those of `a` followed by those of `b`. */
  lemma {:induction false} MatchingKeysAppend(a: seq<string>, b: seq<string>, refs: map<string, RefItem>, prefix: string)
    ensures MatchingKeys(a + b, refs, prefix) == MatchingKeys(a, refs, prefix) + MatchingKeys(b, refs, prefix)
  {
    if a != [] {
      assert (a + b)[1..] == a[1..] + b;
      MatchingKeysAppend(a[1..], b, refs, prefix);
    } else {
      assert a + b == b;
    }
  }

  lemma {:induction false} MatchingKeysDistinct(order: seq<string>, refs: map<string, RefItem>, prefix: string)
    requires Distinct(order)
    ensures Distinct(MatchingKeys(order, refs, prefix))
  {
    if order != [] {
      assert Distinct(order[1..]);
      MatchingKeysDistinct(order[1..], refs, prefix);
    }
  }

  /**
   * On valid tables, a query without orders or filters yields one entry per
   * document of the window of matching references, in natural order, each
   * with the key and size of its reference and, unless keys-only, the value
   * of its block. Every key matches the prefix and none repeats; at most
   * `limit` entries come back when `limit` is positive.
   */
  lemma QueryOnValidTables(t: Tables, q: Query)
    requires Valid(t)
    requires !q.hasOrders && !q.hasFilters
    ensures var keys := Window(MatchingKeys(t.order, t.refs, q.prefix), q.offset, q.limit);
      var r := QueryEntries(t, q);
      && r.Ok?
      && |r.value| == |keys|
      && (q.limit > 0 ==> |r.value| <= q.limit)
      && Distinct(keys)
      && forall i :: 0 <= i < |keys| ==>
           && keys[i] in t.refs
           && PrefixMatch(q.prefix, keys[i])
           && r.value[i].key == keys[i]
           && r.value[i].size == t.refs[keys[i]].size
           && r.value[i].value == (if q.keysOnly then [] else t.blocks[t.refs[keys[i]].ref].value)
  {
    var keys := Window(MatchingKeys(t.order, t.refs, q.prefix), q.offset, q.limit);
    var docs := Cursor(t, q);
    CursorDocs(t, q);
    EmitEntries(t.blocks, docs, q.keysOnly);
    MatchingKeysDistinct(t.order, t.refs, q.prefix);
    WindowDistinct(MatchingKeys(t.order, t.refs, q.prefix), q.offset, q.limit);
    forall i | 0 <= i < |docs| ensures docs[i].id == keys[i] && docs[i].ref in t.blocks {
      assert docs[i] == t.refs[keys[i]];
    }
    var es := Emit(t.blocks, docs, q.keysOnly);
    assert |es| == |docs|;
  }

  lemma WindowDistinct(s: seq<string>, offset: int, limit: int)
    requires Distinct(s)
    ensures Distinct(Window(s, offset, limit))
  {
    var w := Window(s, offset, limit);
    var start := if offset > 0 then Min(offset, |s|) else 0;
    forall i, j | 0 <= i < j < |w| ensures w[i] != w[j] {
      assert w[i] == s[start + i] && w[j] == s[start + j];
    }
  }
}
