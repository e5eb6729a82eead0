# go-ds-rpc: the deduplicating MongoDB store, its RPC facade and the datastore client

go-ds-rpc serves a key-value datastore over RPC. Its MongoDB backend keeps each
distinct payload once. The payload lives in a `blocks` collection under its
SHA-256 hex id, with a reference count. Each caller key is a document of
`block_refs` that names its block and caches the payload's size. This project
models three parts:

- the backend `DSMongo`: a class whose two map fields are the collections, plus
  the insertion order of `block_refs`;
- the server facade `MongoStore`: it hashes values, turns backend errors into
  reply codes and relays query results as a stream;
- the client adapter `DataStore`: it turns replies back into datastore results.

Module `Dedup` states every backend operation as a function on the two tables.
It also gives the store's invariant:

- each block's count equals the number of references to it, and is at least 1;
- every reference names an existing block;
- every document sits under its own id;
- the natural order lists each reference exactly once.

The class `DsMongo.DSMongo` carries out those functions step by step and keeps
the invariant. `MongoStore.MongoStore` handles requests over such a class.
`EndToEnd` composes server and client. It covers what a client observes after
a `Put` or a `Delete`, and the entries a client reads back from a query stream
that the server relayed in full. Examples of what the backend yields for a
query are stated there too.

Things the system calls out to are parameters:

- SHA-256 (FIPS 180-4) is a function `sum256` into 32-byte digests;
- JSON encoding and decoding, `decode` and `marshal`;
- the stream's `Send` and `Recv`.

## Model

| member | source | states |
|---|---|---|
| Dedup.PutExistingKeyIsNoop | ds-mongo/db.go:122-125 | a `Put` for a key that already has a reference changes nothing |
| Dedup.PutNewKey | ds-mongo/db.go:127-165 | a `Put` for a new key stores the reference {key → block id, size = length of the value}; an unseen hash becomes a block with count 1, an existing block keeps its value and its count rises by one; the key is appended to the natural order; no other key or block changes |
| Dedup.PutPreservesValid | ds-mongo/db.go:118-171 | `Put` keeps the store's invariant (exact reference counts ≥ 1, references resolve, ids agree, the natural order lists each key once) |
| Dedup.DeleteAbsentKey | ds-mongo/db.go:180-188 | deleting a key without a reference leaves the tables unchanged and fails with "no documents" |
| Dedup.DeleteExistingKey | ds-mongo/db.go:189-216 | deleting a key removes its reference and lowers its block's count by one, removing the block when the count drops below 1; the key leaves the natural order and the other keys keep their order; nothing else changes |
| Dedup.DeletePreservesValid | ds-mongo/db.go:173-217 | `Delete` keeps the store's invariant |
| Dedup.DeleteKeepsCounts | ds-mongo/db.go:196-212 | after removing one reference and adjusting its block, every count is still the exact number of references to that block |
| Dedup.PutThenDeleteRestores | ds-mongo/db.go:118-217 | on valid tables, putting a fresh key and deleting it again restores both tables and the natural order, with no error |
| Dedup.GetResolvesReference | ds-mongo/db.go:219-238 | on valid tables, `Get` returns the value of the referenced block; without a reference it fails with "no documents" |
| Dedup.HasIffReference | ds-mongo/db.go:366-378 | `hasRef` succeeds, with true, exactly when the key has a reference |
| Dedup.GetSizeIgnoresBlocks | ds-mongo/db.go:244-256 | `GetSize` returns the size cached on the key's reference and does not read `blocks`; without a reference it fails with "no documents" |
| Dedup.GetAfterDelete | ds-mongo/db.go:173-238 | `Get` after `Delete` of the same key finds nothing, whether or not the key existed |
| Dedup.MatchingKeys | ds-mongo/db.go:283-288 | the prefix filter keeps exactly the keys in the natural order that have a reference and match the prefix case-insensitively |
| Dedup.MatchingKeysAppend | ds-mongo/db.go:283-288 | the filter over a concatenation is the concatenation of the filters |
| Dedup.Window | ds-mongo/db.go:269-277 | skip and limit apply only when positive: the result is exactly the elements from `min(offset, n)` on, at most `limit` of them |
| Dedup.EmitEntries | ds-mongo/db.go:324-357 | the entries emitted follow the cursor one for one: key and size from the reference, and the block's value unless keys-only; the stream stops early only at a reference whose block is missing |
| Dedup.QueryEntries | ds-mongo/db.go:258-261 | a query with orders or filters is refused with the "not support" error; every other query succeeds |
| Dedup.QueryOnValidTables | ds-mongo/db.go:258-364 | on valid tables, a query yields one entry per reference in the window, in natural order, with matching, non-repeating keys, at most `limit` entries when limit is positive, and each entry's size and (unless keys-only) value |
| DsMongo.DSMongo.constructor | ds-mongo/db.go:41-45 | a new store has empty collections and satisfies the invariant |
| DsMongo.DSMongo.HasRef | ds-mongo/db.go:366-378 | succeeds exactly when `block_refs` holds the key, otherwise "no documents" |
| DsMongo.DSMongo.HasBlock | ds-mongo/db.go:380-392 | succeeds exactly when `blocks` holds the id, otherwise "no documents" |
| DsMongo.DSMongo.Put | ds-mongo/db.go:118-171 | the new state is `Dedup.Put` of the old one, with no error; the invariant is kept |
| DsMongo.DSMongo.Delete | ds-mongo/db.go:173-217 | the new state and the error are `Dedup.Delete` of the old state; the invariant is kept |
| DsMongo.DSMongo.Get | ds-mongo/db.go:219-238 | returns `Dedup.Get`: the referenced block's value on valid tables, "no documents" for a missing key |
| DsMongo.DSMongo.Has | ds-mongo/db.go:240-242 | is `hasRef`: succeeds exactly when the key has a reference |
| DsMongo.DSMongo.GetSize | ds-mongo/db.go:244-256 | returns the reference's cached size, or "no documents" |
| DsMongo.DSMongo.Query | ds-mongo/db.go:258-364 | the loop over the cursor produces exactly `Dedup.QueryEntries` of the state |
| MongoStore.Hex | ds-mongo/store.go:146-148 | `%x` of bytes: two lowercase hex digits per byte |
| MongoStore.UnHexHex | ds-mongo/store.go:146-148 | hex encoding is undone by decoding, so it loses nothing |
| MongoStore.Sha256String | ds-mongo/store.go:146-148 | a block id is 64 lowercase hex digits |
| MongoStore.BlockIdsAgreeIffDigestsAgree | ds-mongo/store.go:146-148 | two values get the same block id exactly when their SHA-256 digests agree |
| MongoStore.NewItems | ds-mongo/store.go:30-39 | the block carries the value and the reference carries the key; both use the value's hash as the block id |
| MongoStore.EqualValuesShareBlock | ds-mongo/store.go:30-39 | byte-equal values under any two keys target the same block |
| MongoStore.PutKeepsContentAddressed | ds-mongo/store.go:29-40 | after the facade's `Put`, every block still sits under the hash of its own value |
| MongoStore.DeleteKeepsContentAddressed | ds-mongo/store.go:54-55 | after `Delete`, every block still sits under the hash of its own value |
| MongoStore.ErrorReply | ds-mongo/store.go:41-49 | a backend error gives a non-success code: `ErrNotFound` exactly for "no documents", `Others` otherwise, with the error's text as message |
| MongoStore.StatusReply | ds-mongo/store.go:40-51 | the reply of `Put` and `Delete`: success exactly when the backend reports no error, and then the empty reply |
| MongoStore.GetReply | ds-mongo/store.go:70-81 | success exactly when the lookup succeeds, and the reply then carries the value |
| MongoStore.HasReply | ds-mongo/store.go:85-96 | success exactly when `Has` succeeds, and the reply then carries its answer |
| MongoStore.GetSizeReply | ds-mongo/store.go:100-113 | success exactly when `GetSize` succeeds, and the reply then carries the size |
| MongoStore.UnaryHandlersClassifyErrors | ds-mongo/store.go:41-49 | all five unary handlers report a given backend error with the same reply |
| MongoStore.HasAbsentIsNotFound | ds-mongo/store.go:84-95 | `Has` of a missing key comes back as `ErrNotFound`, not as a successful `false` |
| MongoStore.MongoStore.constructor | ds-mongo/store.go:19-27 | the facade wraps the given backend and hash; it satisfies the invariant and content addressing when that backend does |
| MongoStore.MongoStore.Put | ds-mongo/store.go:29-52 | the backend's new state is `Dedup.Put` with the hashed items; the reply is empty; the invariant and content addressing are kept |
| MongoStore.MongoStore.Delete | ds-mongo/store.go:54-67 | the backend's new state is `Dedup.Delete` of the key, and the reply reports its error; the invariant and content addressing are kept |
| MongoStore.MongoStore.Get | ds-mongo/store.go:69-82 | the reply is `GetReply` of the backend's lookup; on a valid store, a key with a reference reads back successfully, with a value whose hash is the block id the reference names |
| MongoStore.MongoStore.Has | ds-mongo/store.go:84-97 | the reply succeeds exactly when the key has a reference |
| MongoStore.MongoStore.GetSize | ds-mongo/store.go:99-114 | the reply is `GetSizeReply` of the backend's cached size |
| MongoStore.MongoStore.Query | ds-mongo/store.go:116-140 | a decode error or a refused query returns that error having sent nothing; otherwise the replies sent are the marshalled entries, in order, one each, up to the first marshal or send failure, whose error is returned; with no failure every entry is sent and there is no error |
| DsRpc.NewDataStore | dsrpc.go:22-29 | fails exactly when the client is missing, with "missing KVStoreClient instance" |
| DsRpc.Put | dsrpc.go:31-43 | succeeds exactly when the reply arrives with code `None`; a transport error is passed on, and any other code becomes an error carrying the reply's message |
| DsRpc.Get | dsrpc.go:45-59 | returns the reply's value exactly when the code is `None`; `ErrNotFound` becomes `ds.ErrNotFound` |
| DsRpc.Has | dsrpc.go:61-75 | `ErrNotFound` is the answer false; it fails exactly on a transport error, which is passed on, or the `Others` code, which carries the reply's message |
| DsRpc.GetSize | dsrpc.go:77-91 | returns the reply's size exactly when the code is `None`; otherwise -1, with the transport's own error, `ds.ErrNotFound`, or the reply's message |
| DsRpc.Delete | dsrpc.go:93-109 | succeeds exactly when the reply's code is `None` or `ErrNotFound`, so deleting a missing key succeeds |
| DsRpc.Sync | dsrpc.go:111-113 | never fails |
| DsRpc.Close | dsrpc.go:115-117 | never fails |
| DsRpc.QueryStream.Recv | dsrpc.go:133 | hands out the server's replies in order, then the stream's end error |
| DsRpc.NextValue | dsrpc.go:132-147 | on a receive or decode error, returns that error with the zero entry and stops; otherwise it returns the decoded entry and goes on; it goes on exactly when there is no error |
| EndToEnd.ClientReadsRelayedEntries | dsrpc.go:132-147 | when the server relayed every entry and decoding undoes its encoding, repeated `nextValue` calls return those entries in order, and then the stream's end error |
| EndToEnd.PutRoundTrip | dsrpc.go:31-43 | the client sees a backend `Put` error as its text and a success as success |
| EndToEnd.GetRoundTrip | dsrpc.go:45-59 | the client gets the backend's value; "no documents" arrives as `ds.ErrNotFound` and other errors keep their text |
| EndToEnd.HasRoundTrip | dsrpc.go:61-75 | the client gets the backend's answer, with "no documents" as false |
| EndToEnd.GetSizeRoundTrip | dsrpc.go:77-91 | the client gets the backend's size, or -1 with the mapped error |
| EndToEnd.DeleteRoundTrip | dsrpc.go:93-109 | the client sees a backend "no documents" on `Delete` as success |
| EndToEnd.DeleteAbsentSucceeds | dsrpc.go:100-104 | deleting a missing key leaves the store unchanged and succeeds at the client |
| EndToEnd.HasAnswersPresence | dsrpc.go:61-75 | the client's `Has` is exactly whether the key has a reference, and never an error |
| EndToEnd.GetAfterDeleteIsNotFound | dsrpc.go:45-59 | after `Delete(k)`, the client's `Get(k)` is `ds.ErrNotFound` |
| EndToEnd.GetAfterPut | ds-mongo/store.go:29-82 | after putting under a new key on valid, content-addressed tables, the client reads a value with the same digest as the one put |
| EndToEnd.GetAfterPutCollisionFree | ds-mongo/store.go:29-82 | when no other value shares the digest, the client reads back exactly the value put |
| EndToEnd.GetSizeAfterPut | ds-mongo/db.go:157-165 | after putting under a new key, the client's `GetSize` is the value's length |
| EndToEnd.SameValueTwoKeysOneBlock | ds-mongo/db.go:127-155 | one value put under two new keys becomes one new block with that value and count 2, with both keys pointing at it, and the invariant holds |
| EndToEnd.Scenario | ds-mongo/db.go:118-238 | putting `x` and `y` with the same bytes gives one block with count 2 and size 3; deleting `x` leaves count 1 and `y` readable; deleting `y` removes the block and `y` reads as not found |
| EndToEnd.PrefixLimitExample | ds-mongo/db.go:269-288 | with keys `a/1`, `a/2`, `a/3`, `b/1` put in that order, prefix `a/` with limit 2 yields `a/1`, `a/2` |
| AsWritten.PutAsWrittenRefusesSharedValue | ds-mongo/db.go:136-144 | as written, putting an already-stored value under a new key fails and leaves the tables unchanged; the corrected `Put` succeeds and raises the count by one |
| AsWritten.ChannelAsWrittenLosesEntries | ds-mongo/db.go:324-359 | with `close(out)` at the end of each iteration, as written: a query whose loop sends nothing never closes its channel; a query with one entry completes; a query with two or more delivers only the first, then panics on the second send |
| AsWritten.ChannelClosedOnceDeliversAll | ds-mongo/db.go:324-359 | the same loop with `out` closed once after it delivers, in order, every entry the cursor yields, and then closes |
| AsWritten.CorrectedChannelDeliversQuery | ds-mongo/db.go:258-364 | with the close after the loop, the channel carries exactly the query's result and ends |

## Left out

- The MongoDB connection is not modelled: `NewDSMongo`, `Options`, `DefaultOptions`, the collection accessors and `Close` at ds-mongo/db.go:25-116. The two collections are maps on one in-memory object.
- Locking (`sync.RWMutex`), contexts and their cancellation, and the query goroutine's `closeChan` are not modelled. Every operation is atomic, and a query runs to its end.
- `created_at` and `updated_at` are not modelled, since nothing reads them back.
- Backend failures are not modelled: a write refused by the server, a lost connection, a cursor decode error. The in-memory maps produce only "no documents". The facade and the client are modelled over any backend error, so these paths are covered there.
- `Dedup.Put`: `hasRef`'s error is treated as "absent" at ds-mongo/db.go:123. With only "no documents" possible, this is the same behaviour.
- SHA-256 is the parameter `sum256`. It is not assumed collision-free. `EndToEnd.GetAfterPutCollisionFree` assumes this only for the value involved.
- Query prefixes are matched as literal text, compared case-insensitively over ASCII letters. The source passes the prefix to MongoDB as a regular expression. Regex metacharacters and Unicode case folding are not modelled.
- The natural order of `block_refs` is modelled as insertion order. MongoDB does not guarantee even this.
- JSON encoding of queries and entries is not modelled: `decode` and `marshal` are parameters.
- Integer widths are not modelled: the `int64` sizes, offsets and limits, and `int(ref.Size)`. All are unbounded integers.
- `DsRpc.Query`: the setup at dsrpc.go:119-131 is not modelled (marshalling the query, opening the stream, and `CloseSend` on a nil stream when opening fails). Neither is `dsq.ResultsFromIterator` at dsrpc.go:149-154. Only `nextValue` is modelled, as `DsRpc.NextValue`.
- `Batch` at dsrpc.go:157 is not modelled.
- `ErrCode_Others` is used by ds-mongo/store.go but is not declared in store.pb.go. It is modelled as a third code.
- ds-mongo2, ds-badger, `cmd`, `plugins`, ds-mongo/client.go and the generated RPC stubs (beyond the message shapes) are not part of this model.

## Findings

| source | as written | input that shows it | evidently intended | confidence | as-written member | corrected member |
|---|---|---|---|---|---|---|
| ds-mongo/db.go:137-140 | the count update for an existing block is `UpdateByID` with a plain document, with no `$set`; the driver refuses that ("update document must contain key beginning with '$'"), so `Put` fails | put key `x` with value [1,2,3], then key `y` with the same value | the count rises by one and `y` references the shared block, as `Delete` does with `$set` at db.go:210-212 | not executed; relies on the driver's check for `$`-prefixed update keys | AsWritten.PutAsWritten | Dedup.PutNewKey |
| ds-mongo/db.go:358 | `close(out)` runs at the end of every loop iteration. A loop that ends before sending anything never closes the channel, so the relay at store.go:127 waits forever. A second send goes to a closed channel and panics | a query matching nothing; or keys `a/1`, `a/2` and prefix `a/` | every entry is sent once, then the channel is closed once | not executed | AsWritten.ChannelAsWrittenLosesEntries | AsWritten.ChannelClosedOnceDeliversAll |

The corrected behaviour is used by the rest of the model. `Dedup.Put` raises the count, as `Dedup.PutNewKey` and `EndToEnd.SameValueTwoKeysOneBlock` prove. The query goroutine is `AsWritten.Goroutine`:
- as written, it closes `out` inside the loop;
- corrected, it closes `out` once after the loop.

The corrected goroutine carries exactly `Dedup.QueryEntries`
(`AsWritten.CorrectedChannelDeliversQuery`). That is what
`DsMongo.DSMongo.Query` computes, and what `Dedup.QueryOnValidTables`
characterises.
