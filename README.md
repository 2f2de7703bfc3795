# A verified model of the mock EDV server

This project models the in-memory encrypted data vault (EDV) server of
`tests/MockStorage.js`. Each vault holds encrypted documents and blind indexes.
For each HMAC key, an index has two slot maps:

- `equals`, which maps `name=value` to the documents that carry that attribute;
- `has`, which maps `name` to the documents that carry an attribute of that name.

Around these sit:

- a registry of vaults, keyed by id and by (controller, referenceId);
- a chunk store;
- the route handlers that insert, update, fetch and query documents.

The model is written in Dafny and follows the source file's structure:

| module | file | what it holds |
|---|---|---|
| `EdvTypes` | `edv_types.dfy` | vault configurations, documents, index entries, attributes, slot maps, and the `name=value` slot key |
| `BlindIndex` | `blind_index.dfy` | `find`, `addToIndex` and `removeFromIndex` on one slot map; the indexing and unindexing loops of `store` and `unindex` as folds over a document's entries; the create-path uniqueness check |
| `DocumentStore` | `document_store.dfy` | `store` on one vault's state as a function (see below); the vault invariant it keeps; what it does to slots on the insert and update paths |
| `QueryEval` | `query.dfy` | the query handler's loops, with their early `break`, proved equal to folds; what a query returns, and how often |
| `Routes` | `routes.dfy` | how vault and document ids are read out of a route (`lastIndexOf`, `substr`, `getDocId`) |
| `Server` | `mock_storage.dfy` | class `MockStorage` (maps `edvs`, `referenceEdvs`, `chunks`) and class `Edv` (maps `documents`, `indexes`); one method per route handler, plus `store`, `unindex` and their loops as methods that update the vault in place |

`StoreDocument` states `store` on a vault's value: it returns `None` when the
uniqueness check throws and `Some` of the new state otherwise. The methods
that change state are proved equal to these functions. The invariant they
keep is `Consistent`. The lemmas about the functions state what the source
promises.

`Consistent` says:

- documents are stored under their own id;
- every HMAC key that a stored document uses has an index;
- every slot is non-empty and holds each document at most once;
- every document in a slot is stored, and its current version claims that slot.

The converse does not hold. A stored document can claim a slot and still be
missing from it: see `DocumentStore.UpdateLosesSharers`.

Index slots hold document ids. The source holds document objects, but
`unindex` removes every slot that an old version sits in, so a slot never
holds a stale object. Identity by object and identity by id therefore agree.
A JavaScript `Set` is modelled as a sequence without duplicates, kept in
insertion order, so query results keep the source's order.

Where the source departs from what such a store would be expected to do, the
model follows the source:

- **Conflicting create.** A create whose (controller, referenceId) is already
  taken answers 409, but the new vault is already registered under its id
  (tests/MockStorage.js:95-101). The first holder of the reference key is
  never replaced.
- **Update.** The update route neither checks that the document exists nor
  checks uniqueness. An update of an absent document stores it. A unique
  attribute on the update path evicts the slot's previous holders.
- **Delete.** There is no delete handler, and `sequence` is never checked.
- **Lost index entries.** Re-indexing does not keep every stored document
  indexed. `removeFromIndex` drops a whole slot, so an update also drops
  every other document that shared a slot with the old version
  (`UpdateLosesSharers`). A unique claim evicts the slot's holders
  (`StoreUniqueSlot`).
- **Lookup without a referenceId** answers 500, not an empty result.

## Model

| member | source | states |
|---|---|---|
| EdvTypes.EqualsKeyInjective | tests/MockStorage.js:258 | when attribute names contain no `=`, two attributes share an `equals` slot key exactly when their names and values agree |
| EdvTypes.EqualsKeyCollision | tests/MockStorage.js:283 | without that restriction, the distinct attributes (`a=b`, `c`) and (`a`, `b=c`) share the slot key `a=b=c` |
| BlindIndex.Find | tests/MockStorage.js:331-337 | `find` returns exactly the members of the slot, and nothing for a missing slot; in a well-formed slot map the result has no duplicates and is empty only when the slot is missing |
| BlindIndex.AddToIndex | tests/MockStorage.js:296-306 | `addToIndex` creates the slot if missing and touches no other slot; the document ends up in the slot; a unique add leaves exactly `[doc]`; a non-unique add keeps the previous members in order and adds only `doc`; slots stay non-empty and duplicate-free |
| BlindIndex.AddAttribute | tests/MockStorage.js:281-291 | indexing one attribute puts the document in its `name=value` slot and its `name` slot, alone in the first when the attribute is unique, and keeps slots well formed |
| BlindIndex.AddAttributes | tests/MockStorage.js:280-292 | the inner indexing loop removes no slot |
| BlindIndex.AddEntries | tests/MockStorage.js:271-293 | the outer indexing loop removes no HMAC key's index |
| BlindIndex.UniqueConflict | tests/MockStorage.js:247-264 | the uniqueness check can only fail for a document with index entries in a vault that already has an index |
| BlindIndex.RemoveFromIndex | tests/MockStorage.js:324-329 | `removeFromIndex` drops the whole slot, whoever is in it, and keeps every other slot |
| BlindIndex.RemoveAttribute | tests/MockStorage.js:312-319 | unindexing one attribute leaves neither its `name=value` slot nor its `name` slot, and adds no slot |
| BlindIndex.RemoveAttributes | tests/MockStorage.js:311-320 | the inner unindexing loop only ever removes slots |
| BlindIndex.RemoveEntries | tests/MockStorage.js:308-322 | `unindex` deletes no HMAC key's index |
| BlindIndex.AddClaimsKeys | tests/MockStorage.js:280-292 | a run of adds for one document creates exactly the claimed slots and leaves every unclaimed slot as it was |
| BlindIndex.AddClaimsIndexes | tests/MockStorage.js:280-292 | after a run of adds the document is in every slot the run claims |
| BlindIndex.AddClaimsMembers | tests/MockStorage.js:296-306 | a run of adds for `doc` brings no other document into any slot, and keeps slots non-empty and duplicate-free |
| BlindIndex.AddClaimsUnique | tests/MockStorage.js:302-305 | a slot that some claim of the run names as unique ends up holding exactly `doc` |
| BlindIndex.AddClaimsKeepsMembers | tests/MockStorage.js:296-306 | a slot that no claim names as unique keeps its previous members, in order, ahead of anything added |
| BlindIndex.AddAttributesSplit | tests/MockStorage.js:280-292 | the inner indexing loop runs its `equals` adds and its `has` adds independently of each other |
| BlindIndex.AddEntriesKeys | tests/MockStorage.js:271-279 | `store` creates the index of every HMAC key its entries use, and deletes no index |
| BlindIndex.AddEntriesAt | tests/MockStorage.js:271-293 | seen from one HMAC key, indexing runs every claim made under that key, in order, on the previous slot maps, or on empty ones when the index is new |
| BlindIndex.RemoveAttributesEquals | tests/MockStorage.js:311-315 | the inner unindexing loop removes exactly the `name=value` slots of the attributes |
| BlindIndex.RemoveAttributesHas | tests/MockStorage.js:316-319 | the inner unindexing loop removes exactly the `name` slots of the attributes |
| BlindIndex.RemoveEntriesAt | tests/MockStorage.js:308-322 | `unindex` removes, from the index of each HMAC key, exactly the slots that the entries claim under that key |
| BlindIndex.ClaimsNeedHmac | tests/MockStorage.js:309-310 | entries whose HMAC key is not `h` make no claim under `h` |
| BlindIndex.ClaimedKeysMeaning | tests/MockStorage.js:271-293 | a key is claimed under `h` exactly when some entry with HMAC key `h` has an attribute indexed under that key |
| BlindIndex.AttributeClaimsKeys | tests/MockStorage.js:280-292 | the slot keys of one entry's attributes are exactly the attributes' `name=value` (or `name`) keys |
| DocumentStore.UnindexShrinks | tests/MockStorage.js:308-329 | after `unindex`, every slot that remains is an unchanged slot of the previous index, and the removed entries claim none of the remaining slots |
| DocumentStore.UnindexWellFormed | tests/MockStorage.js:324-329 | `unindex` keeps every slot non-empty and duplicate-free |
| DocumentStore.ShrunkExcludes | tests/MockStorage.js:265-269 | dropping every slot the stored version claims leaves that document in no slot |
| DocumentStore.AbsentExcluded | tests/MockStorage.js:265-266 | a document with no stored version is in no slot |
| DocumentStore.UnindexedExcludes | tests/MockStorage.js:265-269 | unindexing the stored version leaves no trace of the document in any slot, deletes no index, and keeps slots sound and well formed |
| DocumentStore.SoundWithout | tests/MockStorage.js:270 | once the document is in no slot, replacing its stored version keeps the slots sound |
| DocumentStore.AddEntriesMember | tests/MockStorage.js:271-293 | after indexing, a slot member is either the document at a key it claims or a previous member of the same slot |
| DocumentStore.AddEntriesSound | tests/MockStorage.js:271-293 | indexing a stored document that is in no slot keeps the slots sound |
| DocumentStore.AddEntriesWellFormed | tests/MockStorage.js:271-293 | indexing keeps every slot non-empty and duplicate-free |
| DocumentStore.StoreDocument | tests/MockStorage.js:246-294 | `store` refuses only on the create path; when it stores, the document is under its id and every other stored document is unchanged |
| DocumentStore.StorePreservesConsistency | tests/MockStorage.js:246-294 | `store` keeps the vault invariant, on both the insert and the update path |
| DocumentStore.AddEntriesIndexes | tests/MockStorage.js:271-293 | indexing puts the document in every slot its entries claim, creating the index of every HMAC key they use |
| DocumentStore.StoreIndexesDocument | tests/MockStorage.js:270-293 | after `store`, the document is stored under its id and no other document changes; every HMAC key it uses has an index; the document is in the `equals` and `has` slot of every attribute it carries |
| DocumentStore.StoreUniqueSlot | tests/MockStorage.js:280-286 | after `store`, the `equals` slot of a unique attribute holds exactly the stored document |
| DocumentStore.ConflictMeansHolder | tests/MockStorage.js:247-264 | the create path is refused exactly when a stored document, unique or not, already sits in the `equals` slot of one of the new document's unique attributes in an existing index |
| DocumentStore.InsertKeepsMembers | tests/MockStorage.js:246-294 | a successful insert of a new document evicts nobody: every previous slot keeps its members, in order |
| DocumentStore.UpdateDropsKeys | tests/MockStorage.js:265-269 | on update, a slot key the stored version claimed and the new version does not is gone from the index |
| DocumentStore.UpdateLosesSharers | tests/MockStorage.js:324-329 | on update, another document that shared such a slot is dropped from it, although it is unchanged and still claims that slot |
| DocumentStore.HasClaimsNeverUnique | tests/MockStorage.js:287-291 | `has` slots are never added to as unique |
| QueryEval.Filter | tests/MockStorage.js:208 | `matches.filter(x => docs.includes(x))` is never longer than the matches; `FilterMembers` states what it keeps |
| QueryEval.Narrow | tests/MockStorage.js:203-213 | narrowing by further keys never grows the matches; `NarrowMembers` states what it keeps |
| QueryEval.Matches | tests/MockStorage.js:198-214 | one clause's (or the `has` names') matches are never more than the first key's slot holds; `MatchesMembers` states exactly which |
| QueryEval.AppendNew | tests/MockStorage.js:214-218 | adding a clause's matches keeps the earlier results as a prefix |
| QueryEval.EqualsResults | tests/MockStorage.js:196-220 | the clause loop keeps the results gathered so far as a prefix |
| QueryEval.Results | tests/MockStorage.js:194-238 | a query with no `equals` clause and no `has` name returns nothing |
| QueryEval.FilterMembers | tests/MockStorage.js:208 | the filter keeps exactly the matches that are in `docs`, and adds no duplicate |
| QueryEval.FilterAppend | tests/MockStorage.js:208 | the filter keeps the order of the matches: filtering a concatenation gives the two filtered parts, concatenated in the same order |
| QueryEval.NarrowMembers | tests/MockStorage.js:203-213 | narrowing keeps exactly the matches that every further key's slot holds |
| QueryEval.NarrowEmpty | tests/MockStorage.js:209-211 | once the matches are empty they stay empty, so the early `break` changes nothing |
| QueryEval.MatchesMembers | tests/MockStorage.js:198-214 | the inner loop matches a document exactly when there is at least one key and every key's slot holds the document; `matches \|\| []` gives nothing for no keys |
| QueryEval.MatchesNoDuplicates | tests/MockStorage.js:198-214 | over a well-formed slot map, one clause's matches have no duplicates |
| QueryEval.AppendNewMembers | tests/MockStorage.js:214-218 | the `forEach` keeps the earlier results as a prefix, adds the matches, and adds nothing twice |
| QueryEval.ClauseMembers | tests/MockStorage.js:197-214 | a clause matches a document exactly when the clause is non-empty and every property's slot holds it |
| QueryEval.EqualsResultsMembers | tests/MockStorage.js:196-220 | the clause loop returns exactly the documents some clause matches, without duplicates |
| QueryEval.ResultsMembers | tests/MockStorage.js:194-238 | a query returns a document exactly when some `equals` clause matches it, or when there is at least one `has` name and every `has` name's slot holds it |
| QueryEval.ResultsMultiplicity | tests/MockStorage.js:194-241 | in a well-formed index, a document is returned once for matching the `equals` part and once more for matching the `has` part, never more often; `count` counts these duplicates |
| QueryEval.MatchAll | tests/MockStorage.js:198-213 | the inner loop over a clause's keys (or the `has` names), with its `null` start and early `break`, computes `Matches` |
| QueryEval.NarrowStep | tests/MockStorage.js:208 | one turn of the inner loop narrows the matches by one key's slot |
| QueryEval.AppendAll | tests/MockStorage.js:214-218 | the `forEach` loop computes `AppendNew` |
| QueryEval.Evaluate | tests/MockStorage.js:194-238 | the clause loop followed by the `has` loop and the push computes `Results` |
| Routes.SearchDown | tests/MockStorage.js:155 | the backward search returns -1 or an occurrence of the pattern at or before its start, with no occurrence after it |
| Routes.LastIndexOf | tests/MockStorage.js:155 | `lastIndexOf` returns -1 or an occurrence, and there is no later occurrence |
| Routes.Prefix | tests/MockStorage.js:156 | `substr(0, n)` is a prefix of the string: of length `n` when `n` is in range, "" for `n <= 0` (as for `lastIndexOf`'s -1), the whole string for `n` past the end |
| Routes.Suffix | tests/MockStorage.js:345 | `substr(start)` is what follows position `start`, or "" past the end |
| Routes.VaultIdOfRoute | tests/MockStorage.js:155-157 | the route of a vault's `/documents` or `/query` endpoint gives back the vault id |
| Routes.GetDocIdOfRoute | tests/MockStorage.js:342-346 | `getDocId` gives back the document id of a document route when the id has no `/` |
| Routes.GetDocIdCutsIds | tests/MockStorage.js:342-346 | `getDocId` taken alone cuts an id containing `/documents/`: `a/documents/b` is read back as `b` (the `:docId` route segment never passes such an id to a handler) |
| Routes.VaultIdOf | tests/MockStorage.js:155-156 | the vault id taken from an insert or query route is a prefix of the route, and "" when the route holds no `/documents` or `/query` |
| Routes.GetDocId | tests/MockStorage.js:342-346 | `getDocId` returns a suffix of the route |
| Server.Edv.constructor | tests/MockStorage.js:90-94 | a new vault has its configuration and empty document and index maps, and is consistent |
| Server.Resolve | tests/MockStorage.js:242 | where every document is stored under its own id, the returned documents carry the ids the query found, in the same order and number |
| Server.ResultStored | tests/MockStorage.js:194-242 | every id that a query on a consistent vault returns names a stored document |
| Server.AddEntriesStep | tests/MockStorage.js:271-292 | one turn of the indexing loop: the entry's attributes are indexed into its HMAC key's index, which is created first when missing |
| Server.RemoveEntriesStep | tests/MockStorage.js:309-320 | one turn of the unindexing loop: the entry's index exists, and its attributes are unindexed from it |
| Server.MockStorage.constructor | tests/MockStorage.js:8-14 | the server starts with no vaults, no reference keys and no chunks |
| Server.MockStorage.CreateVault | tests/MockStorage.js:86-107 | the new vault is registered under its generated id in every case; it answers 409 and leaves the reference map unchanged when the (controller, referenceId) key is taken, otherwise 201 with the configuration and the key recorded; chunks unchanged |
| Server.MockStorage.Register | tests/MockStorage.js:89-96 | a fresh, empty vault is registered under its id, and nothing else changes |
| Server.MockStorage.AddReference | tests/MockStorage.js:97-104 | a free reference key is recorded for the vault, and nothing else changes |
| Server.MockStorage.LookupVaults | tests/MockStorage.js:110-123 | 500 without a (non-empty) referenceId; otherwise 200 with `[]` when the (controller, referenceId) key is free, else `[config]` of the registered vault with that controller and referenceId |
| Server.MockStorage.GetVault | tests/MockStorage.js:144-151 | 404 for an unknown id, else 200 with that vault's configuration |
| Server.MockStorage.PutChunk | tests/MockStorage.js:126-131 | the chunk replaces any earlier one under its route, and the answer is 204 |
| Server.MockStorage.GetChunk | tests/MockStorage.js:134-141 | 404 when no chunk was put under the route, else 200 with the last one put |
| Server.MockStorage.InsertDocument | tests/MockStorage.js:154-175 | 404 for an unknown vault; 409 with the vault unchanged when the id is taken or the uniqueness check fails; otherwise 201 with location `<vault>/documents/<id>` and the vault state that `store` with `create` gives |
| Server.MockStorage.UpdateDocument | tests/MockStorage.js:348-357 | 400 with the vault unchanged when the route's id is not the document's; otherwise 204 and the vault state that `store` without `create` gives, never a refusal |
| Server.MockStorage.GetDocument | tests/MockStorage.js:359-367 | 404 when no document is stored under the route's id, else 200 with it |
| Server.MockStorage.QueryVault | tests/MockStorage.js:178-243 | 404 for an unknown vault or index; otherwise 200 with `Results` resolved to the stored documents, or with their number (duplicates included) when `count` is set |
| Server.MockStorage.CheckUnique | tests/MockStorage.js:247-264 | the nested loop, with its `continue`s and early exit, reports a conflict exactly when `UniqueConflict` holds |
| Server.MockStorage.Unindex | tests/MockStorage.js:308-322 | the loop leaves the vault's indexes equal to `RemoveEntries` of the old ones and its documents unchanged |
| Server.MockStorage.UnindexAttributes | tests/MockStorage.js:311-320 | the inner loop computes `RemoveAttributes` |
| Server.MockStorage.Store | tests/MockStorage.js:246-294 | `store` either throws with the vault unchanged, or leaves it in the state that `StoreDocument` gives; it keeps the vault consistent |
| Server.MockStorage.IndexDocument | tests/MockStorage.js:271-293 | the loop leaves the vault's indexes equal to `AddEntries` of the old ones and its documents unchanged |
| Server.MockStorage.IndexAttributes | tests/MockStorage.js:280-292 | the inner loop computes `AddAttributes` |

## Left out

- Capability and revocation handlers (tests/MockStorage.js:29-83): these only check required fields of a posted capability and store it by id. They are authorization plumbing outside the vault, document, index and chunk core.
- HTTP plumbing: pretender routing, `JSON.parse` of request bodies, status tuples and headers. Each handler is a method that takes typed arguments and returns a `Response`.
- `validateSchema`: a `Config` value is schema-valid by construction.
- `uuid()`: the generated identifier is a parameter of `CreateVault`, and the vault id it gives must be fresh.
- `encodeURIComponent` in `_getReferenceKey` (tests/MockStorage.js:371-373): the escaping keeps distinct (controller, referenceId) pairs apart, so the key is the pair itself (`ReferenceKey`). A missing controller parameter is read as `"undefined"`, as the template string does.
- `mapDocumentHandlers`: registering per-vault routes with the router is not modelled. The update and get handlers take the vault id their route was registered for. The source registers no handler at all for an id without a vault, so it has no answer for such a request; where the source has no handler, the model answers 404, a modelling choice that keeps these methods total.
- Server.MockStorage.PutChunk: the chunk is stored as posted, including its route key. A body that parses to a falsy value is not modelled, so a chunk that was put is always found.
- Server.MockStorage.Unindex: the source changes the `equals` and `has` maps of the looked-up index object in place. The model computes the new index value and writes it back into the vault's `indexes` map. Index objects are never shared between keys or vaults, so no aliasing is lost.
- Server.MockStorage.IndexDocument: as with `Unindex`, the in-place updates of the index object are modelled as a new value written back to `indexes`.
- Concurrency and locking: the source is single-threaded and each handler runs to completion.
- A `for … in` loop over a clause visits an object's own property names once each. `Clause` is a sequence of (name, value) pairs, so a clause with a repeated name is also accepted; it narrows by the same slot twice.
- Delete and `sequence` checks: the source has neither.

