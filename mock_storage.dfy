/**
 * The in-memory EDV server: a registry of vaults, each with its documents
 * and blind indexes, the (controller, referenceId) registry, and the chunk
 * store, with one method per route handler and the `store` / `unindex`
 * procedures those handlers call. Every state change is proved equal to the
 * value-level operations of `DocumentStore` and keeps the vault consistent.
 */
module Server {
  import opened EdvTypes
  import opened BlindIndex
  import opened DocumentStore
  import opened QueryEval
  import opened Routes

  /** A handler's reply: an HTTP status and, for some statuses, a body. */
  datatype Response<T> = Response(status: int, body: Option<T>)

  /**
   * `_getReferenceKey`. The source joins the percent-encoded controller and
   * referenceId with `:`; the encoding escapes `:`, so distinct pairs give
   * distinct keys, and the pair itself stands for the string.
   */
  datatype ReferenceKey = ReferenceKey(controller: string, referenceId: string)

  /** A chunk of a large document payload, stored as posted. */
  datatype Chunk = Chunk(sequence: nat, index: nat, offset: nat, jwe: string)

  /** A query's answer: the matching documents, or their number when `count` is set. */
  datatype QueryResult = Documents(documents: seq<Document>) | Count(count: nat)

  /** JavaScript truthiness of an optional string: absent and "" are both false. */
  predicate Truthy(s: Option<string>)
  {
    s.Some? && s.value != ""
  }

  /** A missing `controller` query parameter is read as the string "undefined" when the key is built. */
  function ControllerParam(controller: Option<string>): string
  {
    if controller.Some? then controller.value else "undefined"
  }

  const DocumentsSuffix: string := "/documents"
  const QuerySuffix: string := "/query"

  /** One vault: its configuration and its document and index maps. */
  class Edv {
    const config: Config
    var documents: map<DocId, Document>
    var indexes: IndexMap

    function State(): VaultState
      reads this
    {
      VaultState(documents, indexes)
    }

    ghost predicate Valid()
      reads this
    {
      Consistent(State())
    }

    constructor(config: Config)
      ensures this.config == config && State() == EmptyVault() && Valid()
    {
      this.config := config;
      documents := map[];
      indexes := map[];
    }
  }

  /**
   * The ids of the documents in `ids`, resolved to the stored documents:
   * where every document is stored under its own id, each returned
   * document carries the id the query found, in the query's order.
   */
  function Resolve(documents: map<DocId, Document>, ids: seq<DocId>): (docs: seq<Document>)
    requires forall x | x in ids :: x in documents
    requires forall x | x in documents :: documents[x].id == x
    ensures |docs| == |ids| && forall i | 0 <= i < |ids| :: docs[i].id == ids[i] && docs[i] == documents[ids[i]]
  {
    seq(|ids|, i requires 0 <= i < |ids| => documents[ids[i]])
  }

  /** Every id a query returns from a consistent vault's index names a stored document. */
  lemma ResultStored(s: VaultState, h: string, q: Query, x: DocId)
    requires Consistent(s) && h in s.indexes && x in Results(s.indexes[h], q)
    ensures x in s.documents
  {
    var index := s.indexes[h];
    ResultsMembers(index, q, x);
    if exists c :: c in q.equals && MatchesClause(index.equals, c, x) {
      var c :| c in q.equals && MatchesClause(index.equals, c, x);
      assert c[0] in c;
      SlotMemberStored(s, h, Equals, PairKey(c[0]), x);
    } else {
      assert q.has[0] in q.has;
      SlotMemberStored(s, h, Has, q.has[0], x);
    }
  }

  /** One step of the indexing loop: the first entry indexed into the index (created if missing) of its HMAC key. */
  lemma AddEntriesStep(ix0: IndexMap, ix1: IndexMap, entries: seq<IndexEntry>, doc: DocId)
    requires entries != []
    requires ix1 == if entries[0].hmac.id in ix0 then ix0 else ix0[entries[0].hmac.id := EmptyIndex()]
    ensures var h := entries[0].hmac.id;
      AddEntries(ix0, entries, doc)
        == AddEntries(ix1[h := AddAttributes(ix1[h], entries[0].attributes, doc)], entries[1..], doc)
  {
    var h := entries[0].hmac.id;
    assert ix1[h] == IndexOrEmpty(ix0, h);
    assert ix1[h := AddAttributes(ix1[h], entries[0].attributes, doc)]
      == ix0[h := AddAttributes(IndexOrEmpty(ix0, h), entries[0].attributes, doc)];
  }

  /** One step of the unindexing loop: entry `i` unindexed from the index of its HMAC key, which exists. */
  lemma RemoveEntriesStep(ix: IndexMap, entries: seq<IndexEntry>, i: nat)
    requires i < |entries| && Covers(ix, entries[i..])
    ensures var e := entries[i];
      && e.hmac.id in ix
      && var ix1 := ix[e.hmac.id := RemoveAttributes(ix[e.hmac.id], e.attributes)];
      && Covers(ix1, entries[i + 1..])
      && RemoveEntries(ix, entries[i..]) == RemoveEntries(ix1, entries[i + 1..])
  {
    var es := entries[i..];
    assert es[0] == entries[i] && es[1..] == entries[i + 1..];
    HmacIdsCons(es);
  }

  class MockStorage {
    var edvs: map<string, Edv>
    var referenceEdvs: map<ReferenceKey, Edv>
    var chunks: map<string, Chunk>
    /** The registered vault objects, the frame of `Valid`. */
    ghost var Repr: set<Edv>

    /**
     * Each vault is registered under its own id and is consistent; each
     * reference key names a registered vault whose controller and (non-empty)
     * referenceId make up that key.
     */
    ghost predicate Valid()
      reads this, Repr
    {
      && (forall id | id in edvs :: edvs[id] in Repr && edvs[id].config.id == id && edvs[id].Valid())
      && (forall key | key in referenceEdvs ::
            var e := referenceEdvs[key];
            && e.config.id in edvs && edvs[e.config.id] == e
            && Truthy(e.config.referenceId)
            && key == ReferenceKey(e.config.controller, e.config.referenceId.value))
    }

    constructor()
      ensures edvs == map[] && referenceEdvs == map[] && chunks == map[] && Valid()
    {
      edvs := map[];
      referenceEdvs := map[];
      chunks := map[];
      Repr := {};
    }

    // -------------------------------------------------------------------
    // Vaults
    // -------------------------------------------------------------------

    /**
     * Create a vault. The server names it after `uuid` and registers it
     * (with its document routes) before looking at its reference key, so a
     * conflicting create answers 409 yet leaves the new vault in place; the
     * reference key keeps pointing at the first vault.
     */
    method CreateVault(config: Config, uuid: string) returns (r: Response<Config>)
      requires Valid() && VaultUrl(uuid) !in edvs
      modifies this
      ensures Valid()
      ensures var c := config.(id := VaultUrl(uuid));
        && c.id in edvs && fresh(edvs[c.id]) && edvs[c.id].config == c && edvs[c.id].State() == EmptyVault()
        && edvs == old(edvs)[c.id := edvs[c.id]]
      ensures chunks == old(chunks)
      ensures var c := config.(id := VaultUrl(uuid));
        var key := ReferenceKey(c.controller, if Truthy(c.referenceId) then c.referenceId.value else "");
        if Truthy(c.referenceId) && key in old(referenceEdvs) then
          r == Response(409, None) && referenceEdvs == old(referenceEdvs)
        else
          && r == Response(201, Some(c))
          && referenceEdvs == if Truthy(c.referenceId) then old(referenceEdvs)[key := edvs[c.id]] else old(referenceEdvs)
    {
      var c := config.(id := VaultUrl(uuid));
      var edv := Register(c);
      if Truthy(c.referenceId) {
        var key := ReferenceKey(c.controller, c.referenceId.value);
        if key in referenceEdvs {
          return Response(409, None);
        }
        AddReference(key, edv);
      }
      r := Response(201, Some(c));
    }

    /** Register a new, empty vault under its configured id. */
    method Register(c: Config) returns (edv: Edv)
      requires Valid() && c.id !in edvs
      modifies this
      ensures Valid() && fresh(edv)
      ensures edv.config == c && edv.State() == EmptyVault()
      ensures edvs == old(edvs)[c.id := edv]
      ensures referenceEdvs == old(referenceEdvs) && chunks == old(chunks)
    {
      edv := new Edv(c);
      edvs := edvs[c.id := edv];
      Repr := Repr + {edv};
      forall id | id in edvs
        ensures edvs[id] in Repr && edvs[id].config.id == id && edvs[id].Valid()
      {
        if id != c.id {
          assert edvs[id] == old(edvs)[id];
        }
      }
    }

    /** Record a registered vault under a reference key that is still free. */
    method AddReference(key: ReferenceKey, edv: Edv)
      requires Valid() && key !in referenceEdvs
      requires edv.config.id in edvs && edvs[edv.config.id] == edv
      requires Truthy(edv.config.referenceId)
      requires key == ReferenceKey(edv.config.controller, edv.config.referenceId.value)
      modifies this
      ensures Valid()
      ensures referenceEdvs == old(referenceEdvs)[key := edv]
      ensures edvs == old(edvs) && chunks == old(chunks)
    {
      referenceEdvs := referenceEdvs[key := edv];
    }

    /**
     * Look vaults up by controller and referenceId: without a (non-empty)
     * referenceId the server answers 500; otherwise the vault registered
     * under that reference key, if any.
     */
    method LookupVaults(controller: Option<string>, referenceId: Option<string>) returns (r: Response<seq<Config>>)
      requires Valid()
      ensures !Truthy(referenceId) ==> r == Response(500, None)
      ensures Truthy(referenceId) ==>
        var key := ReferenceKey(ControllerParam(controller), referenceId.value);
        && r.status == 200 && r.body.Some? && |r.body.value| <= 1
        && (r.body.value == [] <==> key !in referenceEdvs)
        && (key in referenceEdvs ==> r.body.value == [referenceEdvs[key].config])
        && forall c | c in r.body.value ::
             && c.id in edvs && edvs[c.id].config == c
             && c.controller == ControllerParam(controller) && c.referenceId == referenceId
    {
      if !Truthy(referenceId) {
        return Response(500, None);
      }
      var key := ReferenceKey(ControllerParam(controller), referenceId.value);
      if key !in referenceEdvs {
        return Response(200, Some([]));
      }
      r := Response(200, Some([referenceEdvs[key].config]));
    }

    /** Get a vault's configuration by its id (the whole route). */
    method GetVault(route: string) returns (r: Response<Config>)
      requires Valid()
      ensures route !in edvs ==> r == Response(404, None)
      ensures route in edvs ==>
        r.status == 200 && r.body.Some? && r.body.value.id == route && r.body.value == edvs[route].config
    {
      if route !in edvs {
        return Response(404, None);
      }
      r := Response(200, Some(edvs[route].config));
    }

    // -------------------------------------------------------------------
    // Chunks
    // -------------------------------------------------------------------

    /** Store a chunk under its route, replacing any earlier one. */
    method PutChunk(route: string, chunk: Chunk) returns (status: int)
      requires Valid()
      modifies this
      ensures Valid() && status == 204
      ensures chunks == old(chunks)[route := chunk]
      ensures edvs == old(edvs) && referenceEdvs == old(referenceEdvs)
    {
      chunks := chunks[route := chunk];
      status := 204;
    }

    /** Get the chunk stored under a route. */
    method GetChunk(route: string) returns (r: Response<Chunk>)
      ensures route !in chunks ==> r == Response(404, None)
      ensures route in chunks ==> r == Response(200, Some(chunks[route]))
    {
      if route !in chunks {
        return Response(404, None);
      }
      r := Response(200, Some(chunks[route]));
    }

    // -------------------------------------------------------------------
    // Documents
    // -------------------------------------------------------------------

    /** Insert a new document into the vault named by the route. */
    method InsertDocument(route: string, doc: Document) returns (r: Response<string>)
      requires Valid()
      modifies if VaultIdOf(route, DocumentsSuffix) in edvs then {edvs[VaultIdOf(route, DocumentsSuffix)]} else {}
      ensures Valid()
      ensures var id := VaultIdOf(route, DocumentsSuffix);
        && (id !in edvs ==> r == Response(404, None))
        && (id in edvs ==>
              var e := edvs[id];
              var s := old(e.State());
              if doc.id in s.documents || StoreDocument(s, doc, true).None? then
                r == Response(409, None) && e.State() == s
              else
                && r == Response(201, Some(id + "/documents/" + doc.id))
                && e.State() == StoreDocument(s, doc, true).value)
    {
      var id := VaultIdOf(route, DocumentsSuffix);
      if id !in edvs {
        return Response(404, None);
      }
      var edv := edvs[id];
      if doc.id in edv.documents {
        return Response(409, None);
      }
      var ok := Store(edv, doc, true);
      if !ok {
        return Response(409, None);
      }
      r := Response(201, Some(id + "/documents/" + doc.id));
    }

    /**
     * Update (or create) a document through the vault's document route:
     * 400 when the route's id is not the document's, else store without
     * the uniqueness check. A vault that was never created has no such
     * route and the source no handler for it; the model answers 404 there.
     */
    method UpdateDocument(vaultId: string, route: string, doc: Document) returns (status: int)
      requires Valid()
      modifies if vaultId in edvs then {edvs[vaultId]} else {}
      ensures Valid()
      ensures vaultId !in edvs ==> status == 404
      ensures vaultId in edvs ==>
        var e := edvs[vaultId];
        if GetDocId(route) != doc.id then
          status == 400 && e.State() == old(e.State())
        else
          && status == 204
          && e.State() == StoreDocument(old(e.State()), doc, false).value
    {
      if vaultId !in edvs {
        return 404;
      }
      var edv := edvs[vaultId];
      if GetDocId(route) != doc.id {
        return 400;
      }
      // The update path skips the uniqueness check, so it is never refused.
      var ok := Store(edv, doc, false);
      assert ok;
      status := 204;
    }

    /**
     * Get a document through the vault's document route. A vault that was
     * never created has no handler in the source; the model answers 404.
     */
    method GetDocument(vaultId: string, route: string) returns (r: Response<Document>)
      requires Valid()
      ensures vaultId !in edvs || GetDocId(route) !in edvs[vaultId].documents ==> r == Response(404, None)
      ensures vaultId in edvs && GetDocId(route) in edvs[vaultId].documents ==>
        r.status == 200 && r.body.Some? && r.body.value.id == GetDocId(route)
        && r.body.value == edvs[vaultId].documents[GetDocId(route)]
    {
      if vaultId !in edvs {
        return Response(404, None);
      }
      var docId := GetDocId(route);
      if docId !in edvs[vaultId].documents {
        return Response(404, None);
      }
      r := Response(200, Some(edvs[vaultId].documents[docId]));
    }

    // -------------------------------------------------------------------
    // Queries
    // -------------------------------------------------------------------

    /**
     * Query the vault named by the route: 404 for a missing vault or index,
     * else the stored documents the query matches, or their number.
     */
    method QueryVault(route: string, q: Query) returns (r: Response<QueryResult>)
      requires Valid()
      ensures var id := VaultIdOf(route, QuerySuffix);
        && (id !in edvs || q.index !in edvs[id].indexes ==> r == Response(404, None))
        && (id in edvs && q.index in edvs[id].indexes ==>
              var e := edvs[id];
              var ids := Results(e.indexes[q.index], q);
              && (forall x | x in ids :: x in e.documents)
              && r == Response(200, Some(if q.count then Count(|ids|) else Documents(Resolve(e.documents, ids)))))
    {
      var id := VaultIdOf(route, QuerySuffix);
      if id !in edvs {
        return Response(404, None);
      }
      var edv := edvs[id];
      if q.index !in edv.indexes {
        return Response(404, None);
      }
      var ids := Evaluate(edv.indexes[q.index], q);
      forall x | x in ids ensures x in edv.documents {
        ResultStored(edv.State(), q.index, q, x);
      }
      if q.count {
        return Response(200, Some(Count(|ids|)));
      }
      r := Response(200, Some(Documents(Resolve(edv.documents, ids))));
    }

    // -------------------------------------------------------------------
    // store, unindex
    // -------------------------------------------------------------------

    /** The uniqueness check of `store`'s create path. */
    method CheckUnique(indexes: IndexMap, entries: seq<IndexEntry>) returns (conflict: bool)
      ensures conflict == UniqueConflict(indexes, entries)
    {
      for i := 0 to |entries|
        invariant forall i', j' | 0 <= i' < i && 0 <= j' < |entries[i'].attributes| ::
          !(entries[i'].hmac.id in indexes && entries[i'].attributes[j'].unique
            && EqualsKey(entries[i'].attributes[j']) in indexes[entries[i'].hmac.id].equals)
      {
        var entry := entries[i];
        if entry.hmac.id !in indexes {
          continue;
        }
        var index := indexes[entry.hmac.id];
        for j := 0 to |entry.attributes|
          invariant forall j' | 0 <= j' < j ::
            !(entry.attributes[j'].unique && EqualsKey(entry.attributes[j']) in index.equals)
        {
          var a := entry.attributes[j];
          if !a.unique {
            continue;
          }
          if EqualsKey(a) in index.equals {
            return true;
          }
        }
      }
      return false;
    }

    /** `unindex`: drop every slot the document's attributes name, in every index it uses. */
    method Unindex(edv: Edv, doc: Document)
      requires Covers(edv.indexes, doc.indexed)
      modifies edv
      ensures edv.indexes == RemoveEntries(old(edv.indexes), doc.indexed)
      ensures edv.documents == old(edv.documents)
    {
      ghost var target := RemoveEntries(edv.indexes, doc.indexed);
      for i := 0 to |doc.indexed|
        invariant edv.documents == old(edv.documents)
        invariant Covers(edv.indexes, doc.indexed[i..])
        invariant RemoveEntries(edv.indexes, doc.indexed[i..]) == target
      {
        var entry := doc.indexed[i];
        var h := entry.hmac.id;
        RemoveEntriesStep(edv.indexes, doc.indexed, i);
        var index := UnindexAttributes(edv.indexes[h], entry.attributes);
        edv.indexes := edv.indexes[h := index];
      }
      assert doc.indexed[|doc.indexed|..] == [];
    }

    /** The inner loop of `unindex`: the two `removeFromIndex` calls for each attribute of one entry. */
    method UnindexAttributes(index0: Index, attributes: seq<Attribute>) returns (index: Index)
      ensures index == RemoveAttributes(index0, attributes)
    {
      index := index0;
      for j := 0 to |attributes|
        invariant RemoveAttributes(index, attributes[j..]) == RemoveAttributes(index0, attributes)
      {
        var a := attributes[j];
        assert attributes[j..][1..] == attributes[j + 1..];
        var equals := RemoveFromIndex(index.equals, EqualsKey(a));
        var has := RemoveFromIndex(index.has, a.name);
        index := Index(equals, has);
      }
      assert attributes[|attributes|..] == [];
    }

    /**
     * `store`: on the create path, refuse (the source throws) when a unique
     * attribute's slot is taken; unindex the stored version, if any; store
     * the document; index each attribute of each entry, creating the HMAC
     * key's index when missing.
     */
    method Store(edv: Edv, doc: Document, create: bool) returns (ok: bool)
      requires edv.Valid()
      modifies edv
      ensures edv.Valid()
      ensures var r := StoreDocument(old(edv.State()), doc, create);
        && ok == r.Some?
        && (ok ==> edv.State() == r.value)
        && (!ok ==> edv.State() == old(edv.State()))
    {
      ghost var s := edv.State();
      if create {
        var conflict := CheckUnique(edv.indexes, doc.indexed);
        if conflict {
          return false;
        }
      }
      if doc.id in edv.documents {
        Unindex(edv, edv.documents[doc.id]);
      }
      assert edv.indexes == Unindexed(s, doc.id);
      edv.documents := edv.documents[doc.id := doc];
      IndexDocument(edv, doc);
      StorePreservesConsistency(s, doc, create);
      ok := true;
    }

    /** The indexing loop of `store`: each entry's attributes, in the index of its HMAC key. */
    method IndexDocument(edv: Edv, doc: Document)
      modifies edv
      ensures edv.indexes == AddEntries(old(edv.indexes), doc.indexed, doc.id)
      ensures edv.documents == old(edv.documents)
    {
      ghost var target := AddEntries(edv.indexes, doc.indexed, doc.id);
      for i := 0 to |doc.indexed|
        invariant edv.documents == old(edv.documents)
        invariant AddEntries(edv.indexes, doc.indexed[i..], doc.id) == target
      {
        var entry := doc.indexed[i];
        var h := entry.hmac.id;
        ghost var ix0 := edv.indexes;
        if h !in edv.indexes {
          edv.indexes := edv.indexes[h := EmptyIndex()];
        }
        ghost var ix1 := edv.indexes;
        var index := IndexAttributes(edv.indexes[h], entry.attributes, doc.id);
        edv.indexes := edv.indexes[h := index];
        AddEntriesStep(ix0, ix1, doc.indexed[i..], doc.id);
        assert doc.indexed[i..][1..] == doc.indexed[i + 1..];
      }
      assert doc.indexed[|doc.indexed|..] == [];
    }

    /** The inner loop of `store`: the two `addToIndex` calls for each attribute of one entry. */
    method IndexAttributes(index0: Index, attributes: seq<Attribute>, doc: DocId) returns (index: Index)
      ensures index == AddAttributes(index0, attributes, doc)
    {
      index := index0;
      for j := 0 to |attributes|
        invariant AddAttributes(index, attributes[j..], doc) == AddAttributes(index0, attributes, doc)
      {
        var a := attributes[j];
        assert attributes[j..][1..] == attributes[j + 1..];
        var equals := AddToIndex(index.equals, EqualsKey(a), doc, a.unique);
        var has := AddToIndex(index.has, a.name, doc, false);
        index := Index(equals, has);
      }
      assert attributes[|attributes|..] == [];
    }
  }
}
