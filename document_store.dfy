/**
 * The document store of one vault, stated on values: `store` (the insert
 * path with `create`, the update path without it) over the vault's
 * `documents` map and its blind indexes, and the invariant it keeps.
 */
module DocumentStore {
  import opened EdvTypes
  import opened BlindIndex

  /** What a vault holds besides its configuration. */
  datatype VaultState = VaultState(documents: map<DocId, Document>, indexes: IndexMap)

  function EmptyVault(): VaultState
  {
    VaultState(map[], map[])
  }

  /**
   * Every member of every slot of the given kind is a stored document whose
   * current version claims that slot.
   */
  ghost predicate SoundSlots(indexes: IndexMap, documents: map<DocId, Document>, kind: Kind)
  {
    forall h, k, y | h in indexes && k in Slots(indexes[h], kind) && y in Slots(indexes[h], kind)[k] ::
      Backed(documents, y, h, k, kind)
  }

  /** `y` is a stored document whose current version claims slot `k` of the given kind under HMAC key `h`. */
  ghost predicate Backed(documents: map<DocId, Document>, y: DocId, h: string, k: string, kind: Kind)
  {
    y in documents && k in ClaimedKeys(documents[y].indexed, h, kind)
  }

  ghost predicate SlotsSound(indexes: IndexMap, documents: map<DocId, Document>)
  {
    SoundSlots(indexes, documents, Equals) && SoundSlots(indexes, documents, Has)
  }

  /** Document `x` is in no slot of the given kind. */
  ghost predicate ExcludesFrom(indexes: IndexMap, x: DocId, kind: Kind)
  {
    forall h, k | h in indexes && k in Slots(indexes[h], kind) :: x !in Slots(indexes[h], kind)[k]
  }

  ghost predicate Excludes(indexes: IndexMap, x: DocId)
  {
    ExcludesFrom(indexes, x, Equals) && ExcludesFrom(indexes, x, Has)
  }

  /**
   * The invariant of a vault: documents are stored under their own id,
   * every HMAC key a stored document uses has an index (so `unindex` never
   * meets a missing one), slots are non-empty and duplicate-free, and the
   * indexes never point at a missing document or at a key the document's
   * current version does not claim. The converse (every claim of every
   * stored document is indexed) does not hold: see `UpdateLosesSharers`.
   */
  ghost predicate Consistent(s: VaultState)
  {
    && (forall id | id in s.documents :: s.documents[id].id == id)
    && (forall id | id in s.documents :: Covers(s.indexes, s.documents[id].indexed))
    && WellFormedIndexes(s.indexes)
    && SlotsSound(s.indexes, s.documents)
  }

  /** The indexes after the `unindex` of the stored version of `x`, if any. */
  function Unindexed(s: VaultState, x: DocId): IndexMap
    requires Consistent(s)
  {
    if x in s.documents then RemoveEntries(s.indexes, s.documents[x].indexed) else s.indexes
  }

  /**
   * `store`: on the create path, fails (`None`, the thrown duplicate error)
   * when a unique attribute's slot already exists, before anything changes;
   * otherwise unindexes the stored version, stores the document and indexes it.
   */
  function StoreDocument(s: VaultState, doc: Document, create: bool): (r: Option<VaultState>)
    requires Consistent(s)
    ensures r.None? ==> create
    ensures r.Some? ==> r.value.documents.Keys == s.documents.Keys + {doc.id} && r.value.documents[doc.id] == doc
    ensures r.Some? ==> forall x | x in s.documents && x != doc.id :: r.value.documents[x] == s.documents[x]
  {
    if create && UniqueConflict(s.indexes, doc.indexed) then None
    else Some(VaultState(s.documents[doc.id := doc], AddEntries(Unindexed(s, doc.id), doc.indexed, doc.id)))
  }

  // ---------------------------------------------------------------------
  // The invariant is kept
  // ---------------------------------------------------------------------

  /**
   * `ix` is `indexes` with, in the index of every HMAC key `h`, some of the
   * slots of the given kind claimed by `entries` under `h` dropped and every
   * other slot of that kind kept.
   */
  ghost predicate Shrunk(ix: IndexMap, indexes: IndexMap, entries: seq<IndexEntry>, kind: Kind)
  {
    && Kept(ix, indexes, kind)
    && (forall h, k | h in ix && k in Slots(ix[h], kind) :: k !in ClaimedKeys(entries, h, kind))
  }

  /** Every slot of `ix` of the given kind is the same slot of `indexes`, under the same HMAC keys. */
  ghost predicate Kept(ix: IndexMap, indexes: IndexMap, kind: Kind)
  {
    && ix.Keys == indexes.Keys
    && (forall h, k | h in ix && k in Slots(ix[h], kind) ::
          k in Slots(indexes[h], kind) && Slots(ix[h], kind)[k] == Slots(indexes[h], kind)[k])
  }

  lemma UnindexShrinks(indexes: IndexMap, entries: seq<IndexEntry>, kind: Kind)
    requires Covers(indexes, entries)
    ensures Shrunk(RemoveEntries(indexes, entries), indexes, entries, kind)
  {
    var ix := RemoveEntries(indexes, entries);
    forall h | h in ix
      ensures Slots(ix[h], kind) == Slots(indexes[h], kind) - ClaimedKeys(entries, h, kind)
    {
      RemoveEntriesSlots(indexes, entries, h, kind);
    }
  }

  /** `unindex` keeps slots non-empty and duplicate-free. */
  lemma UnindexWellFormed(indexes: IndexMap, entries: seq<IndexEntry>)
    requires Covers(indexes, entries) && WellFormedIndexes(indexes)
    ensures WellFormedIndexes(RemoveEntries(indexes, entries))
  {
    var ix := RemoveEntries(indexes, entries);
    forall h | h in ix ensures WellFormed(ix[h]) {
      RemoveEntriesAt(indexes, entries, h);
    }
  }

  /** Dropping every slot the stored version of `x` claims leaves `x` in no slot. */
  lemma ShrunkExcludes(ix: IndexMap, s: VaultState, x: DocId, kind: Kind)
    requires x in s.documents && SoundSlots(s.indexes, s.documents, kind)
    requires Shrunk(ix, s.indexes, s.documents[x].indexed, kind)
    ensures ExcludesFrom(ix, x, kind)
  {
    forall h, k | h in ix && k in Slots(ix[h], kind) ensures x !in Slots(ix[h], kind)[k] {
      assert Slots(ix[h], kind)[k] == Slots(s.indexes[h], kind)[k];
      assert k !in ClaimedKeys(s.documents[x].indexed, h, kind);
    }
  }

  lemma KeptSound(ix: IndexMap, s: VaultState, kind: Kind)
    requires SoundSlots(s.indexes, s.documents, kind) && Kept(ix, s.indexes, kind)
    ensures SoundSlots(ix, s.documents, kind)
  {
  }

  /** Without a stored version, `x` is in no slot already. */
  lemma AbsentExcluded(s: VaultState, x: DocId, kind: Kind)
    requires x !in s.documents && SoundSlots(s.indexes, s.documents, kind)
    ensures ExcludesFrom(s.indexes, x, kind)
  {
    forall h, k | h in s.indexes && k in Slots(s.indexes[h], kind)
      ensures x !in Slots(s.indexes[h], kind)[k]
    {
      assert forall y | y in Slots(s.indexes[h], kind)[k] :: y in s.documents;
    }
  }

  /**
   * `unindex` of the stored version of `x` leaves no trace of `x` in any
   * slot, drops no index, and keeps the slots sound and well formed.
   */
  lemma UnindexedExcludes(s: VaultState, x: DocId)
    requires Consistent(s)
    ensures var ix := Unindexed(s, x);
      && ix.Keys == s.indexes.Keys
      && WellFormedIndexes(ix)
      && SlotsSound(ix, s.documents)
      && Excludes(ix, x)
  {
    if x in s.documents {
      var ix := Unindexed(s, x);
      var gone := s.documents[x].indexed;
      UnindexWellFormed(s.indexes, gone);
      UnindexShrinks(s.indexes, gone, Equals);
      UnindexShrinks(s.indexes, gone, Has);
      ShrunkExcludes(ix, s, x, Equals);
      ShrunkExcludes(ix, s, x, Has);
      KeptSound(ix, s, Equals);
      KeptSound(ix, s, Has);
    } else {
      AbsentExcluded(s, x, Equals);
      AbsentExcluded(s, x, Has);
    }
  }

  /** With `x` in no slot, replacing `x`'s document keeps the slots sound. */
  lemma SoundWithout(ix: IndexMap, documents: map<DocId, Document>, doc: Document, kind: Kind)
    requires SoundSlots(ix, documents, kind) && ExcludesFrom(ix, doc.id, kind)
    ensures SoundSlots(ix, documents[doc.id := doc], kind)
  {
    forall h, k, y | h in ix && k in Slots(ix[h], kind) && y in Slots(ix[h], kind)[k]
      ensures y in documents[doc.id := doc] && k in ClaimedKeys(documents[doc.id := doc][y].indexed, h, kind)
    {
      assert y != doc.id;
      assert documents[doc.id := doc][y] == documents[y];
    }
  }

  /**
   * One member `y` of slot `k` of the index of `h` after indexing `doc`:
   * either `doc` itself at a key it claims, or a previous member.
   */
  lemma AddEntriesMember(ix: IndexMap, doc: Document, kind: Kind, h: string, k: string, y: DocId)
    requires ExcludesFrom(ix, doc.id, kind)
    requires var r := AddEntries(ix, doc.indexed, doc.id); h in r && k in Slots(r[h], kind) && y in Slots(r[h], kind)[k]
    ensures if y == doc.id then k in ClaimedKeys(doc.indexed, h, kind)
            else h in ix && k in Slots(ix[h], kind) && y in Slots(ix[h], kind)[k]
  {
    var x := doc.id;
    var r := AddEntries(ix, doc.indexed, x);
    AddEntriesSlots(ix, doc.indexed, x, h, kind);
    var base := Slots(IndexOrEmpty(ix, h), kind);
    var claims := ClaimsFor(doc.indexed, h, kind);
    AddClaimsKeys(base, claims, x);
    AddClaimsMembers(base, claims, x);
    if y != x {
      assert k in base && y in base[k];
    } else if k !in Keys(claims) {
      assert false;
    }
  }

  /**
   * Indexing `doc` into slots that are sound for a document map already
   * holding `doc`, and in which `doc` is absent, gives sound slots.
   */
  lemma AddEntriesSound(ix: IndexMap, documents: map<DocId, Document>, doc: Document, kind: Kind)
    requires doc.id in documents && documents[doc.id] == doc
    requires SoundSlots(ix, documents, kind) && ExcludesFrom(ix, doc.id, kind)
    ensures SoundSlots(AddEntries(ix, doc.indexed, doc.id), documents, kind)
  {
    AddEntriesGrown(ix, doc, kind);
    GrownSound(AddEntries(ix, doc.indexed, doc.id), ix, documents, doc, kind);
  }

  /** Every member of a slot of `r` is `doc` at a key it claims, or a member of the same slot of `ix`. */
  ghost predicate Grown(r: IndexMap, ix: IndexMap, doc: Document, kind: Kind)
  {
    forall h, k, y | h in r && k in Slots(r[h], kind) && y in Slots(r[h], kind)[k] ::
      if y == doc.id then k in ClaimedKeys(doc.indexed, h, kind)
      else h in ix && k in Slots(ix[h], kind) && y in Slots(ix[h], kind)[k]
  }

  lemma AddEntriesGrown(ix: IndexMap, doc: Document, kind: Kind)
    requires ExcludesFrom(ix, doc.id, kind)
    ensures Grown(AddEntries(ix, doc.indexed, doc.id), ix, doc, kind)
  {
    var r := AddEntries(ix, doc.indexed, doc.id);
    forall h, k, y | h in r && k in Slots(r[h], kind) && y in Slots(r[h], kind)[k]
      ensures if y == doc.id then k in ClaimedKeys(doc.indexed, h, kind)
              else h in ix && k in Slots(ix[h], kind) && y in Slots(ix[h], kind)[k]
    {
      AddEntriesMember(ix, doc, kind, h, k, y);
    }
  }

  lemma GrownSound(r: IndexMap, ix: IndexMap, documents: map<DocId, Document>, doc: Document, kind: Kind)
    requires doc.id in documents && documents[doc.id] == doc
    requires SoundSlots(ix, documents, kind) && Grown(r, ix, doc, kind)
    ensures SoundSlots(r, documents, kind)
  {
    forall h, k, y | h in r && k in Slots(r[h], kind) && y in Slots(r[h], kind)[k]
      ensures Backed(documents, y, h, k, kind)
    {
      if y == doc.id {
        ClaimedByStored(documents, doc, h, k, kind);
      } else {
        SlotMemberSound(ix, documents, kind, h, k, y);
      }
    }
  }

  lemma ClaimedByStored(documents: map<DocId, Document>, doc: Document, h: string, k: string, kind: Kind)
    requires doc.id in documents && documents[doc.id] == doc && k in ClaimedKeys(doc.indexed, h, kind)
    ensures k in ClaimedKeys(documents[doc.id].indexed, h, kind)
  {
  }

  lemma SlotMemberSound(ix: IndexMap, documents: map<DocId, Document>, kind: Kind, h: string, k: string, y: DocId)
    requires SoundSlots(ix, documents, kind)
    requires h in ix && k in Slots(ix[h], kind) && y in Slots(ix[h], kind)[k]
    ensures y in documents && k in ClaimedKeys(documents[y].indexed, h, kind)
  {
  }

  /** Indexing keeps slots non-empty and duplicate-free. */
  lemma AddEntriesWellFormed(ix: IndexMap, doc: Document)
    requires WellFormedIndexes(ix)
    ensures WellFormedIndexes(AddEntries(ix, doc.indexed, doc.id))
  {
    var r := AddEntries(ix, doc.indexed, doc.id);
    forall h | h in r ensures WellFormed(r[h]) {
      AddEntriesSlots(ix, doc.indexed, doc.id, h, Equals);
      AddEntriesSlots(ix, doc.indexed, doc.id, h, Has);
      AddClaimsMembers(Slots(IndexOrEmpty(ix, h), Equals), ClaimsFor(doc.indexed, h, Equals), doc.id);
      AddClaimsMembers(Slots(IndexOrEmpty(ix, h), Has), ClaimsFor(doc.indexed, h, Has), doc.id);
    }
  }

  /** `store` keeps the vault invariant. */
  lemma StorePreservesConsistency(s: VaultState, doc: Document, create: bool)
    requires Consistent(s) && StoreDocument(s, doc, create).Some?
    ensures Consistent(StoreDocument(s, doc, create).value)
  {
    var x := doc.id;
    var ix := Unindexed(s, x);
    var docs := s.documents[x := doc];
    UnindexedExcludes(s, x);
    SoundWithout(ix, s.documents, doc, Equals);
    SoundWithout(ix, s.documents, doc, Has);
    AddEntriesSound(ix, docs, doc, Equals);
    AddEntriesSound(ix, docs, doc, Has);
    AddEntriesWellFormed(ix, doc);
    var r := AddEntries(ix, doc.indexed, x);
    AddEntriesKeys(ix, doc.indexed, x);
    assert forall id | id in docs :: Covers(r, docs[id].indexed);
  }

  // ---------------------------------------------------------------------
  // What `store` promises
  // ---------------------------------------------------------------------

  /**
   * Indexing puts the document in every slot its entries claim, creating
   * the index of every HMAC key they use.
   */
  lemma AddEntriesIndexes(ix: IndexMap, doc: Document, h: string, k: string, kind: Kind)
    requires h in HmacIds(doc.indexed) && k in ClaimedKeys(doc.indexed, h, kind)
    ensures var r := AddEntries(ix, doc.indexed, doc.id);
      h in r && k in Slots(r[h], kind) && doc.id in Slots(r[h], kind)[k]
  {
    AddEntriesKeys(ix, doc.indexed, doc.id);
    AddEntriesSlots(ix, doc.indexed, doc.id, h, kind);
    AddClaimsIndexes(Slots(IndexOrEmpty(ix, h), kind), ClaimsFor(doc.indexed, h, kind), doc.id, k);
  }

  /**
   * After `store`, the document is stored under its id and nothing else
   * stored changes; every HMAC key it uses has an index, and the document
   * is in the `equals` slot and the `has` slot of every attribute it claims.
   */
  lemma StoreIndexesDocument(s: VaultState, doc: Document, create: bool, h: string)
    requires Consistent(s) && StoreDocument(s, doc, create).Some?
    requires h in HmacIds(doc.indexed)
    ensures var t := StoreDocument(s, doc, create).value;
      && t.documents == s.documents[doc.id := doc]
      && h in t.indexes
      && (forall k | k in EqualsKeysFor(doc.indexed, h) :: k in t.indexes[h].equals && doc.id in t.indexes[h].equals[k])
      && (forall n | n in NamesFor(doc.indexed, h) :: n in t.indexes[h].has && doc.id in t.indexes[h].has[n])
  {
    var ix := Unindexed(s, doc.id);
    AddEntriesKeys(ix, doc.indexed, doc.id);
    forall k | k in EqualsKeysFor(doc.indexed, h)
      ensures var r := AddEntries(ix, doc.indexed, doc.id); k in r[h].equals && doc.id in r[h].equals[k]
    {
      AddEntriesIndexes(ix, doc, h, k, Equals);
    }
    forall n | n in NamesFor(doc.indexed, h)
      ensures var r := AddEntries(ix, doc.indexed, doc.id); n in r[h].has && doc.id in r[h].has[n]
    {
      AddEntriesIndexes(ix, doc, h, n, Has);
    }
  }

  /**
   * The create path is refused exactly when a stored document already sits
   * in the `equals` slot of one of the new document's unique attributes,
   * whether or not that holder claimed the slot as unique.
   */
  lemma ConflictMeansHolder(s: VaultState, doc: Document)
    requires Consistent(s)
    ensures StoreDocument(s, doc, true).None? <==> HeldUnique(s, doc)
  {
    if UniqueConflict(s.indexes, doc.indexed) {
      ConflictHasHolder(s, doc);
    }
    if HeldUnique(s, doc) {
      HolderConflicts(s, doc);
    }
  }

  /** A stored document sits in the `equals` slot of one of `doc`'s unique attributes. */
  ghost predicate HeldUnique(s: VaultState, doc: Document)
  {
    exists e, a, y :: e in doc.indexed && a in e.attributes && a.unique && e.hmac.id in s.indexes
      && y in s.documents && y in Find(s.indexes[e.hmac.id].equals, EqualsKey(a))
  }

  lemma ConflictHasHolder(s: VaultState, doc: Document)
    requires Consistent(s) && UniqueConflict(s.indexes, doc.indexed)
    ensures HeldUnique(s, doc)
  {
    var i, j :| 0 <= i < |doc.indexed| && 0 <= j < |doc.indexed[i].attributes|
      && doc.indexed[i].hmac.id in s.indexes && doc.indexed[i].attributes[j].unique
      && EqualsKey(doc.indexed[i].attributes[j]) in s.indexes[doc.indexed[i].hmac.id].equals;
    var e := doc.indexed[i];
    var a := e.attributes[j];
    var slot := s.indexes[e.hmac.id].equals[EqualsKey(a)];
    assert WellFormed(s.indexes[e.hmac.id]);
    var y := slot[0];
    SlotMemberStored(s, e.hmac.id, Equals, EqualsKey(a), y);
  }

  lemma HolderConflicts(s: VaultState, doc: Document)
    requires HeldUnique(s, doc)
    ensures UniqueConflict(s.indexes, doc.indexed)
  {
    var e, a, y :| e in doc.indexed && a in e.attributes && a.unique && e.hmac.id in s.indexes
      && y in s.documents && y in Find(s.indexes[e.hmac.id].equals, EqualsKey(a));
    var i :| 0 <= i < |doc.indexed| && doc.indexed[i] == e;
    var j :| 0 <= j < |e.attributes| && e.attributes[j] == a;
  }

  /** A member of a slot of a sound index is a stored document. */
  lemma SlotMemberStored(s: VaultState, h: string, kind: Kind, k: string, x: DocId)
    requires SoundSlots(s.indexes, s.documents, kind)
    requires h in s.indexes && x in Find(Slots(s.indexes[h], kind), k)
    ensures x in s.documents
  {
    assert k in Slots(s.indexes[h], kind);
  }

  /**
   * A unique attribute's slot holds exactly the stored document afterwards:
   * on the update path any previous holder is evicted.
   */
  lemma StoreUniqueSlot(s: VaultState, doc: Document, create: bool, e: IndexEntry, a: Attribute)
    requires Consistent(s) && StoreDocument(s, doc, create).Some?
    requires e in doc.indexed && a in e.attributes && a.unique
    ensures var t := StoreDocument(s, doc, create).value;
      && e.hmac.id in t.indexes && EqualsKey(a) in t.indexes[e.hmac.id].equals
      && t.indexes[e.hmac.id].equals[EqualsKey(a)] == [doc.id]
  {
    var h := e.hmac.id;
    var ix := Unindexed(s, doc.id);
    HmacIdOf(doc.indexed, e);
    AddEntriesKeys(ix, doc.indexed, doc.id);
    AddEntriesAt(ix, doc.indexed, doc.id, h);
    ClaimOfAttribute(doc.indexed, e, a);
    AddClaimsUnique(IndexOrEmpty(ix, h).equals, EqualsClaimsFor(doc.indexed, h), doc.id, EqualsKey(a));
  }

  /**
   * The create path evicts nobody: after a successful insert of a new
   * document, every slot of every previous index still starts with the
   * members it had, in their order.
   */
  lemma InsertKeepsMembers(s: VaultState, doc: Document, h: string, k: string)
    requires Consistent(s) && doc.id !in s.documents && StoreDocument(s, doc, true).Some?
    requires h in s.indexes
    ensures var t := StoreDocument(s, doc, true).value;
      && h in t.indexes
      && Find(s.indexes[h].equals, k) <= Find(t.indexes[h].equals, k)
      && Find(s.indexes[h].has, k) <= Find(t.indexes[h].has, k)
  {
    var eq, hs := EqualsClaimsFor(doc.indexed, h), HasClaimsFor(doc.indexed, h);
    AddEntriesKeys(s.indexes, doc.indexed, doc.id);
    AddEntriesAt(s.indexes, doc.indexed, doc.id, h);
    HasClaimsNeverUnique(doc.indexed, h);
    AddClaimsKeepsMembers(s.indexes[h].has, hs, doc.id, k);
    if c :| c in eq && c.key == k && c.unique {
      ClaimIsAttribute(doc.indexed, h, c);
      assert k !in s.indexes[h].equals;
    } else {
      AddClaimsKeepsMembers(s.indexes[h].equals, eq, doc.id, k);
    }
  }

  /**
   * Re-indexing is remove-then-add: a key the stored version claimed and
   * the new version does not is gone from the index afterwards, slot and
   * all, together with every other document that was in that slot.
   */
  lemma UpdateDropsKeys(s: VaultState, doc: Document, h: string, k: string, n: string)
    requires Consistent(s) && doc.id in s.documents
    requires h in s.indexes
    ensures var t := StoreDocument(s, doc, false).value;
      && h in t.indexes
      && (k in EqualsKeysFor(s.documents[doc.id].indexed, h) && k !in EqualsKeysFor(doc.indexed, h)
          ==> k !in t.indexes[h].equals)
      && (n in NamesFor(s.documents[doc.id].indexed, h) && n !in NamesFor(doc.indexed, h)
          ==> n !in t.indexes[h].has)
  {
    var ix := Unindexed(s, doc.id);
    RemoveEntriesAt(s.indexes, s.documents[doc.id].indexed, h);
    AddEntriesKeys(ix, doc.indexed, doc.id);
    AddEntriesAt(ix, doc.indexed, doc.id, h);
    AddClaimsKeys(ix[h].equals, EqualsClaimsFor(doc.indexed, h), doc.id);
    AddClaimsKeys(ix[h].has, HasClaimsFor(doc.indexed, h), doc.id);
  }

  /**
   * Re-indexing drops other documents too: when the stored version of
   * `doc.id` shares a slot with document `b`, the update leaves `b` out of
   * that slot although `b` is unchanged and still claims it.
   */
  lemma UpdateLosesSharers(s: VaultState, doc: Document, b: DocId, h: string, k: string, kind: Kind)
    requires Consistent(s) && doc.id in s.documents && b != doc.id
    requires h in s.indexes && k in Slots(s.indexes[h], kind) && b in Slots(s.indexes[h], kind)[k]
    requires k in ClaimedKeys(s.documents[doc.id].indexed, h, kind)
    ensures var t := StoreDocument(s, doc, false).value;
      && b in t.documents && t.documents[b] == s.documents[b]
      && k in ClaimedKeys(t.documents[b].indexed, h, kind)
      && h in t.indexes && b !in Find(Slots(t.indexes[h], kind), k)
  {
    var ix := Unindexed(s, doc.id);
    var t := StoreDocument(s, doc, false).value;
    UnindexedExcludes(s, doc.id);
    RemoveEntriesSlots(s.indexes, s.documents[doc.id].indexed, h, kind);
    AddEntriesKeys(ix, doc.indexed, doc.id);
    if b in Find(Slots(t.indexes[h], kind), k) {
      AddEntriesMember(ix, doc, kind, h, k, b);
      assert false;
    }
  }

  // ---------------------------------------------------------------------
  // Claims and the attributes they come from
  // ---------------------------------------------------------------------

  lemma {:induction false} ClaimOfAttributeIn(attributes: seq<Attribute>, a: Attribute)
    requires a in attributes
    ensures Claim(EqualsKey(a), a.unique) in EqualsClaims(attributes)
  {
    if attributes[0] != a {
      ClaimOfAttributeIn(attributes[1..], a);
    }
  }

  /** Every attribute of an entry makes an `equals` claim under the entry's HMAC key. */
  lemma {:induction false} ClaimOfAttribute(entries: seq<IndexEntry>, e: IndexEntry, a: Attribute)
    requires e in entries && a in e.attributes
    ensures Claim(EqualsKey(a), a.unique) in EqualsClaimsFor(entries, e.hmac.id)
  {
    if entries[0] == e {
      ClaimOfAttributeIn(e.attributes, a);
    } else {
      ClaimOfAttribute(entries[1..], e, a);
    }
  }

  lemma {:induction false} ClaimIsAttributeIn(attributes: seq<Attribute>, c: Claim)
    requires c in EqualsClaims(attributes)
    ensures exists a :: a in attributes && c == Claim(EqualsKey(a), a.unique)
  {
    if c != Claim(EqualsKey(attributes[0]), attributes[0].unique) {
      ClaimIsAttributeIn(attributes[1..], c);
      var a :| a in attributes[1..] && c == Claim(EqualsKey(a), a.unique);
      assert a in attributes;
    }
  }

  /** Every `equals` claim comes from an attribute of an entry with that HMAC key. */
  lemma {:induction false} ClaimIsAttribute(entries: seq<IndexEntry>, h: string, c: Claim)
    requires c in EqualsClaimsFor(entries, h)
    ensures exists e, a :: e in entries && a in e.attributes && e.hmac.id == h && c == Claim(EqualsKey(a), a.unique)
  {
    var first := if entries[0].hmac.id == h then EqualsClaims(entries[0].attributes) else [];
    if c in first {
      ClaimIsAttributeIn(entries[0].attributes, c);
    } else {
      ClaimIsAttribute(entries[1..], h, c);
      var e, a :| e in entries[1..] && a in e.attributes && e.hmac.id == h && c == Claim(EqualsKey(a), a.unique);
      assert e in entries;
    }
  }

  lemma {:induction false} HasClaimsNeverUniqueIn(attributes: seq<Attribute>)
    ensures forall c | c in HasClaims(attributes) :: !c.unique
  {
    if attributes != [] {
      HasClaimsNeverUniqueIn(attributes[1..]);
    }
  }

  /** `has` slots are never added to as unique. */
  lemma {:induction false} HasClaimsNeverUnique(entries: seq<IndexEntry>, h: string)
    ensures forall c | c in HasClaimsFor(entries, h) :: !c.unique
  {
    if entries != [] {
      HasClaimsNeverUniqueIn(entries[0].attributes);
      HasClaimsNeverUnique(entries[1..], h);
    }
  }
}
