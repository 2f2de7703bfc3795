/**
 * The blind-index engine of the mock EDV server: per HMAC key, an `equals`
 * map from `name=value` to the documents carrying that attribute and a
 * `has` map from `name` to the documents carrying an attribute of that name.
 *
 * The operations are stated here on values; the server's methods, which
 * loop over a document's entries and attributes and update the vault's
 * indexes in place, are proved equal to these folds.
 */
module BlindIndex {
  import opened EdvTypes

  // ---------------------------------------------------------------------
  // Slots
  // ---------------------------------------------------------------------

  /** Every slot that exists holds at least one document, each at most once. */
  ghost predicate WellFormedSlots(slots: SlotMap)
  {
    forall k | k in slots :: |slots[k]| > 0 && NoDuplicates(slots[k])
  }

  ghost predicate WellFormed(index: Index)
  {
    WellFormedSlots(index.equals) && WellFormedSlots(index.has)
  }

  ghost predicate WellFormedIndexes(indexes: IndexMap)
  {
    forall h | h in indexes :: WellFormed(indexes[h])
  }

  /** `find`: the documents of a slot, in insertion order; a missing slot reads as empty. */
  function Find(slots: SlotMap, key: string): (docs: seq<DocId>)
    ensures forall x :: x in docs <==> key in slots && x in slots[key]
    ensures WellFormedSlots(slots) ==> NoDuplicates(docs) && (docs == [] <==> key !in slots)
  {
    if key in slots then slots[key] else []
  }

  /**
   * `addToIndex`: creates the slot if it is missing, empties it first when
   * the attribute is unique, and adds the document (a `Set` add, so a
   * document already present keeps its place).
   */
  function AddToIndex(slots: SlotMap, key: string, doc: DocId, unique: bool): (r: SlotMap)
    ensures r.Keys == slots.Keys + {key}
    ensures forall k | k in slots && k != key :: r[k] == slots[k]
    ensures doc in r[key]
    ensures unique ==> r[key] == [doc]
    ensures !unique ==> Find(slots, key) <= r[key]
    ensures !unique ==> forall y :: y in r[key] <==> y == doc || y in Find(slots, key)
    ensures WellFormedSlots(slots) ==> WellFormedSlots(r)
  {
    var docSet := Find(slots, key);
    slots[key := if unique then [doc] else if doc in docSet then docSet else docSet + [doc]]
  }

  /** `removeFromIndex`: drops the whole slot, whoever else is in it. */
  function RemoveFromIndex(slots: SlotMap, key: string): (r: SlotMap)
    ensures r.Keys == slots.Keys - {key}
    ensures forall k | k in r :: r[k] == slots[k]
    ensures WellFormedSlots(slots) ==> WellFormedSlots(r)
  {
    slots - {key}
  }

  // ---------------------------------------------------------------------
  // Indexing a document: the loops of `store`
  // ---------------------------------------------------------------------

  /** The two `addToIndex` calls `store` makes for one attribute. */
  function AddAttribute(index: Index, a: Attribute, doc: DocId): (r: Index)
    ensures EqualsKey(a) in r.equals && doc in r.equals[EqualsKey(a)]
    ensures a.name in r.has && doc in r.has[a.name]
    ensures a.unique ==> r.equals[EqualsKey(a)] == [doc]
    ensures WellFormed(index) ==> WellFormed(r)
  {
    Index(AddToIndex(index.equals, EqualsKey(a), doc, a.unique),
          AddToIndex(index.has, a.name, doc, false))
  }

  /** The inner loop of `store`: every attribute of one entry, in order. */
  function AddAttributes(index: Index, attributes: seq<Attribute>, doc: DocId): (r: Index)
    ensures index.equals.Keys <= r.equals.Keys && index.has.Keys <= r.has.Keys
    decreases |attributes|
  {
    if attributes == [] then index
    else AddAttributes(AddAttribute(index, attributes[0], doc), attributes[1..], doc)
  }

  /** The index of HMAC key `h`, or the empty index `store` would create for it. */
  function IndexOrEmpty(indexes: IndexMap, h: string): Index
  {
    if h in indexes then indexes[h] else EmptyIndex()
  }

  /** The outer loop of `store`: every entry, creating its index when missing. */
  function AddEntries(indexes: IndexMap, entries: seq<IndexEntry>, doc: DocId): (r: IndexMap)
    ensures indexes.Keys <= r.Keys
    decreases |entries|
  {
    if entries == [] then indexes
    else
      var h := entries[0].hmac.id;
      AddEntries(indexes[h := AddAttributes(IndexOrEmpty(indexes, h), entries[0].attributes, doc)],
                 entries[1..], doc)
  }

  // ---------------------------------------------------------------------
  // Unindexing a document: `unindex`
  // ---------------------------------------------------------------------

  /** The HMAC key ids `entries` use. */
  function HmacIds(entries: seq<IndexEntry>): set<string>
    decreases |entries|
  {
    if entries == [] then {} else {entries[0].hmac.id} + HmacIds(entries[1..])
  }

  /** Every HMAC key used by `entries` has an index. */
  predicate Covers(indexes: IndexMap, entries: seq<IndexEntry>)
  {
    HmacIds(entries) <= indexes.Keys
  }

  /** The two `removeFromIndex` calls `unindex` makes for one attribute. */
  function RemoveAttribute(index: Index, a: Attribute): (r: Index)
    ensures EqualsKey(a) !in r.equals && a.name !in r.has
    ensures r.equals.Keys <= index.equals.Keys && r.has.Keys <= index.has.Keys
  {
    Index(RemoveFromIndex(index.equals, EqualsKey(a)), RemoveFromIndex(index.has, a.name))
  }

  /** The inner loop of `unindex`: every attribute of one entry, in order. */
  function RemoveAttributes(index: Index, attributes: seq<Attribute>): (r: Index)
    ensures r.equals.Keys <= index.equals.Keys && r.has.Keys <= index.has.Keys
    decreases |attributes|
  {
    if attributes == [] then index
    else RemoveAttributes(RemoveAttribute(index, attributes[0]), attributes[1..])
  }

  /**
   * `unindex`. The source dereferences the index of every entry without a
   * check, so the entries' indexes must exist.
   */
  function RemoveEntries(indexes: IndexMap, entries: seq<IndexEntry>): (r: IndexMap)
    requires Covers(indexes, entries)
    ensures r.Keys == indexes.Keys
    decreases |entries|
  {
    if entries == [] then indexes
    else
      var h := entries[0].hmac.id;
      HmacIdsCons(entries);
      RemoveEntries(indexes[h := RemoveAttributes(indexes[h], entries[0].attributes)], entries[1..])
  }

  // ---------------------------------------------------------------------
  // The uniqueness check of the create path
  // ---------------------------------------------------------------------

  /**
   * Some unique attribute's `name=value` slot already exists in an existing
   * index of its HMAC key. Whoever holds that slot, and whether it was
   * claimed as unique, does not matter; HMAC keys without an index are skipped.
   */
  predicate UniqueConflict(indexes: IndexMap, entries: seq<IndexEntry>)
    ensures UniqueConflict(indexes, entries) ==> entries != [] && indexes != map[]
  {
    exists i, j :: 0 <= i < |entries| && 0 <= j < |entries[i].attributes|
      && entries[i].hmac.id in indexes && entries[i].attributes[j].unique
      && EqualsKey(entries[i].attributes[j]) in indexes[entries[i].hmac.id].equals
  }

  // ---------------------------------------------------------------------
  // Claims: the slot keys a document's entries index it under
  // ---------------------------------------------------------------------

  /** One `addToIndex` call: a slot key and whether it is claimed as unique. */
  datatype Claim = Claim(key: string, unique: bool)

  function EqualsClaims(attributes: seq<Attribute>): seq<Claim>
  {
    if attributes == [] then []
    else [Claim(EqualsKey(attributes[0]), attributes[0].unique)] + EqualsClaims(attributes[1..])
  }

  function HasClaims(attributes: seq<Attribute>): seq<Claim>
  {
    if attributes == [] then []
    else [Claim(attributes[0].name, false)] + HasClaims(attributes[1..])
  }

  /** The `equals` claims, in order, that `entries` make under HMAC key `h`. */
  function EqualsClaimsFor(entries: seq<IndexEntry>, h: string): seq<Claim>
  {
    if entries == [] then []
    else
      var first := if entries[0].hmac.id == h then EqualsClaims(entries[0].attributes) else [];
      first + EqualsClaimsFor(entries[1..], h)
  }

  /** The `has` claims, in order, that `entries` make under HMAC key `h`. */
  function HasClaimsFor(entries: seq<IndexEntry>, h: string): seq<Claim>
  {
    if entries == [] then []
    else
      var first := if entries[0].hmac.id == h then HasClaims(entries[0].attributes) else [];
      first + HasClaimsFor(entries[1..], h)
  }

  /** Which of an index's two slot maps. */
  datatype Kind = Equals | Has

  function Slots(index: Index, kind: Kind): SlotMap
  {
    match kind
    case Equals => index.equals
    case Has => index.has
  }

  function ClaimsFor(entries: seq<IndexEntry>, h: string, kind: Kind): seq<Claim>
  {
    match kind
    case Equals => EqualsClaimsFor(entries, h)
    case Has => HasClaimsFor(entries, h)
  }

  /** The slot keys of the given kind that `entries` claim under HMAC key `h`. */
  function ClaimedKeys(entries: seq<IndexEntry>, h: string, kind: Kind): set<string>
  {
    Keys(ClaimsFor(entries, h, kind))
  }

  function Keys(claims: seq<Claim>): set<string>
    decreases |claims|
  {
    if claims == [] then {} else {claims[0].key} + Keys(claims[1..])
  }

  /** The `equals` slot keys `entries` claim under HMAC key `h`. */
  function EqualsKeysFor(entries: seq<IndexEntry>, h: string): set<string>
  {
    Keys(EqualsClaimsFor(entries, h))
  }

  /** The `has` slot keys (attribute names) `entries` claim under HMAC key `h`. */
  function NamesFor(entries: seq<IndexEntry>, h: string): set<string>
  {
    Keys(HasClaimsFor(entries, h))
  }

  /** A run of `addToIndex` calls for one document on one slot map. */
  function AddClaims(slots: SlotMap, claims: seq<Claim>, doc: DocId): SlotMap
    decreases |claims|
  {
    if claims == [] then slots
    else AddClaims(AddToIndex(slots, claims[0].key, doc, claims[0].unique), claims[1..], doc)
  }

  // ---------------------------------------------------------------------
  // Lemmas: a run of adds on one slot map
  // ---------------------------------------------------------------------

  lemma {:induction false} KeysAppend(a: seq<Claim>, b: seq<Claim>)
    ensures Keys(a + b) == Keys(a) + Keys(b)
    decreases |a|
  {
    if a == [] {
      assert a + b == b;
    } else {
      assert (a + b)[1..] == a[1..] + b;
      KeysAppend(a[1..], b);
    }
  }

  lemma KeysCons(c: Claim, rest: seq<Claim>)
    ensures Keys([c] + rest) == {c.key} + Keys(rest)
  {
    assert ([c] + rest)[1..] == rest;
  }

  lemma {:induction false} AddClaimsAppend(slots: SlotMap, a: seq<Claim>, b: seq<Claim>, doc: DocId)
    ensures AddClaims(slots, a + b, doc) == AddClaims(AddClaims(slots, a, doc), b, doc)
    decreases |a|
  {
    if a == [] {
      assert a + b == b;
    } else {
      assert (a + b)[0] == a[0] && (a + b)[1..] == a[1..] + b;
      AddClaimsAppend(AddToIndex(slots, a[0].key, doc, a[0].unique), a[1..], b, doc);
    }
  }

  /**
   * What a run of adds for document `doc` does to the slot keys: it creates
   * exactly the claimed slots, and leaves every unclaimed slot as it was.
   */
  lemma {:induction false} AddClaimsKeys(slots: SlotMap, claims: seq<Claim>, doc: DocId)
    ensures var r := AddClaims(slots, claims, doc);
      && r.Keys == slots.Keys + Keys(claims)
      && (forall k | k in slots && k !in Keys(claims) :: r[k] == slots[k])
    decreases |claims|
  {
    if claims == [] {
      assert Keys(claims) == {};
    } else {
      var s1 := AddToIndex(slots, claims[0].key, doc, claims[0].unique);
      AddClaimsKeys(s1, claims[1..], doc);
      assert AddClaims(slots, claims, doc) == AddClaims(s1, claims[1..], doc);
      KeysCons(claims[0], claims[1..]);
      assert claims == [claims[0]] + claims[1..];
      forall k | k in slots && k !in Keys(claims)
        ensures AddClaims(slots, claims, doc)[k] == slots[k]
      {
        assert k != claims[0].key && k !in Keys(claims[1..]);
      }
    }
  }

  /** After a run of adds for `doc`, `doc` is in every slot the run claims. */
  lemma {:induction false} AddClaimsIndexes(slots: SlotMap, claims: seq<Claim>, doc: DocId, k: string)
    requires k in Keys(claims)
    ensures var r := AddClaims(slots, claims, doc); k in r && doc in r[k]
    decreases |claims|
  {
    var s1 := AddToIndex(slots, claims[0].key, doc, claims[0].unique);
    KeysCons(claims[0], claims[1..]);
    assert claims == [claims[0]] + claims[1..];
    if k in Keys(claims[1..]) {
      AddClaimsIndexes(s1, claims[1..], doc, k);
    } else {
      AddClaimsKeepsMember(s1, claims[1..], doc, k);
    }
  }

  /**
   * A run of adds for `doc` never brings another document into a slot, and
   * keeps slots non-empty and free of duplicates.
   */
  lemma AddClaimsMembers(slots: SlotMap, claims: seq<Claim>, doc: DocId)
    ensures var r := AddClaims(slots, claims, doc);
      && (forall k, y | k in r && y in r[k] && y != doc :: k in slots && y in slots[k])
      && (WellFormedSlots(slots) ==> WellFormedSlots(r))
  {
    forall k, y | k in AddClaims(slots, claims, doc) && y in AddClaims(slots, claims, doc)[k] && y != doc
      ensures k in slots && y in slots[k]
    {
      AddClaimsNoNewcomer(slots, claims, doc, k, y);
    }
    if WellFormedSlots(slots) {
      AddClaimsWellFormed(slots, claims, doc);
    }
  }

  lemma {:induction false} AddClaimsNoNewcomer(slots: SlotMap, claims: seq<Claim>, doc: DocId, k: string, y: DocId)
    requires y != doc
    requires var r := AddClaims(slots, claims, doc); k in r && y in r[k]
    ensures k in slots && y in slots[k]
    decreases |claims|
  {
    if claims != [] {
      var s1 := AddToIndex(slots, claims[0].key, doc, claims[0].unique);
      assert AddClaims(slots, claims, doc) == AddClaims(s1, claims[1..], doc);
      AddClaimsNoNewcomer(s1, claims[1..], doc, k, y);
      if k == claims[0].key {
        assert y in Find(slots, k);
      }
    }
  }

  lemma {:induction false} AddClaimsWellFormed(slots: SlotMap, claims: seq<Claim>, doc: DocId)
    requires WellFormedSlots(slots)
    ensures WellFormedSlots(AddClaims(slots, claims, doc))
    decreases |claims|
  {
    if claims != [] {
      var s1 := AddToIndex(slots, claims[0].key, doc, claims[0].unique);
      assert AddClaims(slots, claims, doc) == AddClaims(s1, claims[1..], doc);
      AddClaimsWellFormed(s1, claims[1..], doc);
    }
  }

  /** Once `doc` is in a slot, later adds of `doc` keep it there. */
  lemma {:induction false} AddClaimsKeepsMember(slots: SlotMap, claims: seq<Claim>, doc: DocId, k: string)
    requires k in slots && doc in slots[k]
    ensures var r := AddClaims(slots, claims, doc); k in r && doc in r[k]
    decreases |claims|
  {
    if claims != [] {
      AddClaimsKeepsMember(AddToIndex(slots, claims[0].key, doc, claims[0].unique), claims[1..], doc, k);
    }
  }

  /** A slot holding exactly `doc` still holds exactly `doc` after more adds of `doc`. */
  lemma {:induction false} AddClaimsKeepsSingleton(slots: SlotMap, claims: seq<Claim>, doc: DocId, k: string)
    requires k in slots && slots[k] == [doc]
    ensures var r := AddClaims(slots, claims, doc); k in r && r[k] == [doc]
    decreases |claims|
  {
    if claims != [] {
      AddClaimsKeepsSingleton(AddToIndex(slots, claims[0].key, doc, claims[0].unique), claims[1..], doc, k);
    }
  }

  /**
   * A slot that some claim in the run names as unique ends up holding
   * exactly `doc`: the previous holders are evicted.
   */
  lemma {:induction false} AddClaimsUnique(slots: SlotMap, claims: seq<Claim>, doc: DocId, k: string)
    requires exists c :: c in claims && c.key == k && c.unique
    ensures var r := AddClaims(slots, claims, doc); k in r && r[k] == [doc]
    decreases |claims|
  {
    var s1 := AddToIndex(slots, claims[0].key, doc, claims[0].unique);
    if claims[0].key == k && claims[0].unique {
      AddClaimsKeepsSingleton(s1, claims[1..], doc, k);
    } else {
      var c :| c in claims && c.key == k && c.unique;
      assert c in claims[1..];
      AddClaimsUnique(s1, claims[1..], doc, k);
    }
  }

  /**
   * A slot no claim names as unique keeps its previous members, in their
   * order, ahead of anything added.
   */
  lemma {:induction false} AddClaimsKeepsMembers(slots: SlotMap, claims: seq<Claim>, doc: DocId, k: string)
    requires forall c | c in claims && c.key == k :: !c.unique
    ensures var r := AddClaims(slots, claims, doc); Find(slots, k) <= Find(r, k)
    decreases |claims|
  {
    if claims != [] {
      var s1 := AddToIndex(slots, claims[0].key, doc, claims[0].unique);
      assert Find(slots, k) <= Find(s1, k);
      AddClaimsKeepsMembers(s1, claims[1..], doc, k);
    }
  }

  // ---------------------------------------------------------------------
  // Lemmas: from attributes and entries to runs of claims
  // ---------------------------------------------------------------------

  lemma {:induction false} AddAttributesSplit(index: Index, attributes: seq<Attribute>, doc: DocId)
    ensures AddAttributes(index, attributes, doc)
      == Index(AddClaims(index.equals, EqualsClaims(attributes), doc),
               AddClaims(index.has, HasClaims(attributes), doc))
    decreases |attributes|
  {
    if attributes != [] {
      AddAttributesSplit(AddAttribute(index, attributes[0], doc), attributes[1..], doc);
    }
  }

  lemma HmacIdsCons(entries: seq<IndexEntry>)
    requires entries != []
    ensures HmacIds(entries) == {entries[0].hmac.id} + HmacIds(entries[1..])
  {
  }

  /** The HMAC key of every entry is among the entries' HMAC keys. */
  lemma {:induction false} HmacIdOf(entries: seq<IndexEntry>, e: IndexEntry)
    requires e in entries
    ensures e.hmac.id in HmacIds(entries)
    decreases |entries|
  {
    if e != entries[0] {
      HmacIdOf(entries[1..], e);
    }
  }

  /** `store` creates the index of every HMAC key its entries use, and deletes none. */
  lemma {:induction false} AddEntriesKeys(indexes: IndexMap, entries: seq<IndexEntry>, doc: DocId)
    ensures AddEntries(indexes, entries, doc).Keys == indexes.Keys + HmacIds(entries)
    decreases |entries|
  {
    if entries == [] {
      assert HmacIds(entries) == {};
    } else {
      var h0 := entries[0].hmac.id;
      var next := indexes[h0 := AddAttributes(IndexOrEmpty(indexes, h0), entries[0].attributes, doc)];
      AddEntriesKeys(next, entries[1..], doc);
      HmacIdsCons(entries);
    }
  }

  /**
   * `store`'s two nested loops, seen from one HMAC key `h`: the two slot
   * maps of its index are the previous ones (empty ones when the index is
   * created) after the run of every claim the entries make under `h`, in
   * order.
   */
  lemma {:induction false} AddEntriesAt(indexes: IndexMap, entries: seq<IndexEntry>, doc: DocId, h: string)
    requires h in AddEntries(indexes, entries, doc)
    ensures AddEntries(indexes, entries, doc)[h] == Index(
              AddClaims(IndexOrEmpty(indexes, h).equals, EqualsClaimsFor(entries, h), doc),
              AddClaims(IndexOrEmpty(indexes, h).has, HasClaimsFor(entries, h), doc))
    decreases |entries|
  {
    if entries != [] {
      var e := entries[0];
      var h0 := e.hmac.id;
      var next := indexes[h0 := AddAttributes(IndexOrEmpty(indexes, h0), e.attributes, doc)];
      AddEntriesAt(next, entries[1..], doc, h);
      var base := IndexOrEmpty(indexes, h);
      if h == h0 {
        AddAttributesSplit(base, e.attributes, doc);
        AddClaimsAppend(base.equals, EqualsClaims(e.attributes), EqualsClaimsFor(entries[1..], h), doc);
        AddClaimsAppend(base.has, HasClaims(e.attributes), HasClaimsFor(entries[1..], h), doc);
      } else {
        assert IndexOrEmpty(next, h) == base;
        assert EqualsClaimsFor(entries, h) == [] + EqualsClaimsFor(entries[1..], h) == EqualsClaimsFor(entries[1..], h);
        assert HasClaimsFor(entries, h) == [] + HasClaimsFor(entries[1..], h) == HasClaimsFor(entries[1..], h);
      }
    }
  }

  lemma {:induction false} RemoveAttributesEquals(index: Index, attributes: seq<Attribute>)
    ensures RemoveAttributes(index, attributes).equals == index.equals - Keys(EqualsClaims(attributes))
    decreases |attributes|
  {
    if attributes == [] {
      assert index.equals - {} == index.equals;
    } else {
      var a := attributes[0];
      RemoveAttributesEquals(RemoveAttribute(index, a), attributes[1..]);
      KeysCons(Claim(EqualsKey(a), a.unique), EqualsClaims(attributes[1..]));
    }
  }

  lemma {:induction false} RemoveAttributesHas(index: Index, attributes: seq<Attribute>)
    ensures RemoveAttributes(index, attributes).has == index.has - Keys(HasClaims(attributes))
    decreases |attributes|
  {
    if attributes == [] {
      assert index.has - {} == index.has;
    } else {
      var a := attributes[0];
      RemoveAttributesHas(RemoveAttribute(index, a), attributes[1..]);
      KeysCons(Claim(a.name, false), HasClaims(attributes[1..]));
    }
  }

  lemma {:induction false} RemoveEntriesEquals(indexes: IndexMap, entries: seq<IndexEntry>, h: string)
    requires Covers(indexes, entries) && h in indexes
    ensures RemoveEntries(indexes, entries)[h].equals == indexes[h].equals - EqualsKeysFor(entries, h)
    decreases |entries|
  {
    if entries == [] {
      assert indexes[h].equals - {} == indexes[h].equals;
    } else {
      var e := entries[0];
      var h0 := e.hmac.id;
      var next := indexes[h0 := RemoveAttributes(indexes[h0], e.attributes)];
      HmacIdsCons(entries);
      RemoveEntriesEquals(next, entries[1..], h);
      var first := if h0 == h then EqualsClaims(e.attributes) else [];
      assert EqualsClaimsFor(entries, h) == first + EqualsClaimsFor(entries[1..], h);
      KeysAppend(first, EqualsClaimsFor(entries[1..], h));
      if h == h0 {
        RemoveAttributesEquals(indexes[h0], e.attributes);
      }
    }
  }

  lemma {:induction false} RemoveEntriesHas(indexes: IndexMap, entries: seq<IndexEntry>, h: string)
    requires Covers(indexes, entries) && h in indexes
    ensures RemoveEntries(indexes, entries)[h].has == indexes[h].has - NamesFor(entries, h)
    decreases |entries|
  {
    if entries == [] {
      assert indexes[h].has - {} == indexes[h].has;
    } else {
      var e := entries[0];
      var h0 := e.hmac.id;
      var next := indexes[h0 := RemoveAttributes(indexes[h0], e.attributes)];
      HmacIdsCons(entries);
      RemoveEntriesHas(next, entries[1..], h);
      var first := if h0 == h then HasClaims(e.attributes) else [];
      assert HasClaimsFor(entries, h) == first + HasClaimsFor(entries[1..], h);
      KeysAppend(first, HasClaimsFor(entries[1..], h));
      if h == h0 {
        RemoveAttributesHas(indexes[h0], e.attributes);
      }
    }
  }

  /** `unindex` drops, from the index of `h`, exactly the slots the entries claim under `h`. */
  lemma RemoveEntriesAt(indexes: IndexMap, entries: seq<IndexEntry>, h: string)
    requires Covers(indexes, entries) && h in indexes
    ensures RemoveEntries(indexes, entries)[h]
      == Index(indexes[h].equals - EqualsKeysFor(entries, h), indexes[h].has - NamesFor(entries, h))
  {
    RemoveEntriesEquals(indexes, entries, h);
    RemoveEntriesHas(indexes, entries, h);
  }


  /** Claims under `h` come only from entries that use `h`. */
  lemma {:induction false} ClaimsNeedHmac(entries: seq<IndexEntry>, h: string)
    requires h !in HmacIds(entries)
    ensures EqualsClaimsFor(entries, h) == [] && HasClaimsFor(entries, h) == []
    decreases |entries|
  {
    if entries != [] {
      HmacIdsCons(entries);
      ClaimsNeedHmac(entries[1..], h);
    }
  }

  /** `AddEntriesAt` for either slot map. */
  lemma AddEntriesSlots(indexes: IndexMap, entries: seq<IndexEntry>, doc: DocId, h: string, kind: Kind)
    requires h in AddEntries(indexes, entries, doc)
    ensures Slots(AddEntries(indexes, entries, doc)[h], kind)
      == AddClaims(Slots(IndexOrEmpty(indexes, h), kind), ClaimsFor(entries, h, kind), doc)
  {
    AddEntriesAt(indexes, entries, doc, h);
  }

  /** `RemoveEntriesAt` for either slot map. */
  lemma RemoveEntriesSlots(indexes: IndexMap, entries: seq<IndexEntry>, h: string, kind: Kind)
    requires Covers(indexes, entries) && h in indexes
    ensures Slots(RemoveEntries(indexes, entries)[h], kind)
      == Slots(indexes[h], kind) - ClaimedKeys(entries, h, kind)
  {
    RemoveEntriesAt(indexes, entries, h);
  }

  /** The slot key of the given kind that an attribute is indexed under. */
  function KeyOf(a: Attribute, kind: Kind): string
  {
    match kind
    case Equals => EqualsKey(a)
    case Has => a.name
  }

  function AttributeClaims(attributes: seq<Attribute>, kind: Kind): seq<Claim>
  {
    match kind
    case Equals => EqualsClaims(attributes)
    case Has => HasClaims(attributes)
  }

  lemma {:induction false} AttributeClaimsKeys(attributes: seq<Attribute>, kind: Kind, k: string)
    ensures k in Keys(AttributeClaims(attributes, kind)) <==> exists a :: a in attributes && KeyOf(a, kind) == k
    decreases |attributes|
  {
    if attributes == [] {
      assert Keys(AttributeClaims(attributes, kind)) == {};
    } else {
      var a0 := attributes[0];
      AttributeClaimsKeys(attributes[1..], kind, k);
      match kind {
        case Equals => KeysCons(Claim(EqualsKey(a0), a0.unique), EqualsClaims(attributes[1..]));
        case Has => KeysCons(Claim(a0.name, false), HasClaims(attributes[1..]));
      }
      assert Keys(AttributeClaims(attributes, kind))
        == {KeyOf(a0, kind)} + Keys(AttributeClaims(attributes[1..], kind));
      if exists a :: a in attributes[1..] && KeyOf(a, kind) == k {
        var a :| a in attributes[1..] && KeyOf(a, kind) == k;
        assert a in attributes;
      }
      if exists a :: a in attributes && KeyOf(a, kind) == k {
        var a :| a in attributes && KeyOf(a, kind) == k;
        if a != a0 {
          assert a in attributes[1..];
        }
      }
    }
  }

  /**
   * A claimed key, spelled out: `k` is a claimed slot key of the given kind
   * under HMAC key `h` exactly when some entry with HMAC key `h` has an
   * attribute indexed under `k`.
   */
  lemma {:induction false} ClaimedKeysMeaning(entries: seq<IndexEntry>, h: string, kind: Kind, k: string)
    ensures k in ClaimedKeys(entries, h, kind)
      <==> exists e, a :: e in entries && a in e.attributes && e.hmac.id == h && KeyOf(a, kind) == k
    decreases |entries|
  {
    if entries == [] {
      assert Keys(ClaimsFor(entries, h, kind)) == {};
    } else {
      var e0 := entries[0];
      var first := if e0.hmac.id == h then AttributeClaims(e0.attributes, kind) else [];
      assert ClaimsFor(entries, h, kind) == first + ClaimsFor(entries[1..], h, kind);
      KeysAppend(first, ClaimsFor(entries[1..], h, kind));
      ClaimedKeysMeaning(entries[1..], h, kind, k);
      AttributeClaimsKeys(e0.attributes, kind, k);
      if e0.hmac.id != h {
        assert Keys(first) == {};
      }
      if exists e, a :: e in entries[1..] && a in e.attributes && e.hmac.id == h && KeyOf(a, kind) == k {
        var e, a :| e in entries[1..] && a in e.attributes && e.hmac.id == h && KeyOf(a, kind) == k;
        assert e in entries;
      }
      if exists e, a :: e in entries && a in e.attributes && e.hmac.id == h && KeyOf(a, kind) == k {
        var e, a :| e in entries && a in e.attributes && e.hmac.id == h && KeyOf(a, kind) == k;
        if e != e0 {
          assert e in entries[1..];
        }
      }
    }
  }
}
