/**
 * Values handled by the in-memory encrypted data vault (EDV) server:
 * vault configurations, encrypted documents with their blinded index
 * entries, and the per-hmac blind indexes.
 */
module EdvTypes {

  datatype Option<+T> = None | Some(value: T)

  /** A document id; index slots refer to documents by it. */
  type DocId = string

  /** A blinded attribute, as produced by the client's HMAC; opaque here. */
  datatype Attribute = Attribute(name: string, value: string, unique: bool)

  datatype Hmac = Hmac(id: string, algorithm: string)

  /** The attributes of one document blinded under one HMAC key. */
  datatype IndexEntry = IndexEntry(hmac: Hmac, attributes: seq<Attribute>)

  /** An encrypted document; `jwe` is the opaque ciphertext. */
  datatype Document = Document(id: DocId, sequence: nat, jwe: string, indexed: seq<IndexEntry>)

  /**
   * A map from slot key to the documents in that slot. The sequence stands
   * for a JavaScript `Set`: insertion-ordered, each member once.
   */
  type SlotMap = map<string, seq<DocId>>

  /** The blind index of one HMAC key: `name=value` slots and `name` slots. */
  datatype Index = Index(equals: SlotMap, has: SlotMap)

  /** The indexes of one vault, keyed by HMAC key id. */
  type IndexMap = map<string, Index>

  /** A vault configuration; `id` is assigned by the server on creation. */
  datatype Config = Config(
    id: string,
    controller: string,
    referenceId: Option<string>,
    keyAgreementKey: string,
    hmac: string)

  /** The key of the `equals` slot an attribute is indexed under. */
  function EqualsKey(a: Attribute): string
  {
    a.name + "=" + a.value
  }

  predicate NoDuplicates(s: seq<DocId>)
  {
    forall i, j :: 0 <= i < j < |s| ==> s[i] != s[j]
  }

  /** An empty index, as created the first time an HMAC key is used. */
  function EmptyIndex(): Index
  {
    Index(map[], map[])
  }

  /**
   * When attribute names contain no `=`, the `equals` slot key determines the
   * attribute's name and value: distinct attributes never share a slot.
   */
  lemma EqualsKeyInjective(a: Attribute, b: Attribute)
    requires '=' !in a.name && '=' !in b.name
    ensures EqualsKey(a) == EqualsKey(b) <==> a.name == b.name && a.value == b.value
  {
    if EqualsKey(a) == EqualsKey(b) {
      var ka, kb := EqualsKey(a), EqualsKey(b);
      if |a.name| < |b.name| {
        SeparatorInName(a, b);
        assert false;
      } else if |b.name| < |a.name| {
        SeparatorInName(b, a);
        assert false;
      }
      assert a.name == ka[..|a.name|] == kb[..|b.name|] == b.name;
      assert a.value == ka[|a.name| + 1..] == kb[|b.name| + 1..] == b.value;
    }
  }

  /** A shorter name in a shared key puts the separator inside the longer name. */
  lemma SeparatorInName(a: Attribute, b: Attribute)
    requires EqualsKey(a) == EqualsKey(b) && |a.name| < |b.name|
    ensures '=' in b.name
  {
    assert b.name[|a.name|] == EqualsKey(b)[|a.name|] == EqualsKey(a)[|a.name|] == '=';
  }

  /**
   * Without that restriction two different attributes can share a slot:
   * name `a=b` with value `c` and name `a` with value `b=c`.
   */
  lemma EqualsKeyCollision()
    ensures EqualsKey(Attribute("a=b", "c", false)) == EqualsKey(Attribute("a", "b=c", false))
  {
  }
}
