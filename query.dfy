/**
 * The query evaluator of the mock EDV server. A query names one blind index
 * (an HMAC key id) and asks for the documents matching any of its `equals`
 * clauses (every `name=value` pair of the clause) followed by the documents
 * in every listed `has` slot. Equals results are deduplicated; has results
 * are appended as they are, so a document matching both parts appears twice.
 *
 * The folds below are the specification; the methods run the handler's
 * loops, with its early `break`, and are proved equal to them.
 */
module QueryEval {
  import opened EdvTypes
  import opened BlindIndex

  /** One `equals` clause: its `name: value` properties in property order. */
  type Clause = seq<(string, string)>

  /**
   * A posted query. An absent `equals` or `has` is the empty sequence: the
   * handler skips an absent one, and an empty one contributes nothing either.
   * Only `count: true` asks for a count.
   */
  datatype Query = Query(index: string, equals: seq<Clause>, has: seq<string>, count: bool)

  /** The `equals` slot a clause property is looked up in: the key an attribute with that name and value is indexed under. */
  function PairKey(p: (string, string)): string
  {
    EqualsKey(Attribute(p.0, p.1, false))
  }

  /** The keys of a clause's properties, in order; the pointwise ensures is there for the proofs that index into it. */
  function ClauseKeys(c: Clause): (keys: seq<string>)
    ensures |keys| == |c| && forall i :: 0 <= i < |c| ==> keys[i] == PairKey(c[i])
  {
    seq(|c|, i requires 0 <= i < |c| => PairKey(c[i]))
  }

  // ---------------------------------------------------------------------
  // Sequences standing for sets
  // ---------------------------------------------------------------------

  lemma NoDuplicatesCons(a: DocId, s: seq<DocId>)
    ensures NoDuplicates([a] + s) <==> a !in s && NoDuplicates(s)
  {
    var t := [a] + s;
    if a !in s && NoDuplicates(s) {
      forall i, j | 0 <= i < j < |t| ensures t[i] != t[j] {
        if i > 0 {
          assert t[i] == s[i - 1] && t[j] == s[j - 1];
        } else {
          assert t[j] in s;
        }
      }
    }
    if NoDuplicates(t) {
      forall j | 0 <= j < |s| ensures s[j] != a {
        assert t[0] == a && s[j] == t[j + 1];
      }
      forall i, j | 0 <= i < j < |s| ensures s[i] != s[j] {
        assert s[i] == t[i + 1] && s[j] == t[j + 1];
      }
    }
  }

  lemma NoDuplicatesSnoc(s: seq<DocId>, a: DocId)
    requires NoDuplicates(s) && a !in s
    ensures NoDuplicates(s + [a])
  {
    var t := s + [a];
    forall i, j | 0 <= i < j < |t| ensures t[i] != t[j] {
      if j == |s| {
        assert t[i] in s;
      }
    }
  }

  /** In a sequence without duplicates every member occurs exactly once. */
  lemma {:induction false} NoDuplicatesOnce(s: seq<DocId>, x: DocId)
    requires NoDuplicates(s)
    ensures multiset(s)[x] == if x in s then 1 else 0
    decreases |s|
  {
    if s != [] {
      assert s == [s[0]] + s[1..];
      NoDuplicatesCons(s[0], s[1..]);
      NoDuplicatesOnce(s[1..], x);
      assert multiset(s) == multiset{s[0]} + multiset(s[1..]);
    }
  }

  // ---------------------------------------------------------------------
  // One clause: the slots of its keys intersected, in the first slot's order
  // ---------------------------------------------------------------------

  /** `matches.filter(x => docs.includes(x))`. */
  function Filter(matches: seq<DocId>, docs: seq<DocId>): (r: seq<DocId>)
    ensures |r| <= |matches|
    decreases |matches|
  {
    if matches == [] then []
    else (if matches[0] in docs then [matches[0]] else []) + Filter(matches[1..], docs)
  }

  /** The filter keeps exactly the matches found in `docs`, and adds no duplicate. */
  lemma {:induction false} FilterMembers(matches: seq<DocId>, docs: seq<DocId>)
    ensures var r := Filter(matches, docs);
      && (forall x :: x in r <==> x in matches && x in docs)
      && |r| <= |matches|
      && (NoDuplicates(matches) ==> NoDuplicates(r))
    decreases |matches|
  {
    if matches != [] {
      var rest := Filter(matches[1..], docs);
      FilterMembers(matches[1..], docs);
      assert matches == [matches[0]] + matches[1..];
      NoDuplicatesCons(matches[0], matches[1..]);
      NoDuplicatesCons(matches[0], rest);
    }
  }

  /**
   * The filter works element by element, so it keeps the order of
   * `matches`: filtering a concatenation concatenates the filtered parts.
   */
  lemma {:induction false} FilterAppend(a: seq<DocId>, b: seq<DocId>, docs: seq<DocId>)
    ensures Filter(a + b, docs) == Filter(a, docs) + Filter(b, docs)
    decreases |a|
  {
    if a == [] {
      assert a + b == b;
    } else {
      FilterAppend(a[1..], b, docs);
      assert (a + b)[0] == a[0] && (a + b)[1..] == a[1..] + b;
    }
  }

  /** The inner loop after its first key: each further slot narrows the matches. */
  function Narrow(matches: seq<DocId>, slots: SlotMap, keys: seq<string>): (r: seq<DocId>)
    ensures |r| <= |matches|
    decreases |keys|
  {
    if keys == [] then matches
    else Narrow(Filter(matches, Find(slots, keys[0])), slots, keys[1..])
  }

  /** `matches || []` after the inner loop: no keys give no matches, else the first slot narrowed by the rest. */
  function Matches(slots: SlotMap, keys: seq<string>): (r: seq<DocId>)
    ensures keys != [] ==> |r| <= |Find(slots, keys[0])|
  {
    if keys == [] then [] else Narrow(Find(slots, keys[0]), slots, keys[1..])
  }

  lemma {:induction false} NarrowMembers(m: seq<DocId>, slots: SlotMap, keys: seq<string>, x: DocId)
    ensures x in Narrow(m, slots, keys) <==> x in m && forall k | k in keys :: x in Find(slots, k)
    decreases |keys|
  {
    if keys != [] {
      var m1 := Filter(m, Find(slots, keys[0]));
      FilterMembers(m, Find(slots, keys[0]));
      NarrowMembers(m1, slots, keys[1..], x);
      InAllSlotsCons(slots, keys, x);
    }
  }

  /** `x` is in the slot of every key exactly when it is in the first one's and in those of the rest. */
  lemma InAllSlotsCons(slots: SlotMap, keys: seq<string>, x: DocId)
    requires keys != []
    ensures (forall k | k in keys :: x in Find(slots, k))
      <==> x in Find(slots, keys[0]) && forall k | k in keys[1..] :: x in Find(slots, k)
  {
    assert keys == [keys[0]] + keys[1..];
  }

  lemma {:induction false} NarrowNoDuplicates(m: seq<DocId>, slots: SlotMap, keys: seq<string>)
    requires NoDuplicates(m)
    ensures NoDuplicates(Narrow(m, slots, keys))
    decreases |keys|
  {
    if keys != [] {
      FilterMembers(m, Find(slots, keys[0]));
      NarrowNoDuplicates(Filter(m, Find(slots, keys[0])), slots, keys[1..]);
    }
  }

  /** Once the matches are empty they stay empty: the handler's early `break` changes nothing. */
  lemma {:induction false} NarrowEmpty(slots: SlotMap, keys: seq<string>)
    ensures Narrow([], slots, keys) == []
    decreases |keys|
  {
    if keys != [] {
      NarrowEmpty(slots, keys[1..]);
    }
  }

  /** A document matches a list of keys exactly when the list is non-empty and every key's slot holds it. */
  lemma MatchesMembers(slots: SlotMap, keys: seq<string>, x: DocId)
    ensures x in Matches(slots, keys) <==> keys != [] && forall k | k in keys :: x in Find(slots, k)
  {
    if keys != [] {
      NarrowMembers(Find(slots, keys[0]), slots, keys[1..], x);
      assert keys == [keys[0]] + keys[1..];
    }
  }

  lemma MatchesNoDuplicates(slots: SlotMap, keys: seq<string>)
    requires WellFormedSlots(slots)
    ensures NoDuplicates(Matches(slots, keys))
  {
    if keys != [] {
      NarrowNoDuplicates(Find(slots, keys[0]), slots, keys[1..]);
    }
  }

  // ---------------------------------------------------------------------
  // All clauses: each clause's matches appended when not yet present
  // ---------------------------------------------------------------------

  /** `matches.forEach(x => { if(!results.includes(x)) results.push(x); })`. */
  function AppendNew(results: seq<DocId>, matches: seq<DocId>): (r: seq<DocId>)
    ensures results <= r
    decreases |matches|
  {
    if matches == [] then results
    else AppendNew(if matches[0] in results then results else results + [matches[0]], matches[1..])
  }

  /** The loop over the `equals` clauses. */
  function EqualsResults(results: seq<DocId>, slots: SlotMap, clauses: seq<Clause>): (r: seq<DocId>)
    ensures results <= r
    decreases |clauses|
  {
    if clauses == [] then results
    else EqualsResults(AppendNew(results, Matches(slots, ClauseKeys(clauses[0]))), slots, clauses[1..])
  }

  /** The ids a query returns, in order: the equals results, then the has matches. */
  function Results(index: Index, q: Query): (r: seq<DocId>)
    ensures q.equals == [] && q.has == [] ==> r == []
  {
    EqualsResults([], index.equals, q.equals) + Matches(index.has, q.has)
  }

  /** Appending keeps what was there, adds the matches, and adds nothing twice. */
  lemma {:induction false} AppendNewMembers(results: seq<DocId>, matches: seq<DocId>)
    ensures var r := AppendNew(results, matches);
      && results <= r
      && (forall x :: x in r <==> x in results || x in matches)
      && (NoDuplicates(results) ==> NoDuplicates(r))
    decreases |matches|
  {
    if matches != [] {
      var next := if matches[0] in results then results else results + [matches[0]];
      if matches[0] !in results && NoDuplicates(results) {
        NoDuplicatesSnoc(results, matches[0]);
      }
      AppendNewMembers(next, matches[1..]);
      assert matches == [matches[0]] + matches[1..];
      forall x ensures x in AppendNew(results, matches) <==> x in results || x in matches {
        assert x in next <==> x in results || x == matches[0];
      }
    }
  }

  /** A document matches a clause when the clause is non-empty and every property's slot holds it. */
  ghost predicate MatchesClause(slots: SlotMap, c: Clause, x: DocId)
  {
    c != [] && forall p | p in c :: x in Find(slots, PairKey(p))
  }

  lemma ClauseMembers(slots: SlotMap, c: Clause, x: DocId)
    ensures x in Matches(slots, ClauseKeys(c)) <==> MatchesClause(slots, c, x)
  {
    var keys := ClauseKeys(c);
    MatchesMembers(slots, keys, x);
    if MatchesClause(slots, c, x) {
      forall k | k in keys ensures x in Find(slots, k) {
        var i :| 0 <= i < |keys| && keys[i] == k;
        assert c[i] in c;
      }
    }
    if keys != [] && forall k | k in keys :: x in Find(slots, k) {
      forall p | p in c ensures x in Find(slots, PairKey(p)) {
        var i :| 0 <= i < |c| && c[i] == p;
        assert keys[i] in keys;
      }
    }
  }

  lemma {:induction false} EqualsResultsMembers(results: seq<DocId>, slots: SlotMap, clauses: seq<Clause>, x: DocId)
    ensures var r := EqualsResults(results, slots, clauses);
      && (x in r <==> x in results || exists c :: c in clauses && MatchesClause(slots, c, x))
      && (NoDuplicates(results) ==> NoDuplicates(r))
    decreases |clauses|
  {
    if clauses != [] {
      var m := Matches(slots, ClauseKeys(clauses[0]));
      AppendNewMembers(results, m);
      ClauseMembers(slots, clauses[0], x);
      EqualsResultsMembers(AppendNew(results, m), slots, clauses[1..], x);
      assert clauses == [clauses[0]] + clauses[1..];
      if exists c :: c in clauses && MatchesClause(slots, c, x) {
        var c :| c in clauses && MatchesClause(slots, c, x);
        if c != clauses[0] {
          assert c in clauses[1..];
        }
      }
    }
  }

  /**
   * A query returns a document exactly when some `equals` clause matches it
   * or every (and at least one) `has` name's slot holds it.
   */
  lemma ResultsMembers(index: Index, q: Query, x: DocId)
    ensures x in Results(index, q)
      <==> ((exists c :: c in q.equals && MatchesClause(index.equals, c, x))
            || (q.has != [] && forall n | n in q.has :: x in Find(index.has, n)))
  {
    EqualsResultsMembers([], index.equals, q.equals, x);
    MatchesMembers(index.has, q.has, x);
  }

  /**
   * In a well-formed index a document is returned once for matching the
   * `equals` part and once more for matching the `has` part, and never
   * more often.
   */
  lemma ResultsMultiplicity(index: Index, q: Query, x: DocId)
    requires WellFormed(index)
    ensures multiset(Results(index, q))[x]
      == (if exists c :: c in q.equals && MatchesClause(index.equals, c, x) then 1 else 0)
       + (if q.has != [] && forall n | n in q.has :: x in Find(index.has, n) then 1 else 0)
  {
    var e := EqualsResults([], index.equals, q.equals);
    var m := Matches(index.has, q.has);
    EqualsResultsMembers([], index.equals, q.equals, x);
    MatchesMembers(index.has, q.has, x);
    MatchesNoDuplicates(index.has, q.has);
    NoDuplicatesOnce(e, x);
    NoDuplicatesOnce(m, x);
    assert multiset(e + m) == multiset(e) + multiset(m);
  }

  // ---------------------------------------------------------------------
  // The handler's loops
  // ---------------------------------------------------------------------

  /** The inner loop over a clause's keys (or the `has` names), with its early `break`. */
  method MatchAll(slots: SlotMap, keys: seq<string>) returns (matches: seq<DocId>)
    ensures matches == Matches(slots, keys)
  {
    var found: Option<seq<DocId>> := None;
    var i := 0;
    while i < |keys|
      invariant 0 <= i <= |keys|
      invariant found.None? <==> i == 0
      invariant found.Some? ==> Narrow(found.value, slots, keys[i..]) == Matches(slots, keys)
    {
      var docs := Find(slots, keys[i]);
      if found.None? {
        assert keys[1..] == keys[i + 1..];
        found := Some(docs);
      } else {
        var narrowed := Filter(found.value, docs);
        NarrowStep(found.value, slots, keys, i);
        found := Some(narrowed);
        if |narrowed| == 0 {
          NarrowEmpty(slots, keys[i + 1..]);
          return [];
        }
      }
      i := i + 1;
    }
    if found.Some? {
      assert keys[i..] == [];
      return found.value;
    }
    return [];
  }

  /** One turn of the inner loop: the slot of key `i` narrows the matches. */
  lemma NarrowStep(m: seq<DocId>, slots: SlotMap, keys: seq<string>, i: nat)
    requires i < |keys|
    ensures Narrow(m, slots, keys[i..]) == Narrow(Filter(m, Find(slots, keys[i])), slots, keys[i + 1..])
  {
    assert keys[i..][0] == keys[i] && keys[i..][1..] == keys[i + 1..];
  }

  /** The `forEach` that appends a clause's matches not yet in the results. */
  method AppendAll(results: seq<DocId>, matches: seq<DocId>) returns (r: seq<DocId>)
    ensures r == AppendNew(results, matches)
  {
    r := results;
    for i := 0 to |matches|
      invariant AppendNew(r, matches[i..]) == AppendNew(results, matches)
    {
      assert matches[i..] == [matches[i]] + matches[i + 1..];
      if matches[i] !in r {
        r := r + [matches[i]];
      }
    }
  }

  /** The whole query against one index: the clause loop, then the `has` names. */
  method Evaluate(index: Index, q: Query) returns (ids: seq<DocId>)
    ensures ids == Results(index, q)
  {
    var results: seq<DocId> := [];
    for i := 0 to |q.equals|
      invariant EqualsResults(results, index.equals, q.equals[i..]) == EqualsResults([], index.equals, q.equals)
    {
      var matches := MatchAll(index.equals, ClauseKeys(q.equals[i]));
      assert q.equals[i..][1..] == q.equals[i + 1..];
      results := AppendAll(results, matches);
    }
    var hasMatches := MatchAll(index.has, q.has);
    ids := results + hasMatches;
  }
}
