/**
 * How the mock EDV server reads ids out of request routes: the vault id is
 * the route up to the last `/documents` (or `/query`), and `getDocId` takes
 * what follows the last `/documents/`. JavaScript's `lastIndexOf` and
 * `substr` are written out, including what they do when the separator is
 * missing.
 */
module Routes {

  /** The server's base URL and the root of its vault routes. */
  const BaseUrl: string := "http://localhost:9876"
  const Root: string := "/edvs"

  /** The id the server gives a vault created with identifier `uuid`. */
  function VaultUrl(uuid: string): string
  {
    BaseUrl + Root + "/" + uuid
  }

  /** An occurrence of `pat` starts at position `i` of `s`. */
  predicate OccursAt(s: string, pat: string, i: int)
  {
    0 <= i <= |s| - |pat| && s[i..i + |pat|] == pat
  }

  /** The last occurrence of `pat` that starts at or before `from`, or -1. */
  function SearchDown(s: string, pat: string, from: int): (i: int)
    requires from <= |s| - |pat|
    ensures i == -1 || 0 <= i <= from
    ensures i >= 0 ==> OccursAt(s, pat, i)
    ensures forall j :: i < j <= from ==> !OccursAt(s, pat, j)
    decreases from + 1
  {
    if from < 0 then -1
    else if s[from..from + |pat|] == pat then from
    else SearchDown(s, pat, from - 1)
  }

  /** `s.lastIndexOf(pat)`: the start of the last occurrence of `pat`, or -1 when there is none. */
  function LastIndexOf(s: string, pat: string): (i: int)
    ensures i == -1 || OccursAt(s, pat, i)
    ensures forall j :: i < j ==> !OccursAt(s, pat, j)
  {
    SearchDown(s, pat, |s| - |pat|)
  }

  /** `s.substr(0, n)`: the first `n` characters; a negative length gives "". */
  function Prefix(s: string, n: int): (r: string)
    ensures r <= s
    ensures 0 <= n <= |s| ==> |r| == n
    ensures n <= 0 ==> r == ""
    ensures n >= |s| ==> r == s
  {
    if n <= 0 then "" else if n >= |s| then s else s[..n]
  }

  /** `s.substr(start)` for a non-negative start: what follows position `start`, or "" past the end. */
  function Suffix(s: string, start: nat): (r: string)
    ensures start <= |s| ==> s == s[..start] + r
    ensures start >= |s| ==> r == ""
  {
    if start >= |s| then "" else s[start..]
  }

  /** The vault id in a route ending in `dir` (`/documents` for inserts, `/query` for queries). */
  function VaultIdOf(route: string, dir: string): (r: string)
    ensures r <= route
    ensures LastIndexOf(route, dir) < 0 ==> r == ""
  {
    Prefix(route, LastIndexOf(route, dir))
  }

  const DocumentsDir: string := "/documents/"

  /** `getDocId`: what follows the last `/documents/` of the route. */
  function GetDocId(route: string): (r: string)
    ensures |r| <= |route| && r == route[|route| - |r|..]
  {
    Suffix(route, LastIndexOf(route, DocumentsDir) + |DocumentsDir|)
  }

  /** The route of a vault's collection or query endpoint gives back the vault's id. */
  lemma VaultIdOfRoute(vaultId: string, dir: string)
    ensures VaultIdOf(vaultId + dir, dir) == vaultId
  {
    var route := vaultId + dir;
    assert OccursAt(route, dir, |vaultId|);
    assert route[..|vaultId|] == vaultId;
  }

  /** A document route gives back the document id, when the id has no `/` (a single route segment). */
  lemma GetDocIdOfRoute(vaultId: string, id: string)
    requires '/' !in id
    ensures GetDocId(vaultId + DocumentsDir + id) == id
  {
    var route := vaultId + DocumentsDir + id;
    var n := |vaultId|;
    assert OccursAt(route, DocumentsDir, n);
    var i := LastIndexOf(route, DocumentsDir);
    if i > n {
      SeparatorInId(vaultId, id, i);
      assert false;
    }
    assert route[n + |DocumentsDir|..] == id;
  }

  /** A later occurrence of `/documents/` would end in a `/` inside the id. */
  lemma SeparatorInId(vaultId: string, id: string, i: int)
    requires |vaultId| < i && OccursAt(vaultId + DocumentsDir + id, DocumentsDir, i)
    ensures '/' in id
  {
    var route := vaultId + DocumentsDir + id;
    // The last character of `/documents/` is a `/`.
    var last := |DocumentsDir| - 1;
    var k := i + last - |vaultId| - |DocumentsDir|;
    assert route[i..i + |DocumentsDir|][last] == '/';
    assert route[i + last] == id[k];
  }

  /**
   * Without that restriction the document id is cut: the id `a/documents/b`
   * is read back as `b`. This is a property of `getDocId` taken alone: the
   * `:docId` route segment matches a single path segment, so no handler
   * call receives such a route.
   */
  lemma GetDocIdCutsIds()
    ensures GetDocId(VaultUrl("v") + DocumentsDir + "a/documents/b") == "b"
  {
    var route := VaultUrl("v") + DocumentsDir + "a/documents/b";
    assert OccursAt(route, DocumentsDir, |route| - 12);
    assert route[|route| - 11..] == "documents/b";
    assert "documents/b"[0] != DocumentsDir[0];
    assert !OccursAt(route, DocumentsDir, |route| - 11);
    assert LastIndexOf(route, DocumentsDir) == |route| - 12;
    assert route[|route| - 1..] == "b";
  }
}
