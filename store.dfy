/**
 * The document store, seen from the scan service: one collection of scan
 * documents kept in creation order (oldest first). Insertion appends the
 * document with its assigned identifier; a find with no filter returns the
 * most recently created documents first, cut to the requested limit.
 *
 * The limit follows the database driver: 0 means no limit and a negative
 * limit counts by its absolute value.
 */
module Store {
  import opened Schemas

  type Collection = seq<StoredDocument>

  /** Appends `doc` under identifier `id`; the stored document is returned. */
  function Insert(c: Collection, doc: ScanDocument, id: string): (res: (Collection, StoredDocument))
    ensures res.1.doc == doc && res.1.id == id
    ensures |res.0| == |c| + 1 && res.0[..|c|] == c && res.0[|c|] == res.1
  {
    var stored := StoredDocument(id, doc);
    (c + [stored], stored)
  }

  /** `s` in reverse order. */
  function Reverse<T>(s: seq<T>): (r: seq<T>)
    ensures |r| == |s|
    ensures forall i :: 0 <= i < |s| ==> r[i] == s[|s| - 1 - i]
  {
    if s == [] then [] else Reverse(s[1..]) + [s[0]]
  }

  /** How many documents a find over `n` documents returns for `limit`. */
  function FindCount(n: nat, limit: int): (k: nat)
    ensures k <= n
    ensures limit == 0 ==> k == n
    ensures limit != 0 ==> k <= (if limit < 0 then -limit else limit)
    ensures limit != 0 ==> k == n || k == if limit < 0 then -limit else limit
  {
    var bound := if limit < 0 then -limit else limit;
    if limit == 0 || bound >= n then n else bound
  }

  /** Unfiltered find, most recently created first, cut to the limit. */
  function Find(c: Collection, limit: int): (r: Collection)
    ensures |r| == FindCount(|c|, limit)
    ensures forall i :: 0 <= i < |r| ==> r[i] == c[|c| - 1 - i]
  {
    Reverse(c)[..FindCount(|c|, limit)]
  }
}
