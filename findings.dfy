/**
 * The `validAWSKeysinfo` record and the final deduplication of the report.
 */
module Findings {
  import opened Sequences

  /** One confirmed pair with where it was seen. Equality is equality of all seven
      fields, as for the Go struct used as a map key. */
  datatype Finding = Finding(
    fileName: string,
    commitHash: string,
    branch: string,
    author: string,
    message: string,
    accessKey: string,
    secretKey: string)

  /** The five fields that say where a candidate pair was seen. */
  datatype Provenance = Provenance(
    fileName: string,
    commitHash: string,
    branch: string,
    author: string,
    message: string)

  /** The record built for a validated pair seen at `prov`. */
  function Stamp(prov: Provenance, accessKey: string, secretKey: string): (f: Finding)
    ensures ProvenanceOf(f) == prov && f.accessKey == accessKey && f.secretKey == secretKey
  {
    Finding(prov.fileName, prov.commitHash, prov.branch, prov.author, prov.message, accessKey, secretKey)
  }

  function ProvenanceOf(f: Finding): Provenance
  {
    Provenance(f.fileName, f.commitHash, f.branch, f.author, f.message)
  }

  /** The same record reported under branch `b`. */
  function Rebrand(b: string): Finding -> Finding
  {
    (f: Finding) => f.(branch := b)
  }

  /** The dedup step at the end of `main`: the first loop fills a set (the Go map with
      empty values), the second empties it into a fresh list in an unspecified order. */
  method Deduplicate(found: seq<Finding>) returns (unique: seq<Finding>)
    ensures Elements(unique) == Elements(found)
    ensures Distinct(unique)
    ensures |unique| == |Elements(found)|
  {
    var seen: set<Finding> := {};
    for i := 0 to |found|
      invariant seen == Elements(found[..i])
    {
      assert found[..i + 1] == found[..i] + [found[i]];
      seen := seen + {found[i]};
    }
    assert found[..|found|] == found;
    unique := [];
    var rest := seen;
    while rest != {}
      invariant rest <= seen
      invariant Elements(unique) + rest == seen
      invariant Elements(unique) !! rest
      invariant Distinct(unique)
      invariant |unique| + |rest| == |seen|
      decreases |rest|
    {
      var f :| f in rest;
      assert f !in Elements(unique);
      unique := unique + [f];
      rest := rest - {f};
    }
  }

  /** A duplicate-free list has as many distinct elements as entries, so deduplicating
      a report that is already duplicate-free keeps every record: the step is a fixed
      point on its own output. */
  lemma {:induction false} DistinctCardinality<T>(s: seq<T>)
    requires Distinct(s)
    ensures |Elements(s)| == |s|
  {
    if |s| > 0 {
      DistinctCardinality(s[1..]);
      assert Elements(s) == {s[0]} + Elements(s[1..]);
      assert s[0] !in Elements(s[1..]) by {
        forall j | 0 <= j < |s[1..]| ensures s[1..][j] != s[0] { assert s[1..][j] == s[j + 1]; }
      }
    }
  }
}
