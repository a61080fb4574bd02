/**
 * One content unit (a file at a branch tip, or one diff chunk): extract both kinds
 * of candidates, try every identifier with every secret, and keep the pairs the
 * program's decision accepts.
 */
module Pairing {
  import opened Extraction
  import opened Newlines
  import opened Validation
  import opened Findings
  import opened Sequences

  /** The AWS probe is an oracle: the outcome of probing one (access key, secret key)
      pair. */
  type Probe = (string, string) -> Outcome

  /** Each match trimmed of its edge newlines. */
  function TrimAll(ms: seq<string>): (r: seq<string>)
    ensures |r| == |ms|
    ensures forall k :: 0 <= k < |ms| ==> r[k] == TrimNewlines(ms[k])
  {
    seq(|ms|, k requires 0 <= k < |ms| => TrimNewlines(ms[k]))
  }

  /** One access key with each secret in turn. */
  function Row(key: string, secrets: seq<string>): (r: seq<(string, string)>)
    ensures |r| == |secrets|
    ensures forall j :: 0 <= j < |secrets| ==> r[j] == (key, secrets[j])
  {
    seq(|secrets|, j requires 0 <= j < |secrets| => (key, secrets[j]))
  }

  /** The order in which the nested loops visit the pairs: identifier-major. */
  function Pairs(keys: seq<string>, secrets: seq<string>): (r: seq<(string, string)>)
    ensures |r| == |keys| * |secrets|
  {
    if |keys| == 0 then []
    else Pairs(keys[..|keys| - 1], secrets) + Row(keys[|keys| - 1], secrets)
  }

  /** Each (identifier index, secret index) pair has its own slot in the visiting order,
      so with m identifiers and n secrets there are m*n calls and each pair is tried
      exactly once. */
  lemma {:induction false} PairsIndex(keys: seq<string>, secrets: seq<string>, i: nat, j: nat)
    requires i < |keys| && j < |secrets|
    ensures i * |secrets| + j < |Pairs(keys, secrets)|
    ensures Pairs(keys, secrets)[i * |secrets| + j] == (keys[i], secrets[j])
    decreases |keys|
  {
    var m, n := |keys|, |secrets|;
    var pre := keys[..m - 1];
    assert Pairs(keys, secrets) == Pairs(pre, secrets) + Row(keys[m - 1], secrets);
    assert |Pairs(pre, secrets)| == (m - 1) * n;
    if i < m - 1 {
      PairsIndex(pre, secrets, i, j);
      assert pre[i] == keys[i];
    } else {
      assert i * n == (m - 1) * n;
    }
  }

  /** A pair is tried exactly when its key is a candidate identifier and its secret a
      candidate secret. */
  lemma {:induction false} PairsMembership(keys: seq<string>, secrets: seq<string>, a: string, b: string)
    ensures (a, b) in Pairs(keys, secrets) <==> a in keys && b in secrets
    decreases |keys|
  {
    if |keys| > 0 {
      var pre := keys[..|keys| - 1];
      PairsMembership(pre, secrets, a, b);
      assert keys == pre + [keys[|keys| - 1]];
      if (a, b) in Row(keys[|keys| - 1], secrets) {
        var j :| 0 <= j < |secrets| && Row(keys[|keys| - 1], secrets)[j] == (a, b);
        assert secrets[j] == b;
      }
      if a == keys[|keys| - 1] && b in secrets {
        var j :| 0 <= j < |secrets| && secrets[j] == b;
        assert Row(keys[|keys| - 1], secrets)[j] == (a, b);
      }
    }
  }

  /** The findings appended while the pairs are visited in order. */
  function Confirm(v: Variant, probe: Probe, prov: Provenance, pairs: seq<(string, string)>): seq<Finding>
  {
    if |pairs| == 0 then []
    else
      var (key, secret) := pairs[|pairs| - 1];
      Confirm(v, probe, prov, pairs[..|pairs| - 1]) +
        (if Validate(v, probe(key, secret)) then [Stamp(prov, key, secret)] else [])
  }

  /** A record is appended exactly for the pairs the decision accepts, and carries the
      unit's provenance. */
  lemma {:induction false} ConfirmMembership(v: Variant, probe: Probe, prov: Provenance,
                                            pairs: seq<(string, string)>, f: Finding)
    ensures f in Confirm(v, probe, prov, pairs) <==>
      ProvenanceOf(f) == prov && (f.accessKey, f.secretKey) in pairs &&
      Validate(v, probe(f.accessKey, f.secretKey))
    decreases |pairs|
  {
    if |pairs| > 0 {
      var pre := pairs[..|pairs| - 1];
      var (key, secret) := pairs[|pairs| - 1];
      ConfirmMembership(v, probe, prov, pre, f);
      assert pairs == pre + [(key, secret)];
      assert (f.accessKey, f.secretKey) in pairs <==>
        (f.accessKey, f.secretKey) in pre || (f.accessKey, f.secretKey) == (key, secret);
      assert f == Stamp(prov, key, secret) <==>
        ProvenanceOf(f) == prov && f.accessKey == key && f.secretKey == secret;
    }
  }

  /** The trimmed identifier and secret candidates of a text, paired. */
  function UnitPairs(text: string): seq<(string, string)>
  {
    Pairs(TrimAll(FindAllString(text, IdentifierLength)), TrimAll(FindAllString(text, SecretLength)))
  }

  function UnitFindings(v: Variant, probe: Probe, prov: Provenance, text: string): seq<Finding>
  {
    Confirm(v, probe, prov, UnitPairs(text))
  }

  /** Visiting one more identifier appends its row. */
  lemma PairsSnoc(keys: seq<string>, secrets: seq<string>, i: nat)
    requires i < |keys|
    ensures Pairs(keys[..i + 1], secrets) == Pairs(keys[..i], secrets) + Row(keys[i], secrets)
  {
    assert keys[..i + 1][..i] == keys[..i];
  }

  /** Pairing with one more secret appends one pair. */
  lemma RowSnoc(key: string, secrets: seq<string>, j: nat)
    requires j < |secrets|
    ensures Row(key, secrets[..j + 1]) == Row(key, secrets[..j]) + [(key, secrets[j])]
  {
  }

  /** Probing one more pair appends its record when the decision accepts it. */
  lemma ConfirmSnoc(v: Variant, probe: Probe, prov: Provenance, pairs: seq<(string, string)>,
                    key: string, secret: string)
    ensures Confirm(v, probe, prov, pairs + [(key, secret)]) ==
      Confirm(v, probe, prov, pairs) +
        (if Validate(v, probe(key, secret)) then [Stamp(prov, key, secret)] else [])
  {
    assert (pairs + [(key, secret)])[..|pairs|] == pairs;
  }

  /** The findings of consecutive stretches of pairs concatenate. */
  lemma {:induction false} ConfirmAppend(v: Variant, probe: Probe, prov: Provenance,
                                        a: seq<(string, string)>, b: seq<(string, string)>)
    ensures Confirm(v, probe, prov, a + b) == Confirm(v, probe, prov, a) + Confirm(v, probe, prov, b)
    decreases |b|
  {
    if |b| > 0 {
      var pre := b[..|b| - 1];
      ConfirmAppend(v, probe, prov, a, pre);
      assert (a + b)[..|a + b| - 1] == a + pre;
      assert (a + b)[|a + b| - 1] == b[|b| - 1];
    } else {
      assert a + b == a;
    }
  }

  /** The inner loop: one access key against every secret. As in the source, the
      access key variable is re-trimmed on every iteration; the secret is trimmed
      afresh each time. `calls` records every pair handed to the validator. */
  method ValidateRow(v: Variant, probe: Probe, prov: Provenance, accessKey: string, secretKeys: seq<string>)
    returns (found: seq<Finding>, calls: seq<(string, string)>)
    ensures calls == Row(TrimNewlines(accessKey), TrimAll(secretKeys))
    ensures found == Confirm(v, probe, prov, calls)
  {
    ghost var secrets := TrimAll(secretKeys);
    var key := accessKey;
    found, calls := [], [];
    for j := 0 to |secretKeys|
      invariant key == if j == 0 then accessKey else TrimNewlines(accessKey)
      invariant calls == Row(TrimNewlines(accessKey), secrets[..j])
      invariant found == Confirm(v, probe, prov, calls)
    {
      TrimIdempotent(accessKey);
      key := StripNewlines(key);
      var secretKey := StripNewlines(secretKeys[j]);
      assert secretKey == secrets[j];
      RowSnoc(key, secrets, j);
      ConfirmSnoc(v, probe, prov, calls, key, secretKey);
      calls := calls + [(key, secretKey)];
      if Validate(v, probe(key, secretKey)) {
        found := found + [Stamp(prov, key, secretKey)];
      }
    }
    assert secrets[..|secretKeys|] == secrets;
  }

  /** The nested `for` loops of both programs over one content unit: every identifier
      match, in order, against every secret match. */
  method ValidateUnit(v: Variant, probe: Probe, prov: Provenance, text: string)
    returns (found: seq<Finding>, calls: seq<(string, string)>)
    ensures calls == UnitPairs(text)
    ensures |calls| == |FindAllString(text, IdentifierLength)| * |FindAllString(text, SecretLength)|
    ensures found == Confirm(v, probe, prov, calls)
  {
    var accessKeys := FindAllString(text, IdentifierLength);
    var secretKeys := FindAllString(text, SecretLength);
    ghost var keys := TrimAll(accessKeys);
    found, calls := [], [];
    for i := 0 to |accessKeys|
      invariant calls == Pairs(keys[..i], TrimAll(secretKeys))
      invariant found == Confirm(v, probe, prov, calls)
    {
      var rowFound, rowCalls := ValidateRow(v, probe, prov, accessKeys[i], secretKeys);
      ConfirmAppend(v, probe, prov, calls, rowCalls);
      PairsSnoc(keys, TrimAll(secretKeys), i);
      calls := calls + rowCalls;
      found := found + rowFound;
    }
    assert keys[..|accessKeys|] == keys;
  }

  /** How the traversal sees the scan of one content unit: the findings of a text
      seen at a provenance. */
  type UnitScan = (Provenance, string) -> seq<Finding>

  /** The unit scan of program variant `v` probing with `probe`. */
  function Unit(v: Variant, probe: Probe): UnitScan
  {
    (prov: Provenance, text: string) => UnitFindings(v, probe, prov, text)
  }

  /** `unit` agrees with the pair loops of variant `v` on every unit. */
  ghost predicate ScansAs(unit: UnitScan, v: Variant, probe: Probe)
  {
    forall prov, text {:trigger UnitFindings(v, probe, prov, text)} ::
      unit(prov, text) == UnitFindings(v, probe, prov, text)
  }

  lemma UnitScansAs(v: Variant, probe: Probe)
    ensures ScansAs(Unit(v, probe), v, probe)
  {
  }

  /** The pair loops over one content unit, as the traversal loops call them. */
  method ScanUnit(v: Variant, probe: Probe, ghost unit: UnitScan, prov: Provenance, text: string)
    returns (found: seq<Finding>)
    requires ScansAs(unit, v, probe)
    ensures found == unit(prov, text)
  {
    var calls;
    found, calls := ValidateUnit(v, probe, prov, text);
    assert found == UnitFindings(v, probe, prov, text);
  }

  /** A record comes out of a unit exactly when its provenance is the unit's, its
      access key is a trimmed identifier match, its secret a trimmed secret match, and
      the program accepts the probe of that pair. */
  lemma UnitMembership(v: Variant, probe: Probe, prov: Provenance, text: string, f: Finding)
    ensures f in UnitFindings(v, probe, prov, text) <==>
      ProvenanceOf(f) == prov &&
      f.accessKey in TrimAll(FindAllString(text, IdentifierLength)) &&
      f.secretKey in TrimAll(FindAllString(text, SecretLength)) &&
      Validate(v, probe(f.accessKey, f.secretKey))
  {
    ConfirmMembership(v, probe, prov, UnitPairs(text), f);
    PairsMembership(TrimAll(FindAllString(text, IdentifierLength)), TrimAll(FindAllString(text, SecretLength)),
                    f.accessKey, f.secretKey);
  }

  /** The branch name only travels through the pair loops into the records: scanning
      the same pairs under another branch gives the same records, re-labelled. */
  lemma {:induction false} ConfirmRebrand(v: Variant, probe: Probe, prov: Provenance,
                                         pairs: seq<(string, string)>, b: string)
    ensures Confirm(v, probe, prov.(branch := b), pairs) == MapAll(Confirm(v, probe, prov, pairs), Rebrand(b))
    decreases |pairs|
  {
    if |pairs| > 0 {
      var pre := pairs[..|pairs| - 1];
      var (key, secret) := pairs[|pairs| - 1];
      ConfirmRebrand(v, probe, prov, pre, b);
      var last := if Validate(v, probe(key, secret)) then [Stamp(prov, key, secret)] else [];
      assert Stamp(prov.(branch := b), key, secret) == Rebrand(b)(Stamp(prov, key, secret));
      assert MapAll(Confirm(v, probe, prov, pre) + last, Rebrand(b)) ==
        MapAll(Confirm(v, probe, prov, pre), Rebrand(b)) + MapAll(last, Rebrand(b));
    }
  }

  /** The same for a unit scan tied to the pair loops. */
  lemma UnitRebrand(v: Variant, probe: Probe, unit: UnitScan, prov: Provenance, text: string, b: string)
    requires ScansAs(unit, v, probe)
    ensures unit(prov.(branch := b), text) == MapAll(unit(prov, text), Rebrand(b))
  {
    ConfirmRebrand(v, probe, prov, UnitPairs(text), b);
    assert unit(prov, text) == UnitFindings(v, probe, prov, text);
    assert unit(prov.(branch := b), text) == UnitFindings(v, probe, prov.(branch := b), text);
  }

  /** A unit whose only identifier candidate trims to `id` and whose only secret
      candidate trims to `sec` yields the one record for that pair exactly when the
      program accepts its probe. */
  lemma SinglePairUnit(v: Variant, probe: Probe, prov: Provenance, text: string, id: string, sec: string)
    requires TrimAll(FindAllString(text, IdentifierLength)) == [id]
    requires TrimAll(FindAllString(text, SecretLength)) == [sec]
    ensures UnitFindings(v, probe, prov, text) ==
      if Validate(v, probe(id, sec)) then [Stamp(prov, id, sec)] else []
  {
    assert UnitPairs(text) == [(id, sec)] by {
      assert [id][..0] == [];
      assert Pairs([id], [sec]) == Pairs([], [sec]) + Row(id, [sec]);
    }
    ConfirmSnoc(v, probe, prov, [], id, sec);
  }

  /** An identifier line followed by a secret line: each candidate list, trimmed, holds
      exactly that token. */
  lemma KeyPairLines(id: string, sec: string)
    requires |id| == IdentifierLength && |sec| == SecretLength && IsKeyString(id) && IsKeyString(sec)
    ensures TrimAll(FindAllString(id + "\n" + sec, IdentifierLength)) == [id]
    ensures TrimAll(FindAllString(id + "\n" + sec, SecretLength)) == [sec]
  {
    IdentifierThenSecret(id, sec);
    assert NoEdgeNewline(id) by { assert IsKeyChar(id[0]) && IsKeyChar(id[|id| - 1]); }
    assert NoEdgeNewline(sec) by { assert IsKeyChar(sec[0]) && IsKeyChar(sec[|sec| - 1]); }
    TrimUnique(0, id, 1);
    assert Repeat(0) + id + Repeat(1) == id + "\n";
    TrimUnique(1, sec, 0);
    assert Repeat(1) + sec + Repeat(0) == "\n" + sec;
  }

  /** A unit consisting of an identifier line and a secret line that the program
      accepts yields exactly the record of that pair. */
  lemma KeyPairLinesUnit(v: Variant, probe: Probe, unit: UnitScan, prov: Provenance, id: string, sec: string)
    requires ScansAs(unit, v, probe)
    requires |id| == IdentifierLength && |sec| == SecretLength && IsKeyString(id) && IsKeyString(sec)
    requires Validate(v, probe(id, sec))
    ensures unit(prov, id + "\n" + sec) == [Stamp(prov, id, sec)]
  {
    var text := id + "\n" + sec;
    assert UnitFindings(v, probe, prov, text) == [Stamp(prov, id, sec)] by {
      KeyPairLines(id, sec);
      SinglePairUnit(v, probe, prov, text, id, sec);
    }
  }
}
