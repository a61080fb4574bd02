/**
 * The whole scan: for every branch the tip snapshot and then the history replay,
 * all records collected in one list, which is finally deduplicated. A branch whose
 * tip commit or tree cannot be loaded, or a commit log that cannot be read, ends
 * the program with exit status 1 before anything is reported.
 */
module ScanPipeline {
  import opened Wrappers
  import opened Sequences
  import opened Extraction
  import opened Validation
  import opened Git
  import opened Findings
  import opened Pairing
  import opened Traversal

  /** Why the scan stops without a report. */
  datatype ScanError =
    | TipMissing(branch: string)      // `r.CommitObject(ref.Hash())` failed
    | TipTreeMissing(branch: string)  // `commit.Tree()` failed
    | LogUnavailable                  // `r.Log` or its iteration failed

  /** The branch's tip commit and its tree can be loaded. */
  predicate Resolves(repo: Repository, b: Branch)
  {
    b.tip in repo.objects && repo.objects[b.tip].hash in repo.trees
  }

  /** The snapshot records of a resolving branch. */
  function BranchSnapshot(unit: UnitScan, repo: Repository, b: Branch): seq<Finding>
    requires Resolves(repo, b)
  {
    var c := repo.objects[b.tip];
    SnapshotFindings(unit, b.name, c, repo.trees[c.hash])
  }

  /** What one branch appends: the snapshot of its tip's tree, then the replay of the
      log. */
  function BranchFindings(unit: UnitScan, repo: Repository, b: Branch): Result<seq<Finding>, ScanError>
  {
    if b.tip !in repo.objects then Err(TipMissing(b.name))
    else
      var c := repo.objects[b.tip];
      if c.hash !in repo.trees then Err(TipTreeMissing(b.name))
      else if repo.log.None? then Err(LogUnavailable)
      else Ok(BranchSnapshot(unit, repo, b) + HistoryFindings(unit, repo, b.name, repo.log.value))
  }

  /** The branches in order; the first failure ends the scan. */
  function ScanBranches(unit: UnitScan, repo: Repository, bs: seq<Branch>): Result<seq<Finding>, ScanError>
  {
    if |bs| == 0 then Ok([])
    else
      match ScanBranches(unit, repo, bs[..|bs| - 1])
      case Err(e) => Err(e)
      case Ok(before) =>
        match BranchFindings(unit, repo, bs[|bs| - 1])
        case Err(e) => Err(e)
        case Ok(more) => Ok(before + more)
  }

  /** Scanning one more branch after a failure changes nothing. */
  lemma {:induction false} ErrPersists(unit: UnitScan, repo: Repository, bs: seq<Branch>, i: nat)
    requires i <= |bs| && ScanBranches(unit, repo, bs[..i]).Err?
    ensures ScanBranches(unit, repo, bs) == ScanBranches(unit, repo, bs[..i])
    decreases |bs|
  {
    if i < |bs| {
      var pre := bs[..|bs| - 1];
      assert pre[..i] == bs[..i];
      ErrPersists(unit, repo, pre, i);
    } else {
      assert bs[..i] == bs;
    }
  }

  /** Scanning one more branch. */
  lemma BranchesStep(unit: UnitScan, repo: Repository, bs: seq<Branch>, i: nat)
    requires i < |bs|
    ensures ScanBranches(unit, repo, bs[..i + 1]) ==
      match ScanBranches(unit, repo, bs[..i])
      case Err(e) => Err(e)
      case Ok(before) =>
        match BranchFindings(unit, repo, bs[i])
        case Err(e) => Err(e)
        case Ok(more) => Ok(before + more)
  {
    assert bs[..i + 1][..i] == bs[..i];
  }

  /** The branch loop of `main` followed by the deduplication. The result is the
      deduplicated report, or the error the program exits with. */
  method Scan(v: Variant, probe: Probe, ghost unit: UnitScan, repo: Repository)
    returns (r: Result<seq<Finding>, ScanError>)
    requires ScansAs(unit, v, probe)
    ensures r.Err? <==> ScanBranches(unit, repo, repo.branches).Err?
    ensures r.Err? ==> r.error == ScanBranches(unit, repo, repo.branches).error
    ensures r.Ok? ==>
      Elements(r.value) == Elements(ScanBranches(unit, repo, repo.branches).value) && Distinct(r.value)
  {
    var bs := repo.branches;
    var all: seq<Finding> := [];
    for i := 0 to |bs|
      invariant ScanBranches(unit, repo, bs[..i]) == Ok(all)
    {
      var b := bs[i];
      BranchesStep(unit, repo, bs, i);
      if b.tip !in repo.objects {
        ErrPersists(unit, repo, bs, i + 1);
        return Err(TipMissing(b.name));
      }
      var c := repo.objects[b.tip];
      if c.hash !in repo.trees {
        ErrPersists(unit, repo, bs, i + 1);
        return Err(TipTreeMissing(b.name));
      }
      var snapshot := SnapshotPass(v, probe, unit, b.name, c, repo.trees[c.hash]);
      if repo.log.None? {
        ErrPersists(unit, repo, bs, i + 1);
        return Err(LogUnavailable);
      }
      var history := HistoryPass(v, probe, unit, repo, b.name, repo.log.value);
      all := all + (snapshot + history);
    }
    assert bs[..|bs|] == bs;
    var unique := Deduplicate(all);
    r := Ok(unique);
  }

  /** The scan fails exactly when some branch does not resolve, or when there is a
      branch at all and the log cannot be read. */
  lemma {:induction false} ScanFailsIff(unit: UnitScan, repo: Repository, bs: seq<Branch>)
    ensures ScanBranches(unit, repo, bs).Err? <==>
      (exists k :: 0 <= k < |bs| && !Resolves(repo, bs[k])) || (|bs| > 0 && repo.log.None?)
    decreases |bs|
  {
    if |bs| > 0 {
      var pre := bs[..|bs| - 1];
      ScanFailsIff(unit, repo, pre);
      forall k | 0 <= k < |pre| ensures pre[k] == bs[k] { }
      if exists k :: 0 <= k < |bs| && !Resolves(repo, bs[k]) {
        var k :| 0 <= k < |bs| && !Resolves(repo, bs[k]);
        if k < |pre| {
          assert !Resolves(repo, pre[k]);
        }
      }
    }
  }

  /** A successful scan reports exactly the records of the snapshots and replays of
      its branches. */
  lemma {:induction false} ScanMembership(unit: UnitScan, repo: Repository, bs: seq<Branch>, f: Finding)
    requires ScanBranches(unit, repo, bs).Ok?
    ensures repo.log.Some? || |bs| == 0
    ensures forall k :: 0 <= k < |bs| ==> Resolves(repo, bs[k])
    ensures f in ScanBranches(unit, repo, bs).value <==>
      exists k :: 0 <= k < |bs| &&
        (f in BranchSnapshot(unit, repo, bs[k]) || f in HistoryFindings(unit, repo, bs[k].name, repo.log.value))
    decreases |bs|
  {
    ScanFailsIff(unit, repo, bs);
    if |bs| > 0 {
      var pre, last := bs[..|bs| - 1], bs[|bs| - 1];
      assert ScanBranches(unit, repo, pre).Ok? && BranchFindings(unit, repo, last).Ok?;
      ScanMembership(unit, repo, pre, f);
      var more := BranchFindings(unit, repo, last).value;
      assert ScanBranches(unit, repo, bs).value == ScanBranches(unit, repo, pre).value + more;
      assert f in more <==>
        f in BranchSnapshot(unit, repo, last) || f in HistoryFindings(unit, repo, last.name, repo.log.value);
      forall k | 0 <= k < |pre| ensures pre[k] == bs[k] { }
    }
  }

  /** Every reported record is a pair the program's decision accepted, found under the
      name of one of the scanned branches. */
  lemma ScanSound(v: Variant, probe: Probe, unit: UnitScan, repo: Repository, f: Finding)
    requires ScansAs(unit, v, probe)
    requires ScanBranches(unit, repo, repo.branches).Ok?
    requires f in ScanBranches(unit, repo, repo.branches).value
    ensures Validate(v, probe(f.accessKey, f.secretKey))
    ensures exists k :: 0 <= k < |repo.branches| && f.branch == repo.branches[k].name
  {
    var bs := repo.branches;
    ScanMembership(unit, repo, bs, f);
    var k :| 0 <= k < |bs| &&
      (f in BranchSnapshot(unit, repo, bs[k]) || f in HistoryFindings(unit, repo, bs[k].name, repo.log.value));
    var c := repo.objects[bs[k].tip];
    if f in BranchSnapshot(unit, repo, bs[k]) {
      SnapshotProvenance(v, probe, unit, bs[k].name, c, repo.trees[c.hash], f);
    } else {
      HistoryProvenance(v, probe, unit, repo, bs[k].name, repo.log.value, f);
    }
  }

  /** One branch `main` whose tip is a root commit holding one file with an identifier
      line followed by a secret line that the service confirms: the scan reports
      exactly one record, with the branch, the commit's hash, author and message, the
      file name and the two keys. The root commit itself adds nothing from the
      history replay. */
  lemma SingleCommitScenario(v: Variant, probe: Probe, unit: UnitScan, repo: Repository, c: Commit,
                             name: string, id: string, sec: string)
    requires ScansAs(unit, v, probe)
    requires |id| == IdentifierLength && |sec| == SecretLength && IsKeyString(id) && IsKeyString(sec)
    requires probe(id, sec) == Succeeded
    requires |c.parents| == 0
    requires repo.branches == [Branch("main", c.hash)] && repo.objects == map[c.hash := c]
    requires repo.trees == map[c.hash := [File(name, Some(id + "\n" + sec))]]
    requires repo.log == Some([c])
    ensures ScanBranches(unit, repo, repo.branches) ==
      Ok([Finding(name, c.hash, "main", Author(c.author), c.message, id, sec)])
  {
    var b := Branch("main", c.hash);
    var expected := Finding(name, c.hash, "main", Author(c.author), c.message, id, sec);
    KeyPairFileSnapshot(v, probe, unit, "main", c, name, id, sec);
    assert BranchSnapshot(unit, repo, b) == [expected];
    RootCommitSilent(unit, repo, "main", c);
    assert HistoryFindings(unit, repo, "main", [c]) == [] by {
      assert Reversed([c]) == [] + [c];
      FlatMapSnoc([], c, CommitStep(unit, repo, "main"));
    }
    assert b.tip in repo.objects && repo.objects[b.tip] == c && c.hash in repo.trees;
    assert [expected] + [] == [expected];
    assert BranchFindings(unit, repo, b) == Ok([expected]);
    assert [b][..0] == [];
    assert ScanBranches(unit, repo, [b]) == Ok([] + [expected]);
    assert [] + [expected] == [expected];
  }
}
