/**
 * The two passes run for every branch: the tip snapshot (every file of the tip
 * commit's tree) and the history replay (every chunk of every commit's diff against
 * its last parent, in the reverse of the order `Log` yields the commits). Both hand each content unit to the pair
 * loops, seen here through a `UnitScan` that `ScansAs` ties to them.
 */
module Traversal {
  import opened Wrappers
  import opened Sequences
  import opened Validation
  import opened Git
  import opened Findings
  import opened Pairing
  import opened Extraction

  /** Where a unit was seen: the path, the commit's hash, author and message, and the
      branch being scanned. */
  function CommitProvenance(path: string, c: Commit, branch: string): (p: Provenance)
    ensures p.fileName == path && p.commitHash == c.hash && p.branch == branch
    ensures p.author == Author(c.author) && p.message == c.message
  {
    Provenance(path, c.hash, branch, Author(c.author), c.message)
  }

  // ---------------------------------------------------------------- tip snapshot

  /** Index of the first file whose contents cannot be read; `tree.Files().ForEach`
      stops there (and its error is ignored). */
  function FirstUnreadable(files: seq<File>): (k: nat)
    ensures k <= |files|
    ensures forall j :: 0 <= j < k ==> files[j].contents.Some?
    ensures k < |files| ==> files[k].contents.None?
  {
    if |files| == 0 || files[0].contents.None? then 0
    else 1 + FirstUnreadable(files[1..])
  }

  /** What one file of the tip tree contributes; an unreadable file contributes
      nothing (the snapshot stops before it anyway). */
  function FileStep(unit: UnitScan, branch: string, c: Commit): File -> seq<Finding>
  {
    (file: File) =>
      match file.contents
      case None => []
      case Some(text) => unit(CommitProvenance(file.name, c, branch), text)
  }

  /** What the snapshot pass of one branch appends. */
  function SnapshotFindings(unit: UnitScan, branch: string, c: Commit, files: seq<File>): seq<Finding>
  {
    FlatMap(files[..FirstUnreadable(files)], FileStep(unit, branch, c))
  }

  /** The tip-snapshot loop: each file's contents go through the pair loops, until a
      file cannot be read. */
  method SnapshotPass(v: Variant, probe: Probe, ghost unit: UnitScan, branch: string, c: Commit, files: seq<File>)
    returns (found: seq<Finding>)
    requires ScansAs(unit, v, probe)
    ensures found == SnapshotFindings(unit, branch, c, files)
  {
    found := [];
    var i := 0;
    while i < |files| && files[i].contents.Some?
      invariant i <= |files|
      invariant forall j :: 0 <= j < i ==> files[j].contents.Some?
      invariant found == FlatMap(files[..i], FileStep(unit, branch, c))
    {
      var unitFound := ScanUnit(v, probe, unit, CommitProvenance(files[i].name, c, branch), files[i].contents.value);
      assert files[..i + 1] == files[..i] + [files[i]];
      FlatMapSnoc(files[..i], files[i], FileStep(unit, branch, c));
      found := found + unitFound;
      i := i + 1;
    }
    assert i == FirstUnreadable(files);
  }

  /** Every snapshot record carries the tip commit's hash, author and message, the
      branch name and the name of a file read before the first unreadable one, and
      its pair passed the program's decision. */
  lemma SnapshotProvenance(v: Variant, probe: Probe, unit: UnitScan, branch: string, c: Commit,
                           files: seq<File>, f: Finding)
    requires ScansAs(unit, v, probe)
    requires f in SnapshotFindings(unit, branch, c, files)
    ensures f.commitHash == c.hash && f.branch == branch
    ensures f.author == Author(c.author) && f.message == c.message
    ensures exists k :: 0 <= k < FirstUnreadable(files) && files[k].name == f.fileName
    ensures Validate(v, probe(f.accessKey, f.secretKey))
  {
    var pre := files[..FirstUnreadable(files)];
    FlatMapMembership(pre, FileStep(unit, branch, c), f);
    var k :| 0 <= k < |pre| && f in FileStep(unit, branch, c)(pre[k]);
    assert pre[k].contents.Some?;
    UnitMembership(v, probe, CommitProvenance(pre[k].name, c, branch), pre[k].contents.value, f);
    assert files[k].name == f.fileName;
  }

  // ---------------------------------------------------------------- history replay

  /** What one chunk contributes, whatever its kind. */
  function ChunkStep(unit: UnitScan, prov: Provenance): Chunk -> seq<Finding>
  {
    (chunk: Chunk) => unit(prov, chunk.content)
  }

  /** What one file patch contributes: its chunks in order, under the patch's
      destination path. */
  function PatchStep(unit: UnitScan, branch: string, c: Commit): FilePatch -> seq<Finding>
  {
    (patch: FilePatch) => FlatMap(patch.chunks, ChunkStep(unit, CommitProvenance(patch.toPath, c, branch)))
  }

  /** Findings of one replayed commit; a commit whose differences cannot be computed
      is skipped. */
  function CommitFindings(unit: UnitScan, repo: Repository, branch: string, c: Commit): seq<Finding>
  {
    match Differences(repo, c)
    case Err(_) => []
    case Ok(patches) => FlatMap(patches, PatchStep(unit, branch, c))
  }

  /** What one replayed commit contributes. */
  function CommitStep(unit: UnitScan, repo: Repository, branch: string): Commit -> seq<Finding>
  {
    (c: Commit) => CommitFindings(unit, repo, branch, c)
  }

  /** Findings of the replay of a log, walked from its last entry to its first
      (newest-first logs are thus replayed oldest first only for a linear history). */
  function HistoryFindings(unit: UnitScan, repo: Repository, branch: string, log: seq<Commit>): seq<Finding>
  {
    FlatMap(Reversed(log), CommitStep(unit, repo, branch))
  }

  /** The loop over the chunks of one file patch. */
  method ChunksPass(v: Variant, probe: Probe, ghost unit: UnitScan, prov: Provenance, chunks: seq<Chunk>)
    returns (found: seq<Finding>)
    requires ScansAs(unit, v, probe)
    ensures found == FlatMap(chunks, ChunkStep(unit, prov))
  {
    found := [];
    for j := 0 to |chunks|
      invariant found == FlatMap(chunks[..j], ChunkStep(unit, prov))
    {
      var unitFound := ScanUnit(v, probe, unit, prov, chunks[j].content);
      assert chunks[..j + 1] == chunks[..j] + [chunks[j]];
      FlatMapSnoc(chunks[..j], chunks[j], ChunkStep(unit, prov));
      found := found + unitFound;
    }
    assert chunks[..|chunks|] == chunks;
  }

  /** The loop over the file patches of one commit. */
  method CommitPass(v: Variant, probe: Probe, ghost unit: UnitScan, branch: string, c: Commit,
                    patches: seq<FilePatch>)
    returns (found: seq<Finding>)
    requires ScansAs(unit, v, probe)
    ensures found == FlatMap(patches, PatchStep(unit, branch, c))
  {
    found := [];
    for i := 0 to |patches|
      invariant found == FlatMap(patches[..i], PatchStep(unit, branch, c))
    {
      var patchFound := ChunksPass(v, probe, unit, CommitProvenance(patches[i].toPath, c, branch), patches[i].chunks);
      assert patches[..i + 1] == patches[..i] + [patches[i]];
      FlatMapSnoc(patches[..i], patches[i], PatchStep(unit, branch, c));
      found := found + patchFound;
    }
    assert patches[..|patches|] == patches;
  }

  /** One replayed commit: its differences against its last parent, then the loops
      over their patches; when the differences fail the source reports the error and
      moves on (`continue`), so the commit contributes nothing. */
  method ReplayCommit(v: Variant, probe: Probe, ghost unit: UnitScan, repo: Repository, branch: string, c: Commit)
    returns (found: seq<Finding>)
    requires ScansAs(unit, v, probe)
    ensures found == CommitFindings(unit, repo, branch, c)
  {
    var changes := CommitDifferences(repo, c);
    if changes.Err? {
      return [];
    }
    found := CommitPass(v, probe, unit, branch, c, changes.value);
  }

  /** The history loop: the log is walked from its last entry to its first. */
  method HistoryPass(v: Variant, probe: Probe, ghost unit: UnitScan, repo: Repository, branch: string,
                     log: seq<Commit>)
    returns (found: seq<Finding>)
    requires ScansAs(unit, v, probe)
    ensures found == HistoryFindings(unit, repo, branch, log)
  {
    found := [];
    var i := |log|;
    while i > 0
      invariant 0 <= i <= |log|
      invariant found == FlatMap(Reversed(log[i..]), CommitStep(unit, repo, branch))
    {
      i := i - 1;
      var commitFound := ReplayCommit(v, probe, unit, repo, branch, log[i]);
      ReversedSuffix(log, i);
      FlatMapSnoc(Reversed(log[i + 1..]), log[i], CommitStep(unit, repo, branch));
      found := found + commitFound;
    }
    assert log[0..] == log;
  }

  /** A parentless commit contributes nothing to the replay. */
  lemma RootCommitSilent(unit: UnitScan, repo: Repository, branch: string, c: Commit)
    requires |c.parents| == 0
    ensures CommitFindings(unit, repo, branch, c) == []
  {
  }

  /** Replay order: for a log whose newer part precedes its older part, as `Log`
      lists it, the older commits' findings come first. */
  lemma HistoryOldestFirst(unit: UnitScan, repo: Repository, branch: string, newer: seq<Commit>, older: seq<Commit>)
    ensures HistoryFindings(unit, repo, branch, newer + older) ==
      HistoryFindings(unit, repo, branch, older) + HistoryFindings(unit, repo, branch, newer)
  {
    ReversedAppend(newer, older);
    FlatMapAppend(Reversed(older), Reversed(newer), CommitStep(unit, repo, branch));
  }

  /** Every commit of the log is replayed: a record is in the history findings exactly
      when it comes from one of the log's commits. */
  lemma HistoryMembership(unit: UnitScan, repo: Repository, branch: string, log: seq<Commit>, f: Finding)
    ensures f in HistoryFindings(unit, repo, branch, log) <==>
      exists k :: 0 <= k < |log| && f in CommitFindings(unit, repo, branch, log[k])
  {
    var step := CommitStep(unit, repo, branch);
    var rev := Reversed(log);
    FlatMapMembership(rev, step, f);
    if f in HistoryFindings(unit, repo, branch, log) {
      var j :| 0 <= j < |rev| && f in step(rev[j]);
      assert f in CommitFindings(unit, repo, branch, log[|log| - 1 - j]);
    }
    if exists k :: 0 <= k < |log| && f in CommitFindings(unit, repo, branch, log[k]) {
      var k :| 0 <= k < |log| && f in CommitFindings(unit, repo, branch, log[k]);
      assert rev[|log| - 1 - k] == log[k];
      assert f in step(rev[|log| - 1 - k]);
    }
  }

  /** No chunk is filtered out: the records of every chunk of every file patch of a
      commit's diff, added, deleted or unchanged context alike, are among the
      commit's findings, under the commit's own hash. */
  lemma EveryChunkScanned(v: Variant, probe: Probe, unit: UnitScan, repo: Repository, branch: string,
                          c: Commit, pi: nat, ci: nat, f: Finding)
    requires ScansAs(unit, v, probe)
    requires Differences(repo, c).Ok?
    requires pi < |Differences(repo, c).value| && ci < |Differences(repo, c).value[pi].chunks|
    requires f in UnitFindings(v, probe,
      CommitProvenance(Differences(repo, c).value[pi].toPath, c, branch),
      Differences(repo, c).value[pi].chunks[ci].content)
    ensures f in CommitFindings(unit, repo, branch, c)
    ensures f.commitHash == c.hash
  {
    var patches := Differences(repo, c).value;
    var prov := CommitProvenance(patches[pi].toPath, c, branch);
    FlatMapMembership(patches[pi].chunks, ChunkStep(unit, prov), f);
    FlatMapMembership(patches, PatchStep(unit, branch, c), f);
    UnitMembership(v, probe, prov, patches[pi].chunks[ci].content, f);
  }

  /** Every record of a replayed commit names that commit (not its parent): its hash,
      author and message; the commit has a parent and its diff against the last
      parent succeeded; the file is the destination path of one of the diff's
      patches; and the pair passed the program's decision. */
  lemma CommitRecord(v: Variant, probe: Probe, unit: UnitScan, repo: Repository, branch: string,
                     c: Commit, f: Finding)
    requires ScansAs(unit, v, probe)
    requires f in CommitFindings(unit, repo, branch, c)
    ensures |c.parents| > 0 && Differences(repo, c).Ok?
    ensures f.branch == branch && f.commitHash == c.hash && f.author == Author(c.author) && f.message == c.message
    ensures exists p :: p in Differences(repo, c).value && p.toPath == f.fileName
    ensures Validate(v, probe(f.accessKey, f.secretKey))
  {
    var patches := Differences(repo, c).value;
    FlatMapMembership(patches, PatchStep(unit, branch, c), f);
    var pi :| 0 <= pi < |patches| && f in PatchStep(unit, branch, c)(patches[pi]);
    var prov := CommitProvenance(patches[pi].toPath, c, branch);
    FlatMapMembership(patches[pi].chunks, ChunkStep(unit, prov), f);
    var ci :| 0 <= ci < |patches[pi].chunks| && f in ChunkStep(unit, prov)(patches[pi].chunks[ci]);
    UnitMembership(v, probe, prov, patches[pi].chunks[ci].content, f);
    assert patches[pi] in patches;
  }

  /** Every history record comes from one of the log's commits, as `CommitRecord`
      describes. */
  lemma HistoryProvenance(v: Variant, probe: Probe, unit: UnitScan, repo: Repository, branch: string,
                          log: seq<Commit>, f: Finding)
    requires ScansAs(unit, v, probe)
    requires f in HistoryFindings(unit, repo, branch, log)
    ensures f.branch == branch && Validate(v, probe(f.accessKey, f.secretKey))
    ensures exists k ::
      0 <= k < |log| && |log[k].parents| > 0 &&
      f.commitHash == log[k].hash && f.author == Author(log[k].author) && f.message == log[k].message &&
      Differences(repo, log[k]).Ok? &&
      (exists p :: p in Differences(repo, log[k]).value && p.toPath == f.fileName)
  {
    HistoryMembership(unit, repo, branch, log, f);
    var k :| 0 <= k < |log| && f in CommitFindings(unit, repo, branch, log[k]);
    CommitRecord(v, probe, unit, repo, branch, log[k], f);
  }

  /** The records of one file patch under branch `b1` are those under `b2`, re-labelled. */
  lemma PatchBranchBlind(v: Variant, probe: Probe, unit: UnitScan, b1: string, b2: string, c: Commit,
                         patch: FilePatch)
    requires ScansAs(unit, v, probe)
    ensures PatchStep(unit, b1, c)(patch) == MapAll(PatchStep(unit, b2, c)(patch), Rebrand(b1))
  {
    var p1, p2 := CommitProvenance(patch.toPath, c, b1), CommitProvenance(patch.toPath, c, b2);
    assert p1 == p2.(branch := b1);
    forall k | 0 <= k < |patch.chunks|
      ensures ChunkStep(unit, p1)(patch.chunks[k]) == MapAll(ChunkStep(unit, p2)(patch.chunks[k]), Rebrand(b1))
    {
      UnitRebrand(v, probe, unit, p2, patch.chunks[k].content, b1);
    }
    FlatMapMapAll(patch.chunks, ChunkStep(unit, p1), ChunkStep(unit, p2), Rebrand(b1));
  }

  /** The records of one replayed commit under branch `b1` are those under `b2`,
      re-labelled. */
  lemma CommitBranchBlind(v: Variant, probe: Probe, unit: UnitScan, repo: Repository, b1: string, b2: string,
                          c: Commit)
    requires ScansAs(unit, v, probe)
    ensures CommitFindings(unit, repo, b1, c) == MapAll(CommitFindings(unit, repo, b2, c), Rebrand(b1))
  {
    match Differences(repo, c)
    case Err(_) =>
    case Ok(patches) =>
      forall k | 0 <= k < |patches|
        ensures PatchStep(unit, b1, c)(patches[k]) == MapAll(PatchStep(unit, b2, c)(patches[k]), Rebrand(b1))
      {
        PatchBranchBlind(v, probe, unit, b1, b2, c, patches[k]);
      }
      FlatMapMapAll(patches, PatchStep(unit, b1, c), PatchStep(unit, b2, c), Rebrand(b1));
  }

  /** The history replay does not depend on the branch being scanned (the log is the
      one `Log` yields from HEAD, read again for every branch): under any two branch
      names it reports the same records in the same order, differing only in the
      branch field. */
  lemma HistoryBranchBlind(v: Variant, probe: Probe, unit: UnitScan, repo: Repository,
                           b1: string, b2: string, log: seq<Commit>)
    requires ScansAs(unit, v, probe)
    ensures HistoryFindings(unit, repo, b1, log) == MapAll(HistoryFindings(unit, repo, b2, log), Rebrand(b1))
  {
    var rev := Reversed(log);
    forall k | 0 <= k < |rev|
      ensures CommitStep(unit, repo, b1)(rev[k]) == MapAll(CommitStep(unit, repo, b2)(rev[k]), Rebrand(b1))
    {
      CommitBranchBlind(v, probe, unit, repo, b1, b2, rev[k]);
    }
    FlatMapMapAll(rev, CommitStep(unit, repo, b1), CommitStep(unit, repo, b2), Rebrand(b1));
  }

  /** A commit whose diff only removes the line pair `id`, `sec` of a file that still
      exists is reported under its own hash: deleted text is scanned like added text. */
  lemma RemovedPairReported(v: Variant, probe: Probe, unit: UnitScan, repo: Repository, branch: string,
                            c: Commit, path: string, id: string, sec: string)
    requires ScansAs(unit, v, probe)
    requires |id| == IdentifierLength && |sec| == SecretLength && IsKeyString(id) && IsKeyString(sec)
    requires Differences(repo, c) == Ok([FilePatch(path, [Chunk(Delete, id + "\n" + sec)])])
    requires Validate(v, probe(id, sec))
    ensures CommitFindings(unit, repo, branch, c) ==
      [Finding(path, c.hash, branch, Author(c.author), c.message, id, sec)]
  {
    var prov := CommitProvenance(path, c, branch);
    var patch := FilePatch(path, [Chunk(Delete, id + "\n" + sec)]);
    KeyPairLinesUnit(v, probe, unit, prov, id, sec);
    FlatMapSnoc([], patch.chunks[0], ChunkStep(unit, prov));
    assert [] + patch.chunks == patch.chunks;
    FlatMapSnoc([], patch, PatchStep(unit, branch, c));
    assert [] + [patch] == [patch];
  }

  /** A tip tree holding one readable file with an identifier line followed by a
      secret line the program accepts: the snapshot reports exactly that pair, under
      the file's name and the tip commit. */
  lemma KeyPairFileSnapshot(v: Variant, probe: Probe, unit: UnitScan, branch: string, c: Commit,
                            name: string, id: string, sec: string)
    requires ScansAs(unit, v, probe)
    requires |id| == IdentifierLength && |sec| == SecretLength && IsKeyString(id) && IsKeyString(sec)
    requires Validate(v, probe(id, sec))
    ensures SnapshotFindings(unit, branch, c, [File(name, Some(id + "\n" + sec))]) ==
      [Finding(name, c.hash, branch, Author(c.author), c.message, id, sec)]
  {
    var file := File(name, Some(id + "\n" + sec));
    KeyPairLinesUnit(v, probe, unit, CommitProvenance(name, c, branch), id, sec);
    assert FirstUnreadable([file]) == 1;
    assert [file][..1] == [file];
    FlatMapSnoc([], file, FileStep(unit, branch, c));
    assert [] + [file] == [file];
  }
}
