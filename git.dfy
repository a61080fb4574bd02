/**
 * The repository as the scanner sees it. Opening the repository and go-git's object
 * access are not modelled; their answers are plain data here.
 */
module Git {
  import opened Wrappers

  type Hash = string

  /** A commit author: name and e-mail address. */
  datatype Signature = Signature(name: string, email: string)

  /** A commit object: its hash, author, message and parent hashes in the order
      `Parents()` yields them. */
  datatype Commit = Commit(hash: Hash, author: Signature, message: string, parents: seq<Hash>)

  /** A file of a commit tree; `contents` is `None` when `file.Contents()` fails. */
  datatype File = File(name: string, contents: Option<string>)

  /** The kind of a diff chunk: unchanged context, added or deleted text. */
  datatype ChunkKind = Equal | Add | Delete

  datatype Chunk = Chunk(kind: ChunkKind, content: string)

  /** The patch of one file: the path of the destination side and its chunks. */
  datatype FilePatch = FilePatch(toPath: string, chunks: seq<Chunk>)

  /** A branch reference: short name and tip commit hash. */
  datatype Branch = Branch(name: string, tip: Hash)

  /**
   * `branches`: what `r.Branches()` iterates, in order;
   * `objects`: `r.CommitObject` (a missing hash is a lookup error);
   * `trees`: the files of each commit's tree, by commit hash (missing: `Tree()` fails);
   * `log`: the commits `r.Log(&git.LogOptions{})` yields, in the order it yields them
   *        (go-git's default depth-first walk from HEAD), or `None`
   *        when the log or its iteration fails;
   * `diffs`: the patch of `parentTree.Diff(commitTree)`, by (parent, commit) hash
   *        (missing: the diff fails).
   */
  datatype Repository = Repository(
    branches: seq<Branch>,
    objects: map<Hash, Commit>,
    trees: map<Hash, seq<File>>,
    log: Option<seq<Commit>>,
    diffs: map<(Hash, Hash), seq<FilePatch>>)

  /** Why `getCommitDifferences` failed. */
  datatype DiffError = ParentTreeMissing | CommitTreeMissing | DiffFailed

  /** `fmt.Sprintf("%s <%s>", Name, Email)`. */
  function Author(sig: Signature): string
  {
    sig.name + " <" + sig.email + ">"
  }

  /** The parent the diff is taken against: the last one yielded, if any. */
  function DiffBase(c: Commit): (p: Option<Hash>)
    ensures p.None? <==> |c.parents| == 0
    ensures p.Some? ==> p.value in c.parents && p.value == c.parents[|c.parents| - 1]
  {
    if |c.parents| == 0 then None else Some(c.parents[|c.parents| - 1])
  }

  /** The changes `getCommitDifferences` returns for `c`, as a function. */
  function Differences(repo: Repository, c: Commit): Result<seq<FilePatch>, DiffError>
  {
    match DiffBase(c)
    case None => Ok([])
    case Some(p) =>
      if p !in repo.trees then Err(ParentTreeMissing)
      else if c.hash !in repo.trees then Err(CommitTreeMissing)
      else if (p, c.hash) !in repo.diffs then Err(DiffFailed)
      else Ok(repo.diffs[(p, c.hash)])
  }

  /** `getCommitDifferences`: the parent loop overwrites `parent` with every parent it
      sees, so the diff base is the last one; with no parent there are no changes and
      no error. */
  method CommitDifferences(repo: Repository, c: Commit) returns (r: Result<seq<FilePatch>, DiffError>)
    ensures |c.parents| == 0 ==> r == Ok([])
    ensures r.Err? <==> (|c.parents| > 0 &&
      (c.parents[|c.parents| - 1] !in repo.trees || c.hash !in repo.trees ||
       (c.parents[|c.parents| - 1], c.hash) !in repo.diffs))
    ensures r.Ok? && |c.parents| > 0 ==>
      (c.parents[|c.parents| - 1], c.hash) in repo.diffs &&
      r.value == repo.diffs[(c.parents[|c.parents| - 1], c.hash)]
    ensures r == Differences(repo, c)
  {
    var parent: Option<Hash> := None;
    for i := 0 to |c.parents|
      invariant parent == if i == 0 then None else Some(c.parents[i - 1])
    {
      parent := Some(c.parents[i]);
    }
    if parent.None? {
      return Ok([]);
    }
    var p := parent.value;
    if p !in repo.trees {
      return Err(ParentTreeMissing);
    }
    if c.hash !in repo.trees {
      return Err(CommitTreeMissing);
    }
    if (p, c.hash) !in repo.diffs {
      return Err(DiffFailed);
    }
    r := Ok(repo.diffs[(p, c.hash)]);
  }
}
