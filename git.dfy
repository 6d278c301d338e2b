/** src/git.rs: the part of `get_branch_name` that chooses its result from
    the lines `git rev-parse --abbrev-ref HEAD` printed, the branch filter of
    src/filter.rs built on it, and `relative_to_repo`, which finds the
    repository enclosing a path by looking for a `.git` beside each of the
    path's ancestors, deepest first. The subprocess and the file system are
    parameters: the printed lines, and a `present` predicate on the files
    that paths name (`Path::exists`). */
module Git {
  import opened Common

  /** One item of `BufRead::lines()` over a subprocess's stdout: a line, or
      the error it yields for bytes that are not UTF-8. */
  datatype OutputLine = Utf8(text: string) | NotUtf8

  /** get_branch_name (src/git.rs:19-29): "HEADLESS" when nothing was printed,
      otherwise the first line. */
  function BranchName(out: seq<OutputLine>): (r: Result<string>)
    ensures out == [] ==> r == Ok("HEADLESS")
    ensures out != [] ==> (r.Ok? <==> out[0].Utf8?)
    ensures out != [] && r.Ok? ==> r.value == out[0].text
    ensures r.Err? ==> r.error == NoValue
  {
    if out == [] then Ok("HEADLESS")
    else match out[0]
      case Utf8(line) => Ok(line)
      case NotUtf8 => Err(NoValue)
  }

  /** Only the first printed line matters. */
  lemma BranchNameReadsFirstLine(out: seq<OutputLine>, more: seq<OutputLine>)
    requires out != []
    ensures BranchName(out + more) == BranchName(out[..1])
  {
  }

  /** The per-repository branch filter (src/filter.rs:6-13, used as
      `if let Some(pattern) = branch_filter { if !filter::branch(..)? { return } }`):
      `Ok(true)` when the worker goes on. A pattern is an abstract predicate on
      branch names. */
  function BranchFilter(pattern: Option<string -> bool>, out: seq<OutputLine>): (r: Result<bool>)
    ensures pattern.None? ==> r == Ok(true)
    ensures r == Ok(true) <==>
              pattern.None? || (BranchName(out).Ok? && pattern.value(BranchName(out).value))
    ensures r.Err? ==> pattern.Some? && BranchName(out).Err?
  {
    match pattern
    case None => Ok(true)
    case Some(matches) =>
      match BranchName(out)
      case Ok(name) => Ok(matches(name))
      case Err(e) => Err(e)
  }

  /** A `PathBuf` as `Path::components` sees it: whether it starts at the
      root, whether it starts with a `CurDir` component (a leading `.`),
      and its normal components. */
  datatype FsPath = FsPath(absolute: bool, curDir: bool, comps: seq<string>)

  /** The file a path names, which the file system is asked about: a
      leading `.` names nothing of its own, so `./x` and `x` are one file. */
  datatype File = File(absolute: bool, comps: seq<string>)

  function Named(p: FsPath): File {
    File(p.absolute, p.comps)
  }

  /** `PathBuf::pop`: drops the last component; "./x" becomes ".", "."
      becomes "", and "" and "/" stay as they are. */
  function Pop(p: FsPath): (r: FsPath)
    ensures r.absolute == p.absolute
    ensures r.comps <= p.comps
    ensures p.comps != [] ==> |r.comps| == |p.comps| - 1 && r.curDir == p.curDir
    ensures p.comps == [] ==> !r.curDir
  {
    if p.comps != [] then FsPath(p.absolute, p.curDir, p.comps[..|p.comps| - 1])
    else if p.curDir then FsPath(p.absolute, false, [])
    else p
  }

  /** `PathBuf::push` of a single normal component. */
  function Push(p: FsPath, name: string): FsPath {
    FsPath(p.absolute, p.curDir, p.comps + [name])
  }

  /** The ancestor of `p` made of its first `k` normal components. */
  function Ancestor(p: FsPath, k: nat): FsPath
    requires k <= |p.comps|
  {
    FsPath(p.absolute, p.curDir, p.comps[..k])
  }

  /** The `.git` that sits in directory `dir`. */
  function GitDirIn(dir: FsPath): File {
    Named(Push(dir, ".git"))
  }

  /** Components printed as a relative path: "." alone for a lone `CurDir`. */
  function Show(curDir: bool, cs: seq<string>): string {
    if !curDir then Display(cs)
    else if cs == [] then "."
    else "./" + Display(cs)
  }

  /** `path.strip_prefix(repo)` for a repository that is one of the path's
      ancestors or the "" left by popping its leading `.`, as a string: the
      components after the repository, with the `.` in front when the
      repository does not have it. */
  function StripPrefix(p: FsPath, repo: FsPath): string
    requires |repo.comps| <= |p.comps|
  {
    Show(p.curDir && !repo.curDir, p.comps[|repo.comps|..])
  }

  datatype RepoSplit = RepoSplit(repo: FsPath, relative: string)

  /** The answer when the candidate beside the ancestor of length k exists: the
      repository is that ancestor's parent, the relative part the rest. */
  function SplitAt(p: FsPath, k: nat): (r: RepoSplit)
    requires k <= |p.comps|
    ensures r.repo.absolute == p.absolute && (r.repo.curDir ==> p.curDir)
    ensures r.repo.comps == p.comps[..if k == 0 then 0 else k - 1]
  {
    var repo := Pop(Ancestor(p, k));
    RepoSplit(repo, StripPrefix(p, repo))
  }

  /** What `relative_to_repo` returns once the ancestors longer than `k` have
      been tried. The ancestor with no components is "/" for an absolute
      path, "." for one that starts with `.`, and otherwise "", which is
      skipped. */
  function FindRepo(p: FsPath, present: File -> bool, k: nat): (r: Result<RepoSplit>)
    requires k <= |p.comps|
    ensures r.Ok? ==> present(GitDirIn(r.value.repo)) && r.value.repo.absolute == p.absolute
    ensures r.Ok? ==> |r.value.repo.comps| <= k
    ensures r.Err? ==> r.error == NotInRepo
    decreases k
  {
    if k == 0 then
      if (p.absolute || p.curDir) && present(GitDirIn(Pop(Ancestor(p, 0)))) then Ok(SplitAt(p, 0))
      else Err(NotInRepo)
    else if present(GitDirIn(Pop(Ancestor(p, k)))) then Ok(SplitAt(p, k))
    else FindRepo(p, present, k - 1)
  }

  /** relative_to_repo (src/git.rs:33-54, src/main.rs:144-164): the loop over
      `path.ancestors()` with its early return; `present` is `Path::exists`. */
  method RelativeToRepo(path: FsPath, present: File -> bool) returns (r: Result<RepoSplit>)
    ensures r == FindRepo(path, present, |path.comps|)
  {
    var k: nat := |path.comps|;
    while k > 0
      invariant k <= |path.comps|
      invariant FindRepo(path, present, |path.comps|) == FindRepo(path, present, k)
    {
      var parent := Ancestor(path, k);
      var repo := Pop(parent);
      repo := Push(repo, ".git");
      if present(Named(repo)) {
        repo := Pop(repo);
        return Ok(RepoSplit(repo, StripPrefix(path, repo)));
      }
      k := k - 1;
    }
    if path.absolute || path.curDir {
      var repo := Push(Pop(Ancestor(path, 0)), ".git");
      if present(Named(repo)) {
        repo := Pop(repo);
        return Ok(RepoSplit(repo, StripPrefix(path, repo)));
      }
    }
    return Err(NotInRepo);
  }

  /** "/" and "." are the only paths whose own `.git` is consulted: their
      ancestor with no components is the path itself. */
  predicate IsTop(p: FsPath) {
    p.comps == [] && (p.absolute || p.curDir)
  }

  /** What `relative_to_repo` promises. On success the repository is a prefix
      of the path (a strict one, unless the path is "/" or "."), its `.git`
      exists, the relative part is what `strip_prefix` leaves of the path,
      and no deeper candidate exists (the walk is deepest first). On failure
      no candidate exists at all and the error is `Error::RelativeToRepo`. */
  lemma {:induction false} FindRepoSound(p: FsPath, present: File -> bool, k: nat)
    requires k <= |p.comps|
    ensures var r := FindRepo(p, present, k);
      r.Ok? ==>
        && r.value.repo.absolute == p.absolute
        && (r.value.repo.curDir ==> p.curDir)
        && r.value.repo.comps <= p.comps
        && present(GitDirIn(r.value.repo))
        && r.value.relative == StripPrefix(p, r.value.repo)
        && (!IsTop(p) ==> |r.value.repo.comps| < |p.comps|)
        && forall j :: |r.value.repo.comps| < j < k ==> !present(GitDirIn(Ancestor(p, j)))
    ensures var r := FindRepo(p, present, k);
      r.Err? ==>
        && r.error == NotInRepo
        && (forall j :: 0 <= j < k ==> !present(GitDirIn(Ancestor(p, j))))
        && (p.absolute || p.curDir ==> !present(GitDirIn(Ancestor(p, 0))))
    decreases k
  {
    if k > 0 {
      assert Pop(Ancestor(p, k)) == Ancestor(p, k - 1);
      if !present(GitDirIn(Pop(Ancestor(p, k)))) {
        FindRepoSound(p, present, k - 1);
      }
    } else {
      assert GitDirIn(Pop(Ancestor(p, 0))) == GitDirIn(Ancestor(p, 0));
    }
  }

  /** The path's own `.git` is never consulted (except for "/" and "."): two
      file systems that differ only there give the same answer. */
  lemma {:induction false} FindRepoIgnoresOwnGitDir(p: FsPath, e1: File -> bool, e2: File -> bool, k: nat)
    requires k <= |p.comps|
    requires !IsTop(p)
    requires forall q :: q != GitDirIn(p) ==> e1(q) == e2(q)
    ensures FindRepo(p, e1, k) == FindRepo(p, e2, k)
    decreases k
  {
    if k > 0 {
      assert GitDirIn(Pop(Ancestor(p, k))) != GitDirIn(p) by {
        assert |GitDirIn(Pop(Ancestor(p, k))).comps| == k;
      }
      FindRepoIgnoresOwnGitDir(p, e1, e2, k - 1);
    } else if p.absolute || p.curDir {
      assert GitDirIn(Pop(Ancestor(p, 0))) != GitDirIn(p) by {
        assert |GitDirIn(p).comps| > 1;
      }
    }
  }

  /** A leading `./` changes how the repository is spelled and nothing else:
      `./x/y` and `x/y` find the same repository directory, or fail together,
      and leave the same relative part. The `.` ancestor of `./x/y` adds no
      candidate, since its `.git` is the one already tried beside `./x`. */
  lemma {:induction false} CurDirFindsSameRepo(cs: seq<string>, present: File -> bool, k: nat)
    requires 1 <= k <= |cs|
    ensures var r1 := FindRepo(FsPath(false, true, cs), present, k);
            var r2 := FindRepo(FsPath(false, false, cs), present, k);
      && r1.Ok? == r2.Ok?
      && (r1.Ok? ==> Named(r1.value.repo) == Named(r2.value.repo)
                     && r1.value.relative == r2.value.relative
                     && r1.value.repo.curDir)
    decreases k
  {
    var p := FsPath(false, true, cs);
    var q := FsPath(false, false, cs);
    assert GitDirIn(Pop(Ancestor(p, k))) == GitDirIn(Pop(Ancestor(q, k)));
    if !present(GitDirIn(Pop(Ancestor(p, k)))) {
      if k > 1 {
        CurDirFindsSameRepo(cs, present, k - 1);
      } else {
        assert GitDirIn(Pop(Ancestor(p, 0))) == GitDirIn(Pop(Ancestor(p, 1)));
      }
    }
  }
}
