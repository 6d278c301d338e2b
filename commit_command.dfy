/** src/command/commit.rs (and its copy in src/main.rs:385-463, which is the
    one `main` calls): `git poly commit -m <message>`. In each repository
    whose branch passes the filter, the worker reads the lines of
    `git status --porcelain`, stops at the first line that records a staged
    change, and runs `git commit -m <message>` only if it found one. The
    subprocesses are parameters: the lines each of them printed. */
module CommitCommand {
  import opened Common
  import Git

  /** The `changes` pattern `^(M|A|D) .*` (src/command/commit.rs:74): the
      index column of a porcelain line says added, deleted or modified and
      the worktree column is blank. `.*` matches whatever follows, since a
      line from `lines()` holds no newline. */
  predicate IsChangeLine(line: string) {
    |line| >= 2 && (line[0] == 'M' || line[0] == 'A' || line[0] == 'D') && line[1] == ' '
  }

  /** Item n of the status output is a readable line that records a staged change. */
  predicate IsChangeAt(lines: seq<Git.OutputLine>, n: nat)
    requires n < |lines|
  {
    lines[n].Utf8? && IsChangeLine(lines[n].text)
  }

  /** The first n items are all readable and none records a staged change. */
  predicate ClearBefore(lines: seq<Git.OutputLine>, n: nat)
    requires n <= |lines|
  {
    forall j :: 0 <= j < n ==> lines[j].Utf8? && !IsChangeLine(lines[j].text)
  }

  /** The value of the `has_modifications` block (src/command/commit.rs:39-50):
      `true` at the first change line, `false` when the lines run out, and the
      I/O error of the first item that is not UTF-8 (`result?`) if it comes
      before either. */
  function Modifications(lines: seq<Git.OutputLine>): (r: Result<bool>)
    ensures r.Err? ==> r.error == Io && exists n :: 0 <= n < |lines| && lines[n].NotUtf8?
    ensures r == Ok(true) ==> exists n :: 0 <= n < |lines| && IsChangeAt(lines, n)
    decreases |lines|
  {
    if lines == [] then Ok(false)
    else match lines[0]
      case NotUtf8 => Err(Io)
      case Utf8(line) =>
        if IsChangeLine(line) then assert IsChangeAt(lines, 0); Ok(true)
        else
          var r := Modifications(lines[1..]);
          assert r.Err? ==> exists n :: 0 <= n < |lines| && lines[n].NotUtf8? by {
            if r.Err? {
              var n :| 0 <= n < |lines| - 1 && lines[1..][n].NotUtf8?;
              assert lines[n + 1] == lines[1..][n];
            }
          }
          assert r == Ok(true) ==> exists n :: 0 <= n < |lines| && IsChangeAt(lines, n) by {
            if r == Ok(true) {
              var n :| 0 <= n < |lines| - 1 && IsChangeAt(lines[1..], n);
              assert lines[n + 1] == lines[1..][n];
              assert IsChangeAt(lines, n + 1);
            }
          }
          r
  }

  /** The scan in terms of positions: it answers `true` exactly when a change
      line comes before any unreadable item, `false` exactly when every line is
      readable and none is a change, and fails otherwise, at an unreadable item
      that no change line precedes. */
  lemma {:induction false} ModificationsMeaning(lines: seq<Git.OutputLine>)
    ensures Modifications(lines) == Ok(true) <==>
              exists n :: 0 <= n < |lines| && ClearBefore(lines, n) && IsChangeAt(lines, n)
    ensures Modifications(lines) == Ok(false) <==> ClearBefore(lines, |lines|)
    ensures Modifications(lines).Err? ==>
              Modifications(lines).error == Io &&
              exists n :: 0 <= n < |lines| && ClearBefore(lines, n) && lines[n].NotUtf8?
    decreases |lines|
  {
    if lines != [] {
      var tail := lines[1..];
      ModificationsMeaning(tail);
      if lines[0].Utf8? && !IsChangeLine(lines[0].text) {
        ClearBeforeShift(lines);
        if Modifications(lines) == Ok(true) {
          var m :| 0 <= m < |tail| && ClearBefore(tail, m) && IsChangeAt(tail, m);
          assert ClearBefore(lines, m + 1) && IsChangeAt(lines, m + 1);
        }
        if exists n :: 0 <= n < |lines| && ClearBefore(lines, n) && IsChangeAt(lines, n) {
          var n :| 0 <= n < |lines| && ClearBefore(lines, n) && IsChangeAt(lines, n);
          assert n != 0;
          assert ClearBefore(tail, n - 1) && IsChangeAt(tail, n - 1);
        }
        if Modifications(lines).Err? {
          var m :| 0 <= m < |tail| && ClearBefore(tail, m) && tail[m].NotUtf8?;
          assert ClearBefore(lines, m + 1) && lines[m + 1].NotUtf8?;
        }
      } else {
        assert ClearBefore(lines, 0);
        assert !ClearBefore(lines, |lines|) by {
          assert !(lines[0].Utf8? && !IsChangeLine(lines[0].text));
        }
      }
    }
  }

  lemma ClearBeforeShift(lines: seq<Git.OutputLine>)
    requires lines != [] && lines[0].Utf8? && !IsChangeLine(lines[0].text)
    ensures forall n :: 0 <= n < |lines| ==> (ClearBefore(lines, n + 1) <==> ClearBefore(lines[1..], n))
  {
    forall n | 0 <= n < |lines|
      ensures ClearBefore(lines, n + 1) <==> ClearBefore(lines[1..], n)
    {
      if ClearBefore(lines[1..], n) {
        forall j | 0 <= j < n + 1 ensures lines[j].Utf8? && !IsChangeLine(lines[j].text) {
          if j > 0 { assert lines[j] == lines[1..][j - 1]; }
        }
      }
    }
  }

  /** Lines after the first change line are never consulted. */
  lemma {:induction false} ModificationsStopAtFirstChange(lines: seq<Git.OutputLine>, more: seq<Git.OutputLine>)
    requires Modifications(lines) == Ok(true)
    ensures Modifications(lines + more) == Ok(true)
    decreases |lines|
  {
    assert (lines + more)[0] == lines[0];
    if lines[0].Utf8? && !IsChangeLine(lines[0].text) {
      assert (lines + more)[1..] == lines[1..] + more;
      ModificationsStopAtFirstChange(lines[1..], more);
    }
  }

  /** A porcelain line whose code is ` M` (changed, not staged), `??`
      (untracked) or `MM` (staged, then changed again): codes the `changes`
      pattern does not match, although `MM` has a staged part. */
  predicate HasUncommittedCode(line: string) {
    |line| >= 2 && line[..2] in {" M", "??", "MM"}
  }

  /** Readable lines with only those codes find no change to commit. */
  lemma {:induction false} UncommittedCodesFindNothing(lines: seq<Git.OutputLine>)
    requires forall j :: 0 <= j < |lines| ==> lines[j].Utf8? && HasUncommittedCode(lines[j].text)
    ensures Modifications(lines) == Ok(false)
    decreases |lines|
  {
    if lines != [] {
      var line := lines[0].text;
      assert line[0] == line[..2][0] && line[1] == line[..2][1];
      assert !IsChangeLine(line);
      UncommittedCodesFindNothing(lines[1..]);
    }
  }

  /** The `has_modifications` loop: reads status lines until a change line
      breaks out with `true`, the lines run out, or a line is unreadable.
      `read` is the number of items taken from the iterator. */
  method HasModifications(lines: seq<Git.OutputLine>) returns (r: Result<bool>, read: nat)
    ensures r == Modifications(lines)
    ensures read <= |lines|
    ensures r == Ok(true) ==> 0 < read && ClearBefore(lines, read - 1) && IsChangeAt(lines, read - 1)
    ensures r == Ok(false) ==> read == |lines|
    ensures r.Err? ==> 0 < read && ClearBefore(lines, read - 1) && lines[read - 1].NotUtf8?
  {
    read := 0;
    while true
      invariant read <= |lines|
      invariant ClearBefore(lines, read)
      invariant Modifications(lines) == Modifications(lines[read..])
      decreases |lines| - read
    {
      if read == |lines| {
        return Ok(false), read;
      }
      var item := lines[read];
      assert lines[read..][1..] == lines[read + 1..];
      read := read + 1;
      match item
      case NotUtf8 =>
        return Err(Io), read;
      case Utf8(line) =>
        if IsChangeLine(line) {
          return Ok(true), read;
        }
    }
  }

  /** What `doit` does in one repository. */
  datatype Step =
    | Skipped            // the branch filter rejected the repository
    | Failed(error: Error)
    | Clean              // nothing staged: no commit is run
    | Commit(message: string)

  /** The outputs `doit` reads for one repository: `git rev-parse` (for the
      branch filter) and `git status --porcelain`. */
  datatype RepoOutputs = RepoOutputs(branchOut: seq<Git.OutputLine>, statusOut: seq<Git.OutputLine>)

  /** doit (src/command/commit.rs:15-64, `command_thread` in src/main.rs:385-435). */
  function Doit(message: string, branch: Option<string -> bool>, outs: RepoOutputs): (r: Step)
    ensures r.Commit? ==> r.message == message
    ensures r.Failed? ==> r.error == Io || (Git.BranchFilter(branch, outs.branchOut).Err? && r.error == NoValue)
    ensures r.Skipped? <==> Git.BranchFilter(branch, outs.branchOut) == Ok(false)
  {
    match Git.BranchFilter(branch, outs.branchOut)
    case Err(e) => Failed(e)
    case Ok(false) => Skipped
    case Ok(true) =>
      match Modifications(outs.statusOut)
      case Err(e) => Failed(e)
      case Ok(found) => if found then Commit(message) else Clean
  }

  /** A commit is run exactly when the branch passes and a staged change is
      listed before any unreadable line, and it carries the given message. */
  lemma CommitsExactlyWhenStaged(message: string, branch: Option<string -> bool>, outs: RepoOutputs)
    ensures Doit(message, branch, outs).Commit? <==>
              Git.BranchFilter(branch, outs.branchOut) == Ok(true) &&
              exists n :: 0 <= n < |outs.statusOut| && ClearBefore(outs.statusOut, n) && IsChangeAt(outs.statusOut, n)
    ensures Doit(message, branch, outs).Commit? ==> Doit(message, branch, outs).message == message
  {
    ModificationsMeaning(outs.statusOut);
  }

  /** A repository the branch filter rejects is left before its status is
      read: its status output does not matter. */
  lemma SkippedIgnoresStatus(message: string, branch: Option<string -> bool>, outs: RepoOutputs, other: seq<Git.OutputLine>)
    requires Git.BranchFilter(branch, outs.branchOut) == Ok(false)
    ensures Doit(message, branch, outs) == Skipped
    ensures Doit(message, branch, RepoOutputs(outs.branchOut, other)) == Skipped
  {
  }

  /** A repository whose lines are all coded ` M`, `??` or `MM` is never
      committed, including the staged part of an `MM` file. */
  lemma UncommittedCodesNeverCommit(message: string, branch: Option<string -> bool>, outs: RepoOutputs)
    requires forall j :: 0 <= j < |outs.statusOut| ==> outs.statusOut[j].Utf8? && HasUncommittedCode(outs.statusOut[j].text)
    ensures !Doit(message, branch, outs).Commit?
  {
    UncommittedCodesFindNothing(outs.statusOut);
  }

  /** run (src/command/commit.rs:67-92, `commit` in src/main.rs:437-463): one
      worker per repository the iterator yields, each deciding on its own.
      `repos` holds, for each path `RepoWalk.RepoPaths` yields, in order,
      what the worker's subprocesses print there. */
  method Run(message: string, branch: Option<string -> bool>, repos: seq<RepoOutputs>) returns (steps: seq<Step>)
    ensures |steps| == |repos|
    ensures forall i :: 0 <= i < |repos| ==> steps[i] == Doit(message, branch, repos[i])
  {
    steps := [];
    for i := 0 to |repos|
      invariant |steps| == i
      invariant forall j :: 0 <= j < i ==> steps[j] == Doit(message, branch, repos[j])
    {
      var step: Step;
      match Git.BranchFilter(branch, repos[i].branchOut) {
        case Err(e) => step := Failed(e);
        case Ok(go) =>
          if !go {
            step := Skipped;
          } else {
            var staged, _ := HasModifications(repos[i].statusOut);
            match staged {
              case Err(e) => step := Failed(e);
              case Ok(found) => step := if found then Commit(message) else Clean;
            }
          }
      }
      steps := steps + [step];
    }
  }
}
