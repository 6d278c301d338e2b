/** src/repoiterator.rs: `list_repos`, the walk that finds every repository
    below the current directory, and `RepoIterator`, the iterator the commands
    read the found paths from.

    The file system is a finite tree held in memory: a directory is either
    readable, with its entries in the order `read_dir` yields them, or not
    readable (`read_dir` fails). An entry is a name and a node, or the error
    `read_dir` may yield in place of an entry. A node that is not a directory
    (`is_dir` is false: a file, a broken link) is `NotDir`. The path regex is
    an abstract predicate on the path's string, and the channel is the
    sequence of messages sent on it. */
module RepoWalk {
  import opened Common

  /** A file name: its characters, or a name that is not valid UTF-8
      (`OsStr::to_str` gives `None`). */
  datatype Name = Text(text: string) | NotUtf8

  datatype Node = NotDir | Dir(listing: Listing)

  datatype Entry = Entry(name: Name, node: Node) | EntryError

  datatype Listing = Readable(entries: seq<Entry>) | Unreadable

  /** The directory entry that marks a repository: a directory named `.git`. */
  predicate IsGit(n: Name) {
    n == Text(".git")
  }

  predicate IsGitDir(e: Entry) {
    e.Entry? && IsGit(e.name) && e.node.Dir?
  }

  function Size(l: Listing): (r: nat)
    ensures r >= 1
    decreases l
  {
    match l
    case Unreadable => 1
    case Readable(es) => 1 + EntriesSize(es)
  }

  function EntriesSize(es: seq<Entry>): nat
    decreases es
  {
    if es == [] then 0 else EntriesSize(es[..|es| - 1]) + EntrySize(es[|es| - 1])
  }

  function EntrySize(e: Entry): nat
    decreases e
  {
    match e
    case Entry(_, Dir(l)) => 1 + Size(l)
    case _ => 1
  }

  /** A directory waiting on the `paths` stack: its path below ".", and what
      `read_dir` finds there. */
  datatype Pending = Pending(path: seq<Name>, listing: Listing)

  function StackSize(s: seq<Pending>): nat
    decreases |s|
  {
    if s == [] then 0 else StackSize(s[..|s| - 1]) + Size(s[|s| - 1].listing)
  }

  lemma {:induction false} StackSizeAppend(a: seq<Pending>, b: seq<Pending>)
    ensures StackSize(a + b) == StackSize(a) + StackSize(b)
    decreases |b|
  {
    if b != [] {
      assert (a + b)[..|a + b| - 1] == a + b[..|b| - 1];
      assert (a + b)[|a + b| - 1] == b[|b| - 1];
      StackSizeAppend(a, b[..|b| - 1]);
    } else {
      assert a + b == a;
    }
  }

  /** `Path::to_str` of "." followed by the given names: the components of the
      path as strings, when every name is UTF-8. */
  function ToStr(names: seq<Name>): Option<Path> {
    if forall i :: 0 <= i < |names| ==> names[i].Text? then
      Some(["."] + seq(|names|, i requires 0 <= i < |names| => names[i].text))
    else None
  }

  /** The names below "." of a path that `ToStr` produced. */
  function FromPath(p: Path): seq<Name>
    requires |p| >= 1
  {
    seq(|p| - 1, i requires 0 <= i < |p| - 1 => Text(p[i + 1]))
  }

  /** `ToStr` loses nothing: `FromPath` rebuilds the names. */
  lemma ToStrFromPath(q: seq<Name>)
    requires ToStr(q).Some?
    ensures |ToStr(q).value| >= 1 && FromPath(ToStr(q).value) == q
  {
    var p := ToStr(q).value;
    forall i | 0 <= i < |q| ensures FromPath(p)[i] == q[i] {
      assert p[i + 1] == q[i].text;
    }
  }

  /** What the `for entry in dir` loop has produced so far: the repository
      paths sent, the subdirectories pushed, and the error that ended it. */
  datatype DirScan = DirScan(found: seq<Path>, pushed: seq<Pending>, error: Option<Error>)

  /** One entry of a directory being read (src/repoiterator.rs:29-49). */
  function EntryStep(dir: seq<Name>, e: Entry, pattern: string -> bool, acc: DirScan): (r: DirScan)
    ensures acc.found <= r.found && |r.found| <= |acc.found| + 1
    ensures acc.pushed <= r.pushed && |r.pushed| <= |acc.pushed| + 1
    ensures r.found == acc.found || r.pushed == acc.pushed
    ensures r.error != acc.error ==> r.error == Some(Io) || r.error == Some(NoValue)
  {
    match e
    case EntryError => acc.(error := Some(Io))
    case Entry(name, NotDir) => acc
    case Entry(name, Dir(l)) =>
      if IsGit(name) then
        match ToStr(dir)
        case None => acc.(error := Some(NoValue))
        case Some(p) => if pattern(Display(p)) then acc.(found := acc.found + [p]) else acc
      else acc.(pushed := acc.pushed + [Pending(dir + [name], l)])
  }

  /** Some entry of the listing is a `.git` directory. */
  predicate HasGitDir(es: seq<Entry>) {
    exists e :: e in es && IsGitDir(e)
  }

  /** The `for entry in dir` loop over the entries of directory `dir`, which
      stops at the first error. The directories it pushes are smaller than
      the one read, so the walk ends. */
  function ScanEntries(dir: seq<Name>, es: seq<Entry>, pattern: string -> bool): (r: DirScan)
    ensures StackSize(r.pushed) <= EntriesSize(es)
    ensures r.error.None? || r.error == Some(Io) || r.error == Some(NoValue)
    decreases |es|
  {
    if es == [] then DirScan([], [], None)
    else
      var init := es[..|es| - 1];
      var acc := ScanEntries(dir, init, pattern);
      if acc.error.Some? then acc
      else
        var e := es[|es| - 1];
        var r := EntryStep(dir, e, pattern, acc);
        assert StackSize(r.pushed) <= EntriesSize(es) by {
          if r.pushed != acc.pushed {
            StackSizeAppend(acc.pushed, [Pending(dir + [e.name], e.node.listing)]);
          }
        }
        r
  }

  /** Every path a directory's scan sends is the directory itself, sent
      because a `.git` directory was found in it and the pattern holds on it.
      A scan that was not aborted and met a `.git` directory has sent the
      directory exactly when the pattern holds. */
  lemma {:induction false} ScanFinds(dir: seq<Name>, es: seq<Entry>, pattern: string -> bool)
    ensures var r := ScanEntries(dir, es, pattern);
      forall k :: 0 <= k < |r.found| ==> ToStr(dir) == Some(r.found[k]) && pattern(Display(r.found[k]))
    ensures ScanEntries(dir, es, pattern).found != [] ==> HasGitDir(es)
    ensures var r := ScanEntries(dir, es, pattern);
      r.error.None? && HasGitDir(es) ==>
        ToStr(dir).Some? && (pattern(Display(ToStr(dir).value)) <==> r.found != [])
    decreases |es|
  {
    if es != [] {
      ScanFinds(dir, es[..|es| - 1], pattern);
      LastEntry(es);
    }
  }

  /** What a listing holds is what all but its last entry hold, and that entry. */
  lemma LastEntry(es: seq<Entry>)
    requires es != []
    ensures HasGitDir(es) <==> HasGitDir(es[..|es| - 1]) || IsGitDir(es[|es| - 1])
    ensures EntryError in es <==> EntryError in es[..|es| - 1] || es[|es| - 1] == EntryError
  {
    var init := es[..|es| - 1];
    var e := es[|es| - 1];
    assert es == init + [e];
    if HasGitDir(init) {
      var g :| g in init && IsGitDir(g);
      assert g in es;
    }
    if HasGitDir(es) && !IsGitDir(e) {
      var g :| g in es && IsGitDir(g);
      assert g in init;
    }
  }

  /** A scan fails with `Error::IO` for an entry `read_dir` could not yield,
      or with `Error::None` when the directory holds a `.git` directory but
      its path is not UTF-8; it succeeds exactly when neither happens. */
  lemma {:induction false} ScanFails(dir: seq<Name>, es: seq<Entry>, pattern: string -> bool)
    ensures var r := ScanEntries(dir, es, pattern);
      r.error.Some? ==> (r.error == Some(Io) && EntryError in es)
                        || (r.error == Some(NoValue) && ToStr(dir).None? && HasGitDir(es))
    ensures ScanEntries(dir, es, pattern).error.None? <==>
              EntryError !in es && (ToStr(dir).Some? || !HasGitDir(es))
    decreases |es|
  {
    if es != [] {
      ScanFails(dir, es[..|es| - 1], pattern);
      LastEntry(es);
    }
  }

  /** Once the scan of a prefix has failed, the scan of the whole directory
      ends with that same failure. */
  lemma {:induction false} ScanErrorSticks(dir: seq<Name>, es: seq<Entry>, pattern: string -> bool, k: nat)
    requires k <= |es|
    requires ScanEntries(dir, es[..k], pattern).error.Some?
    ensures ScanEntries(dir, es, pattern) == ScanEntries(dir, es[..k], pattern)
    decreases |es|
  {
    if k < |es| {
      assert es[..|es| - 1][..k] == es[..k];
      ScanErrorSticks(dir, es[..|es| - 1], pattern, k);
    } else {
      assert es[..k] == es;
    }
  }

  /** The `for entry in dir` loop (src/repoiterator.rs:28-50). The pushes onto
      the `paths` stack are returned and made by the caller: nothing is popped
      while a directory is being read, so the stack ends the same. */
  method ReadDir(dir: seq<Name>, es: seq<Entry>, pattern: string -> bool)
    returns (found: seq<Path>, pushed: seq<Pending>, error: Option<Error>)
    ensures DirScan(found, pushed, error) == ScanEntries(dir, es, pattern)
  {
    found, pushed, error := [], [], None;
    var j := 0;
    while j < |es|
      invariant 0 <= j <= |es|
      invariant ScanEntries(dir, es[..j], pattern) == DirScan(found, pushed, None)
    {
      assert es[..j + 1][..j] == es[..j];
      match es[j] {
        case EntryError =>
          ScanErrorSticks(dir, es, pattern, j + 1);
          return found, pushed, Some(Io);
        case Entry(name, NotDir) =>
        case Entry(name, Dir(l)) =>
          if name == Text(".git") {
            var repoPath := ToStr(dir);
            if repoPath.None? {
              ScanErrorSticks(dir, es, pattern, j + 1);
              return found, pushed, Some(NoValue);
            }
            if pattern(Display(repoPath.value)) {
              found := found + [repoPath.value];
            }
          } else {
            pushed := pushed + [Pending(dir + [name], l)];
          }
      }
      j := j + 1;
    }
    assert es[..j] == es;
  }

  /** `send.send(Some(p))` for each path found, in order. */
  function Sends(found: seq<Path>): (r: seq<Option<Path>>)
    ensures |r| == |found|
    ensures forall k :: 0 <= k < |r| ==> r[k] == Some(found[k])
  {
    seq(|found|, k requires 0 <= k < |found| => Some(found[k]))
  }

  /** Everything `list_repos` writes: the messages sent on the channel, the
      directories reported on stderr as unreadable (in the order reported),
      and the error that aborted the walk. */
  datatype WalkOutput = WalkOutput(sent: seq<Option<Path>>, log: seq<seq<Name>>, error: Option<Error>)

  /** The `while let Some(path) = paths.pop()` loop from the given stack on,
      followed by the `None` sentinel (src/repoiterator.rs:25-60). The top of
      the stack is the last element. */
  function Walk(stack: seq<Pending>, pattern: string -> bool): WalkOutput
    decreases StackSize(stack)
  {
    if stack == [] then WalkOutput([None], [], None)
    else
      var top := stack[|stack| - 1];
      var rest := stack[..|stack| - 1];
      match top.listing
      case Unreadable =>
        var r := Walk(rest, pattern);
        r.(log := [top.path] + r.log)
      case Readable(es) =>
        var scan := ScanEntries(top.path, es, pattern);
        if scan.error.Some? then WalkOutput(Sends(scan.found), [], scan.error)
        else
          StackSizeAppend(rest, scan.pushed);
          var r := Walk(rest + scan.pushed, pattern);
          r.(sent := Sends(scan.found) + r.sent)
  }

  /** A walk ends in one of the two errors a directory's scan can raise, or
      in none. */
  lemma {:induction false} WalkErrors(stack: seq<Pending>, pattern: string -> bool)
    ensures var r := Walk(stack, pattern);
      r.error.None? || r.error == Some(Io) || r.error == Some(NoValue)
    decreases StackSize(stack)
  {
    if stack != [] {
      var top := stack[|stack| - 1];
      var rest := stack[..|stack| - 1];
      match top.listing
      case Unreadable =>
        WalkErrors(rest, pattern);
      case Readable(es) =>
        var scan := ScanEntries(top.path, es, pattern);
        if scan.error.None? {
          StackSizeAppend(rest, scan.pushed);
          WalkErrors(rest + scan.pushed, pattern);
        }
    }
  }

  /** The walk `list_repos` starts: a stack holding only "." (src/repoiterator.rs:16-22). */
  function WalkFromRoot(root: Listing, pattern: string -> bool): WalkOutput {
    Walk([Pending([], root)], pattern)
  }

  /** What the loop has written so far, followed by what the rest of the walk writes. */
  function Resume(sent: seq<Option<Path>>, log: seq<seq<Name>>, r: WalkOutput): WalkOutput {
    WalkOutput(sent + r.sent, log + r.log, r.error)
  }

  /** list_repos (src/repoiterator.rs:12-63). */
  method ListRepos(root: Listing, pattern: string -> bool) returns (out: WalkOutput)
    ensures out == WalkFromRoot(root, pattern)
  {
    var paths := [Pending([], root)];
    var sent: seq<Option<Path>> := [];
    var log: seq<seq<Name>> := [];
    ghost var all := Walk(paths, pattern);
    assert [] + all.sent == all.sent && [] + all.log == all.log;
    while paths != []
      invariant WalkFromRoot(root, pattern) == Resume(sent, log, Walk(paths, pattern))
      decreases StackSize(paths)
    {
      ghost var whole := paths;
      var top := paths[|paths| - 1];
      paths := paths[..|paths| - 1];
      match top.listing {
        case Unreadable =>
          assert whole == paths + [top];
          PopUnreadable(sent, log, paths, top, pattern);
          log := log + [top.path];
        case Readable(es) =>
          var found, pushed, error := ReadDir(top.path, es, pattern);
          PopReadable(sent, log, whole, pattern, found, pushed, error);
          sent := sent + Sends(found);
          if error.Some? {
            return WalkOutput(sent, log, error);
          }
          paths := paths + pushed;
      }
    }
    assert Walk(paths, pattern) == WalkOutput([None], [], None);
    assert log + [] == log;
    sent := sent + [None];
    return WalkOutput(sent, log, None);
  }

  /** Popping an unreadable directory logs it and goes on with the rest. */
  lemma PopUnreadable(sent: seq<Option<Path>>, log: seq<seq<Name>>, rest: seq<Pending>, top: Pending,
                      pattern: string -> bool)
    requires top.listing.Unreadable?
    ensures StackSize(rest) < StackSize(rest + [top])
    ensures Resume(sent, log, Walk(rest + [top], pattern))
            == Resume(sent, log + [top.path], Walk(rest, pattern))
  {
    var stack := rest + [top];
    assert stack[..|stack| - 1] == rest && stack[|stack| - 1] == top;
    var r := Walk(rest, pattern);
    assert (log + [top.path]) + r.log == log + ([top.path] + r.log);
  }

  /** Popping a readable directory sends what its scan found, then either
      stops at the scan's error or goes on with what the scan pushed on top
      of the rest, a smaller stack. */
  lemma PopReadable(sent: seq<Option<Path>>, log: seq<seq<Name>>, stack: seq<Pending>, pattern: string -> bool,
                    found: seq<Path>, pushed: seq<Pending>, error: Option<Error>)
    requires stack != [] && stack[|stack| - 1].listing.Readable?
    requires DirScan(found, pushed, error)
             == ScanEntries(stack[|stack| - 1].path, stack[|stack| - 1].listing.entries, pattern)
    ensures error.Some? ==>
              Resume(sent, log, Walk(stack, pattern)) == WalkOutput(sent + Sends(found), log, error)
    ensures error.None? ==>
              StackSize(stack[..|stack| - 1] + pushed) < StackSize(stack)
              && Resume(sent, log, Walk(stack, pattern))
                 == Resume(sent + Sends(found), log, Walk(stack[..|stack| - 1] + pushed, pattern))
  {
    var rest := stack[..|stack| - 1];
    StackSizeAppend(rest, pushed);
    if error.Some? {
      assert log + [] == log;
    } else {
      var r := Walk(rest + pushed, pattern);
      assert (sent + Sends(found)) + r.sent == sent + (Sends(found) + r.sent);
    }
  }

  /** Which directories of the tree a property collects. */
  datatype Want = RepoRoots | UnreadableDirs

  /** The paths of the directories at or below `path` that are repository
      roots (hold a `.git` directory), or that cannot be read, reached
      without entering a `.git` directory. This is the tree's own structure,
      with no stack and no order. */
  function Collect(path: seq<Name>, l: Listing, w: Want): (r: set<seq<Name>>)
    ensures forall q :: q in r ==> path <= q
    decreases l
  {
    match l
    case Unreadable => if w == UnreadableDirs then {path} else {}
    case Readable(es) =>
      (if w == RepoRoots && HasGitDir(es) then {path} else {})
      + CollectIn(path, es, w)
  }

  function CollectIn(path: seq<Name>, es: seq<Entry>, w: Want): (r: set<seq<Name>>)
    ensures forall q :: q in r ==> path <= q
    decreases es
  {
    if es == [] then {} else CollectIn(path, es[..|es| - 1], w) + CollectEntry(path, es[|es| - 1], w)
  }

  function CollectEntry(path: seq<Name>, e: Entry, w: Want): (r: set<seq<Name>>)
    ensures forall q :: q in r ==> |path| < |q| && path <= q
    decreases e
  {
    match e
    case Entry(n, Dir(l)) => if IsGit(n) then {} else Collect(path + [n], l, w)
    case _ => {}
  }

  function CollectOf(stack: seq<Pending>, w: Want): set<seq<Name>>
    decreases |stack|
  {
    if stack == [] then {}
    else CollectOf(stack[..|stack| - 1], w) + Collect(stack[|stack| - 1].path, stack[|stack| - 1].listing, w)
  }

  lemma {:induction false} CollectOfAppend(a: seq<Pending>, b: seq<Pending>, w: Want)
    ensures CollectOf(a + b, w) == CollectOf(a, w) + CollectOf(b, w)
    decreases |b|
  {
    if b != [] {
      assert (a + b)[..|a + b| - 1] == a + b[..|b| - 1];
      assert (a + b)[|a + b| - 1] == b[|b| - 1];
      CollectOfAppend(a, b[..|b| - 1], w);
    } else {
      assert a + b == a;
    }
  }

  /** The directories a directory's scan pushes hold, between them, exactly
      the wanted directories below its entries; an aborted scan pushes no
      more than that. */
  lemma {:induction false} ScanCollects(dir: seq<Name>, es: seq<Entry>, pattern: string -> bool, w: Want)
    ensures CollectOf(ScanEntries(dir, es, pattern).pushed, w) <= CollectIn(dir, es, w)
    ensures ScanEntries(dir, es, pattern).error.None? ==>
              CollectOf(ScanEntries(dir, es, pattern).pushed, w) == CollectIn(dir, es, w)
    decreases |es|
  {
    if es != [] {
      var init := es[..|es| - 1];
      var e := es[|es| - 1];
      var acc := ScanEntries(dir, init, pattern);
      ScanCollects(dir, init, pattern, w);
      assert CollectIn(dir, es, w) == CollectIn(dir, init, w) + CollectEntry(dir, e, w);
      if acc.error.None? {
        assert ScanEntries(dir, es, pattern) == EntryStep(dir, e, pattern, acc);
        EntryStepCollects(dir, e, pattern, acc, w);
      }
    }
  }

  /** One entry's step pushes, between them, the wanted directories below
      the entry, unless it ends the scan with an error. */
  lemma EntryStepCollects(dir: seq<Name>, e: Entry, pattern: string -> bool, acc: DirScan, w: Want)
    requires acc.error.None?
    ensures var r := EntryStep(dir, e, pattern, acc);
      CollectOf(r.pushed, w) <= CollectOf(acc.pushed, w) + CollectEntry(dir, e, w)
      && (r.error.None? ==> CollectOf(r.pushed, w) == CollectOf(acc.pushed, w) + CollectEntry(dir, e, w))
  {
    if e.Entry? && e.node.Dir? && !IsGit(e.name) {
      CollectOfAppend(acc.pushed, [Pending(dir + [e.name], e.node.listing)], w);
      assert CollectOf([Pending(dir + [e.name], e.node.listing)], w) == CollectEntry(dir, e, w);
    }
  }

  /** One pop of the walk, for the wanted directories: the stack's directories
      are the popped one's, what its scan pushed, and the rest. */
  lemma PopCollects(stack: seq<Pending>, pattern: string -> bool, w: Want)
    requires stack != [] && stack[|stack| - 1].listing.Readable?
    requires ScanEntries(stack[|stack| - 1].path, stack[|stack| - 1].listing.entries, pattern).error.None?
    ensures var top := stack[|stack| - 1];
      var scan := ScanEntries(top.path, top.listing.entries, pattern);
      CollectOf(stack, w) ==
        CollectOf(stack[..|stack| - 1] + scan.pushed, w)
        + (if w == RepoRoots && HasGitDir(top.listing.entries) then {top.path} else {})
  {
    var top := stack[|stack| - 1];
    ScanCollects(top.path, top.listing.entries, pattern, w);
    CollectOfAppend(stack[..|stack| - 1], ScanEntries(top.path, top.listing.entries, pattern).pushed, w);
  }

  /** The channel carries `None` once, last, exactly when the walk was not
      aborted. */
  lemma {:induction false} WalkSentinel(stack: seq<Pending>, pattern: string -> bool)
    ensures var r := Walk(stack, pattern);
      r.error.None? ==> r.sent != [] && r.sent[|r.sent| - 1] == None
    ensures var r := Walk(stack, pattern);
      forall i :: 0 <= i < |r.sent| && r.sent[i].None? ==> r.error.None? && i == |r.sent| - 1
    decreases StackSize(stack)
  {
    if stack != [] {
      var top := stack[|stack| - 1];
      var rest := stack[..|stack| - 1];
      match top.listing
      case Unreadable =>
        WalkSentinel(rest, pattern);
      case Readable(es) =>
        var scan := ScanEntries(top.path, es, pattern);
        if scan.error.None? {
          StackSizeAppend(rest, scan.pushed);
          WalkSentinel(rest + scan.pushed, pattern);
          var r := Walk(rest + scan.pushed, pattern);
          assert Walk(stack, pattern).sent == Sends(scan.found) + r.sent;
        }
    }
  }

  /** Path `p` is the string form of one of `repos` and satisfies the pattern. */
  predicate NamesRepo(p: Path, repos: set<seq<Name>>, pattern: string -> bool) {
    |p| >= 1 && ToStr(FromPath(p)) == Some(p) && FromPath(p) in repos && pattern(Display(p))
  }

  /** Every path in the messages names one of `repos`. */
  predicate AllNameRepos(sent: seq<Option<Path>>, repos: set<seq<Name>>, pattern: string -> bool) {
    forall i :: 0 <= i < |sent| && sent[i].Some? ==> NamesRepo(sent[i].value, repos, pattern)
  }

  lemma AllNameReposJoin(x: seq<Option<Path>>, y: seq<Option<Path>>, a: set<seq<Name>>, b: set<seq<Name>>, all: set<seq<Name>>, pattern: string -> bool)
    requires AllNameRepos(x, a, pattern) && AllNameRepos(y, b, pattern)
    requires a <= all && b <= all
    ensures AllNameRepos(x + y, all, pattern)
  {
    forall i | 0 <= i < |x + y| && (x + y)[i].Some?
      ensures NamesRepo((x + y)[i].value, all, pattern)
    {
      if i < |x| {
        assert NamesRepo(x[i].value, a, pattern);
      } else {
        assert NamesRepo(y[i - |x|].value, b, pattern);
      }
    }
  }

  /** The paths a popped directory's scan sends name that directory, a
      repository root of the stack's tree. */
  lemma FoundSound(stack: seq<Pending>, pattern: string -> bool)
    requires stack != [] && stack[|stack| - 1].listing.Readable?
    ensures var top := stack[|stack| - 1];
      AllNameRepos(Sends(ScanEntries(top.path, top.listing.entries, pattern).found), CollectOf(stack, RepoRoots), pattern)
  {
    var top := stack[|stack| - 1];
    var found := ScanEntries(top.path, top.listing.entries, pattern).found;
    ScanFinds(top.path, top.listing.entries, pattern);
    if found != [] {
      assert ToStr(top.path) == Some(found[0]);
      ToStrFromPath(top.path);
      assert top.path in Collect(top.path, top.listing, RepoRoots);
      assert CollectOf(stack, RepoRoots) == CollectOf(stack[..|stack| - 1], RepoRoots) + Collect(top.path, top.listing, RepoRoots);
    }
  }

  /** Soundness: every path sent is the path of a repository root of the
      tree (reached without entering `.git`) on which the pattern holds. */
  lemma {:induction false} WalkSound(stack: seq<Pending>, pattern: string -> bool)
    ensures AllNameRepos(Walk(stack, pattern).sent, CollectOf(stack, RepoRoots), pattern)
    decreases StackSize(stack)
  {
    if stack != [] {
      var top := stack[|stack| - 1];
      var rest := stack[..|stack| - 1];
      var all := CollectOf(stack, RepoRoots);
      assert all == CollectOf(rest, RepoRoots) + Collect(top.path, top.listing, RepoRoots);
      match top.listing
      case Unreadable =>
        WalkSound(rest, pattern);
        AllNameReposJoin([], Walk(rest, pattern).sent, {}, CollectOf(rest, RepoRoots), all, pattern);
        assert [] + Walk(rest, pattern).sent == Walk(stack, pattern).sent;
      case Readable(es) =>
        var scan := ScanEntries(top.path, es, pattern);
        FoundSound(stack, pattern);
        if scan.error.None? {
          StackSizeAppend(rest, scan.pushed);
          WalkSound(rest + scan.pushed, pattern);
          PopCollects(stack, pattern, RepoRoots);
          AllNameReposJoin(Sends(scan.found), Walk(rest + scan.pushed, pattern).sent,
                           all, CollectOf(rest + scan.pushed, RepoRoots), all, pattern);
        }
    }
  }

  /** Completeness: a walk that was not aborted has sent every repository
      root of the tree whose path satisfies the pattern; none of them has a
      name that is not UTF-8, since that aborts the walk. The pattern does
      not prune: repositories below a repository, or below one the pattern
      rejects, are found as well. */
  lemma {:induction false} WalkComplete(stack: seq<Pending>, pattern: string -> bool)
    ensures var r := Walk(stack, pattern);
      r.error.None? ==>
        forall q :: q in CollectOf(stack, RepoRoots) ==>
          ToStr(q).Some? && (pattern(Display(ToStr(q).value)) ==> Some(ToStr(q).value) in r.sent)
    decreases StackSize(stack)
  {
    if stack != [] {
      var top := stack[|stack| - 1];
      var rest := stack[..|stack| - 1];
      assert CollectOf(stack, RepoRoots) == CollectOf(rest, RepoRoots) + Collect(top.path, top.listing, RepoRoots);
      match top.listing
      case Unreadable =>
        WalkComplete(rest, pattern);
      case Readable(es) =>
        var scan := ScanEntries(top.path, es, pattern);
        ScanFinds(top.path, es, pattern);
        if scan.error.None? {
          StackSizeAppend(rest, scan.pushed);
          WalkComplete(rest + scan.pushed, pattern);
          PopCollects(stack, pattern, RepoRoots);
          var r := Walk(rest + scan.pushed, pattern);
          assert Walk(stack, pattern).sent == Sends(scan.found) + r.sent;
          if HasGitDir(es) {
            if pattern(Display(ToStr(top.path).value)) {
              assert Sends(scan.found)[0] == Some(ToStr(top.path).value);
            }
          }
        }
    }
  }

  /** The stderr report: every directory reported is an unreadable directory
      of the tree, and a walk that was not aborted reports every one of them. */
  lemma {:induction false} WalkLogsUnreadable(stack: seq<Pending>, pattern: string -> bool)
    ensures var r := Walk(stack, pattern);
      forall i :: 0 <= i < |r.log| ==> r.log[i] in CollectOf(stack, UnreadableDirs)
    ensures var r := Walk(stack, pattern);
      r.error.None? ==> forall q :: q in CollectOf(stack, UnreadableDirs) ==> q in r.log
    decreases StackSize(stack)
  {
    if stack != [] {
      var top := stack[|stack| - 1];
      var rest := stack[..|stack| - 1];
      assert CollectOf(stack, UnreadableDirs) == CollectOf(rest, UnreadableDirs) + Collect(top.path, top.listing, UnreadableDirs);
      match top.listing
      case Unreadable =>
        WalkLogsUnreadable(rest, pattern);
      case Readable(es) =>
        var scan := ScanEntries(top.path, es, pattern);
        if scan.error.None? {
          StackSizeAppend(rest, scan.pushed);
          WalkLogsUnreadable(rest + scan.pushed, pattern);
          PopCollects(stack, pattern, UnreadableDirs);
        }
    }
  }

  /** Every directory collected lies at or below its starting path, and no
      component below that path is `.git`: the walk never enters one. */
  lemma {:induction false} CollectAvoidsGit(path: seq<Name>, l: Listing, w: Want)
    ensures forall q :: q in Collect(path, l, w) ==>
      path <= q && forall i :: |path| <= i < |q| ==> !IsGit(q[i])
    decreases l
  {
    if l.Readable? {
      CollectInAvoidsGit(path, l.entries, w);
    }
  }

  lemma {:induction false} CollectInAvoidsGit(path: seq<Name>, es: seq<Entry>, w: Want)
    ensures forall q :: q in CollectIn(path, es, w) ==>
      path <= q && forall i :: |path| <= i < |q| ==> !IsGit(q[i])
    decreases es
  {
    if es != [] {
      CollectInAvoidsGit(path, es[..|es| - 1], w);
      CollectEntryAvoidsGit(path, es[|es| - 1], w);
    }
  }

  lemma {:induction false} CollectEntryAvoidsGit(path: seq<Name>, e: Entry, w: Want)
    ensures forall q :: q in CollectEntry(path, e, w) ==>
      path <= q && forall i :: |path| <= i < |q| ==> !IsGit(q[i])
    decreases e
  {
    match e
    case Entry(n, Dir(l)) =>
      if !IsGit(n) {
        CollectAvoidsGit(path + [n], l, w);
        forall q | q in Collect(path + [n], l, w)
          ensures path <= q && forall i :: |path| <= i < |q| ==> !IsGit(q[i])
        {
          assert q[|path|] == n;
        }
      }
    case _ =>
  }

  /** From ".", every path sent names a repository root of the tree,
      satisfies the pattern and has no `.git` component. */
  lemma ListReposSound(root: Listing, pattern: string -> bool)
    ensures var r := WalkFromRoot(root, pattern);
      AllNameRepos(r.sent, Collect([], root, RepoRoots), pattern)
      && forall i :: 0 <= i < |r.sent| && r.sent[i].Some? ==>
        r.sent[i].value[0] == "."
        && ".git" !in r.sent[i].value[1..]
  {
    var stack := [Pending([], root)];
    assert CollectOf(stack, RepoRoots) == Collect([], root, RepoRoots);
    WalkSound(stack, pattern);
    CollectAvoidsGit([], root, RepoRoots);
    var r := WalkFromRoot(root, pattern);
    forall i | 0 <= i < |r.sent| && r.sent[i].Some?
      ensures r.sent[i].value[0] == "." && ".git" !in r.sent[i].value[1..]
    {
      var p := r.sent[i].value;
      assert NamesRepo(p, Collect([], root, RepoRoots), pattern);
      var q := FromPath(p);
      assert ToStr(q) == Some(p);
      forall k | 1 <= k < |p| ensures p[k] != ".git" {
        assert q[k - 1] == Text(p[k]);
      }
    }
  }

  /** From ".", a walk that completes sends every repository root of the
      tree on which the pattern holds, and then the sentinel. */
  lemma ListReposComplete(root: Listing, pattern: string -> bool)
    ensures var r := WalkFromRoot(root, pattern);
      r.error.None? ==>
        (forall q :: q in Collect([], root, RepoRoots) ==>
           ToStr(q).Some? && (pattern(Display(ToStr(q).value)) ==> Some(ToStr(q).value) in r.sent))
        && r.sent != [] && r.sent[|r.sent| - 1] == None
  {
    var stack := [Pending([], root)];
    assert CollectOf(stack, RepoRoots) == Collect([], root, RepoRoots);
    WalkComplete(stack, pattern);
    WalkSentinel(stack, pattern);
  }

  /** A directory, and every directory below it, holds no two entries with
      the same UTF-8 name, as in a real file system. (Names that are not
      UTF-8 are all `NotUtf8` here, so they are left unconstrained.) */
  predicate DistinctNames(l: Listing)
    decreases l
  {
    match l
    case Unreadable => true
    case Readable(es) => UniqueTextNames(es) && forall i :: 0 <= i < |es| ==> EntryNamesDistinct(es[i])
  }

  predicate EntryNamesDistinct(e: Entry)
    decreases e
  {
    match e
    case Entry(_, Dir(l)) => DistinctNames(l)
    case _ => true
  }

  predicate UniqueTextNames(es: seq<Entry>) {
    forall i, j :: 0 <= i < j < |es| && es[i].Entry? && es[j].Entry? && es[i].name.Text? ==>
      es[i].name != es[j].name
  }

  /** Every name of the path is UTF-8. */
  predicate AllText(p: seq<Name>) {
    forall i :: 0 <= i < |p| ==> p[i].Text?
  }

  /** Every path sent on the channel is sent once. */
  predicate SentOnce(sent: seq<Option<Path>>) {
    forall i, j :: 0 <= i < j < |sent| && sent[i].Some? ==> sent[i] != sent[j]
  }

  /** The stack holds subtrees with distinct names, none of which lies
      inside another (for the paths that can be displayed). */
  predicate Spread(stack: seq<Pending>) {
    && (forall i :: 0 <= i < |stack| ==> DistinctNames(stack[i].listing))
    && forall i, j :: 0 <= i < |stack| && 0 <= j < |stack| && i != j && AllText(stack[j].path) ==>
         !(stack[i].path <= stack[j].path)
  }

  /** With distinct names a directory holds at most one `.git`, so its scan
      sends at most one path. */
  lemma {:induction false} ScanSendsAtMostOne(dir: seq<Name>, es: seq<Entry>, pattern: string -> bool)
    requires UniqueTextNames(es)
    ensures |ScanEntries(dir, es, pattern).found| <= 1
    decreases |es|
  {
    if es != [] {
      var init := es[..|es| - 1];
      assert UniqueTextNames(init) by {
        forall i, j | 0 <= i < j < |init| && init[i].Entry? && init[j].Entry? && init[i].name.Text?
          ensures init[i].name != init[j].name
        {
          assert init[i] == es[i] && init[j] == es[j];
        }
      }
      ScanSendsAtMostOne(dir, init, pattern);
      ScanFinds(dir, init, pattern);
      if ScanEntries(dir, init, pattern).found != [] {
        var g :| g in init && IsGitDir(g);
        var i :| 0 <= i < |init| && init[i] == g;
        assert es[i] == g;
      }
    }
  }

  /** `q` is what the scan of `dir` pushes for one of the entries `es`. */
  predicate PushedEntry(dir: seq<Name>, es: seq<Entry>, q: Pending) {
    exists i :: 0 <= i < |es| && es[i].Entry? && es[i].node == Dir(q.listing) && q.path == dir + [es[i].name]
  }

  /** Pushed directories with UTF-8 paths have different paths. */
  predicate PushedApart(ps: seq<Pending>) {
    forall k1, k2 :: 0 <= k1 < k2 < |ps| && ps[k1].path == ps[k2].path ==> !AllText(ps[k1].path)
  }

  /** Each directory a scan pushes is an entry of the directory read, one
      level down, and two of them with UTF-8 names have different paths. */
  lemma {:induction false} ScanPushes(dir: seq<Name>, es: seq<Entry>, pattern: string -> bool)
    requires UniqueTextNames(es)
    ensures var ps := ScanEntries(dir, es, pattern).pushed;
      (forall k :: 0 <= k < |ps| ==> PushedEntry(dir, es, ps[k])) && PushedApart(ps)
    decreases |es|
  {
    if es != [] {
      var init := es[..|es| - 1];
      assert UniqueTextNames(init) by {
        forall i, j | 0 <= i < j < |init| && init[i].Entry? && init[j].Entry? && init[i].name.Text?
          ensures init[i].name != init[j].name
        {
          assert init[i] == es[i] && init[j] == es[j];
        }
      }
      ScanPushes(dir, init, pattern);
      PushedInInit(dir, es, pattern);
    }
  }

  /** The step of `ScanPushes`: the last entry's push, if any, comes from an
      entry after all earlier pushes' entries. */
  lemma PushedInInit(dir: seq<Name>, es: seq<Entry>, pattern: string -> bool)
    requires es != [] && UniqueTextNames(es)
    requires var ps := ScanEntries(dir, es[..|es| - 1], pattern).pushed;
      (forall k :: 0 <= k < |ps| ==> PushedEntry(dir, es[..|es| - 1], ps[k])) && PushedApart(ps)
    ensures var ps := ScanEntries(dir, es, pattern).pushed;
      (forall k :: 0 <= k < |ps| ==> PushedEntry(dir, es, ps[k])) && PushedApart(ps)
  {
    var init := es[..|es| - 1];
    var before := ScanEntries(dir, init, pattern).pushed;
    var last := es[|es| - 1];
    PushStep(dir, es, pattern);
    forall k | 0 <= k < |before| ensures PushedEntry(dir, es, before[k]) {
      PushedEntryWiden(dir, es, before[k]);
    }
    if ScanEntries(dir, es, pattern).pushed != before {
      var q := Pending(dir + [last.name], last.node.listing);
      assert PushedEntry(dir, es, q) by {
        assert es[|es| - 1] == last;
      }
      forall k | 0 <= k < |before| && before[k].path == q.path
        ensures !AllText(before[k].path)
      {
        NewPushApart(dir, es, before[k]);
      }
    }
  }

  /** The last entry pushes at most one directory, one level down. */
  lemma PushStep(dir: seq<Name>, es: seq<Entry>, pattern: string -> bool)
    requires es != []
    ensures var before := ScanEntries(dir, es[..|es| - 1], pattern).pushed;
      var last := es[|es| - 1];
      var ps := ScanEntries(dir, es, pattern).pushed;
      ps == before || (last.Entry? && last.node.Dir? && ps == before + [Pending(dir + [last.name], last.node.listing)])
  {
    var acc := ScanEntries(dir, es[..|es| - 1], pattern);
    if acc.error.None? {
      EntryStepPush(dir, es[|es| - 1], pattern, acc);
    }
  }

  lemma EntryStepPush(dir: seq<Name>, e: Entry, pattern: string -> bool, acc: DirScan)
    ensures var ps := EntryStep(dir, e, pattern, acc).pushed;
      ps == acc.pushed || (e.Entry? && e.node.Dir? && ps == acc.pushed + [Pending(dir + [e.name], e.node.listing)])
  {
  }

  /** A pushed entry of all but the last entry is a pushed entry of all. */
  lemma PushedEntryWiden(dir: seq<Name>, es: seq<Entry>, q: Pending)
    requires es != [] && PushedEntry(dir, es[..|es| - 1], q)
    ensures PushedEntry(dir, es, q)
  {
    var init := es[..|es| - 1];
    var i :| 0 <= i < |init| && init[i].Entry? && init[i].node == Dir(q.listing) && q.path == dir + [init[i].name];
    assert es[i] == init[i];
  }

  /** An earlier push and the last entry's push have different UTF-8 paths. */
  lemma NewPushApart(dir: seq<Name>, es: seq<Entry>, q: Pending)
    requires es != [] && UniqueTextNames(es) && es[|es| - 1].Entry?
    requires PushedEntry(dir, es[..|es| - 1], q)
    requires q.path == dir + [es[|es| - 1].name]
    ensures !AllText(q.path)
  {
    var init := es[..|es| - 1];
    var last := es[|es| - 1];
    var i :| 0 <= i < |init| && init[i].Entry? && init[i].node == Dir(q.listing) && q.path == dir + [init[i].name];
    assert es[i] == init[i];
    assert (dir + [init[i].name])[|dir|] == init[i].name;
    assert (dir + [last.name])[|dir|] == last.name;
  }

  /** Every directory collected from a stack lies at or below one of the
      stack's directories. */
  lemma {:induction false} CollectOfMember(stack: seq<Pending>, q: seq<Name>, w: Want)
    ensures q in CollectOf(stack, w) ==> exists i :: 0 <= i < |stack| && stack[i].path <= q
    decreases |stack|
  {
    if stack != [] {
      var top := stack[|stack| - 1];
      var rest := stack[..|stack| - 1];
      CollectOfMember(rest, q, w);
      CollectAvoidsGit(top.path, top.listing, w);
      if q in CollectOf(rest, w) {
        var i :| 0 <= i < |rest| && rest[i].path <= q;
        assert stack[i] == rest[i];
      }
    }
  }

  /** Popping keeps the stack spread: the pushed directories lie below the
      popped one, side by side, and below no other directory of the stack. */
  lemma SpreadAfterPop(stack: seq<Pending>, pattern: string -> bool)
    requires Spread(stack) && stack != [] && stack[|stack| - 1].listing.Readable?
    ensures var top := stack[|stack| - 1];
      Spread(stack[..|stack| - 1] + ScanEntries(top.path, top.listing.entries, pattern).pushed)
  {
    var n := |stack| - 1;
    var top := stack[n];
    var rest := stack[..n];
    var es := top.listing.entries;
    var ps := ScanEntries(top.path, es, pattern).pushed;
    var s := rest + ps;
    ScanPushes(top.path, es, pattern);
    forall k | 0 <= k < |ps| ensures DistinctNames(ps[k].listing) {
      assert PushedEntry(top.path, es, ps[k]);
      var i :| 0 <= i < |es| && es[i].Entry? && es[i].node == Dir(ps[k].listing) && ps[k].path == top.path + [es[i].name];
      assert EntryNamesDistinct(es[i]);
    }
    forall i | 0 <= i < |s| ensures DistinctNames(s[i].listing) {
      if i < n { assert s[i] == stack[i]; } else { assert s[i] == ps[i - n]; }
    }
    forall k | 0 <= k < |ps| ensures |ps[k].path| == |top.path| + 1 && top.path <= ps[k].path {
      assert PushedEntry(top.path, es, ps[k]);
    }
    forall i, j | 0 <= i < |s| && 0 <= j < |s| && i != j && AllText(s[j].path)
      ensures !(s[i].path <= s[j].path)
    {
      SpreadPair(stack, ps, i, j);
    }
  }

  lemma SpreadPair(stack: seq<Pending>, ps: seq<Pending>, i: nat, j: nat)
    requires Spread(stack) && stack != []
    requires forall k :: 0 <= k < |ps| ==>
      |ps[k].path| == |stack[|stack| - 1].path| + 1 && stack[|stack| - 1].path <= ps[k].path
    requires PushedApart(ps)
    requires i < |stack| - 1 + |ps| && j < |stack| - 1 + |ps| && i != j
    requires AllText((stack[..|stack| - 1] + ps)[j].path)
    ensures !((stack[..|stack| - 1] + ps)[i].path <= (stack[..|stack| - 1] + ps)[j].path)
  {
    var n := |stack| - 1;
    var dir := stack[n].path;
    var s := stack[..n] + ps;
    if i < n && j < n {
      assert s[i] == stack[i] && s[j] == stack[j];
    } else if j < n {
      assert s[j] == stack[j];
      var p := ps[i - n].path;
      PrefixTrans(dir, p, stack[j].path);
    } else if i < n {
      assert s[i] == stack[i];
      var p := ps[j - n].path;
      assert AllText(dir) by {
        forall m | 0 <= m < |dir| ensures dir[m].Text? { assert p[m] == dir[m]; }
      }
      PrefixOfChild(stack[i].path, dir, p);
    } else {
      var k1 := i - n;
      var k2 := j - n;
      assert s[i] == ps[k1] && s[j] == ps[k2];
      assert |ps[k1].path| == |ps[k2].path|;
    }
  }

  lemma PrefixTrans(a: seq<Name>, b: seq<Name>, c: seq<Name>)
    ensures a <= b && b <= c ==> a <= c
  {
  }

  /** A prefix of a child's path is a prefix of its parent's, or the child's. */
  lemma PrefixOfChild(a: seq<Name>, dir: seq<Name>, p: seq<Name>)
    requires dir <= p && |p| == |dir| + 1
    ensures a <= p ==> a <= dir || a == p
  {
  }

  /** A directory whose path can be displayed is not collected again below
      the rest of a spread stack or below its own pushed entries. */
  lemma PoppedNotCollectedAgain(stack: seq<Pending>, pattern: string -> bool)
    requires Spread(stack) && stack != [] && stack[|stack| - 1].listing.Readable?
    requires AllText(stack[|stack| - 1].path)
    ensures var top := stack[|stack| - 1];
      top.path !in CollectOf(stack[..|stack| - 1] + ScanEntries(top.path, top.listing.entries, pattern).pushed, RepoRoots)
  {
    var top := stack[|stack| - 1];
    var es := top.listing.entries;
    SpreadTopUnique(stack);
    ScanPushes(top.path, es, pattern);
    NoneAbovePopped(stack, es, ScanEntries(top.path, es, pattern).pushed);
    CollectOfMember(stack[..|stack| - 1] + ScanEntries(top.path, es, pattern).pushed, top.path, RepoRoots);
  }

  lemma SpreadTopUnique(stack: seq<Pending>)
    requires Spread(stack) && stack != [] && stack[|stack| - 1].listing.Readable?
    ensures UniqueTextNames(stack[|stack| - 1].listing.entries)
  {
    assert DistinctNames(stack[|stack| - 1].listing);
  }

  /** No path of the rest of a spread stack, or of the top's pushed entries,
      is a prefix of the top's UTF-8 path. */
  lemma NoneAbovePopped(stack: seq<Pending>, es: seq<Entry>, ps: seq<Pending>)
    requires Spread(stack) && stack != [] && AllText(stack[|stack| - 1].path)
    requires forall k :: 0 <= k < |ps| ==> PushedEntry(stack[|stack| - 1].path, es, ps[k])
    ensures var s := stack[..|stack| - 1] + ps;
      forall i :: 0 <= i < |s| ==> !(s[i].path <= stack[|stack| - 1].path)
  {
    var n := |stack| - 1;
    var s := stack[..n] + ps;
    forall i | 0 <= i < |s| ensures !(s[i].path <= stack[n].path) {
      if i < n {
        assert s[i] == stack[i];
      } else {
        assert s[i] == ps[i - n];
        PushedIsChild(stack[n].path, es, ps[i - n]);
      }
    }
  }

  lemma PushedIsChild(dir: seq<Name>, es: seq<Entry>, q: Pending)
    requires PushedEntry(dir, es, q)
    ensures |q.path| == |dir| + 1
  {
  }

  /** The names of a path that `ToStr` can display are UTF-8. */
  lemma ToStrAllText(q: seq<Name>)
    requires ToStr(q).Some?
    ensures AllText(q)
  {
  }

  lemma SentOnceCons(found: seq<Path>, later: seq<Option<Path>>)
    requires |found| <= 1 && SentOnce(later)
    requires found != [] ==> Some(found[0]) !in later
    ensures SentOnce(Sends(found) + later)
  {
    var all := Sends(found) + later;
    forall i, j | 0 <= i < j < |all| && all[i].Some? ensures all[i] != all[j] {
      if i < |found| {
        assert all[j] == later[j - |found|];
      } else {
        assert all[i] == later[i - |found|] && all[j] == later[j - |found|];
      }
    }
  }

  /** No repository is sent twice: from a spread stack the `Some` messages
      are pairwise distinct. */
  lemma {:induction false} WalkSendsOnce(stack: seq<Pending>, pattern: string -> bool)
    requires Spread(stack)
    ensures SentOnce(Walk(stack, pattern).sent)
    decreases StackSize(stack)
  {
    if stack != [] {
      var top := stack[|stack| - 1];
      var rest := stack[..|stack| - 1];
      match top.listing
      case Unreadable =>
        assert Spread(rest) by {
          forall i, j | 0 <= i < |rest| && 0 <= j < |rest| && i != j && AllText(rest[j].path)
            ensures !(rest[i].path <= rest[j].path)
          {
            assert rest[i] == stack[i] && rest[j] == stack[j];
          }
        }
        WalkSendsOnce(rest, pattern);
      case Readable(es) =>
        var scan := ScanEntries(top.path, es, pattern);
        ScanSendsAtMostOne(top.path, es, pattern);
        if scan.error.Some? {
          SentOnceCons(scan.found, []);
          assert Sends(scan.found) + [] == Sends(scan.found);
        } else {
          StackSizeAppend(rest, scan.pushed);
          SpreadAfterPop(stack, pattern);
          WalkSendsOnce(rest + scan.pushed, pattern);
          var later := Walk(rest + scan.pushed, pattern).sent;
          if scan.found != [] {
            TopNotSentLater(stack, pattern);
          }
          SentOnceCons(scan.found, later);
        }
    }
  }

  /** The path a popped directory sends is not sent again by the rest of
      the walk. */
  lemma TopNotSentLater(stack: seq<Pending>, pattern: string -> bool)
    requires Spread(stack) && stack != [] && stack[|stack| - 1].listing.Readable?
    requires var top := stack[|stack| - 1];
      ScanEntries(top.path, top.listing.entries, pattern).found != []
    ensures var top := stack[|stack| - 1];
      var scan := ScanEntries(top.path, top.listing.entries, pattern);
      StackSize(stack[..|stack| - 1] + scan.pushed) < StackSize(stack)
      && Some(scan.found[0]) !in Walk(stack[..|stack| - 1] + scan.pushed, pattern).sent
  {
    var top := stack[|stack| - 1];
    var scan := ScanEntries(top.path, top.listing.entries, pattern);
    var s := stack[..|stack| - 1] + scan.pushed;
    StackSizeAppend(stack[..|stack| - 1], scan.pushed);
    ScanFinds(top.path, top.listing.entries, pattern);
    var p := scan.found[0];
    assert ToStr(top.path) == Some(p);
    ToStrAllText(top.path);
    ToStrFromPath(top.path);
    PoppedNotCollectedAgain(stack, pattern);
    WalkSound(s, pattern);
    var later := Walk(s, pattern).sent;
    forall j | 0 <= j < |later| ensures later[j] != Some(p) {
      if later[j].Some? {
        assert NamesRepo(later[j].value, CollectOf(s, RepoRoots), pattern);
      }
    }
  }

  /** From ".", in a tree with distinct names, no path is sent twice, and a
      walk that completes sends each repository root that the pattern
      accepts exactly once. */
  lemma ListReposSendsOnce(root: Listing, pattern: string -> bool)
    requires DistinctNames(root)
    ensures SentOnce(WalkFromRoot(root, pattern).sent)
    ensures var r := WalkFromRoot(root, pattern);
      r.error.None? ==>
        forall q :: q in Collect([], root, RepoRoots) && ToStr(q).Some? && pattern(Display(ToStr(q).value)) ==>
          SentExactlyOnce(r.sent, ToStr(q).value)
  {
    var r := WalkFromRoot(root, pattern);
    WalkSendsOnce([Pending([], root)], pattern);
    ListReposComplete(root, pattern);
    forall q | r.error.None? && q in Collect([], root, RepoRoots) && ToStr(q).Some? && pattern(Display(ToStr(q).value))
      ensures SentExactlyOnce(r.sent, ToStr(q).value)
    {
      var i :| 0 <= i < |r.sent| && r.sent[i] == Some(ToStr(q).value);
      assert forall j :: 0 <= j < |r.sent| && r.sent[j] == r.sent[i] ==> j == i;
    }
  }

  /** `p` is sent at exactly one position. */
  predicate SentExactlyOnce(sent: seq<Option<Path>>, p: Path) {
    exists i :: 0 <= i < |sent| && sent[i] == Some(p) && forall j :: 0 <= j < |sent| && sent[j] == Some(p) ==> j == i
  }

  /** The string form of a directory right below ".". */
  lemma ToStrOfOne(n: string)
    ensures ToStr([Text(n)]) == Some([".", n])
  {
    var names := [Text(n)];
    var texts := seq(|names|, i requires 0 <= i < |names| => names[i].text);
    assert ["."] + texts == [".", n];
  }

  /** The stack is last in, first out: of two repositories side by side,
      the one read last from the directory is sent first. */
  lemma WalkIsLastInFirstOut(pattern: string -> bool)
    requires forall p :: pattern(p)
    ensures var repo := Dir(Readable([Entry(Text(".git"), Dir(Readable([])))]));
      WalkFromRoot(Readable([Entry(Text("a"), repo), Entry(Text("b"), repo)]), pattern).sent
        == [Some([".", "b"]), Some([".", "a"]), None]
  {
    var git := Readable([Entry(Text(".git"), Dir(Readable([])))]);
    var a := Pending([Text("a")], git);
    var b := Pending([Text("b")], git);
    ExampleRootPop(git, pattern);
    ExamplePopRepo([a], "b", git, pattern);
    ExamplePopRepo([], "a", git, pattern);
    assert [] + [a] == [a];
    assert Walk([], pattern).sent == [None];
  }

  /** Popping the root of the example pushes "a" and then "b" and sends nothing. */
  lemma ExampleRootPop(git: Listing, pattern: string -> bool)
    requires git == Readable([Entry(Text(".git"), Dir(Readable([])))])
    ensures WalkFromRoot(Readable([Entry(Text("a"), Dir(git)), Entry(Text("b"), Dir(git))]), pattern).sent
            == Walk([Pending([Text("a")], git)] + [Pending([Text("b")], git)], pattern).sent
  {
    var a := Pending([Text("a")], git);
    var b := Pending([Text("b")], git);
    var root := Pending([], Readable([Entry(Text("a"), Dir(git)), Entry(Text("b"), Dir(git))]));
    ExampleRootScan(git, pattern);
    PopReadable([], [], [root], pattern, [], [a, b], None);
    assert [root][..0] + [a, b] == [a] + [b];
  }

  /** Popping a directory that is a repository root with nothing else in it
      sends its path and goes on with the rest. */
  lemma ExamplePopRepo(rest: seq<Pending>, n: string, git: Listing, pattern: string -> bool)
    requires git == Readable([Entry(Text(".git"), Dir(Readable([])))])
    requires forall p :: pattern(p)
    ensures Walk(rest + [Pending([Text(n)], git)], pattern).sent == [Some([".", n])] + Walk(rest, pattern).sent
  {
    var top := Pending([Text(n)], git);
    var stack := rest + [top];
    ExampleRepoScan(n, git, pattern);
    assert stack[|stack| - 1] == top && stack[..|stack| - 1] + [] == rest;
    PopReadable([], [], stack, pattern, [[".", n]], [], None);
    assert Sends([[".", n]]) == [Some([".", n])];
    assert [] + Walk(stack, pattern).sent == Walk(stack, pattern).sent;
  }

  lemma ExampleRootScan(git: Listing, pattern: string -> bool)
    requires git == Readable([Entry(Text(".git"), Dir(Readable([])))])
    ensures ScanEntries([], [Entry(Text("a"), Dir(git)), Entry(Text("b"), Dir(git))], pattern)
            == DirScan([], [Pending([Text("a")], git), Pending([Text("b")], git)], None)
  {
    var es := [Entry(Text("a"), Dir(git)), Entry(Text("b"), Dir(git))];
    assert es[..1] == [es[0]] && [es[0]][..0] == [];
    assert [] + [Text("a")] == [Text("a")] && [] + [Text("b")] == [Text("b")];
    assert ScanEntries([], es[..0], pattern) == DirScan([], [], None);
    assert ScanEntries([], es[..1], pattern) == DirScan([], [Pending([Text("a")], git)], None);
  }

  lemma ExampleRepoScan(n: string, git: Listing, pattern: string -> bool)
    requires git == Readable([Entry(Text(".git"), Dir(Readable([])))])
    requires forall p :: pattern(p)
    ensures ScanEntries([Text(n)], git.entries, pattern) == DirScan([[".", n]], [], None)
  {
    ToStrOfOne(n);
    assert git.entries[..0] == [];
  }

  /** The iterator over the paths `list_repos` sends (src/repoiterator.rs:68-99). */
  class RepoIterator {
    /** Every message the walking thread sends, in order; after the last one
        the sender is dropped and the channel is disconnected. */
    const messages: seq<Option<Path>>
    /** How many messages `recv` has returned. */
    var received: nat

    /** RepoIterator::new (src/repoiterator.rs:74-85): starts the walk. */
    constructor(root: Listing, pattern: string -> bool)
      ensures messages == WalkFromRoot(root, pattern).sent
      ensures received == 0
    {
      var out := ListRepos(root, pattern);
      messages := out.sent;
      received := 0;
    }

    /** Iterator::next (src/repoiterator.rs:92-98): the next message as it
        was sent, `Some(path)` or the `None` sentinel; `None` once the
        channel is disconnected. */
    method Next() returns (r: Option<Path>)
      modifies this
      ensures old(received) < |messages| ==> received == old(received) + 1 && r == messages[old(received)]
      ensures old(received) >= |messages| ==> received == old(received) && r == None
    {
      if received < |messages| {
        r := messages[received];
        received := received + 1;
      } else {
        r := None;
      }
    }
  }

  /** The paths a `for path in RepoIterator::new(regex)` loop visits: the
      messages before the first `None`, or all of them if there is none. */
  function Yielded(msgs: seq<Option<Path>>): seq<Path>
    decreases |msgs|
  {
    if msgs == [] || msgs[0].None? then [] else [msgs[0].value] + Yielded(msgs[1..])
  }

  /** The loop `for path in RepoIterator::new(regex)` of every command. */
  method RepoPaths(root: Listing, pattern: string -> bool) returns (paths: seq<Path>)
    ensures paths == Yielded(WalkFromRoot(root, pattern).sent)
  {
    var it := new RepoIterator(root, pattern);
    paths := [];
    while true
      invariant it.messages == WalkFromRoot(root, pattern).sent
      invariant it.received <= |it.messages|
      invariant paths + Yielded(it.messages[it.received..]) == Yielded(it.messages)
      decreases |it.messages| - it.received
    {
      var r := it.Next();
      if r.None? {
        break;
      }
      assert it.messages[it.received - 1..] == [r] + it.messages[it.received..];
      paths := paths + [r.value];
    }
  }

  /** When `None` can only come last, the loop visits every path sent, in
      order: the iterator loses nothing to the sentinel or to a disconnect. */
  lemma {:induction false} YieldedAll(msgs: seq<Option<Path>>)
    requires forall i :: 0 <= i < |msgs| - 1 ==> msgs[i].Some?
    ensures |Yielded(msgs)| == if msgs != [] && msgs[|msgs| - 1].None? then |msgs| - 1 else |msgs|
    ensures forall i :: 0 <= i < |Yielded(msgs)| ==> msgs[i] == Some(Yielded(msgs)[i])
    decreases |msgs|
  {
    if msgs != [] && msgs[0].Some? {
      YieldedAll(msgs[1..]);
    }
  }

  /** Whether the walk completes or is aborted, the commands see every
      repository it sent, in the order sent. */
  lemma RepoPathsSeeEverySend(root: Listing, pattern: string -> bool)
    ensures var r := WalkFromRoot(root, pattern);
      var n := if r.error.None? then |r.sent| - 1 else |r.sent|;
      |Yielded(r.sent)| == n && forall i :: 0 <= i < n ==> r.sent[i] == Some(Yielded(r.sent)[i])
  {
    var r := WalkFromRoot(root, pattern);
    WalkSentinel([Pending([], root)], pattern);
    YieldedAll(r.sent);
  }
}
