/** src/command/add.rs (and its copy in src/main.rs:243-263): `git poly add`.
    Every argument after the subcommand is either `-u`, which stages the
    tracked changes of every repository (once, however often it is given), or
    a path, which is staged with `git add <relative>` inside the repository
    that encloses it. The first failure ends the command. The subprocesses are
    left out: the model produces the sequence of `git add` actions. */
module AddCommand {
  import opened Common
  import Git

  /** The pieces of `s` between the '/' separators. */
  function Pieces(s: string): (r: seq<string>)
    ensures |r| >= 1
    decreases |s|
  {
    if s == [] then [[]] else Front(s[0], Pieces(s[1..]))
  }

  /** The pieces of `[c] + s`, given the pieces of `s`: a separator opens a
      new empty piece, any other character joins the first piece. */
  function Front(c: char, ps: seq<string>): (r: seq<string>)
    requires |ps| >= 1
    ensures |r| >= 1
  {
    if c == '/' then [[]] + ps else [[c] + ps[0]] + ps[1..]
  }

  /** The pieces that are normal path components: `Path::components` skips
      empty pieces (repeated or trailing separators) and `.` pieces; a
      leading `.` is kept apart, as the path's `CurDir` flag. */
  function Normal(ps: seq<string>): seq<string>
    decreases |ps|
  {
    if ps == [] then []
    else (if ps[0] == "" || ps[0] == "." then [] else [ps[0]]) + Normal(ps[1..])
  }

  /** `PathBuf::from(file_path)` (src/command/add.rs:77): a leading '/' makes
      the path absolute, and a relative path whose first piece is `.` starts
      with `CurDir`. */
  function Parse(s: string): (r: Git.FsPath)
    ensures r.absolute <==> |s| > 0 && s[0] == '/'
    ensures r.curDir ==> !r.absolute
    ensures forall i :: 0 <= i < |r.comps| ==> IsComponent(r.comps[i])
  {
    PiecesHaveNoSeparator(s);
    NormalKeepsComponents(Pieces(s));
    var ps := Pieces(s);
    var absolute := |s| > 0 && s[0] == '/';
    Git.FsPath(absolute, !absolute && ps[0] == ".", Normal(ps))
  }

  /** A component as `Path::components` yields it: not empty, not `.`, no separator. */
  predicate IsComponent(c: string) {
    c != "" && c != "." && '/' !in c
  }

  lemma {:induction false} PiecesHaveNoSeparator(s: string)
    ensures forall i :: 0 <= i < |Pieces(s)| ==> '/' !in Pieces(s)[i]
    decreases |s|
  {
    if s != [] {
      PiecesHaveNoSeparator(s[1..]);
    }
  }

  lemma {:induction false} NormalKeepsComponents(ps: seq<string>)
    requires forall i :: 0 <= i < |ps| ==> '/' !in ps[i]
    ensures forall i :: 0 <= i < |Normal(ps)| ==> IsComponent(Normal(ps)[i])
    decreases |ps|
  {
    if ps != [] {
      NormalKeepsComponents(ps[1..]);
    }
  }

  lemma {:induction false} PiecesOfJoin(a: string, b: string)
    ensures Pieces(a + "/" + b) == Pieces(a) + Pieces(b)
    decreases |a|
  {
    if a == [] {
      assert a + "/" + b == ['/'] + b;
      assert (['/'] + b)[1..] == b;
    } else {
      var j := a + "/" + b;
      assert j[0] == a[0] && j[1..] == a[1..] + "/" + b;
      PiecesOfJoin(a[1..], b);
      FrontOfJoin(a[0], Pieces(a[1..]), Pieces(b));
    }
  }

  lemma FrontOfJoin(c: char, p: seq<string>, q: seq<string>)
    requires |p| >= 1
    ensures Front(c, p + q) == Front(c, p) + q
  {
    if c != '/' {
      assert (p + q)[1..] == p[1..] + q;
    }
  }

  lemma {:induction false} PiecesOfComponent(c: string)
    requires '/' !in c
    ensures Pieces(c) == [c]
    decreases |c|
  {
    if c != [] {
      PiecesOfComponent(c[1..]);
      assert [c[0]] + c[1..] == c;
    }
  }

  lemma {:induction false} NormalAppend(xs: seq<string>, ys: seq<string>)
    ensures Normal(xs + ys) == Normal(xs) + Normal(ys)
    decreases |xs|
  {
    if xs != [] {
      assert (xs + ys)[0] == xs[0];
      assert (xs + ys)[1..] == xs[1..] + ys;
      NormalAppend(xs[1..], ys);
    } else {
      assert xs + ys == ys;
    }
  }

  /** Printed components split back into themselves. */
  lemma {:induction false} PiecesOfDisplay(cs: seq<string>)
    requires cs != []
    requires forall i :: 0 <= i < |cs| ==> IsComponent(cs[i])
    ensures Pieces(Display(cs)) == cs
    decreases |cs|
  {
    if |cs| == 1 {
      PiecesOfComponent(cs[0]);
    } else {
      var init := cs[..|cs| - 1];
      var last := cs[|cs| - 1];
      PiecesOfDisplay(init);
      PiecesOfJoin(Display(init), last);
      PiecesOfComponent(last);
      assert init + [last] == cs;
    }
  }

  lemma {:induction false} NormalOfComponents(cs: seq<string>)
    requires forall i :: 0 <= i < |cs| ==> IsComponent(cs[i])
    ensures Normal(cs) == cs
    decreases |cs|
  {
    if cs != [] {
      NormalOfComponents(cs[1..]);
      assert [cs[0]] + cs[1..] == cs;
    }
  }

  /** Parsing undoes printing: the components of a path, joined with '/'
      (after a leading '/' when the path is absolute), parse back to that path. */
  lemma ParseDisplay(absolute: bool, cs: seq<string>)
    requires cs != []
    requires forall i :: 0 <= i < |cs| ==> IsComponent(cs[i])
    ensures Parse((if absolute then "/" else "") + Display(cs)) == Git.FsPath(absolute, false, cs)
  {
    if absolute {
      ParseRootedDisplay(cs);
    } else {
      ParseRelativeDisplay(cs);
      assert "" + Display(cs) == Display(cs);
    }
  }

  lemma ParseRootedDisplay(cs: seq<string>)
    requires cs != []
    requires forall i :: 0 <= i < |cs| ==> IsComponent(cs[i])
    ensures Parse("/" + Display(cs)) == Git.FsPath(true, false, cs)
  {
    PiecesOfDisplay(cs);
    NormalOfComponents(cs);
    var d := Display(cs);
    PiecesOfRooted(d);
    NormalAppend([[]], Pieces(d));
    assert Normal([[]]) == [];
  }

  lemma ParseRelativeDisplay(cs: seq<string>)
    requires cs != []
    requires forall i :: 0 <= i < |cs| ==> IsComponent(cs[i])
    ensures Parse(Display(cs)) == Git.FsPath(false, false, cs)
  {
    PiecesOfDisplay(cs);
    NormalOfComponents(cs);
    PiecesOfJoinHead(cs);
    assert IsComponent(cs[0]);
  }

  /** "." alone is a lone `CurDir`. */
  lemma ParseDot()
    ensures Parse(".") == Git.FsPath(false, true, [])
  {
    PiecesOfDot();
  }

  lemma PiecesOfDot()
    ensures Pieces(".") == ["."] && Normal(["."]) == []
  {
    PiecesOfComponent(".");
    assert ["."][1..] == [];
  }

  /** Parsing undoes printing with a leading `./` too: the `CurDir` is kept. */
  lemma ParseDotDisplay(cs: seq<string>)
    requires cs != []
    requires forall i :: 0 <= i < |cs| ==> IsComponent(cs[i])
    ensures Parse("./" + Display(cs)) == Git.FsPath(false, true, cs)
  {
    var s := "./" + Display(cs);
    PiecesOfDotDisplay(cs);
    NormalOfComponents(cs);
    NormalAppend(["."], cs);
    PiecesOfDot();
    assert s[0] == '.';
  }

  lemma PiecesOfDotDisplay(cs: seq<string>)
    requires cs != []
    requires forall i :: 0 <= i < |cs| ==> IsComponent(cs[i])
    ensures Pieces("./" + Display(cs)) == ["."] + cs
  {
    PiecesOfDisplay(cs);
    PiecesOfDotSlash(Display(cs));
  }

  /** A leading `./` adds a `.` first piece. */
  lemma PiecesOfDotSlash(d: string)
    ensures Pieces("./" + d) == ["."] + Pieces(d)
  {
    var dot := ".";
    PiecesOfJoin(dot, d);
    assert "./" + d == dot + "/" + d;
    PiecesOfDot();
  }

  /** A leading '/' adds an empty first piece. */
  lemma PiecesOfRooted(d: string)
    ensures ("/" + d)[0] == '/' && Pieces("/" + d) == [[]] + Pieces(d)
  {
    assert ("/" + d)[1..] == d;
  }

  /** A printed path starts with its first component. */
  lemma {:induction false} PiecesOfJoinHead(cs: seq<string>)
    requires cs != []
    requires forall i :: 0 <= i < |cs| ==> IsComponent(cs[i])
    ensures Display(cs) != [] && Display(cs)[0] != '/'
    decreases |cs|
  {
    if |cs| == 1 {
      assert IsComponent(cs[0]);
      assert Display(cs) == cs[0];
      assert Display(cs)[0] in cs[0];
    } else {
      var init := cs[..|cs| - 1];
      PiecesOfJoinHead(init);
      assert Display(cs)[0] == Display(init)[0];
    }
  }

  /** The repository and relative part for one path argument (add_entry,
      src/command/add.rs:48-61): `relative_to_repo` on the parsed path. */
  function Locate(arg: string, present: Git.File -> bool): (r: Result<Git.RepoSplit>)
    ensures r.Ok? ==> present(Git.GitDirIn(r.value.repo)) && r.value.repo.absolute == Parse(arg).absolute
    ensures r.Err? ==> r.error == NotInRepo
  {
    var p := Parse(arg);
    Git.FindRepo(p, present, |p.comps|)
  }

  /** `git poly add .` in a repository's top directory runs `git add .`
      there: the `.` ancestor is tried, and its `.git` is the one in the
      current directory. `./x` keeps the `.` in the repository it reports
      (the source's "."), where `x` reports "". */
  lemma LocateCurrentDirectory(name: string, present: Git.File -> bool)
    requires IsComponent(name)
    requires present(Git.File(false, [".git"]))
    requires !present(Git.File(false, [name, ".git"]))
    ensures Locate(".", present) == Ok(Git.RepoSplit(Git.FsPath(false, false, []), "."))
    ensures Locate("./" + name, present) == Ok(Git.RepoSplit(Git.FsPath(false, true, []), name))
    ensures Locate(name, present) == Ok(Git.RepoSplit(Git.FsPath(false, false, []), name))
  {
    ParseDot();
    var top := Git.FsPath(false, true, []);
    assert Git.GitDirIn(Git.Pop(Git.Ancestor(top, 0))) == Git.File(false, [".git"]);
    assert Git.StripPrefix(top, Git.Pop(Git.Ancestor(top, 0))) == ".";
    assert Display([name]) == name;
    ParseDotDisplay([name]);
    ParseDisplay(false, [name]);
    assert "" + name == name;
    assert [name][..0] == [] && [name][0..] == [name];
  }

  /** A leading `./` on a path argument changes only how the repository is
      spelled: the same repository directory is found, or none, and the
      same relative part is added. */
  lemma LocateIgnoresDotSlash(cs: seq<string>, present: Git.File -> bool)
    requires cs != []
    requires forall i :: 0 <= i < |cs| ==> IsComponent(cs[i])
    ensures Locate("./" + Display(cs), present).Ok? == Locate(Display(cs), present).Ok?
    ensures Locate("./" + Display(cs), present).Ok? ==>
              && Git.Named(Locate("./" + Display(cs), present).value.repo)
                 == Git.Named(Locate(Display(cs), present).value.repo)
              && Locate("./" + Display(cs), present).value.relative
                 == Locate(Display(cs), present).value.relative
  {
    ParseDotDisplay(cs);
    ParseDisplay(false, cs);
    assert "" + Display(cs) == Display(cs);
    Git.CurDirFindsSameRepo(cs, present, |cs|);
  }

  /** What the command runs: `add_changed` (`git add -u` in every repository)
      or `git add <relative>` inside one repository. */
  datatype Action = AddChanged | AddPath(repo: Git.FsPath, relative: string)

  datatype Outcome = Outcome(actions: seq<Action>, error: Option<Error>)

  function Prepend(a: Action, o: Outcome): Outcome {
    Outcome([a] + o.actions, o.error)
  }

  /** The loop of `run` (src/command/add.rs:67-83) over the remaining
      arguments, with `minus_u` recording whether `add_changed` already ran. */
  function Plan(items: seq<string>, minusU: bool, present: Git.File -> bool): (r: Outcome)
    ensures |r.actions| <= |items|
    ensures r.error.Some? ==> r.error.value == NotInRepo
    decreases |items|
  {
    if items == [] then Outcome([], None)
    else if items[0] == "-u" then
      if minusU then Plan(items[1..], true, present)
      else Prepend(AddChanged, Plan(items[1..], true, present))
    else
      match Locate(items[0], present)
      case Err(e) => Outcome([], Some(e))
      case Ok(split) => Prepend(AddPath(split.repo, split.relative), Plan(items[1..], minusU, present))
  }

  /** `args.iter().skip(n)`. */
  function Skip(args: seq<string>, n: nat): seq<string> {
    if n <= |args| then args[n..] else []
  }

  /** run (src/command/add.rs:64-84, src/main.rs:243-263). `argsPos` is the
      position of the word `add` in the process arguments. */
  method Run(args: seq<string>, argsPos: nat, present: Git.File -> bool)
    returns (actions: seq<Action>, error: Option<Error>)
    ensures Outcome(actions, error) == Plan(Skip(args, argsPos + 1), false, present)
  {
    var items := Skip(args, argsPos + 1);
    var minusU := false;
    actions := [];
    var i := 0;
    assert items[i..] == items && [] + Plan(items, false, present).actions == Plan(items, false, present).actions;
    while i < |items|
      invariant i <= |items|
      invariant Plan(items, false, present) == Resume(actions, Plan(items[i..], minusU, present))
    {
      var item := items[i];
      if item == "-u" {
        ResumeFlag(actions, items, i, minusU, present);
        if !minusU {
          minusU := true;
          actions := actions + [AddChanged];
        }
      } else {
        var path := Parse(item);
        var found := Git.RelativeToRepo(path, present);
        assert found == Locate(item, present);
        ResumePath(actions, items, i, minusU, present);
        match found {
          case Err(e) =>
            return actions, Some(e);
          case Ok(split) =>
            actions := actions + [AddPath(split.repo, split.relative)];
        }
      }
      i := i + 1;
    }
    assert items[i..] == [];
    assert actions + [] == actions;
    error := None;
  }

  /** The actions already taken, followed by the outcome of the rest. */
  function Resume(actions: seq<Action>, o: Outcome): Outcome {
    Outcome(actions + o.actions, o.error)
  }

  /** A `-u` argument runs `add_changed` unless it already ran. */
  lemma ResumeFlag(actions: seq<Action>, items: seq<string>, i: nat, minusU: bool, present: Git.File -> bool)
    requires i < |items| && items[i] == "-u"
    ensures Resume(actions, Plan(items[i..], minusU, present))
            == Resume(if minusU then actions else actions + [AddChanged], Plan(items[i + 1..], true, present))
  {
    var here := items[i..];
    assert here[0] == items[i] && here[1..] == items[i + 1..];
    var o := Plan(items[i + 1..], true, present);
    assert (actions + [AddChanged]) + o.actions == actions + ([AddChanged] + o.actions);
  }

  /** A path argument is added in its repository, or ends the command when
      it lies in none. */
  lemma ResumePath(actions: seq<Action>, items: seq<string>, i: nat, minusU: bool, present: Git.File -> bool)
    requires i < |items| && items[i] != "-u"
    ensures Locate(items[i], present).Err? ==>
              Resume(actions, Plan(items[i..], minusU, present))
              == Outcome(actions, Some(Locate(items[i], present).error))
    ensures Locate(items[i], present).Ok? ==>
              var split := Locate(items[i], present).value;
              Resume(actions, Plan(items[i..], minusU, present))
              == Resume(actions + [AddPath(split.repo, split.relative)], Plan(items[i + 1..], minusU, present))
  {
    var here := items[i..];
    assert here[0] == items[i] && here[1..] == items[i + 1..];
    if Locate(items[i], present).Ok? {
      var split := Locate(items[i], present).value;
      var a := AddPath(split.repo, split.relative);
      var o := Plan(items[i + 1..], minusU, present);
      assert (actions + [a]) + o.actions == actions + ([a] + o.actions);
    } else {
      assert actions + [] == actions;
    }
  }

  /** The number of times `add_changed` runs. */
  function ChangedCount(acts: seq<Action>): nat
    decreases |acts|
  {
    if acts == [] then 0 else (if acts[0] == AddChanged then 1 else 0) + ChangedCount(acts[1..])
  }

  /** The arguments that are paths, in order. */
  function Targets(items: seq<string>): seq<string>
    decreases |items|
  {
    if items == [] then []
    else (if items[0] == "-u" then [] else [items[0]]) + Targets(items[1..])
  }

  /** Each path argument's enclosing repository, in order. */
  function Located(ts: seq<string>, present: Git.File -> bool): seq<Result<Git.RepoSplit>>
    decreases |ts|
  {
    if ts == [] then [] else [Locate(ts[0], present)] + Located(ts[1..], present)
  }

  /** The `git add <relative>` actions, in order. */
  function Added(acts: seq<Action>): seq<Result<Git.RepoSplit>>
    decreases |acts|
  {
    if acts == [] then []
    else (match acts[0]
          case AddChanged => []
          case AddPath(repo, relative) => [Ok(Git.RepoSplit(repo, relative))]) + Added(acts[1..])
  }

  /** `-u` runs `add_changed` at most once, not at all if it already ran, and
      only when `-u` was given; with no failure, a `-u` argument makes it run
      exactly once. */
  lemma {:induction false} ChangedAtMostOnce(items: seq<string>, minusU: bool, present: Git.File -> bool)
    ensures ChangedCount(Plan(items, minusU, present).actions) <= if minusU then 0 else 1
    ensures ChangedCount(Plan(items, minusU, present).actions) > 0 ==> "-u" in items
    ensures !minusU && "-u" in items && Plan(items, minusU, present).error.None? ==>
              ChangedCount(Plan(items, minusU, present).actions) == 1
    decreases |items|
  {
    if items != [] {
      var rest := items[1..];
      ChangedAtMostOnce(rest, true, present);
      ChangedAtMostOnce(rest, minusU, present);
      assert items == [items[0]] + rest;
      if items[0] == "-u" {
        if !minusU {
          var o := Plan(rest, true, present);
          assert ([AddChanged] + o.actions)[1..] == o.actions;
        }
      } else if Locate(items[0], present).Ok? {
        var split := Locate(items[0], present).value;
        var o := Plan(rest, minusU, present);
        assert ([AddPath(split.repo, split.relative)] + o.actions)[1..] == o.actions;
      }
    }
  }

  /** The paths are added in the order given, each in its own repository.
      Without a failure every path argument is added; after a failure, the
      paths before the failing one are added, and none after it. */
  lemma {:induction false} AddsTargetsInOrder(items: seq<string>, minusU: bool, present: Git.File -> bool)
    ensures Plan(items, minusU, present).error.None? ==>
              Added(Plan(items, minusU, present).actions) == Located(Targets(items), present)
    ensures Plan(items, minusU, present).error.Some? ==>
              Added(Plan(items, minusU, present).actions) + [Err(Plan(items, minusU, present).error.value)]
                <= Located(Targets(items), present)
    decreases |items|
  {
    if items != [] {
      var rest := items[1..];
      if items[0] == "-u" {
        AddsTargetsInOrder(rest, true, present);
        AddedPrepend(AddChanged, Plan(rest, true, present));
        assert Targets(items) == Targets(rest);
      } else {
        AddsTargetsInOrder(rest, minusU, present);
        assert Targets(items) == [items[0]] + Targets(rest);
        assert Located(Targets(items), present) == [Locate(items[0], present)] + Located(Targets(rest), present);
        match Locate(items[0], present) {
          case Err(e) =>
          case Ok(split) =>
            var o := Plan(rest, minusU, present);
            AddedPrepend(AddPath(split.repo, split.relative), o);
            if o.error.Some? {
              PrefixCons(Ok(split), Added(o.actions) + [Err(o.error.value)], Located(Targets(rest), present));
            }
        }
      }
    }
  }

  lemma AddedPrepend(a: Action, o: Outcome)
    ensures Added(Prepend(a, o).actions)
            == (match a
                case AddChanged => []
                case AddPath(repo, relative) => [Ok(Git.RepoSplit(repo, relative))]) + Added(o.actions)
  {
    assert ([a] + o.actions)[1..] == o.actions;
  }

  lemma PrefixCons<T>(x: T, a: seq<T>, b: seq<T>)
    requires a <= b
    ensures [x] + a <= [x] + b
  {
  }

  /** The outcome is a failure exactly when some path argument lies in no
      repository (`git add` itself is not modelled to fail). */
  lemma {:induction false} FailsIffSomePathUnplaced(items: seq<string>, minusU: bool, present: Git.File -> bool)
    ensures Plan(items, minusU, present).error.Some? <==>
              exists i :: 0 <= i < |items| && items[i] != "-u" && Locate(items[i], present).Err?
    ensures Plan(items, minusU, present).error.Some? ==> Plan(items, minusU, present).error.value == NotInRepo
    decreases |items|
  {
    if items != [] {
      var rest := items[1..];
      FailsIffSomePathUnplaced(rest, if items[0] == "-u" then true else minusU, present);
      if exists i :: 0 <= i < |rest| && rest[i] != "-u" && Locate(rest[i], present).Err? {
        var i :| 0 <= i < |rest| && rest[i] != "-u" && Locate(rest[i], present).Err?;
        assert items[i + 1] == rest[i];
      }
      if exists i :: 0 <= i < |items| && items[i] != "-u" && Locate(items[i], present).Err? {
        var i :| 0 <= i < |items| && items[i] != "-u" && Locate(items[i], present).Err?;
        if i > 0 { assert rest[i - 1] == items[i]; }
      }
      if items[0] != "-u" && Locate(items[0], present).Err? {
        var p := Parse(items[0]);
        Git.FindRepoSound(p, present, |p.comps|);
      }
    }
  }

  /** The first failure ends the command: arguments after it change nothing. */
  lemma {:induction false} FailureIgnoresLaterArguments(items: seq<string>, more: seq<string>, minusU: bool, present: Git.File -> bool)
    requires Plan(items, minusU, present).error.Some?
    ensures Plan(items + more, minusU, present) == Plan(items, minusU, present)
    decreases |items|
  {
    assert (items + more)[0] == items[0];
    assert (items + more)[1..] == items[1..] + more;
    if items[0] == "-u" {
      FailureIgnoresLaterArguments(items[1..], more, true, present);
    } else if Locate(items[0], present).Ok? {
      FailureIgnoresLaterArguments(items[1..], more, minusU, present);
    }
  }
}
