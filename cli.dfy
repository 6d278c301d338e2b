/** The command line of `git poly` (src/main.rs:736-891): `Flags`, and the
    loop of `main` that reads the options `--path`/`-p` and `--branch`/`-b`,
    each followed by a pattern, up to the first subcommand, which it runs.

    `main` reads `env::args()`; the model is given the arguments after the
    program name. Whether a pattern compiles (`regex::Regex::new` returns
    `Ok`) is an abstract predicate. `argument_error` prints the usage and
    exits with status 1; here it is the outcome `ArgumentError`. Running a
    subcommand is the outcome `Dispatched`, with the command chosen, the
    arguments it takes, and the flags read before it. */
module Cli {
  import opened Common

  /** The patterns given so far: the path pattern, and the branch pattern if
      there was one. */
  datatype Flags = Flags(path: string, branch: Option<string>)

  /** Why `argument_error` was called: one reason per call in `main`. */
  datatype Reason =
    | NotEnoughArguments
    | PathNeedsExpression
    | BranchNeedsExpression
    | GoNeedsCommand
    | CmdNeedsCommand
    | NothingAdded
    | GrepNeedsExpression
    | CommitNeedsMessage
    | CommitNeedsDashM
    | MvNeedsPaths
    | ReplaceNeedsArguments
    | NotRecognised

  /** A subcommand with what `main` hands it. `argvPos` is the position of
      the subcommand's own word in `env::args()` (the `index + 1` of `main`):
      the commands read their arguments from the position after it. */
  datatype Command =
    | Go(argvPos: nat)
    | Cmd(argvPos: nat)
    | Add(argvPos: nat)
    | Grep(expression: string)
    | LsFiles
    | Ls
    | Clone
    | Commit(message: string)
    | Reset
    | Status
    | Mv(source: string, dest: string)
    | Replace(argvPos: nat)

  datatype Outcome =
    | Usage                               // `--help` printed the usage
    | ArgumentError(reason: Reason)       // `argument_error`: usage printed, exit status 1
    | Failed(error: Error)                // `main` returned an error
    | Dispatched(command: Command, flags: Flags)
    | NoCommand(flags: Flags)             // the arguments ran out before any subcommand

  /** Flags::new (src/main.rs:742-748): every repository, any branch. */
  function NewFlags(compiles: string -> bool): (r: Result<Flags>)
    ensures r.Ok? <==> compiles(".*")
    ensures r.Ok? ==> r.value.path == ".*" && r.value.branch == None
    ensures r.Err? ==> r.error == RegexError
  {
    if compiles(".*") then Ok(Flags(".*", None)) else Err(RegexError)
  }

  predicate IsPathFlag(a: string) {
    a == "--path" || a == "-p"
  }

  predicate IsBranchFlag(a: string) {
    a == "--branch" || a == "-b"
  }

  predicate IsHelp(a: string) {
    a == "--help" || a == "-h"
  }

  /** What a subcommand word at position `index` of `args` does, given the
      arguments after it (src/main.rs:797-881): each checks that its own
      arguments are there and then runs. `None` for a word that is not a
      subcommand. */
  function Subcommand(word: string, index: nat, after: seq<string>, flags: Flags): Option<Outcome> {
    match word
    case "go" => Some(if after == [] then ArgumentError(GoNeedsCommand) else Dispatched(Go(index + 1), flags))
    case "cmd" => Some(if after == [] then ArgumentError(CmdNeedsCommand) else Dispatched(Cmd(index + 1), flags))
    case "add" => Some(if after == [] then ArgumentError(NothingAdded) else Dispatched(Add(index + 1), flags))
    case "grep" => Some(if after == [] then ArgumentError(GrepNeedsExpression) else Dispatched(Grep(after[0]), flags))
    case "ls-files" => Some(Dispatched(LsFiles, flags))
    case "ls" => Some(Dispatched(Ls, flags))
    case "clone" => Some(Dispatched(Clone, flags))
    case "commit" =>
      Some(if |after| < 2 then ArgumentError(CommitNeedsMessage)
           else if after[0] != "-m" then ArgumentError(CommitNeedsDashM)
           else Dispatched(Commit(after[1]), flags))
    case "reset" => Some(Dispatched(Reset, flags))
    case "status" => Some(Dispatched(Status, flags))
    case "mv" => Some(if |after| < 2 then ArgumentError(MvNeedsPaths) else Dispatched(Mv(after[0], after[1]), flags))
    case "replace" => Some(if |after| < 2 then ArgumentError(ReplaceNeedsArguments) else Dispatched(Replace(index + 1), flags))
    case _ => None
  }

  /** The arguments read from position `index` of the command line on, as a
      grammar rather than a loop: an option consumes itself and its pattern,
      and the first other word decides the outcome. `rest` is what is left of
      the arguments at that position. */
  function Interpret(rest: seq<string>, index: nat, flags: Flags, compiles: string -> bool): (r: Outcome)
    ensures (r.Dispatched? || r.NoCommand?) && FlagsCompile(flags, compiles) ==> FlagsCompile(r.flags, compiles)
    decreases |rest|
  {
    if rest == [] then NoCommand(flags)
    else
      var arg := rest[0];
      if IsHelp(arg) then Usage
      else if IsPathFlag(arg) then
        if |rest| == 1 then ArgumentError(PathNeedsExpression)
        else if !compiles(rest[1]) then Failed(RegexError)
        else Interpret(rest[2..], index + 2, flags.(path := rest[1]), compiles)
      else if IsBranchFlag(arg) then
        if |rest| == 1 then ArgumentError(BranchNeedsExpression)
        else if !compiles(rest[1]) then Failed(RegexError)
        else Interpret(rest[2..], index + 2, flags.(branch := Some(rest[1])), compiles)
      else
        match Subcommand(arg, index, rest[1..], flags)
        case Some(outcome) => outcome
        case None => ArgumentError(NotRecognised)
  }

  /** The patterns of the flags are regular expressions that compile. */
  predicate FlagsCompile(flags: Flags, compiles: string -> bool) {
    compiles(flags.path) && (flags.branch.Some? ==> compiles(flags.branch.value))
  }

  /** What `git poly` does with the arguments after the program name. A
      command only ever runs with patterns that compiled. */
  function Invocation(args: seq<string>, compiles: string -> bool): (r: Outcome)
    ensures r.Dispatched? || r.NoCommand? ==> FlagsCompile(r.flags, compiles)
    ensures args == [] ==> !r.Dispatched?
  {
    match NewFlags(compiles)
    case Err(e) => Failed(e)
    case Ok(flags) => if args == [] then ArgumentError(NotEnoughArguments) else Interpret(args, 0, flags, compiles)
  }

  /** main (src/main.rs:751-891): a `for` loop over the positions of `args`
      with a `skip` counter that passes over the pattern after an option. */
  method ReadCommandLine(args: seq<string>, compiles: string -> bool) returns (outcome: Outcome)
    ensures outcome == Invocation(args, compiles)
  {
    if !compiles(".*") {
      return Failed(RegexError);
    }
    var flags := Flags(".*", None);
    if |args| == 0 {
      return ArgumentError(NotEnoughArguments);
    }
    var skip: nat := 0;
    for index := 0 to |args|
      invariant skip <= 1
      invariant skip == 0 ==> Interpret(args[index..], index, flags, compiles) == Invocation(args, compiles)
      invariant skip == 1 ==>
        index < |args| && Interpret(args[index + 1..], index + 1, flags, compiles) == Invocation(args, compiles)
    {
      if skip == 0 {
        var arg := args[index];
        if IsHelp(arg) {
          return Usage;
        } else if IsPathFlag(arg) {
          if index + 1 == |args| {
            return ArgumentError(PathNeedsExpression);
          }
          if !compiles(args[index + 1]) {
            return Failed(RegexError);
          }
          assert args[index..][2..] == args[index + 2..];
          flags := flags.(path := args[index + 1]);
          skip := 1;
        } else if IsBranchFlag(arg) {
          if index + 1 == |args| {
            return ArgumentError(BranchNeedsExpression);
          }
          if !compiles(args[index + 1]) {
            return Failed(RegexError);
          }
          assert args[index..][2..] == args[index + 2..];
          flags := flags.(branch := Some(args[index + 1]));
          skip := 1;
        } else {
          assert args[index..][1..] == args[index + 1..];
          var sub := Subcommand(arg, index, args[index + 1..], flags);
          if sub.None? {
            return ArgumentError(NotRecognised);
          }
          return sub.value;
        }
      } else {
        skip := skip - 1;
      }
    }
    return NoCommand(flags);
  }

  /** `git poly` with no arguments is an argument error (src/main.rs:758-760). */
  lemma NoArgumentsIsError(compiles: string -> bool)
    requires compiles(".*")
    ensures Invocation([], compiles) == ArgumentError(NotEnoughArguments)
  {
  }

  /** An option takes the next argument as its pattern, and exactly that
      argument is passed over: reading resumes right after it. */
  lemma OptionConsumesPattern(opt: string, pattern: string, rest: seq<string>, index: nat, flags: Flags, compiles: string -> bool)
    requires IsPathFlag(opt) || IsBranchFlag(opt)
    requires compiles(pattern)
    ensures Interpret([opt, pattern] + rest, index, flags, compiles)
         == Interpret(rest, index + 2,
                      if IsPathFlag(opt) then flags.(path := pattern) else flags.(branch := Some(pattern)),
                      compiles)
  {
    assert ([opt, pattern] + rest)[2..] == rest;
  }

  /** An option with no pattern after it is an argument error; a pattern
      that does not compile makes `main` fail. */
  lemma OptionNeedsPattern(opt: string, index: nat, flags: Flags, compiles: string -> bool)
    requires IsPathFlag(opt) || IsBranchFlag(opt)
    ensures Interpret([opt], index, flags, compiles)
         == ArgumentError(if IsPathFlag(opt) then PathNeedsExpression else BranchNeedsExpression)
  {
  }

  /** The first subcommand decides everything: it runs with the flags read
      so far, and whatever follows it is its own arguments, never options. */
  lemma SubcommandEndsOptions(word: string, rest: seq<string>, index: nat, flags: Flags, compiles: string -> bool)
    requires Subcommand(word, index, rest, flags).Some?
    ensures Interpret([word] + rest, index, flags, compiles) == Subcommand(word, index, rest, flags).value
    ensures Interpret([word] + rest, index, flags, compiles).Dispatched? ==>
              Interpret([word] + rest, index, flags, compiles).flags == flags
  {
    assert ([word] + rest)[1..] == rest;
  }

  /** `--help` prints the usage and stops, running nothing. */
  lemma HelpStops(arg: string, rest: seq<string>, index: nat, flags: Flags, compiles: string -> bool)
    requires IsHelp(arg)
    ensures Interpret([arg] + rest, index, flags, compiles) == Usage
  {
  }

  /** A word read where an option or a subcommand was expected, and that is
      neither, is an argument error. */
  lemma UnknownWordIsError(word: string, rest: seq<string>, index: nat, flags: Flags, compiles: string -> bool)
    requires !IsHelp(word) && !IsPathFlag(word) && !IsBranchFlag(word)
    requires Subcommand(word, index, rest, flags).None?
    ensures Interpret([word] + rest, index, flags, compiles) == ArgumentError(NotRecognised)
  {
    assert ([word] + rest)[1..] == rest;
  }

  /** `commit` needs `-m` and then the message (src/main.rs:841-857). */
  lemma CommitNeedsDashMAndMessage(rest: seq<string>, index: nat, flags: Flags, compiles: string -> bool)
    ensures var o := Interpret(["commit"] + rest, index, flags, compiles);
      o.Dispatched? <==> |rest| >= 2 && rest[0] == "-m"
    ensures var o := Interpret(["commit"] + rest, index, flags, compiles);
      o.Dispatched? ==> o.command == Commit(rest[1]) && o.flags == flags
    ensures |rest| < 2 ==> Interpret(["commit"] + rest, index, flags, compiles) == ArgumentError(CommitNeedsMessage)
  {
    assert (["commit"] + rest)[1..] == rest;
  }

  /** A subcommand only ever runs with patterns that compile, and the flags
      it runs with are the last `--path` and the last `--branch` given
      before it: an example with both options repeated. */
  lemma LastOptionWins(compiles: string -> bool)
    requires compiles(".*") && compiles("a") && compiles("b") && compiles("x")
    ensures Invocation(["-p", "a", "--branch", "x", "--path", "b", "status", "-p", "c"], compiles)
         == Dispatched(Status, Flags("b", Some("x")))
  {
    var args := ["-p", "a", "--branch", "x", "--path", "b", "status", "-p", "c"];
    OptionConsumesPattern("-p", "a", args[2..], 0, Flags(".*", None), compiles);
    assert args == ["-p", "a"] + args[2..];
    OptionConsumesPattern("--branch", "x", args[4..], 2, Flags("a", None), compiles);
    assert args[2..] == ["--branch", "x"] + args[4..];
    OptionConsumesPattern("--path", "b", args[6..], 4, Flags("a", Some("x")), compiles);
    assert args[4..] == ["--path", "b"] + args[6..];
    SubcommandEndsOptions("status", args[7..], 6, Flags("b", Some("x")), compiles);
    assert args[6..] == ["status"] + args[7..];
  }
}
