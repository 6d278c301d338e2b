# git-poly in Dafny

git-poly (`git poly`) runs git commands across every repository found below
the current directory. This project models its core and proves properties of
that model. The core has five parts:

- **The repository walk** (`RepoWalk`, src/repoiterator.rs). `list_repos`
  walks the directory tree with an explicit stack. It sends every directory
  that holds a `.git` directory and whose path matches the path pattern, then
  a `None` sentinel. `RepoIterator` hands the sent paths to the commands. The
  file system is a finite tree given as a value. It is proved that:
  - the walk sends exactly the repository roots of the tree that the pattern
    accepts;
  - it reports exactly the unreadable directories;
  - it aborts on the errors the source propagates.
- **The command line** (`Cli`, `Flags` and `main` in src/main.rs). The model covers:
  - the `--path`/`-p` and `--branch`/`-b` options, each followed by a pattern;
  - `--help`;
  - the first subcommand, with the argument checks that `main` makes before
    it dispatches;
  - the `skip` counter, modelled as the source's `for` loop.
- **`status`** (`StatusTypes`, `MsgSort`, `Grouping`, `StatusCommand`;
  src/status.rs, src/command/status.rs and its copy in src/main.rs). One
  worker per repository splits the `git status --porcelain` lines and
  classifies their codes. The collected messages are then sorted and printed,
  grouped by branch and then by tracking. It is proved that:
  - the order on messages is a total order;
  - every sort gives the same sequence;
  - each branch header and each section title is printed exactly once, at
    the start of its group;
  - the report does not depend on the order in which the workers' messages
    arrived.
- **`commit`, `add`, `clone`** (`CommitCommand`, `AddCommand`,
  `CloneCommand`).
  - `commit` runs `git commit` only in repositories where a staged change
    comes first. A staged change is a line matching `^(M|A|D) `.
  - `add` runs `add_changed` at most once. It adds the path arguments in
    order, each inside its enclosing repository found by
    `relative_to_repo` (`Git`). It stops at the first failure.
  - `clone` extracts the folder from a URL with the anchored URL
    expression. The expression is written as a hand parser, which is proved
    equal to the grammar in both directions.
- **`git.rs`** (`Git`). The branch name chosen from the output of
  `git rev-parse`, the branch filter of src/filter.rs, and `relative_to_repo`.

Two behaviours of the source are modelled as written:
- The porcelain splitter `(UU| M|M |MM|A | D|D |\?\?) (.*)` accepts `MM`, which
  `convert_to_status` rejects. A repository with a file that is modified both
  in the index and in the worktree therefore stops its status worker with
  `UnableToParseStatus` (`MMLineStopsWorker`).
- The splitter lacks ` A`, so the ` A` entry of `convert_to_status` is never
  used (`ScanSends`).

External effects are parameters or results:
- Subprocesses are represented by the lines they printed (`Git.OutputLine`;
  a line that is not UTF-8 is `NotUtf8`).
- `Path::exists` is a predicate on the files that paths name (`./x` and `x`
  name the same file).
- Regular expressions given on the command line are predicates on strings.
- Whether a pattern compiles is a predicate.
- Terminal output is a sequence of lines with colour tags.
- What a command does is a sequence of actions.

## Model

| member | source | states |
|---|---|---|
| StatusTypes.TrackingRank | src/status.rs:2-8 | the rank of each tracking is below 4; with RanksAreInjective it is the derived order of declaration |
| StatusTypes.StagingRank | src/status.rs:11-18 | the rank of each staging is below 5, in declaration order |
| StatusTypes.RanksAreInjective | src/status.rs:2-18 | distinct variants have distinct ranks, so the derived order is total and strict between variants |
| StatusTypes.StrLeReflexive | src/status.rs:21 | the string order (UTF-8 byte order of `String`) is reflexive |
| StatusTypes.StrLeAntisymmetric | src/status.rs:21 | the string order is antisymmetric |
| StatusTypes.StrLeTransitive | src/status.rs:21 | the string order is transitive |
| StatusTypes.StrLeTotal | src/status.rs:21 | any two strings are comparable |
| StatusTypes.StrLe | src/status.rs:21 | a string is no greater than any string it is a prefix of |
| StatusTypes.StatusLe | src/status.rs:21 | an earlier tracking comes first and a later one after, whatever the stagings |
| StatusTypes.StatusLeTotalOrder | src/status.rs:21 | the tuple order on `Status` is a total order |
| StatusTypes.MsgLeReflexive | src/command/status.rs:219 | the order on status messages is reflexive |
| StatusTypes.MsgLeAntisymmetric | src/command/status.rs:219 | messages that are mutually ordered are equal |
| StatusTypes.MsgLeTransitive | src/command/status.rs:219 | the order on messages is transitive |
| StatusTypes.MsgLeTotal | src/command/status.rs:219 | any two messages are comparable, so `sort` is well defined |
| StatusTypes.MsgLeByBranchThenTracking | src/error.rs:10-14 | ordered messages are ordered by branch first, then (same branch) by tracking |
| MsgSort.ConsSorted | src/command/status.rs:219 | a message no greater than every element of a sorted sequence can be put in front of it |
| MsgSort.Insert | src/command/status.rs:219 | inserting into a sorted sequence keeps it sorted and adds exactly that message |
| MsgSort.SortMsgs | src/command/status.rs:218-219 | the sorted messages are sorted and a permutation of the collected ones |
| MsgSort.SortedUnique | src/command/status.rs:219 | two sorted permutations of the same messages are equal: every sort yields the same sequence |
| Grouping.GroupedAt | src/command/status.rs:171-174 | in a grouped sequence a key between two equal keys equals them |
| Grouping.HeadsOfLonger | src/command/status.rs:161-181 | one more key adds itself to the run heads exactly when it starts a run |
| Grouping.HeadsOfGrouped | src/command/status.rs:171-174 | for grouped keys the run heads are distinct and name every key that occurs |
| StatusCommand.ConvertToStatus | src/command/status.rs:22-34 | exactly the eight listed codes parse; all others give `UnableToParseStatus` |
| StatusCommand.ConvertReadsColumns | src/command/status.rs:22-34 | the table equals git's reading of the two porcelain columns (index column staged, worktree column unstaged) |
| StatusCommand.ConvertRoundTrip | src/command/status.rs:22-34 | a code parses to a status exactly when that status is written as that code |
| StatusCommand.MatchColor | src/command/status.rs:37-44 | green exactly for staged changes, red for all others |
| StatusCommand.SelectAppend | src/command/status.rs:222-256 | the lines of one kind in two printed parts are those of each part, in order |
| StatusCommand.SelectSingle | src/command/status.rs:222-256 | one line selects itself exactly when it is of the kind |
| StatusCommand.SelectNone | src/command/status.rs:222-256 | lines of other kinds select nothing |
| StatusCommand.TitleLines | src/command/status.rs:47-72 | a section title starts with the heading of its tracking and contains no other heading, header or entry |
| StatusCommand.StagingLabelsDistinct | src/command/status.rs:240-254 | each staging has its own label, so an entry line tells its staging |
| StatusCommand.BranchKeys | src/command/status.rs:172 | one branch key per message |
| StatusCommand.SectionKeys | src/command/status.rs:173-174 | one (branch, tracking) key per message |
| StatusCommand.IterationAt | src/command/status.rs:147-184 | iteration i prints a branch header exactly when it starts a run of equal branches, and a title exactly when it starts a run of equal sections; a header implies a title; the first item prints both |
| StatusCommand.StatusIterator.constructor | src/command/status.rs:139-141 | the iterator starts at index 0 over the given sorted messages |
| StatusCommand.StatusIterator.Next | src/command/status.rs:147-184 | yields `IterationAt(index)` and steps on, or `None` at the end and stays |
| StatusCommand.ItemSelect | src/command/status.rs:222-256 | what one iteration prints of each kind of line |
| StatusCommand.RenderEntries | src/command/status.rs:239-255 | every message gets exactly one entry line, in order, with its label, colour and path |
| StatusCommand.RenderBranchHeaders | src/command/status.rs:226-229 | the branch headers printed are the run heads of the branches, one each, in order |
| StatusCommand.RenderHeadings | src/command/status.rs:232-237 | the section titles printed are the run heads of the (branch, tracking) keys, one each, in order |
| StatusCommand.SortedIsGrouped | src/command/status.rs:219 | after sorting, the messages of a branch are contiguous, and so are those of a section |
| StatusCommand.SortedRenderHeaders | src/command/status.rs:217-256 | for the sorted messages every branch is announced exactly once and every section is opened exactly once |
| StatusCommand.RenderIgnoresArrivalOrder | src/command/status.rs:217-219 | the report depends only on the multiset of messages received, not on the order the workers sent them |
| StatusCommand.PrintChanges | src/command/status.rs:222-256 | the printing loop produces the report of the sorted messages |
| StatusCommand.ItemLines | src/command/status.rs:225-255 | an iteration ends with its entry line; one that prints the branch starts with a blank line and then the branch header; one that prints neither header nor title prints only the entry line |
| StatusCommand.RenderPrefix | src/command/status.rs:222-256 | the first n items print at least n lines, the last being the entry line of item n |
| StatusCommand.Printed | src/command/status.rs:222-256 | (helper) one iteration's lines extend the report of the items before it |
| StatusCommand.Report | src/command/status.rs:217-258 | sorting then printing gives the report of the sorted messages |
| StatusCommand.FirstMatch | src/command/status.rs:191 | the leftmost position where the splitter matches, or none |
| StatusCommand.Split | src/command/status.rs:103-107 | no capture exactly when the splitter matches nowhere; otherwise the code and the rest of the line at the leftmost match |
| StatusCommand.SplitPorcelainLine | src/command/status.rs:191 | a well-formed porcelain line splits into its code and its file |
| StatusCommand.FilePath | src/command/status.rs:102-113 | an absolute file replaces the repository; otherwise the repository's path and a '/' come first; the file always ends the path |
| StatusCommand.LineStep | src/command/status.rs:100-114 | `IO` exactly for a line that is not UTF-8, otherwise only `UnableToParseStatus`; a message sent carries the repository's branch |
| StatusCommand.ScanPorcelain | src/command/status.rs:100-118 | at most one message per line, each with the repository's branch; the worker stops only with `IO` or `UnableToParseStatus` |
| StatusCommand.StatusThread | src/command/status.rs:75-119 | the worker's messages and error are those of the branch filter, the branch name and the line scan |
| StatusCommand.ScanLines | src/command/status.rs:100-116 | the line loop sends, and stops, as the scan specifies |
| StatusCommand.ScanErrorSticks | src/command/status.rs:100-116 | once a prefix of the lines fails, later lines change nothing |
| StatusCommand.ScanStopsAtFirstError | src/command/status.rs:101-106 | at the first failing line the worker stops with what it sent before it |
| StatusCommand.ScanWithoutErrors | src/command/status.rs:100-118 | lines that all succeed leave no error |
| StatusCommand.MMLineStopsWorker | src/command/status.rs:106 | an `MM` line passes the splitter, fails `convert_to_status` and stops the worker with `UnableToParseStatus` |
| StatusCommand.ScanSends | src/command/status.rs:103-114 | every message sent carries the repository's branch and a status whose code the splitter accepts; so no ` A` (intent to add) status is ever sent |
| StatusCommand.Run | src/command/status.rs:188-259 | the `status` command prints the report of the sorted messages from all workers |
| StatusCommand.TwoStagedFilesExample | src/command/status.rs:222-256 | one branch with two staged files prints one header, one title and two entry lines |
| StatusCommand.SortTwo | src/command/status.rs:219 | two messages of one branch sort by staging |
| Git.BranchName | src/git.rs:19-29 | "HEADLESS" when nothing is printed, otherwise the first line; `Error::None` if that line is not UTF-8 |
| Git.BranchNameReadsFirstLine | src/git.rs:26-29 | only the first printed line matters |
| Git.BranchFilter | src/filter.rs:6-13 | the worker goes on exactly when no branch pattern is given or the branch name matches it; errors only from the branch name |
| Git.SplitAt | src/git.rs:38-48 | the repository is the candidate's directory: the ancestor without its last component, absolute as the path is, and starting with `.` only if the path does |
| Git.FindRepo | src/git.rs:36-53 | a repository found holds a `.git`, is absolute exactly when the path is, and has no more components than the path; the only error is `RelativeToRepo` |
| Git.RelativeToRepo | src/git.rs:33-54 | the ancestor loop, including the component-less ancestor "/" or ".", returns what `FindRepo` specifies |
| Git.FindRepoSound | src/git.rs:33-54 | on success: the repository is a prefix of the path with a `.git`, shorter than the path unless the path is "/" or "."; the relative part is what `strip_prefix` leaves; no deeper candidate exists. On failure: no candidate exists, "/" and "." included, and the error is `RelativeToRepo` |
| Git.FindRepoIgnoresOwnGitDir | src/git.rs:36-41 | the path's own `.git` is never consulted, unless the path is "/" or ".", its own only ancestor |
| Git.CurDirFindsSameRepo | src/git.rs:36-48 | a leading `./` changes neither whether a repository is found, nor the directory it names, nor the relative part |
| RepoWalk.Size | src/repoiterator.rs:25-57 | (helper) every listing has a positive size, the measure the walk terminates by |
| RepoWalk.StackSizeAppend | src/repoiterator.rs:25-45 | (helper) the stack measure adds over concatenation |
| RepoWalk.ToStrFromPath | src/repoiterator.rs:37-40 | `to_str` of a UTF-8 path can be read back to its names |
| RepoWalk.EntryStep | src/repoiterator.rs:29-49 | one entry sends at most one path or pushes at most one directory, not both, and only appends; the only errors it raises are `IO` and `None` |
| RepoWalk.ScanEntries | src/repoiterator.rs:28-50 | a directory's scan pushes no more than the entries hold, so the walk terminates |
| RepoWalk.ScanFinds | src/repoiterator.rs:34-42 | a scan sends only the directory itself, because of a `.git` directory and the pattern; a scan that was not aborted sends it exactly when the pattern holds |
| RepoWalk.ScanFails | src/repoiterator.rs:29-40 | a scan fails with `IO` for an unreadable entry or `None` for a non-UTF-8 repository path, and succeeds exactly when neither occurs |
| RepoWalk.ScanErrorSticks | src/repoiterator.rs:29 | the first error aborts the rest of the directory |
| RepoWalk.ReadDir | src/repoiterator.rs:28-50 | the entry loop computes the scan |
| RepoWalk.Sends | src/repoiterator.rs:41 | one `Some(path)` message per found path, in order |
| RepoWalk.WalkErrors | src/repoiterator.rs:25-60 | the walk fails only with `IO` or `None` |
| RepoWalk.ListRepos | src/repoiterator.rs:12-63 | the stack loop produces the walk from "." |
| RepoWalk.Collect | src/repoiterator.rs:25-50 | the reference tree walk: every directory collected lies at or below the starting path |
| RepoWalk.CollectOfAppend | src/repoiterator.rs:25 | the tree reference adds over the stack |
| RepoWalk.ScanCollects | src/repoiterator.rs:44-46 | the directories a scan pushes hold exactly what lies below the entries |
| RepoWalk.PopCollects | src/repoiterator.rs:25-50 | one pop keeps the directories still to be visited |
| RepoWalk.WalkSentinel | src/repoiterator.rs:59-60 | `None` is sent once, last, exactly when the walk was not aborted |
| RepoWalk.AllNameReposJoin | src/repoiterator.rs:41 | soundness of the sent paths is kept under concatenation |
| RepoWalk.FoundSound | src/repoiterator.rs:34-42 | what one directory sends names a repository that the pattern accepts |
| RepoWalk.WalkSound | src/repoiterator.rs:25-57 | every path sent names a repository root of the tree that the pattern accepts |
| RepoWalk.WalkComplete | src/repoiterator.rs:25-57 | a walk that was not aborted sends every repository root that the pattern accepts, including those nested in repositories (once each: `WalkSendsOnce`) |
| RepoWalk.ScanSendsAtMostOne | src/repoiterator.rs:34-42 | in a directory with distinct names the scan sends at most one path |
| RepoWalk.ScanPushes | src/repoiterator.rs:44-46 | each pushed directory is an entry of the directory read, one level down; pushed UTF-8 paths differ |
| RepoWalk.SpreadAfterPop | src/repoiterator.rs:25-46 | popping a directory and pushing its subdirectories keeps every path of the stack from being a prefix of another's UTF-8 path |
| RepoWalk.WalkSendsOnce | src/repoiterator.rs:25-57 | from such a stack no repository is sent twice |
| RepoWalk.WalkLogsUnreadable | src/repoiterator.rs:52-55 | the directories reported on stderr are unreadable ones, and all of them if the walk was not aborted |
| RepoWalk.CollectAvoidsGit | src/repoiterator.rs:34-46 | no directory is entered through a `.git` |
| RepoWalk.ListReposSound | src/repoiterator.rs:16-42 | from ".", every path sent starts with "." and has no `.git` component |
| RepoWalk.ListReposComplete | src/repoiterator.rs:16-60 | from ".", a complete walk sends every matching repository and then the sentinel |
| RepoWalk.ListReposSendsOnce | src/repoiterator.rs:16-60 | from ".", in a tree with distinct names per directory, no path is sent twice, and a complete walk sends every matching repository exactly once |
| RepoWalk.ToStrOfOne | src/repoiterator.rs:37-39 | a directory right below "." is displayed as "./name" |
| RepoWalk.WalkIsLastInFirstOut | src/repoiterator.rs:25 | the stack is last in, first out: with a pattern that accepts every path, of two sibling repositories the later one is sent first |
| RepoWalk.RepoIterator.constructor | src/repoiterator.rs:74-85 | the iterator reads the messages of the walk from "." |
| RepoWalk.RepoIterator.Next | src/repoiterator.rs:92-98 | the next message, or `None` once the channel is exhausted |
| RepoWalk.RepoPaths | src/repoiterator.rs:89-99 | the paths a command sees are the sent messages up to the first `None` |
| RepoWalk.YieldedAll | src/repoiterator.rs:92-98 | messages with `None` only last yield all their paths |
| RepoWalk.RepoPathsSeeEverySend | src/repoiterator.rs:89-99 | the commands see every path the walk sent, in order, whether or not it was aborted |
| Cli.NewFlags | src/main.rs:742-748 | the default flags match every path and every branch; `Regex` error if ".*" does not compile |
| Cli.Interpret | src/main.rs:766-888 | a dispatched subcommand, or the end of the arguments, keeps patterns that compiled |
| Cli.Invocation | src/main.rs:751-891 | a subcommand only runs with patterns that compiled; no arguments dispatch nothing |
| Cli.ReadCommandLine | src/main.rs:751-891 | the `for` loop with `skip` gives the outcome of the grammar |
| Cli.NoArgumentsIsError | src/main.rs:758-760 | no arguments is an argument error |
| Cli.OptionConsumesPattern | src/main.rs:776-795 | an option takes the next argument as its pattern, and only that one |
| Cli.OptionNeedsPattern | src/main.rs:777-792 | an option without a pattern is an argument error |
| Cli.SubcommandEndsOptions | src/main.rs:797-882 | the first subcommand decides the outcome with the flags read before it |
| Cli.HelpStops | src/main.rs:772-775 | `--help` prints the usage and runs nothing |
| Cli.UnknownWordIsError | src/main.rs:883 | an unrecognised word is an argument error |
| Cli.CommitNeedsDashMAndMessage | src/main.rs:841-857 | commit needs two more arguments, the first `-m`; the message is the second |
| Cli.LastOptionWins | src/main.rs:776-795 | a later `--path` replaces an earlier one; options after the subcommand are its arguments |
| CloneCommand.Span | src/command/clone.rs:51 | the longest run of class characters from a position |
| CloneCommand.SpanUnique | src/command/clone.rs:51 | a class run that ends where the class does is the span |
| CloneCommand.SpanStopsAt | src/command/clone.rs:51 | a span ends at or before the first character outside the class |
| CloneCommand.PrefixOf | src/command/clone.rs:51 | a prefix found is non-empty, within the URL, and ends with ':' or '/' |
| CloneCommand.FolderOf | src/command/clone.rs:13-23 | a folder is found only after a prefix; it is non-empty, made of folder characters, and is the slice of the URL right after the prefix |
| CloneCommand.PrefixParsed | src/command/clone.rs:51 | the parser finds every `user@host:`, `http://host/` or `https://host/` prefix of a URL |
| CloneCommand.PrefixSound | src/command/clone.rs:51 | whatever the parser finds is such a prefix |
| CloneCommand.FolderOfSound | src/command/clone.rs:13-23 | the folder extracted is capture group 2 of a match of the expression |
| CloneCommand.FolderOfComplete | src/command/clone.rs:13-23 | whenever the expression matches with a folder, that folder is extracted |
| CloneCommand.FolderHasNoDigitOrDot | src/command/clone.rs:51 | the folder holds no digit and no '.' |
| CloneCommand.FolderOfScpExample | src/command/clone.rs:51 | `git@github.com:luke-titley/git-poly.git` gives `luke-titley/git-poly` |
| CloneCommand.FolderOfHttpsExample | src/command/clone.rs:51 | `https://github.com/luke-titley/git-poly` gives `luke-titley/git-poly` |
| CloneCommand.LocalPathHasNoFolder | src/command/clone.rs:19 | a local path matches neither prefix and clones nothing |
| CloneCommand.CloneDir | src/command/clone.rs:22-23 | "./" then the folder, unless the folder is absolute and replaces it |
| CloneCommand.CloneWorker | src/command/clone.rs:12-43 | "Matching" is announced always; a directory is created and cloned into exactly when the URL matches |
| CloneCommand.CloneGoesBelowCurrentDir | src/command/clone.rs:22-34 | a relative folder is cloned into "./folder" |
| CloneCommand.MatchingMembers | src/command/clone.rs:57-65 | a URL gets a worker exactly when it is read and the pattern matches it |
| CloneCommand.Run | src/command/clone.rs:46-72 | workers start for the matching lines in order; the first non-UTF-8 line stops the loop with `IO` |
| CommitCommand.Modifications | src/command/commit.rs:39-50 | an error is `IO` at a line that is not UTF-8; `true` only when some line is a change |
| CommitCommand.Doit | src/command/commit.rs:15-64 | a commit carries the given message; a failure is `IO` or the branch filter's `None`; the repository is skipped exactly when the branch filter rejects it |
| CommitCommand.ModificationsMeaning | src/command/commit.rs:39-50 | `true` exactly when a change line comes before any unreadable line; `false` exactly when all lines are readable and none is a change; otherwise `IO` at an unreadable line |
| CommitCommand.ModificationsStopAtFirstChange | src/command/commit.rs:43-45 | lines after the first change line are never consulted |
| CommitCommand.UncommittedCodesFindNothing | src/command/commit.rs:74 | lines coded ` M`, `??` or `MM` find no change to commit, since the pattern needs a blank worktree column |
| CommitCommand.HasModifications | src/command/commit.rs:37-50 | the loop computes the scan and stops right after the first change line |
| CommitCommand.CommitsExactlyWhenStaged | src/command/commit.rs:21-61 | a commit with the given message is run exactly when the branch passes and a staged change is found |
| CommitCommand.SkippedIgnoresStatus | src/command/commit.rs:22-26 | a rejected branch returns before the status is read |
| CommitCommand.UncommittedCodesNeverCommit | src/command/commit.rs:53-61 | lines coded ` M`, `??` or `MM` never lead to a commit, including the staged part of an `MM` file |
| CommitCommand.Run | src/command/commit.rs:67-92 | one decision per repository, each that of `doit` |
| AddCommand.Pieces | src/command/add.rs:77 | (helper) splitting on '/' always gives at least one piece |
| AddCommand.Front | src/command/add.rs:77 | (helper) one character in front gives at least one piece |
| AddCommand.Parse | src/command/add.rs:77 | a leading '/' makes the path absolute; only a relative path can start with `.`; every component is non-empty, not "." and free of '/' |
| AddCommand.PiecesOfJoin | src/command/add.rs:77 | the pieces of `a/b` are those of `a` then those of `b` |
| AddCommand.ParseDisplay | src/command/add.rs:77 | parsing undoes printing: joined components (with a leading '/' if absolute) parse back to the path, without a leading `.` |
| AddCommand.ParseDot | src/command/add.rs:77 | "." parses to the current directory alone |
| AddCommand.ParseDotDisplay | src/command/add.rs:77 | "./" and joined components parse back to the components after a leading `.` |
| AddCommand.Locate | src/command/add.rs:48-49 | a repository found holds a `.git` and is absolute exactly when the argument is; the only error is `RelativeToRepo` |
| AddCommand.LocateCurrentDirectory | src/command/add.rs:48-49 | with a repository at the current directory, "." is added as ".", and "./name" and "name" as "name", all in that repository |
| AddCommand.LocateIgnoresDotSlash | src/command/add.rs:48-49 | a leading "./" on a relative argument changes neither whether it is placed, nor the repository directory, nor the relative part |
| AddCommand.Plan | src/command/add.rs:67-83 | at most one action per argument; the only error is `RelativeToRepo` |
| AddCommand.Run | src/command/add.rs:64-84 | the argument loop after the subcommand gives the planned actions and error |
| AddCommand.ChangedAtMostOnce | src/command/add.rs:70-75 | `-u` runs `add_changed` at most once, only if given, and exactly once if given and nothing fails |
| AddCommand.AddsTargetsInOrder | src/command/add.rs:76-79 | the paths are added in order in their own repositories; after a failure, those before it and none after |
| AddCommand.FailsIffSomePathUnplaced | src/command/add.rs:48-49 | the command fails exactly when a path lies in no repository, with `RelativeToRepo` |
| AddCommand.FailureIgnoresLaterArguments | src/command/add.rs:73-78 | after the first failure the remaining arguments change nothing |

## Left out

- Threads and channels. Workers run concurrently in the source, and the
  model runs them in sequence. The collected status messages are sorted,
  which is why `RenderIgnoresArrivalOrder` makes the order irrelevant. A
  failed `send`, a disconnected channel and a panicking `join` are not
  modelled.
- Subprocesses. `git` runs are represented by the lines they printed, and
  their exit status is not read by the source. A failure to spawn `git`
  (`output()?`) and failures of `create_dir_all` in clone are not modelled.
  Writing the children's stdout/stderr (src/io.rs) is not modelled.
- Regular expressions given by the user are abstract predicates, and so is
  whether one compiles. The fixed expressions are the exception: the porcelain
  splitter, the commit "changes" pattern and the clone URL expression are
  written out.
- `Vec::sort` is a library sort. It is represented by an insertion sort, and
  `SortedUnique` shows that every sort gives the same result.
- Colours are tags on lines, not terminal escape codes. The blank lines and
  fixed texts are kept.
- File-system paths are sequences of normal components. Symbolic links,
  `..` resolution and canonicalisation are not modelled.
- `Path::strip_prefix` returns the rest of the path as written. The model
  rebuilds it from the normal components joined by '/', so an argument with
  repeated slashes or inner `.` components (`a//b`, `a/./b`) is added under
  its normal spelling (`a/b`).
- `RepoWalk.ListReposSendsOnce` assumes that a directory holds no two entries
  with the same UTF-8 name, as on a real file system. Names that are not
  UTF-8 are all `NotUtf8` in the model, so nothing is claimed about them.
- `RepoWalk.Walk` and `StatusTypes.MsgLe` carry no contract of their own:
  what they promise is stated by the lemmas about them (`WalkErrors`,
  `WalkSentinel`, `WalkSound`, `WalkComplete`, `WalkSendsOnce`; the `MsgLe`
  lemmas).
- `Cli.ReadCommandLine` is given the arguments after the program name; an
  empty `env::args()` (no program name) is not modelled. `usage()` output is
  not modelled.
- The subcommands `go`, `cmd`, `grep`, `ls-files`, `ls`, `reset`, `mv` and
  `replace` are dispatched with their arguments (`Cli.Command`), but their
  bodies are thin loops around subprocesses; src/command/replace.rs and
  `mv` (file renames) are not part of this model.
- `add_changed` is the single action `AddChanged`. Its per-repository
  `git add -u` is the same repository walk that `RepoWalk` models.
- `Cli.LastOptionWins` is one example, not a general lemma. The general
  statement is `OptionConsumesPattern` applied one option at a time.
