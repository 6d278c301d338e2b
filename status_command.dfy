/** src/command/status.rs (with its line-for-line copy in src/main.rs:40-52,
    465-687, which is the one `main` calls): classifying porcelain codes, the
    worker that turns one repository's `git status --porcelain` output into
    status messages, and the report that sorts all collected messages and
    renders them grouped by branch, then by tracking, with a header only where
    a group starts. Text goes to the terminal as lines whose colour is a tag. */
module StatusCommand {
  import opened Common
  import opened StatusTypes
  import opened Grouping
  import opened MsgSort
  import Git

  // ---------------------------------------------------------------------------
  // Classification
  // ---------------------------------------------------------------------------

  /** convert_to_status: the eight porcelain codes the report knows. */
  function ConvertToStatus(code: string): (r: Result<Status>)
    ensures r.Ok? <==> code in {"??", " M", " A", " D", "M ", "A ", "D ", "UU"}
    ensures r.Err? ==> r.error == UnableToParseStatus
  {
    if code == "??" then Ok((Tracking.Untracked, Staging.Untracked))
    else if code == " M" then Ok((Unstaged, Modified))
    else if code == " A" then Ok((Unstaged, Added))
    else if code == " D" then Ok((Unstaged, Deleted))
    else if code == "M " then Ok((Staged, Modified))
    else if code == "A " then Ok((Staged, Added))
    else if code == "D " then Ok((Staged, Deleted))
    else if code == "UU" then Ok((Unmerged, BothModified))
    else Err(UnableToParseStatus)
  }

  /** The change a porcelain column letter stands for. */
  function ColumnChange(c: char): Option<Staging> {
    if c == 'M' then Some(Modified)
    else if c == 'A' then Some(Added)
    else if c == 'D' then Some(Deleted)
    else None
  }

  /** How git's porcelain format reads a two-column code: the first column is
      the index, the second the working tree; a change in the index alone is
      staged, a change in the working tree alone is unstaged; "??" is an
      untracked file, "UU" a file both sides modified. */
  function ColumnReading(code: string): Result<Status> {
    if code == "??" then Ok((Tracking.Untracked, Staging.Untracked))
    else if code == "UU" then Ok((Unmerged, BothModified))
    else if |code| == 2 && code[1] == ' ' && ColumnChange(code[0]).Some? then
      Ok((Staged, ColumnChange(code[0]).value))
    else if |code| == 2 && code[0] == ' ' && ColumnChange(code[1]).Some? then
      Ok((Unstaged, ColumnChange(code[1]).value))
    else Err(UnableToParseStatus)
  }

  /** The table of convert_to_status is exactly that reading of the columns. */
  lemma ConvertReadsColumns(code: string)
    ensures ConvertToStatus(code) == ColumnReading(code)
  {
    if |code| == 2 {
      assert code == [code[0], code[1]];
    }
  }

  /** The code each status is written as; the inverse of convert_to_status. */
  function StatusCode(st: Status): Option<string> {
    match st
    case (Untracked, Untracked) => Some("??")
    case (Unstaged, Modified) => Some(" M")
    case (Unstaged, Added) => Some(" A")
    case (Unstaged, Deleted) => Some(" D")
    case (Staged, Modified) => Some("M ")
    case (Staged, Added) => Some("A ")
    case (Staged, Deleted) => Some("D ")
    case (Unmerged, BothModified) => Some("UU")
    case _ => None
  }

  /** Parsing and writing codes are inverse: a code parses to a status exactly
      when that status is written as that code. */
  lemma ConvertRoundTrip(code: string, st: Status)
    ensures ConvertToStatus(code) == Ok(st) <==> StatusCode(st) == Some(code)
  {
  }

  // ---------------------------------------------------------------------------
  // Rendering
  // ---------------------------------------------------------------------------

  /** Terminal colour of a piece of text; `Plain` is uncoloured. */
  datatype Color = Plain | Red | Green

  /** match_color: green for staged changes, red for everything else. */
  function MatchColor(t: Tracking): (c: Color)
    ensures c == Green <==> t == Staged
    ensures c == Red <==> t != Staged
  {
    match t
    case Unstaged => Red
    case Untracked => Red
    case Unmerged => Red
    case _ => Green
  }

  /** The fixed texts of the report. */
  datatype Message =
    | NotStagedTitle | UntrackedTitle | UnmergedTitle | StagedTitle
    | AddToCommitHint | FixConflictsHint | AbortMergeHint
    | UnmergedPathsText | MarkResolutionHint

  function MessageText(m: Message): string {
    match m
    case NotStagedTitle => "Changes not staged for commit:"
    case UntrackedTitle => "Untracked files:"
    case UnmergedTitle => "You have unmerged paths."
    case StagedTitle => "Changes to be commited:"
    case AddToCommitHint => "  (use \"git add <file>...\" to include in what will be committed)"
    case FixConflictsHint => "  (fix conflicts and run \"git commit\")"
    case AbortMergeHint => "  (use \"git merge --abort\" to abort the merge)"
    case UnmergedPathsText => "Unmerged paths:"
    case MarkResolutionHint => "  (use \"git add <file>...\" to mark resolution)"
  }

  /** A line of the report. `BranchHeader` is "on branch <name>" with the
      name always in cyan, the one colour not carried by a tag; `Heading` is
      the first line of a section title; `EntryLine` is a change: the label
      of its staging, then its path, each in its own colour. */
  datatype Line =
    | Blank
    | Text(message: Message)
    | BranchHeader(branch: string)
    | Heading(tracking: Tracking, title: Message)
    | EntryLine(labelColor: Color, staging: Staging, pathColor: Color, path: string)

  /** The three kinds of line the report's structure is read from. */
  datatype Kind = EntryKind | BranchKind | HeadingKind

  predicate OfKind(l: Line, k: Kind) {
    match k
    case EntryKind => l.EntryLine?
    case BranchKind => l.BranchHeader?
    case HeadingKind => l.Heading?
  }

  /** The lines of kind `k`, in order. */
  function Select(lines: seq<Line>, k: Kind): seq<Line>
    decreases |lines|
  {
    if lines == [] then []
    else
      var last := lines[|lines| - 1];
      Select(lines[..|lines| - 1], k) + (if OfKind(last, k) then [last] else [])
  }

  lemma {:induction false} SelectAppend(a: seq<Line>, b: seq<Line>, k: Kind)
    ensures Select(a + b, k) == Select(a, k) + Select(b, k)
    decreases |b|
  {
    if b != [] {
      var n := |b| - 1;
      assert (a + b)[..|a + b| - 1] == a + b[..n];
      SelectAppend(a, b[..n], k);
    } else {
      assert a + b == a;
    }
  }

  lemma SelectSingle(x: Line, k: Kind)
    ensures Select([x], k) == if OfKind(x, k) then [x] else []
  {
    assert [x][..0] == [];
  }

  /** Lines none of which is of kind `k` select nothing. */
  lemma {:induction false} SelectNone(lines: seq<Line>, k: Kind)
    requires forall i :: 0 <= i < |lines| ==> !OfKind(lines[i], k)
    ensures Select(lines, k) == []
    decreases |lines|
  {
    if lines != [] {
      SelectNone(lines[..|lines| - 1], k);
    }
  }

  /** The first line of the title of each tracking. */
  function TitleOf(t: Tracking): Message {
    match t
    case Unstaged => NotStagedTitle
    case Untracked => UntrackedTitle
    case Unmerged => UnmergedTitle
    case Staged => StagedTitle
  }

  /** print_title: one section title, a heading for `t` followed only by
      hint text and blank lines. */
  function TitleLines(t: Tracking): (r: seq<Line>)
    ensures r != [] && r[0] == Heading(t, TitleOf(t))
    ensures forall i :: 1 <= i < |r| ==> r[i].Blank? || r[i].Text?
  {
    match t
    case Unstaged => [Heading(Unstaged, NotStagedTitle), Text(AddToCommitHint), Blank]
    case Untracked => [Heading(Tracking.Untracked, UntrackedTitle), Text(AddToCommitHint), Blank]
    case Unmerged => [
      Heading(Unmerged, UnmergedTitle), Text(FixConflictsHint), Text(AbortMergeHint), Blank,
      Text(UnmergedPathsText), Text(MarkResolutionHint)]
    case _ => [Heading(Staged, StagedTitle), Blank]
  }

  /** The label printed before an entry's path. */
  function StagingLabel(s: Staging): string {
    match s
    case Modified => "        modified:   "
    case Deleted => "        deleted:   "
    case Added => "        new file:   "
    case BothModified => "        both modified:   "
    case Untracked => "        "
  }

  /** Each staging has its own label, so an entry line tells its staging. */
  lemma StagingLabelsDistinct(a: Staging, b: Staging)
    ensures StagingLabel(a) == StagingLabel(b) ==> a == b
  {
  }

  /** The text of a line as it appears on the terminal, colours aside. */
  function LineText(l: Line): string {
    match l
    case Blank => ""
    case Text(m) => MessageText(m)
    case BranchHeader(b) => "on branch " + b
    case Heading(_, m) => MessageText(m)
    case EntryLine(_, st, _, p) => StagingLabel(st) + p
  }

  /** The entry line of message `m` in colour `c`. The label of an untracked
      file is a bare, uncoloured indent. */
  function EntryLineOf(m: StatusMsg, c: Color): Line {
    var labelColor := if m.status.1 == Staging.Untracked then Plain else c;
    EntryLine(labelColor, m.status.1, c, m.path)
  }

  /** What StatusIterator yields for one message. */
  datatype StatusIteration =
    StatusIteration(msg: StatusMsg, printBranch: bool, printTracking: bool, color: Color)

  /** The branch of each message, and its section (branch, tracking). */
  function BranchKeys(s: seq<StatusMsg>): (keys: seq<string>)
    ensures |keys| == |s|
  {
    seq(|s|, i requires 0 <= i < |s| => s[i].branch)
  }

  function SectionKeys(s: seq<StatusMsg>): (keys: seq<(string, Tracking)>)
    ensures |keys| == |s|
  {
    seq(|s|, i requires 0 <= i < |s| => (s[i].branch, s[i].status.0))
  }

  /** Item i of StatusIterator over `s`: a branch header is printed exactly
      where a run of equal branches starts, and a title exactly where a run of
      equal (branch, tracking) sections starts; so a header always comes with
      a title, and the first item has both. */
  function IterationAt(s: seq<StatusMsg>, i: nat): (it: StatusIteration)
    requires i < |s|
    ensures it.msg == s[i] && it.color == MatchColor(s[i].status.0)
    ensures it.printBranch == StartsRun(BranchKeys(s), i)
    ensures it.printTracking == StartsRun(SectionKeys(s), i)
    ensures it.printBranch ==> it.printTracking
    ensures i == 0 ==> it.printBranch && it.printTracking
  {
    var status := s[i];
    var color := MatchColor(status.status.0);
    if i == 0 then StatusIteration(status, true, true, color)
    else
      var previous := s[i - 1];
      var printBranch := status.branch != previous.branch;
      var printTracking := printBranch || status.status.0 != previous.status.0;
      StatusIteration(status, printBranch, printTracking, color)
  }

  /** The cursor over the sorted messages (src/command/status.rs:132-185). */
  class StatusIterator {
    const statuses: seq<StatusMsg>
    var index: nat

    constructor (statuses: seq<StatusMsg>)
      ensures this.statuses == statuses && index == 0
    {
      this.statuses := statuses;
      index := 0;
    }

    /** Item `index`, then one step on; `None` once past the end. */
    method Next() returns (item: Option<StatusIteration>)
      modifies this
      ensures old(index) < |statuses| ==>
                index == old(index) + 1 && item == Some(IterationAt(statuses, old(index)))
      ensures |statuses| <= old(index) ==> index == old(index) && item == None
    {
      if |statuses| <= index {
        return None;
      }
      var i := index;
      var status := statuses[i];
      var color := MatchColor(status.status.0);
      index := index + 1;
      if i == 0 {
        return Some(StatusIteration(status, true, true, color));
      }
      var previous := statuses[i - 1];
      var printBranch := status.branch != previous.branch;
      var printTracking := printBranch || status.status.0 != previous.status.0;
      return Some(StatusIteration(status, printBranch, printTracking, color));
    }
  }

  /** The lines one iteration prints (src/command/status.rs:222-256). */
  function ItemLines(it: StatusIteration): (r: seq<Line>)
    ensures r != [] && r[|r| - 1] == EntryLineOf(it.msg, it.color)
    ensures it.printBranch ==> |r| > 2 && r[0] == Blank && r[1] == BranchHeader(it.msg.branch)
    ensures !it.printBranch && !it.printTracking ==> r == [EntryLineOf(it.msg, it.color)]
  {
    HeaderLines(it) + SectionLines(it) + [EntryLineOf(it.msg, it.color)]
  }

  function HeaderLines(it: StatusIteration): seq<Line> {
    if it.printBranch then [Blank, BranchHeader(it.msg.branch)] else []
  }

  function SectionLines(it: StatusIteration): seq<Line> {
    if it.printTracking
    then (if it.printBranch then [] else [Blank]) + TitleLines(it.msg.status.0)
    else []
  }

  /** What the report's structure reads from one iteration: a branch header
      if one is printed, a section heading if a title is, and the entry. */
  function ItemSelected(it: StatusIteration, k: Kind): seq<Line> {
    match k
    case BranchKind => if it.printBranch then [BranchHeader(it.msg.branch)] else []
    case HeadingKind => if it.printTracking then [Heading(it.msg.status.0, TitleOf(it.msg.status.0))] else []
    case EntryKind => [EntryLineOf(it.msg, it.color)]
  }

  lemma HeaderSelect(it: StatusIteration, k: Kind)
    ensures Select(HeaderLines(it), k)
            == if it.printBranch && k == BranchKind then [BranchHeader(it.msg.branch)] else []
  {
    if it.printBranch {
      SelectAppend([Blank], [BranchHeader(it.msg.branch)], k);
      SelectSingle(Blank, k);
      SelectSingle(BranchHeader(it.msg.branch), k);
    } else {
      SelectNone(HeaderLines(it), k);
    }
  }

  lemma SectionSelect(it: StatusIteration, k: Kind)
    ensures Select(SectionLines(it), k)
            == if it.printTracking && k == HeadingKind then [Heading(it.msg.status.0, TitleOf(it.msg.status.0))] else []
  {
    if it.printTracking {
      var title := TitleLines(it.msg.status.0);
      var lead := if it.printBranch then [] else [Blank];
      SelectAppend(lead, title, k);
      SelectNone(lead, k);
      TitleSelect(it.msg.status.0, k);
    } else {
      SelectNone(SectionLines(it), k);
    }
  }

  /** A section's title lines hold its heading and nothing else of a
      selected kind. */
  lemma TitleSelect(t: Tracking, k: Kind)
    ensures Select(TitleLines(t), k) == if k == HeadingKind then [Heading(t, TitleOf(t))] else []
  {
    HeadThenPlain(TitleLines(t), k);
  }

  /** Lines whose first is the only one that may be selected. */
  lemma HeadThenPlain(r: seq<Line>, k: Kind)
    requires r != [] && forall i :: 1 <= i < |r| ==> r[i].Blank? || r[i].Text?
    ensures Select(r, k) == if OfKind(r[0], k) then [r[0]] else []
  {
    assert r == [r[0]] + r[1..];
    SelectAppend([r[0]], r[1..], k);
    SelectSingle(r[0], k);
    SelectNone(r[1..], k);
  }

  lemma ItemSelect(it: StatusIteration, k: Kind)
    ensures Select(ItemLines(it), k) == ItemSelected(it, k)
  {
    HeaderSelect(it, k);
    SectionSelect(it, k);
    SelectThree(HeaderLines(it), SectionLines(it), EntryLineOf(it.msg, it.color), k);
  }

  lemma SelectThree(head: seq<Line>, section: seq<Line>, e: Line, k: Kind)
    ensures Select(head + section + [e], k)
            == Select(head, k) + Select(section, k) + (if OfKind(e, k) then [e] else [])
  {
    SelectSingle(e, k);
    SelectAppend(head + section, [e], k);
    SelectAppend(head, section, k);
  }

  function RenderPrefix(s: seq<StatusMsg>, n: nat): (r: seq<Line>)
    requires n <= |s|
    ensures |r| >= n
    ensures n > 0 ==> r[|r| - 1].EntryLine? && r[|r| - 1].path == s[n - 1].path
  {
    if n == 0 then [] else RenderPrefix(s, n - 1) + ItemLines(IterationAt(s, n - 1))
  }

  /** The report for messages that are already in order. */
  function Render(s: seq<StatusMsg>): seq<Line> {
    RenderPrefix(s, |s|)
  }

  /** One more iteration adds what it prints of each kind. */
  lemma SelectStep(s: seq<StatusMsg>, n: nat, k: Kind)
    requires 0 < n <= |s|
    ensures Select(RenderPrefix(s, n), k)
            == Select(RenderPrefix(s, n - 1), k) + ItemSelected(IterationAt(s, n - 1), k)
  {
    var it := IterationAt(s, n - 1);
    SelectAppend(RenderPrefix(s, n - 1), ItemLines(it), k);
    ItemSelect(it, k);
  }

  /** The entry line of message i of `s`. */
  function EntryAt(s: seq<StatusMsg>, i: nat): Line
    requires i < |s|
  {
    EntryLineOf(s[i], MatchColor(s[i].status.0))
  }

  /** `entries` are the entry lines of the first n messages of `s`, in order. */
  predicate EntriesOf(entries: seq<Line>, s: seq<StatusMsg>, n: nat)
    requires n <= |s|
  {
    |entries| == n && forall i :: 0 <= i < n ==> entries[i] == EntryAt(s, i)
  }

  lemma ExtendEntries(s: seq<StatusMsg>, n: nat, before: seq<Line>, entries: seq<Line>)
    requires 0 < n <= |s|
    requires EntriesOf(before, s, n - 1)
    requires entries == before + [EntryAt(s, n - 1)]
    ensures EntriesOf(entries, s, n)
  {
  }

  /** Every message gets exactly one entry line, in order, labelled by its
      staging and coloured by its tracking. */
  lemma {:induction false} RenderEntries(s: seq<StatusMsg>, n: nat)
    requires n <= |s|
    ensures EntriesOf(Select(RenderPrefix(s, n), EntryKind), s, n)
  {
    if n > 0 {
      RenderEntries(s, n - 1);
      SelectStep(s, n, EntryKind);
      ExtendEntries(s, n, Select(RenderPrefix(s, n - 1), EntryKind), Select(RenderPrefix(s, n), EntryKind));
    }
  }

  /** Headers `lines` announce the branches `heads`, one each, in order. */
  predicate Announces(lines: seq<Line>, heads: seq<string>) {
    |lines| == |heads| && forall i :: 0 <= i < |lines| ==> lines[i] == BranchHeader(heads[i])
  }

  lemma ExtendAnnounces(before: seq<Line>, heads: seq<string>, item: seq<Line>,
                        opens: bool, key: string, after: seq<Line>, headsAfter: seq<string>)
    requires Announces(before, heads)
    requires item == if opens then [BranchHeader(key)] else []
    requires after == before + item && headsAfter == heads + if opens then [key] else []
    ensures Announces(after, headsAfter)
  {
  }

  lemma ItemSelectedBranch(s: seq<StatusMsg>, n: nat)
    requires 0 < n <= |s|
    ensures ItemSelected(IterationAt(s, n - 1), BranchKind)
            == if StartsRun(BranchKeys(s), n - 1) then [BranchHeader(BranchKeys(s)[n - 1])] else []
  {
  }

  lemma RenderBranchHeadersStep(s: seq<StatusMsg>, n: nat)
    requires 0 < n <= |s|
    requires Announces(Select(RenderPrefix(s, n - 1), BranchKind), Heads(BranchKeys(s)[..n - 1]))
    ensures Announces(Select(RenderPrefix(s, n), BranchKind), Heads(BranchKeys(s)[..n]))
  {
    SelectStep(s, n, BranchKind);
    ItemSelectedBranch(s, n);
    var keys := BranchKeys(s);
    HeadsOfLonger(keys, n);
    ExtendAnnounces(Select(RenderPrefix(s, n - 1), BranchKind), Heads(keys[..n - 1]),
                    ItemSelected(IterationAt(s, n - 1), BranchKind), StartsRun(keys, n - 1), keys[n - 1],
                    Select(RenderPrefix(s, n), BranchKind), Heads(keys[..n]));
  }

  /** A branch header is printed exactly at the start of each run of equal
      branches. */
  lemma {:induction false} RenderBranchHeaders(s: seq<StatusMsg>, n: nat)
    requires n <= |s|
    ensures Announces(Select(RenderPrefix(s, n), BranchKind), Heads(BranchKeys(s)[..n]))
  {
    if n > 0 {
      RenderBranchHeaders(s, n - 1);
      RenderBranchHeadersStep(s, n);
    }
  }

  /** Headings `lines` open the sections `heads`, one each, in order. */
  predicate Opens(lines: seq<Line>, heads: seq<(string, Tracking)>) {
    |lines| == |heads| && forall i :: 0 <= i < |lines| ==> lines[i] == HeadingOf(heads[i])
  }

  /** The heading line of a section. */
  function HeadingOf(section: (string, Tracking)): Line {
    Heading(section.1, TitleOf(section.1))
  }

  lemma ExtendOpens(before: seq<Line>, heads: seq<(string, Tracking)>, item: seq<Line>,
                    opens: bool, key: (string, Tracking), after: seq<Line>, headsAfter: seq<(string, Tracking)>)
    requires Opens(before, heads)
    requires item == if opens then [HeadingOf(key)] else []
    requires after == before + item && headsAfter == heads + if opens then [key] else []
    ensures Opens(after, headsAfter)
  {
  }

  lemma ItemSelectedHeading(s: seq<StatusMsg>, n: nat)
    requires 0 < n <= |s|
    ensures ItemSelected(IterationAt(s, n - 1), HeadingKind)
            == if StartsRun(SectionKeys(s), n - 1) then [HeadingOf(SectionKeys(s)[n - 1])] else []
  {
  }

  lemma RenderHeadingsStep(s: seq<StatusMsg>, n: nat)
    requires 0 < n <= |s|
    requires Opens(Select(RenderPrefix(s, n - 1), HeadingKind), Heads(SectionKeys(s)[..n - 1]))
    ensures Opens(Select(RenderPrefix(s, n), HeadingKind), Heads(SectionKeys(s)[..n]))
  {
    SelectStep(s, n, HeadingKind);
    ItemSelectedHeading(s, n);
    var keys := SectionKeys(s);
    HeadsOfLonger(keys, n);
    ExtendOpens(Select(RenderPrefix(s, n - 1), HeadingKind), Heads(keys[..n - 1]),
                ItemSelected(IterationAt(s, n - 1), HeadingKind), StartsRun(keys, n - 1), keys[n - 1],
                Select(RenderPrefix(s, n), HeadingKind), Heads(keys[..n]));
  }

  /** A section title is printed exactly at the start of each run of equal
      (branch, tracking) sections. */
  lemma {:induction false} RenderHeadings(s: seq<StatusMsg>, n: nat)
    requires n <= |s|
    ensures Opens(Select(RenderPrefix(s, n), HeadingKind), Heads(SectionKeys(s)[..n]))
  {
    if n > 0 {
      RenderHeadings(s, n - 1);
      RenderHeadingsStep(s, n);
    }
  }

  /** Sorting groups the messages: all messages of one branch are contiguous,
      and within a branch all messages of one tracking are. */
  lemma SortedIsGrouped(s: seq<StatusMsg>)
    requires Sorted(s)
    ensures Grouped(BranchKeys(s))
    ensures Grouped(SectionKeys(s))
  {
    forall i, j, k | 0 <= i < j < k < |s| && s[i].branch == s[k].branch
      ensures s[j].branch == s[i].branch
    {
      MsgLeByBranchThenTracking(s[i], s[j]);
      MsgLeByBranchThenTracking(s[j], s[k]);
      StrLeAntisymmetric(s[i].branch, s[j].branch);
    }
    forall i, j, k | 0 <= i < j < k < |s| && SectionKeys(s)[i] == SectionKeys(s)[k]
      ensures SectionKeys(s)[j] == SectionKeys(s)[i]
    {
      MsgLeByBranchThenTracking(s[i], s[j]);
      MsgLeByBranchThenTracking(s[j], s[k]);
      StrLeAntisymmetric(s[i].branch, s[j].branch);
      RanksAreInjective();
    }
  }

  /** For the sorted messages the report is built from, every branch that has
      a change is announced by exactly one header, and every (branch,
      tracking) section that has a change gets exactly one title. */
  lemma SortedRenderHeaders(s: seq<StatusMsg>)
    requires Sorted(s)
    ensures var branches := Heads(BranchKeys(s));
      && Announces(Select(Render(s), BranchKind), branches)
      && Distinct(branches) && forall b :: b in branches <==> b in BranchKeys(s)
    ensures var sections := Heads(SectionKeys(s));
      && Opens(Select(Render(s), HeadingKind), sections)
      && Distinct(sections) && forall k :: k in sections <==> k in SectionKeys(s)
  {
    SortedIsGrouped(s);
    RenderBranchHeaders(s, |s|);
    RenderHeadings(s, |s|);
    assert BranchKeys(s)[..|s|] == BranchKeys(s);
    assert SectionKeys(s)[..|s|] == SectionKeys(s);
    HeadsOfGrouped(BranchKeys(s));
    HeadsOfGrouped(SectionKeys(s));
  }

  /** The report depends only on the multiset of messages received, not on
      the order the workers sent them in. */
  lemma RenderIgnoresArrivalOrder(a: seq<StatusMsg>, b: seq<StatusMsg>)
    requires multiset(a) == multiset(b)
    ensures Render(SortMsgs(a)) == Render(SortMsgs(b))
  {
    SortedUnique(SortMsgs(a), SortMsgs(b));
  }

  /** The printing loop of `run` (src/command/status.rs:222-256): one
      iteration after the other until the cursor is exhausted. */
  method PrintChanges(sorted: seq<StatusMsg>) returns (lines: seq<Line>)
    ensures lines == Render(sorted)
  {
    var cursor := new StatusIterator(sorted);
    lines := [];
    while true
      invariant cursor.statuses == sorted && cursor.index <= |sorted|
      invariant lines == RenderPrefix(sorted, cursor.index)
      decreases |sorted| - cursor.index
    {
      ghost var before := cursor.index;
      var item := cursor.Next();
      if item.None? {
        assert cursor.index == |sorted|;
        break;
      }
      assert cursor.index == before + 1 && item.value == IterationAt(sorted, before);
      lines := Printed(sorted, cursor.index, lines, item.value);
    }
  }

  /** One iteration's lines appended to those printed before it. */
  function Printed(s: seq<StatusMsg>, n: nat, before: seq<Line>, it: StatusIteration): (after: seq<Line>)
    requires 0 < n <= |s|
    requires before == RenderPrefix(s, n - 1) && it == IterationAt(s, n - 1)
    ensures after == RenderPrefix(s, n)
  {
    before + ItemLines(it)
  }

  /** The sort-and-print half of `run` (src/command/status.rs:217-258). */
  method Report(changes: seq<StatusMsg>) returns (lines: seq<Line>)
    ensures lines == Render(SortMsgs(changes))
  {
    var sorted := SortMsgs(changes);
    lines := PrintChanges(sorted);
  }

  // ---------------------------------------------------------------------------
  // The worker: one repository's porcelain output to status messages
  // ---------------------------------------------------------------------------

  /** The codes the splitter `(UU| M|M |MM|A | D|D |\?\?) (.*)` accepts. It
      accepts "MM", which convert_to_status rejects, and lacks " A". */
  const SplitterCodes: set<string> := {"UU", " M", "M ", "MM", "A ", " D", "D ", "??"}

  /** The splitter matches at position `p` of `line`: one of its codes, then
      a space (the `(.*)` that follows matches whatever is left). */
  predicate MatchesAt(line: string, p: nat) {
    p + 3 <= |line| && line[p..p + 2] in SplitterCodes && line[p + 2] == ' '
  }

  /** The leftmost position at or after `from` where the splitter matches. */
  function FirstMatch(line: string, from: nat): (r: Option<nat>)
    ensures r.Some? ==> from <= r.value && MatchesAt(line, r.value)
    ensures forall q: nat :: from <= q && (r.None? || q < r.value) ==> !MatchesAt(line, q)
    decreases |line| - from
  {
    if |line| < from + 3 then None
    else if MatchesAt(line, from) then Some(from)
    else FirstMatch(line, from + 1)
  }

  /** `splitter.captures_iter(line)` and its first capture: the search is
      not anchored, so the first match may start anywhere in the line; its
      groups are the two-letter code and the rest of the line. */
  function Split(line: string): (r: Option<(string, string)>)
    ensures r.None? <==> forall p: nat :: !MatchesAt(line, p)
    ensures r.Some? ==> exists p: nat ::
              && MatchesAt(line, p) && r.value == (line[p..p + 2], line[p + 3..])
              && forall q: nat :: q < p ==> !MatchesAt(line, q)
  {
    match FirstMatch(line, 0)
    case None => None
    case Some(p) => Some((line[p..p + 2], line[p + 3..]))
  }

  /** A line in porcelain form, a code followed by a space and the file,
      splits into exactly that code and file. */
  lemma SplitPorcelainLine(code: string, file: string)
    requires code in SplitterCodes
    ensures Split(code + " " + file) == Some((code, file))
  {
    var line := code + " " + file;
    assert |code| == 2;
    assert line[0..2] == code && line[2] == ' ' && line[3..] == file;
    assert MatchesAt(line, 0);
  }

  /** `file_path.push(path); file_path.push(file)`, displayed: the file under
      the repository, unless the file is absolute, which replaces it. */
  function FilePath(repo: Path, file: string): (r: string)
    ensures file != [] && file[0] == '/' ==> r == file
    ensures !(file != [] && file[0] == '/') ==> Display(repo) + "/" <= r
    ensures |file| <= |r| && r[|r| - |file|..] == file
  {
    if file != [] && file[0] == '/' then file else Display(repo) + "/" + file
  }

  /** What the worker does with one line: an error, nothing, or a message. */
  function LineStep(branch: string, repo: Path, line: Git.OutputLine): (r: Result<Option<StatusMsg>>)
    ensures r == Err(Io) <==> line.NotUtf8?
    ensures r.Err? ==> r.error == Io || r.error == UnableToParseStatus
    ensures r.Ok? && r.value.Some? ==> r.value.value.branch == branch
  {
    match line
    case NotUtf8 => Err(Io)
    case Utf8(text) =>
      match Split(text)
      case None => Ok(None)
      case Some(parts) =>
        match ConvertToStatus(parts.0)
        case Err(e) => Err(e)
        case Ok(st) => Ok(Some(StatusMsg(branch, st, FilePath(repo, parts.1))))
  }

  /** What a worker has sent, and the error that stopped it, if any. */
  datatype WorkerResult = WorkerResult(sent: seq<StatusMsg>, error: Option<Error>)

  /** The loop over the porcelain lines with its early `?` returns. */
  function ScanPorcelain(branch: string, repo: Path, lines: seq<Git.OutputLine>): (r: WorkerResult)
    ensures |r.sent| <= |lines|
    ensures forall i :: 0 <= i < |r.sent| ==> r.sent[i].branch == branch
    ensures r.error.None? || r.error == Some(Io) || r.error == Some(UnableToParseStatus)
    decreases |lines|
  {
    if lines == [] then WorkerResult([], None)
    else
      var r := ScanPorcelain(branch, repo, lines[..|lines| - 1]);
      if r.error.Some? then r
      else
        match LineStep(branch, repo, lines[|lines| - 1])
        case Err(e) => WorkerResult(r.sent, Some(e))
        case Ok(None) => r
        case Ok(Some(m)) => WorkerResult(r.sent + [m], None)
  }

  /** One repository as the status worker sees it: its path, what
      `git rev-parse --abbrev-ref HEAD` printed and what
      `git status --porcelain` printed. */
  datatype RepoStatus = RepoStatus(path: Path, head: seq<Git.OutputLine>, porcelain: seq<Git.OutputLine>)

  function StatusWorker(repo: RepoStatus, pattern: Option<string -> bool>): WorkerResult {
    match Git.BranchFilter(pattern, repo.head)
    case Err(e) => WorkerResult([], Some(e))
    case Ok(false) => WorkerResult([], None)
    case Ok(true) =>
      match Git.BranchName(repo.head)
      case Err(e) => WorkerResult([], Some(e))
      case Ok(branch) => ScanPorcelain(branch, repo.path, repo.porcelain)
  }

  /** status_thread (src/command/status.rs:75-119): the branch filter, the
      branch name, then the lines of `git status --porcelain`. */
  method StatusThread(repo: RepoStatus, pattern: Option<string -> bool>)
    returns (sent: seq<StatusMsg>, error: Option<Error>)
    ensures WorkerResult(sent, error) == StatusWorker(repo, pattern)
  {
    var go := Git.BranchFilter(pattern, repo.head);
    if go.Err? {
      return [], Some(go.error);
    }
    if !go.value {
      return [], None;
    }
    var name := Git.BranchName(repo.head);
    if name.Err? {
      return [], Some(name.error);
    }
    sent, error := ScanLines(name.value, repo.path, repo.porcelain);
  }

  /** The loop over `stdout.lines()` (src/command/status.rs:100-116): each
      line is split, its code converted and a message sent; the first `?`
      that fails returns from the worker. */
  method ScanLines(branch: string, path: Path, lines: seq<Git.OutputLine>)
    returns (sent: seq<StatusMsg>, error: Option<Error>)
    ensures WorkerResult(sent, error) == ScanPorcelain(branch, path, lines)
  {
    sent, error := [], None;
    var i := 0;
    while i < |lines|
      invariant i <= |lines|
      invariant ScanPorcelain(branch, path, lines[..i]) == WorkerResult(sent, None)
    {
      assert lines[..i + 1][..i] == lines[..i];
      match lines[i]
      case NotUtf8 =>
        ScanErrorSticks(branch, path, lines, i + 1);
        return sent, Some(Io);
      case Utf8(line) =>
        var split := Split(line);
        if split.Some? {
          var status := ConvertToStatus(split.value.0);
          if status.Err? {
            ScanErrorSticks(branch, path, lines, i + 1);
            return sent, Some(status.error);
          }
          sent := sent + [StatusMsg(branch, status.value, FilePath(path, split.value.1))];
        }
      i := i + 1;
    }
    assert lines[..i] == lines;
  }

  /** An error is final: once a prefix of the lines has failed, the whole
      scan has the same result. */
  lemma {:induction false} ScanErrorSticks(branch: string, repo: Path, lines: seq<Git.OutputLine>, k: nat)
    requires k <= |lines|
    requires ScanPorcelain(branch, repo, lines[..k]).error.Some?
    ensures ScanPorcelain(branch, repo, lines) == ScanPorcelain(branch, repo, lines[..k])
    decreases |lines|
  {
    if k < |lines| {
      var init := lines[..|lines| - 1];
      assert init[..k] == lines[..k];
      ScanErrorSticks(branch, repo, init, k);
    } else {
      assert lines[..k] == lines;
    }
  }

  /** Once a line fails, the worker stops there: what it sent is what the
      earlier lines produced, and it sends nothing for later lines. */
  lemma ScanStopsAtFirstError(branch: string, repo: Path, lines: seq<Git.OutputLine>, k: nat)
    requires k < |lines|
    requires LineStep(branch, repo, lines[k]).Err?
    requires forall j :: 0 <= j < k ==> LineStep(branch, repo, lines[j]).Ok?
    ensures ScanPorcelain(branch, repo, lines)
            == WorkerResult(ScanPorcelain(branch, repo, lines[..k]).sent,
                            Some(LineStep(branch, repo, lines[k]).error))
    ensures ScanPorcelain(branch, repo, lines[..k]).error.None?
  {
    ScanWithoutErrors(branch, repo, lines[..k]);
    assert lines[..k + 1][..k] == lines[..k];
    ScanErrorSticks(branch, repo, lines, k + 1);
  }

  /** Lines that all succeed leave the worker without an error. */
  lemma {:induction false} ScanWithoutErrors(branch: string, repo: Path, lines: seq<Git.OutputLine>)
    requires forall j :: 0 <= j < |lines| ==> LineStep(branch, repo, lines[j]).Ok?
    ensures ScanPorcelain(branch, repo, lines).error.None?
    decreases |lines|
  {
    if lines != [] {
      ScanWithoutErrors(branch, repo, lines[..|lines| - 1]);
    }
  }

  /** An "MM" line (a file modified in both the index and the working tree)
      passes the splitter but not convert_to_status: the worker fails there,
      and the repository contributes only the messages of earlier lines. */
  lemma MMLineStopsWorker(branch: string, repo: Path, lines: seq<Git.OutputLine>, k: nat, file: string)
    requires k < |lines| && lines[k] == Git.Utf8("MM " + file)
    requires forall j :: 0 <= j < k ==> LineStep(branch, repo, lines[j]).Ok?
    ensures ScanPorcelain(branch, repo, lines)
            == WorkerResult(ScanPorcelain(branch, repo, lines[..k]).sent, Some(UnableToParseStatus))
  {
    SplitPorcelainLine("MM", file);
    assert "MM " + file == "MM" + " " + file;
    assert ConvertToStatus("MM") == Err(UnableToParseStatus);
    assert LineStep(branch, repo, lines[k]) == Err(UnableToParseStatus);
    ScanStopsAtFirstError(branch, repo, lines, k);
  }

  /** Message m carries branch `branch` and a status the splitter can
      deliver, which is never " A" (intent to add). */
  predicate Deliverable(m: StatusMsg, branch: string) {
    m.branch == branch && StatusCode(m.status).Some?
    && StatusCode(m.status).value in SplitterCodes && m.status != (Unstaged, Added)
  }

  /** A line a worker turns into a message gives a deliverable one. */
  lemma LineStepSends(branch: string, repo: Path, line: Git.OutputLine)
    requires LineStep(branch, repo, line).Ok? && LineStep(branch, repo, line).value.Some?
    ensures Deliverable(LineStep(branch, repo, line).value.value, branch)
  {
    var parts := Split(line.text).value;
    ConvertRoundTrip(parts.0, LineStep(branch, repo, line).value.value.status);
  }

  /** Every message a worker sends carries the repository's branch and a
      status the splitter can deliver; in particular no " A" (intent to add)
      change ever reaches the report, since the splitter lacks that code. */
  lemma {:induction false} ScanSends(branch: string, repo: Path, lines: seq<Git.OutputLine>)
    ensures forall m :: m in ScanPorcelain(branch, repo, lines).sent ==> Deliverable(m, branch)
    decreases |lines|
  {
    if lines != [] {
      ScanSends(branch, repo, lines[..|lines| - 1]);
      var step := LineStep(branch, repo, lines[|lines| - 1]);
      if step.Ok? && step.value.Some? {
        LineStepSends(branch, repo, lines[|lines| - 1]);
      }
    }
  }

  // ---------------------------------------------------------------------------
  // The collector and the report
  // ---------------------------------------------------------------------------

  /** Everything the workers sent, repository after repository. Workers run
      concurrently, so the channel holds these messages in some interleaving;
      RenderIgnoresArrivalOrder shows the report is the same for all of them. */
  function Collected(repos: seq<RepoStatus>, pattern: Option<string -> bool>): seq<StatusMsg>
    decreases |repos|
  {
    if repos == [] then []
    else Collected(repos[..|repos| - 1], pattern) + StatusWorker(repos[|repos| - 1], pattern).sent
  }

  /** run / status (src/command/status.rs:188-259, src/main.rs:616-687): one
      worker per repository, the collected messages sorted and rendered. A
      worker's error is reported and costs only the rest of its own
      repository's messages. `repos` holds, for each path
      `RepoWalk.RepoPaths` yields, in order, that path and what the worker's
      subprocesses print there. */
  method Run(repos: seq<RepoStatus>, pattern: Option<string -> bool>) returns (lines: seq<Line>)
    ensures lines == Render(SortMsgs(Collected(repos, pattern)))
  {
    var changes: seq<StatusMsg> := [];
    var i := 0;
    while i < |repos|
      invariant i <= |repos|
      invariant changes == Collected(repos[..i], pattern)
    {
      assert repos[..i + 1][..i] == repos[..i];
      var sent, _ := StatusThread(repos[i], pattern);
      changes := changes + sent;
      i := i + 1;
    }
    assert repos[..i] == repos;
    lines := Report(changes);
  }

  /** The example of a single branch with two staged files: one branch
      header, one title, and the files ordered by staging (Added before
      Modified) rather than by arrival. */
  lemma TwoStagedFilesExample()
    ensures Render(SortMsgs([StatusMsg("branchA", (Staged, Modified), "b.txt"),
                             StatusMsg("branchA", (Staged, Added), "a.txt")]))
            == [Blank, BranchHeader("branchA"), Heading(Staged, StagedTitle), Blank,
                EntryLine(Green, Added, Green, "a.txt"),
                EntryLine(Green, Modified, Green, "b.txt")]
  {
    var b := StatusMsg("branchA", (Staged, Modified), "b.txt");
    var a := StatusMsg("branchA", (Staged, Added), "a.txt");
    SortTwo(a, b);
    var s := [a, b];
    ExampleIterations(a, b);
    ExampleItemLines(a, b);
    var first := ItemLines(IterationAt(s, 0));
    var second := ItemLines(IterationAt(s, 1));
    assert RenderPrefix(s, 1) == [] + first;
    assert Render(s) == ([] + first) + second;
  }

  lemma ExampleIterations(a: StatusMsg, b: StatusMsg)
    requires a == StatusMsg("branchA", (Staged, Added), "a.txt")
    requires b == StatusMsg("branchA", (Staged, Modified), "b.txt")
    ensures IterationAt([a, b], 0) == StatusIteration(a, true, true, Green)
    ensures IterationAt([a, b], 1) == StatusIteration(b, false, false, Green)
  {
  }

  lemma ExampleItemLines(a: StatusMsg, b: StatusMsg)
    requires a == StatusMsg("branchA", (Staged, Added), "a.txt")
    requires b == StatusMsg("branchA", (Staged, Modified), "b.txt")
    ensures ItemLines(StatusIteration(a, true, true, Green))
            == [Blank, BranchHeader("branchA"), Heading(Staged, StagedTitle), Blank,
                EntryLine(Green, Added, Green, "a.txt")]
    ensures ItemLines(StatusIteration(b, false, false, Green)) == [EntryLine(Green, Modified, Green, "b.txt")]
  {
    var first := StatusIteration(a, true, true, Green);
    assert HeaderLines(first) == [Blank, BranchHeader("branchA")];
    assert SectionLines(first) == [] + TitleLines(Staged);
    assert TitleLines(Staged) == [Heading(Staged, StagedTitle), Blank];
    assert EntryLineOf(a, Green) == EntryLine(Green, Added, Green, "a.txt");
  }

  lemma SortTwo(a: StatusMsg, b: StatusMsg)
    requires a == StatusMsg("branchA", (Staged, Added), "a.txt")
    requires b == StatusMsg("branchA", (Staged, Modified), "b.txt")
    ensures SortMsgs([b, a]) == [a, b]
  {
    assert MsgLe(a, b) by {
      assert StatusLe(a.status, b.status);
    }
    assert multiset([a, b]) == multiset([b, a]);
    SortedUnique(SortMsgs([b, a]), [a, b]);
  }
}
