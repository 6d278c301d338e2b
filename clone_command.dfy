/** `git poly clone` (src/command/clone.rs, and its copy in
    src/main.rs:322-382): every line of standard input that the path pattern
    matches is a repository URL; for each, a worker prints "Matching <url>",
    extracts a folder from the URL with the anchored expression
        ^([a-zA-Z0-9-]+@[a-zA-Z0-9.-]+:|https?://[a-zA-Z0-9.-]+/)([a-zA-Z/-]+)(\.git)?
    creates `./<folder>` and runs `git clone <url> .` inside it.

    The expression is written here as a hand parser. Its two prefixes
    cannot both match (the first needs an '@' before any ':' and "http"
    followed by ':' has none) and each is fixed by its own delimiter, and the
    folder group is greedy and followed only by an optional suffix, so the
    folder is the longest run of folder characters after the prefix; being
    anchored with `^`, `captures_iter` yields at most that one match. The
    parser is proved equal to this grammar in both directions. */
module CloneCommand {
  import opened Common
  import Git

  /** The character classes of the expression. */
  datatype CharClass =
    | UserChars     // [a-zA-Z0-9-]
    | HostChars     // [a-zA-Z0-9.-]
    | FolderChars   // [a-zA-Z/-]

  predicate IsLetter(c: char) {
    ('a' <= c <= 'z') || ('A' <= c <= 'Z')
  }

  predicate IsDigit(c: char) {
    '0' <= c <= '9'
  }

  predicate InClass(c: char, k: CharClass) {
    match k
    case UserChars => IsLetter(c) || IsDigit(c) || c == '-'
    case HostChars => IsLetter(c) || IsDigit(c) || c == '-' || c == '.'
    case FolderChars => IsLetter(c) || c == '/' || c == '-'
  }

  predicate AllIn(s: string, lo: nat, hi: nat, k: CharClass)
    requires lo <= hi <= |s|
  {
    forall j :: lo <= j < hi ==> InClass(s[j], k)
  }

  /** The length of the longest run of class-`k` characters at position `i`. */
  function Span(s: string, i: nat, k: CharClass): (n: nat)
    requires i <= |s|
    ensures i + n <= |s|
    ensures AllIn(s, i, i + n, k)
    ensures i + n == |s| || !InClass(s[i + n], k)
    decreases |s| - i
  {
    if i == |s| || !InClass(s[i], k) then 0 else 1 + Span(s, i + 1, k)
  }

  /** A run that is all class `k` and ends where the class does is the span. */
  lemma SpanUnique(s: string, i: nat, m: nat, k: CharClass)
    requires i + m <= |s|
    requires AllIn(s, i, i + m, k)
    requires i + m == |s| || !InClass(s[i + m], k)
    ensures Span(s, i, k) == m
  {
  }

  /** A span ends at the first character outside the class. */
  lemma SpanStopsAt(s: string, i: nat, j: nat, k: CharClass)
    requires i <= j < |s|
    requires !InClass(s[j], k)
    ensures i + Span(s, i, k) <= j
  {
  }

  /** `[a-zA-Z0-9-]+@[a-zA-Z0-9.-]+:` at the start of `url`: its length. */
  function ScpPrefix(url: string): Option<nat> {
    var user := Span(url, 0, UserChars);
    if user == 0 || user == |url| || url[user] != '@' then None
    else
      var host := Span(url, user + 1, HostChars);
      if host == 0 || user + 1 + host == |url| || url[user + 1 + host] != ':' then None
      else Some(user + host + 2)
  }

  /** `https?://[a-zA-Z0-9.-]+/` at the start of `url`: its length. */
  function HttpPrefix(url: string): Option<nat> {
    var scheme := if |url| >= 7 && url[..7] == "http://" then 7
                  else if |url| >= 8 && url[..8] == "https://" then 8
                  else 0;
    if scheme == 0 then None
    else
      var host := Span(url, scheme, HostChars);
      if host == 0 || scheme + host == |url| || url[scheme + host] != '/' then None
      else Some(scheme + host + 1)
  }

  /** The first group: either prefix. */
  function PrefixOf(url: string): (r: Option<nat>)
    ensures r.Some? ==> 0 < r.value <= |url| && (url[r.value - 1] == ':' || url[r.value - 1] == '/')
  {
    match ScpPrefix(url)
    case Some(n) => Some(n)
    case None => HttpPrefix(url)
  }

  /** Capture group 2 (`FOLDER`) of the match, if the URL matches. */
  function FolderOf(url: string): (r: Option<string>)
    ensures r.Some? ==> PrefixOf(url).Some? && r.value != []
    ensures r.Some? ==> AllIn(r.value, 0, |r.value|, FolderChars)
    ensures r.Some? ==> var n := PrefixOf(url).value;
      n + |r.value| <= |url| && url[n..n + |r.value|] == r.value
  {
    match PrefixOf(url)
    case None => None
    case Some(n) =>
      assert n <= |url|;
      var f := Span(url, n, FolderChars);
      if f == 0 then None else Some(url[n..n + f])
  }

  // The grammar, stated on the pieces of a URL.

  /** `p` is `user@host:`. */
  predicate IsScp(p: string) {
    exists k :: 0 < k < |p| && IsScpAt(p, k)
  }

  predicate IsScpAt(p: string, k: nat) {
    0 < k && k + 2 < |p| && p[k] == '@' && p[|p| - 1] == ':'
    && AllIn(p, 0, k, UserChars) && AllIn(p, k + 1, |p| - 1, HostChars)
  }

  /** `p` is `http://host/` or `https://host/`. */
  predicate IsHttp(p: string) {
    IsHttpWith(p, "http://") || IsHttpWith(p, "https://")
  }

  /** `p` is `<scheme>host/`. */
  predicate IsHttpWith(p: string, scheme: string) {
    |p| > |scheme| + 1 && p[..|scheme|] == scheme && p[|p| - 1] == '/'
    && AllIn(p, |scheme|, |p| - 1, HostChars)
  }

  predicate IsPrefix(p: string) {
    IsScp(p) || IsHttp(p)
  }

  /** The expression matches `url` with the given groups: the prefix, then a
      non-empty folder of folder characters, then something that does not
      continue the folder. */
  predicate MatchesWith(url: string, prefix: string, folder: string) {
    |prefix| + |folder| <= |url|
    && url[..|prefix|] == prefix && url[|prefix|..|prefix| + |folder|] == folder
    && IsPrefix(prefix)
    && folder != [] && AllIn(folder, 0, |folder|, FolderChars)
    && (|prefix| + |folder| == |url| || !InClass(url[|prefix| + |folder|], FolderChars))
  }

  /** The prefix parser finds `p` at the start of any URL that begins with a
      prefix `p`, whatever follows. */
  lemma PrefixParsed(p: string, more: string)
    requires IsPrefix(p)
    ensures PrefixOf(p + more) == Some(|p|)
  {
    if IsScp(p) {
      var k: nat :| 0 < k < |p| && IsScpAt(p, k);
      ScpParsed(p, k, more);
    } else if IsHttpWith(p, "http://") {
      HttpParsed(p, more);
    } else {
      HttpsParsed(p, more);
    }
  }

  lemma ScpParsed(p: string, k: nat, more: string)
    requires IsScpAt(p, k)
    ensures PrefixOf(p + more) == Some(|p|)
  {
    var url := p + more;
    assert url[..|p|] == p;
    SpanUnique(url, 0, k, UserChars);
    SpanUnique(url, k + 1, |p| - 1 - (k + 1), HostChars);
  }

  /** "http:" has no '@', so the scp prefix is not found. */
  lemma NoScpBeforeColon(url: string, c: nat)
    requires c < |url| && url[c] == ':'
    requires forall j :: 0 <= j < c ==> url[j] != '@'
    ensures ScpPrefix(url).None?
  {
    SpanStopsAt(url, 0, c, UserChars);
  }

  lemma HttpParsed(p: string, more: string)
    requires IsHttpWith(p, "http://")
    ensures PrefixOf(p + more) == Some(|p|)
  {
    var url := p + more;
    assert url[..|p|] == p;
    assert url[..7] == "http://";
    assert url[..5] == "http:";
    NoScpBeforeColon(url, 4);
    SpanUnique(url, 7, |p| - 1 - 7, HostChars);
  }

  lemma HttpsParsed(p: string, more: string)
    requires IsHttpWith(p, "https://")
    ensures PrefixOf(p + more) == Some(|p|)
  {
    var url := p + more;
    assert url[..|p|] == p;
    assert url[..8] == "https://";
    assert url[..6] == "https:";
    NoScpBeforeColon(url, 5);
    assert url[..7] != "http://" by {
      assert url[4] == 's';
    }
    SpanUnique(url, 8, |p| - 1 - 8, HostChars);
  }

  /** Whatever the prefix parser finds is a prefix of the grammar. */
  lemma PrefixSound(url: string)
    requires PrefixOf(url).Some?
    ensures PrefixOf(url).value <= |url| && IsPrefix(url[..PrefixOf(url).value])
  {
    var n := PrefixOf(url).value;
    var p := url[..n];
    if ScpPrefix(url).Some? {
      var user := Span(url, 0, UserChars);
      assert IsScpAt(p, user);
    } else {
      var scheme := if |url| >= 7 && url[..7] == "http://" then 7 else 8;
      assert p[..scheme] == url[..scheme];
    }
  }

  /** The folder the parser extracts is exactly the one the expression
      captures: `FolderOf` is `Some(f)` if and only if the URL matches with
      folder `f` after some prefix. */
  lemma FolderOfSound(url: string)
    requires FolderOf(url).Some?
    ensures MatchesWith(url, url[..PrefixOf(url).value], FolderOf(url).value)
  {
    PrefixSound(url);
  }

  lemma FolderOfComplete(url: string, prefix: string, folder: string)
    requires MatchesWith(url, prefix, folder)
    ensures FolderOf(url) == Some(folder)
  {
    var n := |prefix|;
    assert url == prefix + url[n..];
    PrefixParsed(prefix, url[n..]);
    FolderSpan(url, n, folder);
  }

  /** A folder found at position n is the span of folder characters there. */
  lemma FolderSpan(url: string, n: nat, folder: string)
    requires n + |folder| <= |url| && url[n..n + |folder|] == folder
    requires AllIn(folder, 0, |folder|, FolderChars)
    requires n + |folder| == |url| || !InClass(url[n + |folder|], FolderChars)
    ensures Span(url, n, FolderChars) == |folder|
  {
    forall j | n <= j < n + |folder| ensures InClass(url[j], FolderChars) {
      assert url[j] == folder[j - n];
    }
    SpanUnique(url, n, |folder|, FolderChars);
  }

  /** A prefix, a folder and a rest that does not continue the folder give
      that folder. */
  lemma FolderOfParts(prefix: string, folder: string, rest: string)
    requires IsPrefix(prefix)
    requires folder != [] && AllIn(folder, 0, |folder|, FolderChars)
    requires rest == [] || !InClass(rest[0], FolderChars)
    ensures FolderOf(prefix + folder + rest) == Some(folder)
  {
    var url := prefix + folder + rest;
    assert url[..|prefix|] == prefix;
    assert url[|prefix|..|prefix| + |folder|] == folder;
    if rest != [] {
      assert url[|prefix| + |folder|] == rest[0];
    }
    FolderOfComplete(url, prefix, folder);
  }

  /** The folder has no digit and no '.': a `.git` suffix, a version number
      or a dotted name ends it. */
  lemma FolderHasNoDigitOrDot(url: string)
    requires FolderOf(url).Some?
    ensures forall c :: c in FolderOf(url).value ==> !IsDigit(c) && c != '.'
  {
    var f := FolderOf(url).value;
    forall c | c in f ensures !IsDigit(c) && c != '.' {
      var j :| 0 <= j < |f| && f[j] == c;
      assert InClass(url[PrefixOf(url).value + j], FolderChars);
    }
  }

  /** The repository's own URL gives its owner and name: the `.git`
      suffix is not part of the folder. */
  lemma FolderOfScpExample()
    ensures FolderOf("git@github.com:luke-titley/git-poly.git") == Some("luke-titley/git-poly")
  {
    ExampleScp();
    ExampleFolder();
    ExampleScpUrl();
    FolderOfParts("git@github.com:", "luke-titley/git-poly", ".git");
  }

  lemma ExampleScp()
    ensures IsPrefix("git@github.com:")
  {
    assert IsScpAt("git@github.com:", 3);
  }

  lemma ExampleScpUrl()
    ensures "git@github.com:luke-titley/git-poly.git" == "git@github.com:" + "luke-titley/git-poly" + ".git"
  {
  }

  /** The same repository over https. */
  lemma FolderOfHttpsExample()
    ensures FolderOf("https://github.com/luke-titley/git-poly") == Some("luke-titley/git-poly")
  {
    var https := "https://github.com/";
    assert IsHttpWith(https, "https://");
    ExampleFolder();
    assert "https://github.com/luke-titley/git-poly" == https + "luke-titley/git-poly" + "";
    FolderOfParts(https, "luke-titley/git-poly", "");
  }

  lemma ExampleFolder()
    ensures AllIn("luke-titley/git-poly", 0, 20, FolderChars)
  {
  }

  /** A URL that starts with neither prefix clones nothing. */
  lemma LocalPathHasNoFolder()
    ensures FolderOf("./some/repo") == None
  {
    var url := "./some/repo";
    assert Span(url, 0, UserChars) == 0;
    assert url[..7] != "http://" && url[..8] != "https://" by {
      assert url[0] == '.';
    }
  }

  /** `PathBuf::from(".")` with the folder pushed: "./" and the folder, or
      the folder alone when it starts at the root, since pushing an absolute
      path replaces the whole path. */
  function CloneDir(folder: string): (dir: string)
    requires folder != []
    ensures folder[0] == '/' ==> dir == folder
    ensures folder[0] != '/' ==> dir == "./" + folder
  {
    if folder[0] == '/' then folder else "./" + folder
  }

  /** What a clone worker does, in order. */
  datatype Action =
    | Announce(url: string)                  // println!("Matching {0}", url)
    | CreateDir(dir: string)                 // fs::create_dir_all
    | GitClone(url: string, dir: string)     // `git clone <url> .` run in `dir`

  /** doit (src/command/clone.rs:12-43): "Matching" is printed whatever the
      URL; with a match, the directory is created and then the clone runs in
      it; without one nothing else happens. */
  function CloneWorker(url: string): (r: seq<Action>)
    ensures |r| >= 1 && r[0] == Announce(url)
    ensures FolderOf(url).None? <==> r == [Announce(url)]
    ensures FolderOf(url).Some? ==>
              var dir := CloneDir(FolderOf(url).value);
              r == [Announce(url), CreateDir(dir), GitClone(url, dir)]
  {
    match FolderOf(url)
    case None => [Announce(url)]
    case Some(folder) =>
      var dir := CloneDir(folder);
      [Announce(url), CreateDir(dir), GitClone(url, dir)]
  }

  /** A URL whose folder is relative is cloned below ".". */
  lemma CloneGoesBelowCurrentDir(url: string)
    requires FolderOf(url).Some? && FolderOf(url).value[0] != '/'
    ensures CloneWorker(url)[2] == GitClone(url, "./" + FolderOf(url).value)
  {
  }

  /** The URLs of the stdin lines before the first one that is not UTF-8. */
  function Texts(lines: seq<Git.OutputLine>): seq<string>
    decreases |lines|
  {
    if lines == [] || lines[0].NotUtf8? then [] else [lines[0].text] + Texts(lines[1..])
  }

  /** The URLs a worker is started for: the lines the pattern matches, in order. */
  function Matching(urls: seq<string>, pattern: string -> bool): seq<string>
    decreases |urls|
  {
    if urls == [] then []
    else (if pattern(urls[0]) then [urls[0]] else []) + Matching(urls[1..], pattern)
  }

  /** A URL gets a worker exactly when it was read and the pattern matches it. */
  lemma {:induction false} MatchingMembers(urls: seq<string>, pattern: string -> bool)
    ensures forall u :: u in Matching(urls, pattern) <==> u in urls && pattern(u)
    decreases |urls|
  {
    if urls != [] {
      MatchingMembers(urls[1..], pattern);
      assert urls == [urls[0]] + urls[1..];
    }
  }

  /** run (src/command/clone.rs:46-72, src/main.rs:356-382): the loop over
      the lines of stdin, which stops with `Error::IO` at a line that is not
      UTF-8. The workers start in the order of the lines. */
  method Run(lines: seq<Git.OutputLine>, pattern: string -> bool)
    returns (started: seq<string>, error: Option<Error>)
    ensures started == Matching(Texts(lines), pattern)
    ensures error.None? <==> forall i :: 0 <= i < |lines| ==> lines[i].Utf8?
    ensures error.Some? ==> error.value == Io
  {
    started := [];
    var i := 0;
    while i < |lines|
      invariant 0 <= i <= |lines|
      invariant forall j :: 0 <= j < i ==> lines[j].Utf8?
      invariant started + Matching(Texts(lines[i..]), pattern) == Matching(Texts(lines), pattern)
    {
      assert lines[i..][1..] == lines[i + 1..];
      match lines[i] {
        case NotUtf8 =>
          assert Texts(lines[i..]) == [];
          return started, Some(Io);
        case Utf8(line) =>
          ghost var rest := Texts(lines[i + 1..]);
          assert Texts(lines[i..]) == [line] + rest;
          assert Matching([line] + rest, pattern)
              == (if pattern(line) then [line] else []) + Matching(rest, pattern) by {
            assert ([line] + rest)[1..] == rest;
          }
          if pattern(line) {
            assert (started + [line]) + Matching(rest, pattern) == started + ([line] + Matching(rest, pattern));
            started := started + [line];
          } else {
            assert [] + Matching(rest, pattern) == Matching(rest, pattern);
          }
      }
      i := i + 1;
    }
    return started, None;
  }
}
