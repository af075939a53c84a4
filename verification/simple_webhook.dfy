/**
 * The stand-alone push receiver (webhook_simple.py): from a push payload it reports the
 * commit, the changed paths and the contents of the changed source files, fetched one by
 * one from the source host. It writes no graph. The host is not called: `download` is
 * the outcome of fetching a path at a revision.
 */
module SimpleWebhook {
  import opened Wrappers
  import opened Text
  import opened Seqs
  import opened Changes

  /** Accepted file extensions, compared against the lower-cased path (webhook_simple.py:57). */
  const SIMPLE_EXTENSIONS: seq<string> :=
    [".py", ".js", ".ts", ".java", ".cpp", ".c", ".go", ".rs", ".php", ".rb"]

  /** is_code_file (webhook_simple.py:55-58): the extension test alone, with no directory
      excluded. */
  function IsSimpleCodeFile(path: string): (r: bool)
    ensures r <==> exists k :: 0 <= k < |SIMPLE_EXTENSIONS| && EndsWith(Lower(path), SIMPLE_EXTENSIONS[k])
  {
    AnySuffix(SIMPLE_EXTENSIONS, Lower(path))
  }

  /** Every extension this receiver accepts is one the synchronisation service accepts, so
      the two agree on any path outside the excluded directories, except that the service
      also takes the extensions only it lists. */
  lemma SimpleCodeFileIsCodeFile(path: string)
    requires IsSimpleCodeFile(path)
    requires forall k :: 0 <= k < |IGNORE_PATTERNS| ==> !Contains(path, IGNORE_PATTERNS[k])
    ensures IsCodeFile(path)
  {
    var k :| 0 <= k < |SIMPLE_EXTENSIONS| && EndsWith(Lower(path), SIMPLE_EXTENSIONS[k]);
    SimpleExtensionsListed();
    var j :| 0 <= j < |CODE_EXTENSIONS| && CODE_EXTENSIONS[j] == SIMPLE_EXTENSIONS[k];
    assert EndsWith(Lower(path), CODE_EXTENSIONS[j]);
    assert AnySuffix(CODE_EXTENSIONS, Lower(path));
    assert !AnyOccurs(IGNORE_PATTERNS, path);
  }

  /** Every extension the receiver accepts is also one the synchronisation service lists. */
  lemma SimpleExtensionsListed()
    ensures forall k :: 0 <= k < |SIMPLE_EXTENSIONS| ==> SIMPLE_EXTENSIONS[k] in CODE_EXTENSIONS
  {
  }

  /** The receiver takes files under the directories the synchronisation service excludes... */
  lemma SimpleTakesExcludedDirectories()
    ensures IsSimpleCodeFile("node_modules/a.js") && !IsCodeFile("node_modules/a.js")
  {
    assert EndsWith(Lower("node_modules/a.js"), SIMPLE_EXTENSIONS[1]);
    assert Contains("node_modules/a.js", IGNORE_PATTERNS[0]) by {
      StartsWithContains("node_modules/a.js", IGNORE_PATTERNS[0]);
    }
  }

  /** ... and refuses the configuration files the service takes. */
  lemma SimpleRefusesConfiguration()
    ensures !IsSimpleCodeFile("deploy.yaml") && IsCodeFile("deploy.yaml")
  {
    var s := "deploy.yaml";
    LowerUnchanged(s);
    forall k | 0 <= k < |SIMPLE_EXTENSIONS| ensures !EndsWith(s, SIMPLE_EXTENSIONS[k]) {
    }
    ConfigurationIsCode();
  }

  /** The service counts YAML files as code. */
  lemma ConfigurationIsCode()
    ensures IsCodeFile("deploy.yaml")
  {
    var s := "deploy.yaml";
    LowerUnchanged(s);
    assert EndsWith(Lower(s), CODE_EXTENSIONS[23]);
    forall k | 0 <= k < |IGNORE_PATTERNS| ensures !Contains(s, IGNORE_PATTERNS[k]) {
      assert IGNORE_PATTERNS[k][|IGNORE_PATTERNS[k]| - 1] == '/';
      MissingCharNotContained(s, IGNORE_PATTERNS[k], '/');
    }
  }

  /** What fetching one path at a revision gives download_file_content
      (webhook_simple.py:60-79): the decoded text and blob hash, an error message when the
      fetch or the decoding raises, or nothing when the host returns no content. */
  datatype Download = Loaded(content: string, sha: string) | Error(message: string) | NoContent

  /** One element of `file_contents`: `{"path", "content", "size", "sha"}` or
      `{"path", "content": None, "error"}`. */
  datatype FileContent =
    | Downloaded(path: string, content: string, size: nat, sha: string)
    | DownloadError(path: string, error: string)

  /** The value download_file_content returns for `path`; `None` is its implicit `None`,
      which the caller's `if content_data` drops. */
  function Entry(path: string, d: Download): (r: Option<FileContent>)
    ensures r.None? <==> d.NoContent?
    ensures r.Some? ==> r.value.path == path
    ensures r.Some? && r.value.Downloaded? ==> r.value.size == |r.value.content|
  {
    match d
    case Loaded(c, sha) => Some(Downloaded(path, c, |c|, sha))
    case Error(m) => Some(DownloadError(path, m))
    case NoContent => None
  }

  /** Whether the download loop keeps an entry for `path`. */
  predicate Kept(path: string, sha: string, download: (string, string) -> Download) {
    IsSimpleCodeFile(path) && !download(path, sha).NoContent?
  }

  /** How many positions of `paths` the download loop keeps; a path listed twice counts twice. */
  function KeptCount(paths: seq<string>, sha: string, download: (string, string) -> Download): (n: nat)
    decreases |paths|
    ensures n <= |paths|
  {
    if |paths| == 0 then 0
    else (if Kept(paths[0], sha, download) then 1 else 0) + KeptCount(paths[1..], sha, download)
  }

  /** The `for file_path in all_changed` loop (webhook_simple.py:109-117): the entries of the
      code files among `paths` whose download yields something, in `paths` order. */
  function Downloads(paths: seq<string>, sha: string, download: (string, string) -> Download): (r: seq<FileContent>)
    decreases |paths|
    ensures |r| == KeptCount(paths, sha, download)
    ensures forall f :: f in r ==> f.path in paths && Kept(f.path, sha, download)
                                   && Entry(f.path, download(f.path, sha)) == Some(f)
    ensures forall p :: p in paths && Kept(p, sha, download) ==> Entry(p, download(p, sha)).value in r
  {
    if |paths| == 0 then []
    else
      var rest := Downloads(paths[1..], sha, download);
      assert forall p :: p in paths[1..] ==> p in paths;
      assert forall p :: p in paths ==> p == paths[0] || p in paths[1..];
      if Kept(paths[0], sha, download) then [Entry(paths[0], download(paths[0], sha)).value] + rest else rest
  }

  /** The entries follow the kept positions of `paths` one for one, in order: the entry of a kept
      position `i` comes after those of the kept positions before it. */
  lemma {:induction false} DownloadsInOrder(paths: seq<string>, sha: string, download: (string, string) -> Download, i: nat)
    requires i < |paths| && Kept(paths[i], sha, download)
    decreases i
    ensures KeptCount(paths[..i], sha, download) < |Downloads(paths, sha, download)|
    ensures Downloads(paths, sha, download)[KeptCount(paths[..i], sha, download)] == Entry(paths[i], download(paths[i], sha)).value
  {
    if i == 0 {
      DownloadsFirst(paths, sha, download);
    } else {
      var tail := paths[1..];
      DownloadsInOrder(tail, sha, download, i - 1);
      DownloadsShift(paths, sha, download, i);
      var head := if Kept(paths[0], sha, download) then 1 else 0;
      var n := KeptCount(tail[..i - 1], sha, download);
      var all := Downloads(paths, sha, download);
      assert tail[i - 1] == paths[i];
      assert all[head + n] == all[head..][n] == Downloads(tail, sha, download)[n];
    }
  }

  /** A kept first path gives the first entry. */
  lemma DownloadsFirst(paths: seq<string>, sha: string, download: (string, string) -> Download)
    requires 0 < |paths| && Kept(paths[0], sha, download)
    ensures KeptCount(paths[..0], sha, download) == 0 < |Downloads(paths, sha, download)|
    ensures Downloads(paths, sha, download)[0] == Entry(paths[0], download(paths[0], sha)).value
  {
    assert paths[..0] == [];
  }

  /** Past the first path, the count and the entries are those of the rest. */
  lemma DownloadsShift(paths: seq<string>, sha: string, download: (string, string) -> Download, i: nat)
    requires 0 < i <= |paths|
    ensures var head := if Kept(paths[0], sha, download) then 1 else 0;
            && KeptCount(paths[..i], sha, download) == head + KeptCount(paths[1..][..i - 1], sha, download)
            && Downloads(paths, sha, download)[head..] == Downloads(paths[1..], sha, download)
  {
    assert paths[..i][1..] == paths[1..][..i - 1];
  }

  /** A path listed twice, say both added and modified, is fetched twice: two equal entries. */
  lemma ListedTwiceFetchedTwice(path: string, sha: string, download: (string, string) -> Download)
    requires Kept(path, sha, download)
    ensures var r := Downloads([path, path], sha, download);
            |r| == 2 && r[0] == r[1] == Entry(path, download(path, sha)).value
  {
    assert [path, path][1..] == [path];
  }

  /** Every changed path is reported with an entry exactly when each one is a code file whose
      download yields something. */
  lemma {:induction false} DownloadsComplete(paths: seq<string>, sha: string, download: (string, string) -> Download)
    decreases |paths|
    ensures |Downloads(paths, sha, download)| == |paths| <==> forall i :: 0 <= i < |paths| ==> Kept(paths[i], sha, download)
  {
    if |paths| > 0 {
      DownloadsComplete(paths[1..], sha, download);
      assert forall i :: 0 < i < |paths| ==> paths[i] == paths[1..][i - 1];
      if !Kept(paths[0], sha, download) {
        assert |Downloads(paths[1..], sha, download)| <= |paths| - 1;
      }
    }
  }

  datatype Summary = Summary(totalFilesChanged: nat, codeFilesDownloaded: nat, filesRemoved: nat)

  /** The endpoint's answer: ignored (no commits), failed (the payload lacks `after`, which
      raises before any answer is built), or the report. */
  datatype Response =
    | Ignored
    | Failed
    | Report(commitId: string, message: string, author: string, timestamp: string,
             changed: ChangedFiles, contents: seq<FileContent>, summary: Summary)

  /** `commit_info.get("author", {}).get("name", "")`. */
  function AuthorName(c: Commit): string {
    match c.author
    case None => ""
    case Some(a) => a.name.GetOr("")
  }

  /** `contents` holds an entry for exactly the changed paths of `commits` (added or modified)
      that are kept at `sha`, each the entry its download gives. */
  ghost predicate ReportsEntries(commits: seq<Commit>, sha: string, contents: seq<FileContent>, download: (string, string) -> Download) {
    && (forall f :: f in contents ==>
          (ListedUnder(commits, Added, f.path) || ListedUnder(commits, Modified, f.path))
          && Kept(f.path, sha, download) && Entry(f.path, download(f.path, sha)) == Some(f))
    && (forall x :: ((ListedUnder(commits, Added, x) || ListedUnder(commits, Modified, x))
                     && Kept(x, sha, download)) ==> Entry(x, download(x, sha)).value in contents)
  }

  /** github_webhook (webhook_simple.py:81-140) once the signature is accepted. */
  function Webhook(p: Payload, download: (string, string) -> Download): (r: Response)
    ensures r.Ignored? <==> CommitsOf(p) == []
    ensures r.Failed? <==> CommitsOf(p) != [] && p.after.None?
    ensures r.Report? ==> r.commitId == p.after.value && r.changed == GetChangedFiles(p)
    ensures r.Report? ==> var last := CommitsOf(p)[|CommitsOf(p)| - 1];
                          && r.message == last.message.GetOr("") && r.timestamp == last.timestamp.GetOr("")
                          && r.author == AuthorName(last)
    ensures r.Report? ==> ReportsEntries(CommitsOf(p), r.commitId, r.contents, download)
    ensures r.Report? ==> r.summary.totalFilesChanged == |r.changed.added| + |r.changed.modified|
                          && r.summary.codeFilesDownloaded == |r.contents| <= r.summary.totalFilesChanged
                          && |r.contents| == KeptCount(r.changed.added + r.changed.modified, r.commitId, download)
                          && r.summary.filesRemoved == |r.changed.removed|
  {
    if CommitsOf(p) == [] then Ignored
    else if p.after.None? then Failed
    else
      var sha := p.after.value;
      var last := CommitsOf(p)[|CommitsOf(p)| - 1];
      var changed := GetChangedFiles(p);
      var all := changed.added + changed.modified;
      assert forall x :: x in all <==> x in changed.Files(Added) || x in changed.Files(Modified);
      var contents := Downloads(all, sha, download);
      Report(sha, last.message.GetOr(""), AuthorName(last), last.timestamp.GetOr(""), changed, contents,
             Summary(|all|, |contents|, |changed.removed|))
  }

  /** With every fetch succeeding, each changed source file is reported: none is missing. */
  lemma ReportsEveryCodeFile(p: Payload, download: (string, string) -> Download, x: string)
    requires forall path, sha :: download(path, sha).Loaded?
    requires Webhook(p, download).Report?
    requires ListedUnder(CommitsOf(p), Added, x) || ListedUnder(CommitsOf(p), Modified, x)
    ensures IsSimpleCodeFile(x) <==> exists f :: f in Webhook(p, download).contents && f.path == x
  {
    var r := Webhook(p, download);
    assert ReportsEntries(CommitsOf(p), r.commitId, r.contents, download);
    if IsSimpleCodeFile(x) {
      assert Entry(x, download(x, r.commitId)).value in r.contents;
    }
  }

  /** The sample push the project's own client script sends (test_simple.py:17-34): one
      commit adding src/test.py and docs/readme.md, modifying src/main.py and removing
      old_file.py. */
  function SamplePayload(timestamp: string): Payload {
    Payload(Some("abc123def456789"),
            Given([Commit(Some(["src/test.py", "docs/readme.md"]), Some(["src/main.py"]), Some(["old_file.py"]),
                         Some("Test commit message"), Some(Author(Some("Test User"))), Some(timestamp))]),
            false, false)
  }

  /** For that push, the two Python files are fetched, in order, and the summary counts three
      changed files, two downloads and one removal. */
  lemma SamplePayloadReport(timestamp: string, download: (string, string) -> Download)
    requires forall path, sha :: download(path, sha).Loaded?
    ensures TwoEntryReport(Webhook(SamplePayload(timestamp), download), "abc123def456789", "Test User", "src/test.py", "src/main.py")
  {
    SampleKept("abc123def456789", download);
    var author := Some(Author(Some("Test User")));
    assert AuthorName(Commit(Some(["src/test.py", "docs/readme.md"]), Some(["src/main.py"]), Some(["old_file.py"]),
                             Some("Test commit message"), author, Some(timestamp))) == "Test User";
    OneCommitReport("abc123def456789", "src/test.py", "docs/readme.md", "src/main.py", "old_file.py",
                    Some("Test commit message"), author, Some(timestamp), download);
  }

  /** `r` reports commit `sha` by `author` with the entries of `a` then `m`, three changed
      files, two downloads and one removal. */
  predicate TwoEntryReport(r: Response, sha: string, author: string, a: string, m: string) {
    && r.Report? && r.commitId == sha && r.author == author
    && |r.contents| == 2 && r.contents[0].path == a && r.contents[1].path == m
    && r.summary == Summary(3, 2, 1)
  }

  /** A push of one commit adding `a` and `b`, modifying `m` and removing `x`, where `a` and
      `m` are kept and `b` is not, reports the entries of `a` then `m`, and counts three
      changed files, two downloads and one removal. */
  lemma OneCommitReport(sha: string, a: string, b: string, m: string, x: string,
                        message: Option<string>, author: Option<Author>, timestamp: Option<string>,
                        download: (string, string) -> Download)
    requires a != b && Kept(a, sha, download) && !Kept(b, sha, download) && Kept(m, sha, download)
    ensures var c := Commit(Some([a, b]), Some([m]), Some([x]), message, author, timestamp);
            TwoEntryReport(Webhook(Payload(Some(sha), Given([c]), false, false), download), sha, AuthorName(c), a, m)
  {
    var c := Commit(Some([a, b]), Some([m]), Some([x]), message, author, timestamp);
    OneCommitWebhook(sha, a, b, m, x, message, author, timestamp, download);
    ReportOfKeepSkipKeep(Webhook(Payload(Some(sha), Given([c]), false, false), download),
                         sha, a, b, m, x, message.GetOr(""), AuthorName(c), timestamp.GetOr(""), download);
  }

  /** The report of a push of that one commit: its changed files as listed, and the downloads
      of the added then modified files. */
  lemma OneCommitWebhook(sha: string, a: string, b: string, m: string, x: string,
                         message: Option<string>, author: Option<Author>, timestamp: Option<string>,
                         download: (string, string) -> Download)
    requires a != b
    ensures var c := Commit(Some([a, b]), Some([m]), Some([x]), message, author, timestamp);
            var contents := Downloads([a, b, m], sha, download);
            Webhook(Payload(Some(sha), Given([c]), false, false), download)
              == Report(sha, message.GetOr(""), AuthorName(c), timestamp.GetOr(""), ChangedFiles([a, b], [m], [x]),
                        contents, Summary(3, |contents|, 1))
  {
    var c := Commit(Some([a, b]), Some([m]), Some([x]), message, author, timestamp);
    var p := Payload(Some(sha), Given([c]), false, false);
    WebhookReport(p, download);
    OneCommitChanged(p, a, b, m, x);
    assert [a, b] + [m] == [a, b, m];
  }

  /** A report over the files `a`, `b`, `m` of which `b` alone is skipped holds the entries of
      `a` then `m`. */
  lemma ReportOfKeepSkipKeep(r: Response, sha: string, a: string, b: string, m: string, x: string,
                             message: string, author: string, timestamp: string,
                             download: (string, string) -> Download)
    requires Kept(a, sha, download) && !Kept(b, sha, download) && Kept(m, sha, download)
    requires r == Report(sha, message, author, timestamp, ChangedFiles([a, b], [m], [x]),
                         Downloads([a, b, m], sha, download), Summary(3, |Downloads([a, b, m], sha, download)|, 1))
    ensures TwoEntryReport(r, sha, author, a, m)
  {
    DownloadsKeepSkipKeep(a, b, m, sha, download);
  }

  /** The report of a push with commits and an `after` revision, field by field. */
  lemma WebhookReport(p: Payload, download: (string, string) -> Download)
    requires CommitsOf(p) != [] && p.after.Some?
    ensures var changed := GetChangedFiles(p);
            var last := CommitsOf(p)[|CommitsOf(p)| - 1];
            var contents := Downloads(changed.added + changed.modified, p.after.value, download);
            Webhook(p, download)
              == Report(p.after.value, last.message.GetOr(""), AuthorName(last), last.timestamp.GetOr(""),
                        changed, contents, Summary(|changed.added| + |changed.modified|, |contents|, |changed.removed|))
  {
  }

  /** The changed files of a push whose one commit adds `a` and `b`, modifies `m` and removes
      `x` are those lists as they stand. */
  lemma OneCommitChanged(p: Payload, a: string, b: string, m: string, x: string)
    requires |CommitsOf(p)| == 1 && a != b
    requires CommitsOf(p)[0].added == Some([a, b]) && CommitsOf(p)[0].modified == Some([m])
    requires CommitsOf(p)[0].removed == Some([x])
    ensures GetChangedFiles(p) == ChangedFiles([a, b], [m], [x])
  {
    var cs := CommitsOf(p);
    assert cs[1..] == [];
    assert Gathered(cs, Added) == [a, b];
    assert Gathered(cs, Modified) == [m];
    assert Gathered(cs, Removed) == [x];
    DedupeTwo(a, b);
    DedupeOne(m);
    DedupeOne(x);
  }

  lemma SampleChanged(timestamp: string) returns (changed: ChangedFiles)
    ensures changed == GetChangedFiles(SamplePayload(timestamp))
    ensures changed == ChangedFiles(["src/test.py", "docs/readme.md"], ["src/main.py"], ["old_file.py"])
  {
    OneCommitChanged(SamplePayload(timestamp), "src/test.py", "docs/readme.md", "src/main.py", "old_file.py");
    changed := GetChangedFiles(SamplePayload(timestamp));
  }

  lemma SampleDownloads(sha: string, download: (string, string) -> Download)
    requires forall path, sha :: download(path, sha).Loaded?
    ensures var r := Downloads(["src/test.py", "docs/readme.md", "src/main.py"], sha, download);
            |r| == 2 && r[0].path == "src/test.py" && r[1].path == "src/main.py"
  {
    SampleKept(sha, download);
    DownloadsKeepSkipKeep("src/test.py", "docs/readme.md", "src/main.py", sha, download);
  }

  /** Three paths of which the middle one is dropped give the entries of the other two. */
  lemma DownloadsKeepSkipKeep(a: string, b: string, c: string, sha: string, download: (string, string) -> Download)
    requires Kept(a, sha, download) && !Kept(b, sha, download) && Kept(c, sha, download)
    ensures var r := Downloads([a, b, c], sha, download);
            |r| == 2 && r[0].path == a && r[1].path == c
  {
    var all := [a, b, c];
    assert all[1..] == [b, c] && all[1..][1..] == [c] && all[1..][1..][1..] == [];
  }

  /** With every download succeeding, the two Python files of the sample push are kept and
      the Markdown file is not. */
  lemma SampleKept(sha: string, download: (string, string) -> Download)
    requires forall path, sha :: download(path, sha).Loaded?
    ensures Kept("src/test.py", sha, download) && !Kept("docs/readme.md", sha, download)
    ensures Kept("src/main.py", sha, download) && "src/test.py" != "docs/readme.md"
  {
    SamplePathsClassified();
    assert download("src/test.py", sha).Loaded? && download("src/main.py", sha).Loaded?;
  }

  lemma SamplePathsClassified()
    ensures IsSimpleCodeFile("src/test.py") && IsSimpleCodeFile("src/main.py") && !IsSimpleCodeFile("docs/readme.md")
  {
    LowerUnchanged("src/test.py");
    assert EndsWith("src/test.py", SIMPLE_EXTENSIONS[0]);
    LowerUnchanged("src/main.py");
    assert EndsWith("src/main.py", SIMPLE_EXTENSIONS[0]);
    LowerUnchanged("docs/readme.md");
    forall k | 0 <= k < |SIMPLE_EXTENSIONS| ensures !EndsWith("docs/readme.md", SIMPLE_EXTENSIONS[k]) {
    }
  }

  lemma DedupeOne(a: string)
    ensures Dedupe([a]) == [a]
  {
    assert [a][..0] == [];
  }

  lemma DedupeTwo(a: string, b: string)
    requires a != b
    ensures Dedupe([a, b]) == [a, b]
  {
    assert [a, b][..1] == [a];
    DedupeOne(a);
  }
}
