/**
 * The change collector: which files a push touched, which of them count as source
 * code, and which documents a full-tree resynchronisation loads, in batches, from a
 * revision of the repository (github_neo_4_j_sync.py:74-198).
 *
 * The source host is not called: a revision is given as its recursive tree listing
 * and as the map of file contents that can be fetched and decoded at that revision.
 */
module Changes {
  import opened Wrappers
  import opened Text
  import opened Seqs

  datatype Author = Author(name: Option<string>)

  /** One element of a push payload's `commits` list; every key may be absent. */
  datatype Commit = Commit(
    added: Option<seq<string>>,
    modified: Option<seq<string>>,
    removed: Option<seq<string>>,
    message: Option<string>,
    author: Option<Author>,
    timestamp: Option<string>)

  /** A member of a JSON object: absent, present as `null`, or present with a value. */
  datatype Field<T> = Absent | Null | Given(value: T)

  /** A push event: `after` is the pushed head revision, `commits` the bundled commits,
      `headCommitNull` whether `head_commit` is present as `null` (as on a push that deletes a
      branch), and `hookOrZen` whether the payload's `hook` or `zen` key is truthy (a ping). */
  datatype Payload = Payload(after: Option<string>, commits: Field<seq<Commit>>, headCommitNull: bool, hookOrZen: bool)

  datatype Kind = Added | Modified | Removed

  /** The three deduplicated path lists of a push. */
  datatype ChangedFiles = ChangedFiles(added: seq<string>, modified: seq<string>, removed: seq<string>) {
    function Files(k: Kind): seq<string> {
      match k
      case Added => added
      case Modified => modified
      case Removed => removed
    }
  }

  /** `commit.get(key, [])`. */
  function Listed(c: Commit, k: Kind): seq<string> {
    match k
    case Added => c.added.GetOr([])
    case Modified => c.modified.GetOr([])
    case Removed => c.removed.GetOr([])
  }

  /** `payload.get("commits", [])` for a list or a missing key. Both handlers refuse a `null`
      list before reading it this way, so its value here is never used by them. */
  function CommitsOf(p: Payload): seq<Commit> {
    if p.commits.Given? then p.commits.value else []
  }

  /** Some commit lists `x` under key `k`. */
  predicate ListedUnder(commits: seq<Commit>, k: Kind, x: string) {
    exists i :: 0 <= i < |commits| && x in Listed(commits[i], k)
  }

  /** The list `files[key]` holds after the `extend` loop, before deduplication. */
  function Gathered(commits: seq<Commit>, k: Kind): (r: seq<string>)
    ensures forall x :: x in r <==> ListedUnder(commits, k, x)
  {
    if |commits| == 0 then []
    else
      var rest := Gathered(commits[1..], k);
      assert forall i :: 0 < i < |commits| ==> commits[i] == commits[1..][i - 1];
      Listed(commits[0], k) + rest
  }

  /** get_changed_files (github_neo_4_j_sync.py:74-90, webhook_simple.py:40-53): per key,
      exactly the distinct paths any commit lists under that key. Python's `list(set(..))`
      leaves the order unspecified; the model keeps first occurrences. */
  function GetChangedFiles(p: Payload): (r: ChangedFiles)
    ensures forall k :: NoDup(r.Files(k))
    ensures forall k, x :: x in r.Files(k) <==> ListedUnder(CommitsOf(p), k, x)
  {
    var cs := CommitsOf(p);
    var r := ChangedFiles(Dedupe(Gathered(cs, Added)), Dedupe(Gathered(cs, Modified)), Dedupe(Gathered(cs, Removed)));
    DedupedFiles(cs, r);
    r
  }

  lemma DedupedFiles(cs: seq<Commit>, r: ChangedFiles)
    requires r == ChangedFiles(Dedupe(Gathered(cs, Added)), Dedupe(Gathered(cs, Modified)), Dedupe(Gathered(cs, Removed)))
    ensures forall k :: NoDup(r.Files(k))
    ensures forall k, x :: x in r.Files(k) <==> ListedUnder(cs, k, x)
  {
    forall k ensures NoDup(r.Files(k)) && forall x :: x in r.Files(k) <==> ListedUnder(cs, k, x) {
      DistinctListed(cs, k);
      match k
      case Added => assert r.Files(k) == r.added;
      case Modified => assert r.Files(k) == r.modified;
      case Removed => assert r.Files(k) == r.removed;
    }
  }

  lemma DistinctListed(cs: seq<Commit>, k: Kind)
    ensures NoDup(Dedupe(Gathered(cs, k)))
    ensures forall x :: x in Dedupe(Gathered(cs, k)) <==> ListedUnder(cs, k, x)
  {
    var g := Gathered(cs, k);
    assert forall x :: x in Dedupe(g) <==> x in Elems(Dedupe(g));
    assert forall x :: x in g <==> x in Elems(g);
  }

  /** Directory fragments whose presence anywhere in a path excludes it (github_neo_4_j_sync.py:146-149). */
  const IGNORE_PATTERNS: seq<string> :=
    ["node_modules/", ".git/", "__pycache__/", ".pytest_cache/", "dist/", "build/",
     ".vscode/", ".idea/", "venv/", "env/"]

  /** Accepted file extensions, compared against the lower-cased path (github_neo_4_j_sync.py:139-143). */
  const CODE_EXTENSIONS: seq<string> :=
    [".py", ".js", ".ts", ".jsx", ".tsx", ".java", ".cpp", ".c", ".h", ".hpp",
     ".cs", ".php", ".rb", ".go", ".rs", ".swift", ".kt", ".scala", ".r",
     ".sql", ".sh", ".bash", ".ps1", ".yaml", ".yml", ".json", ".xml"]

  /** The `for pattern in ignore_patterns: if pattern in file_path` loop. */
  function AnyOccurs(patterns: seq<string>, s: string): (r: bool)
    ensures r <==> exists k :: 0 <= k < |patterns| && Contains(s, patterns[k])
  {
    if |patterns| == 0 then false
    else
      assert forall k :: 0 < k < |patterns| ==> patterns[k] == patterns[1..][k - 1];
      Contains(s, patterns[0]) || AnyOccurs(patterns[1..], s)
  }

  /** `any(s.endswith(ext) for ext in extensions)`. */
  function AnySuffix(extensions: seq<string>, s: string): (r: bool)
    ensures r <==> exists k :: 0 <= k < |extensions| && EndsWith(s, extensions[k])
  {
    if |extensions| == 0 then false
    else
      assert forall k :: 0 < k < |extensions| ==> extensions[k] == extensions[1..][k - 1];
      EndsWith(s, extensions[0]) || AnySuffix(extensions[1..], s)
  }

  /** is_code_file (github_neo_4_j_sync.py:135-157). */
  function IsCodeFile(path: string): (r: bool)
    ensures r <==> (forall k :: 0 <= k < |IGNORE_PATTERNS| ==> !Contains(path, IGNORE_PATTERNS[k]))
                   && (exists k :: 0 <= k < |CODE_EXTENSIONS| && EndsWith(Lower(path), CODE_EXTENSIONS[k]))
  {
    !AnyOccurs(IGNORE_PATTERNS, path) && AnySuffix(CODE_EXTENSIONS, Lower(path))
  }

  /** A path that passes is_code_file is not empty: every extension has at least one character. */
  lemma CodeFileNonEmpty(path: string)
    requires IsCodeFile(path)
    ensures path != ""
  {
    var k :| 0 <= k < |CODE_EXTENSIONS| && EndsWith(Lower(path), CODE_EXTENSIONS[k]);
    assert |CODE_EXTENSIONS[k]| > 0;
  }

  /** A path written with KELVIN SIGN is lower-cased to a listed extension, as in Python:
      `"a.\u212At".lower()` ends with `.kt`. */
  lemma KelvinPathIsCode()
    ensures IsCodeFile("a.\U{212A}t")
  {
    var path := "a.\U{212A}t";
    assert Lower(path) == "a.kt";
    assert EndsWith(Lower(path), CODE_EXTENSIONS[16]);
    forall k | 0 <= k < |IGNORE_PATTERNS| ensures !Contains(path, IGNORE_PATTERNS[k]) {
      assert IGNORE_PATTERNS[k][|IGNORE_PATTERNS[k]| - 1] == '/';
      MissingCharNotContained(path, IGNORE_PATTERNS[k], '/');
    }
  }

  /** An entry of a revision's recursive tree listing; `kind` is "blob", "tree" or "commit". */
  datatype TreeItem = TreeItem(path: string, kind: string)

  datatype Blob = Blob(text: string, sha: string)

  /** A revision as the host serves it: its tree, and the contents that can be fetched and
      decoded at it (a path missing from `files` is a failed fetch, which is skipped). */
  datatype Revision = Revision(tree: seq<TreeItem>, files: map<string, Blob>)

  /** A loaded file: `{"path", "text", "sha"}`. */
  datatype Document = Document(path: string, text: string, sha: string)

  predicate IsCodeBlob(item: TreeItem) {
    item.kind == "blob" && IsCodeFile(item.path)
  }

  /** The `code_files` list of get_repository_structure (github_neo_4_j_sync.py:171-174). */
  function CodeBlobs(tree: seq<TreeItem>): (r: seq<string>)
    ensures |r| <= |tree|
    ensures forall p :: p in r <==> exists i :: 0 <= i < |tree| && IsCodeBlob(tree[i]) && tree[i].path == p
  {
    if |tree| == 0 then []
    else
      var rest := CodeBlobs(tree[1..]);
      assert forall i :: 0 < i < |tree| ==> tree[i] == tree[1..][i - 1];
      if IsCodeBlob(tree[0]) then [tree[0].path] + rest else rest
  }

  const BATCH_SIZE: nat := 10

  /** `[xs[i:i + size] for i in range(0, len(xs), size)]`. */
  function Batches<T>(xs: seq<T>, size: nat): (r: seq<seq<T>>)
    requires size > 0
    decreases |xs|
    ensures Flatten(r) == xs
    ensures forall k :: 0 <= k < |r| ==> 0 < |r[k]| <= size
    ensures forall k :: 0 <= k < |r| - 1 ==> |r[k]| == size
  {
    if |xs| == 0 then []
    else if |xs| <= size then
      assert Flatten([xs]) == xs + Flatten([xs][1..]);
      [xs]
    else
      var rest := Batches(xs[size..], size);
      var r := [xs[..size]] + rest;
      assert r[1..] == rest;
      assert xs == xs[..size] + xs[size..];
      r
  }

  function Min(a: nat, b: nat): nat {
    if a <= b then a else b
  }

  /** The batches get_repository_structure fetches (github_neo_4_j_sync.py:171-184): the code
      blob paths of the tree, in tree order, truncated to `maxFiles`, in slices of ten. */
  function FilesToFetch(tree: seq<TreeItem>, maxFiles: nat): (r: seq<seq<string>>)
    ensures |Flatten(r)| == Min(|CodeBlobs(tree)|, maxFiles)
    ensures Flatten(r) == CodeBlobs(tree)[..|Flatten(r)|]
    ensures forall k :: 0 <= k < |r| ==> 0 < |r[k]| <= BATCH_SIZE
    ensures forall k :: 0 <= k < |r| - 1 ==> |r[k]| == BATCH_SIZE
  {
    var files := CodeBlobs(tree);
    var kept := if |files| > maxFiles then files[..maxFiles] else files;
    Batches(kept, BATCH_SIZE)
  }

  /** Whether get_github_files appends a document for `path`: a code file whose fetch succeeds
      with non-empty content (github_neo_4_j_sync.py:105-111). */
  predicate Loadable(rev: Revision, path: string) {
    IsCodeFile(path) && path in rev.files && rev.files[path].text != ""
  }

  function DocumentAt(rev: Revision, path: string): Document
    requires path in rev.files
  {
    Document(path, rev.files[path].text, rev.files[path].sha)
  }

  /** The per-file loop of get_github_files once the commit is found (github_neo_4_j_sync.py:102-127). */
  function Fetched(rev: Revision, paths: seq<string>): (r: seq<Document>)
    ensures |r| <= |paths|
    ensures forall d :: d in r ==> d.path in paths && Loadable(rev, d.path) && d == DocumentAt(rev, d.path)
    ensures forall p :: p in paths && Loadable(rev, p) ==> DocumentAt(rev, p) in r
  {
    if |paths| == 0 then []
    else
      var rest := Fetched(rev, paths[1..]);
      assert forall p :: p in paths[1..] ==> p in paths;
      assert forall p :: p in paths ==> p == paths[0] || p in paths[1..];
      if Loadable(rev, paths[0]) then [DocumentAt(rev, paths[0])] + rest else rest
  }

  /** Loading two lists one after the other loads their concatenation. */
  lemma {:induction false} FetchedAppend(rev: Revision, xs: seq<string>, ys: seq<string>)
    ensures Fetched(rev, xs + ys) == Fetched(rev, xs) + Fetched(rev, ys)
  {
    if |xs| > 0 {
      assert (xs + ys)[1..] == xs[1..] + ys;
      FetchedAppend(rev, xs[1..], ys);
    } else {
      assert xs + ys == ys;
    }
  }

  /** get_github_files (github_neo_4_j_sync.py:93-132); `None` is a revision the host cannot
      find, whose lookup error is logged and yields no documents. */
  function GithubFiles(rev: Option<Revision>, paths: seq<string>): seq<Document> {
    match rev
    case None => []
    case Some(r) => Fetched(r, paths)
  }

  /** The documents of successive batches, in batch order. */
  function FetchBatches(rev: Option<Revision>, batches: seq<seq<string>>): (r: seq<Document>)
    ensures rev.Some? ==> r == Fetched(rev.value, Flatten(batches))
  {
    if |batches| == 0 then []
    else
      var r := GithubFiles(rev, batches[0]) + FetchBatches(rev, batches[1..]);
      assert rev.Some? ==> r == Fetched(rev.value, Flatten(batches)) by {
        if rev.Some? {
          FetchedAppend(rev.value, batches[0], Flatten(batches[1..]));
        }
      }
      r
  }

  /** get_repository_structure (github_neo_4_j_sync.py:160-198) without the pacing sleep:
      batching is invisible in the result, which is the loadable code blobs among the first
      `maxFiles` code blob paths of the tree, in tree order. */
  function RepositoryDocuments(rev: Option<Revision>, maxFiles: nat): (r: seq<Document>)
    ensures rev.None? ==> r == []
    ensures rev.Some? ==> r == Fetched(rev.value, CodeBlobs(rev.value.tree)[..Min(|CodeBlobs(rev.value.tree)|, maxFiles)])
    ensures |r| <= maxFiles
  {
    match rev
    case None => []
    case Some(v) => FetchBatches(rev, FilesToFetch(v.tree, maxFiles))
  }
}
