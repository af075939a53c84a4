/**
 * The two drivers of the engine in the synchronising service: the push webhook and the
 * periodic fallback pass over the branch history (github_neo_4_j_sync.py:668-870). The
 * repository host, the clock and the feature flags are parameters; the signature check and
 * the HTTP layer are not modelled.
 */
module Sync {
  import opened Wrappers
  import opened Seqs
  import opened Entities
  import opened Changes
  import opened Extractor
  import opened Graphs
  import opened Engine

  /** The service's feature flags (ENABLE_DIFF_ANALYSIS, ENABLE_ROLLBACK), and the store's
      reading of `SET n.status = 'deleted', n.old_status = n.status` (see MarkDeleted). */
  datatype Settings = Settings(diffAnalysis: bool, rollback: bool, oldStatusReadsNew: bool)

  /** get_repository_structure's default file limit, used by a push without diff analysis. */
  const FULL_SYNC_MAX_FILES: nat := 500

  /** The response of the push webhook. `Failed` is a request that raises before anything is
      written: a payload without `after` or with a `null` `head_commit` (both read before the
      handler's `try`), or, with diff analysis, one whose `commits` is `null`, which
      get_changed_files cannot iterate (answered with status 500). */
  datatype PushOutcome =
    | Ignored
    | NotAPush
    | Failed
    | NoChanges
    | Synced(commit: string, entities: nat, files: nat, added: nat, modified: nat, removed: nat)

  // ---------------------------------------------------------------------------
  // Extraction facts the drivers rely on
  // ---------------------------------------------------------------------------

  /** Every document that passes is_code_file contributes its Module entity. */
  lemma {:induction false} ModuleExtracted(docs: seq<Document>, d: Document, sha: string, ts: string)
    requires d in docs && IsCodeFile(d.path)
    ensures ModuleEntity(d, sha, ts) in ExtractEntities(docs, sha, ts)
  {
    if docs[0] != d {
      assert d in docs[1..];
      ModuleExtracted(docs[1..], d, sha, ts);
    }
  }

  /** A Module entity's path is among the Module paths of its list. */
  lemma {:induction false} ModuleInModulePaths(ents: seq<Entity>, e: Entity)
    requires e in ents && e.kind == Module
    ensures PathOf(e.attrs) in ModulePaths(ents)
  {
    if ents[0] != e {
      assert e in ents[1..];
      ModuleInModulePaths(ents[1..], e);
    }
  }

  /** The code paths of a document list are paths of its documents. */
  lemma {:induction false} CodePathsOfDocs(docs: seq<Document>, x: string)
    requires x in CodePaths(docs)
    ensures exists d :: d in docs && d.path == x
  {
    if !(IsCodeFile(docs[0].path) && x == docs[0].path) {
      CodePathsOfDocs(docs[1..], x);
      var d :| d in docs[1..] && d.path == x;
      assert d in docs;
    }
  }

  /** The Module entities extracted from documents sit at the documents' paths. */
  lemma ExtractedModuleFrom(docs: seq<Document>, sha: string, ts: string, e: Entity)
    requires e in ExtractEntities(docs, sha, ts) && e.kind == Module
    ensures exists d :: d in docs && d.path == PathOf(e.attrs)
  {
    ModuleInModulePaths(ExtractEntities(docs, sha, ts), e);
    OneModulePerCodeDocument(docs, sha, ts);
    CodePathsOfDocs(docs, PathOf(e.attrs));
  }

  /** Every Module entity extracted from documents sits at the path of one of them. */
  lemma ModulesFromDocuments(docs: seq<Document>, sha: string, ts: string)
    ensures forall e :: e in ExtractEntities(docs, sha, ts) && e.kind == Module ==>
              exists d :: d in docs && d.path == PathOf(e.attrs)
  {
    forall e | e in ExtractEntities(docs, sha, ts) && e.kind == Module
      ensures exists d :: d in docs && d.path == PathOf(e.attrs)
    {
      ExtractedModuleFrom(docs, sha, ts, e);
    }
  }

  /** The Module node of `path` exists and every Module node there is active at `sha`. */
  predicate ModuleAt(g: Graph, path: string, sha: string) {
    && (exists i :: 0 <= i < |g.nodes| && Matches(g.nodes[i], Module, Path, Str(path)))
    && (forall i :: 0 <= i < |g.nodes| && Matches(g.nodes[i], Module, Path, Str(path)) ==>
          Has(g.nodes[i], CommitSha, Str(sha)) && Active(g.nodes[i]))
  }

  /** After an update with the entities of `docs`, every document passing is_code_file has its
      Module node, active at the commit. */
  lemma UpdateWritesModules(g: Graph, docs: seq<Document>, d: Document, sha: string, now: string, rollback: bool)
    requires d in docs && IsCodeFile(d.path)
    ensures ModuleAt(UpdateGraph(g, ExtractEntities(docs, sha, now), sha, now, rollback), d.path, sha)
  {
    var ents := ExtractEntities(docs, sha, now);
    var m := ModuleEntity(d, sha, now);
    ExtractedShape(docs, sha, now);
    ModuleExtracted(docs, d, sha, now);
    ModuleEntitySpec(d, sha, now);
    UpdateGraphSpec(g, ents, sha, now, rollback);
    var r := UpdateGraph(g, ents, sha, now, rollback);
    assert Present(r, m) && AllStamped(r, m, sha);
    assert forall n :: Keyed(n, m) <==> Matches(n, Module, Path, Str(d.path));
  }

  // ---------------------------------------------------------------------------
  // github_webhook
  // ---------------------------------------------------------------------------

  /** No commit of the push lists any file under any key. */
  ghost predicate NothingListed(p: Payload) {
    forall k, x :: !ListedUnder(CommitsOf(p), k, x)
  }

  /** The tail of the handler once the documents are known: removal, extraction, update and
      the counts of the response. */
  function Apply(g: Graph, sha: string, docs: seq<Document>, files: ChangedFiles, now: string, s: Settings): (PushOutcome, Graph) {
    var cleared := RemoveFiles(g, files.removed, sha, now, s.oldStatusReadsNew);
    var ents := ExtractEntities(docs, sha, now);
    (Synced(sha, |ents|, |docs|, |files.added|, |files.modified|, |files.removed|),
     UpdateGraph(cleared, ents, sha, now, s.rollback))
  }

  /** The documents a push loads: the code files among the added and modified paths with diff
      analysis, else the first 500 code files of the pushed revision. */
  function PushDocuments(p: Payload, rev: Option<Revision>, s: Settings): seq<Document> {
    if s.diffAnalysis then
      var files := GetChangedFiles(p);
      if files.added + files.modified != [] then GithubFiles(rev, files.added + files.modified) else []
    else RepositoryDocuments(rev, FULL_SYNC_MAX_FILES)
  }

  /** github_webhook (github_neo_4_j_sync.py:668-736) on a verified payload; `rev` is the pushed
      revision as the host serves it. */
  function Push(g: Graph, p: Payload, rev: Option<Revision>, now: string, s: Settings): (r: (PushOutcome, Graph))
    ensures r.0 == Ignored <==> p.hookOrZen
    ensures r.0 == NotAPush <==> !p.hookOrZen && p.commits.Absent?
    ensures r.0 == Failed <==> !p.hookOrZen && !p.commits.Absent?
                               && (p.after.None? || p.headCommitNull || (s.diffAnalysis && p.commits.Null?))
    ensures r.0 == NoChanges <==> !p.hookOrZen && p.commits.Given? && p.after.Some? && !p.headCommitNull
                                  && s.diffAnalysis && NothingListed(p)
    ensures !r.0.Synced? ==> r.1 == g
    ensures r.0.Synced? ==> r.0.commit == p.after.value && r.0.files == |PushDocuments(p, rev, s)|
    ensures r.0.Synced? ==> && r.0.entities == |ExtractEntities(PushDocuments(p, rev, s), p.after.value, now)|
                            && r.0.added == |PushFiles(p, s).added| && r.0.modified == |PushFiles(p, s).modified|
                            && r.0.removed == |PushFiles(p, s).removed|
  {
    if p.hookOrZen then (Ignored, g)
    else if p.commits.Absent? then (NotAPush, g)
    else if p.after.None? || p.headCommitNull then (Failed, g)
    else
      var sha := p.after.value;
      if s.diffAnalysis && p.commits.Null? then (Failed, g)
      else if s.diffAnalysis then
        var files := GetChangedFiles(p);
        var changed := files.added + files.modified;
        assert changed == [] && files.removed == [] <==> NothingListed(p) by {
          NothingListedIff(p);
        }
        if changed == [] && files.removed == [] then (NoChanges, g)
        else Apply(g, sha, PushDocuments(p, rev, s), files, now, s)
      else Apply(g, sha, PushDocuments(p, rev, s), ChangedFiles([], [], []), now, s)
  }

  /** The push GitHub sends when a branch is deleted carries a `null` `head_commit` and fails
      without touching the graph; a `null` commit list fails with diff analysis and, without
      it, still reaches the full-tree synchronisation. */
  lemma PushNullMembers(g: Graph, rev: Option<Revision>, now: string, s: Settings, sha: string)
    ensures Push(g, Payload(Some(sha), Given([]), true, false), rev, now, s) == (Failed, g)
    ensures Push(g, Payload(Some(sha), Null, false, false), rev, now, s).0.Synced? <==> !s.diffAnalysis
    ensures s.diffAnalysis ==> Push(g, Payload(Some(sha), Null, false, false), rev, now, s) == (Failed, g)
  {
  }

  /** The changes a push acts on: the listed ones with diff analysis, none without. */
  function PushFiles(p: Payload, s: Settings): ChangedFiles {
    if s.diffAnalysis then GetChangedFiles(p) else ChangedFiles([], [], [])
  }

  /** Without diff analysis a push loads the first 500 code files of the revision, yet reports
      no added, modified or removed file. */
  lemma PushCountsWithoutDiff(g: Graph, p: Payload, rev: Option<Revision>, now: string, s: Settings)
    requires !s.diffAnalysis && Push(g, p, rev, now, s).0.Synced?
    ensures var o := Push(g, p, rev, now, s).0;
            && o.added == 0 && o.modified == 0 && o.removed == 0
            && o.files == |RepositoryDocuments(rev, FULL_SYNC_MAX_FILES)|
  {
  }

  /** With diff analysis a synced push reports how many distinct paths the commits list under
      each key. */
  lemma PushCountsWithDiff(g: Graph, p: Payload, rev: Option<Revision>, now: string, s: Settings)
    requires s.diffAnalysis && Push(g, p, rev, now, s).0.Synced?
    ensures var o := Push(g, p, rev, now, s).0;
            && o.added == |Elems(GetChangedFiles(p).added)| && o.modified == |Elems(GetChangedFiles(p).modified)|
            && o.removed == |Elems(GetChangedFiles(p).removed)|
  {
    var files := GetChangedFiles(p);
    assert NoDup(files.Files(Added)) && NoDup(files.Files(Modified)) && NoDup(files.Files(Removed));
    NoDupCard(files.added);
    NoDupCard(files.modified);
    NoDupCard(files.removed);
  }

  /** A synced push removes the files it lists as removed, then writes what it extracted. */
  lemma PushSynced(g: Graph, p: Payload, rev: Option<Revision>, now: string, s: Settings)
    requires Push(g, p, rev, now, s).0.Synced?
    ensures p.after.Some?
    ensures Push(g, p, rev, now, s).1
              == UpdateGraph(RemoveFiles(g, PushFiles(p, s).removed, p.after.value, now, s.oldStatusReadsNew),
                             ExtractEntities(PushDocuments(p, rev, s), p.after.value, now), p.after.value, now, s.rollback)
  {
  }

  /** The three change lists are all empty exactly when no commit lists a file. */
  lemma NothingListedIff(p: Payload)
    ensures var files := GetChangedFiles(p);
            (files.added + files.modified == [] && files.removed == []) <==> NothingListed(p)
  {
    var files := GetChangedFiles(p);
    if !NothingListed(p) {
      var k, x :| ListedUnder(CommitsOf(p), k, x);
      assert x in files.Files(k);
      match k
      case Added => assert (files.added + files.modified)[0] == files.added[0];
      case Modified => assert x in files.added + files.modified;
      case Removed =>
    }
    if files.added + files.modified != [] {
      var x := (files.added + files.modified)[0];
      assert x in files.Files(Added) || x in files.Files(Modified);
    }
    if files.removed != [] {
      assert files.removed[0] in files.Files(Removed);
    }
  }

  /** With diff analysis, every added or modified code file that the pushed revision serves
      ends up with its Module node active at the pushed commit. */
  lemma PushWritesChangedModules(g: Graph, p: Payload, rev: Revision, now: string, s: Settings, path: string)
    requires Push(g, p, Some(rev), now, s).0.Synced? && s.diffAnalysis
    requires path in GetChangedFiles(p).added + GetChangedFiles(p).modified && Loadable(rev, path)
    ensures ModuleAt(Push(g, p, Some(rev), now, s).1, path, p.after.value)
  {
    var files := GetChangedFiles(p);
    var sha := p.after.value;
    var docs := PushDocuments(p, Some(rev), s);
    assert docs == Fetched(rev, files.added + files.modified);
    var d := DocumentAt(rev, path);
    assert d in docs;
    var cleared := RemoveFiles(g, files.removed, sha, now, s.oldStatusReadsNew);
    PushSynced(g, p, Some(rev), now, s);
    UpdateWritesModules(cleared, docs, d, sha, now, s.rollback);
  }

  /** With diff analysis, a file the push removes and does not add back keeps its Module nodes
      marked deleted by the pushed commit: the update that follows never touches them. */
  lemma PushLeavesRemovedDeleted(g: Graph, p: Payload, rev: Option<Revision>, now: string, s: Settings, path: string, i: nat)
    requires Push(g, p, rev, now, s).0.Synced? && s.diffAnalysis
    requires path in GetChangedFiles(p).removed && path !in GetChangedFiles(p).added + GetChangedFiles(p).modified
    requires i < |g.nodes| && Matches(g.nodes[i], Module, Path, Str(path))
    ensures i < |Push(g, p, rev, now, s).1.nodes|
    ensures Has(Push(g, p, rev, now, s).1.nodes[i], Status, Str(DELETED))
    ensures Has(Push(g, p, rev, now, s).1.nodes[i], DeletedInCommit, Str(p.after.value))
  {
    var files := GetChangedFiles(p);
    var sha := p.after.value;
    var docs := PushDocuments(p, rev, s);
    var ents := ExtractEntities(docs, sha, now);
    PushSynced(g, p, rev, now, s);
    var k :| 0 <= k < |files.removed| && files.removed[k] == path;
    assert Removes(g.nodes[i], files.removed[k]);
    ExtractedShape(docs, sha, now);
    ModulesFromDocuments(docs, sha, now);
    forall e | e in ents ensures !Keyed(g.nodes[i], e) {
      if e.kind == Module {
        assert PathOf(e.attrs) in files.added + files.modified by {
          var d :| d in docs && d.path == PathOf(e.attrs);
          assert d in Fetched(rev.value, files.added + files.modified);
        }
      }
    }
    RemovedStaysDeleted(g, files.removed, ents, sha, now, s.oldStatusReadsNew, s.rollback, i);
  }

  /** A push with rollback enabled keeps every recorded commit marked. */
  lemma PushKeepsAllMarked(g: Graph, p: Payload, rev: Option<Revision>, now: string, s: Settings)
    requires s.rollback && AllMarked(g)
    ensures AllMarked(Push(g, p, rev, now, s).1)
  {
    var r := Push(g, p, rev, now, s);
    if r.0.Synced? {
      var sha := p.after.value;
      var docs := PushDocuments(p, rev, s);
      var files := PushFiles(p, s);
      var cleared := RemoveFiles(g, files.removed, sha, now, s.oldStatusReadsNew);
      PushSynced(g, p, rev, now, s);
      RemoveFilesKeepsCommits(g, files.removed, sha, now, s.oldStatusReadsNew);
      assert AllMarked(cleared);
      ExtractedShape(docs, sha, now);
      UpdateKeepsAllMarked(cleared, ExtractEntities(docs, sha, now), sha, now);
    }
  }

  /** A push keeps Modules nameless, so none of the relations it writes ends at a Module. */
  lemma PushAddsNoModuleEdge(g: Graph, p: Payload, rev: Option<Revision>, now: string, s: Settings)
    requires ModulesNameless(g)
    ensures var r := Push(g, p, rev, now, s).1;
            ModulesNameless(r) && KindsKept(g, r) && NoModuleEdgeAdded(g, r)
  {
    if Push(g, p, rev, now, s).0.Synced? {
      PushSynced(g, p, rev, now, s);
      ApplyAddsNoModuleEdge(g, PushFiles(p, s).removed, PushDocuments(p, rev, s), p.after.value, now, s);
    }
  }

  /** Removal and then the update keep Modules nameless and add no edge to a Module. */
  lemma ApplyAddsNoModuleEdge(g: Graph, removed: seq<string>, docs: seq<Document>, sha: string, now: string, s: Settings)
    requires ModulesNameless(g)
    ensures var r := UpdateGraph(RemoveFiles(g, removed, sha, now, s.oldStatusReadsNew), ExtractEntities(docs, sha, now), sha, now, s.rollback);
            ModulesNameless(r) && KindsKept(g, r) && NoModuleEdgeAdded(g, r)
  {
    var cleared := RemoveFiles(g, removed, sha, now, s.oldStatusReadsNew);
    RemoveFilesSpec(g, removed, sha, now, s.oldStatusReadsNew);
    assert ModulesNameless(cleared) && KindsKept(g, cleared) && cleared.edges == g.edges;
    ExtractedShape(docs, sha, now);
    UpdateAddsNoModuleEdge(cleared, ExtractEntities(docs, sha, now), sha, now, s.rollback);
    NoModuleEdgeTrans(g, cleared, UpdateGraph(cleared, ExtractEntities(docs, sha, now), sha, now, s.rollback));
  }

  /** More precisely, the only edge a push can add is a Java method's `defines_method` into a
      Class node: every other relation the extractor writes targets a nameless Module. */
  lemma PushAddsOnlyClassEdges(g: Graph, p: Payload, rev: Option<Revision>, now: string, s: Settings)
    requires ModulesNameless(g)
    ensures var r := Push(g, p, rev, now, s).1;
            forall x :: x in r.edges && x !in g.edges ==> x.dst < |r.nodes| && r.nodes[x.dst].kind == Class
  {
    if Push(g, p, rev, now, s).0.Synced? {
      PushSynced(g, p, rev, now, s);
      ApplyAddsOnlyClassEdges(g, PushFiles(p, s).removed, PushDocuments(p, rev, s), p.after.value, now, s);
    }
  }

  /** Removal and then the update add edges into Class nodes only. */
  lemma ApplyAddsOnlyClassEdges(g: Graph, removed: seq<string>, docs: seq<Document>, sha: string, now: string, s: Settings)
    requires ModulesNameless(g)
    ensures var r := UpdateGraph(RemoveFiles(g, removed, sha, now, s.oldStatusReadsNew), ExtractEntities(docs, sha, now), sha, now, s.rollback);
            EdgesAddedInto(g, r, {Class})
  {
    var cleared := RemoveFiles(g, removed, sha, now, s.oldStatusReadsNew);
    var ents := ExtractEntities(docs, sha, now);
    RemoveFilesSpec(g, removed, sha, now, s.oldStatusReadsNew);
    assert ModulesNameless(cleared) && KindsKept(g, cleared) && cleared.edges == g.edges;
    ExtractedShape(docs, sha, now);
    ExtractedTargets(docs, sha, now);
    UpdateAddsInto(cleared, ents, sha, now, s.rollback, {Class});
  }

  // ---------------------------------------------------------------------------
  // fallback_sync
  // ---------------------------------------------------------------------------

  /** A node of the branch history the GraphQL query returns. */
  datatype HistoryEntry = HistoryEntry(oid: string, message: string, author: Option<string>, committedDate: string)

  /** `history(first:10)`. */
  const HISTORY_LIMIT: nat := 10

  /** fallback_sync's file limit per commit. */
  const FALLBACK_MAX_FILES: nat := 100

  /** The revision of a commit as the host serves it, if it does. */
  function RevisionOf(revs: map<string, Revision>, oid: string): Option<Revision> {
    if oid in revs then Some(revs[oid]) else None
  }

  /** The entities fallback_sync writes for a commit. */
  function CommitEntities(revs: map<string, Revision>, oid: string, now: string): seq<Entity> {
    ExtractEntities(RepositoryDocuments(RevisionOf(revs, oid), FALLBACK_MAX_FILES), oid, now)
  }

  /** The loop body (github_neo_4_j_sync.py:834-865): a commit some node already records is
      skipped; otherwise its first 100 code files are extracted and written. */
  function Visit(g: Graph, revs: map<string, Revision>, c: HistoryEntry, now: string, rollback: bool): Graph {
    if Processed(g, c.oid) then g
    else UpdateGraph(g, CommitEntities(revs, c.oid, now), c.oid, now, rollback)
  }

  /** The loop over a list of history entries, in list order, when none of them raises. */
  function Walk(g: Graph, revs: map<string, Revision>, cs: seq<HistoryEntry>, now: string, rollback: bool): Graph
    decreases |cs|
  {
    if |cs| == 0 then g
    else Visit(Walk(g, revs, cs[..|cs| - 1], now, rollback), revs, cs[|cs| - 1], now, rollback)
  }

  /** The entries the query returns: at most ten, newest first. `None` is a failed request,
      which is logged and ends the pass. */
  function Returned(history: Option<seq<HistoryEntry>>): seq<HistoryEntry> {
    match history
    case None => []
    case Some(h) => if |h| <= HISTORY_LIMIT then h else h[..HISTORY_LIMIT]
  }

  /** The state of a pass: the graph, and whether an exception has ended the loop. */
  datatype Pass = Pass(graph: Graph, aborted: bool)

  /** One iteration with its exception path. `failing` holds the commits whose processing
      raises (loading, extraction or the write); the write transaction of such a commit is
      rolled back, and the `try` around the whole loop (github_neo_4_j_sync.py:801, 869-870)
      ends the pass. */
  function Step(p: Pass, revs: map<string, Revision>, c: HistoryEntry, now: string, rollback: bool, failing: set<string>): Pass {
    if p.aborted || Processed(p.graph, c.oid) then p
    else if c.oid in failing then Pass(p.graph, true)
    else Pass(Visit(p.graph, revs, c, now, rollback), false)
  }

  /** The loop of fallback_sync over a list of entries, in list order, exceptions included. A
      pass ends early only at a commit that raises. */
  function Run(g: Graph, revs: map<string, Revision>, cs: seq<HistoryEntry>, now: string, rollback: bool, failing: set<string>): (r: Pass)
    decreases |cs|
    ensures r.aborted ==> exists k :: 0 <= k < |cs| && cs[k].oid in failing
    ensures (forall k :: 0 <= k < |cs| ==> Processed(g, cs[k].oid)) ==> r == Pass(g, false)
  {
    if |cs| == 0 then Pass(g, false)
    else
      var init := cs[..|cs| - 1];
      var mid := Run(g, revs, init, now, rollback, failing);
      assert forall k :: 0 <= k < |init| ==> init[k] == cs[k];
      Step(mid, revs, cs[|cs| - 1], now, rollback, failing)
  }

  /** No entry of `cs` raises. */
  predicate NoneFail(cs: seq<HistoryEntry>, failing: set<string>) {
    forall k :: 0 <= k < |cs| ==> cs[k].oid !in failing
  }

  /** Without exceptions the loop is the plain walk and runs to the end. */
  lemma {:induction false} RunWithoutFailures(g: Graph, revs: map<string, Revision>, cs: seq<HistoryEntry>, now: string, rollback: bool, failing: set<string>)
    requires NoneFail(cs, failing)
    decreases |cs|
    ensures Run(g, revs, cs, now, rollback, failing) == Pass(Walk(g, revs, cs, now, rollback), false)
  {
    if |cs| > 0 {
      var init := cs[..|cs| - 1];
      assert NoneFail(init, failing) by {
        forall k | 0 <= k < |init| ensures init[k].oid !in failing {
          assert init[k] == cs[k];
        }
      }
      RunWithoutFailures(g, revs, init, now, rollback, failing);
      var mid := Walk(g, revs, init, now, rollback);
      if !Processed(mid, cs[|cs| - 1].oid) {
        assert cs[|cs| - 1].oid !in failing;
      }
    }
  }

  /** Once an exception has ended the pass, the entries after it change nothing. */
  lemma {:induction false} RunAbortedStays(g: Graph, revs: map<string, Revision>, cs: seq<HistoryEntry>, n: nat, now: string, rollback: bool, failing: set<string>)
    requires n <= |cs| && Run(g, revs, cs[..n], now, rollback, failing).aborted
    decreases |cs|
    ensures Run(g, revs, cs, now, rollback, failing) == Run(g, revs, cs[..n], now, rollback, failing)
  {
    if n < |cs| {
      var init := cs[..|cs| - 1];
      assert init[..n] == cs[..n];
      RunAbortedStays(g, revs, init, n, now, rollback, failing);
    } else {
      assert cs[..n] == cs;
    }
  }

  /** fallback_sync as written (github_neo_4_j_sync.py:795-870): the entries in the order the
      query returns them, newest first. */
  function FallbackSyncAsWritten(g: Graph, revs: map<string, Revision>, history: Option<seq<HistoryEntry>>, now: string, rollback: bool, failing: set<string>): (r: Graph)
    ensures (forall k :: 0 <= k < |Returned(history)| ==> Processed(g, Returned(history)[k].oid)) ==> r == g
  {
    Run(g, revs, Returned(history), now, rollback, failing).graph
  }

  /** No entry of `cs` is recorded in `g`. */
  predicate Fresh(g: Graph, cs: seq<HistoryEntry>) {
    forall k :: 0 <= k < |cs| ==> !Processed(g, cs[k].oid)
  }

  /** How many entries of `h`, newest first, the branch gained since the graph was last written:
      the entries before the first one some node records, or before the first that repeats an
      earlier commit. */
  function NewCount(g: Graph, h: seq<HistoryEntry>): (r: nat)
    ensures r <= |h| && DistinctOids(h[..r]) && Fresh(g, h[..r])
    ensures r < |h| ==> Processed(g, h[r].oid) || exists k :: 0 <= k < r && h[k].oid == h[r].oid
  {
    NewFrom(g, h, 0)
  }

  /** NewCount, having passed the first `k` entries. */
  function NewFrom(g: Graph, h: seq<HistoryEntry>, k: nat): (r: nat)
    requires k <= |h| && DistinctOids(h[..k]) && Fresh(g, h[..k])
    decreases |h| - k
    ensures k <= r <= |h| && DistinctOids(h[..r]) && Fresh(g, h[..r])
    ensures r < |h| ==> Processed(g, h[r].oid) || exists m :: 0 <= m < r && h[m].oid == h[r].oid
  {
    if k == |h| || Processed(g, h[k].oid) || exists m :: 0 <= m < k && h[m].oid == h[k].oid then k
    else
      assert forall m :: 0 <= m < k ==> h[..k + 1][m] == h[..k][m];
      NewFrom(g, h, k + 1)
  }

  /** The entries the corrected pass replays: the new ones, oldest first. */
  function Replayed(g: Graph, history: Option<seq<HistoryEntry>>): seq<HistoryEntry> {
    var h := Returned(history);
    Reverse(h[..NewCount(g, h)])
  }

  /** fallback_sync walking the returned entries newest first only as far as the first recorded
      one, and replaying those new entries oldest first, so that the branch head is written last
      and a recorded head leaves the graph as it is. */
  function FallbackSync(g: Graph, revs: map<string, Revision>, history: Option<seq<HistoryEntry>>, now: string, rollback: bool, failing: set<string>): (r: Graph)
    ensures (|Returned(history)| == 0 || Processed(g, Returned(history)[0].oid)) ==> r == g
  {
    Run(g, revs, Replayed(g, history), now, rollback, failing).graph
  }

  /** The replayed entries are new, distinct, and the new prefix of the history reversed. */
  lemma ReplayedFresh(g: Graph, history: Option<seq<HistoryEntry>>)
    ensures var h := Returned(history);
            var cs := Replayed(g, history);
            && |cs| == NewCount(g, h) && DistinctOids(cs) && Fresh(g, cs)
            && forall k :: 0 <= k < |cs| ==> cs[k] == h[|cs| - 1 - k]
  {
    var h := Returned(history);
    var p := NewCount(g, h);
    var cs := Replayed(g, history);
    ReverseDistinct(h[..p]);
    forall k | 0 <= k < |cs| ensures cs[k] == h[p - 1 - k] && !Processed(g, cs[k].oid) {
      assert cs[k] == h[..p][p - 1 - k];
    }
  }

  /** NewCount is the first index whose entry is recorded, when the entries before it are new
      and distinct. */
  lemma NewCountIs(g: Graph, h: seq<HistoryEntry>, n: nat)
    requires n <= |h| && DistinctOids(h[..n]) && Fresh(g, h[..n])
    requires n < |h| ==> Processed(g, h[n].oid)
    ensures NewCount(g, h) == n
  {
    assert forall k :: 0 <= k < n ==> h[..n][k] == h[k];
  }

  /** The first entry of `cs` that raises, or `|cs|` when none does. */
  function FirstFail(cs: seq<HistoryEntry>, failing: set<string>): (j: nat)
    ensures j <= |cs| && NoneFail(cs[..j], failing)
    ensures j < |cs| ==> cs[j].oid in failing
  {
    if |cs| == 0 || cs[0].oid in failing then 0
    else
      var j := FirstFail(cs[1..], failing);
      assert NoneFail(cs[..j + 1], failing) by {
        forall k | 1 <= k < j + 1 ensures cs[k].oid !in failing {
          assert cs[k] == cs[1..][..j][k - 1];
        }
      }
      j + 1
  }

  /** A marked commit counts as processed. */
  lemma MarkedProcessed(g: Graph, s: string)
    requires Marked(g, s)
    ensures Processed(g, s)
  {
  }

  /** A visit with rollback enabled keeps every recorded commit marked, and marks its own. */
  lemma VisitMarks(g: Graph, revs: map<string, Revision>, c: HistoryEntry, now: string)
    requires AllMarked(g)
    ensures var r := Visit(g, revs, c, now, true);
            AllMarked(r) && Marked(r, c.oid) && forall s :: Marked(g, s) ==> Marked(r, s)
  {
    if !Processed(g, c.oid) {
      var ents := CommitEntities(revs, c.oid, now);
      ExtractedShape(RepositoryDocuments(RevisionOf(revs, c.oid), FALLBACK_MAX_FILES), c.oid, now);
      UpdateGraphSpec(g, ents, c.oid, now, true);
      UpdateKeepsAllMarked(g, ents, c.oid, now);
    }
  }

  /** Marks of the entries before `j`. */
  ghost predicate MarkedBefore(g: Graph, cs: seq<HistoryEntry>, j: int) {
    forall k :: 0 <= k < j && k < |cs| ==> Marked(g, cs[k].oid)
  }

  /** What a pass with rollback enabled leaves behind: all recorded commits marked; when it
      ran to the end, every entry marked; when it ended early, a failing, unrecorded commit
      after entries that are all marked. */
  ghost predicate MarksAfter(r: Pass, cs: seq<HistoryEntry>, failing: set<string>) {
    && AllMarked(r.graph)
    && (!r.aborted ==> MarkedBefore(r.graph, cs, |cs|))
    && (r.aborted ==> exists j :: 0 <= j < |cs| && cs[j].oid in failing && !Processed(r.graph, cs[j].oid)
                                   && MarkedBefore(r.graph, cs, j))
  }

  /** One more iteration keeps that description true. */
  lemma StepMarks(p: Pass, revs: map<string, Revision>, init: seq<HistoryEntry>, c: HistoryEntry, now: string, failing: set<string>)
    requires MarksAfter(p, init, failing)
    ensures MarksAfter(Step(p, revs, c, now, true, failing), init + [c], failing)
  {
    var cs := init + [c];
    var r := Step(p, revs, c, now, true, failing);
    assert forall k :: 0 <= k < |init| ==> cs[k] == init[k];
    if p.aborted {
      var j :| 0 <= j < |init| && init[j].oid in failing && !Processed(p.graph, init[j].oid) && MarkedBefore(p.graph, init, j);
      assert cs[j] == init[j];
      assert MarkedBefore(r.graph, cs, j);
    } else if Processed(p.graph, c.oid) {
      assert MarkedBefore(r.graph, cs, |cs|);
    } else if c.oid in failing {
      assert cs[|init|] == c;
      assert MarkedBefore(r.graph, cs, |init|);
    } else {
      VisitMarks(p.graph, revs, c, now);
      assert MarkedBefore(r.graph, cs, |cs|);
    }
  }

  /** So a whole pass with rollback enabled, from a state with all recorded commits marked,
      leaves that description true. */
  lemma {:induction false} RunMarks(g: Graph, revs: map<string, Revision>, cs: seq<HistoryEntry>, now: string, failing: set<string>)
    requires AllMarked(g)
    decreases |cs|
    ensures MarksAfter(Run(g, revs, cs, now, true, failing), cs, failing)
  {
    if |cs| > 0 {
      var init := cs[..|cs| - 1];
      RunMarks(g, revs, init, now, failing);
      StepMarks(Run(g, revs, init, now, true, failing), revs, init, cs[|cs| - 1], now, failing);
      assert init + [cs[|cs| - 1]] == cs;
    }
  }

  /** A pass over commits that are all marked changes nothing and runs to the end. */
  lemma {:induction false} RunOverMarked(g: Graph, revs: map<string, Revision>, cs: seq<HistoryEntry>, now: string, rollback: bool, failing: set<string>)
    requires MarkedBefore(g, cs, |cs|)
    decreases |cs|
    ensures Run(g, revs, cs, now, rollback, failing) == Pass(g, false)
  {
    if |cs| > 0 {
      var init := cs[..|cs| - 1];
      assert MarkedBefore(g, init, |init|) by {
        forall k | 0 <= k < |init| ensures Marked(g, init[k].oid) {
          assert init[k] == cs[k];
        }
      }
      RunOverMarked(g, revs, init, now, rollback, failing);
      MarkedProcessed(g, cs[|cs| - 1].oid);
    }
  }

  /** A pass that meets, after marked commits only, an unrecorded commit that raises ends there
      without a change. */
  lemma RunStopsAgain(g: Graph, revs: map<string, Revision>, cs: seq<HistoryEntry>, j: nat, now: string, rollback: bool, failing: set<string>)
    requires j < |cs| && cs[j].oid in failing && !Processed(g, cs[j].oid) && MarkedBefore(g, cs, j)
    ensures Run(g, revs, cs, now, rollback, failing) == Pass(g, true)
  {
    var pre := cs[..j];
    assert MarkedBefore(g, pre, |pre|) by {
      forall k | 0 <= k < |pre| ensures Marked(g, pre[k].oid) {
        assert pre[k] == cs[k];
      }
    }
    RunOverMarked(g, revs, pre, now, rollback, failing);
    assert cs[..j + 1][..j] == pre;
    assert Run(g, revs, cs[..j + 1], now, rollback, failing) == Pass(g, true);
    RunAbortedStays(g, revs, cs, j + 1, now, rollback, failing);
  }

  /** A second pass over the same entries, with the same commits raising, at any later time,
      changes nothing: every commit the first pass wrote is recognised as processed, and a
      commit that ended the first pass ends the second one in the same place. */
  lemma RerunIsNoOp(g: Graph, revs: map<string, Revision>, cs: seq<HistoryEntry>, now: string, later: string, failing: set<string>)
    requires AllMarked(g)
    ensures var once := Run(g, revs, cs, now, true, failing);
            Run(once.graph, revs, cs, later, true, failing) == once
  {
    var once := Run(g, revs, cs, now, true, failing);
    RunMarks(g, revs, cs, now, failing);
    if once.aborted {
      var j :| 0 <= j < |cs| && cs[j].oid in failing && !Processed(once.graph, cs[j].oid) && MarkedBefore(once.graph, cs, j);
      RunStopsAgain(once.graph, revs, cs, j, later, true, failing);
    } else {
      RunOverMarked(once.graph, revs, cs, later, true, failing);
    }
  }

  /** With rollback enabled, running fallback_sync as written twice is running it once. */
  lemma SecondPassIsNoOpAsWritten(g: Graph, revs: map<string, Revision>, history: Option<seq<HistoryEntry>>, now: string, later: string, failing: set<string>)
    requires AllMarked(g)
    ensures var once := FallbackSyncAsWritten(g, revs, history, now, true, failing);
            FallbackSyncAsWritten(once, revs, history, later, true, failing) == once
  {
    RerunIsNoOp(g, revs, Returned(history), now, later, failing);
  }

  /** Every commit a pass records is one it walked or one already recorded. */
  lemma {:induction false} WalkShas(g: Graph, revs: map<string, Revision>, cs: seq<HistoryEntry>, now: string, rollback: bool, s: string)
    requires Processed(Walk(g, revs, cs, now, rollback), s)
    decreases |cs|
    ensures Processed(g, s) || exists k :: 0 <= k < |cs| && cs[k].oid == s
  {
    if |cs| > 0 {
      var init := cs[..|cs| - 1];
      var mid := Walk(g, revs, init, now, rollback);
      var c := cs[|cs| - 1];
      if !Processed(mid, c.oid) {
        ExtractedShape(RepositoryDocuments(RevisionOf(revs, c.oid), FALLBACK_MAX_FILES), c.oid, now);
        UpdateGraphSpec(mid, CommitEntities(revs, c.oid, now), c.oid, now, rollback);
        var r := Walk(g, revs, cs, now, rollback);
        var i :| 0 <= i < |r.nodes| && Has(r.nodes[i], CommitSha, Str(s));
        assert s == c.oid || Processed(mid, s);
      }
      if s != c.oid {
        WalkShas(g, revs, init, now, rollback, s);
        if !Processed(g, s) {
          var k :| 0 <= k < |init| && init[k].oid == s;
          assert cs[k].oid == s;
        }
      }
    }
  }

  /** No two entries name the same commit. */
  predicate DistinctOids(cs: seq<HistoryEntry>) {
    forall a, b :: 0 <= a < b < |cs| ==> cs[a].oid != cs[b].oid
  }

  /** When the last commit walked was not yet processed, every entity it extracts ends on nodes
      active at that commit: the pass leaves the graph at the last commit of its walk. */
  lemma WalkEndsOnLast(g: Graph, revs: map<string, Revision>, cs: seq<HistoryEntry>, now: string, rollback: bool)
    requires |cs| > 0 && DistinctOids(cs) && !Processed(g, cs[|cs| - 1].oid)
    ensures var last := cs[|cs| - 1].oid;
            forall e :: e in CommitEntities(revs, last, now) ==>
              Present(Walk(g, revs, cs, now, rollback), e) && AllStamped(Walk(g, revs, cs, now, rollback), e, last)
  {
    var init := cs[..|cs| - 1];
    var c := cs[|cs| - 1];
    var mid := Walk(g, revs, init, now, rollback);
    assert !Processed(mid, c.oid) by {
      if Processed(mid, c.oid) {
        WalkShas(g, revs, init, now, rollback, c.oid);
      }
    }
    ExtractedShape(RepositoryDocuments(RevisionOf(revs, c.oid), FALLBACK_MAX_FILES), c.oid, now);
    UpdateGraphSpec(mid, CommitEntities(revs, c.oid, now), c.oid, now, rollback);
  }

  /** Two distinct commits cannot both stamp a node. */
  lemma StampedNotOther(g: Graph, e: Entity, sha: string, other: string)
    requires AllStamped(g, e, sha) && other != sha
    ensures forall i :: 0 <= i < |g.nodes| && Keyed(g.nodes[i], e) ==> !Has(g.nodes[i], CommitSha, Str(other))
  {
  }

  /** The pass as written walks the history newest first, so when several returned commits are
      new, the entities of the OLDEST one are written last: their nodes end at that commit, and
      none of them at the branch head `Returned(history)[0]`. */
  lemma AsWrittenEndsOnOldest(g: Graph, revs: map<string, Revision>, history: Option<seq<HistoryEntry>>, now: string, rollback: bool, failing: set<string>)
    requires var h := Returned(history); |h| > 1 && DistinctOids(h) && NoneFail(h, failing) && !Processed(g, h[|h| - 1].oid)
    ensures var h := Returned(history);
            var r := FallbackSyncAsWritten(g, revs, history, now, rollback, failing);
            forall e :: e in CommitEntities(revs, h[|h| - 1].oid, now) ==>
              && Present(r, e) && AllStamped(r, e, h[|h| - 1].oid)
              && forall i :: 0 <= i < |r.nodes| && Keyed(r.nodes[i], e) ==> !Has(r.nodes[i], CommitSha, Str(h[0].oid))
  {
    var h := Returned(history);
    RunWithoutFailures(g, revs, h, now, rollback, failing);
    var r := FallbackSyncAsWritten(g, revs, history, now, rollback, failing);
    var es := CommitEntities(revs, h[|h| - 1].oid, now);
    WalkEndsOnLast(g, revs, h, now, rollback);
    forall e | e in es
      ensures forall i :: 0 <= i < |r.nodes| && Keyed(r.nodes[i], e) ==> !Has(r.nodes[i], CommitSha, Str(h[0].oid))
    {
      StampedNotOther(r, e, h[|h| - 1].oid, h[0].oid);
    }
  }

  /** Reversal keeps the commits distinct. */
  lemma ReverseDistinct(cs: seq<HistoryEntry>)
    requires DistinctOids(cs)
    ensures DistinctOids(Reverse(cs))
  {
    var r := Reverse(cs);
    forall a, b | 0 <= a < b < |r| ensures r[a].oid != r[b].oid {
      assert r[a] == cs[|cs| - 1 - a] && r[b] == cs[|cs| - 1 - b];
    }
  }

  /** Replayed oldest first, a pass whose branch head is new leaves the head's entities on nodes
      active at the head. */
  lemma FallbackSyncEndsOnHead(g: Graph, revs: map<string, Revision>, history: Option<seq<HistoryEntry>>, now: string, rollback: bool, failing: set<string>)
    requires var h := Returned(history); |h| > 0 && NoneFail(h, failing) && !Processed(g, h[0].oid)
    ensures var h := Returned(history);
            var r := FallbackSync(g, revs, history, now, rollback, failing);
            forall e :: e in CommitEntities(revs, h[0].oid, now) ==> Present(r, e) && AllStamped(r, e, h[0].oid)
  {
    var h := Returned(history);
    var cs := Replayed(g, history);
    ReplayedFresh(g, history);
    assert |cs| > 0 && cs[|cs| - 1] == h[0];
    assert NoneFail(cs, failing) by {
      forall k | 0 <= k < |cs| ensures cs[k].oid !in failing {
        assert cs[k] == h[|cs| - 1 - k];
      }
    }
    RunWithoutFailures(g, revs, cs, now, rollback, failing);
    WalkEndsOnLast(g, revs, cs, now, rollback);
  }

  /** Replayed that way, a pass that finds no history, or whose branch head some node already
      records, changes nothing. */
  lemma FallbackSyncKeepsRecordedHead(g: Graph, revs: map<string, Revision>, history: Option<seq<HistoryEntry>>, now: string, rollback: bool, failing: set<string>)
    requires var h := Returned(history); |h| == 0 || Processed(g, h[0].oid)
    ensures FallbackSync(g, revs, history, now, rollback, failing) == g
  {
    assert Replayed(g, history) == [];
  }

  /** A walk over commits other than `s` leaves an unrecorded `s` unrecorded. */
  lemma WalkLeavesUnrecorded(g: Graph, revs: map<string, Revision>, cs: seq<HistoryEntry>, now: string, rollback: bool, s: string)
    requires !Processed(g, s) && forall k :: 0 <= k < |cs| ==> cs[k].oid != s
    ensures !Processed(Walk(g, revs, cs, now, rollback), s)
  {
    if Processed(Walk(g, revs, cs, now, rollback), s) {
      WalkShas(g, revs, cs, now, rollback, s);
    }
  }

  /** A pass over new, distinct commits stops at the first that raises, with the commits before
      it written. */
  lemma RunUntilFailure(g: Graph, revs: map<string, Revision>, cs: seq<HistoryEntry>, j: nat, now: string, rollback: bool, failing: set<string>)
    requires j < |cs| && DistinctOids(cs) && Fresh(g, cs)
    requires NoneFail(cs[..j], failing) && cs[j].oid in failing
    ensures Run(g, revs, cs, now, rollback, failing) == Pass(Walk(g, revs, cs[..j], now, rollback), true)
  {
    var pre := cs[..j];
    RunWithoutFailures(g, revs, pre, now, rollback, failing);
    var w := Walk(g, revs, pre, now, rollback);
    assert forall k :: 0 <= k < |pre| ==> pre[k] == cs[k];
    WalkLeavesUnrecorded(g, revs, pre, now, rollback, cs[j].oid);
    assert cs[..j + 1][..j] == pre && cs[..j + 1][j] == cs[j];
    assert Run(g, revs, cs[..j + 1], now, rollback, failing) == Pass(w, true);
    RunAbortedStays(g, revs, cs, j + 1, now, rollback, failing);
  }

  /** With rollback enabled, running the corrected fallback_sync twice is running it once. */
  lemma SecondPassIsNoOp(g: Graph, revs: map<string, Revision>, history: Option<seq<HistoryEntry>>, now: string, later: string, failing: set<string>)
    requires AllMarked(g)
    ensures var once := FallbackSync(g, revs, history, now, true, failing);
            FallbackSync(once, revs, history, later, true, failing) == once
  {
    var h := Returned(history);
    var cs := Replayed(g, history);
    ReplayedFresh(g, history);
    var j := FirstFail(cs, failing);
    if j == |cs| {
      assert cs[..j] == cs;
      RunWithoutFailures(g, revs, cs, now, true, failing);
      if |cs| > 0 {
        RunMarks(g, revs, cs, now, failing);
        CompletedPassRecordsHead(g, revs, history, now, failing);
      }
    } else {
      RunUntilFailure(g, revs, cs, j, now, true, failing);
      if j == 0 {
        RunUntilFailure(g, revs, cs, 0, later, true, failing);
      } else {
        AbortedPassStaysAborted(g, revs, history, j, now, later, failing);
      }
    }
  }

  /** A corrected pass that replays something and runs to the end records the branch head. */
  lemma CompletedPassRecordsHead(g: Graph, revs: map<string, Revision>, history: Option<seq<HistoryEntry>>, now: string, failing: set<string>)
    requires var cs := Replayed(g, history); |cs| > 0 && MarksAfter(Run(g, revs, cs, now, true, failing), cs, failing)
    requires !Run(g, revs, Replayed(g, history), now, true, failing).aborted
    ensures Processed(FallbackSync(g, revs, history, now, true, failing), Returned(history)[0].oid)
  {
    var cs := Replayed(g, history);
    ReplayedFresh(g, history);
    assert cs[|cs| - 1] == Returned(history)[0];
    MarkedProcessed(FallbackSync(g, revs, history, now, true, failing), cs[|cs| - 1].oid);
  }

  /** A corrected pass that stopped at its `j`-th replayed entry, `j > 0`, stops there again:
      the entries after it are still new, the one before it is now recorded, so the second pass
      replays from the raising entry on. */
  lemma AbortedPassStaysAborted(g: Graph, revs: map<string, Revision>, history: Option<seq<HistoryEntry>>, j: nat, now: string, later: string, failing: set<string>)
    requires AllMarked(g)
    requires var cs := Replayed(g, history); 0 < j < |cs| && NoneFail(cs[..j], failing) && cs[j].oid in failing
    ensures var w := Walk(g, revs, Replayed(g, history)[..j], now, true);
            Run(w, revs, Replayed(w, history), later, true, failing) == Pass(w, true)
  {
    var cs := Replayed(g, history);
    ReplayedFresh(g, history);
    var w := Walk(g, revs, cs[..j], now, true);
    AbortedNewCount(g, revs, history, j, now, failing);
    ReplayedFromCount(w, g, history, j);
    WalkLeavesLater(g, revs, cs, j, now, true);
    assert cs[j..][0] == cs[j];
    StopsAtReplayedHead(w, revs, history, cs[j], later, failing);
  }

  /** A corrected pass whose first replayed entry is unrecorded and raises changes nothing. */
  lemma StopsAtReplayedHead(w: Graph, revs: map<string, Revision>, history: Option<seq<HistoryEntry>>, c: HistoryEntry, now: string, failing: set<string>)
    requires |Replayed(w, history)| > 0 && Replayed(w, history)[0] == c
    requires c.oid in failing && !Processed(w, c.oid)
    ensures Run(w, revs, Replayed(w, history), now, true, failing) == Pass(w, true)
  {
    RunStopsAgain(w, revs, Replayed(w, history), 0, now, true, failing);
  }

  /** When `w` has `j` fewer new entries than `g`, its replay starts at `g`'s `j`-th. */
  lemma ReplayedFromCount(w: Graph, g: Graph, history: Option<seq<HistoryEntry>>, j: nat)
    requires j < |Replayed(g, history)| && NewCount(w, Returned(history)) == |Replayed(g, history)| - j
    ensures |Replayed(w, history)| > 0 && Replayed(w, history)[0] == Replayed(g, history)[j]
  {
    ReplayedFresh(w, history);
    ReplayedFresh(g, history);
  }

  /** A walk over the first `j` of some new, distinct commits leaves the others new. */
  lemma WalkLeavesLater(g: Graph, revs: map<string, Revision>, cs: seq<HistoryEntry>, j: nat, now: string, rollback: bool)
    requires j <= |cs| && DistinctOids(cs) && Fresh(g, cs)
    ensures Fresh(Walk(g, revs, cs[..j], now, rollback), cs[j..])
  {
    var pre := cs[..j];
    forall k | j <= k < |cs| ensures !Processed(Walk(g, revs, pre, now, rollback), cs[k].oid) {
      forall m | 0 <= m < |pre| ensures pre[m].oid != cs[k].oid {
        assert pre[m] == cs[m];
      }
      WalkLeavesUnrecorded(g, revs, pre, now, rollback, cs[k].oid);
    }
    assert forall k :: 0 <= k < |cs| - j ==> cs[j..][k] == cs[k + j];
  }

  /** A walk with rollback enabled over commits none of which raises, from a state with all
      recorded commits marked, records the last of them. */
  lemma WalkRecordsLast(g: Graph, revs: map<string, Revision>, cs: seq<HistoryEntry>, now: string, failing: set<string>)
    requires AllMarked(g) && |cs| > 0 && NoneFail(cs, failing)
    ensures Processed(Walk(g, revs, cs, now, true), cs[|cs| - 1].oid)
  {
    RunWithoutFailures(g, revs, cs, now, true, failing);
    RunMarks(g, revs, cs, now, failing);
    MarkedProcessed(Walk(g, revs, cs, now, true), cs[|cs| - 1].oid);
  }

  /** After a corrected pass that stopped at its `j`-th replayed entry, `j > 0`, the new entries
      are those from the raising one on. */
  lemma AbortedNewCount(g: Graph, revs: map<string, Revision>, history: Option<seq<HistoryEntry>>, j: nat, now: string, failing: set<string>)
    requires AllMarked(g)
    requires var cs := Replayed(g, history); 0 < j < |cs| && NoneFail(cs[..j], failing) && cs[j].oid in failing
    ensures var w := Walk(g, revs, Replayed(g, history)[..j], now, true);
            NewCount(w, Returned(history)) == |Replayed(g, history)| - j
  {
    var cs := Replayed(g, history);
    ReplayedFresh(g, history);
    WalkRecordsLast(g, revs, cs[..j], now, failing);
    WalkLeavesLater(g, revs, cs, j, now, true);
    NewCountAfter(Walk(g, revs, cs[..j], now, true), Returned(history), cs, j);
  }

  /** If the new prefix of `h`, reversed, is `cs`, and in `w` its first `j` entries are
      followed by a recorded one and the rest are new, `w` has `|cs| - j` new entries. */
  lemma NewCountAfter(w: Graph, h: seq<HistoryEntry>, cs: seq<HistoryEntry>, j: nat)
    requires 0 < j < |cs| <= |h| && DistinctOids(cs)
    requires forall k :: 0 <= k < |cs| ==> cs[k] == h[|cs| - 1 - k]
    requires Processed(w, cs[j - 1].oid) && Fresh(w, cs[j..])
    ensures NewCount(w, h) == |cs| - j
  {
    var n := |cs| - j;
    forall k | 0 <= k < n ensures !Processed(w, h[k].oid) {
      assert h[k] == cs[|cs| - 1 - k] == cs[j..][|cs| - 1 - k - j];
    }
    forall a, b | 0 <= a < b < n ensures h[a].oid != h[b].oid {
      assert h[a] == cs[|cs| - 1 - a] && h[b] == cs[|cs| - 1 - b];
    }
    assert h[n] == cs[j - 1];
    NewCountIs(w, h, n);
  }
}
