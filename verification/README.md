# GitHub → Neo4j code-graph synchronisation, modelled in Dafny

This project models the core of a small service that keeps a Neo4j graph of a GitHub
repository's code in step with the repository. The service has four parts, and so does
the model:

- **Push webhook.** On a push it works out the changed files, loads the code files among
  them, and marks the entities of removed files deleted. It then extracts Module, Class,
  Method and Subroutine entities with a line-based heuristic, and writes them to the
  graph with versioning and a rollback snapshot.
- **Rollback.** The graph can be rolled back to the snapshot of an earlier commit.
- **Fallback pass.** A periodic pass walks the last ten commits of the branch and writes
  every commit no node records yet.
- **Simple receiver.** A second, stand-alone webhook receiver only reports the changed
  files of a push and downloads the code files among them.

The graph is a sequence of nodes (a node is its index; nodes are never deleted) and a
set of relationships. Each Cypher statement the service runs is a pure function on
that graph:

- `MERGE` of a node keyed on one property;
- `MATCH ... SET`;
- `MATCH (a), (b) MERGE (a)-[r]->(b)`.

A missing property follows Cypher's null semantics: `n.k = v` and `n.k <> v` are both
false.

Modules, each mirroring one part of the program:

| module | file | contents |
|---|---|---|
| `Wrappers` | wrappers.dfy | `Option` |
| `Seqs` | seqs.dfy | duplicate-freedom, first-occurrence deduplication, flattening, reversal |
| `Text` | text.dfy | the Python string operations the code relies on: `strip`, `in`, `startswith`/`endswith`, `split`, `lower` |
| `Changes` | changes.dfy | push payloads, `get_changed_files`, `is_code_file`, loading of files from a revision |
| `Entities` | entities.dfy | the entity records the extractor produces and the update consumes |
| `Extractor` | extractor.dfy | `detect_language`, the Python / JavaScript / Java line scanners, `extract_entities_with_llm` |
| `Graphs` | graph.dfy | nodes, relationships, node matching and `MERGE` |
| `Engine` | engine.dfy | the graph statements: current state, snapshot, versioned update, relationships, removal, rollback |
| `Sync` | sync.dfy | the push webhook and the fallback pass |
| `SimpleWebhook` | simple_webhook.dfy | the stand-alone receiver of webhook_simple.py |

### Error handling in the code

- **Fallback pass.** The `try` encloses the whole loop over the history
  (github_neo_4_j_sync.py:801, 869-870). So the first commit that raises ends the pass,
  and the commits after it are not visited in that pass. `Sync.Run` models exactly that.
  The raising commit's write transaction is rolled back, so it stays unrecorded and the
  next pass retries it (`Sync.RunStopsAgain`).
- **Push webhook.** Removed files are marked in a session of their own
  (github_neo_4_j_sync.py:613, 719-720), before the update runs in its write transaction
  (github_neo_4_j_sync.py:726-727). The marks therefore stay even when the update then
  fails. The model applies removal, then the update; see "Left out".
- **Payload members read before the `try`.** `payload["after"]` and
  `payload.get("head_commit", {}).get(...)` (github_neo_4_j_sync.py:682-688) run before the
  handler's `try`. A missing `after`, or a `head_commit` present as `null` (as GitHub sends
  it on a push that deletes a branch), fails the request before anything is written
  (`Sync.PushNullMembers`).

### Modules never get a `name` (source behaviour)

A Module entity carries its path as its entity name, but its attributes hold no `name`.
The update keys a node with a path on that path and sets only the attribute keys. So no
Module node ever receives a `name` property.

Every Class and Subroutine the Python and JavaScript scanners find carries a
`has_class` or `has_subroutine` relation to its file's Module. The relationship
statement matches its target by `name`, so those relations never produce an edge.

The model proves this: starting from a graph whose Modules are nameless, a push adds no
edge into a Module (`Sync.PushAddsNoModuleEdge`). The source states no intent either way,
and a graph written by another tool could hold named Modules. So this is recorded here,
not as a finding.

## Model

| member | source | states |
|---|---|---|
| Changes.Gathered | github_neo_4_j_sync.py:79-84 | after the `extend` loop, a key's list holds exactly the paths some commit lists under that key; a missing `commits` or key counts as empty |
| Changes.GetChangedFiles | github_neo_4_j_sync.py:74-90 | each of the three lists is duplicate-free and holds exactly the paths some commit of the push lists under that key |
| Changes.DistinctListed | webhook_simple.py:40-53 | the receiver's identical get_changed_files: deduplication keeps exactly the listed paths, each once |
| Changes.DedupedFiles | github_neo_4_j_sync.py:86-88 | deduplicating the gathered lists gives duplicate-free lists with the same members |
| Changes.AnyOccurs | github_neo_4_j_sync.py:152-154 | the ignore loop fires exactly when some pattern occurs somewhere in the path |
| Changes.AnySuffix | github_neo_4_j_sync.py:157 | `any(endswith)` holds exactly when some extension is a suffix |
| Changes.IsCodeFile | github_neo_4_j_sync.py:135-157 | a path is code exactly when no ignored directory pattern occurs in it (case-sensitive) and its lower-cased form ends with one of the 27 extensions |
| Changes.KelvinPathIsCode | github_neo_4_j_sync.py:157 | `a.` followed by KELVIN SIGN and `t` is code: Python lower-cases KELVIN SIGN to `k`, giving `.kt` |
| Changes.CodeFileNonEmpty | github_neo_4_j_sync.py:139-143 | every accepted path is non-empty, since every extension has a character |
| Changes.CodeBlobs | github_neo_4_j_sync.py:171-174 | the listed paths are exactly the blob entries of the tree that pass is_code_file |
| Changes.Batches | github_neo_4_j_sync.py:182-184 | the batches concatenate back to the list; each is non-empty and at most the batch size, and all but the last are full |
| Changes.FilesToFetch | github_neo_4_j_sync.py:171-184 | the fetched paths are the first min(code files, limit) code blob paths in tree order, in batches of ten |
| Changes.Fetched | github_neo_4_j_sync.py:102-127 | a document is returned for exactly the requested code paths that the revision serves with non-empty text, and it carries that file's content and sha |
| Changes.FetchedAppend | github_neo_4_j_sync.py:183-186 | loading batch after batch loads the concatenation of the batches |
| Changes.FetchBatches | github_neo_4_j_sync.py:183-186 | the documents of all batches are the documents of the flattened path list |
| Changes.RepositoryDocuments | github_neo_4_j_sync.py:160-198 | with no revision, nothing; otherwise the loadable documents among the first `max_files` code blobs; never more than `max_files` |
| Text.Strip | github_neo_4_j_sync.py:276 | `strip()` cuts only whitespace, at both ends, starting at the first non-whitespace character, and leaves neither end of the result whitespace |
| Text.Before | github_neo_4_j_sync.py:280 | `split(sep)[0]` is the longest prefix without `sep`; it ends at the first `sep` or at the end of the text |
| Text.Field1 | github_neo_4_j_sync.py:302 | `split(sep)[1]`, when `sep` occurs, is the text from just after the first `sep` up to the next `sep` or the end, and holds no `sep` |
| Text.AfterLast | github_neo_4_j_sync.py:431 | `split(c)[-1]` is the suffix after the last `c`, or all of the text; it holds no `c` |
| Text.Split | github_neo_4_j_sync.py:254 | `split(c)` gives at least one piece, and no piece holds `c` |
| Text.JoinSplit | github_neo_4_j_sync.py:254 | joining the pieces of `split(c)` with `c` gives the text back |
| Text.SplitJoin | github_neo_4_j_sync.py:254 | splitting pieces without `c` joined by `c` gives the pieces back |
| Text.SplitCount | github_neo_4_j_sync.py:233 | `split(c)` has one piece more than the text has `c` characters, so `count('\n') + 1` is the number of lines |
| Extractor.FirstMatchSpec | github_neo_4_j_sync.py:470-474 | the loop returns the language of the first suffix match, and Unknown when no extension matches |
| Extractor.ExtensionsSuffixFree | github_neo_4_j_sync.py:459-468 | no extension of the language table is a suffix of another |
| Extractor.OneExtension | github_neo_4_j_sync.py:459-468 | a path ends with at most one listed extension |
| Extractor.DetectLanguageAt | github_neo_4_j_sync.py:455-474 | the detected language is a given table language exactly when the path ends with that language's extension |
| Extractor.DetectMatched | github_neo_4_j_sync.py:470-472 | a path ending with a listed extension gets that extension's language |
| Extractor.DetectSound | github_neo_4_j_sync.py:470-472 | a detected table language implies the path ends with its extension |
| Extractor.DistinctLanguages | github_neo_4_j_sync.py:459-468 | no two table entries share a language |
| Extractor.DetectLanguageSpec | github_neo_4_j_sync.py:455-474 | case-sensitive suffix matching decides the language, whatever the table's order; Unknown exactly when no extension matches |
| Extractor.LinePathInjective | github_neo_4_j_sync.py:285 | different lines of a file give different `file:<line>` paths |
| Extractor.HitEntityShape | github_neo_4_j_sync.py:284-297 | every scanner entity is at `file:<i+1>`, records line i+1, carries its own name, is active at the commit with version 1, is a Class exactly for a class hit (then without `code`), is never a Module, and has one relation whose target name is the file |
| Extractor.PythonHitSpec | github_neo_4_j_sync.py:269-332 | a class exactly for lines starting with "class " that hold ':'; otherwise a routine exactly for lines starting with "def " that hold '('; the routine is always a Subroutine, because the indentation test sees the stripped line |
| Extractor.NoSepAfterStrip | github_neo_4_j_sync.py:280 | a separator absent from a line is absent from its stripped name |
| Extractor.JsHitSpec | github_neo_4_j_sync.py:335-395 | a class exactly for lines starting with "class " that hold '{'; otherwise a Subroutine exactly for lines with "function " or "=>" and both parentheses |
| Extractor.ArrowHasEquals | github_neo_4_j_sync.py:373 | a line containing "=>" contains '=' |
| Extractor.JsArrowNamed | github_neo_4_j_sync.py:369-373 | an arrow-function line is always named by its text before the first '=', so the `anonymous_{i}` fallback is dead code |
| Extractor.JavaClassContains | github_neo_4_j_sync.py:408-409 | a Java class line contains "class " |
| Extractor.JavaHitSpec | github_neo_4_j_sync.py:398-452 | a class exactly for lines starting with "public class " or "class "; otherwise a Method exactly for lines with a visibility word, '(', ')' and '{'; a method name is one word |
| Extractor.NoSpaceAfterStrip | github_neo_4_j_sync.py:431 | a method name cut at spaces stays free of spaces after stripping |
| Extractor.Hits | github_neo_4_j_sync.py:275-276 | one scanner verdict per line; a routine verdict relates to a Module, or to a Class for a Java method |
| Extractor.HitsFrom | github_neo_4_j_sync.py:275-276 | one verdict per remaining line, each relating to a Module or a Class |
| Extractor.ScanFrom | github_neo_4_j_sync.py:275-332 | the entities found from a line on are exactly those built from some later line's hit, at most one per line |
| Extractor.BuiltShape | github_neo_4_j_sync.py:284-292 | an entity built from line j is at `file:<j+1>` and is neither a Module nor a GraphSnapshot |
| Extractor.LaterPathsDiffer | github_neo_4_j_sync.py:285 | entities of later lines never share the path of line i |
| Extractor.ScanPathsDistinctFrom | github_neo_4_j_sync.py:275-332 | no two entities found from a line on share a path |
| Extractor.ScanPathsDistinct | github_neo_4_j_sync.py:246-266 | no two entities found in one file share a path, so each MERGE of the update addresses its own node |
| Extractor.ExtractBasic | github_neo_4_j_sync.py:246-266 | a file whose language has no scanner yields no child entities |
| Extractor.ScanUnderFile | github_neo_4_j_sync.py:275-332 | every scanned entity lies at `file:<n>` for one of the file's lines and is not a Module |
| Extractor.ChildrenUnderFile | github_neo_4_j_sync.py:246-266 | every child entity of a file lies under the prefix `file:`, which the removal statement matches |
| Extractor.ModuleEntitySpec | github_neo_4_j_sync.py:220-236 | the Module is named and keyed by the document path, has no relations and no `name` attribute; its code is the first 10000 characters of the text, its size the text length, its line count that of `split('\n')` (0 for an empty text) and its language the detected one |
| Extractor.ModuleCode | github_neo_4_j_sync.py:225 | the stored code is a prefix of the text, all of it when the text has at most 10000 characters |
| Extractor.ModuleLines | github_neo_4_j_sync.py:233 | `lines` is 0 for an empty text, else the number of pieces of `split('\n')` |
| Extractor.ModulePathsAppend | github_neo_4_j_sync.py:237-240 | the Module paths of concatenated entity lists are the concatenation |
| Extractor.NoModulePaths | github_neo_4_j_sync.py:240 | child entities contribute no Module path |
| Extractor.DocumentModulePaths | github_neo_4_j_sync.py:212-240 | one document contributes exactly its own Module, and only if it passes is_code_file |
| Extractor.OneModulePerCodeDocument | github_neo_4_j_sync.py:201-243 | the Module paths extracted are exactly the code document paths, in document order, once each |
| Extractor.ScanTargets | github_neo_4_j_sync.py:269-449 | every relation a scanner attaches targets a Module, or a Class for a Java method |
| Extractor.ExtractedTargets | github_neo_4_j_sync.py:201-243 | no relation of an extracted entity targets a GraphSnapshot: each targets a Module or a Class |
| Extractor.ExtractedShape | github_neo_4_j_sync.py:201-243 | every extracted entity has a non-empty path and is no GraphSnapshot, and no Module carries `name` |
| Graphs.FirstWith | github_neo_4_j_sync.py:485 | returns the first node from an index on with the property, and none exactly when there is no such node |
| Graphs.Merge | github_neo_4_j_sync.py:556-563 | `MERGE ... SET`: with matches, no node is created and each match keeps its label, takes every written attribute and keeps its other properties, while every other node is untouched; with no match, exactly one node is created, holding the key and the attributes; relationships are untouched |
| Graphs.MergeMatches | github_neo_4_j_sync.py:556-563 | afterwards the pattern matches exactly the old matches, or the one new node |
| Graphs.MergeKeepsUnique | github_neo_4_j_sync.py:556-563 | a key at most one node matched is matched by exactly one node afterwards |
| Graphs.MergeIdempotent | github_neo_4_j_sync.py:556-563 | a second identical MERGE changes nothing |
| Engine.CurrentState | github_neo_4_j_sync.py:477-486 | none exactly when no node of any label has the path; otherwise the properties of the first such node |
| Engine.Tag | github_neo_4_j_sync.py:502-505 | an active node gains `snapshot_sha` and keeps everything else; any other node is unchanged |
| Engine.Snapshot | github_neo_4_j_sync.py:489-505 | adds exactly one node, an active GraphSnapshot for the commit; every previously active node is tagged, the others are untouched; the commit is marked afterwards |
| Engine.Versioned | github_neo_4_j_sync.py:536-550 | the version is one past the stored version, or 1 for a new entity; an update also records the old status, "unknown" if none; other attributes pass through |
| Engine.WrittenKeepsKey | github_neo_4_j_sync.py:554-563 | the written attributes agree with the MERGE key, so the merged node still matches it |
| Engine.Relate | github_neo_4_j_sync.py:574-600 | nodes unchanged; the new edge set is the old one plus exactly one edge from each node matching the source to each node matching the target; nothing for an empty target name |
| Engine.RelateIdempotent | github_neo_4_j_sync.py:593-597 | running a relationship statement twice is running it once |
| Engine.RelateAll | github_neo_4_j_sync.py:566-567 | relations never change nodes and only add edges |
| Engine.RelateAllWellformed | github_neo_4_j_sync.py:566-567 | relations only add edges between existing nodes |
| Engine.Upsert | github_neo_4_j_sync.py:523-569 | one entity's write leaves the nodes of its MERGE and only adds edges |
| Engine.UpsertAll | github_neo_4_j_sync.py:523-569 | writing entities never removes nodes or edges |
| Engine.WrittenStamps | github_neo_4_j_sync.py:530-550 | whatever a node held, after the SET it is active at the commit with the next version |
| Engine.UpsertMatches | github_neo_4_j_sync.py:556-563 | after the write the entity's pattern matches exactly its earlier matches, or one new node |
| Engine.UpsertWrites | github_neo_4_j_sync.py:523-563 | afterwards some node matches the entity, and every matching node carries the commit and the next version |
| Engine.UpsertWritesAt | github_neo_4_j_sync.py:536-563 | each matching node is stamped, and on an update records the old status of the first node at the path |
| Engine.UpsertFrame | github_neo_4_j_sync.py:556-563 | nodes the pattern does not match are untouched; a node is created exactly when none matched |
| Engine.UpsertRecordsOldStatus | github_neo_4_j_sync.py:537-543 | on an update, `old_status` is the status of the first node at the path |
| Engine.UpsertKeepsUnique | github_neo_4_j_sync.py:556-563 | re-syncing never duplicates a node whose key was unique |
| Engine.UpsertRevives | github_neo_4_j_sync.py:530-563 | a deleted node extracted again comes back active at the new commit, one version up, with `old_status` deleted |
| Engine.FirstAtUnique | github_neo_4_j_sync.py:485 | the first node with a property value is unique |
| Engine.LookupFirst | github_neo_4_j_sync.py:537 | the update reads the first node at the entity's path |
| Engine.UpsertKeepsMarks | github_neo_4_j_sync.py:523-569 | writing a non-snapshot entity keeps every snapshot mark |
| Engine.UpsertNodeCases | github_neo_4_j_sync.py:556-563 | a node that matched still matches, one that did not is unchanged |
| Engine.UpsertShas | github_neo_4_j_sync.py:530-534 | a write records no commit but its own |
| Engine.UpsertKeepsStamped | github_neo_4_j_sync.py:523-569 | writing another entity at the same commit keeps an entity's nodes stamped |
| Engine.UpsertKeepsPresent | github_neo_4_j_sync.py:523-569 | writing another entity with a path keeps an entity with a path present |
| Engine.UpsertAllKeeps | github_neo_4_j_sync.py:523-569 | later writes of a commit keep an earlier entity present and stamped |
| Engine.UpsertAllStamps | github_neo_4_j_sync.py:523-569 | after a commit's writes, every entity with a path has a node, and every node it matches is active at that commit |
| Engine.UpsertAllFrame | github_neo_4_j_sync.py:523-569 | a node no entity matches is untouched by the writes |
| Engine.UpsertAllShas | github_neo_4_j_sync.py:523-569 | a commit's writes record no commit but their own |
| Engine.UpsertAllKeepsMarks | github_neo_4_j_sync.py:523-569 | writes of non-snapshot entities keep every snapshot mark |
| Engine.SnapshotShas | github_neo_4_j_sync.py:496-505 | a snapshot records no commit but its own |
| Engine.PreparedSpec | github_neo_4_j_sync.py:515-517 | the optional snapshot keeps earlier marks, records only this commit, and marks it when rollback is on |
| Engine.UpdateGraphSpec | github_neo_4_j_sync.py:508-571 | every extracted entity ends on nodes active at the commit; only that commit is recorded; earlier marks stay; with rollback the commit is marked |
| Engine.EmptyAllMarked | github_neo_4_j_sync.py:489-505 | an empty graph trivially has every recorded commit marked |
| Engine.UpdateKeepsAllMarked | github_neo_4_j_sync.py:515-517 | with rollback on, every commit recorded on a node keeps a snapshot after an update |
| Engine.RelateIntoModuleAddsNothing | github_neo_4_j_sync.py:593-597 | while Modules are nameless, a relation targeting Module finds no target and leaves the graph unchanged |
| Engine.RelateAddsNoModuleEdge | github_neo_4_j_sync.py:593-597 | while Modules are nameless, no relationship statement adds an edge into a Module |
| Engine.RelateAllAddsNoModuleEdge | github_neo_4_j_sync.py:566-567 | the same for all relations of an entity |
| Engine.WrittenNameless | github_neo_4_j_sync.py:553-554 | the SET writes `name` only when the attributes carry it |
| Engine.UpsertAddsNoModuleEdge | github_neo_4_j_sync.py:553-567 | writing an entity keeps Modules nameless and adds no edge into a Module |
| Engine.UpsertAllAddsNoModuleEdge | github_neo_4_j_sync.py:523-569 | the same for a list of entities |
| Engine.UpdateAddsNoModuleEdge | github_neo_4_j_sync.py:508-571 | a whole commit update keeps Modules nameless and adds no edge that ends at a Module node |
| Engine.RelateAddsInto | github_neo_4_j_sync.py:593-600 | a relationship statement adds only edges that end at nodes of its target label, and none into a nameless Module |
| Engine.UpdateAddsInto | github_neo_4_j_sync.py:508-571 | when every relation targets a Module or a label in a set, every edge a commit update adds ends at a node whose label is in that set |
| Engine.UpdateAddsEntityEdges | github_neo_4_j_sync.py:508-571 | when no relation targets a GraphSnapshot, every edge a commit update adds ends at a Class, Method or Subroutine node |
| Engine.MarkDeleted | github_neo_4_j_sync.py:616-629 | the node becomes deleted by the commit at the time; `old_status` holds the previous status, or "deleted" when the store reads the new value; nothing else changes |
| Engine.RemoveModule | github_neo_4_j_sync.py:616-621 | each Module node at the path ends deleted by the commit at the clock reading, with the `old_status` the store's reading gives, and its label, path and other properties intact; every other node and every relationship is unchanged |
| Engine.RemoveChildren | github_neo_4_j_sync.py:624-629 | the same marking for every node, of any label, whose path starts with `file:`; every other node and every relationship is unchanged |
| Engine.RemoveFileSpec | github_neo_4_j_sync.py:614-629 | one removed file marks exactly the nodes it reaches, keeping their labels and paths |
| Engine.DeletedFromAgain | github_neo_4_j_sync.py:614-629 | marking a node again keeps it deleted relative to the original |
| Engine.RemoveFilesSpec | github_neo_4_j_sync.py:603-631 | marks exactly the nodes some removed file reaches; no other node and no relationship changes; nothing for an empty list |
| Engine.RemoveFilesKeepsCommits | github_neo_4_j_sync.py:603-631 | removal keeps which commits are recorded and which are marked |
| Engine.RemovedStaysDeleted | github_neo_4_j_sync.py:603-631 | a removed node no later entity matches stays deleted by the commit through the update |
| Engine.RemovalSparesSiblings | github_neo_4_j_sync.py:628 | the prefix `file:` reaches `a.py` and `a.py:3` but not `a.py.bak` or `a.py.bak:3` |
| Engine.RollbackNode | github_neo_4_j_sync.py:652-662 | a node of another commit becomes rolled back, a node tagged by the target becomes active, and nothing else changes |
| Engine.Rollback | github_neo_4_j_sync.py:634-665 | succeeds exactly when rollback is enabled and the target has a snapshot; a refusal changes nothing; success rolls back every node and keeps the edges |
| Engine.RollbackIdempotent | github_neo_4_j_sync.py:634-665 | rolling back to the same commit twice is rolling back once |
| Engine.RollbackKeepsMarks | github_neo_4_j_sync.py:634-665 | rollback never removes a snapshot mark |
| Engine.SnapshotThenRollback | github_neo_4_j_sync.py:489-505 | a rollback right after a snapshot succeeds; the snapshot node and every node active before it are active again, and an inactive untagged node of another commit ends rolled back |
| Sync.ModuleExtracted | github_neo_4_j_sync.py:212-236 | every code document contributes its Module entity |
| Sync.ModuleInModulePaths | github_neo_4_j_sync.py:220-236 | a Module entity's path is among the Module paths of its list |
| Sync.CodePathsOfDocs | github_neo_4_j_sync.py:212-218 | every code path belongs to a document |
| Sync.ExtractedModuleFrom | github_neo_4_j_sync.py:201-243 | an extracted Module sits at the path of one of the documents |
| Sync.ModulesFromDocuments | github_neo_4_j_sync.py:201-243 | every extracted Module sits at a document's path |
| Sync.UpdateWritesModules | github_neo_4_j_sync.py:722-727 | after the update, every code document has a Module node, and all Module nodes at its path are active at the commit |
| Sync.Push | github_neo_4_j_sync.py:668-743 | ignored iff `hook`/`zen`; not a push iff `commits` is missing; fails iff `after` is missing, `head_commit` is `null`, or diff analysis is on and `commits` is `null`; "no changes" iff diff analysis is on, the request does not fail and no commit lists a file; only a processed push changes the graph, and it reports the commit, the number of documents, the number of extracted entities and the lengths of the added, modified and removed lists |
| Sync.PushCountsWithoutDiff | github_neo_4_j_sync.py:697-715 | without diff analysis a processed push reports zero added, modified and removed files and as many documents as the full listing yields |
| Sync.PushCountsWithDiff | github_neo_4_j_sync.py:700-737 | with diff analysis the three file counts are the numbers of distinct added, modified and removed paths |
| Sync.PushNullMembers | github_neo_4_j_sync.py:679-700 | a branch-deletion push (`head_commit` `null`) fails with the graph untouched; a `null` commit list fails with diff analysis and is synchronised without it |
| Sync.NothingListedIff | github_neo_4_j_sync.py:701-708 | all three change lists are empty exactly when no commit lists any file |
| Sync.PushWritesChangedModules | github_neo_4_j_sync.py:701-727 | with diff analysis, every added or modified code file the revision serves ends with its Module active at the pushed commit |
| Sync.PushLeavesRemovedDeleted | github_neo_4_j_sync.py:717-727 | a removed and not re-added file keeps its Module nodes deleted by the pushed commit |
| Sync.PushKeepsAllMarked | github_neo_4_j_sync.py:717-727 | with rollback on, every commit recorded on a node keeps a snapshot after a push |
| Sync.PushAddsNoModuleEdge | github_neo_4_j_sync.py:717-727 | a push keeps Modules nameless and adds no edge into a Module |
| Sync.PushAddsOnlyClassEdges | github_neo_4_j_sync.py:717-727 | every edge a push adds ends at a Class node: only a Java method's `defines_method` relation can bind |
| Sync.Run | github_neo_4_j_sync.py:801-870 | a pass ends early only at a commit that raises; a pass over recorded commits only completes and leaves the graph unchanged |
| Sync.FallbackSyncAsWritten | github_neo_4_j_sync.py:795-870 | the pass over the returned history, newest first; when every returned commit is already recorded, the graph is unchanged |
| Sync.FallbackSync | github_neo_4_j_sync.py:795-870 | the corrected pass over `Replayed` only; when the history is empty or its branch head is already recorded, the graph is unchanged, whatever older commits are new |
| Sync.RunWithoutFailures | github_neo_4_j_sync.py:834-865 | when no commit raises, the pass visits every entry in order and runs to the end |
| Sync.RunAbortedStays | github_neo_4_j_sync.py:869-870 | once an exception ends the pass, later entries change nothing |
| Sync.MarkedProcessed | github_neo_4_j_sync.py:839-844 | a marked commit counts as already processed |
| Sync.VisitMarks | github_neo_4_j_sync.py:834-865 | with rollback on, a visit keeps all recorded commits marked and leaves its own commit processed |
| Sync.StepMarks | github_neo_4_j_sync.py:834-870 | one more iteration keeps: every commit before the stop is marked, and the stop is a raising commit |
| Sync.RunMarks | github_neo_4_j_sync.py:801-870 | after a pass with rollback on, all recorded commits are marked; a completed pass has every entry marked; a pass that stopped did so at a raising, unrecorded commit after marked entries only |
| Sync.RunOverMarked | github_neo_4_j_sync.py:839-844 | a pass over commits that are all marked changes nothing |
| Sync.RunStopsAgain | github_neo_4_j_sync.py:834-870 | a raising unprocessed commit reached after marked commits ends the pass without a change |
| Sync.RerunIsNoOp | github_neo_4_j_sync.py:801-870 | a second pass over the same entries, with the same commits raising, changes nothing and stops in the same place |
| Sync.SecondPassIsNoOp | github_neo_4_j_sync.py:795-870 | with rollback on, running the (corrected) fallback pass twice is running it once, whether the first pass completes or stops at a raising commit |
| Sync.SecondPassIsNoOpAsWritten | github_neo_4_j_sync.py:795-870 | the same for the pass as written |
| Sync.WalkShas | github_neo_4_j_sync.py:834-865 | every commit recorded after a pass was recorded before or was walked |
| Sync.WalkEndsOnLast | github_neo_4_j_sync.py:834-865 | when the last walked commit is new, all its entities end on nodes active at it |
| Sync.StampedNotOther | github_neo_4_j_sync.py:530-534 | a node stamped with one commit does not carry another |
| Sync.AsWrittenEndsOnOldest | github_neo_4_j_sync.py:834-865 | as written, with several new commits, the oldest one's entities end active at it and not at the branch head |
| Sync.ReverseDistinct | github_neo_4_j_sync.py:834 | reversing the entries keeps the commits distinct |
| Sync.NewCount | github_neo_4_j_sync.py:834-844 | the entries newer than the newest recorded commit: a prefix of the history, of distinct commits none of which is recorded, that ends at a recorded or repeated commit or at the end |
| Sync.NewCountIs | github_neo_4_j_sync.py:834-844 | a prefix of distinct unrecorded commits followed by a recorded one, or by nothing, is exactly that prefix |
| Sync.ReplayedFresh | github_neo_4_j_sync.py:834-865 | the replayed entries are that prefix, oldest first, distinct and unrecorded |
| Sync.RunUntilFailure | github_neo_4_j_sync.py:801-870 | a pass that reaches the first raising commit keeps the walk of the entries before it and stops there |
| Sync.FallbackSyncEndsOnHead | github_neo_4_j_sync.py:795-870 | replayed oldest first, a new branch head leaves its entities on nodes active at the head |
| Sync.FallbackSyncKeepsRecordedHead | github_neo_4_j_sync.py:795-870 | replayed that way, an empty history, or a branch head some node already records, leaves the graph unchanged |
| SimpleWebhook.IsSimpleCodeFile | webhook_simple.py:55-58 | a path is code exactly when its lower-cased form ends with one of the ten extensions; no directory is excluded |
| SimpleWebhook.SimpleExtensionsListed | webhook_simple.py:57 | every extension the receiver accepts is listed by the service too |
| SimpleWebhook.SimpleCodeFileIsCodeFile | webhook_simple.py:55-58 | outside the excluded directories, every file the receiver accepts the service accepts too |
| SimpleWebhook.SimpleTakesExcludedDirectories | webhook_simple.py:55-58 | the receiver takes `node_modules/a.js`, which the service refuses |
| SimpleWebhook.SimpleRefusesConfiguration | webhook_simple.py:55-58 | the receiver refuses `deploy.yaml`, which the service takes |
| SimpleWebhook.Entry | webhook_simple.py:60-79 | the download yields an entry except when the file has no content; an entry names its path, and a downloaded entry's size is its content length |
| SimpleWebhook.Downloads | webhook_simple.py:109-117 | every entry belongs to a changed code file whose download yields something; there is one entry per kept position of the list, so a path listed twice is fetched twice |
| SimpleWebhook.KeptCount | webhook_simple.py:109-117 | the number of kept positions of the list is at most its length |
| SimpleWebhook.DownloadsInOrder | webhook_simple.py:109-117 | the entry of the `i`-th path, when kept, sits at the position given by the number of kept paths before it: the entries follow the list's order |
| SimpleWebhook.ListedTwiceFetchedTwice | webhook_simple.py:110-117 | a code file listed both as added and as modified gets two equal entries |
| SimpleWebhook.DownloadsComplete | webhook_simple.py:112-117 | every changed path gets an entry exactly when each is a code file whose download yields something |
| SimpleWebhook.Webhook | webhook_simple.py:81-140 | ignored iff `commits` is missing, `null` or empty; fails iff `after` is missing; otherwise reports `after`, the changed files, the last commit's message, author and timestamp, one entry per kept position of the added-then-modified list, and the counts; `code_files_downloaded` is the number of kept positions, so a path both added and modified counts twice |
| SimpleWebhook.ReportsEveryCodeFile | webhook_simple.py:109-117 | with every download succeeding, a changed added/modified path has an entry exactly when it is a code file |
| SimpleWebhook.SamplePayloadReport | test_simple.py:17-34 | for the client's sample push, the report carries commit `abc123def456789`, author "Test User", entries for src/test.py then src/main.py, and counts 3, 2 and 1 |
| SimpleWebhook.OneCommitReport | webhook_simple.py:94-139 | a push of one commit adding two files and modifying one, where the middle file is skipped, reports the other two in order and counts three changed files, two downloads and one removal |
| SimpleWebhook.OneCommitChanged | webhook_simple.py:40-53 | a single commit's change lists, without repeats, come back as listed |
| SimpleWebhook.SampleChanged | test_simple.py:28-30 | the sample's change lists are [src/test.py, docs/readme.md], [src/main.py] and [old_file.py] |
| SimpleWebhook.SamplePathsClassified | test_simple.py:28-29 | the two Python files are code, docs/readme.md is not |
| SimpleWebhook.DownloadsKeepSkipKeep | webhook_simple.py:112-117 | of three paths with the middle one dropped, the entries are those of the outer two, in order |
| SimpleWebhook.SampleDownloads | webhook_simple.py:112-117 | the sample's three changed paths give the entries of src/test.py and src/main.py |

## Left out

- **Request handling.** Signature verification, JSON parsing, the HTTP layer and
  FastAPI routing are not modelled. The handlers start from a verified, parsed payload.
  A payload whose `after` is JSON `null` is treated like a missing one. A `null` list under
  a commit's `added`, `modified` or `removed` key is read as a missing one, where Python's
  `extend(None)` raises.
- **Outside world.** Logging, `print`, counters used only in log lines, the
  GitHub/GraphQL clients and the pacing `sleep` are not modelled. The repository's files
  are the input `Revision`; a failed lookup is `None`. The receiver's download is an
  input function.
- SimpleWebhook.Downloads: `download_file_content` builds its GitHub client and calls
  `get_repo` before its `try` (webhook_simple.py:62-63). A failure there ends the whole
  request. The input `download` can only answer per file, so the model has no such outcome.
- **Clock.** The clock is a single `now` string per call; the service reads it several
  times.
- **Relationship properties.** A relationship's `created_at` and extra properties are
  not modelled. A relation's type and target label are always present; only an empty
  target name is skipped.
- **Store evaluation order.** Neo4j evaluation order for `SET n.status = ..., n.old_status = n.status`
  is the parameter `oldStatusReadsNew`; both readings are proved.
- **Exceptions in the push webhook.** Database exceptions (HTTP 500) are not modelled;
  the model assumes the store accepts every statement. The separate session of the
  removal pass is modelled as applying before the update transaction, as it does
  when both succeed.
- **Python `list(set(...))`.** The order is unspecified in Python. It is modelled as
  first-occurrence order; contracts state only membership and distinctness.
- **Stored values.** Stored `version` and `path` values are assumed to be an integer and
  a string, as this service writes them. A non-integer version or non-string path
  written by another tool is not modelled.
- **Author field.** The receiver's author is a commit's `author.name`; a `null` author
  object is not modelled.
- **Other endpoints and jobs.** The `/rollback` and `/graph/health` endpoints, the
  scheduler, `initialize_graph_constraints`, and the helper scripts around the service
  are not modelled. `rollback_to_commit` itself is.
- **LLM extraction.** The LLM part of `extract_entities_with_llm` is a placeholder in the
  source; only the heuristic scanners exist and are modelled.
- Engine.CurrentState: `result.single()` on the unordered `MATCH (n) WHERE n.path = $path`
  returns whichever record the store yields first. Several nodes can share a path, for
  instance when line 3 of `a.py` is a Class in one commit and a Subroutine in a later one.
  The model fixes the lowest node index, and that choice decides the `version` and
  `old_status` the update writes (`Engine.LookupFirst`, `Engine.UpsertWritesAt`,
  `Engine.UpsertRecordsOldStatus`).
- Text.Lower: maps the ASCII capitals and KELVIN SIGN, and keeps every other character.
  Python maps further characters (U+0130 to `i` and a combining dot, Greek and other
  capitals to their lower case), always to text ending in a non-ASCII character. Every
  use of `Lower` is a test for an ASCII extension at the end of the path, and that test
  answers the same on both forms.
- Sync.Run: an exception is modelled per commit through the `failing` set. The code
  outside the loop (the GraphQL request) is `Returned(None)`, an empty pass.

## Findings

| source | as written | input that shows it | evidently intended | confidence | as-written member | corrected member |
|---|---|---|---|---|---|---|
| github_neo_4_j_sync.py:834-865 | the fallback pass writes the history entries in the order the query returns them, newest first | history `[c2, c1]` (c2 the branch head), both new, both with `a.py`: the `a.py` Module ends active at `c1`, not at the head | the graph ends at the branch head: the commits newer than the newest recorded one are replayed oldest first | medium, not executed: depends on the GraphQL history being newest first, as GitHub documents | Sync.AsWrittenEndsOnOldest | Sync.FallbackSyncEndsOnHead |
| github_neo_4_j_sync.py:834-865 | the fallback pass visits every unrecorded entry, also those older than a recorded branch head | history `[c2, c1]`, c2 already recorded by the push webhook (which records only `after`), c1 new, both with `a.py`: the pass writes `c1` over the head, and the `a.py` Module ends active at `c1` | a pass whose branch head is recorded leaves the graph as it is | medium, not executed: depends on the GraphQL history being newest first, as GitHub documents | Sync.AsWrittenEndsOnOldest | Sync.FallbackSyncKeepsRecordedHead |
