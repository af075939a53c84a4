/**
 * The versioned graph writer (github_neo_4_j_sync.py:477-665): reading an entity's current
 * state, the rollback snapshot, the per-entity `MERGE` with version bump, relationship
 * creation, marking removed files deleted, and rollback to a snapshot. Every Cypher
 * statement becomes a function from graph to graph; the clock reading `now` is a parameter.
 */
module Engine {
  import opened Wrappers
  import opened Text
  import opened Entities
  import opened Graphs

  // ---------------------------------------------------------------------------
  // get_current_graph_state
  // ---------------------------------------------------------------------------

  /** Node `i` is the first node of `g` with `k = v`. */
  predicate FirstAt(g: Graph, k: Key, v: Value, i: nat) {
    && i < |g.nodes|
    && Has(g.nodes[i], k, v)
    && forall j :: 0 <= j < i ==> !Has(g.nodes[j], k, v)
  }

  /** `MATCH (n) WHERE n.path = $path RETURN n` and `single()`: the properties of the first
      node, of any label, at `path`, or nothing. */
  function CurrentState(g: Graph, path: string): (r: Option<Props>)
    ensures r.None? <==> forall i :: 0 <= i < |g.nodes| ==> !Has(g.nodes[i], Path, Str(path))
    ensures r.Some? ==> exists i: nat :: FirstAt(g, Path, Str(path), i) && r.value == g.nodes[i].props
  {
    match FirstWith(g.nodes, Path, Str(path), 0)
    case None => None
    case Some(i) => assert FirstAt(g, Path, Str(path), i); Some(g.nodes[i].props)
  }

  // ---------------------------------------------------------------------------
  // create_graph_snapshot
  // ---------------------------------------------------------------------------

  predicate Active(n: Node) {
    Has(n, Status, Str(ACTIVE))
  }

  /** Some GraphSnapshot node records commit `sha`: what rollback_to_commit looks for. */
  predicate Marked(g: Graph, sha: string) {
    exists i :: 0 <= i < |g.nodes| && Matches(g.nodes[i], GraphSnapshot, CommitSha, Str(sha))
  }

  /** `n` after `SET n.snapshot_sha = $sha` on the nodes that were active: an active node gains
      the tag and keeps every other property; any other node is untouched. */
  predicate TaggedFrom(before: Node, after: Node, sha: string) {
    if Active(before) then
      && after.kind == before.kind
      && after.props.Keys == before.props.Keys + {SnapshotSha}
      && Has(after, SnapshotSha, Str(sha))
      && (forall k :: k in before.props && k != SnapshotSha ==> after.props[k] == before.props[k])
    else after == before
  }

  function Tag(n: Node, sha: string): (r: Node)
    ensures TaggedFrom(n, r, sha)
  {
    if Active(n) then Node(n.kind, n.props[SnapshotSha := Str(sha)]) else n
  }

  function SnapshotNode(sha: string, now: string): Node {
    Node(GraphSnapshot, map[CommitSha := Str(sha), Timestamp := Str(now), Status := Str(ACTIVE)])
  }

  /** create_graph_snapshot (github_neo_4_j_sync.py:489-505): a new active GraphSnapshot node
      for `sha`, then every active node, the new one included, is tagged with `sha`. */
  function Snapshot(g: Graph, sha: string, now: string): (r: Graph)
    ensures r.edges == g.edges
    ensures |r.nodes| == |g.nodes| + 1
    ensures forall i :: 0 <= i < |g.nodes| ==> TaggedFrom(g.nodes[i], r.nodes[i], sha)
    ensures r.nodes[|g.nodes|].kind == GraphSnapshot && Active(r.nodes[|g.nodes|])
    ensures Has(r.nodes[|g.nodes|], CommitSha, Str(sha)) && Has(r.nodes[|g.nodes|], SnapshotSha, Str(sha))
    ensures Marked(r, sha)
  {
    var nodes := g.nodes + [SnapshotNode(sha, now)];
    var r := Graph(seq(|nodes|, i requires 0 <= i < |nodes| => Tag(nodes[i], sha)), g.edges);
    assert Matches(r.nodes[|g.nodes|], GraphSnapshot, CommitSha, Str(sha));
    r
  }

  // ---------------------------------------------------------------------------
  // update_graph_smart: one entity
  // ---------------------------------------------------------------------------

  /** `attrs.update({commit_sha, last_updated, status: 'active'})`. */
  function Stamp(e: Entity, sha: string, now: string): Props {
    e.attrs + map[CommitSha := Str(sha), LastUpdated := Str(now), Status := Str(ACTIVE)]
  }

  /** `current_state.get("version", 0)`; a stored version is always an integer. */
  function VersionOf(p: Props): int {
    if Version in p && p[Version].Int? then p[Version].i else 0
  }

  /** `current_state.get("status", "unknown")`. */
  function StatusOf(p: Props): Value {
    if Status in p then p[Status] else Str(UNKNOWN)
  }

  /** The version `attrs` receives: one past the stored one for an entity already in the
      graph, 1 for a new one. */
  function NextVersion(current: Option<Props>): int {
    match current
    case Some(prev) => VersionOf(prev) + 1
    case None => 1
  }

  /** The attributes written for an entity: stamped, versioned, and for an update recording
      the status it replaces. */
  function Versioned(attrs: Props, current: Option<Props>): (r: Props)
    ensures r.Keys == attrs.Keys + {Version} + (if current.Some? then {OldStatus} else {})
    ensures r[Version] == Int(NextVersion(current))
    ensures current.Some? ==> r[OldStatus] == StatusOf(current.value)
    ensures forall k :: k in attrs && k != Version && k != OldStatus ==> r[k] == attrs[k]
  {
    match current
    case Some(prev) => attrs[Version := Int(VersionOf(prev) + 1)][OldStatus := StatusOf(prev)]
    case None => attrs[Version := Int(1)]
  }

  /** The state the update reads: only an entity with a (non-empty) path is looked up. */
  function Lookup(g: Graph, e: Entity): Option<Props> {
    if PathOf(e.attrs) != "" then CurrentState(g, PathOf(e.attrs)) else None
  }

  /** The property the `MERGE` is keyed on: the path when there is one, else the name, where
      an attribute `name` takes precedence over the entity's name (`{"name": name, **attrs}`). */
  function MergeKey(e: Entity): Key {
    if PathOf(e.attrs) != "" then Path else Name
  }

  function MergeValue(e: Entity): Value {
    if PathOf(e.attrs) != "" then Str(PathOf(e.attrs))
    else if Name in e.attrs then e.attrs[Name]
    else Str(e.name)
  }

  /** The attributes the entity's `SET` writes. */
  function Written(g: Graph, e: Entity, sha: string, now: string): Props {
    Versioned(Stamp(e, sha, now), Lookup(g, e))
  }

  /** The written attributes agree with the `MERGE` pattern, so the merged node keeps matching. */
  lemma WrittenKeepsKey(g: Graph, e: Entity, sha: string, now: string)
    ensures var attrs := Written(g, e, sha, now);
            MergeKey(e) !in attrs || attrs[MergeKey(e)] == MergeValue(e)
  {
  }

  /** The node write for one entity, before its relations. */
  function MergeEntity(g: Graph, e: Entity, sha: string, now: string): Graph {
    Merge(g, e.kind, MergeKey(e), MergeValue(e), Written(g, e, sha, now))
  }

  // ---------------------------------------------------------------------------
  // create_relationship
  // ---------------------------------------------------------------------------

  /** Node `i` matches `(a:label {name: $name})`. */
  predicate Named(g: Graph, i: nat, lbl: Label, name: string) {
    i < |g.nodes| && Matches(g.nodes[i], lbl, Name, Str(name))
  }

  /** Edge `x` is one the relationship statement for `rel` from (`from`, `fromName`) asks for. */
  predicate Requested(g: Graph, from: Label, fromName: string, rel: Relation, x: Edge) {
    && rel.toName != ""
    && x.rel == rel.relType
    && Named(g, x.src, from, fromName)
    && Named(g, x.dst, rel.toLabel, rel.toName)
  }

  /** create_relationship (github_neo_4_j_sync.py:574-600): a relation with an empty target
      name is skipped; otherwise `MATCH (a:from {name}), (b:to {name}) MERGE (a)-[:type]->(b)`
      joins every matching pair, once. */
  function Relate(g: Graph, from: Label, fromName: string, rel: Relation): (r: Graph)
    ensures r.nodes == g.nodes
    ensures forall x :: x in r.edges <==> x in g.edges || Requested(g, from, fromName, rel, x)
  {
    if rel.toName == "" then g
    else
      var added := set a, b | 0 <= a < |g.nodes| && 0 <= b < |g.nodes|
                               && Matches(g.nodes[a], from, Name, Str(fromName))
                               && Matches(g.nodes[b], rel.toLabel, Name, Str(rel.toName)) :: Edge(a, rel.relType, b);
      Graph(g.nodes, g.edges + added)
  }

  /** Running the same relationship statement twice is running it once. */
  lemma RelateIdempotent(g: Graph, from: Label, fromName: string, rel: Relation)
    ensures Relate(Relate(g, from, fromName, rel), from, fromName, rel) == Relate(g, from, fromName, rel)
  {
    var r := Relate(g, from, fromName, rel);
    var r2 := Relate(r, from, fromName, rel);
    assert r2.edges == r.edges;
  }

  /** The relations of one entity, in order. */
  function RelateAll(g: Graph, from: Label, fromName: string, rels: seq<Relation>): (r: Graph)
    decreases |rels|
    ensures r.nodes == g.nodes
    ensures g.edges <= r.edges
  {
    if |rels| == 0 then g
    else RelateAll(Relate(g, from, fromName, rels[0]), from, fromName, rels[1..])
  }

  /** The relations only ever add edges between existing nodes. */
  lemma {:induction false} RelateAllWellformed(g: Graph, from: Label, fromName: string, rels: seq<Relation>)
    decreases |rels|
    requires Wellformed(g)
    ensures Wellformed(RelateAll(g, from, fromName, rels))
  {
    if |rels| > 0 {
      var g1 := Relate(g, from, fromName, rels[0]);
      assert Wellformed(g1) by {
        forall x | x in g1.edges ensures x.src < |g1.nodes| && x.dst < |g1.nodes| {
          if x !in g.edges {
            assert Requested(g, from, fromName, rels[0], x);
          }
        }
      }
      RelateAllWellformed(g1, from, fromName, rels[1..]);
    }
  }

  // ---------------------------------------------------------------------------
  // update_graph_smart
  // ---------------------------------------------------------------------------

  /** The loop body of update_graph_smart (github_neo_4_j_sync.py:523-569): merge the entity's
      node, then create its relations. */
  function Upsert(g: Graph, e: Entity, sha: string, now: string): (r: Graph)
    ensures r.nodes == MergeEntity(g, e, sha, now).nodes
    ensures g.edges <= r.edges
  {
    RelateAll(MergeEntity(g, e, sha, now), e.kind, e.name, e.relations)
  }

  function UpsertAll(g: Graph, ents: seq<Entity>, sha: string, now: string): (r: Graph)
    decreases |ents|
    ensures |g.nodes| <= |r.nodes|
    ensures g.edges <= r.edges
  {
    if |ents| == 0 then g
    else UpsertAll(Upsert(g, ents[0], sha, now), ents[1..], sha, now)
  }

  /** What the write leaves on an entity's node: the commit, the clock reading, status active,
      the expected version, and every attribute of the entity other than those. */
  predicate StampedWith(n: Node, e: Entity, sha: string, now: string, version: int) {
    && n.kind == e.kind
    && Has(n, CommitSha, Str(sha)) && Active(n) && Has(n, LastUpdated, Str(now))
    && Has(n, Version, Int(version))
    && forall k :: k in e.attrs && k != CommitSha && k != LastUpdated && k != Status && k != Version && k != OldStatus
         ==> k in n.props && n.props[k] == e.attrs[k]
  }

  /** The nodes an entity's `MERGE` pattern matches. */
  predicate Keyed(n: Node, e: Entity) {
    Matches(n, e.kind, MergeKey(e), MergeValue(e))
  }

  /** Whatever a node held before, setting the written attributes stamps it. */
  lemma WrittenStamps(g: Graph, e: Entity, sha: string, now: string, before: Props)
    ensures StampedWith(Node(e.kind, before + Written(g, e, sha, now)), e, sha, now, NextVersion(Lookup(g, e)))
  {
    VersionedStamps(e, sha, now, Lookup(g, e), before);
  }

  /** The stamp and version survive any properties the node held before. */
  lemma VersionedStamps(e: Entity, sha: string, now: string, current: Option<Props>, before: Props)
    ensures StampedWith(Node(e.kind, before + Versioned(Stamp(e, sha, now), current)), e, sha, now, NextVersion(current))
  {
    var st := Stamp(e, sha, now);
    var w := Versioned(st, current);
    var n := Node(e.kind, before + w);
    StampValues(e, sha, now);
    OverrideKeeps(before, w, CommitSha);
    OverrideKeeps(before, w, LastUpdated);
    OverrideKeeps(before, w, Status);
    OverrideKeeps(before, w, Version);
    forall k | k in e.attrs && k != CommitSha && k != LastUpdated && k != Status && k != Version && k != OldStatus
      ensures k in n.props && n.props[k] == e.attrs[k]
    {
      OverrideKeeps(before, w, k);
    }
  }

  /** The stamp carries the commit, the clock reading and status active over the entity's
      own attributes. */
  lemma StampValues(e: Entity, sha: string, now: string)
    ensures var st := Stamp(e, sha, now);
            && CommitSha in st && st[CommitSha] == Str(sha)
            && LastUpdated in st && st[LastUpdated] == Str(now)
            && Status in st && st[Status] == Str(ACTIVE)
            && forall k :: k in e.attrs && k != CommitSha && k != LastUpdated && k != Status ==> k in st && st[k] == e.attrs[k]
  {
  }

  /** `before + w` takes every key of `w` from `w`. */
  lemma OverrideKeeps(before: Props, w: Props, k: Key)
    requires k in w
    ensures k in before + w && (before + w)[k] == w[k]
  {
  }


  /** The nodes the entity's pattern matches after its `MERGE` are exactly the ones it matched
      before, or the one created when there was none. */
  lemma UpsertMatches(g: Graph, e: Entity, sha: string, now: string)
    ensures var r := Upsert(g, e, sha, now);
            MatchSet(r, e.kind, MergeKey(e), MergeValue(e))
              == if AnyMatch(g, e.kind, MergeKey(e), MergeValue(e)) then MatchSet(g, e.kind, MergeKey(e), MergeValue(e)) else {|g.nodes|}
  {
    WrittenKeepsKey(g, e, sha, now);
    MergeMatches(g, e.kind, MergeKey(e), MergeValue(e), Written(g, e, sha, now));
  }

  /** After the write, the entity's pattern matches some node, and every node it matches
      carries the commit and the next version: one past the stored version of the first node at
      the entity's path, or 1. */
  lemma UpsertWrites(g: Graph, e: Entity, sha: string, now: string)
    ensures var r := Upsert(g, e, sha, now);
            && (exists i :: 0 <= i < |r.nodes| && Keyed(r.nodes[i], e))
            && (forall i :: 0 <= i < |r.nodes| && Keyed(r.nodes[i], e) ==>
                  StampedWith(r.nodes[i], e, sha, now, NextVersion(Lookup(g, e))))
  {
    var r := Upsert(g, e, sha, now);
    var attrs := Written(g, e, sha, now);
    UpsertMatches(g, e, sha, now);
    if AnyMatch(g, e.kind, MergeKey(e), MergeValue(e)) {
      var j :| 0 <= j < |g.nodes| && Matches(g.nodes[j], e.kind, MergeKey(e), MergeValue(e));
      assert j in MatchSet(g, e.kind, MergeKey(e), MergeValue(e));
      assert Keyed(r.nodes[j], e);
    } else {
      assert |g.nodes| in MatchSet(r, e.kind, MergeKey(e), MergeValue(e));
    }
    forall i | 0 <= i < |r.nodes| && Keyed(r.nodes[i], e)
      ensures StampedWith(r.nodes[i], e, sha, now, NextVersion(Lookup(g, e)))
    {
      UpsertWritesAt(g, e, sha, now, i);
    }
  }

  /** The stamp on one node the pattern matches after the write. */
  lemma UpsertWritesAt(g: Graph, e: Entity, sha: string, now: string, i: nat)
    requires i < |Upsert(g, e, sha, now).nodes| && Keyed(Upsert(g, e, sha, now).nodes[i], e)
    ensures StampedWith(Upsert(g, e, sha, now).nodes[i], e, sha, now, NextVersion(Lookup(g, e)))
    ensures Lookup(g, e).Some? ==> Has(Upsert(g, e, sha, now).nodes[i], OldStatus, StatusOf(Lookup(g, e).value))
  {
    var r := Upsert(g, e, sha, now);
    UpsertMatches(g, e, sha, now);
    assert i in MatchSet(r, e.kind, MergeKey(e), MergeValue(e));
    if i < |g.nodes| {
      assert Matches(g.nodes[i], e.kind, MergeKey(e), MergeValue(e));
      WrittenStamps(g, e, sha, now, g.nodes[i].props);
    } else {
      WrittenStamps(g, e, sha, now, map[MergeKey(e) := MergeValue(e)]);
    }
  }

  /** The write touches no node its pattern does not match, and creates a node exactly when
      the pattern matched none. */
  lemma UpsertFrame(g: Graph, e: Entity, sha: string, now: string)
    ensures var r := Upsert(g, e, sha, now);
            && (forall i :: 0 <= i < |g.nodes| && !Keyed(g.nodes[i], e) ==> r.nodes[i] == g.nodes[i])
            && |r.nodes| == |g.nodes| + (if exists i :: 0 <= i < |g.nodes| && Keyed(g.nodes[i], e) then 0 else 1)
  {
  }

  /** An update records, as `old_status`, the status of the first node at the entity's path. */
  lemma UpsertRecordsOldStatus(g: Graph, e: Entity, sha: string, now: string)
    requires Lookup(g, e).Some?
    ensures var r := Upsert(g, e, sha, now);
            forall i :: 0 <= i < |r.nodes| && Keyed(r.nodes[i], e) ==>
              Has(r.nodes[i], OldStatus, StatusOf(Lookup(g, e).value))
  {
    var r := Upsert(g, e, sha, now);
    forall i | 0 <= i < |r.nodes| && Keyed(r.nodes[i], e)
      ensures Has(r.nodes[i], OldStatus, StatusOf(Lookup(g, e).value))
    {
      UpsertWritesAt(g, e, sha, now, i);
    }
  }

  /** An entity whose key at most one node matched is matched by exactly one node afterwards:
      re-syncing a file never duplicates its nodes. */
  lemma UpsertKeepsUnique(g: Graph, e: Entity, sha: string, now: string)
    requires |MatchSet(g, e.kind, MergeKey(e), MergeValue(e))| <= 1
    ensures |MatchSet(Upsert(g, e, sha, now), e.kind, MergeKey(e), MergeValue(e))| == 1
  {
    WrittenKeepsKey(g, e, sha, now);
    MergeKeepsUnique(g, e.kind, MergeKey(e), MergeValue(e), Written(g, e, sha, now));
  }

  /** `after` is `before` brought back by commit `sha`: active, one version on, remembering
      that it had been deleted. */
  predicate Revived(before: Node, after: Node, sha: string) {
    && Active(after) && Has(after, CommitSha, Str(sha))
    && Has(after, Version, Int(VersionOf(before.props) + 1))
    && Has(after, OldStatus, Str(DELETED))
  }

  /** A deleted node that is extracted again, as the first node at its path, comes back active
      at its commit with its version bumped and `old_status` recording the deletion. */
  lemma UpsertRevives(g: Graph, e: Entity, sha: string, now: string, i: nat)
    requires PathOf(e.attrs) != ""
    requires FirstAt(g, Path, Str(PathOf(e.attrs)), i) && g.nodes[i].kind == e.kind
    requires Has(g.nodes[i], Status, Str(DELETED))
    ensures |Upsert(g, e, sha, now).nodes| == |g.nodes|
    ensures Revived(g.nodes[i], Upsert(g, e, sha, now).nodes[i], sha)
  {
    assert Keyed(g.nodes[i], e);
    UpsertNodeAt(g, e, sha, now, i);
    WriteRevives(g, e, sha, now, i);
  }

  /** The attributes written over the first node at the entity's path revive it. */
  lemma WriteRevives(g: Graph, e: Entity, sha: string, now: string, i: nat)
    requires PathOf(e.attrs) != ""
    requires FirstAt(g, Path, Str(PathOf(e.attrs)), i) && g.nodes[i].kind == e.kind
    requires Has(g.nodes[i], Status, Str(DELETED))
    ensures Revived(g.nodes[i], Node(e.kind, g.nodes[i].props + Written(g, e, sha, now)), sha)
  {
    LookupFirst(g, e, i);
    WrittenStamps(g, e, sha, now, g.nodes[i].props);
    WrittenRecordsStatus(g, e, sha, now, g.nodes[i].props);
    StampedRevived(g.nodes[i], Node(e.kind, g.nodes[i].props + Written(g, e, sha, now)), e, sha, now);
  }

  /** A node the pattern matches takes the written attributes in place; no node is created. */
  lemma UpsertNodeAt(g: Graph, e: Entity, sha: string, now: string, i: nat)
    requires i < |g.nodes| && Keyed(g.nodes[i], e)
    ensures |Upsert(g, e, sha, now).nodes| == |g.nodes|
    ensures Upsert(g, e, sha, now).nodes[i] == Node(e.kind, g.nodes[i].props + Written(g, e, sha, now))
  {
    assert AnyMatch(g, e.kind, MergeKey(e), MergeValue(e));
  }

  /** An update writes, as `old_status`, the status it read. */
  lemma WrittenRecordsStatus(g: Graph, e: Entity, sha: string, now: string, before: Props)
    requires Lookup(g, e).Some?
    ensures Has(Node(e.kind, before + Written(g, e, sha, now)), OldStatus, StatusOf(Lookup(g, e).value))
  {
    OverrideKeeps(before, Written(g, e, sha, now), OldStatus);
  }

  lemma StampedRevived(before: Node, after: Node, e: Entity, sha: string, now: string)
    requires StampedWith(after, e, sha, now, VersionOf(before.props) + 1)
    requires Has(before, Status, Str(DELETED)) && Has(after, OldStatus, StatusOf(before.props))
    ensures Revived(before, after, sha)
  {
  }

  /** The first node with a property value is unique. */
  lemma FirstAtUnique(g: Graph, k: Key, v: Value, i: nat, j: nat)
    requires FirstAt(g, k, v, i) && FirstAt(g, k, v, j)
    ensures i == j
  {
  }

  /** The update reads the first node at the entity's path. */
  lemma LookupFirst(g: Graph, e: Entity, i: nat)
    requires PathOf(e.attrs) != "" && FirstAt(g, Path, Str(PathOf(e.attrs)), i)
    ensures Lookup(g, e) == Some(g.nodes[i].props)
  {
    var j: nat :| FirstAt(g, Path, Str(PathOf(e.attrs)), j) && Lookup(g, e).value == g.nodes[j].props;
    FirstAtUnique(g, Path, Str(PathOf(e.attrs)), i, j);
  }

  /** The write of an entity that is not a GraphSnapshot keeps every snapshot mark. */
  lemma UpsertKeepsMarks(g: Graph, e: Entity, sha: string, now: string, s: string)
    requires e.kind != GraphSnapshot && Marked(g, s)
    ensures Marked(Upsert(g, e, sha, now), s)
  {
    var i :| 0 <= i < |g.nodes| && Matches(g.nodes[i], GraphSnapshot, CommitSha, Str(s));
    UpsertWrites(g, e, sha, now);
    assert !Keyed(g.nodes[i], e);
    assert Matches(Upsert(g, e, sha, now).nodes[i], GraphSnapshot, CommitSha, Str(s));
  }

  /** update_graph_smart (github_neo_4_j_sync.py:508-571): a snapshot when rollback is enabled,
      then every entity in order. */
  function UpdateGraph(g: Graph, ents: seq<Entity>, sha: string, now: string, rollback: bool): Graph {
    UpsertAll(Prepared(g, sha, now, rollback), ents, sha, now)
  }

  /** Some node carries commit `sha`: the test fallback_sync uses to skip a commit. */
  predicate Processed(g: Graph, sha: string) {
    exists i :: 0 <= i < |g.nodes| && Has(g.nodes[i], CommitSha, Str(sha))
  }

  /** Every commit recorded on a node of `r` is `sha` or was already recorded in `g`. */
  ghost predicate ShasWithin(g: Graph, r: Graph, sha: string) {
    forall i, s :: 0 <= i < |r.nodes| && Has(r.nodes[i], CommitSha, Str(s)) ==> s == sha || Processed(g, s)
  }

  /** Some node matches the entity's `MERGE` pattern. */
  predicate Present(g: Graph, e: Entity) {
    exists i :: 0 <= i < |g.nodes| && Keyed(g.nodes[i], e)
  }

  /** Every node the entity's pattern matches is active at commit `sha`. */
  predicate AllStamped(g: Graph, e: Entity, sha: string) {
    forall i :: 0 <= i < |g.nodes| && Keyed(g.nodes[i], e) ==> Has(g.nodes[i], CommitSha, Str(sha)) && Active(g.nodes[i])
  }

  predicate NoSnapshots(ents: seq<Entity>) {
    forall e :: e in ents ==> e.kind != GraphSnapshot
  }

  predicate Pathed(ents: seq<Entity>) {
    forall e :: e in ents ==> PathOf(e.attrs) != ""
  }

  /** A node the pattern matched before still matches, and one it did not match is untouched. */
  lemma UpsertNodeCases(g: Graph, e: Entity, sha: string, now: string, i: nat)
    requires i < |Upsert(g, e, sha, now).nodes|
    ensures var r := Upsert(g, e, sha, now);
            && (i < |g.nodes| && Keyed(g.nodes[i], e) ==> Keyed(r.nodes[i], e))
            && (i < |g.nodes| && !Keyed(g.nodes[i], e) ==> r.nodes[i] == g.nodes[i])
            && (i >= |g.nodes| ==> Keyed(r.nodes[i], e))
  {
    var r := Upsert(g, e, sha, now);
    UpsertMatches(g, e, sha, now);
    UpsertFrame(g, e, sha, now);
    if i < |g.nodes| && Keyed(g.nodes[i], e) {
      assert i in MatchSet(g, e.kind, MergeKey(e), MergeValue(e));
      assert i in MatchSet(r, e.kind, MergeKey(e), MergeValue(e));
    }
    if i >= |g.nodes| {
      assert !AnyMatch(g, e.kind, MergeKey(e), MergeValue(e));
      assert i in MatchSet(r, e.kind, MergeKey(e), MergeValue(e));
    }
  }

  /** The write of one entity records no commit but its own. */
  lemma UpsertShas(g: Graph, e: Entity, sha: string, now: string)
    ensures ShasWithin(g, Upsert(g, e, sha, now), sha)
  {
    var r := Upsert(g, e, sha, now);
    forall i, s | 0 <= i < |r.nodes| && Has(r.nodes[i], CommitSha, Str(s)) ensures s == sha || Processed(g, s) {
      UpsertNodeCases(g, e, sha, now, i);
      if Keyed(r.nodes[i], e) {
        UpsertWritesAt(g, e, sha, now, i);
      } else {
        assert Has(g.nodes[i], CommitSha, Str(s));
      }
    }
  }

  /** Writing another entity at the same commit keeps an entity's nodes stamped. */
  lemma UpsertKeepsStamped(g: Graph, e: Entity, other: Entity, sha: string, now: string)
    requires AllStamped(g, e, sha)
    ensures AllStamped(Upsert(g, other, sha, now), e, sha)
  {
    var r := Upsert(g, other, sha, now);
    forall i | 0 <= i < |r.nodes| && Keyed(r.nodes[i], e) ensures Has(r.nodes[i], CommitSha, Str(sha)) && Active(r.nodes[i]) {
      UpsertNodeCases(g, other, sha, now, i);
      if Keyed(r.nodes[i], other) {
        UpsertWritesAt(g, other, sha, now, i);
      }
    }
  }

  /** Writing another entity that has a path keeps an entity with a path present. */
  lemma UpsertKeepsPresent(g: Graph, e: Entity, other: Entity, sha: string, now: string)
    requires PathOf(e.attrs) != "" && PathOf(other.attrs) != ""
    requires Present(g, e)
    ensures Present(Upsert(g, other, sha, now), e)
  {
    var r := Upsert(g, other, sha, now);
    var i :| 0 <= i < |g.nodes| && Keyed(g.nodes[i], e);
    UpsertNodeCases(g, other, sha, now, i);
    if Keyed(g.nodes[i], other) {
      UpsertWritesAt(g, other, sha, now, i);
      assert r.nodes[i].props[Path] == other.attrs[Path];
    }
    assert Keyed(r.nodes[i], e);
  }

  /** The entities written after an entity keep it present and stamped. */
  lemma {:induction false} UpsertAllKeeps(g: Graph, ents: seq<Entity>, e: Entity, sha: string, now: string)
    requires Pathed(ents) && PathOf(e.attrs) != ""
    requires Present(g, e) && AllStamped(g, e, sha)
    decreases |ents|
    ensures Present(UpsertAll(g, ents, sha, now), e) && AllStamped(UpsertAll(g, ents, sha, now), e, sha)
  {
    if |ents| > 0 {
      assert ents[0] in ents;
      UpsertKeepsPresent(g, e, ents[0], sha, now);
      UpsertKeepsStamped(g, e, ents[0], sha, now);
      assert Pathed(ents[1..]) by {
        forall x | x in ents[1..] ensures PathOf(x.attrs) != "" {
          assert x in ents;
        }
      }
      UpsertAllKeeps(Upsert(g, ents[0], sha, now), ents[1..], e, sha, now);
    }
  }

  /** After the entities of a commit are written, every one of them with a path has a node, and
      every node its pattern matches is active at that commit: later entities of the same
      commit never undo an earlier one. */
  lemma {:induction false} UpsertAllStamps(g: Graph, ents: seq<Entity>, sha: string, now: string)
    requires Pathed(ents)
    decreases |ents|
    ensures forall e :: e in ents ==>
              Present(UpsertAll(g, ents, sha, now), e) && AllStamped(UpsertAll(g, ents, sha, now), e, sha)
  {
    if |ents| > 0 {
      var g1 := Upsert(g, ents[0], sha, now);
      var r := UpsertAll(g, ents, sha, now);
      assert Pathed(ents[1..]) by {
        forall x | x in ents[1..] ensures PathOf(x.attrs) != "" {
          assert x in ents;
        }
      }
      UpsertAllStamps(g1, ents[1..], sha, now);
      assert ents[0] in ents;
      UpsertWrites(g, ents[0], sha, now);
      UpsertAllKeeps(g1, ents[1..], ents[0], sha, now);
      forall e | e in ents ensures Present(r, e) && AllStamped(r, e, sha) {
        if e != ents[0] {
          assert e in ents[1..];
        }
      }
    }
  }

  /** A node that no entity's pattern matches is left alone by the writes of the entities. */
  lemma {:induction false} UpsertAllFrame(g: Graph, ents: seq<Entity>, sha: string, now: string, i: nat)
    requires i < |g.nodes|
    requires forall e :: e in ents ==> !Keyed(g.nodes[i], e)
    decreases |ents|
    ensures UpsertAll(g, ents, sha, now).nodes[i] == g.nodes[i]
  {
    if |ents| > 0 {
      var g1 := Upsert(g, ents[0], sha, now);
      assert ents[0] in ents;
      UpsertFrame(g, ents[0], sha, now);
      assert g1.nodes[i] == g.nodes[i];
      assert forall e :: e in ents[1..] ==> e in ents;
      UpsertAllFrame(g1, ents[1..], sha, now, i);
    }
  }

  /** The writes of a commit record no commit but their own. */
  lemma {:induction false} UpsertAllShas(g: Graph, ents: seq<Entity>, sha: string, now: string)
    decreases |ents|
    ensures ShasWithin(g, UpsertAll(g, ents, sha, now), sha)
  {
    if |ents| > 0 {
      var g1 := Upsert(g, ents[0], sha, now);
      var r := UpsertAll(g, ents, sha, now);
      UpsertShas(g, ents[0], sha, now);
      UpsertAllShas(g1, ents[1..], sha, now);
      ShasWithinTrans(g, g1, r, sha);
    }
  }

  lemma ShasWithinTrans(a: Graph, b: Graph, c: Graph, sha: string)
    requires ShasWithin(a, b, sha) && ShasWithin(b, c, sha)
    ensures ShasWithin(a, c, sha)
  {
    forall i, s | 0 <= i < |c.nodes| && Has(c.nodes[i], CommitSha, Str(s)) ensures s == sha || Processed(a, s) {
      if s != sha {
        var j :| 0 <= j < |b.nodes| && Has(b.nodes[j], CommitSha, Str(s));
      }
    }
  }

  /** The writes of entities that are not GraphSnapshots keep every snapshot mark. */
  lemma {:induction false} UpsertAllKeepsMarks(g: Graph, ents: seq<Entity>, sha: string, now: string, s: string)
    requires NoSnapshots(ents) && Marked(g, s)
    decreases |ents|
    ensures Marked(UpsertAll(g, ents, sha, now), s)
  {
    if |ents| > 0 {
      assert ents[0] in ents;
      UpsertKeepsMarks(g, ents[0], sha, now, s);
      assert NoSnapshots(ents[1..]) by {
        forall x | x in ents[1..] ensures x.kind != GraphSnapshot {
          assert x in ents;
        }
      }
      UpsertAllKeepsMarks(Upsert(g, ents[0], sha, now), ents[1..], sha, now, s);
    }
  }

  /** A snapshot records no commit but its own. */
  lemma SnapshotShas(g: Graph, sha: string, now: string)
    ensures ShasWithin(g, Snapshot(g, sha, now), sha)
  {
    var r := Snapshot(g, sha, now);
    forall i, s | 0 <= i < |r.nodes| && Has(r.nodes[i], CommitSha, Str(s)) ensures s == sha || Processed(g, s) {
      if i < |g.nodes| {
        assert TaggedFrom(g.nodes[i], r.nodes[i], sha);
        assert Has(g.nodes[i], CommitSha, Str(s));
      }
    }
  }

  /** The graph the entities of an update are written to. */
  function Prepared(g: Graph, sha: string, now: string, rollback: bool): Graph {
    if rollback then Snapshot(g, sha, now) else g
  }

  lemma PreparedSpec(g: Graph, sha: string, now: string, rollback: bool)
    ensures ShasWithin(g, Prepared(g, sha, now, rollback), sha)
    ensures forall s :: Marked(g, s) ==> Marked(Prepared(g, sha, now, rollback), s)
    ensures rollback ==> Marked(Prepared(g, sha, now, rollback), sha)
  {
    var g0 := Prepared(g, sha, now, rollback);
    if rollback {
      SnapshotShas(g, sha, now);
      forall s | Marked(g, s) ensures Marked(g0, s) {
        var i :| 0 <= i < |g.nodes| && Matches(g.nodes[i], GraphSnapshot, CommitSha, Str(s));
        assert TaggedFrom(g.nodes[i], g0.nodes[i], sha);
        assert Matches(g0.nodes[i], GraphSnapshot, CommitSha, Str(s));
      }
    }
  }

  /** The commit update: every entity with a path ends up on nodes active at the commit, the
      only commit it records is its own, it keeps the marks of earlier snapshots, and with
      rollback enabled the commit itself is marked. */
  lemma UpdateGraphSpec(g: Graph, ents: seq<Entity>, sha: string, now: string, rollback: bool)
    requires Pathed(ents) && NoSnapshots(ents)
    ensures var r := UpdateGraph(g, ents, sha, now, rollback);
            && (forall e :: e in ents ==> Present(r, e) && AllStamped(r, e, sha))
            && ShasWithin(g, r, sha)
            && (forall s :: Marked(g, s) ==> Marked(r, s))
            && (rollback ==> Marked(r, sha))
  {
    var g0 := Prepared(g, sha, now, rollback);
    var r := UpdateGraph(g, ents, sha, now, rollback);
    assert r == UpsertAll(g0, ents, sha, now);
    PreparedSpec(g, sha, now, rollback);
    UpsertAllStamps(g0, ents, sha, now);
    UpsertAllShas(g0, ents, sha, now);
    ShasWithinTrans(g, g0, r, sha);
    forall s | Marked(g0, s) ensures Marked(r, s) {
      UpsertAllKeepsMarks(g0, ents, sha, now, s);
    }
  }

  /** Every commit recorded on a node has its snapshot: the state that a sync with rollback
      enabled keeps, and on which "already processed" means "marked". */
  ghost predicate AllMarked(g: Graph) {
    forall s :: Processed(g, s) ==> Marked(g, s)
  }

  lemma EmptyAllMarked()
    ensures AllMarked(EmptyGraph)
  {
  }

  /** An update with rollback enabled keeps every recorded commit marked. */
  lemma UpdateKeepsAllMarked(g: Graph, ents: seq<Entity>, sha: string, now: string)
    requires Pathed(ents) && NoSnapshots(ents) && AllMarked(g)
    ensures AllMarked(UpdateGraph(g, ents, sha, now, true))
  {
    var r := UpdateGraph(g, ents, sha, now, true);
    UpdateGraphSpec(g, ents, sha, now, true);
    forall s | Processed(r, s) ensures Marked(r, s) {
      var i :| 0 <= i < |r.nodes| && Has(r.nodes[i], CommitSha, Str(s));
    }
  }

  // ---------------------------------------------------------------------------
  // Relations into modules
  // ---------------------------------------------------------------------------

  /** No Module node carries a `name`: the attributes written for a Module hold none, and the
      `SET` writes attribute keys only (github_neo_4_j_sync.py:553-563). */
  ghost predicate ModulesNameless(g: Graph) {
    forall i :: 0 <= i < |g.nodes| && g.nodes[i].kind == Module ==> Name !in g.nodes[i].props
  }

  /** Every Module entity has a path and no `name` attribute. */
  predicate NamelessModules(ents: seq<Entity>) {
    forall e :: e in ents && e.kind == Module ==> Name !in e.attrs && PathOf(e.attrs) != ""
  }

  /** No node disappears and every node keeps its label. */
  ghost predicate KindsKept(g: Graph, r: Graph) {
    |g.nodes| <= |r.nodes| && forall i :: 0 <= i < |g.nodes| ==> r.nodes[i].kind == g.nodes[i].kind
  }

  /** Every edge of `r` that `g` lacks ends at a node of `r` that is not a Module. */
  ghost predicate NoModuleEdgeAdded(g: Graph, r: Graph) {
    forall x :: x in r.edges && x !in g.edges ==> x.dst < |r.nodes| && r.nodes[x.dst].kind != Module
  }

  /** A relationship statement whose target is a Module finds no target while Modules are
      nameless, and adds nothing (the `MATCH` at github_neo_4_j_sync.py:593-597). */
  lemma RelateIntoModuleAddsNothing(g: Graph, from: Label, fromName: string, rel: Relation)
    requires ModulesNameless(g) && rel.toLabel == Module
    ensures Relate(g, from, fromName, rel) == g
  {
    var r := Relate(g, from, fromName, rel);
    forall i: nat ensures !Named(g, i, Module, rel.toName) {
    }
    assert r.edges == g.edges;
  }

  /** In general, no relationship statement adds an edge into a Module while Modules are
      nameless. */
  lemma RelateAddsNoModuleEdge(g: Graph, from: Label, fromName: string, rel: Relation)
    requires ModulesNameless(g)
    ensures NoModuleEdgeAdded(g, Relate(g, from, fromName, rel))
  {
    var r := Relate(g, from, fromName, rel);
    forall x | x in r.edges && x !in g.edges ensures x.dst < |r.nodes| && r.nodes[x.dst].kind != Module {
      assert Named(g, x.dst, rel.toLabel, rel.toName);
    }
  }

  lemma NoModuleEdgeTrans(g: Graph, m: Graph, r: Graph)
    requires KindsKept(g, m) && KindsKept(m, r) && NoModuleEdgeAdded(g, m) && NoModuleEdgeAdded(m, r)
    ensures KindsKept(g, r) && NoModuleEdgeAdded(g, r)
  {
  }

  lemma {:induction false} RelateAllAddsNoModuleEdge(g: Graph, from: Label, fromName: string, rels: seq<Relation>)
    requires ModulesNameless(g)
    decreases |rels|
    ensures NoModuleEdgeAdded(g, RelateAll(g, from, fromName, rels))
  {
    if |rels| > 0 {
      var m := Relate(g, from, fromName, rels[0]);
      RelateAddsNoModuleEdge(g, from, fromName, rels[0]);
      RelateAllAddsNoModuleEdge(m, from, fromName, rels[1..]);
      NoModuleEdgeTrans(g, m, RelateAll(g, from, fromName, rels));
    }
  }

  /** The attributes written for an entity without a `name` attribute hold none either. */
  lemma WrittenNameless(g: Graph, e: Entity, sha: string, now: string)
    requires Name !in e.attrs
    ensures Name !in Written(g, e, sha, now)
  {
  }

  /** Writing an entity keeps Modules nameless and adds no edge into a Module. */
  lemma UpsertAddsNoModuleEdge(g: Graph, e: Entity, sha: string, now: string)
    requires ModulesNameless(g) && (e.kind == Module ==> Name !in e.attrs && PathOf(e.attrs) != "")
    ensures var r := Upsert(g, e, sha, now);
            ModulesNameless(r) && KindsKept(g, r) && NoModuleEdgeAdded(g, r)
  {
    var m := MergeEntity(g, e, sha, now);
    if e.kind == Module {
      WrittenNameless(g, e, sha, now);
    }
    assert ModulesNameless(m);
    assert KindsKept(g, m);
    RelateAllAddsNoModuleEdge(m, e.kind, e.name, e.relations);
  }

  lemma {:induction false} UpsertAllAddsNoModuleEdge(g: Graph, ents: seq<Entity>, sha: string, now: string)
    requires ModulesNameless(g) && NamelessModules(ents)
    decreases |ents|
    ensures var r := UpsertAll(g, ents, sha, now);
            ModulesNameless(r) && KindsKept(g, r) && NoModuleEdgeAdded(g, r)
  {
    if |ents| > 0 {
      var m := Upsert(g, ents[0], sha, now);
      UpsertAddsNoModuleEdge(g, ents[0], sha, now);
      assert NamelessModules(ents[1..]) by {
        forall e | e in ents[1..] ensures e in ents {
        }
      }
      UpsertAllAddsNoModuleEdge(m, ents[1..], sha, now);
      NoModuleEdgeTrans(g, m, UpsertAll(g, ents, sha, now));
    }
  }

  /** A whole commit written by update_graph_smart keeps Modules nameless, so the `has_class`
      and `has_subroutine` relations the extractor attaches to Modules never produce an edge:
      it adds no edge that ends at a Module node. */
  lemma UpdateAddsNoModuleEdge(g: Graph, ents: seq<Entity>, sha: string, now: string, rollback: bool)
    requires ModulesNameless(g) && NamelessModules(ents)
    ensures var r := UpdateGraph(g, ents, sha, now, rollback);
            ModulesNameless(r) && KindsKept(g, r) && NoModuleEdgeAdded(g, r)
  {
    var g0 := Prepared(g, sha, now, rollback);
    assert ModulesNameless(g0) && KindsKept(g, g0) && g0.edges == g.edges;
    UpsertAllAddsNoModuleEdge(g0, ents, sha, now);
    NoModuleEdgeTrans(g, g0, UpdateGraph(g, ents, sha, now, rollback));
  }

  /** Every edge of `r` that `g` lacks ends at a node of `r` whose label is in `ok`. */
  ghost predicate EdgesAddedInto(g: Graph, r: Graph, ok: set<Label>) {
    forall x :: x in r.edges && x !in g.edges ==> x.dst < |r.nodes| && r.nodes[x.dst].kind in ok
  }

  /** A relationship statement adds only edges that end at a node of its target label, and
      none when that label is Module and Modules are nameless. */
  lemma RelateAddsInto(g: Graph, from: Label, fromName: string, rel: Relation, ok: set<Label>)
    requires ModulesNameless(g) && (rel.toLabel == Module || rel.toLabel in ok)
    ensures EdgesAddedInto(g, Relate(g, from, fromName, rel), ok)
  {
    if rel.toLabel == Module {
      RelateIntoModuleAddsNothing(g, from, fromName, rel);
    } else {
      var r := Relate(g, from, fromName, rel);
      forall x | x in r.edges && x !in g.edges ensures x.dst < |r.nodes| && r.nodes[x.dst].kind in ok {
        assert Named(g, x.dst, rel.toLabel, rel.toName);
      }
    }
  }

  lemma EdgesIntoTrans(g: Graph, m: Graph, r: Graph, ok: set<Label>)
    requires KindsKept(g, m) && KindsKept(m, r) && EdgesAddedInto(g, m, ok) && EdgesAddedInto(m, r, ok)
    ensures KindsKept(g, r) && EdgesAddedInto(g, r, ok)
  {
    forall x | x in r.edges && x !in g.edges ensures x.dst < |r.nodes| && r.nodes[x.dst].kind in ok {
      if x in m.edges {
        assert m.nodes[x.dst].kind in ok;
      }
    }
  }

  lemma {:induction false} RelateAllAddsInto(g: Graph, from: Label, fromName: string, rels: seq<Relation>, ok: set<Label>)
    requires ModulesNameless(g) && forall x :: x in rels ==> x.toLabel == Module || x.toLabel in ok
    decreases |rels|
    ensures EdgesAddedInto(g, RelateAll(g, from, fromName, rels), ok)
  {
    if |rels| > 0 {
      var m := Relate(g, from, fromName, rels[0]);
      RelateAddsInto(g, from, fromName, rels[0], ok);
      assert forall x :: x in rels[1..] ==> x in rels;
      RelateAllAddsInto(m, from, fromName, rels[1..], ok);
      EdgesIntoTrans(g, m, RelateAll(g, from, fromName, rels), ok);
    }
  }

  lemma UpsertAddsInto(g: Graph, e: Entity, sha: string, now: string, ok: set<Label>)
    requires ModulesNameless(g) && (e.kind == Module ==> Name !in e.attrs && PathOf(e.attrs) != "")
    requires TargetsWithin([e], ok)
    ensures var r := Upsert(g, e, sha, now);
            ModulesNameless(r) && KindsKept(g, r) && EdgesAddedInto(g, r, ok)
  {
    var m := MergeEntity(g, e, sha, now);
    UpsertAddsNoModuleEdge(g, e, sha, now);
    if e.kind == Module {
      WrittenNameless(g, e, sha, now);
    }
    assert ModulesNameless(m);
    assert forall x :: x in e.relations ==> x.toLabel == Module || x.toLabel in ok by {
      assert e in [e];
    }
    RelateAllAddsInto(m, e.kind, e.name, e.relations, ok);
  }

  lemma {:induction false} UpsertAllAddsInto(g: Graph, ents: seq<Entity>, sha: string, now: string, ok: set<Label>)
    requires ModulesNameless(g) && NamelessModules(ents) && TargetsWithin(ents, ok)
    decreases |ents|
    ensures var r := UpsertAll(g, ents, sha, now);
            ModulesNameless(r) && KindsKept(g, r) && EdgesAddedInto(g, r, ok)
  {
    if |ents| > 0 {
      var m := Upsert(g, ents[0], sha, now);
      assert forall e :: e in [ents[0]] ==> e in ents;
      UpsertAddsInto(g, ents[0], sha, now, ok);
      assert forall e :: e in ents[1..] ==> e in ents;
      UpsertAllAddsInto(m, ents[1..], sha, now, ok);
      EdgesIntoTrans(g, m, UpsertAll(g, ents, sha, now), ok);
    }
  }

  /** A whole commit adds only edges that end at a node of a label its relations name, Module
      aside. */
  lemma UpdateAddsInto(g: Graph, ents: seq<Entity>, sha: string, now: string, rollback: bool, ok: set<Label>)
    requires ModulesNameless(g) && NamelessModules(ents) && TargetsWithin(ents, ok)
    ensures var r := UpdateGraph(g, ents, sha, now, rollback);
            ModulesNameless(r) && KindsKept(g, r) && EdgesAddedInto(g, r, ok)
  {
    var g0 := Prepared(g, sha, now, rollback);
    assert ModulesNameless(g0) && KindsKept(g, g0) && g0.edges == g.edges;
    UpsertAllAddsInto(g0, ents, sha, now, ok);
    EdgesIntoTrans(g, g0, UpdateGraph(g, ents, sha, now, rollback), ok);
  }

  /** When no relation of the commit's entities targets a GraphSnapshot, every edge the
      update adds ends at a Class, Method or Subroutine node. */
  lemma UpdateAddsEntityEdges(g: Graph, ents: seq<Entity>, sha: string, now: string, rollback: bool)
    requires ModulesNameless(g) && NamelessModules(ents)
    requires forall e, x :: e in ents && x in e.relations ==> x.toLabel != GraphSnapshot
    ensures var r := UpdateGraph(g, ents, sha, now, rollback);
            forall x :: x in r.edges && x !in g.edges ==> x.dst < |r.nodes| && r.nodes[x.dst].kind in {Class, Method, Subroutine}
  {
    UpdateAddsInto(g, ents, sha, now, rollback, {Class, Method, Subroutine});
  }

  // ---------------------------------------------------------------------------
  // handle_removed_files_sync
  // ---------------------------------------------------------------------------

  /** `n` after `SET n.status = 'deleted', n.old_status = n.status, n.last_updated = $now,
      n.deleted_in_commit = $sha`. Whether `n.status` on the right reads the value before the
      statement or the one its first item just wrote is the store's evaluation order, so it is a
      parameter: with `readsNew` the old status is always 'deleted'; otherwise it is the status
      the node had, and a node without a status loses its `old_status` (`SET x = null`). */
  function MarkDeleted(n: Node, sha: string, now: string, readsNew: bool): (r: Node)
    ensures r.kind == n.kind
    ensures Has(r, Status, Str(DELETED)) && Has(r, DeletedInCommit, Str(sha)) && Has(r, LastUpdated, Str(now))
    ensures readsNew ==> Has(r, OldStatus, Str(DELETED))
    ensures !readsNew ==> (OldStatus in r.props <==> Status in n.props)
    ensures !readsNew && Status in n.props ==> r.props[OldStatus] == n.props[Status]
    ensures forall k :: k != Status && k != OldStatus && k != LastUpdated && k != DeletedInCommit ==>
              (k in r.props <==> k in n.props) && (k in n.props ==> r.props[k] == n.props[k])
  {
    var props := n.props[Status := Str(DELETED)];
    var prior := if readsNew then Some(Str(DELETED)) else if Status in n.props then Some(n.props[Status]) else None;
    var marked := if prior.Some? then props[OldStatus := prior.value] else props - {OldStatus};
    Node(n.kind, marked[LastUpdated := Str(now)][DeletedInCommit := Str(sha)])
  }

  /** The node's path, when it is a string. */
  function NodePath(n: Node): Option<string> {
    StrProp(n.props, Path)
  }

  /** Node `n` belongs to an entity inside `file`: its path starts with `file:` (a missing or
      non-string path never matches `STARTS WITH`). */
  predicate InsideFile(n: Node, file: string) {
    NodePath(n).Some? && StartsWith(NodePath(n).value, file + ":")
  }

  /** Node `n` is one the removal of `file` marks: the Module at `file`, or a node inside it. */
  predicate Removes(n: Node, file: string) {
    Matches(n, Module, Path, Str(file)) || InsideFile(n, file)
  }

  /** `after` is `before` as the removal's `SET` leaves it: deleted by `sha` at `now`, with the
      `old_status` the store's reading gives, and no other property changed. */
  predicate MarkedFrom(before: Node, after: Node, sha: string, now: string, readsNew: bool) {
    && DeletedFrom(before, after, sha) && Has(after, LastUpdated, Str(now))
    && (readsNew ==> Has(after, OldStatus, Str(DELETED)))
    && (!readsNew ==> (OldStatus in after.props <==> Status in before.props))
    && (!readsNew && Status in before.props ==> Has(after, OldStatus, before.props[Status]))
  }

  /** `MATCH (m:Module {path: $path}) SET ...`: the Modules at `file` are marked, every other
      node and every relationship stays. */
  function RemoveModule(g: Graph, file: string, sha: string, now: string, readsNew: bool): (r: Graph)
    ensures r.edges == g.edges && |r.nodes| == |g.nodes|
    ensures forall i :: 0 <= i < |g.nodes| && Matches(g.nodes[i], Module, Path, Str(file)) ==>
              MarkedFrom(g.nodes[i], r.nodes[i], sha, now, readsNew)
    ensures forall i :: 0 <= i < |g.nodes| && !Matches(g.nodes[i], Module, Path, Str(file)) ==> r.nodes[i] == g.nodes[i]
  {
    Graph(seq(|g.nodes|, i requires 0 <= i < |g.nodes| =>
            if Matches(g.nodes[i], Module, Path, Str(file)) then MarkDeleted(g.nodes[i], sha, now, readsNew) else g.nodes[i]),
          g.edges)
  }

  /** `MATCH (n) WHERE n.path STARTS WITH $file_prefix SET ...` with the prefix `file:`: the
      nodes inside `file`, of any label, are marked; every other node and every relationship
      stays. */
  function RemoveChildren(g: Graph, file: string, sha: string, now: string, readsNew: bool): (r: Graph)
    ensures r.edges == g.edges && |r.nodes| == |g.nodes|
    ensures forall i :: 0 <= i < |g.nodes| && InsideFile(g.nodes[i], file) ==> MarkedFrom(g.nodes[i], r.nodes[i], sha, now, readsNew)
    ensures forall i :: 0 <= i < |g.nodes| && !InsideFile(g.nodes[i], file) ==> r.nodes[i] == g.nodes[i]
  {
    Graph(seq(|g.nodes|, i requires 0 <= i < |g.nodes| =>
            if InsideFile(g.nodes[i], file) then MarkDeleted(g.nodes[i], sha, now, readsNew) else g.nodes[i]),
          g.edges)
  }

  /** The two statements for one removed file. */
  function RemoveFile(g: Graph, file: string, sha: string, now: string, readsNew: bool): Graph {
    RemoveChildren(RemoveModule(g, file, sha, now, readsNew), file, sha, now, readsNew)
  }

  /** handle_removed_files_sync (github_neo_4_j_sync.py:603-631): every removed file in order;
      nothing for an empty list. */
  function RemoveFiles(g: Graph, files: seq<string>, sha: string, now: string, readsNew: bool): Graph
    decreases |files|
  {
    if |files| == 0 then g
    else RemoveFiles(RemoveFile(g, files[0], sha, now, readsNew), files[1..], sha, now, readsNew)
  }

  /** Some removed file reaches node `n`. */
  predicate Targeted(n: Node, files: seq<string>) {
    exists k :: 0 <= k < |files| && Removes(n, files[k])
  }

  /** `after` is `before` marked deleted by commit `sha`: label, path, commit and every other
      property the removal does not write intact. */
  predicate DeletedFrom(before: Node, after: Node, sha: string) {
    && after.kind == before.kind && NodePath(after) == NodePath(before)
    && (forall k :: k != Status && k != OldStatus && k != LastUpdated && k != DeletedInCommit ==>
          (k in after.props <==> k in before.props) && (k in before.props ==> after.props[k] == before.props[k]))
    && Has(after, Status, Str(DELETED)) && Has(after, DeletedInCommit, Str(sha))
  }

  /** One removed file marks exactly the nodes it reaches, keeping their label and path. */
  lemma RemoveFileSpec(g: Graph, file: string, sha: string, now: string, readsNew: bool)
    ensures var r := RemoveFile(g, file, sha, now, readsNew);
            && r.edges == g.edges && |r.nodes| == |g.nodes|
            && forall i :: 0 <= i < |g.nodes| ==>
                 if Removes(g.nodes[i], file) then DeletedFrom(g.nodes[i], r.nodes[i], sha) else r.nodes[i] == g.nodes[i]
  {
    var m := RemoveModule(g, file, sha, now, readsNew);
    var r := RemoveFile(g, file, sha, now, readsNew);
    forall i | 0 <= i < |g.nodes|
      ensures if Removes(g.nodes[i], file) then DeletedFrom(g.nodes[i], r.nodes[i], sha) else r.nodes[i] == g.nodes[i]
    {
      assert NodePath(m.nodes[i]) == NodePath(g.nodes[i]);
    }
  }

  /** Marking a node deleted again keeps it deleted from the original node. */
  lemma DeletedFromAgain(a: Node, b: Node, c: Node, sha: string)
    requires DeletedFrom(a, b, sha) && DeletedFrom(b, c, sha)
    ensures DeletedFrom(a, c, sha)
  {
  }

  /** Two nodes with the same label and `path` property are reached by the same files after the
      first. */
  lemma TargetedTail(a: Node, b: Node, files: seq<string>)
    requires |files| > 0 && a.kind == b.kind && (Path in a.props <==> Path in b.props)
    requires Path in a.props ==> a.props[Path] == b.props[Path]
    ensures Targeted(b, files[1..]) <==> exists k :: 1 <= k < |files| && Removes(a, files[k])
  {
    assert NodePath(a) == NodePath(b);
    if Targeted(b, files[1..]) {
      var k :| 0 <= k < |files[1..]| && Removes(b, files[1..][k]);
      assert Removes(a, files[k + 1]);
    }
    if exists k :: 1 <= k < |files| && Removes(a, files[k]) {
      var k :| 1 <= k < |files| && Removes(a, files[k]);
      assert Removes(b, files[1..][k - 1]);
    }
  }

  /** handle_removed_files_sync marks exactly the nodes some removed file reaches: the Module at
      the file and every node under `file:`; each keeps its label and path and records the
      commit; no other node, and no relationship, changes. */
  lemma {:induction false} RemoveFilesSpec(g: Graph, files: seq<string>, sha: string, now: string, readsNew: bool)
    decreases |files|
    ensures var r := RemoveFiles(g, files, sha, now, readsNew);
            && r.edges == g.edges && |r.nodes| == |g.nodes|
            && forall i :: 0 <= i < |g.nodes| ==>
                 if Targeted(g.nodes[i], files) then DeletedFrom(g.nodes[i], r.nodes[i], sha) else r.nodes[i] == g.nodes[i]
  {
    if |files| > 0 {
      var g1 := RemoveFile(g, files[0], sha, now, readsNew);
      var r := RemoveFiles(g, files, sha, now, readsNew);
      RemoveFileSpec(g, files[0], sha, now, readsNew);
      RemoveFilesSpec(g1, files[1..], sha, now, readsNew);
      forall i | 0 <= i < |g.nodes|
        ensures if Targeted(g.nodes[i], files) then DeletedFrom(g.nodes[i], r.nodes[i], sha) else r.nodes[i] == g.nodes[i]
      {
        assert g1.nodes[i].kind == g.nodes[i].kind && (Path in g1.nodes[i].props <==> Path in g.nodes[i].props);
        assert Path in g.nodes[i].props ==> g1.nodes[i].props[Path] == g.nodes[i].props[Path];
        TargetedTail(g.nodes[i], g1.nodes[i], files);
        if Removes(g.nodes[i], files[0]) {
          assert Targeted(g.nodes[i], files);
          if Targeted(g1.nodes[i], files[1..]) {
            DeletedFromAgain(g.nodes[i], g1.nodes[i], r.nodes[i], sha);
          }
        } else if Targeted(g.nodes[i], files) {
          var k :| 0 <= k < |files| && Removes(g.nodes[i], files[k]);
          assert k >= 1;
        }
      }
    }
  }

  /** Removal changes no node's label or commit, so it keeps which commits are recorded and
      which are marked. */
  lemma RemoveFilesKeepsCommits(g: Graph, files: seq<string>, sha: string, now: string, readsNew: bool)
    ensures var r := RemoveFiles(g, files, sha, now, readsNew);
            forall s :: (Processed(r, s) <==> Processed(g, s)) && (Marked(r, s) <==> Marked(g, s))
  {
    var r := RemoveFiles(g, files, sha, now, readsNew);
    RemoveFilesSpec(g, files, sha, now, readsNew);
    forall i | 0 <= i < |g.nodes|
      ensures r.nodes[i].kind == g.nodes[i].kind
      ensures (CommitSha in r.nodes[i].props <==> CommitSha in g.nodes[i].props)
      ensures CommitSha in g.nodes[i].props ==> r.nodes[i].props[CommitSha] == g.nodes[i].props[CommitSha]
    {
      if Targeted(g.nodes[i], files) {
        assert DeletedFrom(g.nodes[i], r.nodes[i], sha);
      }
    }
    forall s ensures (Processed(r, s) <==> Processed(g, s)) && (Marked(r, s) <==> Marked(g, s)) {
      if Processed(r, s) {
        var i :| 0 <= i < |r.nodes| && Has(r.nodes[i], CommitSha, Str(s));
        assert Has(g.nodes[i], CommitSha, Str(s));
      }
      if Processed(g, s) {
        var i :| 0 <= i < |g.nodes| && Has(g.nodes[i], CommitSha, Str(s));
        assert Has(r.nodes[i], CommitSha, Str(s));
      }
      if Marked(r, s) {
        var i :| 0 <= i < |r.nodes| && Matches(r.nodes[i], GraphSnapshot, CommitSha, Str(s));
        assert Matches(g.nodes[i], GraphSnapshot, CommitSha, Str(s));
      }
      if Marked(g, s) {
        var i :| 0 <= i < |g.nodes| && Matches(g.nodes[i], GraphSnapshot, CommitSha, Str(s));
        assert Matches(r.nodes[i], GraphSnapshot, CommitSha, Str(s));
      }
    }
  }

  /** A node that a removal marks and that no entity of the following update matches stays
      marked deleted by the commit through that update. */
  lemma RemovedStaysDeleted(g: Graph, files: seq<string>, ents: seq<Entity>, sha: string, now: string, readsNew: bool, rollback: bool, i: nat)
    requires i < |g.nodes| && Targeted(g.nodes[i], files)
    requires Pathed(ents) && forall e :: e in ents ==> !Keyed(g.nodes[i], e)
    ensures i < |UpdateGraph(RemoveFiles(g, files, sha, now, readsNew), ents, sha, now, rollback).nodes|
    ensures var r := UpdateGraph(RemoveFiles(g, files, sha, now, readsNew), ents, sha, now, rollback);
            Has(r.nodes[i], Status, Str(DELETED)) && Has(r.nodes[i], DeletedInCommit, Str(sha))
  {
    var cleared := RemoveFiles(g, files, sha, now, readsNew);
    RemoveFilesSpec(g, files, sha, now, readsNew);
    var n := cleared.nodes[i];
    assert DeletedFrom(g.nodes[i], n, sha);
    var g0 := Prepared(cleared, sha, now, rollback);
    assert g0.nodes[i] == n by {
      if rollback {
        assert TaggedFrom(n, g0.nodes[i], sha);
      }
    }
    forall e | e in ents ensures !Keyed(n, e) {
      assert !Keyed(g.nodes[i], e);
      assert PathOf(e.attrs) != "";
      if Path in g.nodes[i].props {
        assert n.props[Path] == g.nodes[i].props[Path];
      }
    }
    UpsertAllFrame(g0, ents, sha, now, i);
  }

  /** The prefix is `file:`, not `file`: removing `a.py` spares `a.py.bak` and its entities. */
  lemma RemovalSparesSiblings()
    ensures Removes(Node(Module, map[Path := Str("a.py")]), "a.py")
    ensures Removes(Node(Class, map[Path := Str("a.py:3")]), "a.py")
    ensures !Removes(Node(Module, map[Path := Str("a.py.bak")]), "a.py")
    ensures !Removes(Node(Class, map[Path := Str("a.py.bak:3")]), "a.py")
  {
    assert "a.py:3"[..5] == "a.py:";
    assert "a.py.bak"[4] != "a.py:"[4];
    assert "a.py.bak:3"[4] != "a.py:"[4];
  }

  // ---------------------------------------------------------------------------
  // rollback_to_commit
  // ---------------------------------------------------------------------------

  /** `n.commit_sha <> $sha`: true only for a node that has a commit other than `target`. */
  predicate Stale(n: Node, target: string) {
    CommitSha in n.props && n.props[CommitSha] != Str(target)
  }

  /** `after` is `before` after the two rollback statements: the node tagged by the target's
      snapshot is active, else a node of another commit is rolled back, else its status is kept;
      nothing but the status changes. */
  predicate RolledBackFrom(before: Node, after: Node, target: string) {
    && after.kind == before.kind
    && (forall k :: k != Status ==> (k in after.props <==> k in before.props))
    && (forall k :: k in before.props && k != Status ==> after.props[k] == before.props[k])
    && if Has(before, SnapshotSha, Str(target)) then Active(after)
       else if Stale(before, target) then Has(after, Status, Str(ROLLED_BACK))
       else (Status in after.props <==> Status in before.props) && (Status in before.props ==> after.props[Status] == before.props[Status])
  }

  function SetStatus(n: Node, status: string): Node {
    Node(n.kind, n.props[Status := Str(status)])
  }

  /** Both statements on one node. */
  function RollbackNode(n: Node, target: string): (r: Node)
    ensures RolledBackFrom(n, r, target)
  {
    var retired := if Stale(n, target) then SetStatus(n, ROLLED_BACK) else n;
    if Has(retired, SnapshotSha, Str(target)) then SetStatus(retired, ACTIVE) else retired
  }

  /** rollback_to_commit (github_neo_4_j_sync.py:634-665): refused when rollback is disabled or
      no snapshot of `target` exists; otherwise every node of another commit is rolled back and
      then every node tagged by the target's snapshot is active again. */
  function Rollback(g: Graph, target: string, enabled: bool): (r: (bool, Graph))
    ensures r.0 <==> enabled && Marked(g, target)
    ensures !r.0 ==> r.1 == g
    ensures r.0 ==> r.1.edges == g.edges && |r.1.nodes| == |g.nodes|
    ensures r.0 ==> forall i :: 0 <= i < |g.nodes| ==> RolledBackFrom(g.nodes[i], r.1.nodes[i], target)
  {
    if !enabled || !Marked(g, target) then (false, g)
    else (true, Graph(seq(|g.nodes|, i requires 0 <= i < |g.nodes| => RollbackNode(g.nodes[i], target)), g.edges))
  }

  /** Rolling back to the same commit twice is rolling back once. */
  lemma RollbackIdempotent(g: Graph, target: string, enabled: bool)
    requires Rollback(g, target, enabled).0
    ensures Rollback(Rollback(g, target, enabled).1, target, enabled) == Rollback(g, target, enabled)
  {
    var r := Rollback(g, target, enabled).1;
    assert Marked(r, target) by {
      var i :| 0 <= i < |g.nodes| && Matches(g.nodes[i], GraphSnapshot, CommitSha, Str(target));
      assert Matches(r.nodes[i], GraphSnapshot, CommitSha, Str(target));
    }
    var r2 := Rollback(r, target, enabled).1;
    forall i | 0 <= i < |r.nodes| ensures r2.nodes[i] == r.nodes[i] {
      assert r.nodes[i] == RollbackNode(g.nodes[i], target);
    }
    assert r2.nodes == r.nodes;
  }

  /** Rollback never removes a snapshot mark. */
  lemma RollbackKeepsMarks(g: Graph, target: string, enabled: bool, s: string)
    requires Marked(g, s)
    ensures Marked(Rollback(g, target, enabled).1, s)
  {
    var r := Rollback(g, target, enabled);
    if r.0 {
      var i :| 0 <= i < |g.nodes| && Matches(g.nodes[i], GraphSnapshot, CommitSha, Str(s));
      assert Matches(r.1.nodes[i], GraphSnapshot, CommitSha, Str(s));
    }
  }

  /** A rollback right after the snapshot of `sha` succeeds: every node active when the
      snapshot was taken is active again, the snapshot node is active, and an inactive,
      untagged node of another commit is rolled back. */
  lemma SnapshotThenRollback(g: Graph, sha: string, now: string)
    ensures Rollback(Snapshot(g, sha, now), sha, true).0
    ensures var r := Rollback(Snapshot(g, sha, now), sha, true).1;
            && Active(r.nodes[|g.nodes|])
            && forall i :: 0 <= i < |g.nodes| ==>
                 (Active(g.nodes[i]) ==> Active(r.nodes[i]))
                 && (!Active(g.nodes[i]) && !Has(g.nodes[i], SnapshotSha, Str(sha)) && Stale(g.nodes[i], sha)
                     ==> Has(r.nodes[i], Status, Str(ROLLED_BACK)))
  {
    var s := Snapshot(g, sha, now);
    var r := Rollback(s, sha, true).1;
    forall i | 0 <= i < |g.nodes|
      ensures (Active(g.nodes[i]) ==> Active(r.nodes[i]))
              && (!Active(g.nodes[i]) && !Has(g.nodes[i], SnapshotSha, Str(sha)) && Stale(g.nodes[i], sha)
                  ==> Has(r.nodes[i], Status, Str(ROLLED_BACK)))
    {
      assert TaggedFrom(g.nodes[i], s.nodes[i], sha);
      assert RolledBackFrom(s.nodes[i], r.nodes[i], sha);
    }
    assert RolledBackFrom(s.nodes[|g.nodes|], r.nodes[|g.nodes|], sha);
  }
}
