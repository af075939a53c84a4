/**
 * The property graph the engine writes to, and the two Cypher building blocks every
 * statement of the engine is made of: matching nodes by label and property, and
 * `MERGE` of a node keyed on one property. A node's identity is its index in `nodes`;
 * nodes are never deleted, so indices are stable. Relationships form a set, so a
 * relationship `MERGE` never duplicates one.
 */
module Graphs {
  import opened Wrappers
  import opened Entities

  datatype Node = Node(kind: Label, props: Props)

  /** A relationship of type `rel` from node `src` to node `dst`. */
  datatype Edge = Edge(src: nat, rel: RelType, dst: nat)

  datatype Graph = Graph(nodes: seq<Node>, edges: set<Edge>)

  const EmptyGraph := Graph([], {})

  /** The Cypher test `n.k = v`: false (null) when `n` lacks `k`. */
  predicate Has(n: Node, k: Key, v: Value) {
    k in n.props && n.props[k] == v
  }

  /** The node pattern `(n:label {k: v})`. */
  predicate Matches(n: Node, lbl: Label, k: Key, v: Value) {
    n.kind == lbl && Has(n, k, v)
  }

  /** Every edge joins two nodes of the graph. */
  predicate Wellformed(g: Graph) {
    forall e :: e in g.edges ==> e.src < |g.nodes| && e.dst < |g.nodes|
  }

  /** The first node at or after `from` with `k = v`, the order in which the store returns
      the records of an unordered `MATCH`. */
  function FirstWith(nodes: seq<Node>, k: Key, v: Value, from: nat): (r: Option<nat>)
    decreases |nodes| - from
    ensures r.Some? ==> from <= r.value < |nodes| && Has(nodes[r.value], k, v)
    ensures r.Some? ==> forall j :: from <= j < r.value ==> !Has(nodes[j], k, v)
    ensures r.None? ==> forall j :: from <= j < |nodes| ==> !Has(nodes[j], k, v)
  {
    if from >= |nodes| then None
    else if Has(nodes[from], k, v) then Some(from)
    else FirstWith(nodes, k, v, from + 1)
  }

  /** Some node of `g` matches `(n:label {k: v})`. */
  predicate AnyMatch(g: Graph, lbl: Label, k: Key, v: Value) {
    exists i :: 0 <= i < |g.nodes| && Matches(g.nodes[i], lbl, k, v)
  }

  /** The nodes of `g` that match `(n:lbl {k: v})`. */
  function MatchSet(g: Graph, lbl: Label, k: Key, v: Value): set<nat> {
    set i | 0 <= i < |g.nodes| && Matches(g.nodes[i], lbl, k, v)
  }

  /** `after` is `before` once `SET n += attrs` has run: the same label; every key of `attrs`
      holds its value from `attrs`, every other key of `before` keeps its value, and no other
      key appears. */
  predicate SetFrom(before: Node, after: Node, attrs: Props) {
    && after.kind == before.kind
    && after.props.Keys == before.props.Keys + attrs.Keys
    && (forall x :: x in attrs ==> after.props[x] == attrs[x])
    && (forall x :: x in before.props && x !in attrs ==> after.props[x] == before.props[x])
  }

  /** `MERGE (n:label {k: v}) SET n += attrs`: when nodes match the pattern, every one of them
      takes the attributes; otherwise one node with the label, `k = v` and the attributes is
      created. */
  function Merge(g: Graph, lbl: Label, k: Key, v: Value, attrs: Props): (r: Graph)
    ensures r.edges == g.edges
    ensures AnyMatch(g, lbl, k, v) ==> |r.nodes| == |g.nodes|
    ensures !AnyMatch(g, lbl, k, v) ==> |r.nodes| == |g.nodes| + 1
    ensures !AnyMatch(g, lbl, k, v) ==> SetFrom(Node(lbl, map[k := v]), r.nodes[|g.nodes|], attrs)
    ensures forall i :: 0 <= i < |g.nodes| && Matches(g.nodes[i], lbl, k, v) ==> SetFrom(g.nodes[i], r.nodes[i], attrs)
    ensures forall i :: 0 <= i < |g.nodes| && !Matches(g.nodes[i], lbl, k, v) ==> r.nodes[i] == g.nodes[i]
  {
    if AnyMatch(g, lbl, k, v) then
      Graph(seq(|g.nodes|, i requires 0 <= i < |g.nodes| =>
              if Matches(g.nodes[i], lbl, k, v) then Node(lbl, g.nodes[i].props + attrs) else g.nodes[i]),
            g.edges)
    else
      Graph(g.nodes + [Node(lbl, map[k := v] + attrs)], g.edges)
  }

  /** When `attrs` keeps `k = v`, the pattern matches exactly the old matches after a `MERGE`,
      or the one new node: `MERGE` never adds a node that duplicates a match. */
  lemma MergeMatches(g: Graph, lbl: Label, k: Key, v: Value, attrs: Props)
    requires k !in attrs || attrs[k] == v
    ensures var r := Merge(g, lbl, k, v, attrs);
            MatchSet(r, lbl, k, v) == if AnyMatch(g, lbl, k, v) then MatchSet(g, lbl, k, v) else {|g.nodes|}
  {
    var r := Merge(g, lbl, k, v, attrs);
    if AnyMatch(g, lbl, k, v) {
      forall i | 0 <= i < |r.nodes| ensures Matches(r.nodes[i], lbl, k, v) <==> Matches(g.nodes[i], lbl, k, v) {
      }
    } else {
      forall i | 0 <= i < |r.nodes| ensures Matches(r.nodes[i], lbl, k, v) <==> i == |g.nodes| {
      }
    }
  }

  /** So a key that at most one node matches is matched by exactly one node afterwards. */
  lemma MergeKeepsUnique(g: Graph, lbl: Label, k: Key, v: Value, attrs: Props)
    requires k !in attrs || attrs[k] == v
    requires |MatchSet(g, lbl, k, v)| <= 1
    ensures |MatchSet(Merge(g, lbl, k, v, attrs), lbl, k, v)| == 1
  {
    MergeMatches(g, lbl, k, v, attrs);
    if AnyMatch(g, lbl, k, v) {
      var i :| 0 <= i < |g.nodes| && Matches(g.nodes[i], lbl, k, v);
      assert i in MatchSet(g, lbl, k, v);
    }
  }

  /** Setting the same attributes twice is setting them once. */
  lemma SetTwice(p: Props, attrs: Props)
    ensures (p + attrs) + attrs == p + attrs
  {
  }

  /** A second identical `MERGE` adds no node and changes nothing further. */
  lemma MergeIdempotent(g: Graph, lbl: Label, k: Key, v: Value, attrs: Props)
    requires k !in attrs || attrs[k] == v
    ensures var r := Merge(g, lbl, k, v, attrs);
            Merge(r, lbl, k, v, attrs) == r
  {
    var r := Merge(g, lbl, k, v, attrs);
    assert AnyMatch(r, lbl, k, v) by {
      if AnyMatch(g, lbl, k, v) {
        var j :| 0 <= j < |g.nodes| && Matches(g.nodes[j], lbl, k, v);
        assert Matches(r.nodes[j], lbl, k, v);
      } else {
        assert Matches(r.nodes[|g.nodes|], lbl, k, v);
      }
    }
    var r2 := Merge(r, lbl, k, v, attrs);
    assert |r2.nodes| == |r.nodes|;
    forall j | 0 <= j < |r.nodes| ensures r2.nodes[j] == r.nodes[j] {
      if Matches(r.nodes[j], lbl, k, v) {
        if j < |g.nodes| {
          if Matches(g.nodes[j], lbl, k, v) {
            SetTwice(g.nodes[j].props, attrs);
          }
        } else {
          SetTwice(map[k := v], attrs);
        }
      }
    }
    assert r2.nodes == r.nodes;
  }
}
