/** The node and edge queries of the object graph on one snapshot, and how they agree. */
module GraphQueries {
  import opened Prelude
  import opened GraphTables
  import opened GraphWalk
  import Lexicographic
  import Sorting

  /** A row of either link source, as both queries see it. */
  datatype LinkRow = LinkRow(id: Id, source: Id, target: Id, hasRelationship: bool, createdAt: int)

  datatype NodeRow = NodeRow(node: Node, distance: nat, inDegree: nat, outDegree: nat)

  datatype EdgeRow = EdgeRow(link: LinkRow, hasRelationship: bool, hasReference: bool)

  predicate HasNode(nodes: seq<Node>, v: Id) {
    exists i :: 0 <= i < |nodes| && nodes[i].id == v
  }

  predicate IsVisible(s: Snapshot, v: Id) {
    HasNode(s.nodes, v)
  }

  predicate IsCurrent(s: Snapshot, v: Id, version: Id) {
    exists i :: 0 <= i < |s.nodes| && s.nodes[i].id == v && s.nodes[i].currentVersion == version
  }

  /** The primary key of objects. */
  predicate IdsDistinct(nodes: seq<Node>) {
    forall i, j :: 0 <= i < j < |nodes| ==> nodes[i].id != nodes[j].id
  }

  // ---------------------------------------------------------------- visible links

  function RelationshipRow(s: Snapshot, e: Edge): Option<LinkRow> {
    if !e.revoked && IsVisible(s, e.source) && IsVisible(s, e.target)
    then Some(LinkRow(e.id, e.source, e.target, true, e.createdAt)) else None
  }

  /** A resolved reference of a current version to another visible object. */
  function ReferenceRow(s: Snapshot, r: Reference): Option<LinkRow> {
    if r.resolved && r.target.Some? && r.source != r.target.value
       && IsCurrent(s, r.source, r.sourceVersion) && IsVisible(s, r.target.value)
    then Some(LinkRow(r.id, r.source, r.target.value, false, r.createdAt)) else None
  }

  function VisibleRelationships(s: Snapshot): seq<LinkRow> {
    FilterMap(e => RelationshipRow(s, e), s.edges)
  }

  function VisibleReferences(s: Snapshot): seq<LinkRow> {
    FilterMap(r => ReferenceRow(s, r), s.references)
  }

  /** `UNION ALL` of both sources. */
  function GraphLinks(s: Snapshot): seq<LinkRow> {
    VisibleRelationships(s) + VisibleReferences(s)
  }

  function Pairs(rows: seq<LinkRow>): set<Link> {
    set r | r in rows :: (r.source, r.target)
  }

  /** `UNION` of the pairs of both sources. */
  function Links(s: Snapshot): set<Link> {
    Pairs(VisibleRelationships(s)) + Pairs(VisibleReferences(s))
  }

  lemma LinkRowOfPair(s: Snapshot, a: Id, b: Id)
    ensures (a, b) in Links(s) <==> exists r :: r in GraphLinks(s) && r.source == a && r.target == b
  {
    var rows := GraphLinks(s);
    if (a, b) in Links(s) {
      var r :| (r in VisibleRelationships(s) || r in VisibleReferences(s)) && (r.source, r.target) == (a, b);
      assert r in rows;
    }
    if r :| r in rows && r.source == a && r.target == b {
      assert r in VisibleRelationships(s) || r in VisibleReferences(s);
      assert (r.source, r.target) == (a, b);
    }
  }

  predicate ShowsRelationship(row: LinkRow, e: Edge) {
    row == LinkRow(e.id, e.source, e.target, true, e.createdAt)
  }

  predicate ShowsReference(row: LinkRow, r: Reference) {
    r.target.Some? && row == LinkRow(r.id, r.source, r.target.value, false, r.createdAt)
  }

  lemma VisibilityIs(s: Snapshot, v: Id, version: Id)
    ensures IsVisible(s, v) <==> IsShown(s, v)
    ensures IsCurrent(s, v, version) <==> IsShownAt(s, v, version)
  {
    if n :| n in s.nodes && n.id == v {
      var i :| 0 <= i < |s.nodes| && s.nodes[i] == n;
    }
    if n :| n in s.nodes && n.id == v && n.currentVersion == version {
      var i :| 0 <= i < |s.nodes| && s.nodes[i] == n;
    }
  }

  lemma RelationshipRowIs(s: Snapshot, e: Edge, row: LinkRow)
    requires e in s.edges
    ensures RelationshipRow(s, e) == Some(row) <==> IsRelationship(s, e) && ShowsRelationship(row, e)
  {
    VisibilityIs(s, e.source, 0);
    VisibilityIs(s, e.target, 0);
    hide IsVisible, IsShown;
  }

  lemma ReferenceRowIs(s: Snapshot, r: Reference, row: LinkRow)
    requires r in s.references
    ensures ReferenceRow(s, r) == Some(row) <==> IsLiveReference(s, r) && ShowsReference(row, r)
  {
    VisibilityIs(s, r.source, r.sourceVersion);
    if r.target.Some? {
      VisibilityIs(s, r.target.value, 0);
    }
    hide IsVisible, IsShown, IsCurrent, IsShownAt;
  }

  /** The relationship rows are the active edges between visible nodes. */
  lemma RelationshipRowsExact(s: Snapshot, row: LinkRow)
    ensures row in VisibleRelationships(s) <==> exists e :: IsRelationship(s, e) && ShowsRelationship(row, e)
  {
    FilterMapMembers(e => RelationshipRow(s, e), s.edges, row);
    hide RelationshipRow, ShowsRelationship, FilterMap;
    if i :| 0 <= i < |s.edges| && RelationshipRow(s, s.edges[i]) == Some(row) {
      RelationshipRowIs(s, s.edges[i], row);
    }
    if e :| IsRelationship(s, e) && ShowsRelationship(row, e) {
      RelationshipRowIs(s, e, row);
      var i :| 0 <= i < |s.edges| && s.edges[i] == e;
    }
  }

  /** The reference rows are the resolved references of current versions between visible nodes. */
  lemma ReferenceRowsExact(s: Snapshot, row: LinkRow)
    ensures row in VisibleReferences(s) <==> exists r :: IsLiveReference(s, r) && ShowsReference(row, r)
  {
    FilterMapMembers(r => ReferenceRow(s, r), s.references, row);
    hide ReferenceRow, ShowsReference, FilterMap;
    if i :| 0 <= i < |s.references| && ReferenceRow(s, s.references[i]) == Some(row) {
      ReferenceRowIs(s, s.references[i], row);
    }
    if r :| IsLiveReference(s, r) && ShowsReference(row, r) {
      ReferenceRowIs(s, r, row);
      var i :| 0 <= i < |s.references| && s.references[i] == r;
    }
  }

  /** The walk follows the pairs with an active relationship or a current reference, and no others. */
  lemma LinksExact(s: Snapshot, a: Id, b: Id)
    ensures (a, b) in Links(s) <==> HasActiveRelationship(s, a, b) || HasCurrentReference(s, a, b)
  {
    hide VisibleRelationships, VisibleReferences, IsRelationship, IsLiveReference;
    if (a, b) in Pairs(VisibleRelationships(s)) {
      var row :| row in VisibleRelationships(s) && (row.source, row.target) == (a, b);
      RelationshipRowsExact(s, row);
      var e :| IsRelationship(s, e) && ShowsRelationship(row, e);
      assert Relates(s, e, a, b);
    }
    if (a, b) in Pairs(VisibleReferences(s)) {
      var row :| row in VisibleReferences(s) && (row.source, row.target) == (a, b);
      ReferenceRowsExact(s, row);
      var r :| IsLiveReference(s, r) && ShowsReference(row, r);
      assert Refers(s, r, a, b);
    }
    if e :| Relates(s, e, a, b) {
      var row := LinkRow(e.id, e.source, e.target, true, e.createdAt);
      assert ShowsRelationship(row, e);
      RelationshipRowsExact(s, row);
    }
    if r :| Refers(s, r, a, b) {
      var row := LinkRow(r.id, r.source, r.target.value, false, r.createdAt);
      assert ShowsReference(row, r);
      ReferenceRowsExact(s, row);
    }
  }

  /** Both ends of every link are visible. */
  lemma LinkEndsVisible(s: Snapshot, r: LinkRow)
    requires r in GraphLinks(s)
    ensures IsVisible(s, r.source) && IsVisible(s, r.target)
  {
    FilterMapMembers(e => RelationshipRow(s, e), s.edges, r);
    FilterMapMembers(q => ReferenceRow(s, q), s.references, r);
    assert r in VisibleRelationships(s) || r in VisibleReferences(s);
  }

  // ---------------------------------------------------------------- degrees

  function InDegree(rows: seq<LinkRow>, v: Id): nat {
    if rows == [] then 0 else (if rows[0].target == v then 1 else 0) + InDegree(rows[1..], v)
  }

  function OutDegree(rows: seq<LinkRow>, v: Id): nat {
    if rows == [] then 0 else (if rows[0].source == v then 1 else 0) + OutDegree(rows[1..], v)
  }

  lemma {:induction false} DegreeAppend(rows: seq<LinkRow>, more: seq<LinkRow>, v: Id)
    ensures InDegree(rows + more, v) == InDegree(rows, v) + InDegree(more, v)
    ensures OutDegree(rows + more, v) == OutDegree(rows, v) + OutDegree(more, v)
  {
    if rows == [] {
      assert rows + more == more;
    } else {
      assert (rows + more)[1..] == rows[1..] + more;
      DegreeAppend(rows[1..], more, v);
    }
  }

  ghost function RowsOfPrefix(s: Snapshot, n: nat): seq<LinkRow>
    requires n <= |s.edges|
  {
    FilterMap(e => RelationshipRow(s, e), s.edges[..n])
  }

  lemma RowsOfNext(s: Snapshot, n: nat)
    requires n < |s.edges|
    ensures RowsOfPrefix(s, n + 1) == RowsOfPrefix(s, n) + OptionToSeq(RelationshipRow(s, s.edges[n]))
  {
    var f := e => RelationshipRow(s, e);
    assert s.edges[..n + 1] == s.edges[..n] + [s.edges[n]];
    FilterMapAppend(f, s.edges[..n], [s.edges[n]]);
    hide RelationshipRow;
    assert FilterMap(f, [s.edges[n]]) == OptionToSeq(f(s.edges[n]));
  }

  /** A node's degrees after reading the first `n` edges. */
  lemma {:induction false} DegreesOfPrefix(s: Snapshot, v: Id, n: nat)
    requires n <= |s.edges|
    ensures InDegree(RowsOfPrefix(s, n), v) == |set i: nat | i in InEdges(s, v) && i < n|
    ensures OutDegree(RowsOfPrefix(s, n), v) == |set i: nat | i in OutEdges(s, v) && i < n|
  {
    hide RelationshipRow, InEdges, OutEdges;
    if n == 0 {
      assert (set i: nat | i in InEdges(s, v) && i < n) == {} == (set i: nat | i in OutEdges(s, v) && i < n);
    } else {
      hide InDegree, OutDegree, RowsOfPrefix;
      DegreesOfPrefix(s, v, n - 1);
      RowsOfNext(s, n - 1);
      DegreeAppend(RowsOfPrefix(s, n - 1), OptionToSeq(RelationshipRow(s, s.edges[n - 1])), v);
      OneMoreEdge(s, v, n - 1);
    }
  }

  lemma OneMoreEdge(s: Snapshot, v: Id, n: nat)
    requires n < |s.edges|
    ensures var row := OptionToSeq(RelationshipRow(s, s.edges[n]));
            && |set i: nat | i in InEdges(s, v) && i < n + 1|
               == |set i: nat | i in InEdges(s, v) && i < n| + InDegree(row, v)
            && |set i: nat | i in OutEdges(s, v) && i < n + 1|
               == |set i: nat | i in OutEdges(s, v) && i < n| + OutDegree(row, v)
  {
    var e := s.edges[n];
    RelationshipRowIs(s, e, LinkRow(e.id, e.source, e.target, true, e.createdAt));
    OneMoreBelow(InEdges(s, v), n);
    OneMoreBelow(OutEdges(s, v), n);
    hide IsShown, IsVisible, IsRelationship;
    assert n in InEdges(s, v) <==> IsRelationship(s, e) && e.target == v;
    assert n in OutEdges(s, v) <==> IsRelationship(s, e) && e.source == v;
    hide InEdges, OutEdges;
  }

  lemma OneMoreBelow(all: set<nat>, n: nat)
    ensures |set i: nat | i in all && i < n + 1| == |set i: nat | i in all && i < n| + (if n in all then 1 else 0)
  {
    var below := set i: nat | i in all && i < n;
    assert (set i: nat | i in all && i < n + 1) == below + (if n in all then {n} else {});
  }

  /** The degrees count the active relationships that end and start in the node. */
  lemma DegreesExact(s: Snapshot, v: Id)
    ensures InDegree(VisibleRelationships(s), v) == |InEdges(s, v)|
    ensures OutDegree(VisibleRelationships(s), v) == |OutEdges(s, v)|
  {
    hide RelationshipRow, FilterMap, InDegree, OutDegree;
    DegreesOfPrefix(s, v, |s.edges|);
    assert s.edges[..|s.edges|] == s.edges;
    assert (set i: nat | i in InEdges(s, v) && i < |s.edges|) == InEdges(s, v);
    assert (set i: nat | i in OutEdges(s, v) && i < |s.edges|) == OutEdges(s, v);
  }

  function TotalInDegree(rows: seq<LinkRow>, nodes: seq<Node>): nat {
    if nodes == [] then 0 else InDegree(rows, nodes[0].id) + TotalInDegree(rows, nodes[1..])
  }

  function TotalOutDegree(rows: seq<LinkRow>, nodes: seq<Node>): nat {
    if nodes == [] then 0 else OutDegree(rows, nodes[0].id) + TotalOutDegree(rows, nodes[1..])
  }

  lemma {:induction false} OneMoreRow(rows: seq<LinkRow>, nodes: seq<Node>)
    requires rows != [] && IdsDistinct(nodes)
    ensures TotalInDegree(rows, nodes)
         == TotalInDegree(rows[1..], nodes) + (if HasNode(nodes, rows[0].target) then 1 else 0)
    ensures TotalOutDegree(rows, nodes)
         == TotalOutDegree(rows[1..], nodes) + (if HasNode(nodes, rows[0].source) then 1 else 0)
  {
    if nodes != [] {
      OneMoreRow(rows, nodes[1..]);
      HasNodeStep(nodes, rows[0].target);
      HasNodeStep(nodes, rows[0].source);
    }
  }

  lemma HasNodeStep(nodes: seq<Node>, v: Id)
    requires nodes != [] && IdsDistinct(nodes)
    ensures HasNode(nodes, v) <==> nodes[0].id == v || HasNode(nodes[1..], v)
    ensures !(nodes[0].id == v && HasNode(nodes[1..], v))
  {
    if HasNode(nodes[1..], v) {
      var i :| 0 <= i < |nodes[1..]| && nodes[1..][i].id == v;
      assert nodes[i + 1].id == v;
    }
    if HasNode(nodes, v) {
      var i :| 0 <= i < |nodes| && nodes[i].id == v;
      assert i > 0 ==> nodes[1..][i - 1].id == v;
    }
  }

  lemma {:induction false} NoRowsNoDegree(nodes: seq<Node>)
    ensures TotalInDegree([], nodes) == 0 == TotalOutDegree([], nodes)
  {
    if nodes != [] {
      NoRowsNoDegree(nodes[1..]);
    }
  }

  lemma {:induction false} DegreesCountRows(rows: seq<LinkRow>, nodes: seq<Node>)
    requires IdsDistinct(nodes) && forall r :: r in rows ==> HasNode(nodes, r.source) && HasNode(nodes, r.target)
    ensures TotalInDegree(rows, nodes) == |rows| == TotalOutDegree(rows, nodes)
  {
    hide HasNode, IdsDistinct;
    if rows == [] {
      NoRowsNoDegree(nodes);
    } else {
      assert rows[0] in rows;
      OneMoreRow(rows, nodes);
      DegreesCountRows(rows[1..], nodes);
    }
  }

  /** Over all visible nodes both degree totals are the number of visible relationships. */
  lemma DegreesBalance(s: Snapshot)
    requires IdsDistinct(s.nodes)
    ensures TotalInDegree(VisibleRelationships(s), s.nodes) == |VisibleRelationships(s)|
    ensures TotalOutDegree(VisibleRelationships(s), s.nodes) == |VisibleRelationships(s)|
  {
    var rows := VisibleRelationships(s);
    forall r | r in rows ensures HasNode(s.nodes, r.source) && HasNode(s.nodes, r.target) {
      assert r in GraphLinks(s);
      LinkEndsVisible(s, r);
    }
    DegreesCountRows(rows, s.nodes);
  }

  // ---------------------------------------------------------------- the node query

  function NodeRowOf(s: Snapshot, root: Id, depth: int, direction: Direction, includeRoot: bool,
                     n: Node): Option<NodeRow> {
    match Distance(Links(s), direction, depth, root, n.id)
    case None => None
    case Some(d) =>
      if !includeRoot && n.id == root then None
      else Some(NodeRow(n, d, InDegree(VisibleRelationships(s), n.id), OutDegree(VisibleRelationships(s), n.id)))
  }

  /** `CASE WHEN id = root THEN 0 ELSE 1 END, distance, title, id`. */
  predicate NodeRowLeq(root: Id, a: NodeRow, b: NodeRow) {
    var ra, rb := if a.node.id == root then 0 else 1, if b.node.id == root then 0 else 1;
    || ra < rb
    || (ra == rb && a.distance < b.distance)
    || (ra == rb && a.distance == b.distance && Lexicographic.Less(a.node.title, b.node.title))
    || (ra == rb && a.distance == b.distance && a.node.title == b.node.title && a.node.id <= b.node.id)
  }

  /** All reached visible nodes in result order. */
  function ReachedNodes(s: Snapshot, root: Id, depth: int, direction: Direction, includeRoot: bool): seq<NodeRow> {
    Sorting.SortBy(
      (a: NodeRow, b: NodeRow) => NodeRowLeq(root, a, b),
      FilterMap((n: Node) => NodeRowOf(s, root, depth, direction, includeRoot, n), s.nodes))
  }

  function ObjectGraphNodes(s: Snapshot, root: Id, depth: int, direction: Direction, includeRoot: bool,
                            limit: nat): seq<NodeRow> {
    Take(ReachedNodes(s, root, depth, direction, includeRoot), limit)
  }

  lemma NodeRowLeqIsTotal(root: Id)
    ensures Sorting.TotalPreorder((a: NodeRow, b: NodeRow) => NodeRowLeq(root, a, b))
  {
    hide Lexicographic.Leq;
    var le := (a: NodeRow, b: NodeRow) => NodeRowLeq(root, a, b);
    forall a, b ensures le(a, b) || le(b, a) {
      Lexicographic.Total(a.node.title, b.node.title);
    }
    forall a, b, c | le(a, b) && le(b, c) ensures le(a, c) {
      if Lexicographic.Less(a.node.title, b.node.title) && Lexicographic.Less(b.node.title, c.node.title) {
        Lexicographic.LessTransitive(a.node.title, b.node.title, c.node.title);
      }
    }
  }

  /** The row holds a node's shortest distance and its degrees. */
  predicate DescribesNode(s: Snapshot, root: Id, depth: int, direction: Direction, includeRoot: bool, row: NodeRow) {
    && Distance(Links(s), direction, depth, root, row.node.id) == Some(row.distance)
    && (includeRoot || row.node.id != root)
    && row.inDegree == InDegree(VisibleRelationships(s), row.node.id)
    && row.outDegree == OutDegree(VisibleRelationships(s), row.node.id)
  }

  lemma NodeRowDescribes(s: Snapshot, root: Id, depth: int, direction: Direction, includeRoot: bool, n: Node,
                         row: NodeRow)
    ensures NodeRowOf(s, root, depth, direction, includeRoot, n) == Some(row)
       <==> n == row.node && DescribesNode(s, root, depth, direction, includeRoot, row)
  {
    hide InDegree, OutDegree, Links, VisibleRelationships, Distance;
  }

  predicate SameNode(a: NodeRow, b: NodeRow) {
    a.node.id == b.node.id
  }

  lemma ReachedNodesMembers(s: Snapshot, root: Id, depth: int, direction: Direction, includeRoot: bool, row: NodeRow)
    ensures row in ReachedNodes(s, root, depth, direction, includeRoot)
       <==> row.node in s.nodes && DescribesNode(s, root, depth, direction, includeRoot, row)
  {
    var f := (n: Node) => NodeRowOf(s, root, depth, direction, includeRoot, n);
    FilterMapMembers(f, s.nodes, row);
    Sorting.MultisetMembership(FilterMap(f, s.nodes), ReachedNodes(s, root, depth, direction, includeRoot));
    hide NodeRowOf, DescribesNode, FilterMap, ReachedNodes;
    forall n
      ensures f(n) == Some(row) <==> n == row.node && DescribesNode(s, root, depth, direction, includeRoot, row)
    {
      NodeRowDescribes(s, root, depth, direction, includeRoot, n, row);
    }
  }

  /** Grouping leaves one row per node, however many paths the walk found to it. */
  lemma ReachedNodesOnce(s: Snapshot, root: Id, depth: int, direction: Direction, includeRoot: bool)
    requires IdsDistinct(s.nodes)
    ensures Sorting.OnePerGroup(SameNode, ReachedNodes(s, root, depth, direction, includeRoot))
  {
    var f := (n: Node) => NodeRowOf(s, root, depth, direction, includeRoot, n);
    var same := (m: Node, n: Node) => m.id == n.id;
    forall m, n | f(m).Some? && f(n).Some? && SameNode(f(m).value, f(n).value) ensures same(m, n) {
      NodeRowDescribes(s, root, depth, direction, includeRoot, m, f(m).value);
      NodeRowDescribes(s, root, depth, direction, includeRoot, n, f(n).value);
    }
    hide NodeRowOf, FilterMap;
    Sorting.FilterMapOnePerGroup(f, s.nodes, same, SameNode);
    Sorting.PermutedOnePerGroup(
      SameNode, FilterMap(f, s.nodes), ReachedNodes(s, root, depth, direction, includeRoot));
  }

  /**
   * The row shows a visible node with the length of a shortest path within the depth and the
   * numbers of active relationships that end and start there.
   */
  ghost predicate IsReachedNode(s: Snapshot, root: Id, depth: int, direction: Direction, includeRoot: bool,
                                row: NodeRow) {
    var v := row.node.id;
    && row.node in s.nodes && (includeRoot || v != root)
    && HasPath(Links(s), direction, root, v, row.distance) && (row.distance == 0 || row.distance <= depth)
    && (forall e: nat :: e < row.distance ==> !HasPath(Links(s), direction, root, v, e))
    && row.inDegree == |InEdges(s, v)| && row.outDegree == |OutEdges(s, v)|
  }

  lemma DescribedIsReached(s: Snapshot, root: Id, depth: int, direction: Direction, includeRoot: bool, row: NodeRow)
    ensures row.node in s.nodes && DescribesNode(s, root, depth, direction, includeRoot, row)
       <==> IsReachedNode(s, root, depth, direction, includeRoot, row)
  {
    hide Distance, HasPath, Links, InDegree, OutDegree, VisibleRelationships, InEdges, OutEdges;
    DegreesExact(s, row.node.id);
    DistanceIsShortestPath(Links(s), direction, depth, root, row.node.id, row.distance);
  }

  /** There is one row for each visible node reached, describing it, and no other row. */
  lemma ReachedNodesExact(s: Snapshot, root: Id, depth: int, direction: Direction, includeRoot: bool, row: NodeRow)
    ensures row in ReachedNodes(s, root, depth, direction, includeRoot)
       <==> IsReachedNode(s, root, depth, direction, includeRoot, row)
    ensures var rows := ReachedNodes(s, root, depth, direction, includeRoot);
            IdsDistinct(s.nodes) ==> forall i, j :: 0 <= i < j < |rows| ==> rows[i].node.id != rows[j].node.id
  {
    ReachedNodesMembers(s, root, depth, direction, includeRoot, row);
    DescribedIsReached(s, root, depth, direction, includeRoot, row);
    hide ReachedNodes, DescribesNode, IsReachedNode;
    if IdsDistinct(s.nodes) {
      ReachedNodesOnce(s, root, depth, direction, includeRoot);
      var rows := ReachedNodes(s, root, depth, direction, includeRoot);
      forall i, j | 0 <= i < j < |rows| ensures rows[i].node.id != rows[j].node.id {
        assert !SameNode(rows[i], rows[j]);
      }
    }
  }

  lemma RootDistance(links: set<Link>, direction: Direction, depth: int, root: Id)
    ensures Distance(links, direction, depth, root, root) == Some(0)
  {
    hide HasPath, Distance;
    NoHops(links, direction, root, root);
    DistanceIsShortestPath(links, direction, depth, root, root, 0);
  }

  /** Rows come in the query's order. */
  lemma ReachedNodesOrdered(s: Snapshot, root: Id, depth: int, direction: Direction, includeRoot: bool)
    ensures var rows := ReachedNodes(s, root, depth, direction, includeRoot);
            forall i, j :: 0 <= i < j < |rows| ==> NodeRowLeq(root, rows[i], rows[j])
  {
    var le := (a: NodeRow, b: NodeRow) => NodeRowLeq(root, a, b);
    var rows := ReachedNodes(s, root, depth, direction, includeRoot);
    NodeRowLeqIsTotal(root);
    Sorting.SortBySorts(le, FilterMap((n: Node) => NodeRowOf(s, root, depth, direction, includeRoot, n), s.nodes));
    hide NodeRowLeq, ReachedNodes;
    forall i, j | 0 <= i < j < |rows| ensures NodeRowLeq(root, rows[i], rows[j]) {
      assert le(rows[i], rows[j]);
    }
  }

  /** Rows come in order of distance, so the limit cuts off the farthest ones. */
  lemma DistancesAscend(s: Snapshot, root: Id, depth: int, direction: Direction, includeRoot: bool, i: nat, j: nat)
    requires i < j < |ReachedNodes(s, root, depth, direction, includeRoot)|
    ensures var rows := ReachedNodes(s, root, depth, direction, includeRoot); rows[i].distance <= rows[j].distance
  {
    var rows := ReachedNodes(s, root, depth, direction, includeRoot);
    ReachedNodesOrdered(s, root, depth, direction, includeRoot);
    assert NodeRowLeq(root, rows[i], rows[j]);
    ReachedNodesMembers(s, root, depth, direction, includeRoot, rows[i]);
    RootDistance(Links(s), direction, depth, root);
    hide ReachedNodes, Distance, Links;
    assert rows[i] in rows;
  }

  /** Nearer, or as near with the lesser title, or of the same title with no greater id. */
  ghost predicate ComesBefore(a: NodeRow, b: NodeRow) {
    || a.distance < b.distance
    || (a.distance == b.distance && exists k: nat :: Lexicographic.DiffersFirstAt(a.node.title, b.node.title, k))
    || (a.distance == b.distance && a.node.title == b.node.title && a.node.id <= b.node.id)
  }

  lemma RowsComeInOrder(s: Snapshot, root: Id, depth: int, direction: Direction, includeRoot: bool, i: nat, j: nat)
    requires i < j < |ReachedNodes(s, root, depth, direction, includeRoot)|
    ensures var rows := ReachedNodes(s, root, depth, direction, includeRoot); ComesBefore(rows[i], rows[j])
  {
    var rows := ReachedNodes(s, root, depth, direction, includeRoot);
    ReachedNodesOrdered(s, root, depth, direction, includeRoot);
    DistancesAscend(s, root, depth, direction, includeRoot, i, j);
    RootIsNearest(s, root, depth, direction, includeRoot, rows[i]);
    RootIsNearest(s, root, depth, direction, includeRoot, rows[j]);
    Lexicographic.LessAtFirstDifference(rows[i].node.title, rows[j].node.title);
    hide ReachedNodes, Lexicographic.Leq;
    assert NodeRowLeq(root, rows[i], rows[j]);
  }

  /** Listing the root first is listing the only row at distance zero first. */
  lemma RootIsNearest(s: Snapshot, root: Id, depth: int, direction: Direction, includeRoot: bool, row: NodeRow)
    requires row in ReachedNodes(s, root, depth, direction, includeRoot)
    ensures row.node.id == root <==> row.distance == 0
  {
    hide ReachedNodes, HasPath, Distance, Links, InDegree, OutDegree, VisibleRelationships;
    ReachedNodesMembers(s, root, depth, direction, includeRoot, row);
    RootDistance(Links(s), direction, depth, root);
    DistanceIsShortestPath(Links(s), direction, depth, root, row.node.id, row.distance);
    NoHops(Links(s), direction, root, row.node.id);
  }

  /**
   * The row limit: the query returns as many of the reached nodes as the limit allows, each once,
   * in the order of distance, title and id, and every node it leaves out comes later.
   */
  lemma LimitCutsFarthest(s: Snapshot, root: Id, depth: int, direction: Direction, includeRoot: bool, limit: nat,
                          row: NodeRow, other: NodeRow)
    ensures var rows := ReachedNodes(s, root, depth, direction, includeRoot);
            var kept := ObjectGraphNodes(s, root, depth, direction, includeRoot, limit);
            && |kept| == (if |rows| <= limit then |rows| else limit)
            && (IdsDistinct(s.nodes) ==> forall i, j :: 0 <= i < j < |kept| ==> kept[i].node.id != kept[j].node.id)
            && (forall i, j :: 0 <= i < j < |kept| ==> ComesBefore(kept[i], kept[j]))
            && (row in kept ==> row in rows)
            && (row in kept && other in rows && other !in kept ==> ComesBefore(row, other))
  {
    ReachedNodesExact(s, root, depth, direction, includeRoot, row);
    ReachedNodesOrdered(s, root, depth, direction, includeRoot);
    hide ReachedNodes, IsReachedNode, ComesBefore, NodeRowLeq;
    var rows := ReachedNodes(s, root, depth, direction, includeRoot);
    var kept := ObjectGraphNodes(s, root, depth, direction, includeRoot, limit);
    assert forall k :: 0 <= k < |kept| ==> kept[k] == rows[k];
    forall i, j | 0 <= i < j < |kept| ensures ComesBefore(kept[i], kept[j]) {
      RowsComeInOrder(s, root, depth, direction, includeRoot, i, j);
    }
    if row in kept && other in rows && other !in kept {
      var i :| 0 <= i < |kept| && kept[i] == row;
      var j :| 0 <= j < |rows| && rows[j] == other;
      assert |kept| <= j;
      RowsComeInOrder(s, root, depth, direction, includeRoot, i, j);
    }
  }

  // ---------------------------------------------------------------- the edge query

  predicate SamePair(a: LinkRow, b: LinkRow) {
    a.source == b.source && a.target == b.target
  }

  /** `has_relationship DESC, created_at DESC, id DESC` within a pair. */
  predicate Represents(a: LinkRow, b: LinkRow) {
    || (a.hasRelationship && !b.hasRelationship)
    || (a.hasRelationship == b.hasRelationship
        && (a.createdAt > b.createdAt || (a.createdAt == b.createdAt && a.id >= b.id)))
  }

  predicate PairLeq(a: LinkRow, b: LinkRow) {
    || a.source < b.source
    || (a.source == b.source && (a.target < b.target || (a.target == b.target && Represents(a, b))))
  }

  /** `BOOL_OR` over the window of the row's pair. */
  predicate PairHas(rows: seq<LinkRow>, r: LinkRow, relationship: bool) {
    exists i :: 0 <= i < |rows| && SamePair(rows[i], r) && rows[i].hasRelationship == relationship
  }

  function EdgeRowOf(rows: seq<LinkRow>, nodeIds: seq<Id>, r: LinkRow): Option<EdgeRow> {
    if r.source in nodeIds && r.target in nodeIds
    then Some(EdgeRow(r, PairHas(rows, r, true), PairHas(rows, r, false))) else None
  }

  /** The row numbered 1 of each pair, both ends in the node list. */
  function CollapsedEdges(s: Snapshot, nodeIds: seq<Id>): seq<EdgeRow> {
    var rows := GraphLinks(s);
    FilterMap(r => EdgeRowOf(rows, nodeIds, r), Sorting.FirstOfGroups(SamePair, PairLeq, rows))
  }

  /** `pair_has_relationship DESC, source, target, id`. */
  predicate EdgeRowLeq(a: EdgeRow, b: EdgeRow) {
    || (a.hasRelationship && !b.hasRelationship)
    || (a.hasRelationship == b.hasRelationship
        && (a.link.source < b.link.source
            || (a.link.source == b.link.source
                && (a.link.target < b.link.target || (a.link.target == b.link.target && a.link.id <= b.link.id)))))
  }

  function ObjectGraphEdges(s: Snapshot, nodeIds: seq<Id>, limit: nat): seq<EdgeRow> {
    Take(Sorting.SortBy(EdgeRowLeq, CollapsedEdges(s, nodeIds)), limit)
  }

  lemma PairsGroup()
    ensures Sorting.TotalPreorder(PairLeq) && Sorting.Groups(SamePair, PairLeq)
  {
  }

  predicate IsPair(e: EdgeRow, a: Id, b: Id) {
    e.link.source == a && e.link.target == b
  }

  predicate HasEdge(edges: seq<EdgeRow>, a: Id, b: Id) {
    exists k :: 0 <= k < |edges| && IsPair(edges[k], a, b)
  }

  lemma EdgeRowMembers(s: Snapshot, nodeIds: seq<Id>, e: EdgeRow)
    ensures e in CollapsedEdges(s, nodeIds)
       <==> && e.link in Sorting.FirstOfGroups(SamePair, PairLeq, GraphLinks(s))
            && EdgeRowOf(GraphLinks(s), nodeIds, e.link) == Some(e)
  {
    var rows := GraphLinks(s);
    var firsts := Sorting.FirstOfGroups(SamePair, PairLeq, rows);
    FilterMapMembers(r => EdgeRowOf(rows, nodeIds, r), firsts, e);
    hide GraphLinks, PairHas, FilterMap, Sorting.FirstOfGroups;
  }

  lemma EdgeFromLink(s: Snapshot, nodeIds: seq<Id>, a: Id, b: Id)
    requires (a, b) in Links(s) && a in nodeIds && b in nodeIds
    ensures HasEdge(CollapsedEdges(s, nodeIds), a, b)
  {
    var rows := GraphLinks(s);
    LinkRowOfPair(s, a, b);
    PairsGroup();
    Sorting.FirstOfGroupsSpec(SamePair, PairLeq, rows);
    hide GraphLinks, Links, PairLeq, PairHas, CollapsedEdges, Sorting.FirstOfGroups;
    var r :| r in rows && r.source == a && r.target == b;
    var firsts := Sorting.FirstOfGroups(SamePair, PairLeq, rows);
    assert Sorting.HasGroup(SamePair, firsts, r);
    var i :| 0 <= i < |firsts| && SamePair(firsts[i], r);
    var e := EdgeRowOf(rows, nodeIds, firsts[i]).value;
    EdgeRowMembers(s, nodeIds, e);
    assert IsPair(e, a, b);
  }

  lemma LinkFromEdge(s: Snapshot, nodeIds: seq<Id>, e: EdgeRow)
    requires e in CollapsedEdges(s, nodeIds)
    ensures (e.link.source, e.link.target) in Links(s) && e.link.source in nodeIds && e.link.target in nodeIds
    ensures e.link in GraphLinks(s)
    ensures forall r :: r in GraphLinks(s) && SamePair(r, e.link) ==> Represents(e.link, r)
  {
    var rows := GraphLinks(s);
    EdgeRowMembers(s, nodeIds, e);
    PairsGroup();
    Sorting.FirstOfGroupsSpec(SamePair, PairLeq, rows);
    assert Sorting.IsFirst(SamePair, PairLeq, rows, e.link);
    LinkRowOfPair(s, e.link.source, e.link.target);
    hide GraphLinks, Links, PairHas, CollapsedEdges, Sorting.FirstOfGroups, Represents;
  }

  predicate SameEdge(e: EdgeRow, e': EdgeRow) {
    SamePair(e.link, e'.link)
  }

  /** No pair has two edge rows. */
  lemma CollapsedEdgesOnce(s: Snapshot, nodeIds: seq<Id>)
    ensures Sorting.OnePerGroup(SameEdge, CollapsedEdges(s, nodeIds))
  {
    var rows := GraphLinks(s);
    PairsGroup();
    Sorting.FirstOfGroupsSpec(SamePair, PairLeq, rows);
    hide GraphLinks, PairLeq, PairHas, FilterMap, Sorting.FirstOfGroups;
    Sorting.FilterMapOnePerGroup(
      r => EdgeRowOf(rows, nodeIds, r), Sorting.FirstOfGroups(SamePair, PairLeq, rows), SamePair, SameEdge);
  }

  /** Between two nodes of the list there is one edge row if they are linked, and none otherwise. */
  lemma OneEdgePerPair(s: Snapshot, nodeIds: seq<Id>, a: Id, b: Id)
    ensures HasEdge(CollapsedEdges(s, nodeIds), a, b) <==> (a, b) in Links(s) && a in nodeIds && b in nodeIds
    ensures var edges := CollapsedEdges(s, nodeIds);
            forall i, j :: 0 <= i < j < |edges| ==> !SamePair(edges[i].link, edges[j].link)
  {
    hide GraphLinks, Links, CollapsedEdges;
    var edges := CollapsedEdges(s, nodeIds);
    if (a, b) in Links(s) && a in nodeIds && b in nodeIds {
      EdgeFromLink(s, nodeIds, a, b);
    }
    if HasEdge(edges, a, b) {
      var k :| 0 <= k < |edges| && IsPair(edges[k], a, b);
      LinkFromEdge(s, nodeIds, edges[k]);
    }
    CollapsedEdgesOnce(s, nodeIds);
    forall i, j | 0 <= i < j < |edges| ensures !SamePair(edges[i].link, edges[j].link) {
      assert !SameEdge(edges[i], edges[j]);
    }
  }

  /** Pairs with a relationship come first; then the pairs of objects ascend. */
  predicate ShownBefore(a: EdgeRow, b: EdgeRow) {
    && (b.hasRelationship ==> a.hasRelationship)
    && (a.hasRelationship == b.hasRelationship ==>
          || a.link.source < b.link.source
          || (a.link.source == b.link.source && a.link.target < b.link.target))
  }

  lemma EdgeRowLeqIsTotal()
    ensures Sorting.TotalPreorder(EdgeRowLeq)
  {
  }

  lemma SortedIsShownBefore(a: EdgeRow, b: EdgeRow)
    requires EdgeRowLeq(a, b) && !SamePair(a.link, b.link)
    ensures ShownBefore(a, b)
  {
  }

  /**
   * The edge query: as many of the pairs' rows as the limit allows, in order, never two of a pair;
   * within the limit a row for every linked pair of the list.
   */
  lemma ReturnedEdgesExact(s: Snapshot, nodeIds: seq<Id>, limit: nat, a: Id, b: Id)
    ensures var all := CollapsedEdges(s, nodeIds);
            var edges := ObjectGraphEdges(s, nodeIds, limit);
            && |edges| == (if |all| <= limit then |all| else limit)
            && (forall i, j :: 0 <= i < j < |edges| ==> ShownBefore(edges[i], edges[j]))
            && (forall i, j :: 0 <= i < j < |edges| ==> !SamePair(edges[i].link, edges[j].link))
            && (HasEdge(edges, a, b) ==> (a, b) in Links(s) && a in nodeIds && b in nodeIds)
            && (|all| <= limit && (a, b) in Links(s) && a in nodeIds && b in nodeIds ==> HasEdge(edges, a, b))
  {
    hide Links, CollapsedEdges, EdgeRowLeq;
    var all := CollapsedEdges(s, nodeIds);
    var edges := ObjectGraphEdges(s, nodeIds, limit);
    var sorted := Sorting.SortBy(EdgeRowLeq, all);
    EdgeRowLeqIsTotal();
    Sorting.SortBySorts(EdgeRowLeq, all);
    CollapsedEdgesOnce(s, nodeIds);
    Sorting.PermutedOnePerGroup(SameEdge, all, sorted);
    assert forall k :: 0 <= k < |edges| ==> edges[k] == sorted[k];
    OneEdgePerPair(s, nodeIds, a, b);
    Sorting.MultisetMembership(all, sorted);
    forall i, j | 0 <= i < j < |edges|
      ensures !SamePair(edges[i].link, edges[j].link) && ShownBefore(edges[i], edges[j])
    {
      assert !SameEdge(sorted[i], sorted[j]);
      SortedIsShownBefore(sorted[i], sorted[j]);
    }
    if HasEdge(edges, a, b) {
      var k :| 0 <= k < |edges| && IsPair(edges[k], a, b);
      assert sorted[k] in all;
    }
    if |all| <= limit && HasEdge(all, a, b) {
      AllEdgesReturned(s, nodeIds, limit, a, b);
    }
  }

  lemma PairHasRelationship(s: Snapshot, r: LinkRow)
    ensures PairHas(GraphLinks(s), r, true) <==> HasActiveRelationship(s, r.source, r.target)
  {
    var rows := GraphLinks(s);
    hide VisibleRelationships, VisibleReferences, IsRelationship, IsLiveReference;
    if i :| 0 <= i < |rows| && SamePair(rows[i], r) && rows[i].hasRelationship == true {
      assert rows[i] in rows;
      RelationshipRowsExact(s, rows[i]);
      ReferenceRowsExact(s, rows[i]);
      var e :| IsRelationship(s, e) && ShowsRelationship(rows[i], e);
      assert Relates(s, e, r.source, r.target);
    }
    if e :| Relates(s, e, r.source, r.target) {
      var row := LinkRow(e.id, e.source, e.target, true, e.createdAt);
      assert ShowsRelationship(row, e);
      RelationshipRowsExact(s, row);
      assert row in rows;
    }
  }

  lemma PairHasReference(s: Snapshot, r: LinkRow)
    ensures PairHas(GraphLinks(s), r, false) <==> HasCurrentReference(s, r.source, r.target)
  {
    var rows := GraphLinks(s);
    hide VisibleRelationships, VisibleReferences, IsRelationship, IsLiveReference;
    if i :| 0 <= i < |rows| && SamePair(rows[i], r) && rows[i].hasRelationship == false {
      assert rows[i] in rows;
      RelationshipRowsExact(s, rows[i]);
      ReferenceRowsExact(s, rows[i]);
      var q :| IsLiveReference(s, q) && ShowsReference(rows[i], q);
      assert Refers(s, q, r.source, r.target);
    }
    if q :| Refers(s, q, r.source, r.target) {
      var row := LinkRow(q.id, q.source, q.target.value, false, q.createdAt);
      assert ShowsReference(row, q);
      ReferenceRowsExact(s, row);
      assert row in rows;
    }
  }

  /** The preferred row of a pair shows its newest relationship or, without one, its newest reference. */
  lemma PreferredIsNewest(s: Snapshot, link: LinkRow)
    requires link in GraphLinks(s)
    requires forall r :: r in GraphLinks(s) && SamePair(r, link) ==> Represents(link, r)
    ensures if HasActiveRelationship(s, link.source, link.target)
            then exists e :: IsNewestRelationship(s, e) && ShowsRelationship(link, e)
            else exists r :: IsNewestReference(s, r) && ShowsReference(link, r)
  {
    hide VisibleRelationships, VisibleReferences, IsRelationship, IsLiveReference;
    RelationshipRowsExact(s, link);
    ReferenceRowsExact(s, link);
    forall e | Relates(s, e, link.source, link.target)
      ensures Represents(link, LinkRow(e.id, e.source, e.target, true, e.createdAt))
    {
      var row := LinkRow(e.id, e.source, e.target, true, e.createdAt);
      assert ShowsRelationship(row, e);
      RelationshipRowsExact(s, row);
      assert row in GraphLinks(s);
    }
    forall q | Refers(s, q, link.source, link.target)
      ensures Represents(link, LinkRow(q.id, q.source, q.target.value, false, q.createdAt))
    {
      var row := LinkRow(q.id, q.source, q.target.value, false, q.createdAt);
      assert ShowsReference(row, q);
      ReferenceRowsExact(s, row);
      assert row in GraphLinks(s);
    }
    hide GraphLinks;
    if e :| IsRelationship(s, e) && ShowsRelationship(link, e) {
      assert Relates(s, e, link.source, link.target);
      assert IsNewestRelationship(s, e);
    } else {
      var r :| IsLiveReference(s, r) && ShowsReference(link, r);
      assert Refers(s, r, link.source, link.target);
      assert IsNewestReference(s, r);
    }
  }

  /** Each flag is the OR over its source table, and the row shown is the pair's newest preferred one. */
  lemma EdgeFlagsExact(s: Snapshot, nodeIds: seq<Id>, e: EdgeRow)
    requires e in CollapsedEdges(s, nodeIds)
    ensures e.hasRelationship <==> HasActiveRelationship(s, e.link.source, e.link.target)
    ensures e.hasReference <==> HasCurrentReference(s, e.link.source, e.link.target)
    ensures if e.hasRelationship then exists x :: IsNewestRelationship(s, x) && ShowsRelationship(e.link, x)
            else exists x :: IsNewestReference(s, x) && ShowsReference(e.link, x)
  {
    EdgeRowMembers(s, nodeIds, e);
    LinkFromEdge(s, nodeIds, e);
    PairHasRelationship(s, e.link);
    PairHasReference(s, e.link);
    PreferredIsNewest(s, e.link);
    hide *;
  }

  // ---------------------------------------------------------------- the queries together

  function NodeIds(rows: seq<NodeRow>): seq<Id> {
    seq(|rows|, i requires 0 <= i < |rows| => rows[i].node.id)
  }

  /** A node reached at a distance has a visible predecessor one hop closer to the root. */
  lemma VisiblePredecessor(s: Snapshot, root: Id, depth: int, direction: Direction, v: Id, n: nat) returns (u: Id)
    requires Distance(Links(s), direction, depth, root, v) == Some(n + 1)
    ensures Distance(Links(s), direction, depth, root, u) == Some(n) && IsVisible(s, u)
    ensures (direction != Incoming && (u, v) in Links(s)) || (direction != Outgoing && (v, u) in Links(s))
  {
    u := PredecessorReached(Links(s), direction, depth, root, v, n);
    LinkRowOfPair(s, u, v);
    LinkRowOfPair(s, v, u);
    hide GraphLinks, Links, Distance, IsVisible;
    if direction != Incoming && (u, v) in Links(s) {
      var r :| r in GraphLinks(s) && r.source == u && r.target == v;
      LinkEndsVisible(s, r);
    } else {
      var r :| r in GraphLinks(s) && r.source == v && r.target == u;
      LinkEndsVisible(s, r);
    }
  }

  /** A visible node reached closer to the root than a returned node is returned as well. */
  lemma CloserIsReturned(s: Snapshot, root: Id, depth: int, direction: Direction, includeRoot: bool, limit: nat,
                         row: NodeRow, u: Id)
    requires row in ObjectGraphNodes(s, root, depth, direction, includeRoot, limit)
    requires IsVisible(s, u) && (includeRoot || u != root)
    requires var d := Distance(Links(s), direction, depth, root, u); d.Some? && d.value < row.distance
    ensures u in NodeIds(ObjectGraphNodes(s, root, depth, direction, includeRoot, limit))
  {
    var rows := ReachedNodes(s, root, depth, direction, includeRoot);
    var k :| 0 <= k < |s.nodes| && s.nodes[k].id == u;
    var d := Distance(Links(s), direction, depth, root, u).value;
    var closer := NodeRow(s.nodes[k], d, InDegree(VisibleRelationships(s), u), OutDegree(VisibleRelationships(s), u));
    ReachedNodesMembers(s, root, depth, direction, includeRoot, closer);
    hide ReachedNodes, Distance, InDegree, OutDegree, VisibleRelationships, Links;
    var kept := ObjectGraphNodes(s, root, depth, direction, includeRoot, limit);
    var j :| 0 <= j < |kept| && kept[j] == row;
    var i :| 0 <= i < |rows| && rows[i] == closer;
    if j < i {
      DistancesAscend(s, root, depth, direction, includeRoot, j, i);
    }
    assert i < j && kept[i] == closer;
    assert NodeIds(kept)[i] == u;
  }

  lemma KeptIsReached(s: Snapshot, root: Id, depth: int, direction: Direction, includeRoot: bool, limit: nat,
                      row: NodeRow)
    requires row in ObjectGraphNodes(s, root, depth, direction, includeRoot, limit)
    ensures Distance(Links(s), direction, depth, root, row.node.id) == Some(row.distance)
    ensures row.node.id in NodeIds(ObjectGraphNodes(s, root, depth, direction, includeRoot, limit))
  {
    hide Distance, Links, ReachedNodes;
    var kept := ObjectGraphNodes(s, root, depth, direction, includeRoot, limit);
    assert row in ReachedNodes(s, root, depth, direction, includeRoot);
    ReachedNodesMembers(s, root, depth, direction, includeRoot, row);
    var k :| 0 <= k < |kept| && kept[k] == row;
    assert NodeIds(kept)[k] == row.node.id;
  }

  lemma AllEdgesReturned(s: Snapshot, nodeIds: seq<Id>, limit: nat, a: Id, b: Id)
    requires |CollapsedEdges(s, nodeIds)| <= limit && HasEdge(CollapsedEdges(s, nodeIds), a, b)
    ensures HasEdge(ObjectGraphEdges(s, nodeIds, limit), a, b)
  {
    var edges := CollapsedEdges(s, nodeIds);
    var sorted := Sorting.SortBy(EdgeRowLeq, edges);
    hide CollapsedEdges, EdgeRowLeq;
    var k :| 0 <= k < |edges| && IsPair(edges[k], a, b);
    Sorting.MultisetMembership(edges, sorted);
    assert edges[k] in sorted;
    var i :| 0 <= i < |sorted| && sorted[i] == edges[k];
    assert ObjectGraphEdges(s, nodeIds, limit) == sorted;
  }

  /**
   * The two responses fit together: every returned node other than the root has a predecessor one
   * hop closer; unless that is an excluded root, it is returned too, whatever the node limit, and
   * the edge query for the returned nodes links the two when its limit is not hit.
   */
  lemma ReturnedNodesAreLinked(s: Snapshot, root: Id, depth: int, direction: Direction, includeRoot: bool,
                               nodeLimit: nat, edgeLimit: nat, row: NodeRow) returns (u: Id)
    requires row in ObjectGraphNodes(s, root, depth, direction, includeRoot, nodeLimit) && row.distance > 0
    ensures Distance(Links(s), direction, depth, root, u) == Some(row.distance - 1)
    ensures var ids := NodeIds(ObjectGraphNodes(s, root, depth, direction, includeRoot, nodeLimit));
            var edges := ObjectGraphEdges(s, ids, edgeLimit);
            includeRoot || u != root ==>
              && u in ids
              && (|CollapsedEdges(s, ids)| <= edgeLimit ==>
                    || (direction != Incoming && HasEdge(edges, u, row.node.id))
                    || (direction != Outgoing && HasEdge(edges, row.node.id, u)))
  {
    hide Distance, Links, IsVisible, ReachedNodes, CollapsedEdges, HasEdge, ObjectGraphNodes, ObjectGraphEdges;
    var v := row.node.id;
    var ids := NodeIds(ObjectGraphNodes(s, root, depth, direction, includeRoot, nodeLimit));
    KeptIsReached(s, root, depth, direction, includeRoot, nodeLimit, row);
    u := VisiblePredecessor(s, root, depth, direction, v, row.distance - 1);
    if includeRoot || u != root {
      CloserIsReturned(s, root, depth, direction, includeRoot, nodeLimit, row, u);
      var (a, b) := if direction != Incoming && (u, v) in Links(s) then (u, v) else (v, u);
      OneEdgePerPair(s, ids, a, b);
      if |CollapsedEdges(s, ids)| <= edgeLimit {
        AllEdgesReturned(s, ids, edgeLimit, a, b);
      }
    }
  }
}
