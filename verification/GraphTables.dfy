/**
 * The tables the graph queries read, and what their rows mean to a reader of the graph.
 *
 * `nodes` are the visible active objects, each with a current version; a title is its collation
 * key. Rows of the edge and reference tables come in any order.
 */
module GraphTables {
  import opened Prelude

  type Id = nat

  datatype Node = Node(id: Id, title: seq<int>, currentVersion: Id)

  datatype Edge = Edge(id: Id, source: Id, target: Id, createdAt: int, revoked: bool)

  datatype Reference = Reference(
    id: Id, source: Id, sourceVersion: Id, target: Option<Id>, resolved: bool, createdAt: int)

  datatype Snapshot = Snapshot(nodes: seq<Node>, edges: seq<Edge>, references: seq<Reference>)

  ghost predicate IsShown(s: Snapshot, v: Id) {
    exists n :: n in s.nodes && n.id == v
  }

  ghost predicate IsShownAt(s: Snapshot, v: Id, version: Id) {
    exists n :: n in s.nodes && n.id == v && n.currentVersion == version
  }

  /** An active relationship between two visible objects. */
  ghost predicate IsRelationship(s: Snapshot, e: Edge) {
    e in s.edges && !e.revoked && IsShown(s, e.source) && IsShown(s, e.target)
  }

  /** A resolved reference from the current version of one visible object to another one. */
  ghost predicate IsLiveReference(s: Snapshot, r: Reference) {
    && r in s.references && r.resolved && r.target.Some? && r.target.value != r.source
    && IsShownAt(s, r.source, r.sourceVersion) && IsShown(s, r.target.value)
  }

  ghost predicate Relates(s: Snapshot, e: Edge, a: Id, b: Id) {
    IsRelationship(s, e) && e.source == a && e.target == b
  }

  ghost predicate Refers(s: Snapshot, r: Reference, a: Id, b: Id) {
    IsLiveReference(s, r) && r.source == a && r.target == Some(b)
  }

  ghost predicate HasActiveRelationship(s: Snapshot, a: Id, b: Id) {
    exists e :: Relates(s, e, a, b)
  }

  ghost predicate HasCurrentReference(s: Snapshot, a: Id, b: Id) {
    exists r :: Refers(s, r, a, b)
  }

  /** Positions of the active relationships that end in `v`. */
  ghost function InEdges(s: Snapshot, v: Id): set<nat> {
    set i: nat | i < |s.edges| && IsRelationship(s, s.edges[i]) && s.edges[i].target == v
  }

  /** Positions of the active relationships that start in `v`. */
  ghost function OutEdges(s: Snapshot, v: Id): set<nat> {
    set i: nat | i < |s.edges| && IsRelationship(s, s.edges[i]) && s.edges[i].source == v
  }

  /** Newer than the other row, or of the same time with no smaller id. */
  predicate NoOlder(createdAt: int, id: Id, otherCreatedAt: int, otherId: Id) {
    createdAt > otherCreatedAt || (createdAt == otherCreatedAt && id >= otherId)
  }

  /** The newest active relationship of its pair. */
  ghost predicate IsNewestRelationship(s: Snapshot, e: Edge) {
    && IsRelationship(s, e)
    && forall f :: Relates(s, f, e.source, e.target) ==> NoOlder(e.createdAt, e.id, f.createdAt, f.id)
  }

  /** The newest live reference of its pair. */
  ghost predicate IsNewestReference(s: Snapshot, r: Reference) {
    && IsLiveReference(s, r)
    && forall q :: Refers(s, q, r.source, r.target.value) ==> NoOlder(r.createdAt, r.id, q.createdAt, q.id)
  }
}
