/**
 * The explicit locks each kernel transition requests, in order.
 *
 * Row locks are shared (`FOR SHARE`) or exclusive (`FOR UPDATE`, or a plain `UPDATE` of the row);
 * title locks are exclusive advisory locks.
 */
module LockOrder {
  import opened Prelude
  import Lexicographic
  import Sorting

  type Id = nat

  datatype Resource =
    | Workspace(id: Id)
    | Object(id: Id)
    | Grant(id: Id)
    | Title(workspace: Id, title: string)
    | Thread(id: Id)
    | Comment(id: Id)

  datatype Request = Request(resource: Resource, mode: Mode)

  predicate Conflict(a: Mode, b: Mode) {
    a == Update || b == Update
  }

  // ---------------------------------------------------------------- the global order

  function Chars(s: string): seq<int> {
    seq(|s|, i requires 0 <= i < |s| => s[i] as int)
  }

  /** Parents before children, then ids; titles in dictionary order; threads before comments. */
  function Rank(r: Resource): seq<int> {
    match r
    case Workspace(id) => [0, id]
    case Object(id) => [1, id]
    case Grant(id) => [2, id]
    case Title(workspace, title) => [3, workspace] + Chars(title)
    case Thread(id) => [4, id]
    case Comment(id) => [5, id]
  }

  predicate Leq(a: Resource, b: Resource) {
    Lexicographic.Leq(Rank(a), Rank(b))
  }

  predicate Before(a: Resource, b: Resource) {
    Leq(a, b) && a != b
  }

  lemma RankInjective(a: Resource, b: Resource)
    requires Rank(a) == Rank(b)
    ensures a == b
  {
    assert Rank(a)[0] == Rank(b)[0] && Rank(a)[1] == Rank(b)[1];
    if a.Title? {
      assert Chars(a.title) == Rank(a)[2..] == Rank(b)[2..] == Chars(b.title);
      forall i | 0 <= i < |a.title| ensures a.title[i] == b.title[i] {
        assert Chars(a.title)[i] == Chars(b.title)[i];
      }
    }
  }

  lemma LeqIsTotalOrder()
    ensures Sorting.TotalPreorder(Leq)
    ensures forall xs: seq<Resource> :: Sorting.AntisymmetricOn(Leq, xs)
  {
    hide Rank;
    forall a, b ensures Leq(a, b) || Leq(b, a) {
      Lexicographic.Total(Rank(a), Rank(b));
    }
    forall a, b, c | Leq(a, b) && Leq(b, c) ensures Leq(a, c) {
      Lexicographic.Transitive(Rank(a), Rank(b), Rank(c));
    }
    forall a, b | Leq(a, b) && Leq(b, a) ensures a == b {
      Lexicographic.Antisymmetric(Rank(a), Rank(b));
      RankInjective(a, b);
    }
  }

  lemma BeforeTransitive(a: Resource, b: Resource, c: Resource)
    requires Before(a, b) && Before(b, c)
    ensures Before(a, c)
  {
    LeqIsTotalOrder();
    assert Sorting.AntisymmetricOn(Leq, [a, b, c]);
  }

  // ---------------------------------------------------------------- ordered request sequences

  /** The request is already covered by an earlier one, so it cannot wait. */
  predicate Covered(p: seq<Request>, r: Request) {
    exists i :: 0 <= i < |p| && p[i].resource == r.resource && (p[i].mode == Update || r.mode == Share)
  }

  predicate Above(p: seq<Request>, r: Resource) {
    forall i :: 0 <= i < |p| ==> Before(p[i].resource, r)
  }

  /**
   * Every request repeats a lock already held strongly enough, or asks for a resource after all
   * earlier ones. In particular no request upgrades a share to an update.
   */
  predicate Ordered(p: seq<Request>) {
    forall j :: 0 <= j < |p| ==> Covered(p[..j], p[j]) || Above(p[..j], p[j].resource)
  }

  predicate Increasing(p: seq<Request>) {
    forall i, j :: 0 <= i < j < |p| ==> Before(p[i].resource, p[j].resource)
  }

  lemma IncreasingIsOrdered(p: seq<Request>)
    requires Increasing(p)
    ensures Ordered(p)
  {
    hide Before;
  }

  lemma {:induction false} OrderedAppend(p: seq<Request>, q: seq<Request>)
    requires Ordered(p)
    requires forall j :: 0 <= j < |q| ==> Covered(p, q[j]) || (Above(p, q[j].resource) && Above(q[..j], q[j].resource))
    ensures Ordered(p + q)
    decreases |q|
  {
    if q == [] {
      assert p + q == p;
    } else {
      var last := |q| - 1;
      var init := q[..last];
      hide Before;
      forall j | 0 <= j < |init|
        ensures Covered(p, init[j]) || (Above(p, init[j].resource) && Above(init[..j], init[j].resource))
      {
        assert init[..j] == q[..j];
      }
      OrderedAppend(p, init);
      AppendOne(p + init, q[last]) by {
        if Covered(p, q[last]) {
          var i :| 0 <= i < |p| && p[i].resource == q[last].resource && (p[i].mode == Update || q[last].mode == Share);
          assert (p + init)[i] == p[i];
        }
      }
      assert p + q == (p + init) + [q[last]];
    }
  }

  lemma AppendOne(p: seq<Request>, r: Request)
    requires Ordered(p)
    requires Covered(p, r) || Above(p, r.resource)
    ensures Ordered(p + [r])
  {
    hide Before, Covered, Above;
    var q := p + [r];
    forall j | 0 <= j < |q| ensures Covered(q[..j], q[j]) || Above(q[..j], q[j].resource) {
      if j < |p| {
        assert q[..j] == p[..j];
      } else {
        assert q[..j] == p;
      }
    }
  }

  // ---------------------------------------------------------------- the kernel's lock sequences

  function Shares(ids: seq<Id>): seq<Request> {
    seq(|ids|, i requires 0 <= i < |ids| => Request(Object(ids[i]), Share))
  }

  predicate IdLeq(a: Id, b: Id) {
    a <= b
  }

  /** Distinct ids in ascending order, as `sort_unstable` and `dedup` leave them. */
  function InIdOrder(ids: seq<Id>): seq<Id> {
    Sorting.Dedup(Sorting.SortBy(IdLeq, ids))
  }

  /** Pins the workspace, then distinct objects in id order. */
  function LockObjectsForReference(workspace: Id, ids: seq<Id>): seq<Request> {
    [Request(Workspace(workspace), Share)] + Shares(InIdOrder(ids))
  }

  /** Pins the workspace, then takes the object for update. */
  function LockObject(workspace: Id, o: Id): seq<Request> {
    [Request(Workspace(workspace), Share), Request(Object(o), Update)]
  }

  predicate TitleLeq(a: string, b: string) {
    Lexicographic.Leq(Chars(a), Chars(b))
  }

  function InTitleOrder(titles: seq<string>): seq<string> {
    Sorting.Dedup(Sorting.SortBy(TitleLeq, titles))
  }

  /** The advisory title locks, in the order of the deduplicating tree set. */
  function LockTitles(workspace: Id, titles: seq<string>): seq<Request> {
    var order := InTitleOrder(titles);
    seq(|order|, i requires 0 <= i < |order| => Request(Title(workspace, order[i]), Update))
  }

  /**
   * The kernel's transitions with the reference maintenance their callers run in the same
   * transaction. `titles` are the source's wikilink targets together with the affected titles.
   */
  datatype Transition =
    | CreateObject(workspace: Id, target: Id, titles: seq<string>)
    | UpdateObject(workspace: Id, target: Id, titles: seq<string>)
    | ArchiveObject(workspace: Id, target: Id, titles: seq<string>)
    | UnarchiveObject(workspace: Id, target: Id, titles: seq<string>)
    | ChangeWorkspace(workspace: Id)
    | CreateGrant(workspace: Id, target: Id)
    | ChangeGrant(workspace: Id, target: Id, grant: Id)
    | ChangeEdge(workspace: Id, source: Id, target: Id)
    | StartThread(workspace: Id, target: Id)
    | LockThread(workspace: Id, target: Id, thread: Id)
    | LockComment(workspace: Id, target: Id, thread: Id, comment: Id)

  function Requests(t: Transition): seq<Request> {
    match t
    case CreateObject(workspace, target, titles) =>
      [Request(Workspace(workspace), Share)] + LockObject(workspace, target) + LockTitles(workspace, titles)
    case UpdateObject(workspace, target, titles) =>
      LockObject(workspace, target) + LockObject(workspace, target) + LockTitles(workspace, titles)
    case ArchiveObject(workspace, target, titles) => LockObject(workspace, target) + LockTitles(workspace, titles)
    case UnarchiveObject(workspace, target, titles) => LockObject(workspace, target) + LockTitles(workspace, titles)
    case ChangeWorkspace(workspace) => [Request(Workspace(workspace), Update)]
    case CreateGrant(workspace, target) => LockObjectsForReference(workspace, [target])
    case ChangeGrant(workspace, target, grant) => LockObject(workspace, target) + [Request(Grant(grant), Update)]
    case ChangeEdge(workspace, source, target) => LockObjectsForReference(workspace, [source, target])
    case StartThread(workspace, target) => LockObjectsForReference(workspace, [target])
    case LockThread(workspace, target, thread) =>
      LockObjectsForReference(workspace, [target]) + [Request(Thread(thread), Update)]
    case LockComment(workspace, target, thread, comment) =>
      LockObjectsForReference(workspace, [target])
        + [Request(Thread(thread), Update), Request(Comment(comment), Update)]
  }

  lemma InIdOrderSpec(ids: seq<Id>)
    ensures forall i, j :: 0 <= i < j < |InIdOrder(ids)| ==> InIdOrder(ids)[i] < InIdOrder(ids)[j]
    ensures forall o :: o in InIdOrder(ids) <==> o in ids
  {
    var sorted := Sorting.SortBy(IdLeq, ids);
    Sorting.SortBySorts(IdLeq, ids);
    Sorting.DedupSorted(IdLeq, sorted);
    Sorting.DedupElements(sorted);
    Sorting.MultisetMembership(ids, sorted);
  }

  lemma InTitleOrderSpec(titles: seq<string>)
    ensures Sorting.StrictlySortedBy(TitleLeq, InTitleOrder(titles))
    ensures forall t :: t in InTitleOrder(titles) <==> t in titles
  {
    var sorted := Sorting.SortBy(TitleLeq, titles);
    TitleLeqIsTotalOrder(sorted);
    Sorting.SortBySorts(TitleLeq, titles);
    Sorting.DedupSorted(TitleLeq, sorted);
    Sorting.DedupElements(sorted);
    Sorting.MultisetMembership(titles, sorted);
  }

  lemma TitleLeqIsTotalOrder(titles: seq<string>)
    ensures Sorting.TotalPreorder(TitleLeq) && Sorting.AntisymmetricOn(TitleLeq, titles)
  {
    hide Chars;
    forall a, b ensures TitleLeq(a, b) || TitleLeq(b, a) {
      Lexicographic.Total(Chars(a), Chars(b));
    }
    forall a, b, c | TitleLeq(a, b) && TitleLeq(b, c) ensures TitleLeq(a, c) {
      Lexicographic.Transitive(Chars(a), Chars(b), Chars(c));
    }
    forall a, b | TitleLeq(a, b) && TitleLeq(b, a) ensures a == b {
      Lexicographic.Antisymmetric(Chars(a), Chars(b));
      CharsInjective(a, b);
    }
  }

  lemma CharsInjective(a: string, b: string)
    requires Chars(a) == Chars(b)
    ensures a == b
  {
    assert |a| == |Chars(a)| == |Chars(b)| == |b|;
    forall i | 0 <= i < |a| ensures a[i] == b[i] {
      assert Chars(a)[i] == Chars(b)[i];
    }
  }

  lemma IdsInOrder(a: Id, b: Id)
    requires a < b
    ensures Before(Object(a), Object(b))
  {
  }

  lemma KindsInOrder(a: Resource, b: Resource)
    requires Rank(a)[0] < Rank(b)[0]
    ensures Before(a, b)
  {
  }

  lemma TitlesInOrder(workspace: Id, a: string, b: string)
    requires TitleLeq(a, b) && a != b
    ensures Before(Title(workspace, a), Title(workspace, b))
  {
    var x, y := [3, workspace] + Chars(a), [3, workspace] + Chars(b);
    assert x[1..][1..] == Chars(a) && y[1..][1..] == Chars(b);
    assert Lexicographic.Leq(x[1..], y[1..]);
  }

  lemma ReferenceLocksOrdered(workspace: Id, ids: seq<Id>)
    ensures Ordered(LockObjectsForReference(workspace, ids))
    ensures forall r :: r in LockObjectsForReference(workspace, ids) ==> r.resource.Workspace? || r.resource.Object?
  {
    var p := LockObjectsForReference(workspace, ids);
    InIdOrderSpec(ids);
    hide InIdOrder, Before;
    forall i, j | 0 <= i < j < |p| ensures Before(p[i].resource, p[j].resource) {
      if i == 0 {
        KindsInOrder(p[i].resource, p[j].resource);
      } else {
        IdsInOrder(p[i].resource.id, p[j].resource.id);
      }
    }
    IncreasingIsOrdered(p);
  }

  lemma ObjectLocksOrdered(workspace: Id, o: Id)
    ensures Ordered(LockObject(workspace, o))
    ensures Ordered(LockObject(workspace, o) + LockObject(workspace, o))
    ensures Ordered([Request(Workspace(workspace), Share)] + LockObject(workspace, o))
  {
    var p := LockObject(workspace, o);
    KindsInOrder(Workspace(workspace), Object(o));
    hide Before;
    assert Increasing(p);
    IncreasingIsOrdered(p);
    assert Covered(p, p[0]) && Covered(p, p[1]);
    OrderedAppend(p, p);
    var w := [Request(Workspace(workspace), Share)];
    assert Increasing(w);
    IncreasingIsOrdered(w);
    assert Covered(w, p[0]);
    AppendOne(w, p[0]);
    assert Above(w + [p[0]], p[1].resource);
    AppendOne(w + [p[0]], p[1]);
    assert w + p == (w + [p[0]]) + [p[1]];
  }

  /** Title locks come after any workspace and object locks. */
  lemma ThenTitles(p: seq<Request>, workspace: Id, titles: seq<string>)
    requires Ordered(p)
    requires forall r :: r in p ==> r.resource.Workspace? || r.resource.Object?
    ensures Ordered(p + LockTitles(workspace, titles))
  {
    var q := LockTitles(workspace, titles);
    InTitleOrderSpec(titles);
    hide InTitleOrder, Before, TitleLeq;
    forall j | 0 <= j < |q| ensures Above(p, q[j].resource) && Above(q[..j], q[j].resource) {
      forall i | 0 <= i < |p| ensures Before(p[i].resource, q[j].resource) {
        assert p[i] in p;
        KindsInOrder(p[i].resource, q[j].resource);
      }
      forall i | 0 <= i < j ensures Before(q[..j][i].resource, q[j].resource) {
        TitlesInOrder(workspace, q[i].resource.title, q[j].resource.title);
      }
    }
    OrderedAppend(p, q);
  }

  /** One more exclusive lock of a later kind. */
  lemma ThenLater(p: seq<Request>, r: Resource)
    requires Ordered(p)
    requires forall q :: q in p ==> Rank(q.resource)[0] < Rank(r)[0]
    ensures Ordered(p + [Request(r, Update)])
  {
    forall i | 0 <= i < |p| ensures Before(p[i].resource, r) {
      assert p[i] in p;
      KindsInOrder(p[i].resource, r);
    }
    hide Before;
    AppendOne(p, Request(r, Update));
  }

  /** Every kernel transition requests its locks in the one global order, without upgrades. */
  lemma TransitionsOrdered(t: Transition)
    ensures Ordered(Requests(t))
  {
    hide Ordered, LockTitles, InIdOrder;
    match t
    case CreateObject(workspace, target, titles) =>
      ObjectLocksOrdered(workspace, target);
      ThenTitles([Request(Workspace(workspace), Share)] + LockObject(workspace, target), workspace, titles);
    case UpdateObject(workspace, target, titles) =>
      ObjectLocksOrdered(workspace, target);
      ThenTitles(LockObject(workspace, target) + LockObject(workspace, target), workspace, titles);
    case ArchiveObject(workspace, target, titles) =>
      ObjectLocksOrdered(workspace, target);
      ThenTitles(LockObject(workspace, target), workspace, titles);
    case UnarchiveObject(workspace, target, titles) =>
      ObjectLocksOrdered(workspace, target);
      ThenTitles(LockObject(workspace, target), workspace, titles);
    case ChangeWorkspace(workspace) =>
      IncreasingIsOrdered([Request(Workspace(workspace), Update)]);
    case CreateGrant(workspace, target) =>
      ReferenceLocksOrdered(workspace, [target]);
    case ChangeGrant(workspace, target, grant) =>
      ObjectLocksOrdered(workspace, target);
      ThenLater(LockObject(workspace, target), Grant(grant));
    case ChangeEdge(workspace, source, target) =>
      ReferenceLocksOrdered(workspace, [source, target]);
    case StartThread(workspace, target) =>
      ReferenceLocksOrdered(workspace, [target]);
    case LockThread(workspace, target, thread) =>
      ReferenceLocksOrdered(workspace, [target]);
      ThenLater(LockObjectsForReference(workspace, [target]), Thread(thread));
    case LockComment(workspace, target, thread, comment) =>
      var p := LockObjectsForReference(workspace, [target]);
      ReferenceLocksOrdered(workspace, [target]);
      ThenLater(p, Thread(thread));
      ThenLater(p + [Request(Thread(thread), Update)], Comment(comment));
      assert p + [Request(Thread(thread), Update), Request(Comment(comment), Update)]
          == (p + [Request(Thread(thread), Update)]) + [Request(Comment(comment), Update)];
  }
}
