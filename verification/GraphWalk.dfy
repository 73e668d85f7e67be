/**
 * The recursive walk over visible links: a `UNION` recursion evaluated with a working table.
 */
module GraphWalk {
  import opened Prelude
  import opened GraphTables

  /** Source and target of a visible link. */
  type Link = (Id, Id)

  datatype Direction = Outgoing | Incoming | Both

  /** An object and a distance from the root. */
  type WalkRow = (Id, nat)

  // ---------------------------------------------------------------- paths

  /** One hop along a link, in a direction the query follows. */
  predicate Hop(links: set<Link>, direction: Direction, v: Id, w: Id) {
    (direction != Incoming && (v, w) in links) || (direction != Outgoing && (w, v) in links)
  }

  predicate IsPath(links: set<Link>, direction: Direction, p: seq<Id>) {
    forall i :: 0 <= i < |p| - 1 ==> Hop(links, direction, p[i], p[i + 1])
  }

  predicate IsPathTo(links: set<Link>, direction: Direction, root: Id, v: Id, n: nat, p: seq<Id>) {
    |p| == n + 1 && p[0] == root && p[n] == v && IsPath(links, direction, p)
  }

  ghost predicate HasPath(links: set<Link>, direction: Direction, root: Id, v: Id, n: nat) {
    exists p :: IsPathTo(links, direction, root, v, n, p)
  }

  lemma NoHops(links: set<Link>, direction: Direction, root: Id, v: Id)
    ensures HasPath(links, direction, root, v, 0) <==> v == root
  {
    assert v == root ==> IsPathTo(links, direction, root, root, 0, [root]);
  }

  lemma ExtendPath(links: set<Link>, direction: Direction, root: Id, v: Id, n: nat, w: Id)
    requires HasPath(links, direction, root, v, n) && Hop(links, direction, v, w)
    ensures HasPath(links, direction, root, w, n + 1)
  {
    var p :| IsPathTo(links, direction, root, v, n, p);
    hide Hop;
    var q := p + [w];
    forall i | 0 <= i < |q| - 1 ensures Hop(links, direction, q[i], q[i + 1]) {
      if i < n {
        assert q[i] == p[i] && q[i + 1] == p[i + 1];
      }
    }
    assert IsPathTo(links, direction, root, w, n + 1, q);
  }

  lemma ShortenPath(links: set<Link>, direction: Direction, root: Id, w: Id, n: nat) returns (v: Id)
    requires HasPath(links, direction, root, w, n + 1)
    ensures HasPath(links, direction, root, v, n) && Hop(links, direction, v, w)
  {
    var q :| IsPathTo(links, direction, root, w, n + 1, q);
    hide Hop;
    v := q[n];
    assert Hop(links, direction, q[n], q[n + 1]);
    var p := q[..n + 1];
    forall i | 0 <= i < |p| - 1 ensures Hop(links, direction, p[i], p[i + 1]) {
      assert Hop(links, direction, q[i], q[i + 1]);
    }
    assert IsPathTo(links, direction, root, v, n, p);
  }

  // ---------------------------------------------------------------- the walk

  /** The join condition between a walk row and a link. */
  predicate Joins(direction: Direction, link: Link, v: Id) {
    || ((direction == Outgoing || direction == Both) && link.0 == v)
    || ((direction == Incoming || direction == Both) && link.1 == v)
  }

  function OtherEnd(link: Link, v: Id): Id {
    if link.0 == v then link.1 else link.0
  }

  /** One evaluation of the recursive term on the working table. */
  function Extended(links: set<Link>, direction: Direction, depth: int, working: set<WalkRow>): set<WalkRow> {
    set r, l | r in working && l in links && r.1 < depth && Joins(direction, l, r.0) :: (OtherEnd(l, r.0), r.1 + 1)
  }

  /** Every row the walk could possibly produce. */
  function Universe(links: set<Link>, depth: int, root: Id): set<WalkRow> {
    set v: Id, d: nat | v in {root} + (set l | l in links :: l.0) + (set l | l in links :: l.1)
                        && d < (if depth < 0 then 1 else depth + 1) :: (v, d)
  }

  lemma ExtendedStaysInUniverse(links: set<Link>, direction: Direction, depth: int, root: Id, working: set<WalkRow>)
    ensures Extended(links, direction, depth, working) <= Universe(links, depth, root)
  {
    var nodes := {root} + (set l | l in links :: l.0) + (set l | l in links :: l.1);
    forall r | r in Extended(links, direction, depth, working) ensures r in Universe(links, depth, root) {
      var q, l :| q in working && l in links && q.1 < depth && Joins(direction, l, q.0)
        && r == (OtherEnd(l, q.0), q.1 + 1);
      assert r.0 in nodes;
      assert r.1 < depth + 1;
    }
  }

  /**
   * Evaluates a recursive `UNION`: the recursive term sees only the rows the last evaluation
   * added, and rows already in the result are dropped.
   */
  function Iterate(links: set<Link>, direction: Direction, depth: int, root: Id,
                   result: set<WalkRow>, working: set<WalkRow>): set<WalkRow>
    requires result <= Universe(links, depth, root)
    decreases |Universe(links, depth, root) - result| + (if working == {} then 0 else 1)
  {
    if working == {} then result
    else
      var added := Extended(links, direction, depth, working) - result;
      ExtendedStaysInUniverse(links, direction, depth, root, working);
      AddedShrinks(Universe(links, depth, root), result, added);
      Iterate(links, direction, depth, root, result + added, added)
  }

  lemma AddedShrinks<T>(universe: set<T>, result: set<T>, added: set<T>)
    requires added <= universe && added !! result
    ensures |universe - (result + added)| == |universe - result| - |added|
  {
    assert universe - result == (universe - (result + added)) + added;
  }

  function Walk(links: set<Link>, direction: Direction, depth: int, root: Id): set<WalkRow> {
    RootInUniverse(links, depth, root);
    Iterate(links, direction, depth, root, {(root, 0)}, {(root, 0)})
  }

  lemma RootInUniverse(links: set<Link>, depth: int, root: Id)
    ensures (root, 0) in Universe(links, depth, root)
  {
    assert root in {root} + (set l | l in links :: l.0) + (set l | l in links :: l.1);
  }

  // ---------------------------------------------------------------- what the walk computes

  predicate WithinDepth(depth: int, n: nat) {
    n == 0 || n <= depth
  }

  ghost predicate IsSound(links: set<Link>, direction: Direction, depth: int, root: Id, rows: set<WalkRow>) {
    forall r :: r in rows ==> HasPath(links, direction, root, r.0, r.1) && WithinDepth(depth, r.1)
  }

  /** Every hop from `rows` within the depth bound leads into `result`. */
  ghost predicate IsClosed(links: set<Link>, direction: Direction, depth: int, rows: set<WalkRow>,
                           result: set<WalkRow>) {
    forall r: WalkRow, w: Id :: r in rows && r.1 < depth && Hop(links, direction, r.0, w) ==> (w, r.1 + 1) in result
  }

  lemma ExtendedIsSound(links: set<Link>, direction: Direction, depth: int, root: Id, working: set<WalkRow>)
    requires IsSound(links, direction, depth, root, working)
    ensures IsSound(links, direction, depth, root, Extended(links, direction, depth, working))
  {
    hide HasPath;
    forall r | r in Extended(links, direction, depth, working)
      ensures HasPath(links, direction, root, r.0, r.1) && WithinDepth(depth, r.1)
    {
      var q, l :| q in working && l in links && q.1 < depth && Joins(direction, l, q.0)
        && r == (OtherEnd(l, q.0), q.1 + 1);
      JoinIsHop(links, direction, l, q.0);
      hide Hop, Joins;
      ExtendPath(links, direction, root, q.0, q.1, r.0);
    }
  }

  /** The join condition and the choice of the other end follow exactly the hops. */
  lemma JoinIsHop(links: set<Link>, direction: Direction, l: Link, v: Id)
    requires l in links && Joins(direction, l, v)
    ensures Hop(links, direction, v, OtherEnd(l, v))
  {
    assert l == (l.0, l.1);
  }

  lemma ExtendedIsClosed(links: set<Link>, direction: Direction, depth: int, working: set<WalkRow>)
    ensures IsClosed(links, direction, depth, working, Extended(links, direction, depth, working))
  {
    forall r: WalkRow, w: Id | r in working && r.1 < depth && Hop(links, direction, r.0, w)
      ensures (w, r.1 + 1) in Extended(links, direction, depth, working)
    {
      var l := if direction != Incoming && (r.0, w) in links then (r.0, w) else (w, r.0);
      assert Joins(direction, l, r.0) && OtherEnd(l, r.0) == w;
      assert r in working && l in links;
    }
  }

  /** After one evaluation only the new rows may still lead out of the result. */
  lemma EvaluationCloses(links: set<Link>, direction: Direction, depth: int,
                         result: set<WalkRow>, working: set<WalkRow>, extended: set<WalkRow>)
    requires working <= result && IsClosed(links, direction, depth, result - working, result)
    requires IsClosed(links, direction, depth, working, extended)
    ensures var all := result + (extended - result);
            IsClosed(links, direction, depth, all - (extended - result), all)
  {
    hide Hop;
    var all := result + (extended - result);
    forall r: WalkRow, w: Id | r in all - (extended - result) && r.1 < depth && Hop(links, direction, r.0, w)
      ensures (w, r.1 + 1) in all
    {
      assert r in working || r in result - working;
    }
  }

  /** Between evaluations: sound rows, and only the working table may still lead further. */
  ghost predicate WalkInv(links: set<Link>, direction: Direction, depth: int, root: Id,
                          result: set<WalkRow>, working: set<WalkRow>) {
    && working <= result
    && IsSound(links, direction, depth, root, result)
    && IsClosed(links, direction, depth, result - working, result)
  }

  lemma EvaluationKeepsInv(links: set<Link>, direction: Direction, depth: int, root: Id,
                           result: set<WalkRow>, working: set<WalkRow>)
    requires WalkInv(links, direction, depth, root, result, working)
    ensures var added := Extended(links, direction, depth, working) - result;
            WalkInv(links, direction, depth, root, result + added, added)
  {
    hide HasPath, Hop, Extended;
    var extended := Extended(links, direction, depth, working);
    ExtendedIsSound(links, direction, depth, root, working);
    ExtendedIsClosed(links, direction, depth, working);
    EvaluationCloses(links, direction, depth, result, working, extended);
    hide IsClosed;
  }

  lemma EmptyWorkingCloses(links: set<Link>, direction: Direction, depth: int, root: Id, result: set<WalkRow>)
    requires WalkInv(links, direction, depth, root, result, {})
    ensures IsSound(links, direction, depth, root, result) && IsClosed(links, direction, depth, result, result)
  {
    assert result - {} == result;
    hide IsSound, IsClosed;
  }

  lemma {:induction false} IterateCloses(links: set<Link>, direction: Direction, depth: int, root: Id,
                                         result: set<WalkRow>, working: set<WalkRow>)
    requires result <= Universe(links, depth, root) && WalkInv(links, direction, depth, root, result, working)
    ensures var walk := Iterate(links, direction, depth, root, result, working);
            && result <= walk
            && IsSound(links, direction, depth, root, walk)
            && IsClosed(links, direction, depth, walk, walk)
    decreases |Universe(links, depth, root) - result| + (if working == {} then 0 else 1)
  {
    hide WalkInv, IsSound, IsClosed, Extended, Universe;
    if working == {} {
      EmptyWorkingCloses(links, direction, depth, root, result);
    } else {
      var added := Extended(links, direction, depth, working) - result;
      ExtendedStaysInUniverse(links, direction, depth, root, working);
      AddedShrinks(Universe(links, depth, root), result, added);
      EvaluationKeepsInv(links, direction, depth, root, result, working);
      IterateCloses(links, direction, depth, root, result + added, added);
    }
  }

  /** The walk holds exactly the lengths of paths within the depth bound. */
  lemma {:induction false} WalkIsPaths(links: set<Link>, direction: Direction, depth: int, root: Id, v: Id, n: nat)
    ensures (v, n) in Walk(links, direction, depth, root)
       <==> HasPath(links, direction, root, v, n) && WithinDepth(depth, n)
    decreases n
  {
    var walk := Walk(links, direction, depth, root);
    RootInUniverse(links, depth, root);
    NoHops(links, direction, root, root);
    assert {(root, 0)} - {(root, 0)} == {};
    IterateCloses(links, direction, depth, root, {(root, 0)}, {(root, 0)});
    hide Hop, Universe, Iterate, HasPath;
    if n == 0 {
      NoHops(links, direction, root, v);
      assert (root, 0) in walk;
    } else if HasPath(links, direction, root, v, n) && WithinDepth(depth, n) {
      var u := ShortenPath(links, direction, root, v, n - 1);
      WalkIsPaths(links, direction, depth, root, u, n - 1);
    }
    assert (v, n) in walk ==> HasPath(links, direction, root, (v, n).0, (v, n).1) && WithinDepth(depth, (v, n).1);
  }

  // ---------------------------------------------------------------- minimum distance

  /** `MIN(distance)` over an object's walk rows from distance `d` on. */
  function LeastFrom(walk: set<WalkRow>, v: Id, d: nat, bound: nat): (r: Option<nat>)
    decreases bound + 1 - d
    ensures r.Some? ==>
              d <= r.value <= bound && (v, r.value) in walk && forall e :: d <= e < r.value ==> (v, e) !in walk
    ensures r.None? ==> forall e :: d <= e <= bound ==> (v, e) !in walk
  {
    if d > bound then None
    else if (v, d) in walk then Some(d)
    else LeastFrom(walk, v, d + 1, bound)
  }

  /** The distance at which the walk reaches `v`, if it does. */
  function Distance(links: set<Link>, direction: Direction, depth: int, root: Id, v: Id): Option<nat> {
    LeastFrom(Walk(links, direction, depth, root), v, 0, if depth < 0 then 0 else depth)
  }

  /** A node is reached exactly when a path within the depth exists, at the length of a shortest one. */
  lemma DistanceIsShortestPath(links: set<Link>, direction: Direction, depth: int, root: Id, v: Id, n: nat)
    ensures Distance(links, direction, depth, root, v) == Some(n)
       <==> HasPath(links, direction, root, v, n) && WithinDepth(depth, n)
            && forall e: nat :: e < n ==> !HasPath(links, direction, root, v, e)
    ensures Distance(links, direction, depth, root, v).None?
       <==> forall e: nat :: WithinDepth(depth, e) ==> !HasPath(links, direction, root, v, e)
  {
    forall e: nat ensures (v, e) in Walk(links, direction, depth, root)
                     <==> HasPath(links, direction, root, v, e) && WithinDepth(depth, e) {
      WalkIsPaths(links, direction, depth, root, v, e);
    }
    hide Walk, HasPath;
  }

  /** One hop before a node reached at distance `n + 1` is a node reached at distance `n`. */
  lemma PredecessorReached(links: set<Link>, direction: Direction, depth: int, root: Id, v: Id, n: nat) returns (u: Id)
    requires Distance(links, direction, depth, root, v) == Some(n + 1)
    ensures Distance(links, direction, depth, root, u) == Some(n) && Hop(links, direction, u, v)
  {
    hide Distance, Hop, HasPath;
    DistanceIsShortestPath(links, direction, depth, root, v, n + 1);
    u := ShortenPath(links, direction, root, v, n);
    forall e: nat | e < n ensures !HasPath(links, direction, root, u, e) {
      if HasPath(links, direction, root, u, e) {
        ExtendPath(links, direction, root, u, e, v);
      }
    }
    DistanceIsShortestPath(links, direction, depth, root, u, n);
  }
}
