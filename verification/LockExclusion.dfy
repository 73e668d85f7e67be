/** Which kernel transitions the locks keep apart, and that they keep no others apart. */
module LockExclusion {
  import opened Prelude
  import opened LockOrder
  import opened LockProtocol

  // ---------------------------------------------------------------- what each transition locks

  /** Creating, editing, archiving or unarchiving the object, or changing one of its grants. */
  ghost predicate Writes(t: Transition, o: Id) {
    && (t.CreateObject? || t.UpdateObject? || t.ArchiveObject? || t.UnarchiveObject? || t.ChangeGrant?)
    && o == t.target
  }

  /** Referring to the object from a new grant, an edge or a comment thread. */
  ghost predicate Pins(t: Transition, o: Id) {
    || ((t.CreateGrant? || t.StartThread? || t.LockThread? || t.LockComment?) && o == t.target)
    || (t.ChangeEdge? && (o == t.source || o == t.target))
  }

  ghost predicate MaintainsTitle(t: Transition, workspace: Id, title: string) {
    && (t.CreateObject? || t.UpdateObject? || t.ArchiveObject? || t.UnarchiveObject?)
    && workspace == t.workspace && title in t.titles
  }

  ghost predicate LocksForUpdate(t: Transition, r: Resource) {
    match r
    case Workspace(w) => t.ChangeWorkspace? && w == t.workspace
    case Object(o) => Writes(t, o)
    case Grant(g) => t.ChangeGrant? && g == t.grant
    case Title(w, title) => MaintainsTitle(t, w, title)
    case Thread(thread) => (t.LockThread? || t.LockComment?) && thread == t.thread
    case Comment(comment) => t.LockComment? && comment == t.comment
  }

  ghost predicate LocksForShare(t: Transition, r: Resource) {
    match r
    case Workspace(w) => !t.ChangeWorkspace? && w == t.workspace
    case Object(o) => Pins(t, o)
    case _ => false
  }

  ghost predicate Locks(t: Transition, r: Request) {
    if r.mode == Update then LocksForUpdate(t, r.resource) else LocksForShare(t, r.resource)
  }

  lemma TitleLocks(workspace: Id, titles: seq<string>, r: Request)
    ensures r in LockTitles(workspace, titles)
       <==> r.mode == Update && r.resource.Title? && r.resource.workspace == workspace && r.resource.title in titles
  {
    InTitleOrderSpec(titles);
    hide InTitleOrder;
    if r.resource.Title? && r.resource.title in titles {
      var i :| 0 <= i < |InTitleOrder(titles)| && InTitleOrder(titles)[i] == r.resource.title;
      assert LockTitles(workspace, titles)[i] == Request(Title(workspace, r.resource.title), Update);
    }
  }

  lemma ReferenceLocks(workspace: Id, ids: seq<Id>, r: Request)
    ensures r in LockObjectsForReference(workspace, ids)
       <==> r.mode == Share && (r.resource == Workspace(workspace) || (r.resource.Object? && r.resource.id in ids))
  {
    InIdOrderSpec(ids);
    var order := InIdOrder(ids);
    hide InIdOrder;
    if r.resource.Object? && r.resource.id in ids {
      var i :| 0 <= i < |order| && order[i] == r.resource.id;
      assert LockObjectsForReference(workspace, ids)[i + 1] == Request(Object(r.resource.id), Share);
    }
  }

  /** Every transition requests exactly the locks its kind calls for. */
  lemma LocksTaken(t: Transition, r: Request)
    ensures r in Requests(t) <==> Locks(t, r)
  {
    hide LockTitles, LockObjectsForReference;
    match t
    case CreateObject(workspace, _, titles) => TitleLocks(workspace, titles, r);
    case UpdateObject(workspace, _, titles) => TitleLocks(workspace, titles, r);
    case ArchiveObject(workspace, _, titles) => TitleLocks(workspace, titles, r);
    case UnarchiveObject(workspace, _, titles) => TitleLocks(workspace, titles, r);
    case ChangeWorkspace(_) =>
    case CreateGrant(workspace, target) => ReferenceLocks(workspace, [target], r);
    case ChangeGrant(_, _, _) =>
    case ChangeEdge(workspace, source, target) => ReferenceLocks(workspace, [source, target], r);
    case StartThread(workspace, target) => ReferenceLocks(workspace, [target], r);
    case LockThread(workspace, target, _) => ReferenceLocks(workspace, [target], r);
    case LockComment(workspace, target, _, _) => ReferenceLocks(workspace, [target], r);
  }

  // ---------------------------------------------------------------- what is kept apart

  /** One of the two locks for update what the other locks in either mode. */
  ghost predicate Excludes(a: Transition, b: Transition) {
    exists r :: (LocksForUpdate(a, r) && (LocksForUpdate(b, r) || LocksForShare(b, r)))
             || (LocksForShare(a, r) && LocksForUpdate(b, r))
  }

  predicate FullyGranted(tx: Tx) {
    tx.granted == |tx.requests|
  }

  /** The run has a state in which two transactions hold all the locks of these transitions. */
  ghost predicate HoldTogether(run: seq<State>, i: nat, t: TxId, u: TxId, a: Transition, b: Transition) {
    && IsRun(run) && i < |run| && t != u && t in run[i].txs && u in run[i].txs
    && run[i].txs[t].transition == a && FullyGranted(run[i].txs[t])
    && run[i].txs[u].transition == b && FullyGranted(run[i].txs[u])
  }

  lemma HeldIsCompatible(run: seq<State>, i: nat, t: TxId, u: TxId, a: Transition, b: Transition)
    requires HoldTogether(run, i, t, u, a, b)
    ensures !Excludes(a, b)
  {
    EveryRunKeepsInv(run, i);
    var x, y := run[i].txs[t], run[i].txs[u];
    assert TxOk(x, run[i].clock) && TxOk(y, run[i].clock) && Exclusive(x, y);
    hide Requests, LocksForUpdate, LocksForShare, Ordered, Inv;
    forall r
      ensures !(LocksForUpdate(a, r) && LocksForUpdate(b, r))
      ensures !(LocksForUpdate(a, r) && LocksForShare(b, r))
      ensures !(LocksForShare(a, r) && LocksForUpdate(b, r))
    {
      forall m, n | Locks(a, Request(r, m)) && Locks(b, Request(r, n)) ensures !Conflict(m, n) {
        LocksTaken(a, Request(r, m));
        LocksTaken(b, Request(r, n));
        var j :| 0 <= j < |x.requests| && x.requests[j] == Request(r, m);
        var k :| 0 <= k < |y.requests| && y.requests[k] == Request(r, n);
        assert x.requests[j].resource == y.requests[k].resource;
      }
      assert Conflict(Update, Update) && Conflict(Update, Share) && Conflict(Share, Update);
      assert LocksForUpdate(a, r) ==> Locks(a, Request(r, Update));
      assert LocksForShare(a, r) ==> Locks(a, Request(r, Share));
      assert LocksForUpdate(b, r) ==> Locks(b, Request(r, Update));
      assert LocksForShare(b, r) ==> Locks(b, Request(r, Share));
    }
  }

  /**
   * In every reachable state: an object being written is written by one fully granted transaction
   * and pinned by none, a workspace being changed has no other, and titles, grants and threads
   * have one holder.
   */
  lemma EveryRunSerializes(run: seq<State>, i: nat, t: TxId, u: TxId, a: Transition, b: Transition)
    requires HoldTogether(run, i, t, u, a, b)
    ensures forall o: Id :: Writes(a, o) ==> !Writes(b, o) && !Pins(b, o)
    ensures a.ChangeWorkspace? ==> b.workspace != a.workspace
    ensures forall title :: MaintainsTitle(a, a.workspace, title) ==> !MaintainsTitle(b, a.workspace, title)
    ensures a.ChangeGrant? && b.ChangeGrant? ==> a.grant != b.grant
    ensures (a.LockThread? || a.LockComment?) && (b.LockThread? || b.LockComment?) ==> a.thread != b.thread
  {
    HeldIsCompatible(run, i, t, u, a, b);
    forall o: Id | Writes(a, o) ensures !Writes(b, o) && !Pins(b, o) {
      assert LocksForUpdate(a, Object(o));
      assert !LocksForUpdate(b, Object(o)) && !LocksForShare(b, Object(o));
    }
    if a.ChangeWorkspace? {
      assert LocksForUpdate(a, Workspace(a.workspace));
    }
    forall title | MaintainsTitle(a, a.workspace, title) ensures !MaintainsTitle(b, a.workspace, title) {
      assert LocksForUpdate(a, Title(a.workspace, title));
    }
    if a.ChangeGrant? {
      assert LocksForUpdate(a, Grant(a.grant));
    }
    if a.LockThread? || a.LockComment? {
      assert LocksForUpdate(a, Thread(a.thread));
    }
  }

  // ---------------------------------------------------------------- nothing else is kept apart

  /** No other transaction holds a lock that conflicts with any of the transition's. */
  ghost predicate Unopposed(s: State, t: TxId) {
    && t in s.txs
    && forall u, r :: u in s.txs && u != t && r in s.txs[t].requests ==>
         WellFormed(s.txs[u]) && !HoldsConflicting(s.txs[u], r)
  }

  /** Only the granted locks and the queue position of `t` differ. */
  ghost predicate OnlyAdvances(s: State, s': State, t: TxId) {
    && t in s.txs && t in s'.txs && s'.txs.Keys == s.txs.Keys
    && s'.txs[t].transition == s.txs[t].transition && s'.txs[t].requests == s.txs[t].requests
    && forall u :: u in s.txs && u != t ==> s'.txs[u] == s.txs[u]
  }

  lemma UnopposedAcquires(s: State, t: TxId) returns (s': State)
    requires Inv(s) && Unopposed(s, t) && s.txs[t].ticket.Some?
    ensures Acquire(s, s', t) && OnlyAdvances(s, s', t)
    ensures WellFormed(s.txs[t]) && WellFormed(s'.txs[t]) && Remaining(s'.txs[t]) < Remaining(s.txs[t])
  {
    hide Ordered, Covered, Exclusive, HoldsConflicting, Inv, Requests;
    var tx := s.txs[t];
    forall u | u in s.txs ensures WellFormed(s.txs[u]) {
      WellFormedIn(s, u);
    }
    assert Wanted(tx) in tx.requests;
    s' := s.(txs := s.txs[t := tx.(granted := tx.granted + 1, ticket := None)]);
  }

  lemma UnqueuedAsks(s: State, t: TxId) returns (s': State)
    requires Inv(s) && t in s.txs && s.txs[t].ticket.None? && !FullyGranted(s.txs[t])
    ensures Ask(s, s', t) && OnlyAdvances(s, s', t)
    ensures WellFormed(s.txs[t]) && WellFormed(s'.txs[t]) && Remaining(s'.txs[t]) < Remaining(s.txs[t])
  {
    hide Ordered, Covered, Exclusive, Inv, Requests;
    var tx := s.txs[t];
    WellFormedIn(s, t);
    s' := if Covered(tx.requests[..tx.granted], Wanted(tx))
          then s.(txs := s.txs[t := tx.(granted := tx.granted + 1)])
          else State(s.txs[t := tx.(ticket := Some(s.clock))], s.clock + 1);
  }

  lemma UnopposedSteps(s: State, t: TxId) returns (s': State)
    requires Inv(s) && Unopposed(s, t) && !FullyGranted(s.txs[t])
    ensures Step(s, s', t) && OnlyAdvances(s, s', t)
    ensures WellFormed(s.txs[t]) && WellFormed(s'.txs[t]) && Remaining(s'.txs[t]) < Remaining(s.txs[t])
  {
    hide Inv, Ask, Acquire, OnlyAdvances, Remaining, WellFormed;
    if s.txs[t].ticket.Some? {
      s' := UnopposedAcquires(s, t);
    } else {
      s' := UnqueuedAsks(s, t);
    }
  }

  lemma RunExtends(run: seq<State>, s': State, t: TxId)
    requires IsRun(run) && Step(run[|run| - 1], s', t)
    ensures IsRun(run + [s'])
  {
    hide Step;
    var longer := run + [s'];
    forall i | 0 <= i < |longer| - 1 ensures Next(longer[i], longer[i + 1]) {
      if i == |run| - 1 {
        assert Step(longer[i], longer[i + 1], t);
      } else {
        assert Next(run[i], run[i + 1]);
      }
    }
  }

  lemma AdvancedStaysUnopposed(s: State, s': State, t: TxId)
    requires Unopposed(s, t) && OnlyAdvances(s, s', t)
    ensures Unopposed(s', t)
  {
    hide HoldsConflicting, WellFormed;
  }

  lemma AdvancesTwice(s: State, s': State, s'': State, t: TxId)
    requires OnlyAdvances(s, s', t) && OnlyAdvances(s', s'', t)
    ensures OnlyAdvances(s, s'', t)
  {
  }

  /** Steps the transaction still needs in the last state of a run. */
  ghost function StepsLeft(run: seq<State>, t: TxId): nat
    requires run != [] && t in run[|run| - 1].txs
  {
    var tx := run[|run| - 1].txs[t];
    if WellFormed(tx) then Remaining(tx) else 0
  }

  /** An unopposed transaction can obtain all its locks while every other stays as it is. */
  lemma {:induction false} UnopposedCompletes(run: seq<State>, t: TxId) returns (longer: seq<State>)
    requires IsRun(run) && Unopposed(run[|run| - 1], t)
    ensures IsRun(longer) && OnlyAdvances(run[|run| - 1], longer[|longer| - 1], t)
    ensures FullyGranted(longer[|longer| - 1].txs[t])
    decreases StepsLeft(run, t)
  {
    hide Ordered, Covered, Exclusive, HoldsConflicting, Step, Next, Inv, Requests;
    var s := run[|run| - 1];
    EveryRunKeepsInv(run, |run| - 1);
    if FullyGranted(s.txs[t]) {
      longer := run;
    } else {
      var s' := UnopposedSteps(s, t);
      RunExtends(run, s', t);
      AdvancedStaysUnopposed(s, s', t);
      hide Unopposed, OnlyAdvances, IsRun, WellFormed, Remaining;
      longer := UnopposedCompletes(run + [s'], t);
      AdvancesTwice(s, s', longer[|longer| - 1], t);
    }
  }

  lemma StartsRun(run: seq<State>, t: TxId, transition: Transition) returns (longer: seq<State>)
    requires IsRun(run) && t !in run[|run| - 1].txs
    ensures IsRun(longer)
    ensures var s, s' := run[|run| - 1], longer[|longer| - 1];
            s'.txs == s.txs[t := Tx(transition, Requests(transition), 0, None)]
  {
    hide Requests;
    var s := run[|run| - 1];
    var s' := s.(txs := s.txs[t := Tx(transition, Requests(transition), 0, None)]);
    assert Start(s, s', t, transition);
    RunExtends(run, s', t);
    longer := run + [s'];
  }

  lemma CompatibleUnopposed(s: State, t: TxId, u: TxId, a: Transition, b: Transition)
    requires !Excludes(a, b) && t != u && s.txs.Keys == {t, u}
    requires s.txs[t].transition == a && s.txs[t].requests == Requests(a) && FullyGranted(s.txs[t])
    requires WellFormed(s.txs[t]) && s.txs[u].requests == Requests(b)
    ensures Unopposed(s, u)
  {
    hide Requests, LocksForUpdate, LocksForShare;
    forall r | r in Requests(b) ensures !HoldsConflicting(s.txs[t], r) {
      LocksTaken(b, r);
      forall i | 0 <= i < |Requests(a)| && Requests(a)[i].resource == r.resource
        ensures !Conflict(Requests(a)[i].mode, r.mode)
      {
        LocksTaken(a, Requests(a)[i]);
      }
    }
  }

  lemma CompatibleHold(a: Transition, b: Transition) returns (run: seq<State>)
    requires !Excludes(a, b)
    ensures run != [] && HoldTogether(run, |run| - 1, 0, 1, a, b)
  {
    hide Requests, Excludes, Inv;
    run := [State(map[], 0)];
    run := StartsRun(run, 0, a);
    run := UnopposedCompletes(run, 0);
    run := StartsRun(run, 1, b);
    EveryRunKeepsInv(run, |run| - 1);
    WellFormedIn(run[|run| - 1], 0);
    CompatibleUnopposed(run[|run| - 1], 0, 1, a, b);
    run := UnopposedCompletes(run, 1);
  }

  lemma WellFormedIn(s: State, t: TxId)
    requires Inv(s) && t in s.txs
    ensures WellFormed(s.txs[t])
  {
    assert TxOk(s.txs[t], s.clock);
  }

  /**
   * Two transitions can hold all their locks at once in some reachable state exactly when neither
   * locks for update what the other locks at all: pinning an object or workspace never keeps
   * another pinning transition out.
   */
  lemma HeldTogetherIffCompatible(a: Transition, b: Transition)
    ensures (exists run, i: nat, t: TxId, u: TxId :: HoldTogether(run, i, t, u, a, b)) <==> !Excludes(a, b)
  {
    if !Excludes(a, b) {
      var run := CompatibleHold(a, b);
      assert HoldTogether(run, |run| - 1, 0, 1, a, b);
    }
    forall run, i: nat, t: TxId, u: TxId | HoldTogether(run, i, t, u, a, b) ensures !Excludes(a, b) {
      HeldIsCompatible(run, i, t, u, a, b);
    }
  }
}
