/**
 * Transactions competing for the explicit locks: no interleaving deadlocks.
 *
 * A request that is not already covered queues with a ticket. It is granted when no other
 * transaction holds a conflicting lock; whether it may overtake conflicting requests ahead of it is
 * left open: runs allow it, and progress is proved without it. Locks are released together at
 * commit or rollback.
 */
module LockProtocol {
  import opened Prelude
  import opened LockOrder

  type TxId = nat

  /** `granted` counts the requests already satisfied; `ticket` is the queue position of the next. */
  datatype Tx = Tx(transition: Transition, requests: seq<Request>, granted: nat, ticket: Option<nat>)

  datatype State = State(txs: map<TxId, Tx>, clock: nat)

  predicate WellFormed(tx: Tx) {
    tx.granted <= |tx.requests| && (tx.ticket.Some? ==> tx.granted < |tx.requests|)
  }

  predicate IsQueued(tx: Tx) {
    WellFormed(tx) && tx.ticket.Some?
  }

  /** The request the transaction is queued for. */
  function Wanted(tx: Tx): Request
    requires WellFormed(tx) && tx.granted < |tx.requests|
  {
    tx.requests[tx.granted]
  }

  predicate HoldsConflicting(tx: Tx, r: Request)
    requires WellFormed(tx)
  {
    exists i :: 0 <= i < tx.granted && tx.requests[i].resource == r.resource && Conflict(tx.requests[i].mode, r.mode)
  }

  predicate QueuedAhead(tx: Tx, r: Request, ticket: nat)
    requires WellFormed(tx)
  {
    && tx.ticket.Some? && tx.ticket.value < ticket
    && Wanted(tx).resource == r.resource
    && Conflict(Wanted(tx).mode, r.mode)
  }

  /** `t` is queued and `u` stands in its way: the wait-for relation. */
  predicate WaitsFor(s: State, t: TxId, u: TxId) {
    && t in s.txs && u in s.txs && t != u
    && IsQueued(s.txs[t]) && WellFormed(s.txs[u])
    && (HoldsConflicting(s.txs[u], Wanted(s.txs[t])) || QueuedAhead(s.txs[u], Wanted(s.txs[t]), s.txs[t].ticket.value))
  }

  // ---------------------------------------------------------------- steps

  ghost predicate Start(s: State, s': State, t: TxId, transition: Transition) {
    t !in s.txs && s' == s.(txs := s.txs[t := Tx(transition, Requests(transition), 0, None)])
  }

  /** A covered request is a no-op; any other request joins the queue. */
  ghost predicate Ask(s: State, s': State, t: TxId) {
    && t in s.txs && WellFormed(s.txs[t]) && s.txs[t].ticket.None? && s.txs[t].granted < |s.txs[t].requests|
    && var tx := s.txs[t];
    if Covered(tx.requests[..tx.granted], Wanted(tx)) then
      s' == s.(txs := s.txs[t := tx.(granted := tx.granted + 1)])
    else
      s' == State(s.txs[t := tx.(ticket := Some(s.clock))], s.clock + 1)
  }

  /** No conflicting lock is held. The queue may be respected or not. */
  ghost predicate Acquire(s: State, s': State, t: TxId) {
    && t in s.txs && (forall u :: u in s.txs ==> WellFormed(s.txs[u]))
    && s.txs[t].ticket.Some?
    && (forall u :: u in s.txs && u != t ==> !HoldsConflicting(s.txs[u], Wanted(s.txs[t])))
    && s' == s.(txs := s.txs[t := s.txs[t].(granted := s.txs[t].granted + 1, ticket := None)])
  }

  ghost predicate Commit(s: State, s': State, t: TxId) {
    t in s.txs && s.txs[t].granted == |s.txs[t].requests| && s' == s.(txs := s.txs - {t})
  }

  ghost predicate Rollback(s: State, s': State, t: TxId) {
    t in s.txs && s' == s.(txs := s.txs - {t})
  }

  /** A step that brings a transaction closer to its own commit. */
  ghost predicate Advances(s: State, s': State, t: TxId) {
    Ask(s, s', t) || Acquire(s, s', t) || Commit(s, s', t)
  }

  /** Nobody stands in the transaction's way, not even in the queue. */
  predicate InTurn(s: State, t: TxId) {
    forall u :: u in s.txs ==> !WaitsFor(s, t, u)
  }

  ghost predicate Step(s: State, s': State, t: TxId) {
    (exists transition :: Start(s, s', t, transition)) || Advances(s, s', t) || Rollback(s, s', t)
  }

  ghost predicate Next(s: State, s': State) {
    exists t: TxId :: Step(s, s', t)
  }

  ghost predicate IsRun(run: seq<State>) {
    && run != [] && run[0].txs == map[]
    && forall i :: 0 <= i < |run| - 1 ==> Next(run[i], run[i + 1])
  }

  // ---------------------------------------------------------------- the invariant

  ghost predicate TxOk(tx: Tx, clock: nat) {
    && WellFormed(tx) && tx.requests == Requests(tx.transition) && Ordered(tx.requests)
    && (tx.ticket.Some? ==> tx.ticket.value < clock && !Covered(tx.requests[..tx.granted], Wanted(tx)))
  }

  /** No two transactions hold conflicting locks on one resource. */
  ghost predicate Exclusive(a: Tx, b: Tx) {
    && WellFormed(a) && WellFormed(b)
    && (forall i, j :: 0 <= i < a.granted && 0 <= j < b.granted && a.requests[i].resource == b.requests[j].resource ==>
          !Conflict(a.requests[i].mode, b.requests[j].mode))
  }

  ghost predicate Inv(s: State) {
    && (forall t :: t in s.txs ==> TxOk(s.txs[t], s.clock))
    && (forall t, u :: t in s.txs && u in s.txs && t != u ==>
          Exclusive(s.txs[t], s.txs[u])
          && (s.txs[t].ticket.Some? && s.txs[u].ticket.Some? ==> s.txs[t].ticket != s.txs[u].ticket))
  }

  /** A conflict with a covered request is already a conflict with the request that covers it. */
  lemma CoveredStaysExclusive(a: Tx, b: Tx)
    requires WellFormed(a) && WellFormed(b) && a.granted < |a.requests| && Exclusive(a, b)
    requires Covered(a.requests[..a.granted], Wanted(a))
    ensures Exclusive(a.(granted := a.granted + 1, ticket := None), b)
  {
    var p := a.requests[..a.granted];
    var k :| 0 <= k < |p| && p[k].resource == Wanted(a).resource && (p[k].mode == Update || Wanted(a).mode == Share);
    assert p[k] == a.requests[k];
  }

  lemma GrantedStaysExclusive(a: Tx, b: Tx)
    requires WellFormed(a) && WellFormed(b) && a.granted < |a.requests| && Exclusive(a, b)
    requires !HoldsConflicting(b, Wanted(a))
    ensures Exclusive(a.(granted := a.granted + 1, ticket := None), b)
  {
  }

  lemma ExclusiveSymmetric(a: Tx, b: Tx)
    requires WellFormed(a) && WellFormed(b) && Exclusive(a, b)
    ensures Exclusive(b, a)
  {
  }

  lemma OneTxChanges(s: State, s': State, t: TxId, tx: Tx, clock: nat)
    requires Inv(s) && t in s.txs && clock >= s.clock && s' == State(s.txs[t := tx], clock)
    requires TxOk(tx, clock)
    requires forall u :: u in s.txs && u != t ==> Exclusive(tx, s.txs[u]) && Exclusive(s.txs[u], tx)
    requires forall u :: u in s.txs && u != t && tx.ticket.Some? ==> s.txs[u].ticket != tx.ticket
    ensures Inv(s')
  {
    hide Exclusive, Ordered, Covered, Requests;
  }

  lemma AskKeepsInv(s: State, s': State, t: TxId)
    requires Inv(s) && Ask(s, s', t)
    ensures Inv(s')
  {
    var tx := s.txs[t];
    hide Ordered, Requests;
    forall u | u in s.txs && u != t ensures Exclusive(s'.txs[t], s.txs[u]) && Exclusive(s.txs[u], s'.txs[t]) {
      if Covered(tx.requests[..tx.granted], Wanted(tx)) {
        CoveredStaysExclusive(tx, s.txs[u]);
        ExclusiveSymmetric(s'.txs[t], s.txs[u]);
      }
    }
    hide Exclusive, Covered;
    OneTxChanges(s, s', t, s'.txs[t], s'.clock);
  }

  lemma AcquireKeepsInv(s: State, s': State, t: TxId)
    requires Inv(s) && Acquire(s, s', t)
    ensures Inv(s')
  {
    hide Ordered, Exclusive, HoldsConflicting, QueuedAhead, Covered, Requests;
    forall u | u in s.txs && u != t ensures Exclusive(s'.txs[t], s.txs[u]) && Exclusive(s.txs[u], s'.txs[t]) {
      GrantedStaysExclusive(s.txs[t], s.txs[u]);
      ExclusiveSymmetric(s'.txs[t], s.txs[u]);
    }
    OneTxChanges(s, s', t, s'.txs[t], s'.clock);
  }

  lemma StartKeepsInv(s: State, s': State, t: TxId, transition: Transition)
    requires Inv(s) && Start(s, s', t, transition)
    ensures Inv(s')
  {
    TransitionsOrdered(transition);
    hide Ordered, Requests, Covered;
  }

  lemma EndKeepsInv(s: State, s': State, t: TxId)
    requires Inv(s) && (Commit(s, s', t) || Rollback(s, s', t))
    ensures Inv(s')
  {
    hide Exclusive, Ordered, Covered, Requests;
  }

  lemma StepKeepsInv(s: State, s': State, t: TxId)
    requires Inv(s) && Step(s, s', t)
    ensures Inv(s')
  {
    hide Start, Ask, Acquire, Commit, Rollback, Inv;
    if transition :| Start(s, s', t, transition) {
      StartKeepsInv(s, s', t, transition);
    } else if Ask(s, s', t) {
      AskKeepsInv(s, s', t);
    } else if Acquire(s, s', t) {
      AcquireKeepsInv(s, s', t);
    } else {
      EndKeepsInv(s, s', t);
    }
  }

  lemma {:induction false} EveryRunKeepsInv(run: seq<State>, i: nat)
    requires IsRun(run) && i < |run|
    ensures Inv(run[i])
  {
    if i > 0 {
      EveryRunKeepsInv(run, i - 1);
      hide Step, Inv;
      assert Next(run[i - 1], run[i - 1 + 1]);
      var t: TxId :| Step(run[i - 1], run[i], t);
      StepKeepsInv(run[i - 1], run[i], t);
    }
  }

  /** Conflicting locks are never held together, in any state of any run. */
  lemma EveryRunExcludes(run: seq<State>, i: nat, t: TxId, u: TxId)
    requires IsRun(run) && i < |run| && t in run[i].txs && u in run[i].txs && t != u
    ensures WellFormed(run[i].txs[t]) && WellFormed(run[i].txs[u]) && Exclusive(run[i].txs[t], run[i].txs[u])
  {
    EveryRunKeepsInv(run, i);
    hide Exclusive, Ordered, Requests;
  }

  // ---------------------------------------------------------------- waiting is well-ordered

  /** `u` is further along than `t`: it waits for a later resource, or ahead for the same one. */
  ghost predicate Further(t: Tx, u: Tx) {
    && IsQueued(t) && IsQueued(u)
    && (Before(Wanted(t).resource, Wanted(u).resource)
        || (Wanted(t).resource == Wanted(u).resource && u.ticket.value < t.ticket.value))
  }

  lemma FurtherTransitive(a: Tx, b: Tx, c: Tx)
    requires Further(a, b) && Further(b, c)
    ensures Further(a, c)
  {
    if Before(Wanted(a).resource, Wanted(b).resource) && Before(Wanted(b).resource, Wanted(c).resource) {
      BeforeTransitive(Wanted(a).resource, Wanted(b).resource, Wanted(c).resource);
    }
    hide Before;
  }

  lemma FurtherIrreflexive(a: Tx)
    ensures !Further(a, a)
  {
  }

  /** Whoever stands in the way and waits itself is further along. */
  lemma WaitsForFurther(s: State, t: TxId, u: TxId)
    requires Inv(s) && t in s.txs && u in s.txs && WaitsFor(s, t, u)
    requires s.txs[u].ticket.Some?
    ensures Further(s.txs[t], s.txs[u])
  {
    var a, b := s.txs[t], s.txs[u];
    hide Before, Exclusive;
    if HoldsConflicting(b, Wanted(a)) {
      var i :| 0 <= i < b.granted && b.requests[i].resource == Wanted(a).resource
        && Conflict(b.requests[i].mode, Wanted(a).mode);
      assert Above(b.requests[..b.granted], Wanted(b).resource);
      assert b.requests[..b.granted][i] == b.requests[i];
    }
  }

  /** A chain of transactions, each waiting for the next. */
  ghost predicate IsWaitChain(s: State, chain: seq<TxId>) {
    forall i :: 0 <= i < |chain| - 1 ==> WaitsFor(s, chain[i], chain[i + 1])
  }

  lemma {:induction false} ChainGoesFurther(s: State, chain: seq<TxId>)
    requires Inv(s) && |chain| >= 2 && IsWaitChain(s, chain)
    requires chain[|chain| - 1] in s.txs && s.txs[chain[|chain| - 1]].ticket.Some?
    ensures chain[0] in s.txs && Further(s.txs[chain[0]], s.txs[chain[|chain| - 1]])
  {
    hide Inv, Further, HoldsConflicting, QueuedAhead;
    assert WaitsFor(s, chain[0], chain[0 + 1]);
    if |chain| == 2 {
      WaitsForFurther(s, chain[0], chain[1]);
    } else {
      var rest := chain[1..];
      forall i | 0 <= i < |rest| - 1 ensures WaitsFor(s, rest[i], rest[i + 1]) {
        assert WaitsFor(s, chain[i + 1], chain[i + 1 + 1]);
      }
      ChainGoesFurther(s, rest);
      assert WaitsFor(s, chain[1], chain[1 + 1]);
      WaitsForFurther(s, chain[0], chain[1]);
      FurtherTransitive(s.txs[chain[0]], s.txs[chain[1]], s.txs[chain[|chain| - 1]]);
    }
  }

  /** The wait-for relation has no cycle in any reachable state. */
  lemma NoWaitCycle(run: seq<State>, i: nat, chain: seq<TxId>)
    requires IsRun(run) && i < |run|
    requires |chain| >= 2 && IsWaitChain(run[i], chain)
    ensures chain[0] != chain[|chain| - 1]
  {
    EveryRunKeepsInv(run, i);
    hide Inv, Further, HoldsConflicting, QueuedAhead, IsRun;
    var s := run[i];
    assert WaitsFor(s, chain[0], chain[0 + 1]);
    if chain[0] == chain[|chain| - 1] {
      ChainGoesFurther(s, chain);
      FurtherIrreflexive(s.txs[chain[0]]);
    }
  }

  // ---------------------------------------------------------------- progress

  /** Among queued transactions one is not behind any other. */
  lemma {:induction false} FurthestExists(s: State, ts: set<TxId>)
    requires ts != {} && ts <= s.txs.Keys
    ensures exists t :: IsFurthest(s, ts, t)
  {
    hide Further;
    var x :| x in ts;
    if ts == {x} {
      FurtherIrreflexive(s.txs[x]);
      assert IsFurthest(s, ts, x);
    } else {
      FurthestExists(s, ts - {x});
      var y :| IsFurthest(s, ts - {x}, y);
      FurthestOf(s, ts, x, y);
    }
  }

  ghost predicate IsFurthest(s: State, ts: set<TxId>, t: TxId)
    requires ts <= s.txs.Keys
  {
    t in ts && forall u :: u in ts ==> !Further(s.txs[t], s.txs[u])
  }

  lemma FurthestOf(s: State, ts: set<TxId>, x: TxId, y: TxId)
    requires ts <= s.txs.Keys && x in ts && IsFurthest(s, ts - {x}, y)
    ensures IsFurthest(s, ts, if Further(s.txs[y], s.txs[x]) then x else y)
  {
    hide Further;
    if Further(s.txs[y], s.txs[x]) {
      forall u | u in ts ensures !Further(s.txs[x], s.txs[u]) {
        if u == x {
          FurtherIrreflexive(s.txs[x]);
        } else if Further(s.txs[x], s.txs[u]) {
          FurtherTransitive(s.txs[y], s.txs[x], s.txs[u]);
        }
      }
    } else {
      forall u | u in ts ensures !Further(s.txs[y], s.txs[u]) {
        assert u == x || u in ts - {x};
      }
    }
  }

  /** The transaction furthest along is not blocked. */
  lemma FurthestAcquires(s: State, t: TxId)
    requires Inv(s) && t in s.txs
    requires forall u :: u in s.txs ==> s.txs[u].ticket.Some?
    requires IsFurthest(s, s.txs.Keys, t)
    ensures InTurn(s, t) && exists s' :: Acquire(s, s', t)
  {
    forall u | u in s.txs ensures !WaitsFor(s, t, u) {
      if WaitsFor(s, t, u) {
        WaitsForFurther(s, t, u);
      }
    }
    hide WaitsFor, Further, Exclusive, Ordered, Requests;
    assert forall u :: u in s.txs ==> WellFormed(s.txs[u]);
    assert Acquire(s, s.(txs := s.txs[t := s.txs[t].(granted := s.txs[t].granted + 1, ticket := None)]), t);
  }

  lemma UnqueuedAdvances(s: State, t: TxId)
    requires Inv(s) && t in s.txs && s.txs[t].ticket.None?
    ensures exists s' :: Advances(s, s', t)
  {
    hide Exclusive, Ordered, Covered, Requests;
    var tx := s.txs[t];
    assert WellFormed(tx);
    if tx.granted == |tx.requests| {
      var s' := s.(txs := s.txs - {t});
      assert Commit(s, s', t);
      assert Advances(s, s', t);
    } else {
      var s' := if Covered(tx.requests[..tx.granted], Wanted(tx))
                then s.(txs := s.txs[t := tx.(granted := tx.granted + 1)])
                else State(s.txs[t := tx.(ticket := Some(s.clock))], s.clock + 1);
      assert Ask(s, s', t);
      assert Advances(s, s', t);
    }
  }

  /**
   * Deadlock freedom: in every reachable state with unfinished transactions some transaction can
   * take a step towards its own commit, without any rollback.
   */
  lemma NeverStuck(run: seq<State>, i: nat)
    requires IsRun(run) && i < |run| && run[i].txs != map[]
    ensures exists t, s' :: t in run[i].txs && Advances(run[i], s', t) && InTurn(run[i], t)
  {
    EveryRunKeepsInv(run, i);
    var s := run[i];
    hide Inv, Further, Advances, Acquire, IsRun;
    if t :| t in s.txs && s.txs[t].ticket.None? {
      UnqueuedAdvances(s, t);
    } else {
      var x :| x in s.txs;
      FurthestExists(s, s.txs.Keys);
      var t :| IsFurthest(s, s.txs.Keys, t);
      FurthestAcquires(s, t);
      var s' :| Acquire(s, s', t);
      assert Advances(s, s', t) by { AcquireAdvances(s, s', t); }
    }
  }

  lemma AcquireAdvances(s: State, s': State, t: TxId)
    requires Acquire(s, s', t)
    ensures Advances(s, s', t)
  {
  }

  // ---------------------------------------------------------------- every wait is bounded

  /** Steps a transaction still needs: at most one to ask and one to be granted per request. */
  function Remaining(tx: Tx): nat
    requires WellFormed(tx)
  {
    2 * (|tx.requests| - tx.granted) + (if tx.ticket.Some? then 0 else 1)
  }

  /** Each own step shortens what a transaction still needs, so none advances forever. */
  lemma AdvancingShortens(s: State, s': State, t: TxId)
    requires Inv(s) && Advances(s, s', t)
    ensures t in s.txs && WellFormed(s.txs[t])
    ensures t in s'.txs ==> WellFormed(s'.txs[t]) && Remaining(s'.txs[t]) < Remaining(s.txs[t])
    ensures forall u :: u in s.txs && u != t ==> u in s'.txs && s'.txs[u] == s.txs[u]
  {
    hide Exclusive, Ordered, Covered, WaitsFor, Requests;
  }
}
