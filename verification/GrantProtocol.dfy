/**
 * Transactions that create objects and create, replace and revoke grants, in any interleaving:
 * no committed state leaves an object without an active administrator grant.
 *
 * A statement sees the committed grants and the transaction's own changes. Creating a grant holds
 * the object's row shared, replacing and revoking hold it for update, both until the transaction
 * ends.
 */
module GrantProtocol {
  import opened Prelude
  import opened ObjectGrants

  type TxId = nat

  datatype Tx = Tx(locks: map<Id, Mode>, changes: Grants, created: set<Id>)

  datatype State = State(objects: set<Id>, grants: Grants, txs: map<TxId, Tx>)

  function View(s: State, tx: Tx): Grants {
    s.grants + tx.changes
  }

  predicate IsFreshId(s: State, g: Id) {
    g !in s.grants && forall u :: u in s.txs ==> g !in s.txs[u].changes
  }

  predicate LockedBy(s: State, t: TxId, o: Id, mode: Mode) {
    t in s.txs && o in s.txs[t].locks && s.txs[t].locks[o] == mode
  }

  predicate OthersAllow(s: State, t: TxId, o: Id, mode: Mode) {
    forall u :: u in s.txs && u != t && o in s.txs[u].locks ==> mode == Share && s.txs[u].locks[o] == Share
  }

  // ---------------------------------------------------------------- steps

  ghost predicate Begin(s: State, s': State, t: TxId) {
    t !in s.txs && s' == s.(txs := s.txs[t := Tx(map[], map[], {})])
  }

  /** A lock already held for update is not weakened. */
  ghost predicate Lock(s: State, s': State, t: TxId, o: Id, mode: Mode) {
    && t in s.txs && (o in s.objects || o in s.txs[t].created) && OthersAllow(s, t, o, mode)
    && var tx := s.txs[t];
    s' == s.(txs := s.txs[t := tx.(locks := tx.locks[o := if LockedBy(s, t, o, Update) then Update else mode])])
  }

  ghost predicate CreateObject(s: State, s': State, t: TxId, o: Id, g: Id, creator: Id) {
    && t in s.txs && o !in s.objects && IsFreshId(s, g)
    && (forall u :: u in s.txs ==> o !in s.txs[u].created)
    && var tx := s.txs[t];
    s' == s.(txs := s.txs[t := Tx(
      tx.locks[o := Update], tx.changes[g := Grant(o, User(creator), Admin, true)], tx.created + {o})])
  }

  ghost predicate CreateGrant(s: State, s': State, t: TxId, o: Id, g: Id, principal: Principal, role: Role) {
    && t in s.txs && o in s.txs[t].locks && IsFreshId(s, g)
    && var tx := s.txs[t];
    s' == s.(txs := s.txs[t := tx.(changes := tx.changes[g := Grant(o, principal, role, true)])])
  }

  /** The own changes after revoking `g` and inserting its replacement `id`. */
  function Replacing(changes: Grants, grant: Grant, g: Id, id: Id, role: Role): Grants {
    changes[g := grant.(active := false)][id := Grant(grant.target, grant.principal, role, true)]
  }

  ghost predicate Replace(s: State, s': State, t: TxId, o: Id, g: Id, id: Id, role: Role) {
    && LockedBy(s, t, o, Update) && IsFreshId(s, id)
    && var tx := s.txs[t];
    var view := View(s, tx);
    && IsActiveOn(view, o, g) && RetainsAdmin(view, o, g, Some(role))
    && s' == s.(txs := s.txs[t := tx.(changes := Replacing(tx.changes, view[g], g, id, role))])
  }

  ghost predicate Revoke(s: State, s': State, t: TxId, o: Id, g: Id) {
    && LockedBy(s, t, o, Update)
    && var tx := s.txs[t];
    var view := View(s, tx);
    && IsActiveOn(view, o, g) && RetainsAdmin(view, o, g, None)
    && s' == s.(txs := s.txs[t := tx.(changes := tx.changes[g := view[g].(active := false)])])
  }

  /** After each statement its transaction sees the table that the statement leaves behind. */
  lemma StatementsTakeEffect(s: State, s': State, t: TxId, o: Id, g: Id, id: Id, principal: Principal, role: Role)
    requires t in s.txs
    ensures CreateGrant(s, s', t, o, g, principal, role) ==>
              View(s', s'.txs[t]) == View(s, s.txs[t])[g := Grant(o, principal, role, true)]
    ensures Replace(s, s', t, o, g, id, role) ==>
              var grant := View(s, s.txs[t])[g];
              View(s', s'.txs[t])
              == View(s, s.txs[t])[g := grant.(active := false)][id := Grant(o, grant.principal, role, true)]
    ensures Revoke(s, s', t, o, g) ==>
              View(s', s'.txs[t]) == View(s, s.txs[t])[g := View(s, s.txs[t])[g].(active := false)]
  {
    hide RetainsAdmin, IsFreshId;
  }

  ghost predicate Commit(s: State, s': State, t: TxId) {
    && t in s.txs
    && s' == State(s.objects + s.txs[t].created, View(s, s.txs[t]), s.txs - {t})
  }

  ghost predicate Rollback(s: State, s': State, t: TxId) {
    t in s.txs && s' == s.(txs := s.txs - {t})
  }

  ghost predicate Step(s: State, s': State, t: TxId) {
    || Begin(s, s', t)
    || (exists o, mode :: Lock(s, s', t, o, mode))
    || (exists o, g, creator :: CreateObject(s, s', t, o, g, creator))
    || (exists o, g, principal, role :: CreateGrant(s, s', t, o, g, principal, role))
    || (exists o, g, id, role :: Replace(s, s', t, o, g, id, role))
    || (exists o, g :: Revoke(s, s', t, o, g))
    || Commit(s, s', t)
    || Rollback(s, s', t)
  }

  ghost predicate Next(s: State, s': State) {
    exists t: TxId :: Step(s, s', t)
  }

  ghost predicate IsRun(run: seq<State>) {
    && run != [] && run[0] == State({}, map[], map[])
    && forall i :: 0 <= i < |run| - 1 ==> Next(run[i], run[i + 1])
  }

  // ---------------------------------------------------------------- the invariant

  predicate HasAdmin(grants: Grants, o: Id) {
    AdminGrants(grants, o) != {}
  }

  /** A change touches a locked object; changing a committed grant needs the update lock. */
  predicate ChangeOk(grants: Grants, tx: Tx, g: Id)
    requires g in tx.changes
  {
    var o := tx.changes[g].target;
    && o in tx.locks
    && (g in grants ==> grants[g].target == o && tx.locks[o] == Update)
  }

  ghost predicate TxOk(objects: set<Id>, grants: Grants, tx: Tx) {
    && (forall o :: o in tx.created ==> o !in objects && o in tx.locks && tx.locks[o] == Update)
    && (forall o :: o in tx.locks ==> o in objects || o in tx.created)
    && (forall g :: g in tx.changes ==> ChangeOk(grants, tx, g))
    && (forall o :: o in tx.locks && tx.locks[o] == Update ==> HasAdmin(grants + tx.changes, o))
  }

  predicate Compatible(a: Tx, b: Tx) {
    && (forall o :: o in a.locks && o in b.locks ==> a.locks[o] == b.locks[o] == Share)
    && (forall g :: g in a.changes ==> g !in b.changes)
  }

  ghost predicate Inv(s: State) {
    && (forall o :: o in s.objects ==> HasAdmin(s.grants, o))
    && (forall t :: t in s.txs ==> TxOk(s.objects, s.grants, s.txs[t]))
    && (forall t, u :: t in s.txs && u in s.txs && t != u ==> Compatible(s.txs[t], s.txs[u]))
  }

  lemma TxIsOk(s: State, t: TxId)
    requires Inv(s) && t in s.txs
    ensures TxOk(s.objects, s.grants, s.txs[t])
  {
    hide TxOk, HasAdmin, Compatible;
  }

  lemma PairIsCompatible(s: State, t: TxId, u: TxId)
    requires Inv(s) && t in s.txs && u in s.txs && t != u
    ensures Compatible(s.txs[t], s.txs[u])
  {
    hide TxOk, HasAdmin, Compatible;
  }

  lemma CompatibleSymmetric(a: Tx, b: Tx)
    requires Compatible(a, b)
    ensures Compatible(b, a)
  {
  }

  lemma OneTxChanges(s: State, s': State, t: TxId, tx: Tx)
    requires Inv(s) && t in s.txs && s' == s.(txs := s.txs[t := tx])
    requires TxOk(s.objects, s.grants, tx)
    requires forall u :: u in s.txs && u != t ==> Compatible(tx, s.txs[u])
    ensures Inv(s')
  {
    hide TxOk, HasAdmin, Compatible;
    forall u | u in s.txs && u != t ensures Compatible(s.txs[u], tx) {
      CompatibleSymmetric(tx, s.txs[u]);
    }
  }

  lemma LocksStayCompatible(a: Tx, b: Tx, o: Id, mode: Mode)
    requires Compatible(a, b)
    requires o in b.locks ==> mode == Share && b.locks[o] == Share
    ensures Compatible(a.(locks := a.locks[o := mode]), b)
  {
  }

  lemma ChangesStayCompatible(a: Tx, b: Tx, changes: Grants, created: set<Id>)
    requires Compatible(a, b) && forall g :: g in changes && g !in a.changes ==> g !in b.changes
    ensures Compatible(a.(changes := changes, created := created), b)
  {
  }

  /** A set of administrators only depends on the grants of that object. */
  lemma AdminGrantsLocal(a: Grants, b: Grants, o: Id)
    requires forall g :: (g in a && a[g].target == o) || (g in b && b[g].target == o) ==>
               g in a && g in b && a[g] == b[g]
    ensures AdminGrants(a, o) == AdminGrants(b, o)
  {
  }

  lemma NewGrantKeepsAdmin(grants: Grants, o: Id, g: Id, grant: Grant)
    requires g !in grants && HasAdmin(grants, o)
    ensures HasAdmin(grants[g := grant], o)
  {
    var h :| h in AdminGrants(grants, o);
    assert h in AdminGrants(grants[g := grant], o);
  }

  lemma LockKeepsTxOk(objects: set<Id>, grants: Grants, tx: Tx, o: Id, mode: Mode)
    requires TxOk(objects, grants, tx) && (o in objects || o in tx.created)
    requires o in objects ==> HasAdmin(grants, o)
    requires o in tx.locks && tx.locks[o] == Update ==> mode == Update
    ensures TxOk(objects, grants, tx.(locks := tx.locks[o := mode]))
  {
    var locked := tx.(locks := tx.locks[o := mode]);
    if mode == Update && !(o in tx.locks && tx.locks[o] == Update) {
      forall g | g in tx.changes && tx.changes[g].target == o ensures g !in grants {
        assert ChangeOk(grants, tx, g);
      }
      forall g | g in tx.changes && g in grants ensures grants[g].target != o {
        assert ChangeOk(grants, tx, g);
      }
      OwnInsertsKeepAdmin(grants, tx.changes, o);
    }
    hide HasAdmin;
    forall g | g in locked.changes ensures ChangeOk(grants, locked, g) {
      assert ChangeOk(grants, tx, g);
    }
  }

  lemma LockKeepsInv(s: State, s': State, t: TxId, o: Id, mode: Mode)
    requires Inv(s) && Lock(s, s', t, o, mode)
    ensures Inv(s')
  {
    TxIsOk(s, t);
    assert o in s.objects ==> HasAdmin(s.grants, o);
    hide Inv, TxOk, HasAdmin;
    var strongest := if LockedBy(s, t, o, Update) then Update else mode;
    LockKeepsTxOk(s.objects, s.grants, s.txs[t], o, strongest);
    forall u | u in s.txs && u != t ensures Compatible(s'.txs[t], s.txs[u]) {
      PairIsCompatible(s, t, u);
      LocksStayCompatible(s.txs[t], s.txs[u], o, strongest);
    }
    hide Compatible;
    OneTxChanges(s, s', t, s'.txs[t]);
  }

  lemma OwnInsertsKeepAdmin(grants: Grants, changes: Grants, o: Id)
    requires HasAdmin(grants, o)
    requires forall g :: g in changes && g in grants ==> grants[g].target != o
    ensures HasAdmin(grants + changes, o)
  {
    var h :| h in AdminGrants(grants, o);
    assert h in AdminGrants(grants + changes, o);
  }

  lemma InsertKeepsTxOk(objects: set<Id>, grants: Grants, tx: Tx, g: Id, grant: Grant)
    requires TxOk(objects, grants, tx) && g !in grants && g !in tx.changes && grant.target in tx.locks
    ensures TxOk(objects, grants, tx.(changes := tx.changes[g := grant]))
  {
    var after := tx.(changes := tx.changes[g := grant]);
    assert grants + after.changes == (grants + tx.changes)[g := grant];
    forall o | o in tx.locks && tx.locks[o] == Update ensures HasAdmin(grants + after.changes, o) {
      NewGrantKeepsAdmin(grants + tx.changes, o, g, grant);
    }
    hide HasAdmin;
    forall h | h in after.changes ensures ChangeOk(grants, after, h) {
      assert h != g ==> ChangeOk(grants, tx, h);
    }
  }

  lemma CreateGrantKeepsInv(s: State, s': State, t: TxId, o: Id, g: Id, principal: Principal, role: Role)
    requires Inv(s) && CreateGrant(s, s', t, o, g, principal, role)
    ensures Inv(s')
  {
    hide Inv, TxOk, HasAdmin, Compatible;
    var tx := s.txs[t];
    TxIsOk(s, t);
    InsertKeepsTxOk(s.objects, s.grants, tx, g, Grant(o, principal, role, true));
    forall u | u in s.txs && u != t ensures Compatible(s'.txs[t], s.txs[u]) {
      PairIsCompatible(s, t, u);
      ChangesStayCompatible(tx, s.txs[u], s'.txs[t].changes, tx.created);
    }
    OneTxChanges(s, s', t, s'.txs[t]);
  }

  lemma CreateObjectKeepsTxOk(objects: set<Id>, grants: Grants, tx: Tx, o: Id, g: Id, grant: Grant)
    requires TxOk(objects, grants, tx) && o !in objects && o !in tx.created && g !in grants && g !in tx.changes
    requires grant.target == o && grant.role == Admin && grant.active
    ensures TxOk(objects, grants, Tx(tx.locks[o := Update], tx.changes[g := grant], tx.created + {o}))
  {
    var after := Tx(tx.locks[o := Update], tx.changes[g := grant], tx.created + {o});
    assert grants + after.changes == (grants + tx.changes)[g := grant];
    forall p | p in after.locks && after.locks[p] == Update ensures HasAdmin(grants + after.changes, p) {
      if p == o {
        assert g in AdminGrants(grants + after.changes, o);
      } else {
        NewGrantKeepsAdmin(grants + tx.changes, p, g, grant);
      }
    }
    hide HasAdmin;
    forall h | h in after.changes ensures ChangeOk(grants, after, h) {
      assert h != g ==> ChangeOk(grants, tx, h);
    }
  }

  lemma CreateObjectKeepsInv(s: State, s': State, t: TxId, o: Id, g: Id, creator: Id)
    requires Inv(s) && CreateObject(s, s', t, o, g, creator)
    ensures Inv(s')
  {
    hide Inv, HasAdmin, Compatible;
    var tx, after := s.txs[t], s'.txs[t];
    TxIsOk(s, t);
    CreateObjectKeepsTxOk(s.objects, s.grants, tx, o, g, Grant(o, User(creator), Admin, true));
    forall u | u in s.txs && u != t ensures Compatible(after, s.txs[u]) {
      PairIsCompatible(s, t, u);
      TxIsOk(s, u);
      LocksStayCompatible(tx, s.txs[u], o, Update);
      ChangesStayCompatible(tx.(locks := after.locks), s.txs[u], after.changes, after.created);
    }
    hide TxOk;
    OneTxChanges(s, s', t, after);
  }

  /** Changing grants of one update-locked object, as long as that object keeps an administrator. */
  lemma ChangeKeepsTxOk(objects: set<Id>, grants: Grants, tx: Tx, o: Id, changes: Grants)
    requires TxOk(objects, grants, tx) && o in tx.locks && tx.locks[o] == Update
    requires forall g :: g in tx.changes ==> g in changes
    requires forall g :: g in changes && !(g in tx.changes && changes[g] == tx.changes[g]) ==>
               && changes[g].target == o
               && (g in grants + tx.changes ==> (grants + tx.changes)[g].target == o)
    requires HasAdmin(grants + changes, o)
    ensures TxOk(objects, grants, tx.(changes := changes))
  {
    var after := tx.(changes := changes);
    forall p | p in tx.locks && tx.locks[p] == Update ensures HasAdmin(grants + changes, p) {
      if p != o {
        AdminGrantsLocal(grants + tx.changes, grants + changes, p);
      }
    }
    hide HasAdmin;
    forall g | g in changes ensures ChangeOk(grants, after, g) {
      assert g in tx.changes ==> ChangeOk(grants, tx, g);
    }
  }

  /** The change concerns grant `g` of object `o`, or a new grant of that object. */
  predicate IsOwnChange(s: State, tx: Tx, o: Id, g: Id, h: Id, changed: Grant) {
    || (h in tx.changes && changed == tx.changes[h])
    || (changed.target == o && (h == g || IsFreshId(s, h)))
  }

  lemma OwnChangesKeepTxOk(s: State, t: TxId, o: Id, g: Id, changes: Grants)
    requires t in s.txs && TxOk(s.objects, s.grants, s.txs[t])
    requires LockedBy(s, t, o, Update) && IsActiveOn(View(s, s.txs[t]), o, g)
    requires forall h :: h in s.txs[t].changes ==> h in changes
    requires forall h :: h in changes ==> IsOwnChange(s, s.txs[t], o, g, h, changes[h])
    requires HasAdmin(s.grants + changes, o)
    ensures TxOk(s.objects, s.grants, s.txs[t].(changes := changes))
  {
    hide TxOk, HasAdmin;
    var tx := s.txs[t];
    var view := View(s, tx);
    forall h | h in changes && !(h in tx.changes && changes[h] == tx.changes[h])
      ensures changes[h].target == o && (h in view ==> view[h].target == o)
    {
      assert IsOwnChange(s, tx, o, g, h, changes[h]);
    }
    ChangeKeepsTxOk(s.objects, s.grants, tx, o, changes);
  }

  lemma OwnChangesAreNoOthers(s: State, a: Tx, o: Id, g: Id, changes: Grants, u: TxId)
    requires forall h :: h in changes ==> IsOwnChange(s, a, o, g, h, changes[h])
    requires u in s.txs && g !in s.txs[u].changes
    ensures forall h :: h in changes && h !in a.changes ==> h !in s.txs[u].changes
  {
    forall h | h in changes && h !in a.changes ensures h !in s.txs[u].changes {
      assert IsOwnChange(s, a, o, g, h, changes[h]);
    }
  }

  /** Changing a grant of an update-locked object, and possibly adding a new one to it. */
  lemma ChangeKeepsInv(s: State, s': State, t: TxId, o: Id, g: Id, changes: Grants)
    requires Inv(s) && LockedBy(s, t, o, Update) && IsActiveOn(View(s, s.txs[t]), o, g)
    requires s' == s.(txs := s.txs[t := s.txs[t].(changes := changes)])
    requires forall h :: h in s.txs[t].changes ==> h in changes
    requires forall h :: h in changes ==> IsOwnChange(s, s.txs[t], o, g, h, changes[h])
    requires HasAdmin(s.grants + changes, o)
    ensures Inv(s')
  {
    hide Inv, TxOk, Compatible, HasAdmin, View, IsActiveOn, IsOwnChange;
    TxIsOk(s, t);
    OwnChangesKeepTxOk(s, t, o, g, changes);
    forall u | u in s.txs && u != t ensures Compatible(s'.txs[t], s.txs[u]) {
      PairIsCompatible(s, t, u);
      OwnChangesAreNoOthers(s, s.txs[t], o, g, changes, u) by {
        ActiveIsGrant(View(s, s.txs[t]), o, g);
        NoOtherChanges(s, t, o, g, u);
      }
      ChangesStayCompatible(s.txs[t], s.txs[u], changes, s.txs[t].created);
    }
    OneTxChanges(s, s', t, s'.txs[t]);
  }

  lemma ReplacingIsReplaced(s: State, tx: Tx, o: Id, g: Id, id: Id, role: Role)
    requires IsActiveOn(View(s, tx), o, g) && IsFreshId(s, id) && id !in tx.changes
    ensures var changes := Replacing(tx.changes, View(s, tx)[g], g, id, role);
            && s.grants + changes == Replaced(View(s, tx), g, id, role)
            && (forall h :: h in tx.changes ==> h in changes)
            && (forall h :: h in changes ==> IsOwnChange(s, tx, o, g, h, changes[h]))
  {
    hide IsFreshId;
  }

  lemma ReplacedHasAdmin(grants: Grants, o: Id, g: Id, id: Id, role: Role)
    requires IsActiveOn(grants, o, g) && id !in grants && HasAdmin(grants, o)
    requires RetainsAdmin(grants, o, g, Some(role))
    ensures HasAdmin(Replaced(grants, g, id, role), o)
  {
    hide AdminGrants, RetainsAdmin;
    AdminsAre(grants, o);
    ReplaceGuardIsExact(grants, o, g, id, role);
    AdminsAre(Replaced(grants, g, id, role), o);
  }

  lemma RevokedHasAdmin(grants: Grants, o: Id, g: Id)
    requires IsActiveOn(grants, o, g) && HasAdmin(grants, o) && RetainsAdmin(grants, o, g, None)
    ensures HasAdmin(Revoked(grants, g), o)
  {
    hide AdminGrants, RetainsAdmin;
    AdminsAre(grants, o);
    RevokeGuardIsExact(grants, o, g);
    AdminsAre(Revoked(grants, g), o);
  }

  lemma ReplaceKeepsInv(s: State, s': State, t: TxId, o: Id, g: Id, id: Id, role: Role)
    requires Inv(s) && Replace(s, s', t, o, g, id, role)
    ensures Inv(s')
  {
    var tx := s.txs[t];
    assert id !in s.grants && id !in tx.changes;
    hide Inv, TxOk, IsOwnChange, Replacing, Replaced, RetainsAdmin, IsActiveOn, IsFreshId, AdminGrants, HasAdmin;
    TxIsOk(s, t);
    UpdateLockedHasAdmin(s.objects, s.grants, tx, o);
    ReplacedHasAdmin(View(s, tx), o, g, id, role);
    ReplacingIsReplaced(s, tx, o, g, id, role);
    ChangeKeepsInv(s, s', t, o, g, Replacing(tx.changes, View(s, tx)[g], g, id, role)) by {
      ActiveIsGrant(View(s, tx), o, g);
    }
  }

  lemma ActiveIsGrant(grants: Grants, o: Id, g: Id)
    requires IsActiveOn(grants, o, g)
    ensures g in grants && grants[g].target == o
  {
  }

  lemma RevokeKeepsInv(s: State, s': State, t: TxId, o: Id, g: Id)
    requires Inv(s) && Revoke(s, s', t, o, g)
    ensures Inv(s')
  {
    hide Inv, TxOk;
    var tx, after := s.txs[t], s'.txs[t];
    var view := View(s, tx);
    TxIsOk(s, t);
    UpdateLockedHasAdmin(s.objects, s.grants, tx, o);
    RevokedHasAdmin(view, o, g);
    assert s.grants + after.changes == Revoked(view, g);
    hide RetainsAdmin, AdminGrants, HasAdmin;
    ChangeKeepsInv(s, s', t, o, g, after.changes);
  }

  lemma UpdateLockedHasAdmin(objects: set<Id>, grants: Grants, tx: Tx, o: Id)
    requires TxOk(objects, grants, tx) && o in tx.locks && tx.locks[o] == Update
    ensures HasAdmin(grants + tx.changes, o)
  {
    assert HasAdmin(grants + tx.changes, o);
  }

  /** No other transaction has touched a grant of an update-locked object. */
  lemma NoOtherChanges(s: State, t: TxId, o: Id, g: Id, u: TxId)
    requires Inv(s) && LockedBy(s, t, o, Update) && g in View(s, s.txs[t]) && View(s, s.txs[t])[g].target == o
    requires u in s.txs && u != t
    ensures g !in s.txs[u].changes
  {
    PairIsCompatible(s, t, u);
    TxIsOk(s, u);
    hide Inv, HasAdmin;
    assert g in s.txs[u].changes ==> ChangeOk(s.grants, s.txs[u], g);
  }

  lemma CommitKeepsOther(objects: set<Id>, grants: Grants, a: Tx, b: Tx)
    requires TxOk(objects, grants, a) && TxOk(objects, grants, b) && Compatible(a, b)
    ensures TxOk(objects + a.created, grants + a.changes, b)
  {
    var committed := grants + a.changes;
    forall o | o in b.locks && b.locks[o] == Update ensures HasAdmin(committed + b.changes, o) {
      forall g | g in a.changes ensures a.changes[g].target != o && (g in grants ==> grants[g].target != o) {
        assert ChangeOk(grants, a, g);
      }
      AdminGrantsLocal(grants + b.changes, committed + b.changes, o);
    }
    hide HasAdmin;
    forall g | g in b.changes ensures ChangeOk(committed, b, g) {
      assert ChangeOk(grants, b, g);
    }
  }

  lemma CommitKeepsInv(s: State, s': State, t: TxId)
    requires Inv(s) && Commit(s, s', t)
    ensures Inv(s')
  {
    var tx := s.txs[t];
    TxIsOk(s, t);
    forall o | o in s'.objects ensures HasAdmin(s'.grants, o) {
      if !LockedBy(s, t, o, Update) {
        forall g | g in tx.changes && g in s.grants ensures s.grants[g].target != o {
          assert ChangeOk(s.grants, tx, g);
        }
        OwnInsertsKeepAdmin(s.grants, tx.changes, o);
      }
    }
    hide TxOk, HasAdmin, Compatible;
    forall u | u in s'.txs ensures TxOk(s'.objects, s'.grants, s'.txs[u]) {
      TxIsOk(s, u);
      PairIsCompatible(s, t, u);
      CommitKeepsOther(s.objects, s.grants, tx, s.txs[u]);
    }
  }

  lemma StepKeepsInv(s: State, s': State, t: TxId)
    requires Inv(s) && Step(s, s', t)
    ensures Inv(s')
  {
    hide Begin, Lock, CreateObject, CreateGrant, Replace, Revoke, Commit, Rollback, Inv;
    if Commit(s, s', t) {
      CommitKeepsInv(s, s', t);
    } else if o, mode :| Lock(s, s', t, o, mode) {
      LockKeepsInv(s, s', t, o, mode);
    } else if o, g, creator :| CreateObject(s, s', t, o, g, creator) {
      CreateObjectKeepsInv(s, s', t, o, g, creator);
    } else if o, g, principal, role :| CreateGrant(s, s', t, o, g, principal, role) {
      CreateGrantKeepsInv(s, s', t, o, g, principal, role);
    } else if o, g, id, role :| Replace(s, s', t, o, g, id, role) {
      ReplaceKeepsInv(s, s', t, o, g, id, role);
    } else if o, g :| Revoke(s, s', t, o, g) {
      RevokeKeepsInv(s, s', t, o, g);
    } else if Begin(s, s', t) {
      BeginKeepsInv(s, s', t);
    } else {
      RollbackKeepsInv(s, s', t);
    }
  }

  lemma EmptyTxIsOk(objects: set<Id>, grants: Grants)
    ensures TxOk(objects, grants, Tx(map[], map[], {}))
  {
  }

  lemma EmptyTxIsCompatible(a: Tx)
    ensures Compatible(a, Tx(map[], map[], {})) && Compatible(Tx(map[], map[], {}), a)
  {
  }

  lemma BeginKeepsInv(s: State, s': State, t: TxId)
    requires Inv(s) && Begin(s, s', t)
    ensures Inv(s')
  {
    hide TxOk, HasAdmin, Compatible;
    EmptyTxIsOk(s.objects, s.grants);
    forall u | u in s.txs ensures Compatible(s.txs[u], s'.txs[t]) && Compatible(s'.txs[t], s.txs[u]) {
      EmptyTxIsCompatible(s.txs[u]);
    }
  }

  lemma RollbackKeepsInv(s: State, s': State, t: TxId)
    requires Inv(s) && Rollback(s, s', t)
    ensures Inv(s')
  {
    hide TxOk, HasAdmin, Compatible;
  }

  lemma {:induction false} EveryRunKeepsInv(run: seq<State>, i: nat)
    requires IsRun(run) && i < |run|
    ensures Inv(run[i])
  {
    if i > 0 {
      EveryRunKeepsInv(run, i - 1);
      hide Step, Inv;
      assert Next(run[i - 1], run[i - 1 + 1]);
      var t :| Step(run[i - 1], run[i], t);
      StepKeepsInv(run[i - 1], run[i], t);
    }
  }

  /** Every committed object has an active administrator grant, in every state of every run. */
  lemma EveryRunKeepsAdmins(run: seq<State>, i: nat, o: Id)
    requires IsRun(run) && i < |run| && o in run[i].objects
    ensures HasActiveAdmin(run[i].grants, o)
  {
    EveryRunKeepsInv(run, i);
    AdminsAre(run[i].grants, o);
  }
}
