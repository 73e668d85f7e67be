/**
 * Optimistic versioning: an update names the version it was based on and is refused when another
 * one has become current.
 */
module ObjectVersions {
  import opened Prelude

  type Id = nat

  datatype Content = Content(title: string, body: string, metadata: string)

  /** `base` records, for the proofs only, the expected version named by the accepted request. */
  datatype Version = Version(id: Id, number: nat, content: Content, base: Option<Id>)

  /** An object row together with its rows in the version table, in insertion order. */
  datatype Aggregate = Aggregate(workspace: Id, archived: bool, current: Option<Id>, versions: seq<Version>)

  /** An absent field keeps the current value. */
  datatype Request = Request(
    workspace: Id, target: Id, expected: Id,
    title: Option<string>, body: Option<string>, metadata: Option<string>)

  datatype Error = ResourceNotFound | ObjectHasNoCurrentVersion | ObjectVersionConflict | Rejected

  datatype Updated = Updated(version: Version, previousTitle: string, changed: bool)

  function OrElse<T>(o: Option<T>, default: T): T {
    match o
    case Some(x) => x
    case None => default
  }

  function Merged(request: Request, current: Content): Content {
    Content(
      OrElse(request.title, current.title),
      OrElse(request.body, current.body),
      OrElse(request.metadata, current.metadata))
  }

  // ---------------------------------------------------------------- linear history

  predicate HasId(versions: seq<Version>, id: Id) {
    exists k :: 0 <= k < |versions| && versions[k].id == id
  }

  /** Version `k` follows version `k - 1`: it was based on it and differs from it. */
  predicate Follows(versions: seq<Version>, k: nat)
    requires k < |versions|
  {
    && versions[k].number == k + 1
    && (k > 0 ==> versions[k].base == Some(versions[k - 1].id) && versions[k].content != versions[k - 1].content)
  }

  /** Numbered without gaps, each based on the one before, and the last one current. */
  predicate Linear(a: Aggregate) {
    && a.versions != []
    && a.current == Some(a.versions[|a.versions| - 1].id)
    && (forall k :: 0 <= k < |a.versions| ==> Follows(a.versions, k))
    && (forall k, l :: 0 <= k < l < |a.versions| ==> a.versions[k].id != a.versions[l].id)
  }

  function Created(workspace: Id, id: Id, content: Content): Aggregate {
    Aggregate(workspace, false, Some(id), [Version(id, 1, content, None)])
  }

  function Appended(a: Aggregate, v: Version): Aggregate {
    a.(current := Some(v.id), versions := a.versions + [v])
  }

  lemma AppendedIsLinear(a: Aggregate, v: Version)
    requires Linear(a) && !HasId(a.versions, v.id)
    requires v.number == |a.versions| + 1 && v.base == a.current
    requires v.content != a.versions[|a.versions| - 1].content
    ensures Linear(Appended(a, v))
  {
    var b := Appended(a, v);
    forall k | 0 <= k < |b.versions| ensures Follows(b.versions, k) {
      assert k < |a.versions| ==> Follows(a.versions, k);
    }
  }

  /** No version is the base of two accepted updates: none is lost. */
  lemma BasesDiffer(a: Aggregate, k: nat, l: nat)
    requires Linear(a) && 0 < k < l < |a.versions|
    ensures a.versions[k].base.Some? && a.versions[k].base != a.versions[l].base
  {
    assert Follows(a.versions, k) && Follows(a.versions, l);
  }

  // ---------------------------------------------------------------- one transition

  /** The outcome of an update on a locked active object; `id` is the stored row's new id. */
  function Outcome(a: Aggregate, request: Request, id: Id): (Aggregate, Result<Updated, Error>)
    requires a.current.None? || Linear(a)
  {
    if a.current.None? then (a, Err(ObjectHasNoCurrentVersion))
    else if request.expected != a.current.value then (a, Err(ObjectVersionConflict))
    else
      var current := a.versions[|a.versions| - 1];
      var content := Merged(request, current.content);
      if content == current.content then (a, Ok(Updated(current, current.content.title, false)))
      else
        var v := Version(id, |a.versions| + 1, content, Some(request.expected));
        (Appended(a, v), Ok(Updated(v, current.content.title, true)))
  }

  /** A field of the request replaces the current value; an absent one keeps it. */
  predicate Settles<T(==)>(field: Option<T>, current: T, settled: T) {
    (field.Some? && settled == field.value) || (field.None? && settled == current)
  }

  predicate ChangesField<T(==)>(field: Option<T>, current: T) {
    field.Some? && field.value != current
  }

  /**
   * What an accepted update leaves behind: each field as requested or as it was; a new last row,
   * made current, when some requested field differs, and otherwise nothing changed.
   */
  predicate IsAccepted(a: Aggregate, request: Request, id: Id, b: Aggregate, updated: Updated) {
    && a.versions != [] && a.current == Some(request.expected)
    && var last, added := a.versions[|a.versions| - 1], updated.version;
    && updated.previousTitle == last.content.title
    && Settles(request.title, last.content.title, added.content.title)
    && Settles(request.body, last.content.body, added.content.body)
    && Settles(request.metadata, last.content.metadata, added.content.metadata)
    && (updated.changed <==>
          || ChangesField(request.title, last.content.title)
          || ChangesField(request.body, last.content.body)
          || ChangesField(request.metadata, last.content.metadata))
    && (updated.changed ==>
          && added.id == id && added.number == last.number + 1 && added.base == Some(request.expected)
          && b == Aggregate(a.workspace, a.archived, Some(id), a.versions + [added]))
    && (!updated.changed ==> added == last && b == a)
  }

  /** An update is accepted exactly when it names the current version. */
  lemma OutcomeIsAccepted(a: Aggregate, request: Request, id: Id)
    requires a.current.None? || Linear(a)
    ensures var (b, result) := Outcome(a, request, id);
            && (result.Ok? <==> a.current == Some(request.expected))
            && (result.Ok? ==> IsAccepted(a, request, id, b, result.value))
            && (result.Err? ==> b == a)
  {
    if a.current.Some? {
      assert Follows(a.versions, |a.versions| - 1);
    }
  }

  lemma UpdateKeepsLinear(a: Aggregate, request: Request, id: Id)
    requires Linear(a) && !HasId(a.versions, id)
    ensures Linear(Outcome(a, request, id).0)
    ensures a.versions <= Outcome(a, request, id).0.versions
    ensures Outcome(a, request, id).0 != a <==> Outcome(a, request, id).1.Ok? && Outcome(a, request, id).1.value.changed
  {
    var content := Merged(request, a.versions[|a.versions| - 1].content);
    if request.expected == a.current.value && content != a.versions[|a.versions| - 1].content {
      AppendedIsLinear(a, Version(id, |a.versions| + 1, content, Some(request.expected)));
    }
  }

  class Objects {
    var objects: map<Id, Aggregate>
    var activeWorkspaces: set<Id>

    ghost predicate Valid()
      reads this
    {
      forall o :: o in objects ==> objects[o].current.None? || Linear(objects[o])
    }

    predicate IsActive(workspace: Id, o: Id)
      reads this
    {
      workspace in activeWorkspaces && o in objects && objects[o].workspace == workspace && !objects[o].archived
    }

    /** The locked row's current version, when workspace and object are active. */
    method LockActiveObject(workspace: Id, o: Id) returns (locked: Option<Option<Id>>)
      ensures locked == if IsActive(workspace, o) then Some(objects[o].current) else None
    {
      if !IsActive(workspace, o) {
        return None;
      }
      return Some(objects[o].current);
    }

    /**
     * Creates the object row, its first version and the current-version pointer in one savepoint;
     * `refused` says which of the three statements the database refuses, if any.
     */
    method CreateInitialObject(workspace: Id, o: Id, id: Id, content: Content, refused: Option<nat>)
      returns (r: Result<Version, Error>)
      requires Valid() && o !in objects
      modifies this`objects
      ensures Valid()
      ensures r == Err(ResourceNotFound) <==> workspace !in activeWorkspaces
      ensures r.Ok? <==> workspace in activeWorkspaces && (refused.None? || refused.value > 2)
      ensures r.Ok? ==> objects == old(objects)[o := Aggregate(workspace, false, Some(id), [r.value])]
                        && r.value == Version(id, 1, content, None) && objects[o] == Created(workspace, id, content)
      ensures r.Err? ==> objects == old(objects)
    {
      var savepoint := objects;
      if workspace !in activeWorkspaces {
        return Err(ResourceNotFound);
      }
      if refused == Some(0) {
        return Err(Rejected);
      }
      objects := objects[o := Aggregate(workspace, false, None, [])];
      if refused == Some(1) {
        objects := savepoint;
        return Err(Rejected);
      }
      var v := Version(id, 1, content, None);
      objects := objects[o := objects[o].(versions := [v])];
      if refused == Some(2) {
        objects := savepoint;
        return Err(Rejected);
      }
      objects := objects[o := objects[o].(current := Some(id))];
      assert Linear(objects[o]);
      r := Ok(v);
    }

    method FetchObjectVersion(o: Id, id: Id) returns (version: Version)
      requires o in objects && Linear(objects[o]) && objects[o].current == Some(id)
      ensures version == objects[o].versions[|objects[o].versions| - 1]
    {
      var rows := objects[o].versions;
      var k := 0;
      while rows[k].id != id
        invariant k < |rows| && forall j :: 0 <= j < k ==> rows[j].id != id
        decreases |rows| - k
      {
        k := k + 1;
      }
      version := rows[k];
    }

    /** `COALESCE(MAX(version_number), 0) + 1` over the object's rows. */
    method NextVersionNumber(o: Id) returns (number: nat)
      requires o in objects && Linear(objects[o])
      ensures number == |objects[o].versions| + 1
    {
      var rows := objects[o].versions;
      var greatest := 0;
      for k := 0 to |rows|
        invariant greatest == k
      {
        assert Follows(rows, k);
        if rows[k].number > greatest {
          greatest := rows[k].number;
        }
      }
      number := greatest + 1;
    }

    method UpdateObjectVersion(request: Request, id: Id) returns (r: Result<Updated, Error>)
      requires Valid() && (request.target in objects ==> !HasId(objects[request.target].versions, id))
      modifies this`objects
      ensures Valid()
      ensures r == Err(ResourceNotFound) <==>
                !(request.workspace in activeWorkspaces && request.target in old(objects)
                  && old(objects)[request.target].workspace == request.workspace
                  && !old(objects)[request.target].archived)
      ensures r != Err(ResourceNotFound) ==>
                && (r == Err(ObjectHasNoCurrentVersion) <==> old(objects)[request.target].current.None?)
                && (r.Ok? <==> old(objects)[request.target].current == Some(request.expected))
      ensures r.Err? ==> objects == old(objects) && r.error != Rejected
      ensures r.Ok? ==>
                && request.target in objects && objects == old(objects)[request.target := objects[request.target]]
                && IsAccepted(old(objects)[request.target], request, id, objects[request.target], r.value)
      ensures r != Err(ResourceNotFound) ==>
                Outcome(old(objects)[request.target], request, id) == (objects[request.target], r)
    {
      var locked := LockActiveObject(request.workspace, request.target);
      if locked.None? {
        return Err(ResourceNotFound);
      }
      var a := objects[request.target];
      if locked.value.None? {
        return Err(ObjectHasNoCurrentVersion);
      }
      if request.expected != locked.value.value {
        return Err(ObjectVersionConflict);
      }
      var current := FetchObjectVersion(request.target, locked.value.value);
      var title := OrElse(request.title, current.content.title);
      var body := OrElse(request.body, current.content.body);
      var metadata := OrElse(request.metadata, current.content.metadata);
      OutcomeIsAccepted(a, request, id);
      if title == current.content.title && body == current.content.body && metadata == current.content.metadata {
        return Ok(Updated(current, current.content.title, false));
      }
      var number := NextVersionNumber(request.target);
      var v := Version(id, number, Content(title, body, metadata), Some(request.expected));
      AppendedIsLinear(a, v);
      objects := objects[request.target := a.(versions := a.versions + [v])];
      objects := objects[request.target := objects[request.target].(current := Some(v.id))];
      r := Ok(Updated(v, current.content.title, true));
    }
  }

  // ---------------------------------------------------------------- interleaved transactions

  type TxId = nat

  /**
   * `own` holds, for each object row a transaction has locked for update or created, the rows as
   * that transaction sees them; the locks are held until it ends.
   */
  datatype State = State(committed: map<Id, Aggregate>, own: map<TxId, map<Id, Aggregate>>)

  function WithOwn(s: State, t: TxId, o: Id, a: Aggregate): State
    requires t in s.own
  {
    var rows: map<Id, Aggregate> := s.own[t][o := a];
    s.(own := s.own[t := rows])
  }

  predicate IsLocked(s: State, o: Id) {
    exists t :: t in s.own && o in s.own[t]
  }

  ghost predicate Begin(s: State, s': State, t: TxId) {
    t !in s.own && s' == s.(own := s.own[t := map[]])
  }

  /** Waits for the row lock, then reads the committed row. */
  ghost predicate Lock(s: State, s': State, t: TxId, o: Id) {
    && t in s.own && o in s.committed && !IsLocked(s, o)
    && s' == WithOwn(s, t, o, s.committed[o])
  }

  ghost predicate Create(s: State, s': State, t: TxId, o: Id, a: Aggregate) {
    && t in s.own && o !in s.committed && !IsLocked(s, o)
    && (exists workspace, id, content :: a == Created(workspace, id, content))
    && s' == WithOwn(s, t, o, a)
  }

  ghost predicate UpdateOwn(s: State, s': State, t: TxId, request: Request, id: Id) {
    && t in s.own && request.target in s.own[t]
    && var a := s.own[t][request.target];
    && Linear(a) && !a.archived && !HasId(a.versions, id)
    && s' == WithOwn(s, t, request.target, Outcome(a, request, id).0)
  }

  /** Archives or unarchives a locked object. */
  ghost predicate ChangeStatus(s: State, s': State, t: TxId, o: Id) {
    && t in s.own && o in s.own[t]
    && var a := s.own[t][o];
    s' == WithOwn(s, t, o, a.(archived := !a.archived))
  }

  ghost predicate Commit(s: State, s': State, t: TxId) {
    t in s.own && s' == State(s.committed + s.own[t], s.own - {t})
  }

  ghost predicate Rollback(s: State, s': State, t: TxId) {
    t in s.own && s' == s.(own := s.own - {t})
  }

  ghost predicate Step(s: State, s': State, t: TxId) {
    || Begin(s, s', t)
    || (exists o :: Lock(s, s', t, o))
    || (exists o, a :: Create(s, s', t, o, a))
    || (exists request, id :: UpdateOwn(s, s', t, request, id))
    || (exists o :: ChangeStatus(s, s', t, o))
    || Commit(s, s', t)
    || Rollback(s, s', t)
  }

  ghost predicate Next(s: State, s': State) {
    exists t: TxId :: Step(s, s', t)
  }

  ghost predicate IsRun(run: seq<State>) {
    && run != [] && run[0] == State(map[], map[])
    && forall i :: 0 <= i < |run| - 1 ==> Next(run[i], run[i + 1])
  }

  /** A transaction's view extends the committed history, which its lock keeps still. */
  predicate Extends(s: State, o: Id, a: Aggregate) {
    Linear(a) && (o in s.committed ==> s.committed[o].versions <= a.versions)
  }

  ghost predicate Inv(s: State) {
    && (forall o :: o in s.committed ==> Linear(s.committed[o]))
    && (forall t, o :: t in s.own && o in s.own[t] ==> Extends(s, o, s.own[t][o]))
    && (forall t, u, o :: t in s.own && u in s.own && o in s.own[t] && o in s.own[u] ==> t == u)
  }

  /** The committed history of every object only grows. */
  predicate Grows(s: State, s': State) {
    forall o :: o in s.committed ==> o in s'.committed && s.committed[o].versions <= s'.committed[o].versions
  }

  lemma OwnRowChanges(s: State, s': State, t: TxId, o: Id, a: Aggregate)
    requires Inv(s) && t in s.own && s' == WithOwn(s, t, o, a)
    requires Extends(s, o, a)
    requires o in s.own[t] || !IsLocked(s, o)
    ensures Inv(s')
  {
    hide Linear;
    forall u, o' | u in s'.own && o' in s'.own[u] ensures Extends(s', o', s'.own[u][o']) {
      assert u == t && o' == o ==> Extends(s, o, a);
      assert !(u == t && o' == o) ==> Extends(s, o', s.own[u][o']);
    }
  }

  lemma CommitKeepsInv(s: State, s': State, t: TxId)
    requires Inv(s) && Commit(s, s', t)
    ensures Inv(s') && Grows(s, s')
  {
    hide Linear;
    forall o | o in s'.committed ensures Linear(s'.committed[o]) {
      assert o in s.own[t] ==> Extends(s, o, s.own[t][o]);
    }
    forall u, o | u in s'.own && o in s'.own[u] ensures Extends(s', o, s'.own[u][o]) {
      assert Extends(s, o, s.own[u][o]);
      assert o !in s.own[t];
    }
    forall o | o in s.committed ensures s.committed[o].versions <= s'.committed[o].versions {
      assert o in s.own[t] ==> Extends(s, o, s.own[t][o]);
    }
  }

  lemma StepKeepsInv(s: State, s': State, t: TxId)
    requires Inv(s) && Step(s, s', t)
    ensures Inv(s') && Grows(s, s')
  {
    hide Linear, IsLocked, Outcome, Extends, HasId;
    if Commit(s, s', t) {
      CommitKeepsInv(s, s', t);
    } else if o :| Lock(s, s', t, o) {
      CommittedExtends(s, o);
      OwnRowChanges(s, s', t, o, s.committed[o]);
    } else if o, a :| Create(s, s', t, o, a) {
      CreatedExtends(s, o, a);
      OwnRowChanges(s, s', t, o, a);
    } else if request, id :| UpdateOwn(s, s', t, request, id) {
      UpdatedExtends(s, t, request, id);
      OwnRowChanges(s, s', t, request.target, Outcome(s.own[t][request.target], request, id).0);
    } else if o :| ChangeStatus(s, s', t, o) {
      var a := s.own[t][o];
      StatusExtends(s, o, a);
      OwnRowChanges(s, s', t, o, a.(archived := !a.archived));
    } else {
      EndKeepsInv(s, s', t);
    }
  }

  lemma EndKeepsInv(s: State, s': State, t: TxId)
    requires Inv(s) && (Begin(s, s', t) || Rollback(s, s', t))
    ensures Inv(s')
  {
    hide Linear;
  }

  lemma CommittedExtends(s: State, o: Id)
    requires Inv(s) && o in s.committed
    ensures Extends(s, o, s.committed[o])
  {
  }

  lemma CreatedExtends(s: State, o: Id, a: Aggregate)
    requires o !in s.committed && exists workspace, id, content :: a == Created(workspace, id, content)
    ensures Extends(s, o, a)
  {
  }

  lemma UpdatedExtends(s: State, t: TxId, request: Request, id: Id)
    requires Inv(s) && t in s.own && request.target in s.own[t]
    requires Linear(s.own[t][request.target]) && !HasId(s.own[t][request.target].versions, id)
    ensures Extends(s, request.target, Outcome(s.own[t][request.target], request, id).0)
  {
    var a := s.own[t][request.target];
    assert Extends(s, request.target, a);
    hide Linear, Outcome;
    UpdateKeepsLinear(a, request, id);
  }

  lemma StatusExtends(s: State, o: Id, a: Aggregate)
    requires Extends(s, o, a)
    ensures Extends(s, o, a.(archived := !a.archived))
  {
  }

  lemma {:induction false} EveryRunIsLinear(run: seq<State>, i: nat)
    requires IsRun(run) && i < |run|
    ensures Inv(run[i])
    ensures i > 0 ==> Grows(run[i - 1], run[i])
  {
    if i > 0 {
      EveryRunIsLinear(run, i - 1);
      hide Step, Inv, Grows;
      assert Next(run[i - 1], run[i - 1 + 1]);
      var t :| Step(run[i - 1], run[i], t);
      StepKeepsInv(run[i - 1], run[i], t);
    }
  }

  /** Every committed object's history is linear, in every state of every run. */
  lemma CommittedHistoryIsLinear(run: seq<State>, i: nat, o: Id)
    requires IsRun(run) && i < |run| && o in run[i].committed
    ensures Linear(run[i].committed[o])
  {
    EveryRunIsLinear(run, i);
  }

  /** Committed versions are never renumbered, replaced or dropped. */
  lemma {:induction false} CommittedHistoryOnlyGrows(run: seq<State>, i: nat, j: nat, o: Id)
    requires IsRun(run) && i <= j < |run| && o in run[i].committed
    ensures o in run[j].committed && run[i].committed[o].versions <= run[j].committed[o].versions
    decreases j - i
  {
    hide IsRun, Inv;
    if i < j {
      CommittedHistoryOnlyGrows(run, i, j - 1, o);
      EveryRunIsLinear(run, j);
    }
  }
}
