/**
 * The object table's lifecycle transitions and the lock statements they issue.
 *
 * `requests` records every lock statement a transaction issues, in order, whether or not it finds
 * a row; `LockOrder` and `LockProtocol` reason about these sequences.
 */
module ObjectLifecycle {
  import opened Prelude
  import opened LockOrder

  datatype Status = Active | Archived(archivedBy: Id)

  datatype ObjectRow = ObjectRow(workspace: Id, status: Status, currentVersion: Option<Id>)

  datatype Error = ResourceNotFound

  lemma ReferenceRequests(workspace: Id, ids: seq<Id>)
    ensures var order, all := InIdOrder(ids), LockObjectsForReference(workspace, ids);
            && |all| == |order| + 1 && all[0] == Request(Workspace(workspace), Share)
            && forall k :: 0 <= k < |order| ==> all[k + 1] == Request(Object(order[k]), Share)
  {
    hide InIdOrder;
  }

  class ObjectTable {
    var objects: map<Id, ObjectRow>
    var activeWorkspaces: set<Id>
    var requests: seq<Request>

    predicate IsIn(workspace: Id, o: Id)
      reads this
    {
      o in objects && objects[o].workspace == workspace
    }

    predicate IsActive(workspace: Id, o: Id)
      reads this
    {
      IsIn(workspace, o) && objects[o].status.Active?
    }

    method LockActiveWorkspaceForChild(workspace: Id) returns (found: bool)
      modifies this`requests
      ensures requests == old(requests) + [Request(Workspace(workspace), Share)]
      ensures found <==> workspace in activeWorkspaces
    {
      requests := requests + [Request(Workspace(workspace), Share)];
      found := workspace in activeWorkspaces;
    }

    /** Stops at the first inactive object; until then the locks come in the global order. */
    method LockActiveObjectsForReference(workspace: Id, ids: seq<Id>) returns (ok: bool)
      modifies this`requests
      ensures ok <==> workspace in activeWorkspaces && forall o :: o in ids ==> IsActive(workspace, o)
      ensures old(requests) <= requests <= old(requests) + LockObjectsForReference(workspace, ids)
      ensures ok ==> requests == old(requests) + LockObjectsForReference(workspace, ids)
    {
      ghost var all := LockObjectsForReference(workspace, ids);
      ReferenceRequests(workspace, ids);
      hide LockObjectsForReference;
      var found := LockActiveWorkspaceForChild(workspace);
      if !found {
        return false;
      }
      var order := InIdOrder(ids);
      InIdOrderSpec(ids);
      hide InIdOrder;
      var i := 0;
      while i < |order|
        invariant 0 <= i <= |order|
        invariant requests == old(requests) + all[..i + 1]
        invariant forall k :: 0 <= k < i ==> IsActive(workspace, order[k])
      {
        requests := requests + [Request(Object(order[i]), Share)];
        assert all[..i + 2] == all[..i + 1] + [all[i + 1]];
        if !IsActive(workspace, order[i]) {
          assert order[i] in ids;
          return false;
        }
        i := i + 1;
      }
      ok := true;
    }

    /** The active object's current version, the row held for update. */
    method LockActiveObject(workspace: Id, o: Id) returns (locked: Option<Option<Id>>)
      modifies this`requests
      ensures requests == old(requests) + [Request(Workspace(workspace), Share)]
                          + (if workspace in activeWorkspaces then [Request(Object(o), Update)] else [])
      ensures locked == if workspace in activeWorkspaces && IsActive(workspace, o)
                        then Some(objects[o].currentVersion) else None
    {
      var found := LockActiveWorkspaceForChild(workspace);
      if !found {
        return None;
      }
      requests := requests + [Request(Object(o), Update)];
      locked := if IsActive(workspace, o) then Some(objects[o].currentVersion) else None;
    }

    method LockArchivedObject(workspace: Id, o: Id) returns (found: bool)
      modifies this`requests
      ensures requests == old(requests) + [Request(Workspace(workspace), Share)]
                          + (if workspace in activeWorkspaces then [Request(Object(o), Update)] else [])
      ensures found <==> workspace in activeWorkspaces && IsIn(workspace, o) && objects[o].status.Archived?
    {
      found := LockActiveWorkspaceForChild(workspace);
      if !found {
        return false;
      }
      requests := requests + [Request(Object(o), Update)];
      found := IsIn(workspace, o) && objects[o].status.Archived?;
    }

    /** Archives an active object of an active workspace; otherwise nothing changes. */
    method ArchiveObject(workspace: Id, o: Id, archivedBy: Id) returns (r: Result<(), Error>)
      modifies this`requests, this`objects
      ensures old(requests) <= requests
      ensures requests <= old(requests) + [Request(Workspace(workspace), Share), Request(Object(o), Update)]
      ensures r.Ok? <==> workspace in activeWorkspaces && old(IsActive(workspace, o))
      ensures r.Ok? ==> requests == old(requests) + [Request(Workspace(workspace), Share), Request(Object(o), Update)]
      ensures r.Ok? ==> objects == old(objects)[o := old(objects)[o].(status := Archived(archivedBy))]
      ensures r.Err? ==> objects == old(objects)
    {
      var locked := LockActiveObject(workspace, o);
      if locked.None? {
        return Err(ResourceNotFound);
      }
      objects := objects[o := objects[o].(status := Archived(archivedBy))];
      r := Ok(());
    }

    /** Unarchives an archived object of an active workspace; otherwise nothing changes. */
    method UnarchiveObject(workspace: Id, o: Id) returns (r: Result<(), Error>)
      modifies this`requests, this`objects
      ensures old(requests) <= requests
      ensures requests <= old(requests) + [Request(Workspace(workspace), Share), Request(Object(o), Update)]
      ensures r.Ok? <==> workspace in activeWorkspaces && old(IsIn(workspace, o)) && old(objects)[o].status.Archived?
      ensures r.Ok? ==> requests == old(requests) + [Request(Workspace(workspace), Share), Request(Object(o), Update)]
      ensures r.Ok? ==> objects == old(objects)[o := old(objects)[o].(status := Active)]
      ensures r.Err? ==> objects == old(objects)
    {
      var found := LockArchivedObject(workspace, o);
      if !found {
        return Err(ResourceNotFound);
      }
      objects := objects[o := objects[o].(status := Active)];
      r := Ok(());
    }
  }

  /** A transaction that stops early has still requested its locks in order. */
  lemma StoppedEarlyIsOrdered(t: Transition, p: seq<Request>)
    requires p <= Requests(t)
    ensures Ordered(p)
  {
    TransitionsOrdered(t);
    hide Requests, Covered, Above;
    forall j | 0 <= j < |p| ensures Covered(p[..j], p[j]) || Above(p[..j], p[j].resource) {
      assert p[..j] == Requests(t)[..j];
    }
  }
}
