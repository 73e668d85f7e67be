/** The kernel's tables and the title-resolution query over them. */
module Store {
  import opened Prelude
  import opened ReferenceParser

  type WorkspaceId = nat
  type ObjectId = nat
  type VersionId = nat

  datatype ObjectRow = ObjectRow(workspace: WorkspaceId, current: Option<VersionId>, archived: bool)

  /** An immutable object version. */
  datatype Version = Version(owner: ObjectId, number: nat, title: string, body: string, metadata: string)

  datatype Status = StatusResolved | StatusUnresolved | StatusAmbiguous | StatusStale

  /** A derived reference row. */
  datatype Reference = Reference(
    workspace: WorkspaceId,
    source: ObjectId,
    version: VersionId,
    parsed: ParsedReference,
    target: Option<ObjectId>,
    status: Status)

  /** Rows are keyed by source version and position in that version's reference list. */
  type RowKey = (VersionId, nat)

  type Objects = map<ObjectId, ObjectRow>
  type Versions = map<VersionId, Version>
  type References = map<RowKey, Reference>

  /** Active objects of a workspace whose current version carries exactly this title. */
  function Holders(objects: Objects, versions: Versions, workspace: WorkspaceId, title: string): set<ObjectId> {
    set o | o in objects && Holds(objects[o], o, versions, workspace, title)
  }

  predicate Holds(row: ObjectRow, o: ObjectId, versions: Versions, workspace: WorkspaceId, title: string) {
    && row.workspace == workspace
    && !row.archived
    && row.current.Some?
    && row.current.value in versions
    && versions[row.current.value].owner == o
    && versions[row.current.value].title == title
  }

  predicate IsLeast(o: ObjectId, ids: set<ObjectId>) {
    o in ids && forall p :: p in ids ==> o <= p
  }

  lemma {:induction false} LeastExists(ids: set<ObjectId>)
    requires ids != {}
    ensures exists o :: IsLeast(o, ids)
  {
    var x :| x in ids;
    if ids == {x} {
      assert IsLeast(x, ids);
    } else {
      LeastExists(ids - {x});
      var y :| IsLeast(y, ids - {x});
      var least := if x <= y then x else y;
      forall p | p in ids ensures least <= p {
        assert p == x || p in ids - {x};
      }
      assert IsLeast(least, ids);
    }
  }

  /** `ORDER BY id` over a set of ids. */
  function InIdOrder(ids: set<ObjectId>): seq<ObjectId> {
    if ids == {} then []
    else
      LeastExists(ids);
      var o :| o in ids && IsLeast(o, ids);
      [o] + InIdOrder(ids - {o})
  }

  datatype Resolution = Resolved(target: ObjectId) | Unresolved | Ambiguous {

    function Target(): Option<ObjectId> {
      if Resolved? then Some(target) else None
    }

    function Status(): Status {
      match this
      case Resolved(_) => StatusResolved
      case Unresolved => StatusUnresolved
      case Ambiguous => StatusAmbiguous
    }
  }

  /** The verdict on the first two matches in id order. */
  function Judge(matches: seq<ObjectId>): Resolution {
    if matches == [] then Unresolved
    else if |matches| == 1 then Resolved(matches[0])
    else Ambiguous
  }

  /** Resolves a title against the active objects of one workspace, looking at two matches at most. */
  function Resolve(objects: Objects, versions: Versions, workspace: WorkspaceId, title: string): Resolution {
    Judge(Take(InIdOrder(Holders(objects, versions, workspace, title)), 2))
  }

  lemma {:induction false} InIdOrderSpec(ids: set<ObjectId>)
    ensures |InIdOrder(ids)| == |ids|
    ensures forall o :: o in InIdOrder(ids) <==> o in ids
    ensures forall i, j :: 0 <= i < j < |ids| ==> InIdOrder(ids)[i] < InIdOrder(ids)[j]
  {
    if ids != {} {
      var order := InIdOrder(ids);
      var rest := ids - {order[0]};
      assert order == [order[0]] + InIdOrder(rest);
      InIdOrderSpec(rest);
      forall j | 0 <= j < |rest| ensures order[0] < InIdOrder(rest)[j] {
        assert InIdOrder(rest)[j] in rest;
      }
    }
  }

  /** Two matches decide: exactly one holder resolves, none does not, and more are ambiguous. */
  lemma ResolveMeaning(objects: Objects, versions: Versions, workspace: WorkspaceId, title: string)
    ensures var holders := Holders(objects, versions, workspace, title);
            var r := Resolve(objects, versions, workspace, title);
            && (forall o: ObjectId :: r == Resolved(o) <==> holders == {o})
            && (r == Unresolved <==> holders == {})
            && (r == Ambiguous <==> exists o, p :: o in holders && p in holders && o != p)
  {
    hide Holds;
    var holders := Holders(objects, versions, workspace, title);
    var order := InIdOrder(holders);
    InIdOrderSpec(holders);
    if |holders| == 1 {
      assert order == [order[0]];
      assert forall o :: o in holders <==> o == order[0];
      assert holders == {order[0]};
    } else if |holders| >= 2 {
      assert order[0] in holders && order[1] in holders && order[0] != order[1];
    }
  }
}
