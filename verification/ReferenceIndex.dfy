/** What reference maintenance does to the tables, statement by statement, as functions. */
module ReferenceIndex {
  import opened Prelude
  import opened Text
  import opened ReferenceParser
  import opened Store

  datatype Db = Db(activeWorkspaces: set<WorkspaceId>, objects: Objects, versions: Versions, references: References)

  function ResolveIn(db: Db, workspace: WorkspaceId, title: string): Resolution {
    Resolve(db.objects, db.versions, workspace, title)
  }

  /** Titles trimmed, without blanks and repeats; a set stands for the ordered tree set. */
  function NormalizedTitles(titles: seq<string>): set<string> {
    set t | t in titles && Trim(t) != "" :: Trim(t)
  }

  function WikilinkTitles(references: seq<ParsedReference>): set<string> {
    set x | x in references && x.kind == Wikilink :: x.rawTarget
  }

  // ---------------------------------------------------------------- rows

  /** The row belongs to its source's current version. */
  predicate IsCurrent(objects: Objects, r: Reference) {
    && r.source in objects
    && objects[r.source].workspace == r.workspace
    && objects[r.source].current == Some(r.version)
  }

  /** A live wikilink row of a current version. */
  predicate IsLiveWikilink(objects: Objects, r: Reference) {
    r.parsed.kind == Wikilink && r.status != StatusStale && IsCurrent(objects, r)
  }

  function WithResolution(r: Reference, resolution: Resolution): Reference {
    r.(target := resolution.Target(), status := resolution.Status())
  }

  /** A stable object-ID link names an object of the same workspace, in any lifecycle state. */
  function ResolveObjectLink(objects: Objects, workspace: WorkspaceId, parsed: ParsedReference): Option<ObjectId> {
    if parsed.targetWorkspace.Some? && parsed.targetWorkspace.value != workspace then None
    else match parsed.targetObject
      case None => None
      case Some(target) =>
        if target in objects && objects[target].workspace == workspace then Some(target) else None
  }

  /** The row inserted for one parsed reference. */
  function NewRow(db: Db, workspace: WorkspaceId, source: ObjectId, version: VersionId,
                  parsed: ParsedReference): Reference {
    match parsed.kind
    case Wikilink =>
      var resolution := ResolveIn(db, workspace, parsed.rawTarget);
      Reference(workspace, source, version, parsed, resolution.Target(), resolution.Status())
    case KivalObjectLink =>
      var target := ResolveObjectLink(db.objects, workspace, parsed);
      Reference(workspace, source, version, parsed, target, if target.Some? then StatusResolved else StatusUnresolved)
  }

  // ---------------------------------------------------------------- statements

  predicate IsOlderRow(r: Reference, workspace: WorkspaceId, source: ObjectId, version: VersionId) {
    r.workspace == workspace && r.source == source && r.version != version && r.status != StatusStale
  }

  /** Marks the live rows of a source's other versions stale; targets are kept. */
  function MarkStale(references: References, workspace: WorkspaceId, source: ObjectId, version: VersionId): References {
    map k | k in references ::
      if IsOlderRow(references[k], workspace, source, version)
      then references[k].(status := StatusStale)
      else references[k]
  }

  predicate IsOwnRow(r: Reference, workspace: WorkspaceId, source: ObjectId, version: VersionId) {
    r.workspace == workspace && r.source == source && r.version == version
  }

  function DeleteOwn(references: References, workspace: WorkspaceId, source: ObjectId, version: VersionId): References {
    map k | k in references && !IsOwnRow(references[k], workspace, source, version) :: references[k]
  }

  /** The rows inserted for the first `n` parsed references. */
  ghost function Outgoing(db: Db, workspace: WorkspaceId, source: ObjectId, version: VersionId,
                          parsed: seq<ParsedReference>, n: nat): References
    requires n <= |parsed|
  {
    map i: nat | i < n :: (version, i) := NewRow(db, workspace, source, version, parsed[i])
  }

  /** Rebuilds a source's outgoing rows: older versions go stale, the given version is re-inserted. */
  ghost function Recompute(db: Db, workspace: WorkspaceId, source: ObjectId, version: VersionId,
                           parsed: seq<ParsedReference>): References {
    DeleteOwn(MarkStale(db.references, workspace, source, version), workspace, source, version)
    + Outgoing(db, workspace, source, version, parsed, |parsed|)
  }

  /** One key of a recomputation. */
  lemma RecomputeKey(db: Db, workspace: WorkspaceId, source: ObjectId, version: VersionId,
                     parsed: seq<ParsedReference>, k: RowKey)
    ensures var rows := Recompute(db, workspace, source, version, parsed);
            var isNew := k.0 == version && k.1 < |parsed|;
            var isKept := k in db.references && !IsOwnRow(db.references[k], workspace, source, version);
            && (k in rows <==> isNew || isKept)
            && (isNew ==> rows[k] == NewRow(db, workspace, source, version, parsed[k.1]))
            && (isKept && !isNew ==> rows[k] == MarkStale(db.references, workspace, source, version)[k])
  {
    hide NewRow;
    assert k == (k.0, k.1);
  }

  /** Live wikilinks of current versions whose target is among `titles` take its resolution. */
  function Reresolve(db: Db, workspace: WorkspaceId, titles: set<string>): References {
    map k | k in db.references :: ReresolveRow(db, workspace, titles, db.references[k])
  }

  function ReresolveRow(db: Db, workspace: WorkspaceId, titles: set<string>, r: Reference): Reference {
    if r.workspace == workspace && r.parsed.rawTarget in titles && IsLiveWikilink(db.objects, r)
    then WithResolution(r, ResolveIn(db, workspace, r.parsed.rawTarget))
    else r
  }

  // ---------------------------------------------------------------- counts

  function ChangedKeys(before: References, after: References): set<RowKey> {
    set k | k in before && k in after && before[k] != after[k]
  }

  function ChangedTo(before: References, after: References, status: Status): set<RowKey> {
    set k | k in ChangedKeys(before, after) && after[k].status == status
  }

  /** Positions whose inserted row gets this status. */
  ghost function InsertedWith(db: Db, workspace: WorkspaceId, parsed: seq<ParsedReference>, status: Status): set<nat> {
    set i: nat | i < |parsed| && NewStatus(db, workspace, parsed[i]) == status
  }

  ghost function NewStatus(db: Db, workspace: WorkspaceId, parsed: ParsedReference): Status {
    NewRow(db, workspace, 0, 0, parsed).status
  }

  lemma NewRowStatus(db: Db, view: References, workspace: WorkspaceId, source: ObjectId, version: VersionId,
                     parsed: ParsedReference)
    ensures NewRow(db.(references := view), workspace, source, version, parsed)
         == NewRow(db, workspace, source, version, parsed)
    ensures NewRow(db, workspace, source, version, parsed).status == NewStatus(db, workspace, parsed) != StatusStale
  {
    hide Resolve;
  }

  lemma OutgoingNext(db: Db, workspace: WorkspaceId, source: ObjectId, version: VersionId,
                     parsed: seq<ParsedReference>, i: nat, kept: References)
    requires i < |parsed|
    ensures var row := NewRow(db, workspace, source, version, parsed[i]);
            kept + Outgoing(db, workspace, source, version, parsed, i + 1)
            == (kept + Outgoing(db, workspace, source, version, parsed, i))[(version, i) := row]
  {
    hide NewRow, ResolveIn;
    var row := NewRow(db, workspace, source, version, parsed[i]);
    var next := Outgoing(db, workspace, source, version, parsed, i + 1);
    assert next == Outgoing(db, workspace, source, version, parsed, i)[(version, i) := row];
  }

  lemma InsertedWithNext(db: Db, workspace: WorkspaceId, parsed: seq<ParsedReference>, i: nat, status: Status)
    requires i < |parsed|
    ensures |InsertedWith(db, workspace, parsed[..i + 1], status)|
         == |InsertedWith(db, workspace, parsed[..i], status)|
            + if NewStatus(db, workspace, parsed[i]) == status then 1 else 0
  {
    hide NewStatus;
    var before := InsertedWith(db, workspace, parsed[..i], status);
    var after := InsertedWith(db, workspace, parsed[..i + 1], status);
    if NewStatus(db, workspace, parsed[i]) == status {
      assert after == before + {i};
    } else {
      assert after == before;
    }
  }

  /** Re-resolving one more title is one more pass over the rows. */
  lemma ReresolveOneMore(db: Db, workspace: WorkspaceId, done: set<string>, title: string)
    requires title !in done
    ensures Reresolve(db, workspace, done + {title})
         == Reresolve(db.(references := Reresolve(db, workspace, done)), workspace, {title})
  {
    hide Resolve;
    var before := Reresolve(db, workspace, done);
    var after := Reresolve(db, workspace, done + {title});
    var step := Reresolve(db.(references := before), workspace, {title});
    forall k | k in db.references ensures after[k] == step[k] {
      assert before[k].parsed == db.references[k].parsed;
    }
    assert after.Keys == step.Keys;
  }

  /** Each pass changes rows no earlier pass changed, so counts add up. */
  lemma ReresolveCounts(db: Db, workspace: WorkspaceId, done: set<string>, title: string, status: Status)
    requires title !in done
    ensures var before := Reresolve(db, workspace, done);
            var after := Reresolve(db, workspace, done + {title});
            && |ChangedKeys(db.references, after)|
               == |ChangedKeys(db.references, before)| + |ChangedKeys(before, after)|
            && |ChangedTo(db.references, after, status)|
               == |ChangedTo(db.references, before, status)| + |ChangedTo(before, after, status)|
  {
    SplitChanges(db, workspace, done, title);
    hide Reresolve;
    ChangesAdd(db.references, Reresolve(db, workspace, done), Reresolve(db, workspace, done + {title}), status);
  }

  lemma ChangesAdd(first: References, second: References, third: References, status: Status)
    requires first.Keys == second.Keys == third.Keys
    requires forall k :: k in first ==> second[k] == first[k] || third[k] == second[k]
    ensures |ChangedKeys(first, third)| == |ChangedKeys(first, second)| + |ChangedKeys(second, third)|
    ensures |ChangedTo(first, third, status)| == |ChangedTo(first, second, status)| + |ChangedTo(second, third, status)|
  {
    var a, b := ChangedKeys(first, second), ChangedKeys(second, third);
    assert a !! b && ChangedKeys(first, third) == a + b;
    var c, d := ChangedTo(first, second, status), ChangedTo(second, third, status);
    assert c !! d && ChangedTo(first, third, status) == c + d;
  }

  lemma SplitChanges(db: Db, workspace: WorkspaceId, done: set<string>, title: string)
    requires title !in done
    ensures var before := Reresolve(db, workspace, done);
            var after := Reresolve(db, workspace, done + {title});
            && before.Keys == after.Keys == db.references.Keys
            && (forall k :: k in db.references ==> before[k] == db.references[k] || after[k] == before[k])
  {
    hide ResolveIn;
  }

  /** A pass for one title gives every row it changes that title's status. */
  lemma OneTitleOneStatus(db: Db, workspace: WorkspaceId, title: string, status: Status)
    ensures var after := Reresolve(db, workspace, {title});
            ChangedTo(db.references, after, status)
            == if ResolveIn(db, workspace, title).Status() == status then ChangedKeys(db.references, after) else {}
  {
    hide ResolveIn;
  }
}
