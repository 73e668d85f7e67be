/**
 * Reference maintenance as the kernel runs it: statements over a transaction's view of the tables.
 */
module ReferenceMaintenance {
  import opened Prelude
  import opened ReferenceParser
  import opened Store
  import opened ReferenceIndex
  import opened ReferenceMeaning
  import Parsing = ReferenceParserProofs

  datatype KernelError = ResourceNotFound

  datatype ObjectReferenceUpdate = ObjectReferenceUpdate(resolved: nat, unresolved: nat, ambiguous: nat, stale: nat)

  datatype ReresolutionSummary = ReresolutionSummary(updated: nat, resolved: nat, unresolved: nat, ambiguous: nat)

  /** The exact counts a re-resolution reports: rows changed, by the status they now have. */
  function SummaryOf(before: References, after: References): ReresolutionSummary {
    ReresolutionSummary(
      |ChangedKeys(before, after)|,
      |ChangedTo(before, after, StatusResolved)|,
      |ChangedTo(before, after, StatusUnresolved)|,
      |ChangedTo(before, after, StatusAmbiguous)|)
  }

  /** One transaction's view of the tables. Only reference rows are written here. */
  class Tables {
    var activeWorkspaces: set<WorkspaceId>
    var objects: Objects
    var versions: Versions
    var references: References

    ghost function Snapshot(): Db
      reads this
    {
      Db(activeWorkspaces, objects, versions, references)
    }

    /** Parses the stored body of the active object's current version. */
    method CurrentObjectReferences(workspace: WorkspaceId, source: ObjectId, version: VersionId)
      returns (result: Result<seq<ParsedReference>, KernelError>)
      ensures result.Ok? <==> IsMaintainable(Snapshot(), workspace, source, version)
      ensures result.Ok? ==> result.value == Parsing.References(versions[version].body)
    {
      var locked := LockActiveObject(workspace, source);
      if locked.None? || locked.value != Some(version) {
        return Err(ResourceNotFound);
      }
      if version !in versions || versions[version].owner != source {
        return Err(ResourceNotFound);
      }
      var parsed := Parsing.ParseObjectReferences(versions[version].body);
      return Ok(parsed);
    }

    /** The locked row's current version, when workspace and object are active. */
    method LockActiveObject(workspace: WorkspaceId, o: ObjectId) returns (locked: Option<Option<VersionId>>)
      ensures locked.Some? <==> workspace in activeWorkspaces && o in objects
                                && objects[o].workspace == workspace && !objects[o].archived
      ensures locked.Some? ==> locked.value == objects[o].current
    {
      if workspace in activeWorkspaces && o in objects && objects[o].workspace == workspace && !objects[o].archived {
        return Some(objects[o].current);
      }
      return None;
    }

    /** Rebuilds outgoing references: mark stale, delete, then resolve and insert one by one. */
    method RecomputeFromParsed(workspace: WorkspaceId, source: ObjectId, version: VersionId,
                               parsed: seq<ParsedReference>)
      returns (update: ObjectReferenceUpdate)
      modifies this`references
      ensures references == Recompute(old(Snapshot()), workspace, source, version, parsed)
      ensures IsRecomputed(old(Snapshot()), workspace, source, version, parsed, references)
      ensures CountsRows(update, old(references), workspace, source, version, |parsed|, references)
      ensures update.stale == |ChangedKeys(old(references), MarkStale(old(references), workspace, source, version))|
      ensures update.resolved + update.unresolved + update.ambiguous == |parsed|
      ensures update.resolved == |InsertedWith(old(Snapshot()), workspace, parsed, StatusResolved)|
      ensures update.unresolved == |InsertedWith(old(Snapshot()), workspace, parsed, StatusUnresolved)|
    {
      hide NewRow, NewStatus, MarkStale, DeleteOwn, InsertedWith, Outgoing, ChangedKeys;
      ghost var db := Snapshot();
      RecomputeStart(db, workspace, source, version, parsed);
      var marked := MarkStale(references, workspace, source, version);
      update := ObjectReferenceUpdate(0, 0, 0, |ChangedKeys(references, marked)|);
      references := marked;
      references := DeleteOwn(references, workspace, source, version);
      ghost var kept := references;
      for i := 0 to |parsed|
        invariant Snapshot() == db.(references := references)
        invariant references == kept + Outgoing(db, workspace, source, version, parsed, i)
        invariant update.stale == |ChangedKeys(db.references, marked)|
        invariant update.resolved + update.unresolved + update.ambiguous == i
        invariant update.resolved == |InsertedWith(db, workspace, parsed[..i], StatusResolved)|
        invariant update.unresolved == |InsertedWith(db, workspace, parsed[..i], StatusUnresolved)|
      {
        var row := NewRow(Db(activeWorkspaces, objects, versions, references), workspace, source, version, parsed[i]);
        NewRowStatus(db, references, workspace, source, version, parsed[i]);
        OutgoingNext(db, workspace, source, version, parsed, i, kept);
        InsertedWithNext(db, workspace, parsed, i, StatusResolved);
        InsertedWithNext(db, workspace, parsed, i, StatusUnresolved);
        if row.status == StatusResolved {
          update := update.(resolved := update.resolved + 1);
        } else if row.status == StatusUnresolved {
          update := update.(unresolved := update.unresolved + 1);
        } else {
          update := update.(ambiguous := update.ambiguous + 1);
        }
        references := references[(version, i) := row];
      }
      assert parsed[..|parsed|] == parsed;
      RecomputeIsExact(db, workspace, source, version, parsed);
      StaleCount(db.references, workspace, source, version);
      InsertedCount(db, workspace, source, version, parsed, StatusResolved);
      InsertedCount(db, workspace, source, version, parsed, StatusUnresolved);
    }

    /** One `UPDATE`: every live wikilink of one title takes the title's current resolution. */
    method UpdateTitle(workspace: WorkspaceId, title: string) returns (summary: ReresolutionSummary)
      modifies this`references
      ensures references == Reresolve(old(Snapshot()), workspace, {title})
      ensures summary == SummaryOf(old(references), references)
    {
      var view := Db(activeWorkspaces, objects, versions, references);
      var resolution := ResolveIn(view, workspace, title);
      references := Reresolve(view, workspace, {title});
      var n := |ChangedKeys(view.references, references)|;
      OneTitleOneStatus(view, workspace, title, StatusResolved);
      OneTitleOneStatus(view, workspace, title, StatusUnresolved);
      OneTitleOneStatus(view, workspace, title, StatusAmbiguous);
      match resolution {
        case Resolved(_) => summary := ReresolutionSummary(n, n, 0, 0);
        case Unresolved => summary := ReresolutionSummary(n, 0, n, 0);
        case Ambiguous => summary := ReresolutionSummary(n, 0, 0, n);
      }
    }

    /** Re-resolves every live wikilink of the given titles, one title after the other. */
    method ReResolveLocked(workspace: WorkspaceId, titles: set<string>) returns (summary: ReresolutionSummary)
      modifies this`references
      ensures references == Reresolve(old(Snapshot()), workspace, titles)
      ensures summary == SummaryOf(old(references), references)
      ensures IsReresolved(old(Snapshot()), workspace, titles, references)
      ensures CountsChanges(summary, old(references), references)
    {
      hide Reresolve, SummaryOf, ResolveIn;
      ghost var db := Snapshot();
      summary := ReresolutionSummary(0, 0, 0, 0);
      var remaining := titles;
      ReresolveNothing(db, workspace);
      assert titles - remaining == {};
      while remaining != {}
        invariant remaining <= titles
        invariant Snapshot() == db.(references := references)
        invariant references == Reresolve(db, workspace, titles - remaining)
        invariant summary == SummaryOf(db.references, references)
        decreases remaining
      {
        var title :| title in remaining;
        ghost var done := titles - remaining;
        var updated := UpdateTitle(workspace, title);
        SummaryAdds(db, workspace, done, title);
        remaining := remaining - {title};
        assert titles - remaining == done + {title};
        summary := ReresolutionSummary(
          summary.updated + updated.updated, summary.resolved + updated.resolved,
          summary.unresolved + updated.unresolved, summary.ambiguous + updated.ambiguous);
      }
      assert titles - remaining == titles;
      ReresolveIsExact(db, workspace, titles);
      SummaryCounts(db.references, references);
    }

    /** Maintains one source version and the affected titles; an error leaves every row as it was. */
    method MaintainObjectReferences(workspace: WorkspaceId, source: ObjectId, version: VersionId,
                                    affectedTitles: seq<string>)
      returns (result: Result<(ObjectReferenceUpdate, ReresolutionSummary), KernelError>)
      modifies this`references
      ensures result.Ok? <==> IsMaintainable(old(Snapshot()), workspace, source, version)
      ensures result.Err? ==> references == old(references)
      ensures result.Ok? ==>
                references == MaintainVersion(
                  old(Snapshot()), workspace, source, version, NormalizedTitles(affectedTitles))
      ensures result.Ok? ==>
                var mid := RecomputeVersion(old(Snapshot()), workspace, source, version);
                var titles := NormalizedTitles(affectedTitles);
                && IsRecomputed(old(Snapshot()), workspace, source, version,
                                Parsing.References(versions[version].body), mid)
                && CountsRows(result.value.0, old(references), workspace, source, version,
                              |Parsing.References(versions[version].body)|, mid)
                && AreNormalized(titles, affectedTitles)
                && IsReresolved(old(Snapshot()).(references := mid), workspace, titles, references)
                && CountsChanges(result.value.1, mid, references)
    {
      var parsed := CurrentObjectReferences(workspace, source, version);
      if parsed.Err? {
        return Err(parsed.error);
      }
      hide IsRecomputed, CountsRows, IsReresolved, CountsChanges, AreNormalized, NormalizedTitles;
      NormalizedTitlesAreNormalized(affectedTitles);
      var update := RecomputeFromParsed(workspace, source, version, parsed.value);
      var summary := ReResolveLocked(workspace, NormalizedTitles(affectedTitles));
      return Ok((update, summary));
    }

    /** Re-resolves the current wikilinks of the affected titles only. */
    method ReResolveCurrentWikilinksForTitles(workspace: WorkspaceId, affectedTitles: seq<string>)
      returns (summary: ReresolutionSummary)
      modifies this`references
      ensures references == Reresolve(old(Snapshot()), workspace, NormalizedTitles(affectedTitles))
      ensures summary == SummaryOf(old(references), references)
      ensures forall titles :: AreNormalized(titles, affectedTitles) ==>
                IsReresolved(old(Snapshot()), workspace, titles, references)
      ensures CountsChanges(summary, old(references), references)
    {
      hide NormalizedTitles, IsReresolved, CountsChanges, AreNormalized;
      summary := ReResolveLocked(workspace, NormalizedTitles(affectedTitles));
      forall titles | AreNormalized(titles, affectedTitles) ensures titles == NormalizedTitles(affectedTitles) {
        NormalizedUnique(titles, affectedTitles);
      }
    }
  }

  /** The summary counts exactly the rows that differ, by the status they have now. */
  ghost predicate CountsChanges(summary: ReresolutionSummary, before: References, after: References) {
    && summary.updated == |set k | k in before && k in after && before[k] != after[k]|
    && summary.resolved
       == |set k | k in before && k in after && before[k] != after[k] && after[k].status == StatusResolved|
    && summary.unresolved
       == |set k | k in before && k in after && before[k] != after[k] && after[k].status == StatusUnresolved|
    && summary.ambiguous
       == |set k | k in before && k in after && before[k] != after[k] && after[k].status == StatusAmbiguous|
  }

  /** The update counts the rows made stale and the `n` inserted rows by their status. */
  ghost predicate CountsRows(update: ObjectReferenceUpdate, before: References, workspace: WorkspaceId,
                             source: ObjectId, version: VersionId, n: nat, after: References) {
    && update.stale == |set k | k in before && IsLiveElsewhere(before[k], workspace, source, version)|
    && update.resolved == InsertedAs(after, version, n, StatusResolved)
    && update.unresolved == InsertedAs(after, version, n, StatusUnresolved)
    && update.resolved + update.unresolved + update.ambiguous == n
  }

  ghost function InsertedAs(rows: References, version: VersionId, n: nat, status: Status): nat {
    |set i: nat | i < n && (version, i) in rows && rows[(version, i)].status == status|
  }

  lemma ChangedToIs(before: References, after: References, status: Status)
    ensures ChangedTo(before, after, status)
         == set k | k in before && k in after && before[k] != after[k] && after[k].status == status
  {
  }

  lemma SummaryCounts(before: References, after: References)
    ensures CountsChanges(SummaryOf(before, after), before, after)
  {
    ChangedToIs(before, after, StatusResolved);
    ChangedToIs(before, after, StatusUnresolved);
    ChangedToIs(before, after, StatusAmbiguous);
    hide ChangedTo;
  }

  lemma StaleCount(references: References, workspace: WorkspaceId, source: ObjectId, version: VersionId)
    ensures ChangedKeys(references, MarkStale(references, workspace, source, version))
         == set k | k in references && IsLiveElsewhere(references[k], workspace, source, version)
  {
  }

  lemma InsertedCount(db: Db, workspace: WorkspaceId, source: ObjectId, version: VersionId,
                      parsed: seq<ParsedReference>, status: Status)
    ensures |InsertedWith(db, workspace, parsed, status)|
         == InsertedAs(Recompute(db, workspace, source, version, parsed), version, |parsed|, status)
  {
    hide NewRow, NewStatus, Recompute;
    var rows := Recompute(db, workspace, source, version, parsed);
    forall i: nat | i < |parsed|
      ensures (version, i) in rows && rows[(version, i)].status == NewStatus(db, workspace, parsed[i])
    {
      RecomputeKey(db, workspace, source, version, parsed, (version, i));
      NewRowStatus(db, db.references, workspace, source, version, parsed[i]);
    }
    assert InsertedWith(db, workspace, parsed, status)
        == set i: nat | i < |parsed| && (version, i) in rows && rows[(version, i)].status == status;
  }

  lemma NormalizedUnique(titles: set<string>, given: seq<string>)
    requires AreNormalized(titles, given)
    ensures titles == NormalizedTitles(given)
  {
    NormalizedTitlesAreNormalized(given);
    hide NormalizedTitles;
    forall t ensures t in titles <==> t in NormalizedTitles(given) {
    }
  }

  /** The source is active, in an active workspace, and the version is its current one. */
  ghost predicate IsMaintainable(db: Db, workspace: WorkspaceId, source: ObjectId, version: VersionId) {
    && workspace in db.activeWorkspaces
    && source in db.objects
    && db.objects[source] == ObjectRow(workspace, Some(version), false)
    && version in db.versions
    && db.versions[version].owner == source
  }

  ghost function RecomputeVersion(db: Db, workspace: WorkspaceId, source: ObjectId, version: VersionId): References
    requires version in db.versions
  {
    Recompute(db, workspace, source, version, Parsing.References(db.versions[version].body))
  }

  ghost function MaintainVersion(db: Db, workspace: WorkspaceId, source: ObjectId, version: VersionId,
                                 titles: set<string>): References
    requires version in db.versions
  {
    Reresolve(db.(references := RecomputeVersion(db, workspace, source, version)), workspace, titles)
  }

  lemma RecomputeStart(db: Db, workspace: WorkspaceId, source: ObjectId, version: VersionId,
                       parsed: seq<ParsedReference>)
    ensures forall kept: References :: kept + Outgoing(db, workspace, source, version, parsed, 0) == kept
    ensures forall status :: InsertedWith(db, workspace, parsed[..0], status) == {}
  {
    hide NewRow;
  }

  lemma ReresolveNothing(db: Db, workspace: WorkspaceId)
    ensures Reresolve(db, workspace, {}) == db.references
    ensures SummaryOf(db.references, db.references) == ReresolutionSummary(0, 0, 0, 0)
  {
    hide ResolveIn;
    assert ChangedKeys(db.references, db.references) == {};
    forall status ensures ChangedTo(db.references, db.references, status) == {} {}
  }

  lemma SummaryAdds(db: Db, workspace: WorkspaceId, done: set<string>, title: string)
    requires title !in done
    ensures var before := Reresolve(db, workspace, done);
            var after := Reresolve(db, workspace, done + {title});
            var total, first := SummaryOf(db.references, after), SummaryOf(db.references, before);
            var second := SummaryOf(before, after);
            && after == Reresolve(db.(references := before), workspace, {title})
            && total == ReresolutionSummary(first.updated + second.updated, first.resolved + second.resolved,
                                            first.unresolved + second.unresolved, first.ambiguous + second.ambiguous)
  {
    ReresolveOneMore(db, workspace, done, title);
    hide Reresolve, ChangedKeys, ChangedTo;
    ReresolveCounts(db, workspace, done, title, StatusResolved);
    ReresolveCounts(db, workspace, done, title, StatusUnresolved);
    ReresolveCounts(db, workspace, done, title, StatusAmbiguous);
  }
}
