/** Incremental reference maintenance agrees with rebuilding the whole index from scratch. */
module ReferenceAgreement {
  import opened Prelude
  import opened Text
  import opened ReferenceParser
  import opened Store
  import opened ReferenceIndex
  import opened ReferenceMaintenance
  import opened ReferenceMeaning
  import Parsing = ReferenceParserProofs

  /** Keys and foreign keys of the tables. */
  ghost predicate WellFormed(db: Db) {
    && (forall o :: o in db.objects && db.objects[o].current.Some? ==>
          db.objects[o].current.value in db.versions && db.versions[db.objects[o].current.value].owner == o)
    && (forall k :: k in db.references ==> RowWellFormed(db, k, db.references[k]))
  }

  predicate RowWellFormed(db: Db, k: RowKey, r: Reference) {
    && r.version == k.0
    && r.version in db.versions && db.versions[r.version].owner == r.source
    && r.source in db.objects && db.objects[r.source].workspace == r.workspace
  }

  ghost function ParsedBody(db: Db, version: VersionId): seq<ParsedReference>
    requires version in db.versions
  {
    Parsing.References(db.versions[version].body)
  }

  /** The row is what a rebuild would store; object-ID links are resolved only once, when inserted. */
  predicate IsRebuilt(db: Db, o: ObjectId, version: VersionId, parsed: ParsedReference, r: Reference)
    requires o in db.objects
  {
    && r.workspace == db.objects[o].workspace && r.source == o && r.version == version && r.parsed == parsed
    && r.status != StatusStale
    && (parsed.kind == Wikilink ==> r == WithResolution(r, ResolveIn(db, r.workspace, parsed.rawTarget)))
  }

  /** The rows of one version are exactly those a rebuild would store. */
  ghost predicate VersionAgrees(db: Db, o: ObjectId, version: VersionId)
    requires o in db.objects && version in db.versions
  {
    forall i: nat ::
      && ((version, i) in db.references <==> i < |ParsedBody(db, version)|)
      && (i < |ParsedBody(db, version)| && (version, i) in db.references ==>
            IsRebuilt(db, o, version, ParsedBody(db, version)[i], db.references[(version, i)]))
  }

  /** Rows of versions that are not current are stale. */
  ghost predicate OlderRowsStale(db: Db) {
    forall k :: k in db.references && !IsCurrent(db.objects, db.references[k]) ==>
      db.references[k].status == StatusStale
  }

  /** Every current version's rows, archived sources included, are as rebuilt; all others are stale. */
  ghost predicate IndexAgrees(db: Db)
    requires WellFormed(db)
  {
    && OlderRowsStale(db)
    && (forall o :: o in db.objects && db.objects[o].current.Some? ==>
          VersionAgrees(db, o, db.objects[o].current.value))
  }

  /** Agreement, as the proofs carry it, says exactly that the index shows what the tables say. */
  lemma AgreementIsExact(db: Db)
    requires WellFormed(db)
    ensures IndexAgrees(db) <==> IndexIsExact(db)
  {
    hide VersionAgrees, VersionIsIndexed;
    forall o, v | o in db.objects && v in db.versions && db.objects[o].current == Some(v)
      ensures VersionAgrees(db, o, v) <==> VersionIsIndexed(db, o, v)
    {
      VersionAgreementIsExact(db, o, v);
    }
  }

  lemma VersionAgreementIsExact(db: Db, o: ObjectId, version: VersionId)
    requires o in db.objects && version in db.versions
    ensures VersionAgrees(db, o, version) <==> VersionIsIndexed(db, o, version)
  {
    hide VersionAgrees, VersionIsIndexed;
    if VersionAgrees(db, o, version) {
      AgreeingVersionIsIndexed(db, o, version);
    }
    if VersionIsIndexed(db, o, version) {
      IndexedVersionAgrees(db, o, version);
    }
  }

  lemma AgreeingVersionIsIndexed(db: Db, o: ObjectId, version: VersionId)
    requires o in db.objects && version in db.versions && VersionAgrees(db, o, version)
    ensures VersionIsIndexed(db, o, version)
  {
    hide IsRebuilt, RowIsIndexed;
    var parsed := Parsing.References(db.versions[version].body);
    forall i: nat | i < |parsed| && (version, i) in db.references
      ensures RowIsIndexed(db, o, version, parsed[i], db.references[(version, i)])
    {
      RebuiltRowIsExact(db, o, version, parsed[i], db.references[(version, i)]);
    }
  }

  lemma IndexedVersionAgrees(db: Db, o: ObjectId, version: VersionId)
    requires o in db.objects && version in db.versions && VersionIsIndexed(db, o, version)
    ensures VersionAgrees(db, o, version)
  {
    hide IsRebuilt, RowIsIndexed;
    var parsed := Parsing.References(db.versions[version].body);
    forall i: nat | i < |parsed| && (version, i) in db.references
      ensures IsRebuilt(db, o, version, parsed[i], db.references[(version, i)])
    {
      RebuiltRowIsExact(db, o, version, parsed[i], db.references[(version, i)]);
    }
  }

  lemma RebuiltRowIsExact(db: Db, o: ObjectId, version: VersionId, parsed: ParsedReference, r: Reference)
    requires o in db.objects
    ensures RowIsIndexed(db, o, version, parsed, r) <==> IsRebuilt(db, o, version, parsed, r)
  {
    hide Resolve, Titled, ShowsHolders;
    var holders := Titled(db.objects, db.versions, r.workspace, parsed.rawTarget);
    var resolution := ResolveIn(db, r.workspace, parsed.rawTarget);
    ResolutionShowsHolders(db.objects, db.versions, r.workspace, parsed.rawTarget);
    if ShowsHolders(holders, r.target, r.status) {
      HoldersDetermine(holders, r.target, r.status, resolution.Target(), resolution.Status());
    }
  }

  lemma HoldersDetermine(holders: set<ObjectId>, target: Option<ObjectId>, status: Status,
                         target': Option<ObjectId>, status': Status)
    requires ShowsHolders(holders, target, status) && ShowsHolders(holders, target', status')
    ensures target == target' && status == status'
  {
    assert target.Some? ==> target == Some(target.value);
    assert target'.Some? ==> target' == Some(target'.value);
  }

  /** Every title whose set of active holders differs lies in `workspace` and is listed. */
  ghost predicate Covers(before: Db, after: Db, workspace: WorkspaceId, affectedTitles: seq<string>) {
    forall w: WorkspaceId, t: string ::
      Holders(before.objects, before.versions, w, t) != Holders(after.objects, after.versions, w, t) ==>
        w == workspace && t in affectedTitles
  }

  /** Only `moved` objects got a new current version; versions and rows are kept. */
  ghost predicate OnlyMoved(before: Db, after: Db, moved: set<ObjectId>) {
    && after.references == before.references
    && before.objects.Keys <= after.objects.Keys
    && (forall o :: o in before.objects ==> after.objects[o].workspace == before.objects[o].workspace)
    && (forall o :: o in after.objects && o !in moved ==>
          o in before.objects && after.objects[o].current == before.objects[o].current)
    && (forall v :: v in before.versions ==> v in after.versions && after.versions[v] == before.versions[v])
  }

  /** Outside the affected titles a trimmed target resolves as before. */
  lemma UnaffectedTitle(before: Db, after: Db, workspace: WorkspaceId, affectedTitles: seq<string>, w: WorkspaceId,
                        t: string)
    requires Covers(before, after, workspace, affectedTitles)
    requires t != "" && Trim(t) == t
    requires !(w == workspace && t in NormalizedTitles(affectedTitles))
    ensures ResolveIn(after, w, t) == ResolveIn(before, w, t)
  {
    hide Trim, Holders, InIdOrder;
    if t in affectedTitles {
      assert Trim(t) in NormalizedTitles(affectedTitles);
    }
    assert Holders(before.objects, before.versions, w, t) == Holders(after.objects, after.versions, w, t);
  }

  /** A row that agreed before a title change agrees after its title was re-resolved or not affected. */
  lemma RowStaysRebuilt(before: Db, after: Db, workspace: WorkspaceId, affectedTitles: seq<string>,
                        o: ObjectId, version: VersionId, i: nat, r: Reference)
    requires Covers(before, after, workspace, affectedTitles)
    requires o in before.objects && o in after.objects && version in before.versions
    requires after.objects[o].workspace == before.objects[o].workspace
    requires after.objects[o].current == Some(version)
    requires i < |ParsedBody(before, version)|
    requires IsRebuilt(before, o, version, ParsedBody(before, version)[i], r)
    ensures IsRebuilt(after, o, version, ParsedBody(before, version)[i],
                      ReresolveRow(after, workspace, NormalizedTitles(affectedTitles), r))
  {
    var parsed := ParsedBody(before, version)[i];
    Parsing.ReferencesAre(before.versions[version].body, parsed);
    hide ParsedBody, Covers;
    ParsedRowStaysRebuilt(before, after, workspace, affectedTitles, o, version, parsed, r);
  }

  lemma ParsedRowStaysRebuilt(before: Db, after: Db, workspace: WorkspaceId, affectedTitles: seq<string>,
                              o: ObjectId, version: VersionId, parsed: ParsedReference, r: Reference)
    requires Covers(before, after, workspace, affectedTitles)
    requires o in before.objects && o in after.objects
    requires after.objects[o].workspace == before.objects[o].workspace
    requires after.objects[o].current == Some(version)
    requires parsed.kind == Wikilink ==> parsed.rawTarget != "" && Trim(parsed.rawTarget) == parsed.rawTarget
    requires IsRebuilt(before, o, version, parsed, r)
    ensures IsRebuilt(after, o, version, parsed, ReresolveRow(after, workspace, NormalizedTitles(affectedTitles), r))
  {
    hide Trim, NormalizedTitles, ResolveIn, Covers;
    if parsed.kind == Wikilink && !(r.workspace == workspace && parsed.rawTarget in NormalizedTitles(affectedTitles)) {
      UnaffectedTitle(before, after, workspace, affectedTitles, r.workspace, parsed.rawTarget);
    }
  }

  lemma ReresolveWellFormed(db: Db, workspace: WorkspaceId, titles: set<string>)
    requires WellFormed(db)
    ensures WellFormed(db.(references := Reresolve(db, workspace, titles)))
  {
    hide ResolveIn;
  }

  /**
   * Archiving and unarchiving: re-resolving the affected titles alone restores agreement, for
   * archived sources too.
   */
  lemma ReresolveRestoresAgreement(before: Db, after: Db, workspace: WorkspaceId, affectedTitles: seq<string>)
    requires WellFormed(before) && WellFormed(after) && IndexAgrees(before)
    requires OnlyMoved(before, after, {})
    requires Covers(before, after, workspace, affectedTitles)
    ensures var db := after.(references := Reresolve(after, workspace, NormalizedTitles(affectedTitles)));
            WellFormed(db) && IndexAgrees(db) && IndexIsExact(db)
  {
    var titles := NormalizedTitles(affectedTitles);
    var db := after.(references := Reresolve(after, workspace, titles));
    ReresolveWellFormed(after, workspace, titles);
    hide IndexIsExact, NormalizedTitles, Covers, ReresolveRow, ResolveIn;
    OlderRowsStayStale(before, after, workspace, titles);
    forall o | o in db.objects && db.objects[o].current.Some?
      ensures VersionAgrees(db, o, db.objects[o].current.value)
    {
      VersionStaysRebuilt(before, after, workspace, affectedTitles, o);
    }
    AgreementIsExact(db);
  }

  lemma OlderRowsStayStale(before: Db, after: Db, workspace: WorkspaceId, titles: set<string>)
    requires WellFormed(before) && OlderRowsStale(before)
    requires OnlyMoved(before, after, {})
    ensures OlderRowsStale(after.(references := Reresolve(after, workspace, titles)))
  {
    hide ResolveIn;
  }

  ghost predicate SameRows(before: References, after: References, version: VersionId) {
    forall i: nat ::
      && ((version, i) in before <==> (version, i) in after)
      && ((version, i) in before && (version, i) in after ==> before[(version, i)] == after[(version, i)])
  }

  lemma VersionStaysRebuilt(before: Db, after: Db, workspace: WorkspaceId, affectedTitles: seq<string>, o: ObjectId)
    requires WellFormed(before) && WellFormed(after)
    requires o in before.objects && o in after.objects && after.objects[o].current.Some?
    requires after.objects[o].current == before.objects[o].current
    requires after.objects[o].workspace == before.objects[o].workspace
    requires after.versions[after.objects[o].current.value] == before.versions[after.objects[o].current.value]
    requires VersionAgrees(before, o, after.objects[o].current.value)
    requires Covers(before, after, workspace, affectedTitles)
    requires SameRows(before.references, after.references, after.objects[o].current.value)
    ensures var db := after.(references := Reresolve(after, workspace, NormalizedTitles(affectedTitles)));
            VersionAgrees(db, o, db.objects[o].current.value)
  {
    var version := after.objects[o].current.value;
    var titles := NormalizedTitles(affectedTitles);
    var db := after.(references := Reresolve(after, workspace, titles));
    hide NormalizedTitles, Covers, ResolveIn, ReresolveRow;
    assert ParsedBody(db, version) == ParsedBody(before, version);
    forall i: nat | i < |ParsedBody(before, version)|
      ensures (version, i) in db.references
      ensures IsRebuilt(db, o, version, ParsedBody(before, version)[i], db.references[(version, i)])
    {
      assert (version, i) in before.references;
      RowStaysRebuilt(before, after, workspace, affectedTitles, o, version, i, before.references[(version, i)]);
      SameTablesSameRebuild(after, db, o, version, ParsedBody(before, version)[i], db.references[(version, i)]);
    }
    forall i: nat | (version, i) in db.references ensures i < |ParsedBody(before, version)| {
      assert (version, i) in before.references;
    }
  }

  lemma SameTablesSameRebuild(db: Db, other: Db, o: ObjectId, version: VersionId, parsed: ParsedReference, r: Reference)
    requires db.objects == other.objects && db.versions == other.versions && o in db.objects
    ensures IsRebuilt(db, o, version, parsed, r) == IsRebuilt(other, o, version, parsed, r)
  {
    hide Resolve;
  }

  // ---------------------------------------------------------------- maintaining one source

  /** One key of a recomputation: the source's own version is replaced, every other row stays. */
  lemma RecomputeRow(db: Db, workspace: WorkspaceId, source: ObjectId, version: VersionId, k: RowKey)
    requires WellFormed(db) && IsMaintainable(db, workspace, source, version)
    ensures var rows := RecomputeVersion(db, workspace, source, version);
            if k.0 == version then
              && (k in rows <==> k.1 < |ParsedBody(db, version)|)
              && (k in rows ==> rows[k] == NewRow(db, workspace, source, version, ParsedBody(db, version)[k.1]))
            else
              && (k in rows <==> k in db.references)
              && (k in rows ==> rows[k] == if db.references[k].source == source
                                           then db.references[k].(status := StatusStale) else db.references[k])
  {
    RecomputeKey(db, workspace, source, version, Parsing.References(db.versions[version].body), k);
    hide NewRow, Recompute;
    if k in db.references {
      assert RowWellFormed(db, k, db.references[k]);
    }
    hide WellFormed;
  }

  lemma RecomputeWellFormed(db: Db, workspace: WorkspaceId, source: ObjectId, version: VersionId)
    requires WellFormed(db) && IsMaintainable(db, workspace, source, version)
    ensures WellFormed(db.(references := RecomputeVersion(db, workspace, source, version)))
  {
    hide ResolveIn, RecomputeVersion;
    var rows := RecomputeVersion(db, workspace, source, version);
    forall k | k in rows ensures RowWellFormed(db, k, rows[k]) {
      RecomputeRow(db, workspace, source, version, k);
      if k.0 != version {
        assert RowWellFormed(db, k, db.references[k]);
      }
    }
  }

  /** One row of the maintained version, before and after re-resolving the affected titles. */
  lemma SourceRowIsRebuilt(db: Db, mid: Db, after: Db, workspace: WorkspaceId, source: ObjectId, version: VersionId,
                           titles: set<string>, i: nat)
    requires WellFormed(db) && IsMaintainable(db, workspace, source, version)
    requires mid == db.(references := RecomputeVersion(db, workspace, source, version))
    requires after == mid.(references := Reresolve(mid, workspace, titles))
    ensures (version, i) in after.references <==> i < |ParsedBody(db, version)|
    ensures (version, i) in mid.references <==> i < |ParsedBody(db, version)|
    ensures i < |ParsedBody(db, version)| ==>
              && after.references[(version, i)] == mid.references[(version, i)]
              && IsRebuilt(after, source, version, ParsedBody(db, version)[i], after.references[(version, i)])
  {
    RecomputeRow(db, workspace, source, version, (version, i));
    hide RecomputeVersion, ResolveIn, NewRow, ReresolveRow, WellFormed, IsRebuilt, ParsedBody;
    if i < |ParsedBody(db, version)| {
      NewRowIsRebuilt(db, mid.references, workspace, source, version, ParsedBody(db, version)[i], titles);
      SameTablesSameRebuild(mid, after, source, version, ParsedBody(db, version)[i], after.references[(version, i)]);
    }
  }

  /** The maintained version's own rows are as rebuilt, and re-resolving them changes nothing. */
  lemma SourceIsRebuilt(db: Db, workspace: WorkspaceId, source: ObjectId, version: VersionId, titles: set<string>)
    requires WellFormed(db) && IsMaintainable(db, workspace, source, version)
    ensures var after := db.(references := MaintainVersion(db, workspace, source, version, titles));
            VersionAgrees(after, source, version)
            && SameRows(RecomputeVersion(db, workspace, source, version), after.references, version)
  {
    hide RecomputeVersion, Reresolve, WellFormed, IsRebuilt;
    var mid := db.(references := RecomputeVersion(db, workspace, source, version));
    var after := mid.(references := Reresolve(mid, workspace, titles));
    forall i: nat
      ensures (version, i) in after.references <==> i < |ParsedBody(db, version)|
      ensures (version, i) in mid.references <==> i < |ParsedBody(db, version)|
      ensures i < |ParsedBody(db, version)| ==>
                && after.references[(version, i)] == mid.references[(version, i)]
                && IsRebuilt(after, source, version, ParsedBody(after, version)[i], after.references[(version, i)])
    {
      SourceRowIsRebuilt(db, mid, after, workspace, source, version, titles, i);
    }
  }

  lemma NewRowIsRebuilt(db: Db, rows: References, workspace: WorkspaceId, source: ObjectId, version: VersionId,
                        parsed: ParsedReference, titles: set<string>)
    requires source in db.objects && db.objects[source].workspace == workspace
    ensures var r := NewRow(db, workspace, source, version, parsed);
            && IsRebuilt(db.(references := rows), source, version, parsed, r)
            && ReresolveRow(db.(references := rows), workspace, titles, r) == r
  {
    hide Resolve;
  }

  /** The source's older rows are all stale after maintenance, and no other row became live. */
  lemma MaintainStalesOlderRows(before: Db, db: Db, workspace: WorkspaceId, source: ObjectId, version: VersionId,
                                titles: set<string>)
    requires WellFormed(before) && OlderRowsStale(before)
    requires WellFormed(db) && IsMaintainable(db, workspace, source, version)
    requires OnlyMoved(before, db, {source})
    ensures OlderRowsStale(db.(references := MaintainVersion(db, workspace, source, version, titles)))
  {
    hide RecomputeVersion, ResolveIn, NewRow;
    var mid := db.(references := RecomputeVersion(db, workspace, source, version));
    forall k | k in mid.references && !IsCurrent(db.objects, mid.references[k])
      ensures mid.references[k].status == StatusStale
    {
      StaleOrCurrent(before, db, workspace, source, version, k);
    }
    assert OlderRowsStale(mid);
    ReresolveKeepsStale(mid, workspace, titles);
  }

  lemma ReresolveKeepsStale(db: Db, workspace: WorkspaceId, titles: set<string>)
    requires OlderRowsStale(db)
    ensures OlderRowsStale(db.(references := Reresolve(db, workspace, titles)))
  {
    hide ResolveIn;
  }

  lemma StaleOrCurrent(before: Db, db: Db, workspace: WorkspaceId, source: ObjectId, version: VersionId, k: RowKey)
    requires WellFormed(before) && OlderRowsStale(before)
    requires WellFormed(db) && IsMaintainable(db, workspace, source, version)
    requires OnlyMoved(before, db, {source})
    requires k in RecomputeVersion(db, workspace, source, version)
    ensures var r := RecomputeVersion(db, workspace, source, version)[k];
            IsCurrent(db.objects, r) || r.status == StatusStale
  {
    hide RecomputeVersion, ResolveIn, NewRow, ParsedBody, WellFormed, OlderRowsStale, OnlyMoved, IsCurrent, MarkStale;
    RecomputeRow(db, workspace, source, version, k);
    if k.0 == version {
      NewRowIsCurrent(db, workspace, source, version, ParsedBody(db, version)[k.1]);
    } else if db.references[k].source != source {
      KeptRowStaleOrCurrent(before, db, source, k);
    }
  }

  lemma KeptRowStaleOrCurrent(before: Db, db: Db, source: ObjectId, k: RowKey)
    requires WellFormed(before) && OlderRowsStale(before) && OnlyMoved(before, db, {source})
    requires k in db.references && db.references[k].source != source
    ensures IsCurrent(db.objects, db.references[k]) || db.references[k].status == StatusStale
  {
    assert k in before.references && RowWellFormed(before, k, before.references[k]);
    hide WellFormed;
  }

  lemma NewRowIsCurrent(db: Db, workspace: WorkspaceId, source: ObjectId, version: VersionId, parsed: ParsedReference)
    requires IsMaintainable(db, workspace, source, version)
    ensures IsCurrent(db.objects, NewRow(db, workspace, source, version, parsed))
  {
    hide ResolveIn;
  }

  /**
   * Incremental maintenance refines full recomputation. If the index agreed before a transition
   * that gave only `source` a new current version, and the affected titles cover every title whose
   * active holders changed, then after maintenance the whole index is as rebuilt from scratch and
   * every row of an older version is stale.
   */
  lemma MaintainRestoresAgreement(before: Db, after: Db, workspace: WorkspaceId, source: ObjectId, version: VersionId,
                                  affectedTitles: seq<string>)
    requires WellFormed(before) && WellFormed(after) && IndexAgrees(before)
    requires IsMaintainable(after, workspace, source, version)
    requires OnlyMoved(before, after, {source})
    requires Covers(before, after, workspace, affectedTitles)
    ensures var titles := NormalizedTitles(affectedTitles);
            var db := after.(references := MaintainVersion(after, workspace, source, version, titles));
            WellFormed(db) && IndexAgrees(db) && IndexIsExact(db)
  {
    hide IndexIsExact;
    var titles := NormalizedTitles(affectedTitles);
    var mid := after.(references := RecomputeVersion(after, workspace, source, version));
    var db := mid.(references := Reresolve(mid, workspace, titles));
    RecomputeWellFormed(after, workspace, source, version);
    ReresolveWellFormed(mid, workspace, titles);
    MaintainStalesOlderRows(before, after, workspace, source, version, titles);
    forall o | o in db.objects && db.objects[o].current.Some?
      ensures VersionAgrees(db, o, db.objects[o].current.value)
    {
      hide Covers, NormalizedTitles, ResolveIn, Reresolve, RecomputeVersion, VersionAgrees;
      if o == source {
        SourceIsRebuilt(after, workspace, source, version, titles);
      } else {
        OtherRowsKept(before, after, workspace, source, version, o);
        CoversOnlyTables(before, after, mid.references, workspace, affectedTitles);
        VersionStaysRebuilt(before, mid, workspace, affectedTitles, o);
      }
    }
    AgreementIsExact(db);
  }

  lemma OtherRowsKept(before: Db, after: Db, workspace: WorkspaceId, source: ObjectId, version: VersionId, o: ObjectId)
    requires WellFormed(before) && WellFormed(after)
    requires IsMaintainable(after, workspace, source, version)
    requires before.references == after.references
    requires o in after.objects && o != source && after.objects[o].current.Some?
    ensures SameRows(before.references, RecomputeVersion(after, workspace, source, version),
                     after.objects[o].current.value)
  {
    hide RecomputeVersion;
    var current := after.objects[o].current.value;
    forall i: nat
      ensures (current, i) in before.references <==> (current, i) in RecomputeVersion(after, workspace, source, version)
      ensures (current, i) in before.references ==>
                before.references[(current, i)] == RecomputeVersion(after, workspace, source, version)[(current, i)]
    {
      RecomputeRow(after, workspace, source, version, (current, i));
      if (current, i) in after.references {
        assert RowWellFormed(after, (current, i), after.references[(current, i)]);
      }
    }
  }

  lemma CoversOnlyTables(before: Db, after: Db, rows: References, workspace: WorkspaceId, affectedTitles: seq<string>)
    requires Covers(before, after, workspace, affectedTitles)
    ensures Covers(before, after.(references := rows), workspace, affectedTitles)
  {
    hide Holders;
  }

  // ---------------------------------------------------------------- repeating changes nothing

  lemma ReresolveRowTwice(db: Db, other: Db, workspace: WorkspaceId, titles: set<string>, r: Reference)
    requires db.objects == other.objects && db.versions == other.versions
    ensures ReresolveRow(other, workspace, titles, ReresolveRow(db, workspace, titles, r))
         == ReresolveRow(db, workspace, titles, r)
  {
    hide Resolve;
  }

  /** Re-resolving the same titles again changes no row and reports nothing. */
  lemma ReresolveTwice(db: Db, workspace: WorkspaceId, titles: set<string>)
    ensures var once := Reresolve(db, workspace, titles);
            Reresolve(db.(references := once), workspace, titles) == once
            && SummaryOf(once, Reresolve(db.(references := once), workspace, titles)) == ReresolutionSummary(0, 0, 0, 0)
  {
    var once := db.(references := Reresolve(db, workspace, titles));
    forall k | k in db.references
      ensures ReresolveRow(once, workspace, titles, once.references[k]) == once.references[k]
    {
      ReresolveRowTwice(db, once, workspace, titles, db.references[k]);
    }
    hide ReresolveRow;
    assert Reresolve(once, workspace, titles) == once.references;
    ReresolveNothing(once, workspace);
  }

  lemma MaintainWellFormed(db: Db, workspace: WorkspaceId, source: ObjectId, version: VersionId, titles: set<string>)
    requires WellFormed(db) && IsMaintainable(db, workspace, source, version)
    ensures var once := db.(references := MaintainVersion(db, workspace, source, version, titles));
            WellFormed(once) && IsMaintainable(once, workspace, source, version)
  {
    RecomputeWellFormed(db, workspace, source, version);
    ReresolveWellFormed(db.(references := RecomputeVersion(db, workspace, source, version)), workspace, titles);
    hide RecomputeVersion, Reresolve, WellFormed;
  }

  lemma RecomputeAfterMaintain(db: Db, workspace: WorkspaceId, source: ObjectId, version: VersionId,
                               titles: set<string>)
    requires WellFormed(db) && IsMaintainable(db, workspace, source, version)
    ensures var once := db.(references := MaintainVersion(db, workspace, source, version, titles));
            RecomputeVersion(once, workspace, source, version) == once.references
  {
    hide RecomputeVersion, WellFormed, Reresolve, MaintainVersion, ResolveIn;
    var once := db.(references := MaintainVersion(db, workspace, source, version, titles));
    MaintainWellFormed(db, workspace, source, version, titles);
    var again := RecomputeVersion(once, workspace, source, version);
    forall k ensures k in again <==> k in once.references
             ensures k in again ==> again[k] == once.references[k]
    {
      RecomputeKeyAgain(db, once, workspace, source, version, titles, k);
    }
  }

  lemma RecomputeKeyAgain(db: Db, once: Db, workspace: WorkspaceId, source: ObjectId, version: VersionId,
                          titles: set<string>, k: RowKey)
    requires WellFormed(db) && IsMaintainable(db, workspace, source, version)
    requires once == db.(references := MaintainVersion(db, workspace, source, version, titles)) && WellFormed(once)
    ensures var again := RecomputeVersion(once, workspace, source, version);
            && (k in again <==> k in once.references)
            && (k in again ==> again[k] == once.references[k])
  {
    hide RecomputeVersion, WellFormed, NewRow, ReresolveRow;
    RecomputeRow(db, workspace, source, version, k);
    RecomputeRow(once, workspace, source, version, k);
    if k in once.references {
      RecomputeRowAgain(db, once, workspace, source, version, titles, k);
    }
  }

  lemma RecomputeRowAgain(db: Db, once: Db, workspace: WorkspaceId, source: ObjectId, version: VersionId,
                          titles: set<string>, k: RowKey)
    requires WellFormed(db) && IsMaintainable(db, workspace, source, version)
    requires once == db.(references := MaintainVersion(db, workspace, source, version, titles))
    requires k in once.references
    ensures k.0 == version && k.1 < |ParsedBody(db, version)| ==>
              once.references[k] == NewRow(once, workspace, source, version, ParsedBody(db, version)[k.1])
    ensures k.0 != version && once.references[k].source == source ==> once.references[k].status == StatusStale
  {
    RecomputeRow(db, workspace, source, version, k);
    var mid := db.(references := RecomputeVersion(db, workspace, source, version));
    hide RecomputeVersion;
    if k.0 == version && k.1 < |ParsedBody(db, version)| {
      NewRowIsRebuilt(db, mid.references, workspace, source, version, ParsedBody(db, version)[k.1], titles);
      NewRowStatus(db, once.references, workspace, source, version, ParsedBody(db, version)[k.1]);
    }
    hide Resolve;
  }

  /** Maintaining the same version again with the same titles changes no row and reports nothing. */
  lemma MaintainTwice(db: Db, workspace: WorkspaceId, source: ObjectId, version: VersionId, titles: set<string>)
    requires WellFormed(db) && IsMaintainable(db, workspace, source, version)
    ensures var once := db.(references := MaintainVersion(db, workspace, source, version, titles));
            && MaintainVersion(once, workspace, source, version, titles) == once.references
            && ChangedKeys(once.references, MarkStale(once.references, workspace, source, version)) == {}
  {
    var mid := db.(references := RecomputeVersion(db, workspace, source, version));
    var once := db.(references := MaintainVersion(db, workspace, source, version, titles));
    RecomputeAfterMaintain(db, workspace, source, version, titles);
    ReresolveTwice(mid, workspace, titles);
    forall k | k in once.references && k.0 != version && once.references[k].source == source
      ensures once.references[k].status == StatusStale
    {
      RecomputeRowAgain(db, once, workspace, source, version, titles, k);
    }
    forall k | k in once.references ensures k.0 == once.references[k].version {
      RecomputeWellFormed(db, workspace, source, version);
      ReresolveWellFormed(mid, workspace, titles);
      assert RowWellFormed(once, k, once.references[k]);
    }
    hide RecomputeVersion, Reresolve;
  }

  // ---------------------------------------------------------------- the callers' affected titles

  /** The titles an edit reports: none when the title is kept, otherwise the old and the new one. */
  function EditedTitles(oldTitle: string, newTitle: string): seq<string> {
    if oldTitle == newTitle then [] else [oldTitle, newTitle]
  }

  /** An edit's reported titles cover every title whose active holders it changes. */
  lemma EditCovers(before: Db, after: Db, source: ObjectId, version: VersionId)
    requires WellFormed(before) && source in before.objects && before.objects[source].current.Some?
    requires version !in before.versions && version in after.versions && after.versions[version].owner == source
    requires after.versions == before.versions[version := after.versions[version]]
    requires after.objects == before.objects[source := before.objects[source].(current := Some(version))]
    ensures Covers(before, after, before.objects[source].workspace,
                   EditedTitles(before.versions[before.objects[source].current.value].title,
                                after.versions[version].title))
  {
    OthersHoldAlike(before, after, source);
  }

  /** Creating, archiving and unarchiving report the object's title, which covers the change. */
  lemma LifecycleCovers(before: Db, after: Db, source: ObjectId)
    requires WellFormed(before) && source in after.objects && after.objects[source].current.Some?
    requires after.objects[source].current.value in after.versions
    requires source in before.objects ==> (before.objects[source].current == after.objects[source].current
                                           && before.objects[source].workspace == after.objects[source].workspace)
    requires forall v :: v in before.versions ==> v in after.versions && after.versions[v] == before.versions[v]
    requires after.objects == before.objects[source := after.objects[source]]
    ensures Covers(before, after, after.objects[source].workspace,
                   [after.versions[after.objects[source].current.value].title])
  {
    OthersHoldAlike(before, after, source);
  }

  lemma OthersHoldAlike(before: Db, after: Db, source: ObjectId)
    requires WellFormed(before) && source in after.objects
    requires after.objects == before.objects[source := after.objects[source]]
    requires forall v :: v in before.versions ==> v in after.versions && after.versions[v] == before.versions[v]
    ensures forall w: WorkspaceId, t: string ::
              Holders(before.objects, before.versions, w, t) != Holders(after.objects, after.versions, w, t) ==>
                (source in before.objects && Holds(before.objects[source], source, before.versions, w, t))
                != Holds(after.objects[source], source, after.versions, w, t)
  {
    forall w: WorkspaceId, t: string
      | (source in before.objects && Holds(before.objects[source], source, before.versions, w, t))
        == Holds(after.objects[source], source, after.versions, w, t)
      ensures Holders(before.objects, before.versions, w, t) == Holders(after.objects, after.versions, w, t)
    {
      forall o ensures o in Holders(before.objects, before.versions, w, t)
                       <==> o in Holders(after.objects, after.versions, w, t) {
      }
    }
  }
}
