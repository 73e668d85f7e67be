/**
 * What the reference rows should hold, read off the tables alone: the statements of
 * `ReferenceIndex` are checked against these definitions, not against each other.
 */
module ReferenceMeaning {
  import opened Prelude
  import opened Text
  import opened ReferenceParser
  import opened Store
  import opened ReferenceIndex
  import Parsing = ReferenceParserProofs

  // ---------------------------------------------------------------- titles

  /** `o` is an active object of the workspace whose current version is titled `title`. */
  ghost predicate IsTitled(objects: Objects, versions: Versions, workspace: WorkspaceId, title: string, o: ObjectId) {
    o in objects && exists v :: v in versions && IsTitledBy(objects[o], workspace, title, o, v, versions[v])
  }

  ghost predicate IsTitledBy(row: ObjectRow, workspace: WorkspaceId, title: string, o: ObjectId, v: VersionId,
                             version: Version) {
    row == ObjectRow(workspace, Some(v), false) && version.owner == o && version.title == title
  }

  ghost function Titled(objects: Objects, versions: Versions, workspace: WorkspaceId, title: string): set<ObjectId> {
    set o | o in objects && IsTitled(objects, versions, workspace, title, o)
  }

  /** Resolved to the one holder, unresolved without any, ambiguous with several. */
  ghost predicate ShowsHolders(holders: set<ObjectId>, target: Option<ObjectId>, status: Status) {
    && (forall o: ObjectId :: target == Some(o) <==> holders == {o})
    && (status == StatusResolved <==> |holders| == 1)
    && (status == StatusUnresolved <==> |holders| == 0)
    && (status == StatusAmbiguous <==> |holders| > 1)
  }

  lemma HoldersAreTitled(objects: Objects, versions: Versions, workspace: WorkspaceId, title: string)
    ensures Holders(objects, versions, workspace, title) == Titled(objects, versions, workspace, title)
  {
    forall o
      ensures o in Holders(objects, versions, workspace, title) <==> o in Titled(objects, versions, workspace, title)
    {
      if o in Holders(objects, versions, workspace, title) {
        var v := objects[o].current.value;
        assert IsTitledBy(objects[o], workspace, title, o, v, versions[v]);
      }
    }
  }

  /** Target and status of a resolution are those of the objects that hold the title. */
  lemma ResolutionShowsHolders(objects: Objects, versions: Versions, workspace: WorkspaceId, title: string)
    ensures var resolution := Resolve(objects, versions, workspace, title);
            ShowsHolders(Titled(objects, versions, workspace, title), resolution.Target(), resolution.Status())
  {
    hide Holders, Titled, Resolve;
    var holders := Titled(objects, versions, workspace, title);
    HoldersAreTitled(objects, versions, workspace, title);
    ResolveMeaning(objects, versions, workspace, title);
    HolderCount(holders);
    var resolution := Resolve(objects, versions, workspace, title);
    forall o: ObjectId ensures resolution.Target() == Some(o) <==> holders == {o} {
      assert resolution == Resolved(o) <==> holders == {o};
    }
  }

  lemma HolderCount(holders: set<ObjectId>)
    ensures |holders| == 0 <==> holders == {}
    ensures |holders| == 1 <==> exists o :: holders == {o}
    ensures |holders| > 1 <==> exists o, p :: o in holders && p in holders && o != p
  {
    if holders != {} {
      var o :| o in holders;
      var rest := holders - {o};
      assert holders == rest + {o};
      if rest != {} {
        var p :| p in rest;
      }
    }
  }

  /** The titles that count: trimmed, not blank, each once. */
  ghost predicate AreNormalized(titles: set<string>, given: seq<string>) {
    forall t :: t in titles <==> t != "" && exists i :: 0 <= i < |given| && Trim(given[i]) == t
  }

  lemma NormalizedTitlesAreNormalized(given: seq<string>)
    ensures AreNormalized(NormalizedTitles(given), given)
  {
    hide Trim;
  }

  // ---------------------------------------------------------------- rows of one recomputation

  /** The object an object-ID link names, if it is one of the link's workspace, in any lifecycle state. */
  ghost predicate LinksTo(objects: Objects, workspace: WorkspaceId, parsed: ParsedReference, o: ObjectId) {
    && parsed.targetObject == Some(o)
    && (parsed.targetWorkspace == None || parsed.targetWorkspace == Some(workspace))
    && o in objects && objects[o].workspace == workspace
  }

  ghost predicate IsInserted(db: Db, workspace: WorkspaceId, source: ObjectId, version: VersionId,
                             parsed: ParsedReference, r: Reference) {
    && r.workspace == workspace && r.source == source && r.version == version && r.parsed == parsed
    && (parsed.kind == Wikilink ==>
          ShowsHolders(Titled(db.objects, db.versions, workspace, parsed.rawTarget), r.target, r.status))
    && (parsed.kind == KivalObjectLink ==>
          && (forall o: ObjectId :: r.target == Some(o) <==> LinksTo(db.objects, workspace, parsed, o))
          && (r.status == StatusResolved <==> r.target.Some?)
          && (r.status == StatusUnresolved <==> r.target.None?))
  }

  ghost predicate IsLiveElsewhere(r: Reference, workspace: WorkspaceId, source: ObjectId, version: VersionId) {
    r.workspace == workspace && r.source == source && r.version != version && r.status != StatusStale
  }

  /** New rows for the parsed references, none left over, and other versions' rows gone stale. */
  ghost predicate IsRecomputed(db: Db, workspace: WorkspaceId, source: ObjectId, version: VersionId,
                               parsed: seq<ParsedReference>, after: References) {
    forall k: RowKey ::
      if k.0 == version && k.1 < |parsed| then
        k in after && IsInserted(db, workspace, source, version, parsed[k.1], after[k])
      else
        IsKept(db, workspace, source, version, k, after)
  }

  ghost predicate IsKept(db: Db, workspace: WorkspaceId, source: ObjectId, version: VersionId,
                         k: RowKey, after: References) {
    && (k in after <==>
          k in db.references && !(db.references[k].workspace == workspace && db.references[k].source == source
                                  && db.references[k].version == version))
    && (k in after ==>
          var r := db.references[k];
          && after[k] == r.(status := after[k].status)
          && after[k].status == (if IsLiveElsewhere(r, workspace, source, version) then StatusStale else r.status))
  }

  lemma NewRowIsInserted(db: Db, workspace: WorkspaceId, source: ObjectId, version: VersionId, parsed: ParsedReference)
    ensures IsInserted(db, workspace, source, version, parsed, NewRow(db, workspace, source, version, parsed))
  {
    hide Titled, ShowsHolders, Resolve;
    ResolutionShowsHolders(db.objects, db.versions, workspace, parsed.rawTarget);
  }

  lemma RecomputeIsExact(db: Db, workspace: WorkspaceId, source: ObjectId, version: VersionId,
                         parsed: seq<ParsedReference>)
    ensures IsRecomputed(db, workspace, source, version, parsed, Recompute(db, workspace, source, version, parsed))
  {
    hide NewRow, Recompute, IsInserted;
    var after := Recompute(db, workspace, source, version, parsed);
    forall k: RowKey
      ensures if k.0 == version && k.1 < |parsed| then
                k in after && IsInserted(db, workspace, source, version, parsed[k.1], after[k])
              else
                IsKept(db, workspace, source, version, k, after)
    {
      RecomputeKey(db, workspace, source, version, parsed, k);
      if k.0 == version && k.1 < |parsed| {
        NewRowIsInserted(db, workspace, source, version, parsed[k.1]);
      }
    }
  }

  // ---------------------------------------------------------------- rows of one re-resolution

  /** A live wikilink of a current version, to one of the titles. */
  ghost predicate IsConcerned(db: Db, workspace: WorkspaceId, titles: set<string>, r: Reference) {
    && r.workspace == workspace && r.parsed.kind == Wikilink && r.parsed.rawTarget in titles && r.status != StatusStale
    && r.source in db.objects && db.objects[r.source].workspace == workspace
    && db.objects[r.source].current == Some(r.version)
  }

  /** Concerned rows show who holds their title now; all other rows are untouched. */
  ghost predicate IsReresolved(db: Db, workspace: WorkspaceId, titles: set<string>, after: References) {
    && after.Keys == db.references.Keys
    && forall k :: k in after ==> RowIsReresolved(db, workspace, titles, db.references[k], after[k])
  }

  ghost predicate RowIsReresolved(db: Db, workspace: WorkspaceId, titles: set<string>, r: Reference, r': Reference) {
    if IsConcerned(db, workspace, titles, r) then
      && r' == r.(target := r'.target, status := r'.status)
      && ShowsHolders(Titled(db.objects, db.versions, workspace, r.parsed.rawTarget), r'.target, r'.status)
    else r' == r
  }

  lemma ReresolveIsExact(db: Db, workspace: WorkspaceId, titles: set<string>)
    ensures IsReresolved(db, workspace, titles, Reresolve(db, workspace, titles))
  {
    hide Titled, ShowsHolders, Resolve;
    forall k | k in db.references
      ensures var row := db.references[k];
              RowIsReresolved(db, workspace, titles, row, ReresolveRow(db, workspace, titles, row))
    {
      ResolutionShowsHolders(db.objects, db.versions, workspace, db.references[k].parsed.rawTarget);
    }
  }

  // ---------------------------------------------------------------- the whole index

  /** One row per parsed reference of the version's body, wikilinks showing who holds their title. */
  ghost predicate VersionIsIndexed(db: Db, o: ObjectId, version: VersionId)
    requires o in db.objects && version in db.versions
  {
    var parsed := Parsing.References(db.versions[version].body);
    forall i: nat ::
      && ((version, i) in db.references <==> i < |parsed|)
      && ((version, i) in db.references && i < |parsed| ==>
            RowIsIndexed(db, o, version, parsed[i], db.references[(version, i)]))
  }

  ghost predicate RowIsIndexed(db: Db, o: ObjectId, version: VersionId, parsed: ParsedReference, r: Reference)
    requires o in db.objects
  {
    && r.workspace == db.objects[o].workspace && r.source == o && r.version == version && r.parsed == parsed
    && r.status != StatusStale
    && (parsed.kind == Wikilink ==>
          ShowsHolders(Titled(db.objects, db.versions, r.workspace, parsed.rawTarget), r.target, r.status))
  }

  /** The index of every current version is exact, archived objects included; other rows are stale. */
  ghost predicate IndexIsExact(db: Db) {
    && (forall o, v :: o in db.objects && v in db.versions && db.objects[o].current == Some(v) ==>
          VersionIsIndexed(db, o, v))
    && (forall k :: k in db.references ==>
          var r := db.references[k];
          r.status == StatusStale
          || (r.source in db.objects && db.objects[r.source].current == Some(r.version)
              && db.objects[r.source].workspace == r.workspace))
  }
}
