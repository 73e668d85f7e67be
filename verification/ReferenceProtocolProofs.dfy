/** Every commit point of the concurrent maintenance protocol leaves the index in agreement. */
module ReferenceProtocolProofs {
  import opened Prelude
  import opened Text
  import opened ReferenceParser
  import opened Store
  import opened ReferenceIndex
  import opened ReferenceAgreement
  import opened ReferenceMeaning
  import opened ReferenceProtocol
  import Parsing = ReferenceParserProofs

  // ---------------------------------------------------------------- the inductive invariant

  /** Facts about the changed row that no other transaction can disturb. */
  ghost predicate ShapeOk(store: Db, tx: Tx) {
    && tx.row.workspace == tx.workspace
    && tx.row.current.Some?
    && tx.row.current.value in store.versions && store.versions[tx.row.current.value].owner == tx.source
    && (tx.source in store.objects ==> store.objects[tx.source].workspace == tx.workspace)
    && (match tx.rebuilds
        case Some(version) =>
          && tx.row.current == Some(version)
          && (tx.source in store.objects ==> store.objects[tx.source].current != Some(version))
          && (forall i: nat :: (version, i) !in store.references)
        case None => tx.source in store.objects && store.objects[tx.source].current == tx.row.current)
  }

  /** Titles are locked before anything depends on them, and every locked title is trimmed. */
  ghost predicate LocksOk(store: Db, tx: Tx) {
    && (forall title :: title in tx.locked ==> title != "" && Trim(title) == title)
    && (tx.staled || tx.inserted > 0 || tx.done != {} ==> TitlesToLock(store, tx) <= tx.locked)
    && tx.done <= Affected(tx)
    && (tx.done != {} ==> Rebuilt(store, tx))
    && (tx.inserted > 0 ==> tx.staled) && (tx.staled ==> tx.rebuilds.Some?)
    && tx.inserted <= |Parsed(store, tx)|
  }

  /** What one uncommitted row write may be. */
  ghost predicate WriteOk(store: Db, tx: Tx, k: RowKey, w: Reference) {
    if tx.rebuilds == Some(k.0) then
      && k.1 < tx.inserted && k.1 < |Parsed(store, tx)|
      && IsRebuilt(View(store, tx), tx.source, k.0, Parsed(store, tx)[k.1], w)
    else
      && k in store.references
      && var r := store.references[k];
      if tx.rebuilds.Some? && r.source == tx.source then
        tx.staled && w == r.(status := StatusStale)
      else
        && Concerned(store, tx, r)
        && w == WithResolution(r, ResolveIn(View(store, tx), r.workspace, r.parsed.rawTarget))
  }

  /** The row is a live wikilink of a title the transaction has re-resolved. */
  ghost predicate Concerned(store: Db, tx: Tx, r: Reference) {
    r.workspace == tx.workspace && r.parsed.rawTarget in tx.done && IsLiveWikilink(View(store, tx).objects, r)
  }

  ghost predicate WritesOk(store: Db, tx: Tx) {
    forall k :: k in tx.writes ==> WriteOk(store, tx, k, tx.writes[k])
  }

  /** The statements already run missed no row. */
  ghost predicate NothingMissed(store: Db, tx: Tx) {
    && (tx.rebuilds.Some? ==> forall i: nat :: i < tx.inserted ==> (tx.rebuilds.value, i) in tx.writes)
    && (forall k :: k in store.references && k !in tx.writes ==> Settled(store, tx, store.references[k]))
  }

  ghost predicate Settled(store: Db, tx: Tx, r: Reference) {
    && (tx.staled && r.source == tx.source ==> r.status == StatusStale)
    && (Concerned(store, tx, r) ==>
          r == WithResolution(r, ResolveIn(View(store, tx), r.workspace, r.parsed.rawTarget)))
  }

  ghost predicate TxOk(store: Db, tx: Tx) {
    ShapeOk(store, tx) && RowCovers(store, tx) && LocksOk(store, tx) && WritesOk(store, tx) && NothingMissed(store, tx)
  }

  /** Two transactions never share an object lock, a title lock or a written row. */
  ghost predicate Apart(a: Tx, b: Tx) {
    && a.source != b.source
    && (a.workspace == b.workspace ==> a.locked !! b.locked)
    && a.writes.Keys !! b.writes.Keys
  }

  ghost predicate Inv(s: State) {
    && WellFormed(s.store) && IndexAgrees(s.store)
    && (forall t :: t in s.txs ==> TxOk(s.store, s.txs[t]))
    && (forall t, u :: t in s.txs && u in s.txs && t != u ==> Apart(s.txs[t], s.txs[u]))
  }

  // ---------------------------------------------------------------- resolution under locks

  /** Titles to lock are trimmed and non-empty. */
  lemma TitlesTrimmed(store: Db, tx: Tx, title: string)
    requires title in TitlesToLock(store, tx)
    ensures title != "" && Trim(title) == title
  {
    hide Trim;
    if title in Affected(tx) {
      var t :| t in tx.titles && Trim(t) != "" && title == Trim(t);
      TrimIdempotent(t);
    } else {
      var parsed := Parsed(store, tx);
      var x :| x in parsed && x.kind == Wikilink && title == x.rawTarget;
      Parsing.ReferencesAre(store.versions[tx.rebuilds.value].body, x);
    }
  }

  /** Resolution looks at objects and versions only, object by object. */
  lemma SameHolders(a: Db, b: Db, w: WorkspaceId, t: string)
    requires forall o :: (o in a.objects && Holds(a.objects[o], o, a.versions, w, t))
                         == (o in b.objects && Holds(b.objects[o], o, b.versions, w, t))
    ensures ResolveIn(a, w, t) == ResolveIn(b, w, t)
  {
    hide Holds, InIdOrder;
    var x, y := Holders(a.objects, a.versions, w, t), Holders(b.objects, b.versions, w, t);
    forall o ensures o in x <==> o in y {
    }
    assert x == y;
  }

  /** A transaction changes no title's holders outside its affected titles. */
  lemma UnreportedTitle(store: Db, tx: Tx, w: WorkspaceId, t: string)
    requires RowCovers(store, tx)
    requires t != "" && Trim(t) == t && !(w == tx.workspace && t in Affected(tx))
    ensures (tx.source in store.objects && Holds(store.objects[tx.source], tx.source, store.versions, w, t))
         == Holds(tx.row, tx.source, store.versions, w, t)
  {
    hide Trim, Holds;
    assert t in tx.titles ==> Trim(t) in NormalizedTitles(tx.titles);
  }

  lemma UnaffectedResolution(store: Db, tx: Tx, w: WorkspaceId, t: string)
    requires RowCovers(store, tx)
    requires t != "" && Trim(t) == t && !(w == tx.workspace && t in Affected(tx))
    ensures ResolveIn(View(store, tx), w, t) == ResolveIn(store, w, t)
  {
    UnreportedTitle(store, tx, w, t);
    hide Holds, RowCovers, Trim, NormalizedTitles;
    SameHolders(View(store, tx), store, w, t);
  }

  /** Another transaction's commit leaves the resolution of every title locked here as it was. */
  lemma LockedResolution(store: Db, other: Tx, tx: Tx, t: string)
    requires TxOk(store, other) && Finished(store, other) && LocksOk(store, tx) && Apart(other, tx)
    requires t in tx.locked
    ensures ResolveIn(View(View(store, other), tx), tx.workspace, t) == ResolveIn(View(store, tx), tx.workspace, t)
  {
    hide WritesOk, NothingMissed, ShapeOk, Trim, Holds, NormalizedTitles;
    assert t in Affected(other) ==> t in other.locked;
    UnreportedTitle(store, other, tx.workspace, t);
    hide RowCovers, LocksOk;
    SameHolders(View(View(store, other), tx), View(store, tx), tx.workspace, t);
  }

  // ---------------------------------------------------------------- a finished transaction commits agreement

  lemma CommitRowWellFormed(store: Db, tx: Tx, k: RowKey)
    requires WellFormed(store) && ShapeOk(store, tx) && WritesOk(store, tx) && k in View(store, tx).references
    ensures RowWellFormed(View(store, tx), k, View(store, tx).references[k])
  {
    hide WellFormed, WritesOk, ResolveIn, IsLiveWikilink, Parsed, Concerned;
    if k in store.references {
      StoredRowWellFormed(store, k);
    }
    if k in tx.writes {
      assert WriteOk(store, tx, k, tx.writes[k]) by { WritesAreOkAt(store, tx, k); }
    }
  }

  lemma StoredRowWellFormed(store: Db, k: RowKey)
    requires WellFormed(store) && k in store.references
    ensures RowWellFormed(store, k, store.references[k])
  {
    hide RowWellFormed;
  }

  lemma WritesAreOkAt(store: Db, tx: Tx, k: RowKey)
    requires WritesOk(store, tx) && k in tx.writes
    ensures WriteOk(store, tx, k, tx.writes[k])
  {
    hide WriteOk;
  }

  lemma CommitWellFormed(store: Db, tx: Tx)
    requires WellFormed(store) && ShapeOk(store, tx) && WritesOk(store, tx)
    ensures WellFormed(View(store, tx))
  {
    hide RowWellFormed, WritesOk;
    var after := View(store, tx);
    forall k | k in after.references ensures RowWellFormed(after, k, after.references[k]) {
      CommitRowWellFormed(store, tx, k);
    }
  }

  /** A row the finished transaction did not write still agrees after its commit. */
  lemma UnwrittenRowAgrees(store: Db, tx: Tx, o: ObjectId, version: VersionId, parsed: ParsedReference, r: Reference)
    requires RowCovers(store, tx) && tx.done == Affected(tx)
    requires o in store.objects && version in store.versions && parsed in ParsedBody(store, version)
    requires o == tx.source ==> tx.row.workspace == store.objects[o].workspace
    requires IsRebuilt(store, o, version, parsed, r) && Settled(store, tx, r)
    requires IsCurrent(View(store, tx).objects, r)
    ensures IsRebuilt(View(store, tx), o, version, parsed, r)
  {
    Parsing.ReferencesAre(store.versions[version].body, parsed);
    hide ResolveIn, Trim, RowCovers, NormalizedTitles, ParsedBody;
    if parsed.kind == Wikilink && !(r.workspace == tx.workspace && parsed.rawTarget in Affected(tx)) {
      UnaffectedResolution(store, tx, r.workspace, parsed.rawTarget);
    }
  }

  /** A row the transaction re-resolved agrees after its commit. */
  lemma RewrittenRowAgrees(store: Db, tx: Tx, o: ObjectId, version: VersionId, parsed: ParsedReference, r: Reference)
    requires o in store.objects
    requires o == tx.source ==> tx.row.workspace == store.objects[o].workspace
    requires IsRebuilt(store, o, version, parsed, r)
    ensures IsRebuilt(View(store, tx), o, version, parsed,
                      WithResolution(r, ResolveIn(View(store, tx), r.workspace, r.parsed.rawTarget)))
         || parsed.kind == KivalObjectLink
  {
    hide ResolveIn;
  }

  /** After the commit every row of an object that kept its version is as rebuilt. */
  lemma KeptVersionAgrees(store: Db, tx: Tx, o: ObjectId)
    requires WellFormed(store) && TxOk(store, tx) && Finished(store, tx)
    requires o in store.objects && store.objects[o].current.Some?
    requires o == tx.source ==> tx.rebuilds.None?
    requires VersionAgrees(store, o, store.objects[o].current.value)
    ensures VersionAgrees(View(store, tx), o, store.objects[o].current.value)
  {
    var version := store.objects[o].current.value;
    var after := View(store, tx);
    var parsed := ParsedBody(store, version);
    hide ParsedBody, WellFormed, TxOk, Finished, IsRebuilt;
    SameVersionsSameBody(store, after, version);
    forall i: nat
      ensures (version, i) in after.references <==> i < |parsed|
      ensures i < |parsed| ==> IsRebuilt(after, o, version, parsed[i], after.references[(version, i)])
    {
      KeptRowAgrees(store, tx, o, version, i);
    }
  }

  lemma KeptRowAgrees(store: Db, tx: Tx, o: ObjectId, version: VersionId, i: nat)
    requires WellFormed(store) && TxOk(store, tx) && Finished(store, tx)
    requires o in store.objects && store.objects[o].current == Some(version)
    requires o == tx.source ==> tx.rebuilds.None?
    requires VersionAgrees(store, o, version)
    ensures (version, i) in View(store, tx).references <==> i < |ParsedBody(store, version)|
    ensures i < |ParsedBody(store, version)| ==>
              IsRebuilt(View(store, tx), o, version, ParsedBody(store, version)[i],
                        View(store, tx).references[(version, i)])
  {
    var k := (version, i);
    KeptKey(store, tx, o, k);
    assert k in store.references <==> i < |ParsedBody(store, version)|;
    hide WellFormed, LocksOk, ResolveIn, RowCovers, WriteOk;
    if i < |ParsedBody(store, version)| {
      var r, parsed := store.references[k], ParsedBody(store, version)[i];
      assert IsRebuilt(store, o, version, parsed, r);
      hide VersionAgrees;
      if k in tx.writes {
        RewrittenRowAgrees(store, tx, o, version, parsed, r);
      } else {
        assert Settled(store, tx, r);
        UnwrittenRowAgrees(store, tx, o, version, parsed, r);
      }
    }
  }

  /** A finished transaction adds no row to a kept version, and rewrites only live wikilinks of it. */
  lemma KeptKey(store: Db, tx: Tx, o: ObjectId, k: RowKey)
    requires WellFormed(store) && TxOk(store, tx) && Finished(store, tx)
    requires o in store.objects && store.objects[o].current == Some(k.0)
    requires o == tx.source ==> tx.rebuilds.None?
    ensures k in View(store, tx).references <==> k in store.references
    ensures k in tx.writes ==>
              var r := store.references[k];
              r.parsed.kind == Wikilink
              && tx.writes[k] == WithResolution(r, ResolveIn(View(store, tx), r.workspace, r.parsed.rawTarget))
  {
    hide ResolveIn, RowCovers, LocksOk, NothingMissed;
    if k in tx.writes {
      assert WriteOk(store, tx, k, tx.writes[k]);
    }
    if k in store.references {
      assert RowWellFormed(store, k, store.references[k]);
    }
  }

  /** One row of the new version, which only the transaction itself has written. */
  lemma NewVersionRow(store: Db, tx: Tx, i: nat)
    requires ShapeOk(store, tx) && WritesOk(store, tx) && NothingMissed(store, tx) && tx.rebuilds.Some?
    requires tx.inserted == |Parsed(store, tx)|
    ensures (tx.rebuilds.value, i) in View(store, tx).references <==> i < |Parsed(store, tx)|
    ensures i < |Parsed(store, tx)| ==>
              IsRebuilt(View(store, tx), tx.source, tx.rebuilds.value, Parsed(store, tx)[i],
                        View(store, tx).references[(tx.rebuilds.value, i)])
  {
    hide Parsed, IsRebuilt, Settled, Concerned;
    var k := (tx.rebuilds.value, i);
    assert k !in store.references;
    if k in tx.writes {
      assert WriteOk(store, tx, k, tx.writes[k]);
    }
  }

  /** The new version's rows are exactly those a rebuild would store. */
  lemma NewVersionAgrees(store: Db, tx: Tx)
    requires WellFormed(store) && TxOk(store, tx) && Finished(store, tx) && tx.rebuilds.Some?
    ensures VersionAgrees(View(store, tx), tx.source, tx.rebuilds.value)
  {
    hide ParsedBody, IsRebuilt, RowCovers, LocksOk, WritesOk, NothingMissed, WellFormed;
    var version := tx.rebuilds.value;
    var after := View(store, tx);
    SameVersionsSameBody(store, after, version);
    assert ParsedBody(after, version) == Parsed(store, tx);
    forall i: nat
      ensures (version, i) in after.references <==> i < |Parsed(store, tx)|
      ensures i < |Parsed(store, tx)| ==>
                IsRebuilt(after, tx.source, version, Parsed(store, tx)[i], after.references[(version, i)])
    {
      NewVersionRow(store, tx, i);
    }
  }

  lemma SameVersionsSameBody(a: Db, b: Db, version: VersionId)
    requires a.versions == b.versions && version in a.versions
    ensures ParsedBody(a, version) == ParsedBody(b, version)
  {
  }

  lemma CommitStalesOlderRows(store: Db, tx: Tx)
    requires WellFormed(store) && OlderRowsStale(store) && TxOk(store, tx) && Finished(store, tx)
    ensures OlderRowsStale(View(store, tx))
  {
    var after := View(store, tx);
    hide RowCovers, LocksOk, ResolveIn;
    forall k | k in after.references && !IsCurrent(after.objects, after.references[k])
      ensures after.references[k].status == StatusStale
    {
      CommitStalesRow(store, tx, k);
    }
  }

  lemma CommitStalesRow(store: Db, tx: Tx, k: RowKey)
    requires WellFormed(store) && OlderRowsStale(store) && TxOk(store, tx) && Finished(store, tx)
    requires k in View(store, tx).references
    ensures var r := View(store, tx).references[k]; IsCurrent(View(store, tx).objects, r) || r.status == StatusStale
  {
    if k in tx.writes {
      assert WriteOk(store, tx, k, tx.writes[k]);
    } else {
      assert RowWellFormed(store, k, store.references[k]);
      assert Settled(store, tx, store.references[k]);
    }
    hide RowCovers, LocksOk, ResolveIn, WellFormed, WritesOk, NothingMissed;
  }

  /** The commit of a finished transaction restores agreement over the tables it publishes. */
  lemma CommitAgrees(store: Db, tx: Tx)
    requires WellFormed(store) && IndexAgrees(store) && TxOk(store, tx) && Finished(store, tx)
    ensures WellFormed(View(store, tx)) && IndexAgrees(View(store, tx))
  {
    CommitWellFormed(store, tx);
    CommitStalesOlderRows(store, tx);
    var after := View(store, tx);
    forall o | o in after.objects && after.objects[o].current.Some?
      ensures VersionAgrees(after, o, after.objects[o].current.value)
    {
      hide VersionAgrees, OlderRowsStale, RowCovers, LocksOk, WritesOk, NothingMissed;
      if o == tx.source && tx.rebuilds.Some? {
        NewVersionAgrees(store, tx);
      } else {
        KeptVersionAgrees(store, tx, o);
      }
    }
  }

  // ---------------------------------------------------------------- a commit disturbs no other transaction

  /** What it takes for `tx` to watch `other` commit. */
  ghost predicate Watches(store: Db, other: Tx, tx: Tx) {
    && WellFormed(store)
    && TxOk(store, other) && Finished(store, other)
    && TxOk(store, tx) && Apart(other, tx)
  }

  lemma NoRowOfForeignVersion(store: Db, other: Tx, tx: Tx, k: RowKey)
    requires WellFormed(store) && ShapeOk(store, other) && ShapeOk(store, tx) && other.source != tx.source
    requires WritesOk(store, other) && tx.rebuilds == Some(k.0)
    ensures k !in store.references && k !in other.writes
  {
    hide IsRebuilt, Concerned;
    assert k == (k.0, k.1);
    assert k in other.writes ==> WriteOk(store, other, k, other.writes[k]);
  }

  lemma CommitKeepsShape(store: Db, other: Tx, tx: Tx)
    requires Watches(store, other, tx)
    ensures ShapeOk(View(store, other), tx) && RowCovers(View(store, other), tx) && LocksOk(View(store, other), tx)
  {
    hide IsRebuilt, Concerned, Trim, NormalizedTitles, WellFormed, WikilinkTitles, Holds;
    var after := View(store, other);
    forall i: nat | tx.rebuilds.Some? ensures (tx.rebuilds.value, i) !in after.references {
      NoRowOfForeignVersion(store, other, tx, (tx.rebuilds.value, i));
    }
    hide WritesOk, NothingMissed;
    assert Parsed(after, tx) == Parsed(store, tx);
  }

  /** A row `tx` has written is not among the rows `other` committed. */
  lemma CommitKeepsWritten(store: Db, other: Tx, tx: Tx, k: RowKey)
    requires Watches(store, other, tx) && k in tx.writes
    ensures WriteOk(View(store, other), tx, k, tx.writes[k])
  {
    assert WriteOk(store, tx, k, tx.writes[k]);
    assert k !in other.writes;
    if tx.rebuilds == Some(k.0) {
      CommitKeepsNewRow(store, other, tx, k);
    } else {
      hide IsRebuilt, WritesOk, RowCovers, LocksOk;
      var r := store.references[k];
      if !(tx.rebuilds.Some? && r.source == tx.source) {
        CommitKeepsConcern(store, other, tx, k);
      }
    }
  }

  lemma CommitKeepsNewRow(store: Db, other: Tx, tx: Tx, k: RowKey)
    requires Watches(store, other, tx) && k in tx.writes && tx.rebuilds == Some(k.0)
    ensures WriteOk(View(store, other), tx, k, tx.writes[k])
  {
    assert WriteOk(store, tx, k, tx.writes[k]);
    var parsed := Parsed(store, tx)[k.1];
    assert Parsed(View(store, other), tx) == Parsed(store, tx);
    if parsed.kind == Wikilink {
      assert parsed.rawTarget in tx.locked by {
        assert parsed.rawTarget in WikilinkTitles(Parsed(store, tx));
      }
      hide TxOk, WellFormed;
      assert LocksOk(store, tx) by { TxParts(store, tx); }
      LockedResolution(store, other, tx, parsed.rawTarget);
    }
    hide ResolveIn, TxOk, WellFormed, Apart;
  }

  lemma TxParts(store: Db, tx: Tx)
    requires TxOk(store, tx)
    ensures ShapeOk(store, tx) && RowCovers(store, tx) && LocksOk(store, tx) && WritesOk(store, tx)
    ensures NothingMissed(store, tx)
  {
    hide ShapeOk, RowCovers, LocksOk, WritesOk, NothingMissed;
  }

  lemma DoneIsLocked(store: Db, tx: Tx)
    requires LocksOk(store, tx)
    ensures tx.done <= tx.locked
  {
    hide Trim, NormalizedTitles, WikilinkTitles;
  }

  /**
   * Whether a row concerns a transaction survives another's commit that did not write the row:
   * whoever retires the row's version would have had to write it first.
   */
  lemma ConcernUnchanged(store: Db, other: Tx, tx: Tx, k: RowKey)
    requires WellFormed(store) && ShapeOk(store, other) && Finished(store, other) && other.source != tx.source
    requires k in store.references && Settled(store, other, store.references[k])
    ensures Concerned(View(store, other), tx, store.references[k]) == Concerned(store, tx, store.references[k])
  {
    hide ResolveIn;
    assert RowWellFormed(store, k, store.references[k]);
  }

  lemma CommitKeepsConcern(store: Db, other: Tx, tx: Tx, k: RowKey)
    requires Watches(store, other, tx)
    requires k in store.references && k in tx.writes && Concerned(store, tx, store.references[k])
    ensures var r := store.references[k]; var after := View(store, other);
            Concerned(after, tx, r)
            && ResolveIn(View(after, tx), r.workspace, r.parsed.rawTarget)
               == ResolveIn(View(store, tx), r.workspace, r.parsed.rawTarget)
  {
    var r := store.references[k];
    assert Settled(store, other, r);
    ConcernUnchanged(store, other, tx, k);
    DoneIsLocked(store, tx);
    hide ResolveIn, WritesOk, RowCovers, NothingMissed, ShapeOk, LocksOk, WellFormed, IsLiveWikilink;
    LockedResolution(store, other, tx, r.parsed.rawTarget);
  }

  /** A row `tx` has not written is still settled for it. */
  lemma CommitKeepsSettled(store: Db, other: Tx, tx: Tx, k: RowKey)
    requires Watches(store, other, tx)
    requires k in View(store, other).references && k !in tx.writes
    ensures Settled(View(store, other), tx, View(store, other).references[k])
  {
    if k in other.writes {
      CommittedRowSettled(store, other, tx, k);
    } else {
      UntouchedRowSettled(store, other, tx, k);
    }
  }

  /** A live wikilink row a transaction wrote carries a title it has locked. */
  lemma WrittenTitleLocked(store: Db, tx: Tx, k: RowKey)
    requires TxOk(store, tx) && k in tx.writes
    ensures var w := tx.writes[k];
            w.status == StatusStale || w.parsed.kind == KivalObjectLink || w.parsed.rawTarget in tx.locked
  {
    var w := tx.writes[k];
    assert WriteOk(store, tx, k, w);
    hide ResolveIn, WritesOk, NothingMissed, RowCovers, ParsedBody, Trim;
    if tx.rebuilds == Some(k.0) && w.parsed.kind == Wikilink {
      assert w.parsed.rawTarget in WikilinkTitles(Parsed(store, tx));
    }
  }

  lemma WrittenRowWorkspace(store: Db, tx: Tx, k: RowKey)
    requires WellFormed(store) && TxOk(store, tx) && k in tx.writes
    ensures tx.writes[k].workspace == tx.workspace
    ensures || tx.writes[k].source == tx.source
            || (k in store.references && tx.writes[k].source == store.references[k].source
                && store.references[k].status != StatusStale)
  {
    assert WriteOk(store, tx, k, tx.writes[k]);
    if k in store.references {
      assert RowWellFormed(store, k, store.references[k]);
    }
    hide ResolveIn, WritesOk, NothingMissed, RowCovers, LocksOk, WellFormed;
  }

  /** Rows `other` wrote carry titles only `other` has locked. */
  lemma CommittedRowSettled(store: Db, other: Tx, tx: Tx, k: RowKey)
    requires Watches(store, other, tx)
    requires k in other.writes && k !in tx.writes
    ensures Settled(View(store, other), tx, other.writes[k])
  {
    WrittenTitleLocked(store, other, k);
    WrittenRowWorkspace(store, other, k);
    DoneIsLocked(store, tx);
    assert k in store.references ==> Settled(store, tx, store.references[k]);
    hide ResolveIn, WritesOk, RowCovers, WellFormed, NothingMissed, ShapeOk, LocksOk, Finished, View;
  }

  lemma UntouchedRowSettled(store: Db, other: Tx, tx: Tx, k: RowKey)
    requires Watches(store, other, tx)
    requires k in store.references && k !in tx.writes && k !in other.writes
    ensures Settled(View(store, other), tx, store.references[k])
  {
    var r := store.references[k];
    assert Settled(store, tx, r) && Settled(store, other, r);
    ConcernUnchanged(store, other, tx, k);
    DoneIsLocked(store, tx);
    hide ResolveIn, WritesOk, RowCovers, NothingMissed, ShapeOk, LocksOk, WellFormed, IsLiveWikilink;
    if Concerned(store, tx, r) {
      LockedResolution(store, other, tx, r.parsed.rawTarget);
    }
  }

  /** Another transaction's commit keeps everything a transaction relies on. */
  lemma CommitKeepsTx(store: Db, other: Tx, tx: Tx)
    requires Watches(store, other, tx)
    ensures TxOk(View(store, other), tx)
  {
    CommitKeepsShape(store, other, tx);
    var after := View(store, other);
    hide Settled, WriteOk;
    forall k | k in tx.writes ensures WriteOk(after, tx, k, tx.writes[k]) {
      CommitKeepsWritten(store, other, tx, k);
    }
    forall k | k in after.references && k !in tx.writes ensures Settled(after, tx, after.references[k]) {
      CommitKeepsSettled(store, other, tx, k);
    }
    hide ShapeOk, RowCovers, LocksOk;
  }

  // ---------------------------------------------------------------- a transaction's own steps

  /** `tx'` is the same transaction further along. */
  ghost predicate Progresses(tx: Tx, tx': Tx) {
    && tx' == tx.(locked := tx'.locked, writes := tx'.writes, staled := tx'.staled, inserted := tx'.inserted,
                  done := tx'.done)
    && tx.locked <= tx'.locked && (tx.staled ==> tx'.staled) && tx.inserted <= tx'.inserted && tx.done <= tx'.done
  }

  lemma SameTablesSameResolution(a: Db, b: Db)
    requires a.objects == b.objects && a.versions == b.versions
    ensures forall w: WorkspaceId, t: string :: ResolveIn(a, w, t) == ResolveIn(b, w, t)
  {
    hide Resolve;
  }

  lemma ChangeKept(store: Db, tx: Tx, tx': Tx)
    requires Progresses(tx, tx') && ShapeOk(store, tx) && RowCovers(store, tx)
    ensures ShapeOk(store, tx') && RowCovers(store, tx')
    ensures Parsed(store, tx') == Parsed(store, tx) && TitlesToLock(store, tx') == TitlesToLock(store, tx)
  {
    hide Holds, ParsedBody, NormalizedTitles, WikilinkTitles;
  }

  lemma OldWriteOk(store: Db, tx: Tx, tx': Tx, k: RowKey, w: Reference)
    requires Progresses(tx, tx') && WriteOk(store, tx, k, w)
    ensures WriteOk(store, tx', k, w)
  {
    var a, b := View(store, tx), View(store, tx');
    SameTablesSameResolution(a, b);
    if tx.rebuilds == Some(k.0) {
      SameTablesSameRebuild(a, b, tx.source, k.0, Parsed(store, tx)[k.1], w);
    }
    hide ResolveIn, ParsedBody, IsRebuilt;
  }

  lemma OldSettled(store: Db, tx: Tx, tx': Tx, r: Reference)
    requires Progresses(tx, tx') && Settled(store, tx, r) && tx.staled == tx'.staled && tx.done == tx'.done
    ensures Settled(store, tx', r)
  {
    SameTablesSameResolution(View(store, tx), View(store, tx'));
    hide ResolveIn;
  }

  lemma WritesAreOk(store: Db, tx: Tx)
    requires forall k :: k in tx.writes ==> WriteOk(store, tx, k, tx.writes[k])
    ensures WritesOk(store, tx)
  {
    hide WriteOk;
  }

  lemma MissedNothing(store: Db, tx: Tx)
    requires tx.rebuilds.Some? ==> forall i: nat :: i < tx.inserted ==> (tx.rebuilds.value, i) in tx.writes
    requires forall k :: k in store.references && k !in tx.writes ==> Settled(store, tx, store.references[k])
    ensures NothingMissed(store, tx)
  {
    hide Settled;
  }

  lemma LocksGrow(store: Db, tx: Tx, tx': Tx)
    requires Progresses(tx, tx') && LocksOk(store, tx)
    requires ShapeOk(store, tx) && RowCovers(store, tx)
    requires forall title :: title in tx'.locked ==> title in tx.locked || title in TitlesToLock(store, tx)
    requires tx' == tx.(locked := tx'.locked) || TitlesToLock(store, tx) <= tx.locked
    requires tx'.done <= Affected(tx) && (tx'.done != {} ==> Rebuilt(store, tx'))
    requires (tx'.inserted > 0 ==> tx'.staled) && (tx'.staled ==> tx.rebuilds.Some?)
    requires tx'.inserted <= |Parsed(store, tx)|
    ensures LocksOk(store, tx')
  {
    ChangeKept(store, tx, tx');
    forall title | title in tx'.locked ensures title != "" && Trim(title) == title {
      if title !in tx.locked {
        TitlesTrimmed(store, tx, title);
      }
    }
    hide Trim, ShapeOk, RowCovers, TitlesToLock, Parsed, NormalizedTitles;
  }

  lemma LockKeepsTx(s: State, s': State, t: TxId, title: string)
    requires LockTitle(s, s', t, title) && TxOk(s.store, s.txs[t])
    ensures TxOk(s.store, s'.txs[t])
  {
    var store, tx, tx' := s.store, s.txs[t], s'.txs[t];
    ChangeKept(store, tx, tx');
    LocksGrow(store, tx, tx');
    hide ShapeOk, RowCovers, LocksOk, WriteOk, Settled, LockTitle;
    forall k | k in tx'.writes ensures WriteOk(store, tx', k, tx'.writes[k]) {
      OldWriteOk(store, tx, tx', k, tx.writes[k]);
    }
    forall k | k in store.references && k !in tx'.writes ensures Settled(store, tx', store.references[k]) {
      OldSettled(store, tx, tx', store.references[k]);
    }
    WritesAreOk(store, tx');
    MissedNothing(store, tx');
  }

  /** Before the stale statement a rebuilding transaction has written nothing. */
  lemma NothingWrittenYet(store: Db, tx: Tx)
    requires LocksOk(store, tx) && WritesOk(store, tx) && tx.rebuilds.Some? && !tx.staled
    ensures tx.writes == map[] && tx.done == {} && tx.inserted == 0
  {
    hide IsRebuilt, IsLiveWikilink, Trim, ResolveIn;
  }

  /** Marking stale writes exactly the source's live rows of other versions. */
  lemma StaleDelta(references: References, workspace: WorkspaceId, source: ObjectId, version: VersionId, k: RowKey)
    ensures var delta := Delta(references, MarkStale(references, workspace, source, version));
            && (k in delta <==> k in references && IsOlderRow(references[k], workspace, source, version))
            && (k in delta ==> delta[k] == references[k].(status := StatusStale))
  {
  }

  /** The first statement's own writes, row by row. */
  lemma StaleWrites(s: State, s': State, t: TxId, k: RowKey)
    requires StaleOlder(s, s', t) && s.txs[t].writes == map[]
    ensures var tx, tx' := s.txs[t], s'.txs[t];
            && tx' == tx.(staled := true, writes := tx'.writes)
            && (k in tx'.writes <==>
                  k in s.store.references
                  && IsOlderRow(s.store.references[k], tx.workspace, tx.source, tx.rebuilds.value))
            && (k in tx'.writes ==> tx'.writes[k] == s.store.references[k].(status := StatusStale))
  {
    var tx := s.txs[t];
    assert View(s.store, tx).references == s.store.references;
    StaleDelta(s.store.references, tx.workspace, tx.source, tx.rebuilds.value, k);
    hide HoldsLocks, WritableBy, Delta, MarkStale, IsOlderRow;
  }

  lemma StaleKey(s: State, s': State, t: TxId, k: RowKey)
    requires WellFormed(s.store) && StaleOlder(s, s', t) && ShapeOk(s.store, s.txs[t])
    requires s.txs[t].writes == map[] && s.txs[t].done == {} && s.txs[t].inserted == 0
    ensures k in s'.txs[t].writes ==> WriteOk(s.store, s'.txs[t], k, s'.txs[t].writes[k])
    ensures k in s.store.references && k !in s'.txs[t].writes ==> Settled(s.store, s'.txs[t], s.store.references[k])
  {
    var store, tx := s.store, s.txs[t];
    assert tx.rebuilds.Some?;
    StaleWrites(s, s', t, k);
    hide StaleOlder, View, ResolveIn, IsRebuilt, IsLiveWikilink, Parsed;
    if k in store.references {
      assert RowWellFormed(store, k, store.references[k]);
      assert k == (k.0, k.1);
      assert k.0 != tx.rebuilds.value;
    }
  }

  lemma StaleKeepsTx(s: State, s': State, t: TxId)
    requires WellFormed(s.store) && StaleOlder(s, s', t) && TxOk(s.store, s.txs[t])
    ensures TxOk(s.store, s'.txs[t])
  {
    var store, tx, tx' := s.store, s.txs[t], s'.txs[t];
    NothingWrittenYet(store, tx);
    assert Progresses(tx, tx') && HoldsLocks(s, tx);
    ChangeKept(store, tx, tx');
    LocksGrow(store, tx, tx');
    hide ShapeOk, RowCovers, LocksOk, WriteOk, Settled, StaleOlder, NothingMissed, WritesOk, WellFormed;
    forall k ensures k in tx'.writes ==> WriteOk(store, tx', k, tx'.writes[k])
             ensures k in store.references && k !in tx'.writes ==> Settled(store, tx', store.references[k])
    {
      StaleKey(s, s', t, k);
    }
    WritesAreOk(store, tx');
    MissedNothing(store, tx');
  }

  lemma InsertedWriteOk(s: State, s': State, t: TxId)
    requires InsertNext(s, s', t) && ShapeOk(s.store, s.txs[t])
    ensures var k := (s.txs[t].rebuilds.value, s.txs[t].inserted);
            k in s'.txs[t].writes && WriteOk(s.store, s'.txs[t], k, s'.txs[t].writes[k])
  {
    var store, tx, tx' := s.store, s.txs[t], s'.txs[t];
    NewRowIsRebuilt(View(store, tx), View(store, tx').references, tx.workspace, tx.source, tx.rebuilds.value,
                    Parsed(store, tx)[tx.inserted], {});
    hide ResolveIn, NewRow, IsRebuilt, ParsedBody;
  }

  lemma InsertKeepsLocks(s: State, s': State, t: TxId)
    requires InsertNext(s, s', t) && TxOk(s.store, s.txs[t])
    ensures Progresses(s.txs[t], s'.txs[t]) && s.txs[t].done == {} && LocksOk(s.store, s'.txs[t])
  {
    var store, tx, tx' := s.store, s.txs[t], s'.txs[t];
    hide NewRow, ParsedBody, Trim, NormalizedTitles, WikilinkTitles, WritesOk, NothingMissed, Holds;
    assert tx.done == {};
    hide ShapeOk, RowCovers;
    LocksGrow(store, tx, tx');
  }

  lemma TxWhole(store: Db, tx: Tx)
    requires ShapeOk(store, tx) && RowCovers(store, tx) && LocksOk(store, tx) && WritesOk(store, tx)
    requires NothingMissed(store, tx)
    ensures TxOk(store, tx)
  {
    hide ShapeOk, RowCovers, LocksOk, WritesOk, NothingMissed;
  }

  ghost predicate AddsRow(tx: Tx, tx': Tx, key: RowKey, row: Reference) {
    && tx' == tx.(inserted := tx.inserted + 1, writes := tx.writes[key := row])
    && tx.rebuilds == Some(key.0) && key.1 == tx.inserted
  }

  lemma AddedRowOk(store: Db, tx: Tx, tx': Tx, key: RowKey, row: Reference)
    requires AddsRow(tx, tx', key, row) && WritesOk(store, tx) && WriteOk(store, tx', key, row)
    ensures WritesOk(store, tx')
  {
    hide WriteOk;
    forall k | k in tx'.writes ensures WriteOk(store, tx', k, tx'.writes[k]) {
      if k != key {
        OldWriteOk(store, tx, tx', k, tx.writes[k]);
      }
    }
  }

  lemma AddedRowMissesNothing(store: Db, tx: Tx, tx': Tx, key: RowKey, row: Reference)
    requires AddsRow(tx, tx', key, row) && NothingMissed(store, tx)
    ensures NothingMissed(store, tx')
  {
    hide Settled;
    forall k | k in store.references && k !in tx'.writes ensures Settled(store, tx', store.references[k]) {
      OldSettled(store, tx, tx', store.references[k]);
    }
    assert key == (key.0, key.1);
  }

  lemma InsertKeepsTx(s: State, s': State, t: TxId)
    requires InsertNext(s, s', t) && TxOk(s.store, s.txs[t])
    ensures TxOk(s.store, s'.txs[t])
  {
    var store, tx, tx' := s.store, s.txs[t], s'.txs[t];
    InsertKeepsLocks(s, s', t);
    InsertedWriteOk(s, s', t);
    TxParts(store, tx);
    hide NewRow, Parsed, TxOk, ShapeOk, RowCovers, LocksOk, WriteOk, WritesOk, NothingMissed, HoldsLocks;
    var key := (tx.rebuilds.value, tx.inserted);
    assert AddsRow(tx, tx', key, tx'.writes[key]);
    ChangeKept(store, tx, tx');
    AddedRowOk(store, tx, tx', key, tx'.writes[key]);
    AddedRowMissesNothing(store, tx, tx', key, tx'.writes[key]);
    TxWhole(store, tx');
  }

  /** A row the transaction has written itself is not changed again. */
  lemma OwnRowUnchanged(store: Db, tx: Tx, title: string, k: RowKey)
    requires TxOk(store, tx) && title !in tx.done && k in tx.writes
    ensures ReresolveRow(View(store, tx), tx.workspace, {title}, tx.writes[k]) == tx.writes[k]
  {
    assert WriteOk(store, tx, k, tx.writes[k]);
    hide ResolveIn, WritesOk, NothingMissed, RowCovers, LocksOk, ParsedBody;
  }

  /** One key of a re-resolution: only committed live wikilinks of the title change. */
  lemma ReresolveKey(store: Db, tx: Tx, title: string, k: RowKey)
    requires WellFormed(store) && TxOk(store, tx) && title !in tx.done
    ensures var view := View(store, tx); var tx' := tx.(done := tx.done + {title});
            var delta := Delta(view.references, Reresolve(view, tx.workspace, {title}));
            && (k in delta ==> k in store.references && k !in tx.writes
                               && Concerned(store, tx', store.references[k])
                               && store.references[k].parsed.rawTarget == title
                               && delta[k] == WithResolution(store.references[k], ResolveIn(view, tx.workspace, title)))
            && (k in store.references && k !in delta && k !in tx.writes ==> Settled(store, tx', store.references[k]))
  {
    var tx' := tx.(done := tx.done + {title});
    SameTablesSameResolution(View(store, tx), View(store, tx'));
    if k in tx.writes {
      OwnRowUnchanged(store, tx, title, k);
    } else if k in store.references {
      assert Settled(store, tx, store.references[k]);
    }
    hide ResolveIn, WritesOk, NothingMissed, RowCovers, LocksOk, WellFormed, ShapeOk;
  }

  lemma NewWriteOk(store: Db, tx: Tx, tx': Tx, k: RowKey)
    requires WellFormed(store) && ShapeOk(store, tx) && k in store.references
    requires Progresses(tx, tx') && Concerned(store, tx', store.references[k])
    ensures WriteOk(store, tx', k, WithResolution(store.references[k],
              ResolveIn(View(store, tx), tx.workspace, store.references[k].parsed.rawTarget)))
  {
    SameTablesSameResolution(View(store, tx), View(store, tx'));
    assert RowWellFormed(store, k, store.references[k]);
    assert k == (k.0, k.1);
    hide ResolveIn, ParsedBody;
  }

  lemma ConcernedMonotone(store: Db, tx: Tx, tx': Tx, r: Reference)
    requires Progresses(tx, tx') && tx.done == tx'.done
    ensures Concerned(store, tx', r) == Concerned(store, tx, r)
  {
  }

  lemma ReresolveKeepsTx(s: State, s': State, t: TxId, title: string)
    requires WellFormed(s.store) && ReresolveTitle(s, s', t, title) && TxOk(s.store, s.txs[t])
    ensures TxOk(s.store, s'.txs[t])
  {
    var store, tx, tx' := s.store, s.txs[t], s'.txs[t];
    var mid := tx.(done := tx.done + {title});
    assert Progresses(tx, tx') && Progresses(mid, tx') && HoldsLocks(s, tx);
    ChangeKept(store, tx, tx');
    LocksGrow(store, tx, tx');
    hide RowCovers, LocksOk, WriteOk, Settled, Reresolve, Concerned, WithResolution, WellFormed, ShapeOk;
    forall k ensures k in tx'.writes ==> WriteOk(store, tx', k, tx'.writes[k])
             ensures k in store.references && k !in tx'.writes ==> Settled(store, tx', store.references[k])
    {
      ReresolveKey(store, tx, title, k);
      if k in tx.writes {
        OldWriteOk(store, tx, tx', k, tx.writes[k]);
      } else if k in tx'.writes {
        ConcernedMonotone(store, mid, tx', store.references[k]);
        NewWriteOk(store, tx, tx', k);
      } else if k in store.references {
        OldSettled(store, mid, tx', store.references[k]);
      }
    }
    WritesAreOk(store, tx');
    MissedNothing(store, tx');
  }

  // ---------------------------------------------------------------- starting a transaction

  /** Appending version rows that no object points to yet. */
  ghost predicate Appends(store: Db, store': Db) {
    && store' == store.(versions := store'.versions)
    && (forall v :: v in store.versions ==> v in store'.versions && store'.versions[v] == store.versions[v])
  }

  lemma AppendKeepsResolution(store: Db, store': Db, objects: Objects, rows: References, w: WorkspaceId, t: string)
    requires Appends(store, store')
    requires forall o :: o in objects && objects[o].current.Some? ==> objects[o].current.value in store.versions
    ensures ResolveIn(store'.(objects := objects, references := rows), w, t)
         == ResolveIn(store.(objects := objects, references := rows), w, t)
  {
    var a, b := store'.(objects := objects, references := rows), store.(objects := objects, references := rows);
    assert forall o :: (o in a.objects && Holds(a.objects[o], o, a.versions, w, t))
                       == (o in b.objects && Holds(b.objects[o], o, b.versions, w, t));
    hide Holds;
    SameHolders(a, b, w, t);
  }

  lemma AppendKeepsRebuilt(store: Db, store': Db, objects: Objects, rows: References, o: ObjectId, version: VersionId,
                           parsed: ParsedReference, r: Reference)
    requires Appends(store, store') && o in objects
    requires forall o :: o in objects && objects[o].current.Some? ==> objects[o].current.value in store.versions
    requires IsRebuilt(store.(objects := objects, references := rows), o, version, parsed, r)
    ensures IsRebuilt(store'.(objects := objects, references := rows), o, version, parsed, r)
  {
    AppendKeepsResolution(store, store', objects, rows, r.workspace, parsed.rawTarget);
    hide ResolveIn, Appends;
  }

  lemma AppendKeepsVersion(store: Db, store': Db, o: ObjectId, version: VersionId)
    requires Appends(store, store') && WellFormed(store)
    requires o in store.objects && version in store.versions && VersionAgrees(store, o, version)
    ensures VersionAgrees(store', o, version)
  {
    assert ParsedBody(store', version) == ParsedBody(store, version);
    hide ParsedBody, IsRebuilt;
    forall i: nat | i < |ParsedBody(store, version)| && (version, i) in store.references
      ensures IsRebuilt(store', o, version, ParsedBody(store, version)[i], store.references[(version, i)])
    {
      AppendKeepsRebuilt(store, store', store.objects, store.references, o, version,
                         ParsedBody(store, version)[i], store.references[(version, i)]);
    }
  }

  lemma AppendKeepsIndex(store: Db, store': Db)
    requires Appends(store, store') && WellFormed(store) && IndexAgrees(store)
    ensures WellFormed(store') && IndexAgrees(store')
  {
    hide VersionAgrees;
    forall o | o in store'.objects && store'.objects[o].current.Some?
      ensures VersionAgrees(store', o, store'.objects[o].current.value)
    {
      AppendKeepsVersion(store, store', o, store.objects[o].current.value);
    }
  }

  lemma AppendKeepsTx(store: Db, store': Db, tx: Tx)
    requires Appends(store, store') && WellFormed(store) && TxOk(store, tx)
    ensures TxOk(store', tx)
  {
    AppendKeepsChange(store, store', tx);
    hide ShapeOk, RowCovers, LocksOk, WriteOk, Settled, Appends, WellFormed;
    forall k | k in tx.writes ensures WriteOk(store', tx, k, tx.writes[k]) {
      AppendKeepsWrite(store, store', tx, k, tx.writes[k]);
    }
    forall k | k in store'.references && k !in tx.writes ensures Settled(store', tx, store'.references[k]) {
      AppendKeepsSettled(store, store', tx, store.references[k]);
    }
    WritesAreOk(store', tx);
    MissedNothing(store', tx);
  }

  lemma AppendKeepsChange(store: Db, store': Db, tx: Tx)
    requires Appends(store, store') && WellFormed(store) && ShapeOk(store, tx) && RowCovers(store, tx)
    requires LocksOk(store, tx)
    ensures ShapeOk(store', tx) && RowCovers(store', tx) && LocksOk(store', tx)
    ensures store'.references == store.references && Parsed(store', tx) == Parsed(store, tx)
  {
    assert Parsed(store', tx) == Parsed(store, tx);
    hide Trim, NormalizedTitles, WikilinkTitles, ParsedBody;
    forall w: WorkspaceId, t: string
      ensures Holds(tx.row, tx.source, store'.versions, w, t) == Holds(tx.row, tx.source, store.versions, w, t)
      ensures tx.source in store.objects ==>
                Holds(store.objects[tx.source], tx.source, store'.versions, w, t)
                == Holds(store.objects[tx.source], tx.source, store.versions, w, t)
    {
    }
    hide Holds;
  }

  lemma AppendKeepsWrite(store: Db, store': Db, tx: Tx, k: RowKey, w: Reference)
    requires Appends(store, store') && WellFormed(store) && ShapeOk(store, tx) && WriteOk(store, tx, k, w)
    requires Parsed(store', tx) == Parsed(store, tx)
    ensures WriteOk(store', tx, k, w)
  {
    var view := View(store, tx);
    if tx.rebuilds == Some(k.0) {
      AppendKeepsRebuilt(store, store', view.objects, view.references, tx.source, k.0, Parsed(store, tx)[k.1], w);
    } else {
      var r := store.references[k];
      AppendKeepsResolution(store, store', view.objects, view.references, r.workspace, r.parsed.rawTarget);
    }
    hide ResolveIn, IsRebuilt, Parsed;
  }

  lemma AppendKeepsSettled(store: Db, store': Db, tx: Tx, r: Reference)
    requires Appends(store, store') && WellFormed(store) && ShapeOk(store, tx) && Settled(store, tx, r)
    ensures Settled(store', tx, r)
  {
    var view := View(store, tx);
    AppendKeepsResolution(store, store', view.objects, view.references, r.workspace, r.parsed.rawTarget);
    hide ResolveIn;
  }

  lemma BeginMakesTx(s: State, s': State, t: TxId, tx: Tx)
    requires Begin(s, s', t, tx) && WellFormed(s.store)
    ensures TxOk(s'.store, tx) && Appends(s.store, s'.store)
  {
    var store, store' := s.store, s'.store;
    hide RowCovers, Trim, NormalizedTitles, ResolveIn;
    assert Appends(store, store');
    forall i: nat | tx.rebuilds.Some? ensures (tx.rebuilds.value, i) !in store.references {
      assert (tx.rebuilds.value, i) in store.references ==>
               RowWellFormed(store, (tx.rebuilds.value, i), store.references[(tx.rebuilds.value, i)]);
    }
    assert ShapeOk(store', tx);
  }

  /** The titles the kernel's callers report: the old and the new one of an edit, else the only one. */
  ghost function ReportedTitles(store: Db, store': Db, tx: Tx): seq<string>
    requires WellFormed(store) && Changes(store, store', tx)
  {
    var title := store'.versions[tx.row.current.value].title;
    if tx.rebuilds.Some? && tx.source in store.objects
    then EditedTitles(store.versions[store.objects[tx.source].current.value].title, title)
    else [title]
  }

  /** What the callers report always satisfies the coverage every transaction has to start with. */
  lemma CallersCover(store: Db, store': Db, tx: Tx)
    requires WellFormed(store) && Changes(store, store', tx)
    requires tx.titles == ReportedTitles(store, store', tx)
    ensures RowCovers(store', tx)
  {
  }

  // ---------------------------------------------------------------- every reachable state

  lemma InvTx(s: State, t: TxId)
    requires Inv(s) && t in s.txs
    ensures TxOk(s.store, s.txs[t])
    ensures forall u :: u in s.txs && u != t ==> Apart(s.txs[t], s.txs[u]) && Apart(s.txs[u], s.txs[t])
  {
    hide TxOk, IndexAgrees, WellFormed, Apart;
  }

  lemma BeginKeepsInv(s: State, s': State, t: TxId, tx: Tx)
    requires Inv(s) && Begin(s, s', t, tx)
    ensures Inv(s')
  {
    BeginMakesTx(s, s', t, tx);
    AppendKeepsIndex(s.store, s'.store);
    forall u | u in s'.txs ensures TxOk(s'.store, s'.txs[u]) {
      if u != t {
        AppendKeepsTx(s.store, s'.store, s.txs[u]);
      }
    }
    hide TxOk, IndexAgrees, WellFormed, Changes, RowCovers, Appends;
  }

  /** A step of one transaction that publishes nothing. */
  lemma OwnStepKeepsInv(s: State, s': State, t: TxId)
    requires Inv(s) && t in s.txs && t in s'.txs
    requires s'.store == s.store && s'.txs == s.txs[t := s'.txs[t]]
    requires TxOk(s'.store, s'.txs[t])
    requires forall u :: u in s.txs && u != t ==> Apart(s'.txs[t], s.txs[u])
    ensures Inv(s')
  {
    hide TxOk, IndexAgrees, WellFormed;
  }

  lemma LockKeepsInv(s: State, s': State, t: TxId, title: string)
    requires Inv(s) && LockTitle(s, s', t, title)
    ensures Inv(s')
  {
    InvTx(s, t);
    LockKeepsTx(s, s', t, title);
    hide TxOk, Inv;
    OwnStepKeepsInv(s, s', t);
  }

  lemma StaleKeepsInv(s: State, s': State, t: TxId)
    requires Inv(s) && StaleOlder(s, s', t)
    ensures Inv(s')
  {
    InvTx(s, t);
    StaleKeepsTx(s, s', t);
    hide TxOk, Inv, MarkStale, View;
    OwnStepKeepsInv(s, s', t);
  }

  lemma InsertKeepsInv(s: State, s': State, t: TxId)
    requires Inv(s) && InsertNext(s, s', t)
    ensures Inv(s')
  {
    InvTx(s, t);
    InsertKeepsTx(s, s', t);
    var key := (s.txs[t].rebuilds.value, s.txs[t].inserted);
    forall u | u in s.txs && u != t ensures key !in s.txs[u].writes {
      InvTx(s, u);
      TxParts(s.store, s.txs[u]);
      TxParts(s.store, s.txs[t]);
      hide NewRow, TxOk, Inv, ShapeOk, WritesOk, LocksOk, RowCovers, NothingMissed;
      assert WellFormed(s.store) by { InvWellFormed(s); }
      hide WellFormed;
      NoRowOfForeignVersion(s.store, s.txs[u], s.txs[t], key);
    }
    hide TxOk, Inv, NewRow, View, Parsed, HoldsLocks;
    OwnStepKeepsInv(s, s', t);
  }

  lemma InvWellFormed(s: State)
    requires Inv(s)
    ensures WellFormed(s.store) && IndexAgrees(s.store)
  {
    hide TxOk, IndexAgrees, WellFormed, Apart;
  }

  lemma ReresolveKeepsInv(s: State, s': State, t: TxId, title: string)
    requires Inv(s) && ReresolveTitle(s, s', t, title)
    ensures Inv(s')
  {
    InvTx(s, t);
    InvWellFormed(s);
    ReresolveKeepsTx(s, s', t, title);
    hide TxOk, Inv, Reresolve, View, WellFormed, IndexAgrees, Affected;
    OwnStepKeepsInv(s, s', t);
  }

  lemma CommitKeepsInv(s: State, s': State, t: TxId)
    requires Inv(s) && Commit(s, s', t)
    ensures Inv(s')
  {
    InvTx(s, t);
    InvWellFormed(s);
    CommitAgrees(s.store, s.txs[t]);
    forall u | u in s'.txs ensures TxOk(s'.store, s'.txs[u]) {
      InvTx(s, u);
      hide TxOk, WellFormed, IndexAgrees, Apart, Finished, View;
      CommitKeepsTx(s.store, s.txs[t], s.txs[u]);
    }
    hide TxOk, WellFormed, IndexAgrees, Apart, Finished, View;
  }

  lemma RollbackKeepsInv(s: State, s': State, t: TxId)
    requires Inv(s) && Rollback(s, s', t)
    ensures Inv(s')
  {
    hide TxOk, WellFormed, IndexAgrees, Apart;
  }

  lemma StepKeepsInv(s: State, s': State, t: TxId)
    requires Inv(s) && Step(s, s', t)
    ensures Inv(s')
  {
    hide Inv, Begin, LockTitle, StaleOlder, InsertNext, ReresolveTitle, Commit, Rollback;
    if tx :| Begin(s, s', t, tx) {
      BeginKeepsInv(s, s', t, tx);
    } else if title :| LockTitle(s, s', t, title) {
      LockKeepsInv(s, s', t, title);
    } else if StaleOlder(s, s', t) {
      StaleKeepsInv(s, s', t);
    } else if InsertNext(s, s', t) {
      InsertKeepsInv(s, s', t);
    } else if title :| ReresolveTitle(s, s', t, title) {
      ReresolveKeepsInv(s, s', t, title);
    } else if Commit(s, s', t) {
      CommitKeepsInv(s, s', t);
    } else {
      RollbackKeepsInv(s, s', t);
    }
  }

  /**
   * The index is never wrong at a commit point: in every state of every run, under any
   * interleaving of transactions, the committed rows of every current version are exactly those a
   * rebuild over the committed titles would store, and rows of older versions are stale.
   */
  lemma {:induction false} EveryRunAgrees(run: seq<State>, i: nat)
    requires IsRun(run) && i < |run|
    ensures Inv(run[i])
    ensures WellFormed(run[i].store) && IndexAgrees(run[i].store) && IndexIsExact(run[i].store)
  {
    hide IndexIsExact;
    if i == 0 {
      hide WellFormed, IndexAgrees;
    } else {
      hide Inv;
      EveryRunAgrees(run, i - 1);
      hide Step;
      assert Next(run[i - 1], run[i - 1 + 1]);
      var t: TxId :| Step(run[i - 1], run[i], t);
      StepKeepsInv(run[i - 1], run[i], t);
    }
    InvWellFormed(run[i]);
    AgreementIsExact(run[i].store);
  }

  /** The same, row by row: a committed live wikilink shows exactly which active objects hold its title. */
  lemma CommittedLinksResolve(run: seq<State>, i: nat, k: RowKey)
    requires IsRun(run) && i < |run| && k in run[i].store.references
    requires run[i].store.references[k].parsed.kind == Wikilink && run[i].store.references[k].status != StatusStale
    ensures var store := run[i].store;
            var r := store.references[k];
            var holders := Titled(store.objects, store.versions, r.workspace, r.parsed.rawTarget);
            && (forall o: ObjectId :: r.target == Some(o) <==> holders == {o})
            && (r.status == StatusResolved <==> |holders| == 1)
            && (r.status == StatusUnresolved <==> holders == {})
            && (r.status == StatusAmbiguous <==> |holders| > 1)
  {
    EveryRunAgrees(run, i);
    var store := run[i].store;
    var r := store.references[k];
    hide Inv, ResolveIn, ParsedBody, Titled;
    assert RowWellFormed(store, k, r) && k == (k.0, k.1);
    assert VersionIsIndexed(store, r.source, k.0);
  }
}
