/**
 * Concurrent reference maintenance as a state machine.
 *
 * A transaction changes one object under its row lock, acquires the title locks it needs, and then
 * runs the maintenance statements one at a time. Every statement sees the committed tables overlaid
 * with the transaction's own writes; row and title locks are held until commit or rollback.
 */
module ReferenceProtocol {
  import opened Prelude
  import opened ReferenceParser
  import opened Store
  import opened ReferenceIndex
  import opened ReferenceAgreement

  type TxId = nat

  /** One transaction in flight. `rebuilds` is the new version when outgoing rows are rebuilt. */
  datatype Tx = Tx(
    workspace: WorkspaceId,
    source: ObjectId,
    row: ObjectRow,
    rebuilds: Option<VersionId>,
    titles: seq<string>,
    locked: set<string>,
    writes: References,
    staled: bool,
    inserted: nat,
    done: set<string>)

  /** Committed tables, with version rows appended as soon as they are written: they are immutable. */
  datatype State = State(store: Db, txs: map<TxId, Tx>)

  function View(store: Db, tx: Tx): Db {
    store.(objects := store.objects[tx.source := tx.row], references := store.references + tx.writes)
  }

  function Affected(tx: Tx): set<string> {
    NormalizedTitles(tx.titles)
  }

  ghost function Parsed(store: Db, tx: Tx): seq<ParsedReference> {
    if tx.rebuilds.Some? && tx.rebuilds.value in store.versions then ParsedBody(store, tx.rebuilds.value) else []
  }

  /** The title locks a transaction takes before its first maintenance statement. */
  ghost function TitlesToLock(store: Db, tx: Tx): set<string> {
    WikilinkTitles(Parsed(store, tx)) + Affected(tx)
  }

  /** The transition changes which titles `source` holds only within the reported ones. */
  ghost predicate RowCovers(store: Db, tx: Tx) {
    forall w: WorkspaceId, t: string ::
      (tx.source in store.objects && Holds(store.objects[tx.source], tx.source, store.versions, w, t))
      != Holds(tx.row, tx.source, store.versions, w, t)
      ==> w == tx.workspace && t in tx.titles
  }

  // ---------------------------------------------------------------- transitions

  /** The object change a transaction starts with, under the object's row lock. */
  ghost predicate Changes(store: Db, store': Db, tx: Tx) {
    && store'.activeWorkspaces == store.activeWorkspaces
    && store'.objects == store.objects && store'.references == store.references
    && tx.workspace == tx.row.workspace
    && (match tx.rebuilds
        case Some(version) =>
          // A creation or an edit writes a new version and makes it current.
          && version !in store.versions
          && (exists row: Version :: row.owner == tx.source && store'.versions == store.versions[version := row])
          && tx.row.current == Some(version) && !tx.row.archived
          && (tx.source in store.objects ==>
                store.objects[tx.source].workspace == tx.workspace
                && store.objects[tx.source].current.Some? && !store.objects[tx.source].archived)
        case None =>
          // An archival or unarchival keeps the current version.
          && store'.versions == store.versions
          && tx.source in store.objects && store.objects[tx.source].current.Some?
          && tx.row == store.objects[tx.source].(archived := !store.objects[tx.source].archived))
  }

  ghost predicate Begin(s: State, s': State, t: TxId, tx: Tx) {
    && t !in s.txs
    && (forall u :: u in s.txs ==> s.txs[u].source != tx.source)
    && Changes(s.store, s'.store, tx)
    && RowCovers(s'.store, tx)
    && tx.locked == {} && tx.writes == map[] && !tx.staled && tx.inserted == 0 && tx.done == {}
    && s'.txs == s.txs[t := tx]
  }

  ghost predicate LockTitle(s: State, s': State, t: TxId, title: string) {
    && t in s.txs
    && var tx := s.txs[t];
    && title in TitlesToLock(s.store, tx)
    && (forall u :: u in s.txs && u != t && s.txs[u].workspace == tx.workspace ==> title !in s.txs[u].locked)
    && s' == State(s.store, s.txs[t := tx.(locked := tx.locked + {title})])
  }

  predicate WritableBy(s: State, t: TxId, k: RowKey) {
    forall u :: u in s.txs && u != t ==> k !in s.txs[u].writes
  }

  ghost predicate HoldsLocks(s: State, tx: Tx) {
    TitlesToLock(s.store, tx) <= tx.locked
  }

  /** The changes of a statement, as writes. */
  function Delta(before: References, after: References): References {
    map k | k in before && k in after && before[k] != after[k] :: after[k]
  }

  /** Marks the source's older rows stale. The new version has no rows yet, so nothing is deleted. */
  ghost predicate StaleOlder(s: State, s': State, t: TxId) {
    && t in s.txs
    && var tx := s.txs[t];
    && tx.rebuilds.Some? && !tx.staled && HoldsLocks(s, tx)
    && var view := View(s.store, tx);
    && var delta := Delta(view.references, MarkStale(view.references, tx.workspace, tx.source, tx.rebuilds.value));
    && (forall k :: k in delta ==> WritableBy(s, t, k))
    && s' == State(s.store, s.txs[t := tx.(staled := true, writes := tx.writes + delta)])
  }

  /** Resolves and inserts the next outgoing reference. */
  ghost predicate InsertNext(s: State, s': State, t: TxId) {
    && t in s.txs
    && var tx := s.txs[t];
    && tx.rebuilds.Some? && tx.staled && tx.inserted < |Parsed(s.store, tx)| && HoldsLocks(s, tx)
    && var row := NewRow(View(s.store, tx), tx.workspace, tx.source, tx.rebuilds.value,
                         Parsed(s.store, tx)[tx.inserted]);
    && s' == State(s.store, s.txs[t := tx.(inserted := tx.inserted + 1,
                                           writes := tx.writes[(tx.rebuilds.value, tx.inserted) := row])])
  }

  ghost predicate Rebuilt(store: Db, tx: Tx) {
    tx.rebuilds.Some? ==> tx.staled && tx.inserted == |Parsed(store, tx)|
  }

  /** Re-resolves the live wikilinks of one affected title. */
  ghost predicate ReresolveTitle(s: State, s': State, t: TxId, title: string) {
    && t in s.txs
    && var tx := s.txs[t];
    && Rebuilt(s.store, tx) && HoldsLocks(s, tx)
    && title in Affected(tx) && title !in tx.done
    && var view := View(s.store, tx);
    && var delta := Delta(view.references, Reresolve(view, tx.workspace, {title}));
    && (forall k :: k in delta ==> WritableBy(s, t, k))
    && s' == State(s.store, s.txs[t := tx.(done := tx.done + {title}, writes := tx.writes + delta)])
  }

  ghost predicate Finished(store: Db, tx: Tx) {
    Rebuilt(store, tx) && tx.done == Affected(tx)
  }

  ghost predicate Commit(s: State, s': State, t: TxId) {
    && t in s.txs
    && Finished(s.store, s.txs[t])
    && s' == State(View(s.store, s.txs[t]), s.txs - {t})
  }

  ghost predicate Rollback(s: State, s': State, t: TxId) {
    t in s.txs && s' == State(s.store, s.txs - {t})
  }

  /** One step of one transaction. */
  ghost predicate Step(s: State, s': State, t: TxId) {
    || (exists tx :: Begin(s, s', t, tx))
    || (exists title :: LockTitle(s, s', t, title))
    || StaleOlder(s, s', t)
    || InsertNext(s, s', t)
    || (exists title :: ReresolveTitle(s, s', t, title))
    || Commit(s, s', t)
    || Rollback(s, s', t)
  }

  ghost predicate Next(s: State, s': State) {
    exists t: TxId :: Step(s, s', t)
  }

  ghost predicate Init(s: State) {
    s.txs == map[] && WellFormed(s.store) && IndexAgrees(s.store)
  }

  ghost predicate IsRun(run: seq<State>) {
    run != [] && Init(run[0]) && forall i :: 0 <= i < |run| - 1 ==> Next(run[i], run[i + 1])
  }
}
