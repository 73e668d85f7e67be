/**
 * Ranked search results: one best row per object version, one total order, and pages joined by a
 * cursor. Ranks are abstract ordered values.
 */
module SearchPaging {
  import opened Prelude
  import Sorting

  type Id = nat

  /** In collation order. */
  datatype Category = Body | Metadata | Title

  datatype Row = Row(target: Id, version: Id, number: int, category: Category, rank: int, text: string)

  datatype Cursor = Cursor(rank: int, target: Id, number: int, version: Id)

  datatype Page = Page(items: seq<Row>, next: Option<Cursor>)

  // ---------------------------------------------------------------- deduplication

  predicate SameVersion(a: Row, b: Row) {
    a.target == b.target && a.version == b.version
  }

  predicate CategoryLeq(a: Category, b: Category) {
    a == b || a.Body? || b.Title?
  }

  /** `rank DESC, category` within one version. */
  predicate Better(a: Row, b: Row) {
    a.rank > b.rank || (a.rank == b.rank && CategoryLeq(a.category, b.category))
  }

  /** `object_id, version_id, rank DESC, category`. */
  predicate DedupLeq(a: Row, b: Row) {
    || a.target < b.target
    || (a.target == b.target && (a.version < b.version || (a.version == b.version && Better(a, b))))
  }

  function Deduplicated(rows: seq<Row>): seq<Row> {
    Sorting.FirstOfGroups(SameVersion, DedupLeq, rows)
  }

  lemma VersionsGroup()
    ensures Sorting.TotalPreorder(DedupLeq) && Sorting.Groups(SameVersion, DedupLeq)
  {
  }

  lemma DeduplicatedFirsts(rows: seq<Row>)
    ensures Sorting.AreFirsts(SameVersion, DedupLeq, rows, Deduplicated(rows))
  {
    VersionsGroup();
    Sorting.FirstOfGroupsSpec(SameVersion, DedupLeq, rows);
  }

  /** The best row of a version found: the highest rank, then body before metadata before title. */
  ghost predicate IsBest(rows: seq<Row>, r: Row) {
    && r in rows
    && forall x :: x in rows && x.target == r.target && x.version == r.version ==>
         && x.rank <= r.rank
         && (x.rank == r.rank ==> (r.category.Title? ==> x.category.Title?) && (x.category.Body? ==> r.category.Body?))
  }

  lemma FirstIsBest(rows: seq<Row>, r: Row)
    requires Sorting.IsFirst(SameVersion, DedupLeq, rows, r)
    ensures IsBest(rows, r)
  {
    forall x | x in rows && x.target == r.target && x.version == r.version ensures DedupLeq(r, x)
    {
      assert SameVersion(x, r);
    }
  }

  /** The deduplicated result holds exactly one row per version found, its best one. */
  lemma DeduplicatedIsBest(rows: seq<Row>)
    ensures var d := Deduplicated(rows);
            forall i, j :: 0 <= i < j < |d| ==> d[i].target != d[j].target || d[i].version != d[j].version
    ensures forall x :: x in rows ==>
              exists r :: r in Deduplicated(rows) && r.target == x.target && r.version == x.version
    ensures forall r :: r in Deduplicated(rows) ==> IsBest(rows, r)
  {
    var d := Deduplicated(rows);
    DeduplicatedFirsts(rows);
    hide Deduplicated;
    forall i, j | 0 <= i < j < |d| ensures d[i].target != d[j].target || d[i].version != d[j].version {
      assert !SameVersion(d[i], d[j]);
    }
    forall x | x in rows ensures exists r :: r in d && r.target == x.target && r.version == x.version {
      assert Sorting.HasGroup(SameVersion, d, x);
      var i :| 0 <= i < |d| && SameVersion(d[i], x);
      assert d[i] in d;
    }
    hide DedupLeq, Sorting.IsFirst;
    forall r | r in d ensures IsBest(rows, r) {
      FirstIsBest(rows, r);
    }
  }

  // ---------------------------------------------------------------- the order and the cursor

  /** `rank DESC, object_id, version_number DESC, version_id`. */
  predicate OrderLeq(a: Row, b: Row) {
    || a.rank > b.rank
    || (a.rank == b.rank
        && (a.target < b.target
            || (a.target == b.target
                && (a.number > b.number || (a.number == b.number && a.version <= b.version)))))
  }

  predicate IsAfter(cursor: Option<Cursor>, row: Row) {
    match cursor
    case None => true
    case Some(c) =>
      || row.rank < c.rank
      || (row.rank == c.rank && row.target > c.target)
      || (row.rank == c.rank && row.target == c.target && row.number < c.number)
      || (row.rank == c.rank && row.target == c.target && row.number == c.number && row.version > c.version)
  }

  function CursorOf(row: Row): Cursor {
    Cursor(row.rank, row.target, row.number, row.version)
  }

  /** The four-way predicate is strict succession among rows of distinct versions. */
  lemma CursorIsSuccession(last: Row, row: Row)
    ensures IsAfter(Some(CursorOf(last)), row) <==> OrderLeq(last, row) && !OrderLeq(row, last)
    ensures !SameVersion(last, row) ==> (IsAfter(Some(CursorOf(last)), row) <==> OrderLeq(last, row))
  {
  }

  lemma OrderLeqIsTotal()
    ensures Sorting.TotalPreorder(OrderLeq)
  {
  }

  lemma OrderTellsVersionsApart(d: seq<Row>)
    requires Sorting.OnePerGroup(SameVersion, d)
    ensures Sorting.AntisymmetricOn(OrderLeq, d)
  {
    forall a, b | a in d && b in d && OrderLeq(a, b) && OrderLeq(b, a) ensures a == b {
      assert SameVersion(a, b);
      var i :| 0 <= i < |d| && d[i] == a;
      var j :| 0 <= j < |d| && d[j] == b;
    }
  }

  // ---------------------------------------------------------------- one page

  function Filter<T>(p: T -> bool, xs: seq<T>): seq<T> {
    if xs == [] then [] else (if p(xs[0]) then [xs[0]] else []) + Filter(p, xs[1..])
  }

  /** The search query: matching rows deduplicated, cut by the cursor, ordered and limited. */
  function SearchDocuments(rows: seq<Row>, cursor: Option<Cursor>, limit: nat): seq<Row> {
    Take(Sorting.SortBy(OrderLeq, Filter(row => IsAfter(cursor, row), Deduplicated(rows))), limit)
  }

  /** Drops the look-ahead row and remembers the last row kept. */
  function MakePage(items: seq<Row>, limit: nat): Page
    requires limit > 0
  {
    if |items| > limit then Page(items[..limit], Some(CursorOf(items[limit - 1]))) else Page(items, None)
  }

  function SearchPage(rows: seq<Row>, cursor: Option<Cursor>, limit: nat): Page
    requires limit > 0
  {
    MakePage(SearchDocuments(rows, cursor, limit + 1), limit)
  }

  /** Every deduplicated row in result order. */
  function AllResults(rows: seq<Row>): seq<Row> {
    Sorting.SortBy(OrderLeq, Deduplicated(rows))
  }

  lemma AllResultsAreOrdered(rows: seq<Row>)
    ensures multiset(AllResults(rows)) == multiset(Deduplicated(rows))
    ensures Sorting.SortedBy(OrderLeq, AllResults(rows))
    ensures Sorting.OnePerGroup(SameVersion, Deduplicated(rows))
    ensures Sorting.AntisymmetricOn(OrderLeq, AllResults(rows)) && Sorting.NoRepeats(AllResults(rows))
  {
    DeduplicatedFirsts(rows);
    Sorting.PermutedNoRepeats(Deduplicated(rows), AllResults(rows));
    OrderLeqIsTotal();
    Sorting.SortBySorts(OrderLeq, Deduplicated(rows));
    OrderTellsVersionsApart(Deduplicated(rows));
    Sorting.PermutedAntisymmetric(OrderLeq, Deduplicated(rows), AllResults(rows));
  }

  // ---------------------------------------------------------------- paging

  lemma {:induction false} FilterCounts<T>(p: T -> bool, xs: seq<T>, x: T)
    ensures multiset(Filter(p, xs))[x] == if p(x) then multiset(xs)[x] else 0
  {
    if xs != [] {
      FilterCounts(p, xs[1..], x);
      assert xs == [xs[0]] + xs[1..];
    }
  }

  lemma FilterPermutes<T(!new)>(p: T -> bool, xs: seq<T>, ys: seq<T>)
    requires multiset(xs) == multiset(ys)
    ensures multiset(Filter(p, xs)) == multiset(Filter(p, ys))
  {
    var a, b := multiset(Filter(p, xs)), multiset(Filter(p, ys));
    forall x ensures a[x] == b[x] {
      FilterCounts(p, xs, x);
      FilterCounts(p, ys, x);
    }
    assert a == b;
  }

  lemma {:induction false} FilterSplit<T>(p: T -> bool, xs: seq<T>, k: nat)
    requires k <= |xs|
    requires forall i :: 0 <= i < k ==> !p(xs[i])
    requires forall i :: k <= i < |xs| ==> p(xs[i])
    ensures Filter(p, xs) == xs[k..]
  {
    if xs != [] {
      FilterSplit(p, xs[1..], if k == 0 then 0 else k - 1);
    }
  }

  /** The cursor left behind by the first `k` results. */
  predicate PointsAt(rows: seq<Row>, cursor: Option<Cursor>, k: nat) {
    || (k == 0 && cursor.None?)
    || (0 < k <= |AllResults(rows)| && cursor == Some(CursorOf(AllResults(rows)[k - 1])))
  }

  /** After the first `k` results the cursor admits exactly the others, in their order. */
  lemma CursorSplits(rows: seq<Row>, cursor: Option<Cursor>, k: nat, limit: nat)
    requires PointsAt(rows, cursor, k)
    ensures k <= |AllResults(rows)|
    ensures SearchDocuments(rows, cursor, limit) == Take(AllResults(rows)[k..], limit)
  {
    var s, d := AllResults(rows), Deduplicated(rows);
    var p := (row: Row) => IsAfter(cursor, row);
    AllResultsAreOrdered(rows);
    OrderLeqIsTotal();
    hide AllResults, Deduplicated, Sorting.OnePerGroup;
    if k > 0 {
      CursorAt(s, k);
    }
    FilterSplit(p, s, k);
    FilterPermutes(p, d, s);
    Sorting.SortBySorts(OrderLeq, Filter(p, d));
    hide OrderLeq, Filter, Sorting.TotalPreorder;
    Sorting.SortedUnique(OrderLeq, s[k..], Sorting.SortBy(OrderLeq, Filter(p, d)));
  }

  lemma CursorAt(s: seq<Row>, k: nat)
    requires Sorting.SortedBy(OrderLeq, s) && Sorting.AntisymmetricOn(OrderLeq, s) && Sorting.NoRepeats(s)
    requires 0 < k <= |s|
    ensures forall i :: 0 <= i < k ==> !IsAfter(Some(CursorOf(s[k - 1])), s[i])
    ensures forall i :: k <= i < |s| ==> IsAfter(Some(CursorOf(s[k - 1])), s[i])
  {
    forall i | 0 <= i < |s| ensures IsAfter(Some(CursorOf(s[k - 1])), s[i]) <==> k <= i {
      CursorIsSuccession(s[k - 1], s[i]);
      assert i < k - 1 ==> OrderLeq(s[i], s[k - 1]);
      assert k - 1 < i ==> OrderLeq(s[k - 1], s[i]) && s[k - 1] != s[i];
      assert s[i] in s && s[k - 1] in s;
    }
  }

  /** A client following cursors from the first page; the last page may still have a successor. */
  ghost predicate IsPageChain(rows: seq<Row>, limit: nat, pages: seq<Page>)
    requires limit > 0
  {
    && pages != [] && pages[0] == SearchPage(rows, None, limit)
    && forall i :: 0 <= i < |pages| - 1 ==> Leads(rows, limit, pages[i], pages[i + 1])
  }

  predicate Leads(rows: seq<Row>, limit: nat, page: Page, next: Page)
    requires limit > 0
  {
    page.next.Some? && next == SearchPage(rows, page.next, limit)
  }

  function Items(pages: seq<Page>): seq<Row> {
    if pages == [] then [] else Items(pages[..|pages| - 1]) + pages[|pages| - 1].items
  }

  /** The page after the first `k` results holds the next results and a cursor unless it is last. */
  lemma PageAt(rows: seq<Row>, cursor: Option<Cursor>, k: nat, limit: nat)
    requires limit > 0 && PointsAt(rows, cursor, k)
    ensures k <= |AllResults(rows)|
    ensures SearchPage(rows, cursor, limit).items == Take(AllResults(rows)[k..], limit)
    ensures SearchPage(rows, cursor, limit).next.Some? <==> k + limit < |AllResults(rows)|
    ensures k + limit < |AllResults(rows)| ==> PointsAt(rows, SearchPage(rows, cursor, limit).next, k + limit)
  {
    CursorSplits(rows, cursor, k, limit + 1);
    hide AllResults, SearchDocuments, MakePage, Take, CursorOf;
    PageOf(AllResults(rows), k, limit);
  }

  lemma PageOf(s: seq<Row>, k: nat, limit: nat)
    requires limit > 0 && k <= |s|
    ensures var page := MakePage(Take(s[k..], limit + 1), limit);
            && page.items == Take(s[k..], limit)
            && (page.next.Some? <==> k + limit < |s|)
            && (k + limit < |s| ==> page.next == Some(CursorOf(s[k + limit - 1])))
  {
    if k + limit < |s| {
      assert s[k..][..limit + 1][limit - 1] == s[k + limit - 1];
      assert s[k..][..limit + 1][..limit] == s[k..][..limit];
    }
  }

  /** The pages so far show the first `n` results, and the last cursor leads on from there. */
  ghost predicate Shown(rows: seq<Row>, pages: seq<Page>, n: nat) {
    && pages != []
    && Items(pages) == Take(AllResults(rows), n)
    && (pages[|pages| - 1].next.Some? <==> n < |AllResults(rows)|)
    && (n < |AllResults(rows)| ==> PointsAt(rows, pages[|pages| - 1].next, n))
  }

  lemma FirstPageShown(rows: seq<Row>, limit: nat)
    requires limit > 0
    ensures Shown(rows, [SearchPage(rows, None, limit)], limit)
  {
    var page := SearchPage(rows, None, limit);
    assert PointsAt(rows, None, 0);
    hide AllResults, SearchPage, PointsAt;
    PageAt(rows, None, 0, limit);
    assert AllResults(rows)[0..] == AllResults(rows);
    assert Items([page]) == page.items by { assert [page][..0] == []; }
  }

  lemma NextPageShown(rows: seq<Row>, limit: nat, pages: seq<Page>, n: nat, page: Page)
    requires limit > 0 && Shown(rows, pages, n) && Leads(rows, limit, pages[|pages| - 1], page)
    ensures n < |AllResults(rows)| && Shown(rows, pages + [page], n + limit)
  {
    hide AllResults, SearchPage, PointsAt;
    PageAt(rows, pages[|pages| - 1].next, n, limit);
    TakeMore(AllResults(rows), n, limit);
    assert (pages + [page])[..|pages|] == pages;
  }

  lemma ChainPrefix(rows: seq<Row>, limit: nat, pages: seq<Page>)
    requires limit > 0 && IsPageChain(rows, limit, pages) && |pages| > 1
    ensures IsPageChain(rows, limit, pages[..|pages| - 1])
    ensures Leads(rows, limit, pages[|pages| - 2], pages[|pages| - 1])
  {
    hide SearchPage, Leads;
    var init := pages[..|pages| - 1];
    forall i | 0 <= i < |init| - 1 ensures Leads(rows, limit, init[i], init[i + 1]) {
      assert Leads(rows, limit, pages[i], pages[i + 1]);
    }
    assert Leads(rows, limit, pages[|pages| - 2], pages[|pages| - 2 + 1]);
  }

  /** Each page of a chain adds `limit` results, and it is only asked for when there are more. */
  lemma {:induction false} ChainShows(rows: seq<Row>, limit: nat, pages: seq<Page>)
    requires limit > 0 && IsPageChain(rows, limit, pages)
    ensures Shown(rows, pages, |pages| * limit)
    ensures |pages| > 1 ==> (|pages| - 1) * limit < |AllResults(rows)|
    decreases |pages|
  {
    hide AllResults, SearchPage, Shown, Leads;
    var m := |pages| - 1;
    assert |pages| * limit == m * limit + limit;
    if m == 0 {
      FirstPageShown(rows, limit);
      assert pages == [SearchPage(rows, None, limit)];
    } else {
      var init := pages[..m];
      ChainPrefix(rows, limit, pages);
      hide IsPageChain;
      ChainShows(rows, limit, init);
      NextPageShown(rows, limit, init, m * limit, pages[m]);
      assert pages == init + [pages[m]];
    }
  }

  lemma TakeMore<T>(s: seq<T>, k: nat, limit: nat)
    requires k <= |s|
    ensures Take(s, k) + Take(s[k..], limit) == Take(s, k + limit)
  {
  }

  /** Higher rank first, then objects, then newer versions, and no version twice. */
  ghost predicate IsShownBefore(a: Row, b: Row) {
    && a.rank >= b.rank
    && (a.rank == b.rank ==> a.target <= b.target)
    && (a.rank == b.rank && a.target == b.target ==> a.number >= b.number)
    && (a.rank == b.rank && a.target == b.target && a.number == b.number ==> a.version < b.version)
  }

  lemma ResultsDescend(rows: seq<Row>)
    ensures var all := AllResults(rows);
            forall i, j :: 0 <= i < j < |all| ==> IsShownBefore(all[i], all[j])
  {
    var all := AllResults(rows);
    AllResultsAreOrdered(rows);
    Sorting.PermutedOnePerGroup(SameVersion, Deduplicated(rows), all);
    hide AllResults, Deduplicated;
    forall i, j | 0 <= i < j < |all| ensures IsShownBefore(all[i], all[j]) {
      assert OrderLeq(all[i], all[j]);
      assert !SameVersion(all[i], all[j]);
    }
  }

  /** Following cursors ends, and then every result has been shown exactly once, in order. */
  lemma PagingVisitsEachOnce(rows: seq<Row>, limit: nat, pages: seq<Page>)
    requires limit > 0 && IsPageChain(rows, limit, pages)
    ensures (|pages| - 1) * limit <= |AllResults(rows)|
    ensures pages[|pages| - 1].next.None? ==>
              && multiset(Items(pages)) == multiset(Deduplicated(rows))
              && forall i, j :: 0 <= i < j < |Items(pages)| ==> IsShownBefore(Items(pages)[i], Items(pages)[j])
  {
    ChainShows(rows, limit, pages);
    hide AllResults, IsPageChain, Deduplicated;
    assert |pages| == 1 ==> (|pages| - 1) * limit == 0;
    if pages[|pages| - 1].next.None? {
      AllResultsAreOrdered(rows);
      assert Items(pages) == AllResults(rows);
      ResultsDescend(rows);
    }
  }
}
