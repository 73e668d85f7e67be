/** Stable sorting by a comparison, as `Vec::sort_by` and SQL's `ORDER BY` do it. */
module Sorting {
  import opened Prelude

  ghost predicate TotalPreorder<T(!new)>(le: (T, T) -> bool) {
    && (forall x, y :: le(x, y) || le(y, x))
    && (forall x, y, z :: le(x, y) && le(y, z) ==> le(x, z))
  }

  ghost predicate AntisymmetricOn<T(!new)>(le: (T, T) -> bool, xs: seq<T>) {
    forall x, y :: x in xs && y in xs && le(x, y) && le(y, x) ==> x == y
  }

  ghost predicate SortedBy<T>(le: (T, T) -> bool, xs: seq<T>) {
    forall i, j :: 0 <= i < j < |xs| ==> le(xs[i], xs[j])
  }

  function InsertBy<T>(le: (T, T) -> bool, x: T, xs: seq<T>): (r: seq<T>)
    ensures multiset(r) == multiset([x]) + multiset(xs)
    ensures |r| == |xs| + 1
  {
    if xs == [] || le(x, xs[0]) then [x] + xs
    else
      assert xs == [xs[0]] + xs[1..];
      [xs[0]] + InsertBy(le, x, xs[1..])
  }

  /** Stable insertion sort; equal elements keep their input order. */
  function SortBy<T>(le: (T, T) -> bool, xs: seq<T>): (r: seq<T>)
    ensures multiset(r) == multiset(xs)
    ensures |r| == |xs|
  {
    if xs == [] then []
    else
      assert xs == [xs[0]] + xs[1..];
      InsertBy(le, xs[0], SortBy(le, xs[1..]))
  }

  lemma MultisetMembership<T>(xs: seq<T>, ys: seq<T>)
    requires multiset(xs) == multiset(ys)
    ensures forall x :: x in xs <==> x in ys
  {
    forall x ensures x in xs <==> x in ys {
      assert x in xs <==> x in multiset(xs);
      assert x in ys <==> x in multiset(ys);
    }
  }

  lemma {:induction false} InsertKeepsSorted<T(!new)>(le: (T, T) -> bool, x: T, xs: seq<T>)
    requires TotalPreorder(le) && SortedBy(le, xs)
    ensures SortedBy(le, InsertBy(le, x, xs))
  {
    if xs != [] && !le(x, xs[0]) {
      var rest := InsertBy(le, x, xs[1..]);
      InsertKeepsSorted(le, x, xs[1..]);
      forall j | 0 <= j < |rest| ensures le(xs[0], rest[j]) {
        assert rest[j] in multiset(rest);
        assert rest[j] == x || rest[j] in xs[1..];
      }
    }
  }

  lemma {:induction false} SortBySorts<T(!new)>(le: (T, T) -> bool, xs: seq<T>)
    requires TotalPreorder(le)
    ensures SortedBy(le, SortBy(le, xs))
  {
    if xs != [] {
      SortBySorts(le, xs[1..]);
      InsertKeepsSorted(le, xs[0], SortBy(le, xs[1..]));
    }
  }

  lemma SameLeast<T(!new)>(le: (T, T) -> bool, xs: seq<T>, ys: seq<T>)
    requires SortedBy(le, xs) && SortedBy(le, ys) && |xs| == |ys| > 0
    requires multiset(xs) == multiset(ys)
    requires TotalPreorder(le) && AntisymmetricOn(le, xs)
    ensures xs[0] == ys[0]
  {
    MultisetMembership(xs, ys);
    var x, y := xs[0], ys[0];
    assert x in ys && y in xs;
    var i :| 0 <= i < |ys| && ys[i] == x;
    var j :| 0 <= j < |xs| && xs[j] == y;
    assert le(x, x) && le(y, y);
    assert le(y, x) && le(x, y);
  }

  lemma PermutedAntisymmetric<T(!new)>(le: (T, T) -> bool, xs: seq<T>, ys: seq<T>)
    requires multiset(xs) == multiset(ys) && AntisymmetricOn(le, xs)
    ensures AntisymmetricOn(le, ys)
  {
    MultisetMembership(xs, ys);
  }

  lemma TailKeepsOrder<T(!new)>(le: (T, T) -> bool, xs: seq<T>)
    requires xs != [] && SortedBy(le, xs) && AntisymmetricOn(le, xs)
    ensures SortedBy(le, xs[1..]) && AntisymmetricOn(le, xs[1..])
  {
    hide TotalPreorder;
  }

  lemma TailMultiset<T>(xs: seq<T>)
    requires xs != []
    ensures xs == [xs[0]] + xs[1..]
    ensures multiset(xs[1..]) == multiset(xs) - multiset{xs[0]}
  {
    assert xs == [xs[0]] + xs[1..];
  }

  /** A sorted arrangement is unique when the comparison tells its elements apart. */
  lemma {:induction false} SortedUnique<T(!new)>(le: (T, T) -> bool, xs: seq<T>, ys: seq<T>)
    requires SortedBy(le, xs) && SortedBy(le, ys)
    requires multiset(xs) == multiset(ys)
    requires TotalPreorder(le) && AntisymmetricOn(le, xs)
    ensures xs == ys
  {
    hide TotalPreorder, AntisymmetricOn, SortedBy;
    assert |xs| == |multiset(xs)| == |multiset(ys)| == |ys|;
    if xs != [] {
      SameLeast(le, xs, ys);
      TailMultiset(xs);
      TailMultiset(ys);
      TailKeepsOrder(le, xs);
      PermutedAntisymmetric(le, xs, ys);
      TailKeepsOrder(le, ys);
      SortedUnique(le, xs[1..], ys[1..]);
    }
  }

  /** Drops consecutive repeats, as `Vec::dedup` does. */
  function Dedup<T(==)>(xs: seq<T>): seq<T> {
    if |xs| < 2 then xs
    else if xs[0] == xs[1] then Dedup(xs[1..])
    else [xs[0]] + Dedup(xs[1..])
  }

  ghost predicate StrictlySortedBy<T(!new)>(le: (T, T) -> bool, xs: seq<T>) {
    forall i, j :: 0 <= i < j < |xs| ==> le(xs[i], xs[j]) && xs[i] != xs[j]
  }

  lemma {:induction false} DedupElements<T>(xs: seq<T>)
    ensures forall x :: x in Dedup(xs) <==> x in xs
  {
    if |xs| >= 2 {
      DedupElements(xs[1..]);
      assert xs == [xs[0]] + xs[1..];
    }
  }

  lemma HeadBelowTail<T(!new)>(le: (T, T) -> bool, xs: seq<T>, x: T)
    requires SortedBy(le, xs) && AntisymmetricOn(le, xs)
    requires |xs| >= 2 && xs[0] != xs[1] && x in xs[1..]
    ensures le(xs[0], x) && xs[0] != x
  {
    var i :| 1 <= i < |xs| && xs[i] == x;
    assert i > 1 ==> le(xs[1], xs[i]);
    assert le(xs[0], xs[1]);
  }

  /** Deduplicating a sorted sequence makes the order strict. */
  lemma {:induction false} DedupSorted<T(!new)>(le: (T, T) -> bool, xs: seq<T>)
    requires SortedBy(le, xs) && AntisymmetricOn(le, xs)
    ensures StrictlySortedBy(le, Dedup(xs))
  {
    if |xs| >= 2 {
      TailKeepsOrder(le, xs);
      DedupSorted(le, xs[1..]);
      DedupElements(xs[1..]);
      var rest := Dedup(xs[1..]);
      if xs[0] != xs[1] {
        forall j | 0 <= j < |rest| ensures le(xs[0], rest[j]) && xs[0] != rest[j] {
          HeadBelowTail(le, xs, rest[j]);
        }
      }
    }
  }

  predicate NoRepeats<T(==)>(xs: seq<T>) {
    forall i, j :: 0 <= i < j < |xs| ==> xs[i] != xs[j]
  }

  lemma {:induction false} NoRepeatsCounts<T>(xs: seq<T>, x: T)
    requires NoRepeats(xs)
    ensures multiset(xs)[x] <= 1
  {
    if xs != [] {
      NoRepeatsCounts(xs[1..], x);
      TailMultiset(xs);
      assert xs[0] !in xs[1..];
    }
  }

  /** Rearranging cannot introduce repeats. */
  lemma PermutedNoRepeats<T>(xs: seq<T>, ys: seq<T>)
    requires NoRepeats(xs) && multiset(xs) == multiset(ys)
    ensures NoRepeats(ys)
  {
    forall i, j | 0 <= i < j < |ys| ensures ys[i] != ys[j] {
      assert ys == ys[..j] + ys[j..];
      assert ys[i] in ys[..j] && ys[j] in ys[j..];
      NoRepeatsCounts(xs, ys[j]);
    }
  }

  // ---------------------------------------------------------------- the first row of each group

  /** Keeps the first row of each run of rows of one group, as `DISTINCT ON` does. */
  function DistinctOn<T>(same: (T, T) -> bool, rows: seq<T>): seq<T> {
    var n := |rows|;
    if n == 0 then []
    else DistinctOn(same, rows[..n - 1]) + (if n > 1 && same(rows[n - 2], rows[n - 1]) then [] else [rows[n - 1]])
  }

  /** Sorts by `le` and keeps the first row of each group. */
  function FirstOfGroups<T>(same: (T, T) -> bool, le: (T, T) -> bool, rows: seq<T>): seq<T> {
    DistinctOn(same, SortBy(le, rows))
  }

  /** `same` is an equivalence whose groups `le` keeps together. */
  ghost predicate Groups<T(!new)>(same: (T, T) -> bool, le: (T, T) -> bool) {
    && (forall x, y :: same(x, y) ==> same(y, x))
    && (forall x, y, z :: same(x, y) && same(y, z) ==> same(x, z))
    && (forall x :: same(x, x))
    && (forall x, y, z :: le(x, y) && le(y, z) && same(x, z) ==> same(y, z))
  }

  /** A row that no other row of its group comes before. */
  ghost predicate IsFirst<T(!new)>(same: (T, T) -> bool, le: (T, T) -> bool, rows: seq<T>, r: T) {
    r in rows && forall x :: x in rows && same(x, r) ==> le(r, x)
  }

  predicate HasGroup<T>(same: (T, T) -> bool, firsts: seq<T>, x: T) {
    exists i :: 0 <= i < |firsts| && same(firsts[i], x)
  }

  predicate OnePerGroup<T>(same: (T, T) -> bool, firsts: seq<T>) {
    forall i, j :: 0 <= i < j < |firsts| ==> !same(firsts[i], firsts[j])
  }

  /** Exactly one row per group, each a first one. */
  ghost predicate AreFirsts<T(!new)>(same: (T, T) -> bool, le: (T, T) -> bool, rows: seq<T>, firsts: seq<T>) {
    && OnePerGroup(same, firsts)
    && (forall r :: r in firsts ==> IsFirst(same, le, rows, r))
    && (forall x :: x in rows ==> HasGroup(same, firsts, x))
  }

  lemma SkipKeepsFirsts<T(!new)>(same: (T, T) -> bool, le: (T, T) -> bool, init: seq<T>, firsts: seq<T>, x: T, y: T)
    requires Groups(same, le) && AreFirsts(same, le, init, firsts) && y in init && same(y, x)
    requires forall z :: z in init && same(z, x) ==> le(z, x)
    ensures AreFirsts(same, le, init + [x], firsts)
  {
    hide OnePerGroup;
    forall r | r in firsts ensures IsFirst(same, le, init + [x], r) {
      assert IsFirst(same, le, init, r);
    }
    var k :| 0 <= k < |firsts| && same(firsts[k], y);
    assert same(firsts[k], x);
    assert HasGroup(same, firsts, x);
  }

  lemma AddKeepsFirsts<T(!new)>(same: (T, T) -> bool, le: (T, T) -> bool, init: seq<T>, firsts: seq<T>, x: T)
    requires Groups(same, le) && AreFirsts(same, le, init, firsts) && le(x, x)
    requires forall z :: z in init ==> !same(z, x)
    ensures AreFirsts(same, le, init + [x], firsts + [x])
  {
    var e := firsts + [x];
    forall r | r in e ensures IsFirst(same, le, init + [x], r) {
      assert r in firsts ==> IsFirst(same, le, init, r);
    }
    forall i | 0 <= i < |firsts| ensures !same(firsts[i], x) {
      assert IsFirst(same, le, init, firsts[i]);
    }
    forall y | y in init + [x] ensures HasGroup(same, e, y) {
      if y in init {
        var k :| 0 <= k < |firsts| && same(firsts[k], y);
        assert e[k] == firsts[k];
      } else {
        assert same(e[|firsts|], y);
      }
    }
  }

  lemma {:induction false} DistinctOnFirsts<T(!new)>(same: (T, T) -> bool, le: (T, T) -> bool, rows: seq<T>)
    requires SortedBy(le, rows) && TotalPreorder(le) && Groups(same, le)
    ensures AreFirsts(same, le, rows, DistinctOn(same, rows))
  {
    var n := |rows|;
    if n > 0 {
      var init, x := rows[..n - 1], rows[n - 1];
      DistinctOnFirsts(same, le, init);
      assert rows == init + [x];
      forall z | z in init ensures same(z, x) ==> same(rows[n - 2], x) && le(z, x) {
        var i :| 0 <= i < n - 1 && rows[i] == z;
        assert le(rows[i], x) && le(rows[n - 2], x);
        assert i < n - 2 ==> le(rows[i], rows[n - 2]);
      }
      var skipped := n > 1 && same(rows[n - 2], x);
      assert DistinctOn(same, rows) == DistinctOn(same, init) + (if skipped then [] else [x]);
      hide DistinctOn, AreFirsts, Groups;
      if skipped {
        assert init[n - 2] == rows[n - 2];
        SkipKeepsFirsts(same, le, init, DistinctOn(same, init), x, rows[n - 2]);
        assert DistinctOn(same, rows) == DistinctOn(same, init);
      } else {
        AddKeepsFirsts(same, le, init, DistinctOn(same, init), x);
      }
    }
  }

  /** Sorting and keeping the first row of each run yields exactly one first row per group. */
  lemma FirstOfGroupsSpec<T(!new)>(same: (T, T) -> bool, le: (T, T) -> bool, rows: seq<T>)
    requires TotalPreorder(le) && Groups(same, le)
    ensures AreFirsts(same, le, rows, FirstOfGroups(same, le, rows))
  {
    var sorted := SortBy(le, rows);
    SortBySorts(le, rows);
    DistinctOnFirsts(same, le, sorted);
    MultisetMembership(rows, sorted);
    hide DistinctOn, HasGroup, OnePerGroup, TotalPreorder, Groups;
    forall r | r in FirstOfGroups(same, le, rows) ensures IsFirst(same, le, rows, r) {
      assert IsFirst(same, le, sorted, r);
    }
  }

  /** Filtering keeps one row per group when results of one group come from rows of one group. */
  lemma FilterMapOnePerGroup<A(!new), B(!new)>(f: A -> Option<B>, xs: seq<A>, same: (A, A) -> bool,
                                               same': (B, B) -> bool)
    requires OnePerGroup(same, xs)
    requires forall x, y :: f(x).Some? && f(y).Some? && same'(f(x).value, f(y).value) ==> same(x, y)
    ensures OnePerGroup(same', FilterMap(f, xs))
  {
    var rows := FilterMap(f, xs);
    forall i, j | 0 <= i < j < |rows| ensures !same'(rows[i], rows[j]) {
      SourceIndexMonotone(f, xs, i, j);
      assert !same(xs[SourceIndex(f, xs, i)], xs[SourceIndex(f, xs, j)]);
    }
  }

  /** Rearranging cannot put two rows into one group. */
  lemma PermutedOnePerGroup<T(!new)>(same: (T, T) -> bool, xs: seq<T>, ys: seq<T>)
    requires OnePerGroup(same, xs) && multiset(xs) == multiset(ys)
    requires (forall x :: same(x, x)) && (forall x, y :: same(x, y) ==> same(y, x))
    ensures OnePerGroup(same, ys)
  {
    PermutedNoRepeats(xs, ys);
    MultisetMembership(xs, ys);
    forall i, j | 0 <= i < j < |ys| ensures !same(ys[i], ys[j]) {
      assert ys[i] in xs && ys[j] in xs;
      var k :| 0 <= k < |xs| && xs[k] == ys[i];
      var l :| 0 <= l < |xs| && xs[l] == ys[j];
      assert k != l;
    }
  }
}
