/**
 * What a left-to-right scanner is meant to find: the greedy choice of non-overlapping matches.
 *
 * `at(s)` is the exclusive end of the match that starts exactly at `s`, when there is one.
 */
module LeftmostScan {
  import opened Prelude

  type Matcher = nat -> Option<nat>

  /** Matches are non-empty and lie within a text of length `n`. */
  ghost predicate Bounded(at: Matcher, n: nat) {
    forall s: nat :: at(s).Some? ==> s < at(s).value <= n
  }

  /**
   * The declarative specification. `spans` are matches (soundness), in increasing order without
   * overlap, and every match starting at or after `c` starts inside one of them (completeness).
   */
  ghost predicate IsLeftmostScan(at: Matcher, c: nat, spans: seq<(nat, nat)>) {
    && (forall i :: 0 <= i < |spans| ==> c <= spans[i].0 && at(spans[i].0) == Some(spans[i].1))
    && (forall i, j :: 0 <= i < j < |spans| ==> spans[i].1 <= spans[j].0)
    && (forall s: nat {:trigger Covered(spans, s)} :: c <= s && at(s).Some? ==> Covered(spans, s))
  }

  ghost predicate Covered(spans: seq<(nat, nat)>, s: nat) {
    exists i :: 0 <= i < |spans| && spans[i].0 <= s < spans[i].1
  }

  /** The greedy scan from `c`: take the match at `c` and jump past it, else step by one. */
  ghost function Scan(at: Matcher, c: nat, n: nat): seq<(nat, nat)>
    requires Bounded(at, n)
    decreases n - c
  {
    if n <= c then []
    else match at(c)
      case Some(e) => [(c, e)] + Scan(at, e, n)
      case None => Scan(at, c + 1, n)
  }

  lemma PrependMatch(at: Matcher, c: nat, e: nat, rest: seq<(nat, nat)>)
    requires at(c) == Some(e) && c < e
    requires IsLeftmostScan(at, e, rest)
    ensures IsLeftmostScan(at, c, [(c, e)] + rest)
  {
    var spans := [(c, e)] + rest;
    forall s: nat | c <= s && at(s).Some? ensures Covered(spans, s) {
      if s < e {
        assert spans[0].0 <= s < spans[0].1;
      } else {
        assert Covered(rest, s);
        var i :| 0 <= i < |rest| && rest[i].0 <= s < rest[i].1;
        assert spans[i + 1] == rest[i];
      }
    }
  }

  lemma StepOver(at: Matcher, c: nat, rest: seq<(nat, nat)>)
    requires at(c).None?
    requires IsLeftmostScan(at, c + 1, rest)
    ensures IsLeftmostScan(at, c, rest)
  {
  }

  lemma {:induction false} ScanIsLeftmost(at: Matcher, c: nat, n: nat)
    requires Bounded(at, n)
    ensures IsLeftmostScan(at, c, Scan(at, c, n))
    decreases n - c
  {
    if c < n {
      hide IsLeftmostScan;
      match at(c)
      case None =>
        ScanIsLeftmost(at, c + 1, n);
        StepOver(at, c, Scan(at, c + 1, n));
      case Some(e) =>
        ScanIsLeftmost(at, e, n);
        PrependMatch(at, c, e, Scan(at, e, n));
    }
  }

  lemma DropMatch(at: Matcher, c: nat, e: nat, spans: seq<(nat, nat)>)
    requires spans != [] && spans[0] == (c, e) && c < e
    requires IsLeftmostScan(at, c, spans)
    ensures IsLeftmostScan(at, e, spans[1..])
  {
    var rest := spans[1..];
    forall i | 0 <= i < |rest| ensures e <= rest[i].0 && at(rest[i].0) == Some(rest[i].1) {
      assert rest[i] == spans[i + 1] && spans[0].1 <= spans[i + 1].0;
    }
    forall s: nat | e <= s && at(s).Some? ensures Covered(rest, s) {
      assert Covered(spans, s);
      var i :| 0 <= i < |spans| && spans[i].0 <= s < spans[i].1;
      assert i != 0 && rest[i - 1] == spans[i];
    }
  }

  /** The declarative specification has exactly one solution. */
  lemma {:induction false} LeftmostScanUnique(at: Matcher, c: nat, n: nat, spans: seq<(nat, nat)>)
    requires Bounded(at, n)
    requires IsLeftmostScan(at, c, spans)
    ensures spans == Scan(at, c, n)
    decreases n - c
  {
    if n <= c {
      if spans != [] {
        assert false;
      }
    } else if at(c).None? {
      forall i | 0 <= i < |spans| ensures c + 1 <= spans[i].0 {
        assert at(spans[i].0).Some?;
      }
      LeftmostScanUnique(at, c + 1, n, spans);
    } else {
      var e := at(c).value;
      assert Covered(spans, c);
      var k :| 0 <= k < |spans| && spans[k].0 <= c < spans[k].1;
      assert spans[k] == (c, e);
      if k > 0 {
        assert false;
      }
      assert spans == [(c, e)] + spans[1..];
      DropMatch(at, c, e, spans);
      LeftmostScanUnique(at, e, n, spans[1..]);
    }
  }

  /** What a scanner collects from `c` on: the present readings of the scan's matches. */
  ghost function Collect<R>(at: Matcher, read: ((nat, nat)) -> Option<R>, c: nat, n: nat): seq<R>
    requires Bounded(at, n)
  {
    FilterMap(read, Scan(at, c, n))
  }

  lemma CollectMatch<R>(at: Matcher, read: ((nat, nat)) -> Option<R>, c: nat, e: nat, n: nat)
    requires Bounded(at, n) && at(c) == Some(e)
    ensures Collect(at, read, c, n) == OptionToSeq(read((c, e))) + Collect(at, read, e, n)
  {
    var rest := Scan(at, e, n);
    assert Scan(at, c, n) == [(c, e)] + rest;
    assert ([(c, e)] + rest)[1..] == rest;
  }

  /** Positions without a match can be skipped. */
  lemma {:induction false} CollectSkips<R>(at: Matcher, read: ((nat, nat)) -> Option<R>, c: nat, d: nat, n: nat)
    requires Bounded(at, n)
    requires c <= d
    requires forall s: nat :: c <= s < d ==> at(s).None?
    ensures Collect(at, read, c, n) == Collect(at, read, d, n)
    decreases d - c
  {
    if c < d {
      CollectSkips(at, read, c + 1, d, n);
    }
  }

  /** A tail without matches contributes nothing, so stopping there loses nothing. */
  lemma {:induction false} CollectStops<R>(at: Matcher, read: ((nat, nat)) -> Option<R>, c: nat, n: nat)
    requires Bounded(at, n)
    requires forall s: nat :: c <= s ==> at(s).None?
    ensures Collect(at, read, c, n) == []
    decreases n - c
  {
    if c < n {
      CollectStops(at, read, c + 1, n);
    }
  }
}
