/** Vocabulary shared by the models: optional and fallible values, lock modes, row filters. */
module Prelude {

  datatype Option<+T> = None | Some(value: T)

  datatype Result<+T, +E> = Ok(value: T) | Err(error: E)

  /** Strength of a row lock: `FOR SHARE`, or `FOR UPDATE` and the `UPDATE` statement. */
  datatype Mode = Share | Update

  function OptionToSeq<T>(o: Option<T>): seq<T> {
    match o
    case Some(x) => [x]
    case None => []
  }

  /** Applies `f` to every element and keeps the present results, in order. */
  function FilterMap<A, B>(f: A -> Option<B>, xs: seq<A>): seq<B> {
    if xs == [] then [] else OptionToSeq(f(xs[0])) + FilterMap(f, xs[1..])
  }

  lemma {:induction false} FilterMapAppend<A, B>(f: A -> Option<B>, xs: seq<A>, ys: seq<A>)
    ensures FilterMap(f, xs + ys) == FilterMap(f, xs) + FilterMap(f, ys)
  {
    if xs == [] {
      assert xs + ys == ys;
    } else {
      assert (xs + ys)[1..] == xs[1..] + ys;
      FilterMapAppend(f, xs[1..], ys);
    }
  }

  /** Index of the input that produced output `k`. */
  ghost function SourceIndex<A, B>(f: A -> Option<B>, xs: seq<A>, k: nat): (i: nat)
    requires k < |FilterMap(f, xs)|
    ensures i < |xs| && f(xs[i]) == Some(FilterMap(f, xs)[k])
  {
    if f(xs[0]).Some? then (if k == 0 then 0 else SourceIndex(f, xs[1..], k - 1) + 1)
    else SourceIndex(f, xs[1..], k) + 1
  }

  /** Filtering keeps the order of what it keeps. */
  lemma {:induction false} SourceIndexMonotone<A, B>(f: A -> Option<B>, xs: seq<A>, k: nat, l: nat)
    requires k < l < |FilterMap(f, xs)|
    ensures SourceIndex(f, xs, k) < SourceIndex(f, xs, l)
  {
    if f(xs[0]).None? {
      SourceIndexMonotone(f, xs[1..], k, l);
    } else if k > 0 {
      SourceIndexMonotone(f, xs[1..], k - 1, l - 1);
    }
  }

  lemma {:induction false} FilterMapMembers<A, B>(f: A -> Option<B>, xs: seq<A>, y: B)
    ensures y in FilterMap(f, xs) <==> exists i :: 0 <= i < |xs| && f(xs[i]) == Some(y)
  {
    if xs != [] {
      FilterMapMembers(f, xs[1..], y);
      assert f(xs[0]) == Some(y) || y in FilterMap(f, xs[1..]) <==> y in FilterMap(f, xs);
      if y in FilterMap(f, xs[1..]) {
        var i :| 0 <= i < |xs[1..]| && f(xs[1..][i]) == Some(y);
        assert f(xs[i + 1]) == Some(y);
      }
      if i :| 0 < i < |xs| && f(xs[i]) == Some(y) {
        assert f(xs[1..][i - 1]) == Some(y);
      }
    }
  }

  function Take<T>(xs: seq<T>, limit: nat): seq<T> {
    if |xs| <= limit then xs else xs[..limit]
  }
}
