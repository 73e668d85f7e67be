/** The dictionary order on integer sequences, which orders bytes, characters and composite keys. */
module Lexicographic {

  predicate Leq(a: seq<int>, b: seq<int>) {
    a == [] || (b != [] && (a[0] < b[0] || (a[0] == b[0] && Leq(a[1..], b[1..]))))
  }

  predicate Less(a: seq<int>, b: seq<int>) {
    Leq(a, b) && a != b
  }

  ghost predicate DiffersFirstAt(a: seq<int>, b: seq<int>, k: nat) {
    && k <= |a| && k < |b| && (forall i :: 0 <= i < k ==> a[i] == b[i])
    && (k < |a| ==> a[k] < b[k])
  }

  /** One sequence is less exactly when it ends, or has the smaller entry, where they first differ. */
  lemma {:induction false} LessAtFirstDifference(a: seq<int>, b: seq<int>)
    ensures Less(a, b) <==> exists k: nat :: DiffersFirstAt(a, b, k)
  {
    if a != [] && b != [] && a[0] == b[0] {
      LessAtFirstDifference(a[1..], b[1..]);
      assert a == [a[0]] + a[1..] && b == [b[0]] + b[1..];
      if k: nat :| DiffersFirstAt(a[1..], b[1..], k) {
        assert DiffersFirstAt(a, b, k + 1);
      }
      if k: nat :| DiffersFirstAt(a, b, k) {
        assert DiffersFirstAt(a[1..], b[1..], k - 1);
      }
    } else {
      assert Less(a, b) ==> DiffersFirstAt(a, b, 0);
    }
  }

  lemma {:induction false} Total(a: seq<int>, b: seq<int>)
    ensures Leq(a, b) || Leq(b, a)
  {
    if a != [] && b != [] && a[0] == b[0] {
      Total(a[1..], b[1..]);
    }
  }

  lemma {:induction false} Antisymmetric(a: seq<int>, b: seq<int>)
    requires Leq(a, b) && Leq(b, a)
    ensures a == b
  {
    if a != [] && b != [] {
      Antisymmetric(a[1..], b[1..]);
      assert a == [a[0]] + a[1..] && b == [b[0]] + b[1..];
    }
  }

  lemma {:induction false} Transitive(a: seq<int>, b: seq<int>, c: seq<int>)
    requires Leq(a, b) && Leq(b, c)
    ensures Leq(a, c)
  {
    if a != [] && a[0] == b[0] == c[0] {
      Transitive(a[1..], b[1..], c[1..]);
    }
  }

  lemma LessTransitive(a: seq<int>, b: seq<int>, c: seq<int>)
    requires (Leq(a, b) && Less(b, c)) || (Less(a, b) && Leq(b, c))
    ensures Less(a, c)
  {
    Transitive(a, b, c);
    if a == c {
      Antisymmetric(b, c);
    }
  }
}
