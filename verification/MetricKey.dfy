/**
 * Metric keys: a name and labels in canonical order, with a precomputed 64-bit hash.
 *
 * Names, label keys and label values are their UTF-8 bytes; strings compare byte by byte.
 */
module MetricKey {
  import Lexicographic
  import Sorting

  type Byte = b: int | 0 <= b < 256
  type Text = seq<Byte>

  newtype u64 = x: int | 0 <= x < 0x1_0000_0000_0000_0000

  datatype Label = Label(key: Text, value: Text)

  datatype Key = Key(name: Text, labels: seq<Label>, hash: u64)

  // ---------------------------------------------------------------- hashing

  const FNV_PRIME: bv64 := 0x100_0000_01b3
  const SEED_NAME: u64 := 0x1111_1111_1111_1111
  const SEED_LABEL_KEY: u64 := 0x2222_2222_2222_2222
  const SEED_LABEL_VALUE: u64 := 0x3333_3333_3333_3333

  function Fnv1aStep(hash: u64, b: Byte): u64 {
    StepBits(hash as bv64, b as bv64) as u64
  }

  function StepBits(hash: bv64, b: bv64): bv64 {
    (hash ^ b) * FNV_PRIME
  }

  /** FNV-1a of a byte string from a seed. */
  function Fnv1a(bytes: Text, seed: u64): u64 {
    if bytes == [] then seed
    else Fnv1aStep(Fnv1a(bytes[..|bytes| - 1], seed), bytes[|bytes| - 1])
  }

  const FNV_OFFSET_BASIS: bv64 := 0xcbf2_9ce4_8422_2325

  /** From the standard offset basis the byte of "a" gives the published FNV-1a value. */
  lemma KnownHash()
    ensures StepBits(FNV_OFFSET_BASIS, 0x61) == 0xaf63_dc4c_8601_ec8c
    ensures Fnv1aStep(1, 0x61) == 0x6000_0000_a320
  {
  }

  method Fnv1aSeed(bytes: Text, seed: u64) returns (hash: u64)
    ensures hash == Fnv1a(bytes, seed)
  {
    hide Fnv1aStep;
    hash := seed;
    var i := 0;
    while i < |bytes|
      invariant 0 <= i <= |bytes|
      invariant hash == Fnv1a(bytes[..i], seed)
    {
      hash := Fnv1aStep(hash, bytes[i]);
      i := i + 1;
      assert bytes[..i][..i - 1] == bytes[..i - 1];
    }
    assert bytes[..i] == bytes;
  }

  function Mix(a: u64, b: u64): u64 {
    var x := (a as bv64) ^ (b as bv64).RotateLeft(31);
    var y := x * 0x9e37_79b9_7f4a_7c15;
    (y ^ (y >> 33)) as u64
  }

  /** Neither argument is ignored, and the second one is rotated. */
  lemma KnownMixes()
    ensures Mix(1, 0) == 0x9e37_79b9_3051_c0c9
    ensures Mix(0, 1) == 0xbfa5_3e0a_dfd2_9f05
    ensures Mix(1, 1) == 0x5ddc_b7c3_d1a4_27f4
  {
  }

  function LabelHash(l: Label): u64 {
    Mix(Fnv1a(l.key, SEED_LABEL_KEY), Fnv1a(l.value, SEED_LABEL_VALUE))
  }

  /** Addition that wraps at 64 bits. */
  function WrappingAdd(a: u64, b: u64): u64 {
    ((a as int + b as int) % 0x1_0000_0000_0000_0000) as u64
  }

  lemma WrappingAddIs(a: u64, b: u64)
    ensures var sum := a as int + b as int;
            WrappingAdd(a, b) as int == if sum < 0x1_0000_0000_0000_0000 then sum else sum - 0x1_0000_0000_0000_0000
  {
  }

  lemma WrappingAddAssociates(a: u64, b: u64, c: u64)
    ensures WrappingAdd(a, WrappingAdd(b, c)) == WrappingAdd(WrappingAdd(a, b), c)
  {
    hide WrappingAdd;
    WrappingAddIs(b, c);
    WrappingAddIs(a, WrappingAdd(b, c));
    WrappingAddIs(a, b);
    WrappingAddIs(WrappingAdd(a, b), c);
  }

  lemma WrappingAddCommutes(a: u64, b: u64)
    ensures WrappingAdd(a, b) == WrappingAdd(b, a)
  {
  }

  lemma WrappingAddZero(a: u64)
    ensures WrappingAdd(a, 0) == a
  {
  }

  /** Wrapping sum of the label hashes. */
  function LabelSum(labels: seq<Label>): u64 {
    if labels == [] then 0 else WrappingAdd(LabelSum(labels[..|labels| - 1]), LabelHash(labels[|labels| - 1]))
  }

  function KeyHash(name: Text, labels: seq<Label>): u64 {
    Mix(Fnv1a(name, SEED_NAME), LabelSum(labels))
  }

  method HashLabel(l: Label) returns (hash: u64)
    ensures hash == LabelHash(l)
  {
    hide Mix, Fnv1a;
    var k := Fnv1aSeed(l.key, SEED_LABEL_KEY);
    var v := Fnv1aSeed(l.value, SEED_LABEL_VALUE);
    hash := Mix(k, v);
  }

  method ComputeHash(name: Text, labels: seq<Label>) returns (hash: u64)
    ensures hash == KeyHash(name, labels)
  {
    hide Mix, Fnv1a, LabelHash, WrappingAdd;
    var h := Fnv1aSeed(name, SEED_NAME);
    var acc: u64 := 0;
    for i := 0 to |labels|
      invariant acc == LabelSum(labels[..i])
    {
      var l := HashLabel(labels[i]);
      assert labels[..i + 1][..i] == labels[..i];
      acc := WrappingAdd(acc, l);
    }
    assert labels[..|labels|] == labels;
    hash := Mix(h, acc);
  }

  // ---------------------------------------------------------------- canonical order

  /** Comparison of `(key, value)` pairs. */
  predicate LabelLeq(a: Label, b: Label) {
    Lexicographic.Less(a.key, b.key) || (a.key == b.key && Lexicographic.Leq(a.value, b.value))
  }

  lemma LabelLeqIsTotalOrder(labels: seq<Label>)
    ensures Sorting.TotalPreorder(LabelLeq) && Sorting.AntisymmetricOn(LabelLeq, labels)
  {
    hide Lexicographic.Leq;
    forall a, b ensures LabelLeq(a, b) || LabelLeq(b, a) {
      Lexicographic.Total(a.key, b.key);
      Lexicographic.Total(a.value, b.value);
    }
    forall a, b, c | LabelLeq(a, b) && LabelLeq(b, c) ensures LabelLeq(a, c) {
      if a.key == b.key == c.key {
        Lexicographic.Transitive(a.value, b.value, c.value);
      } else if a.key != b.key && b.key != c.key {
        Lexicographic.LessTransitive(a.key, b.key, c.key);
      }
    }
    forall a, b | LabelLeq(a, b) && LabelLeq(b, a) ensures a == b {
      if a.key == b.key {
        Lexicographic.Antisymmetric(a.value, b.value);
      } else {
        Lexicographic.Antisymmetric(a.key, b.key);
      }
    }
  }

  function MakeKey(name: Text, labels: seq<Label>): Key {
    var canonical := Sorting.SortBy(LabelLeq, labels);
    Key(name, canonical, KeyHash(name, canonical))
  }

  /** Key equality compares the hashes first. */
  predicate KeyEq(a: Key, b: Key) {
    a.hash == b.hash && a.name == b.name && a.labels == b.labels
  }

  /** Sorting gives one canonical form per multiset of labels. */
  lemma CanonicalIffSameLabels(a: seq<Label>, b: seq<Label>)
    ensures Sorting.SortBy(LabelLeq, a) == Sorting.SortBy(LabelLeq, b) <==> multiset(a) == multiset(b)
  {
    if multiset(a) == multiset(b) {
      LabelLeqIsTotalOrder(Sorting.SortBy(LabelLeq, a));
      Sorting.SortBySorts(LabelLeq, a);
      Sorting.SortBySorts(LabelLeq, b);
      Sorting.SortedUnique(LabelLeq, Sorting.SortBy(LabelLeq, a), Sorting.SortBy(LabelLeq, b));
    }
  }

  /** Built keys are equal exactly when names agree and labels agree in any order. */
  lemma KeysEqualIff(name: Text, labels: seq<Label>, name': Text, labels': seq<Label>)
    ensures KeyEq(MakeKey(name, labels), MakeKey(name', labels'))
       <==> name == name' && multiset(labels) == multiset(labels')
  {
    CanonicalIffSameLabels(labels, labels');
    hide KeyHash;
  }

  lemma {:induction false} LabelSumAppend(a: seq<Label>, b: seq<Label>)
    ensures LabelSum(a + b) == WrappingAdd(LabelSum(a), LabelSum(b))
  {
    hide LabelHash, WrappingAdd;
    if b == [] {
      assert a + b == a;
      WrappingAddZero(LabelSum(a));
    } else {
      var m := |b| - 1;
      assert (a + b)[..|a + b| - 1] == a + b[..m];
      LabelSumAppend(a, b[..m]);
      WrappingAddAssociates(LabelSum(a), LabelSum(b[..m]), LabelHash(b[m]));
    }
  }

  /** Moving one label to the front does not change the sum. */
  lemma LabelSumMoves(before: seq<Label>, l: Label, after: seq<Label>)
    ensures LabelSum(before + ([l] + after)) == LabelSum([l] + (before + after))
  {
    hide *;
    var x, y, z := LabelSum(before), LabelSum([l]), LabelSum(after);
    LabelSumAppend(before, [l] + after);
    LabelSumAppend([l], after);
    LabelSumAppend([l], before + after);
    LabelSumAppend(before, after);
    WrappingAddAssociates(x, y, z);
    WrappingAddAssociates(y, x, z);
    WrappingAddCommutes(x, y);
  }

  lemma RemovedPermutes(a: seq<Label>, b: seq<Label>, before: seq<Label>, after: seq<Label>)
    requires a != [] && b == before + ([a[0]] + after) && multiset(a) == multiset(b)
    ensures multiset(a[1..]) == multiset(before + after)
  {
    Sorting.TailMultiset(a);
    assert multiset(b) == multiset(before) + multiset{a[0]} + multiset(after);
  }

  /** The hash of a label set does not depend on the labels' order, sorted or not. */
  lemma {:induction false} LabelSumPermutes(a: seq<Label>, b: seq<Label>)
    requires multiset(a) == multiset(b)
    ensures LabelSum(a) == LabelSum(b)
  {
    hide *;
    if a == [] {
      assert |multiset(b)| == 0;
      assert b == [];
    } else {
      assert a[0] in multiset(b);
      var i :| 0 <= i < |b| && b[i] == a[0];
      var before, after := b[..i], b[i + 1..];
      assert b == before + ([a[0]] + after);
      RemovedPermutes(a, b, before, after);
      LabelSumPermutes(a[1..], before + after);
      LabelSumMoves(before, a[0], after);
      LabelSumAppend([a[0]], a[1..]);
      LabelSumAppend([a[0]], before + after);
      assert a == [a[0]] + a[1..];
    }
  }

  /** The stored hash is the hash of the labels as given. */
  lemma HashIgnoresOrder(name: Text, labels: seq<Label>)
    ensures MakeKey(name, labels).hash == KeyHash(name, labels)
  {
    hide LabelSum, Mix, Fnv1a;
    LabelSumPermutes(Sorting.SortBy(LabelLeq, labels), labels);
  }

  /** Equal labels, or the lesser key, or under one key the lesser value, in byte order. */
  ghost predicate IsInLabelOrder(a: Label, b: Label) {
    || a == b
    || (exists k: nat :: Lexicographic.DiffersFirstAt(a.key, b.key, k))
    || (a.key == b.key && exists k: nat :: Lexicographic.DiffersFirstAt(a.value, b.value, k))
  }

  lemma LabelOrderIs(a: Label, b: Label)
    ensures LabelLeq(a, b) <==> IsInLabelOrder(a, b)
  {
    hide Lexicographic.Leq;
    Lexicographic.LessAtFirstDifference(a.key, b.key);
    Lexicographic.LessAtFirstDifference(a.value, b.value);
    Lexicographic.Total(a.value, b.value);
  }

  /** A built key holds the given labels, each as often as given, in canonical order, and their hash. */
  method FromParts(name: Text, labels: seq<Label>) returns (key: Key)
    ensures key == MakeKey(name, labels)
    ensures key.name == name && multiset(key.labels) == multiset(labels)
    ensures forall i, j :: 0 <= i < j < |key.labels| ==> IsInLabelOrder(key.labels[i], key.labels[j])
    ensures key.hash == KeyHash(name, labels)
  {
    hide KeyHash;
    var canonical := Sorting.SortBy(LabelLeq, labels);
    var hash := ComputeHash(name, canonical);
    LabelLeqIsTotalOrder(labels);
    Sorting.SortBySorts(LabelLeq, labels);
    HashIgnoresOrder(name, labels);
    forall i, j | 0 <= i < j < |canonical| ensures IsInLabelOrder(canonical[i], canonical[j]) {
      LabelOrderIs(canonical[i], canonical[j]);
    }
    key := Key(name, canonical, hash);
  }

  /** A key without labels is the key built from no labels. */
  method FromName(name: Text) returns (key: Key)
    ensures key == MakeKey(name, [])
    ensures key.name == name && key.labels == [] && key.hash == KeyHash(name, [])
  {
    hide KeyHash;
    var hash := ComputeHash(name, []);
    key := Key(name, [], hash);
  }
}
