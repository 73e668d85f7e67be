/**
 * Text primitives the parsers rest on: Unicode trimming, substring search and UTF-8 offsets.
 *
 * A body is a sequence of Unicode scalar values. Every delimiter the parsers look for is ASCII,
 * so a byte-level match in valid UTF-8 is a match at a character boundary; byte offsets are
 * recovered with `ByteLen`.
 */
module Text {
  import opened Prelude

  /** The Unicode White_Space property, which `str::trim` strips. */
  predicate IsWhitespace(c: char) {
    var n := c as int;
    || 0x9 <= n <= 0xD || n == 0x20 || n == 0x85 || n == 0xA0 || n == 0x1680
    || 0x2000 <= n <= 0x200A || n == 0x2028 || n == 0x2029 || n == 0x202F || n == 0x205F
    || n == 0x3000
  }

  /** The code points with the property, one by one. */
  const WHITE_SPACE: set<int> := {
    0x9, 0xA, 0xB, 0xC, 0xD, 0x20, 0x85, 0xA0, 0x1680, 0x2000, 0x2001, 0x2002, 0x2003, 0x2004, 0x2005,
    0x2006, 0x2007, 0x2008, 0x2009, 0x200A, 0x2028, 0x2029, 0x202F, 0x205F, 0x3000}

  lemma WhiteSpaceIs(c: char)
    ensures IsWhitespace(c) <==> (c as int) in WHITE_SPACE
  {
  }

  function TrimStart(s: string): (r: string)
    ensures |r| <= |s|
  {
    if s != "" && IsWhitespace(s[0]) then TrimStart(s[1..]) else s
  }

  function TrimEnd(s: string): (r: string)
    ensures |r| <= |s|
  {
    if s != "" && IsWhitespace(s[|s| - 1]) then TrimEnd(s[..|s| - 1]) else s
  }

  lemma {:induction false} TrimStartSpec(s: string)
    ensures var r := TrimStart(s);
            && r == s[|s| - |r|..]
            && (r != "" ==> !IsWhitespace(r[0]))
            && (forall i :: 0 <= i < |s| - |r| ==> IsWhitespace(s[i]))
  {
    if s != "" && IsWhitespace(s[0]) {
      TrimStartSpec(s[1..]);
      assert s == [s[0]] + s[1..];
    }
  }

  lemma {:induction false} TrimEndSpec(s: string)
    ensures var r := TrimEnd(s);
            && r == s[..|r|]
            && (r != "" ==> !IsWhitespace(r[|r| - 1]))
            && (forall i :: |r| <= i < |s| ==> IsWhitespace(s[i]))
  {
    if s != "" && IsWhitespace(s[|s| - 1]) {
      TrimEndSpec(s[..|s| - 1]);
      assert s == s[..|s| - 1] + [s[|s| - 1]];
    }
  }

  function Trim(s: string): string {
    TrimEnd(TrimStart(s))
  }

  ghost predicate Trimmed(s: string) {
    s != "" ==> !IsWhitespace(s[0]) && !IsWhitespace(s[|s| - 1])
  }

  /** Trimming keeps a contiguous middle part, drops only white space, and is then stable. */
  lemma TrimSpec(s: string)
    ensures Trimmed(Trim(s))
    ensures exists a, b :: 0 <= a <= b <= |s| && Trim(s) == s[a..b]
              && (forall i :: 0 <= i < a || b <= i < |s| ==> IsWhitespace(s[i]))
  {
    var t := TrimStart(s);
    TrimStartSpec(s);
    TrimEndSpec(t);
    var a := |s| - |t|;
    var b := a + |Trim(s)|;
    if Trim(s) != "" {
      assert Trim(s)[0] == t[0];
    }
    assert Trim(s) == s[a..b];
    forall i | 0 <= i < a || b <= i < |s| ensures IsWhitespace(s[i]) {
      if b <= i {
        assert s[i] == t[i - a];
      }
    }
  }

  lemma TrimOfTrimmed(s: string)
    requires Trimmed(s)
    ensures Trim(s) == s
  {
  }

  lemma TrimIdempotent(s: string)
    ensures Trim(Trim(s)) == Trim(s)
  {
    TrimSpec(s);
    TrimOfTrimmed(Trim(s));
  }

  /** `pattern` occurs in `s` at index `i`. */
  predicate OccursAt(s: string, pattern: string, i: int) {
    0 <= i && i + |pattern| <= |s| && s[i..i + |pattern|] == pattern
  }

  lemma OccursSplit(s: string, first: string, second: string, i: nat)
    requires OccursAt(s, first + second, i)
    ensures OccursAt(s, first, i) && OccursAt(s, second, i + |first|)
  {
    var whole := s[i..i + |first| + |second|];
    assert s[i..i + |first|] == whole[..|first|];
    assert s[i + |first|..i + |first| + |second|] == whole[|first|..];
  }

  lemma OccursChars(s: string, pattern: string, i: nat)
    requires OccursAt(s, pattern, i)
    ensures forall k :: i <= k < i + |pattern| ==> s[k] == pattern[k - i]
  {
    forall k | i <= k < i + |pattern| ensures s[k] == pattern[k - i] {
      assert s[i..i + |pattern|][k - i] == s[k];
    }
  }

  lemma NoOccurrence(s: string, pattern: string, i: nat)
    requires pattern != "" && i < |s| && s[i] != pattern[0]
    ensures !OccursAt(s, pattern, i)
  {
    if i + |pattern| <= |s| {
      assert s[i..i + |pattern|][0] == s[i];
    }
  }

  /** Index of the first occurrence of `pattern` at or after `from`. */
  function Find(s: string, pattern: string, from: nat): (r: Option<nat>)
    requires from <= |s|
    ensures r.Some? ==> from <= r.value && r.value + |pattern| <= |s|
    decreases |s| - from
  {
    if OccursAt(s, pattern, from) then Some(from)
    else if from == |s| then None
    else Find(s, pattern, from + 1)
  }

  lemma {:induction false} FindFirst(s: string, pattern: string, from: nat)
    requires from <= |s|
    ensures var r := Find(s, pattern, from);
            && (r.Some? ==> OccursAt(s, pattern, r.value))
            && (forall i :: from <= i && (r.Some? ==> i < r.value) ==> !OccursAt(s, pattern, i))
    decreases |s| - from
  {
    if !OccursAt(s, pattern, from) && from < |s| {
      FindFirst(s, pattern, from + 1);
    }
  }

  lemma FindWithin(s: string, pattern: string, from: nat)
    requires from <= |s| && Find(s, pattern, from).Some? && pattern != ""
    ensures from <= Find(s, pattern, from).value < |s|
  {
    FindFirst(s, pattern, from);
  }

  /** An index that holds the first occurrence is the one found. */
  lemma {:induction false} FindIs(s: string, pattern: string, from: nat, i: nat)
    requires from <= i && OccursAt(s, pattern, i)
    requires forall k :: from <= k < i ==> !OccursAt(s, pattern, k)
    ensures Find(s, pattern, from) == Some(i)
  {
    FindFirst(s, pattern, from);
  }

  lemma FindChar(s: string, c: char, from: nat)
    requires from <= |s|
    ensures var r := Find(s, [c], from);
            && (r.Some? ==> s[r.value] == c)
            && (forall i :: from <= i < |s| && (r.Some? ==> i < r.value) ==> s[i] != c)
  {
    FindFirst(s, [c], from);
    forall i | from <= i < |s| && s[i] == c ensures OccursAt(s, [c], i) {
      assert s[i..i + 1] == [c];
    }
    var r := Find(s, [c], from);
    if r.Some? {
      assert s[r.value..r.value + 1] == [s[r.value]];
    }
  }

  /** Searching from later finds nothing that searching from earlier would have missed. */
  lemma FindLater(s: string, pattern: string, from: nat, later: nat)
    requires from <= later <= |s|
    ensures Find(s, pattern, from).None? ==> Find(s, pattern, later).None?
    ensures Find(s, pattern, later).Some? ==> Find(s, pattern, from).value <= Find(s, pattern, later).value
    ensures (Find(s, pattern, from).Some? && later <= Find(s, pattern, from).value) ==>
              Find(s, pattern, later) == Find(s, pattern, from)
  {
    FindFirst(s, pattern, from);
    FindFirst(s, pattern, later);
  }

  predicate Contains(s: string, pattern: string) {
    Find(s, pattern, 0).Some?
  }

  /** Splits around the first `separator`, as `str::split_once` does. */
  function SplitOnce(s: string, separator: string): Option<(string, string)> {
    match Find(s, separator, 0)
    case Some(i) => Some((s[..i], s[i + |separator|..]))
    case None => None
  }

  function StripPrefix(s: string, prefix: string): Option<string> {
    if prefix <= s then Some(s[|prefix|..]) else None
  }

  /** Number of bytes UTF-8 uses for one scalar value. */
  function Utf8Width(c: char): (w: nat)
    ensures 1 <= w <= 4
  {
    var n := c as int;
    if n < 0x80 then 1 else if n < 0x800 then 2 else if n < 0x1_0000 then 3 else 4
  }

  /** Bits that `w` bytes carry: seven alone, or `7 - w` in the first byte and six in each other. */
  function PayloadBits(w: nat): nat
    requires 1 <= w <= 4
  {
    if w == 1 then 7 else 7 - w + 6 * (w - 1)
  }

  function PowerOfTwo(n: nat): nat {
    if n == 0 then 1 else 2 * PowerOfTwo(n - 1)
  }

  /** The width is the least number of bytes that carries the scalar value. */
  lemma Utf8WidthIsLeast(c: char, w: nat)
    requires 1 <= w <= 4
    ensures Utf8Width(c) <= w <==> (c as int) < PowerOfTwo(PayloadBits(w))
  {
    assert PowerOfTwo(7) == 128;
    assert PowerOfTwo(9) == 512;
    assert PowerOfTwo(11) == 2048;
    assert PowerOfTwo(14) == 8 * 2048;
    assert PowerOfTwo(16) == 0x1_0000;
    assert PowerOfTwo(19) == 8 * 0x1_0000;
    assert PowerOfTwo(21) == 32 * 0x1_0000;
  }

  /** Number of bytes UTF-8 uses for a text. */
  function ByteLen(s: string): (n: nat)
    ensures |s| <= n
  {
    if s == "" then 0 else Utf8Width(s[0]) + ByteLen(s[1..])
  }

  lemma {:induction false} ByteLenAppend(s: string, t: string)
    ensures ByteLen(s + t) == ByteLen(s) + ByteLen(t)
  {
    if s == "" {
      assert s + t == t;
    } else {
      assert (s + t)[1..] == s[1..] + t;
      ByteLenAppend(s[1..], t);
    }
  }

  /** Byte offset of character index `i`. */
  function Offset(s: string, i: nat): nat
    requires i <= |s|
  {
    ByteLen(s[..i])
  }

  lemma OffsetMonotone(s: string, i: nat, j: nat)
    requires i <= j <= |s|
    ensures Offset(s, j) == Offset(s, i) + ByteLen(s[i..j])
    ensures i < j ==> Offset(s, i) < Offset(s, j)
  {
    assert s[..j] == s[..i] + s[i..j];
    ByteLenAppend(s[..i], s[i..j]);
  }

  lemma OffsetAfter(s: string, text: string, i: nat)
    requires OccursAt(s, text, i)
    ensures Offset(s, i + |text|) == Offset(s, i) + ByteLen(text)
  {
    hide ByteLen;
    OffsetMonotone(s, i, i + |text|);
  }
}
