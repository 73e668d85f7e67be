/**
 * The crash handler's backtrace: a repeated frame sequence is printed once with a count.
 *
 * Frames are addresses. A backtrace is at most one prefix, one cycle with its count, and the rest.
 */
module Backtrace {
  import opened Prelude

  type Frame = nat

  datatype Cycle = Cycle(frames: seq<Frame>, times: nat)

  /** What is printed, in order; without a cycle the prefix may still be split from the rest. */
  datatype Report = Report(prefix: seq<Frame>, cycle: Option<Cycle>, rest: seq<Frame>)

  // ---------------------------------------------------------------- iterator chains

  /** Index of the first match. */
  function Position(matches: seq<bool>): (r: Option<nat>)
    ensures r.Some? ==> r.value < |matches| && matches[r.value] && forall i :: 0 <= i < r.value ==> !matches[i]
    ensures r.None? ==> forall i :: 0 <= i < |matches| ==> !matches[i]
  {
    if matches == [] then None
    else if matches[0] then Some(0)
    else match Position(matches[1..])
      case Some(i) => Some(i + 1)
      case None => None
  }

  function Count(matches: seq<bool>): (r: nat)
    ensures r <= |matches|
  {
    if matches == [] then 0 else Count(matches[1..]) + (if matches[0] then 1 else 0)
  }

  /** A runner at every second frame from index 1 against a walker from index 0. */
  function RunnerMeetsWalker(stack: seq<Frame>): seq<bool> {
    seq(|stack| / 2, i requires 0 <= i < |stack| / 2 => stack[2 * i + 1] == stack[i])
  }

  function RepeatsAfter(stack: seq<Frame>, period: nat): seq<bool> {
    if period > |stack| then []
    else seq(|stack| - period, i requires 0 <= i < |stack| - period => stack[i + period] == stack[i])
  }

  /** Number of whole chunks of `period` frames from `offset` on. */
  function ChunkCount(stack: seq<Frame>, offset: nat, period: nat): nat
    requires period > 0 && offset <= |stack|
  {
    (|stack| - offset) / period
  }

  function Chunk(stack: seq<Frame>, offset: nat, period: nat, k: nat): (chunk: seq<Frame>)
    requires period > 0 && offset <= |stack| && k < ChunkCount(stack, offset, period)
    ensures |chunk| == period
  {
    ChunkEnds(stack, offset, period, k);
    stack[offset + k * period..offset + k * period + period]
  }

  lemma ChunkEnds(stack: seq<Frame>, offset: nat, period: nat, k: nat)
    requires period > 0 && offset <= |stack| && k < ChunkCount(stack, offset, period)
    ensures 0 <= k * period && offset + k * period + period <= |stack|
  {
    var m := ChunkCount(stack, offset, period);
    assert (k + 1) * period <= m * period;
  }

  /** Whether each chunk equals its predecessor. */
  function EqualNeighbours(stack: seq<Frame>, offset: nat, period: nat): seq<bool>
    requires period > 0 && offset <= |stack|
  {
    var m := ChunkCount(stack, offset, period);
    if m == 0 then []
    else seq(m - 1, k requires 0 <= k < m - 1 => Chunk(stack, offset, period, k + 1) == Chunk(stack, offset, period, k))
  }

  // ---------------------------------------------------------------- the handler

  /** The detected cycle: its period, offset and count. */
  datatype Detection = Detection(period: nat, offset: nat, cycles: nat)

  /** The frames a number of cycles cover. */
  function Span(period: nat, cycles: nat): nat {
    period * cycles
  }

  /** All slices the handler takes are in bounds, and the cycle's first frame does recur. */
  predicate InBounds(stack: seq<Frame>, d: Detection) {
    && 0 < d.period && d.offset < d.period && d.offset + d.period < |stack|
    && stack[d.offset + d.period] == stack[d.offset]
    && 1 <= d.cycles <= ChunkCount(stack, d.offset, d.period)
    && d.period <= Span(d.period, d.cycles) && d.offset + Span(d.period, d.cycles) <= |stack|
  }

  lemma CyclesFit(stack: seq<Frame>, offset: nat, period: nat, cycles: nat)
    requires period > 0 && offset + period < |stack| && 1 <= cycles <= ChunkCount(stack, offset, period)
    ensures period <= Span(period, cycles) && offset + Span(period, cycles) <= |stack|
  {
    var m := ChunkCount(stack, offset, period);
    assert m * period <= |stack| - offset;
    assert period * cycles <= period * m;
    assert period * 1 <= period * cycles;
  }

  function CycleCount(stack: seq<Frame>, offset: nat, period: nat): nat
    requires period > 0 && offset <= |stack|
  {
    1 + Count(EqualNeighbours(stack, offset, period))
  }

  lemma CountsChunks(stack: seq<Frame>, offset: nat, period: nat)
    requires period > 0 && offset + period <= |stack|
    ensures CycleCount(stack, offset, period) <= ChunkCount(stack, offset, period)
  {
    assert (|stack| - offset) / period >= 1;
  }

  lemma RunnerAt(stack: seq<Frame>, i: nat)
    requires i < |RunnerMeetsWalker(stack)|
    ensures 2 * i + 1 < |stack| && RunnerMeetsWalker(stack)[i] == (stack[2 * i + 1] == stack[i])
  {
  }

  lemma RepeatsAt(stack: seq<Frame>, period: nat, i: nat)
    ensures i < |RepeatsAfter(stack, period)| <==> i + period < |stack|
    ensures i + period < |stack| ==> RepeatsAfter(stack, period)[i] == (stack[i + period] == stack[i])
  {
  }

  /** A detected period always has an offset, so the handler's early return is never taken. */
  lemma OffsetExists(stack: seq<Frame>, p: nat)
    requires p < |RunnerMeetsWalker(stack)| && RunnerMeetsWalker(stack)[p]
    ensures var offset := Position(RepeatsAfter(stack, p + 1));
            && offset.Some? && offset.value <= p && offset.value + p + 1 < |stack|
            && stack[offset.value + p + 1] == stack[offset.value]
  {
    hide *;
    var period := p + 1;
    RunnerAt(stack, p);
    assert 2 * p + 1 == p + period;
    RepeatsAt(stack, period, p);
    var repeats := RepeatsAfter(stack, period);
    assert repeats[p];
    RepeatsAt(stack, period, Position(repeats).value);
  }

  function Detect(stack: seq<Frame>): (r: Option<Detection>)
    ensures r.Some? ==> InBounds(stack, r.value)
  {
    match Position(RunnerMeetsWalker(stack))
    case None => None
    case Some(p) =>
      var period := p + 1;
      OffsetExists(stack, p);
      var offset := Position(RepeatsAfter(stack, period)).value;
      CountsChunks(stack, offset, period);
      var cycles := CycleCount(stack, offset, period);
      CyclesFit(stack, offset, period, cycles);
      Some(Detection(period, offset, cycles))
  }

  // ---------------------------------------------------------------- what is detected

  /** The runner stands on the walker's frame after `period` rounds. */
  predicate Meets(stack: seq<Frame>, period: nat) {
    period > 0 && 2 * period - 1 < |stack| && stack[2 * period - 1] == stack[period - 1]
  }

  predicate Recurs(stack: seq<Frame>, period: nat, i: nat) {
    i + period < |stack| && stack[i + period] == stack[i]
  }

  /** The `period` frames from `start` on are followed by the same frames. */
  predicate ChunkRepeats(stack: seq<Frame>, start: nat, period: nat) {
    start + 2 * period <= |stack| && stack[start..start + period] == stack[start + period..start + 2 * period]
  }

  /** Start offsets, in whole periods, of the chunks that their successors repeat. */
  ghost function RepeatedChunks(stack: seq<Frame>, offset: nat, period: nat): set<nat> {
    set k: nat | k < |stack| && ChunkRepeats(stack, offset + k * period, period)
  }

  lemma {:induction false} CountIsSize(matches: seq<bool>)
    ensures Count(matches) == |set k: nat | k < |matches| && matches[k]|
  {
    var all := set k: nat | k < |matches| && matches[k];
    if matches == [] {
      assert all == {};
    } else {
      CountIsSize(matches[1..]);
      ShiftedSize(set k: nat | k < |matches[1..]| && matches[1..][k]);
      HeadAndShifted(matches);
    }
  }

  lemma HeadAndShifted(matches: seq<bool>)
    requires matches != []
    ensures var later := set k: nat | k < |matches[1..]| && matches[1..][k];
            |set k: nat | k < |matches| && matches[k]|
            == |set k: nat | k in later :: k + 1| + (if matches[0] then 1 else 0)
  {
    var all := set k: nat | k < |matches| && matches[k];
    var later := set k: nat | k < |matches[1..]| && matches[1..][k];
    var shifted := set k: nat | k in later :: k + 1;
    forall k: nat ensures k in all <==> k in shifted || (k == 0 && matches[0]) {
      if k in all && k > 0 {
        assert k - 1 in later;
      }
    }
    assert all == shifted + (if matches[0] then {0} else {});
  }

  lemma {:induction false} ShiftedSize(s: set<nat>)
    ensures |set k: nat | k in s :: k + 1| == |s|
  {
    if x :| x in s {
      ShiftedSize(s - {x});
      var all, others := set k: nat | k in s :: k + 1, set k: nat | k in s - {x} :: k + 1;
      forall y | y in all ensures y in others + {x + 1} {
        assert y == x + 1 || y - 1 in s - {x};
      }
      assert x + 1 in all;
      assert all == others + {x + 1};
    } else {
      assert (set k: nat | k in s :: k + 1) == {};
    }
  }

  /** Chunk `k` has a whole successor exactly when two whole periods follow its start. */
  lemma NextChunkFits(n: nat, period: nat, k: nat)
    requires period > 0
    ensures k + 1 < n / period <==> k * period + 2 * period <= n
  {
    var m := n / period;
    assert m * period <= n < m * period + period;
    if k + 2 <= m {
      assert (k + 2) * period <= m * period;
    } else {
      assert (m + 1) * period <= (k + 2) * period;
    }
  }

  lemma NeighboursRepeat(stack: seq<Frame>, offset: nat, period: nat, k: nat)
    requires period > 0 && offset <= |stack|
    ensures k < |EqualNeighbours(stack, offset, period)| && EqualNeighbours(stack, offset, period)[k]
       <==> ChunkRepeats(stack, offset + k * period, period)
  {
    NextChunkFits(|stack| - offset, period, k);
    if k + 1 < ChunkCount(stack, offset, period) {
      assert (k + 1) * period == k * period + period;
    }
  }

  lemma RepeatedAt(stack: seq<Frame>, offset: nat, period: nat, k: nat)
    requires period > 0 && offset <= |stack|
    ensures k < |EqualNeighbours(stack, offset, period)| && EqualNeighbours(stack, offset, period)[k]
       <==> k in RepeatedChunks(stack, offset, period)
  {
    hide EqualNeighbours, ChunkRepeats, ChunkCount;
    NeighboursRepeat(stack, offset, period, k);
    if ChunkRepeats(stack, offset + k * period, period) {
      RepeatsWithin(stack, offset, period, k);
    }
  }

  lemma RepeatsWithin(stack: seq<Frame>, offset: nat, period: nat, k: nat)
    requires period > 0 && ChunkRepeats(stack, offset + k * period, period)
    ensures k < |stack|
  {
    assert k * 1 <= k * period;
  }

  lemma CountsRepeatedChunks(stack: seq<Frame>, offset: nat, period: nat)
    requires period > 0 && offset <= |stack|
    ensures Count(EqualNeighbours(stack, offset, period)) == |RepeatedChunks(stack, offset, period)|
  {
    hide *;
    var equal := EqualNeighbours(stack, offset, period);
    CountIsSize(equal);
    forall k: nat ensures k < |equal| && equal[k] <==> k in RepeatedChunks(stack, offset, period) {
      RepeatedAt(stack, offset, period, k);
    }
    assert (set k: nat | k < |equal| && equal[k]) == RepeatedChunks(stack, offset, period);
  }

  lemma MeetsAt(stack: seq<Frame>, period: nat)
    ensures Meets(stack, period)
       <==> period > 0 && period - 1 < |RunnerMeetsWalker(stack)| && RunnerMeetsWalker(stack)[period - 1]
  {
    if period > 0 {
      assert 2 * (period - 1) + 1 == 2 * period - 1;
    }
  }

  lemma FirstMeeting(stack: seq<Frame>)
    ensures match Position(RunnerMeetsWalker(stack))
            case None => forall period: nat :: !Meets(stack, period)
            case Some(p) => Meets(stack, p + 1) && forall period: nat :: period < p + 1 ==> !Meets(stack, period)
  {
    hide *;
    forall period: nat
      ensures Meets(stack, period)
         <==> period > 0 && period - 1 < |RunnerMeetsWalker(stack)| && RunnerMeetsWalker(stack)[period - 1]
    {
      MeetsAt(stack, period);
    }
  }

  lemma FirstRecurrence(stack: seq<Frame>, period: nat)
    ensures match Position(RepeatsAfter(stack, period))
            case None => true
            case Some(i) => Recurs(stack, period, i) && forall j: nat :: j < i ==> !Recurs(stack, period, j)
  {
    hide Position, RepeatsAfter;
    forall i: nat
      ensures Recurs(stack, period, i) <==> i < |RepeatsAfter(stack, period)| && RepeatsAfter(stack, period)[i]
    {
      RepeatsAt(stack, period, i);
    }
  }

  /**
   * A cycle is detected exactly when the runner meets the walker: the period is the first meeting,
   * the offset the first frame that recurs a period later, and the count one more than the number
   * of chunks from there that their successors repeat.
   */
  lemma DetectMeaning(stack: seq<Frame>)
    ensures Detect(stack).None? <==> forall period: nat :: !Meets(stack, period)
    ensures Detect(stack).Some? ==>
              var d := Detect(stack).value;
              && Meets(stack, d.period) && (forall p: nat :: p < d.period ==> !Meets(stack, p))
              && Recurs(stack, d.period, d.offset) && (forall i: nat :: i < d.offset ==> !Recurs(stack, d.period, i))
              && d.cycles == 1 + |RepeatedChunks(stack, d.offset, d.period)|
  {
    FirstMeeting(stack);
    hide Position, RunnerMeetsWalker, RepeatsAfter, Meets, Recurs;
    hide ChunkCount, EqualNeighbours, Count, RepeatedChunks, Span;
    if Detect(stack).Some? {
      var d := Detect(stack).value;
      OffsetExists(stack, d.period - 1);
      FirstRecurrence(stack, d.period);
      CountsRepeatedChunks(stack, d.offset, d.period);
    }
  }

  /** The handler's control flow. */
  method PrintStackTrace(stack: seq<Frame>) returns (report: Report, cyclic: bool)
    ensures report == Compress(stack) && cyclic == report.cycle.Some?
  {
    hide Detect, Span, ChunkCount;
    var consumed := 0;
    cyclic := false;
    var prefix: seq<Frame>, cycle := [], None;
    var detection := Detect(stack);
    if detection.Some? {
      var Detection(period, offset, cycles) := detection.value;
      prefix := stack[..offset];
      consumed := consumed + offset;
      if cycles > 1 {
        cycle := Some(Cycle(stack[consumed..consumed + period], cycles));
        consumed := consumed + Span(period, cycles);
        cyclic := true;
      }
    }
    report := Report(prefix, cycle, stack[consumed..]);
  }

  function Compress(stack: seq<Frame>): Report {
    match Detect(stack)
    case None => Report([], None, stack)
    case Some(d) => Split(stack, d)
  }

  function Split(stack: seq<Frame>, d: Detection): Report
    requires InBounds(stack, d)
  {
    if d.cycles > 1 then
      Report(stack[..d.offset], Some(Cycle(stack[d.offset..d.offset + d.period], d.cycles)),
             stack[d.offset + Span(d.period, d.cycles)..])
    else Report(stack[..d.offset], None, stack[d.offset..])
  }

  // ---------------------------------------------------------------- reading a report back

  function Repeat(frames: seq<Frame>, times: nat): seq<Frame> {
    if times == 0 then [] else Repeat(frames, times - 1) + frames
  }

  /** The stack a reader of the report reconstructs. */
  function Expand(report: Report): seq<Frame> {
    report.prefix
      + (match report.cycle case Some(c) => Repeat(c.frames, c.times) case None => [])
      + report.rest
  }

  lemma {:induction false} RepeatLength(frames: seq<Frame>, times: nat)
    ensures |Repeat(frames, times)| == Span(|frames|, times)
  {
    if times > 0 {
      RepeatLength(frames, times - 1);
    }
  }

  /** The report accounts for every frame, whatever the stack. */
  lemma ExpandKeepsLength(stack: seq<Frame>)
    ensures |Expand(Compress(stack))| == |stack|
  {
    hide Detect, Span, ChunkCount;
    match Detect(stack)
    case None =>
    case Some(d) =>
      if d.cycles > 1 {
        RepeatLength(stack[d.offset..d.offset + d.period], d.cycles);
      }
  }

  /** The equal neighbours form an initial run. */
  predicate InitialRun(matches: seq<bool>) {
    forall k :: 0 <= k < |matches| - 1 && matches[k + 1] ==> matches[k]
  }

  /** An initial run counts up to its length; anything else is longer than its count. */
  lemma {:induction false} RunCounts(matches: seq<bool>)
    ensures InitialRun(matches) <==> forall k :: 0 <= k < Count(matches) ==> matches[k]
  {
    if matches != [] {
      var rest := matches[1..];
      RunCounts(rest);
      if matches[0] {
        assert Count(matches) == 1 + Count(rest);
        assert InitialRun(matches) <==> InitialRun(rest) by {
          if InitialRun(matches) {
            forall k | 0 <= k < |rest| - 1 && rest[k + 1] ensures rest[k] {
              assert matches[k + 1 + 1];
            }
          }
        }
        assert (forall k :: 0 <= k < Count(rest) ==> rest[k])
          <==> (forall k :: 0 <= k < Count(matches) ==> matches[k]) by {
          assert forall k :: 0 <= k < |rest| ==> rest[k] == matches[k + 1];
        }
      } else {
        assert Count(matches) == Count(rest);
      }
    }
  }

  /** The frames of the first `c` chunks. */
  function Covered(stack: seq<Frame>, offset: nat, period: nat, c: nat): seq<Frame>
    requires period > 0 && offset + period < |stack| && 1 <= c <= ChunkCount(stack, offset, period)
  {
    CyclesFit(stack, offset, period, c);
    stack[offset..offset + Span(period, c)]
  }

  lemma CoveredStep(stack: seq<Frame>, offset: nat, period: nat, c: nat)
    requires period > 0 && offset + period < |stack| && 1 <= c <= ChunkCount(stack, offset, period)
    ensures c == 1 ==> Covered(stack, offset, period, c) == Chunk(stack, offset, period, 0)
    ensures c > 1 ==>
              Covered(stack, offset, period, c)
              == Covered(stack, offset, period, c - 1) + Chunk(stack, offset, period, c - 1)
  {
    hide ChunkCount;
    CyclesFit(stack, offset, period, c);
    assert Span(period, c) == (c - 1) * period + period;
    if c > 1 {
      CyclesFit(stack, offset, period, c - 1);
      assert Span(period, c - 1) == (c - 1) * period;
    }
  }

  lemma AppendEqual<T>(a: seq<T>, b: seq<T>, x: seq<T>, y: seq<T>)
    requires |x| == |y|
    ensures a + x == b + y <==> a == b && x == y
  {
    if a + x == b + y {
      assert |a| == |b|;
      assert a == (a + x)[..|a|] && b == (b + y)[..|b|];
      assert x == (a + x)[|a|..] && y == (b + y)[|b|..];
    }
  }

  lemma NeighbourCount(stack: seq<Frame>, offset: nat, period: nat)
    requires period > 0 && offset + period < |stack|
    ensures |EqualNeighbours(stack, offset, period)| + 1 == ChunkCount(stack, offset, period)
  {
    assert (|stack| - offset) / period >= 1;
  }

  lemma NeighbourAt(stack: seq<Frame>, offset: nat, period: nat, k: nat)
    requires period > 0 && offset <= |stack| && k + 1 < ChunkCount(stack, offset, period)
    ensures k < |EqualNeighbours(stack, offset, period)|
    ensures EqualNeighbours(stack, offset, period)[k]
         == (Chunk(stack, offset, period, k + 1) == Chunk(stack, offset, period, k))
  {
    hide ChunkCount, Chunk;
  }

  /** The first chunk repeated gives the first `c` chunks exactly when all neighbours are equal. */
  lemma {:induction false} ChunksRepeat(stack: seq<Frame>, offset: nat, period: nat, c: nat)
    requires period > 0 && offset + period < |stack| && 1 <= c <= ChunkCount(stack, offset, period)
    ensures Covered(stack, offset, period, c) == Repeat(Chunk(stack, offset, period, 0), c)
       <==> forall k :: 0 <= k < c - 1 ==> EqualNeighbours(stack, offset, period)[k]
  {
    hide ChunkCount, Chunk, Covered, EqualNeighbours;
    var first := Chunk(stack, offset, period, 0);
    CoveredStep(stack, offset, period, c);
    NeighbourCount(stack, offset, period);
    if c == 1 {
      assert Repeat(first, 1) == Repeat(first, 0) + first;
    } else {
      var last, previous := Chunk(stack, offset, period, c - 1), Chunk(stack, offset, period, c - 2);
      var shorter := Covered(stack, offset, period, c - 1);
      ChunksRepeat(stack, offset, period, c - 1);
      AppendEqual(shorter, Repeat(first, c - 1), last, first);
      NeighbourAt(stack, offset, period, c - 2);
      assert shorter == Repeat(first, c - 1) ==> previous == first by {
        CoveredStep(stack, offset, period, c - 1);
        if c > 2 {
          AppendEqual(Covered(stack, offset, period, c - 2), Repeat(first, c - 2), previous, first);
        }
      }
    }
  }

  /**
   * Reading the report back gives the original stack exactly when the equal neighbours found are
   * an initial run: the handler counts all of them, not only the leading ones.
   */
  lemma ReadsBack(stack: seq<Frame>)
    ensures Expand(Compress(stack)) == stack
       <==> Detect(stack).None?
            || InitialRun(EqualNeighbours(stack, Detect(stack).value.offset, Detect(stack).value.period))
  {
    CyclesCount(stack);
    hide Detect, EqualNeighbours, Chunk, ChunkCount, Covered, Repeat, Split, Expand, Span, Count, InitialRun;
    match Detect(stack)
    case None => NothingReadsBack(stack);
    case Some(d) =>
      var equal := EqualNeighbours(stack, d.offset, d.period);
      RunCounts(equal);
      if d.cycles > 1 {
        ChunksRepeat(stack, d.offset, d.period, d.cycles);
        SplitReadsBack(stack, d);
      } else {
        UnsplitReadsBack(stack, d);
      }
  }

  lemma CyclesCount(stack: seq<Frame>)
    ensures Detect(stack).Some? ==>
              var d := Detect(stack).value;
              d.cycles == 1 + Count(EqualNeighbours(stack, d.offset, d.period))
  {
    hide EqualNeighbours, Count, RunnerMeetsWalker, RepeatsAfter, Position, ChunkCount, Span;
  }

  lemma NothingReadsBack(stack: seq<Frame>)
    ensures Expand(Report([], None, stack)) == stack
  {
  }

  lemma UnsplitReadsBack(stack: seq<Frame>, d: Detection)
    requires InBounds(stack, d) && d.cycles <= 1
    ensures Expand(Split(stack, d)) == stack
  {
    hide ChunkCount, Span;
  }

  /** A stack is its first `i` frames, the next `n`, and the rest. */
  lemma ThreeParts(stack: seq<Frame>, i: nat, n: nat)
    requires i + n <= |stack|
    ensures stack == stack[..i] + (stack[i..i + n] + stack[i + n..])
  {
  }

  lemma ExpandsCycle(prefix: seq<Frame>, cycle: seq<Frame>, times: nat, rest: seq<Frame>)
    ensures Expand(Report(prefix, Some(Cycle(cycle, times)), rest)) == prefix + (Repeat(cycle, times) + rest)
  {
  }

  lemma SplitReadsBack(stack: seq<Frame>, d: Detection)
    requires InBounds(stack, d) && d.cycles > 1
    ensures Expand(Split(stack, d)) == stack
       <==> Covered(stack, d.offset, d.period, d.cycles) == Repeat(Chunk(stack, d.offset, d.period, 0), d.cycles)
  {
    hide ChunkCount, Span, Expand, Repeat;
    var prefix, cycle := stack[..d.offset], stack[d.offset..d.offset + d.period];
    var rest := stack[d.offset + Span(d.period, d.cycles)..];
    var covered := Covered(stack, d.offset, d.period, d.cycles);
    assert cycle == Chunk(stack, d.offset, d.period, 0);
    ThreeParts(stack, d.offset, Span(d.period, d.cycles));
    RepeatLength(cycle, d.cycles);
    ExpandsCycle(prefix, cycle, d.cycles, rest);
    hide Chunk, Covered;
    AppendEqual(prefix, prefix, Repeat(cycle, d.cycles) + rest, covered + rest);
    AppendEqual(Repeat(cycle, d.cycles), covered, rest, rest);
  }

  lemma NeighboursOfTwoRuns(stack: seq<Frame>)
    requires stack == [1, 1, 2, 2]
    ensures EqualNeighbours(stack, 0, 1) == [true, false, true]
  {
    assert Chunk(stack, 0, 1, 0) == [1];
    assert Chunk(stack, 0, 1, 1) == [1];
    assert Chunk(stack, 0, 1, 2) == [2];
    assert Chunk(stack, 0, 1, 3) == [2];
    hide Chunk;
    var e := EqualNeighbours(stack, 0, 1);
    assert |e| == 3;
    assert e[0] && !e[1] && e[2];
  }

  lemma DetectsTwoRuns(stack: seq<Frame>)
    requires stack == [1, 1, 2, 2]
    ensures Detect(stack) == Some(Detection(1, 0, 3))
  {
    assert RunnerMeetsWalker(stack)[0];
    assert RepeatsAfter(stack, 1)[0];
    NeighboursOfTwoRuns(stack);
    assert Count([true, false, true]) == 2 by {
      assert Count([true]) == 1 && Count([false, true]) == 1;
    }
    hide EqualNeighbours, Count, ChunkCount;
  }

  /** Two separate runs of equal chunks are counted together and misreported. */
  lemma SeparateRunsMislead(stack: seq<Frame>)
    requires stack == [1, 1, 2, 2]
    ensures Compress(stack) == Report([], Some(Cycle([1], 3)), [2])
    ensures Expand(Compress(stack)) != stack
  {
    DetectsTwoRuns(stack);
    NeighboursOfTwoRuns(stack);
    hide Detect, EqualNeighbours, ChunkCount, Expand;
    ReadsBack(stack);
    assert [true, false, true][1 + 1] && ![true, false, true][1];
    assert stack[..0] == [] && stack[0..1] == [1] && stack[3..] == [2];
    assert Span(1, 3) == 3;
  }
}
