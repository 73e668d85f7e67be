/**
 * Counters and gauges on a shared 64-bit cell, updated by load and weak compare-exchange loops.
 *
 * Every call runs its own atomic steps; steps of different calls interleave freely and a weak
 * compare-exchange may fail for no reason.
 */
module AtomicCells {
  import Sorting

  const MODULUS: nat := 0x1_0000_0000_0000_0000

  type Word = w: nat | w < MODULUS

  type CallId = nat

  /** `Update` carries the gauge's change as a function on the stored bits. */
  datatype Op = Add(amount: Word) | Absolute(value: Word) | Update(f: Word -> Word) | Store(bits: Word)

  datatype Phase = Started | Loaded(seen: Word) | Done

  datatype Call = Call(op: Op, phase: Phase)

  /** `log` records, for the proofs only, the calls in the order they took effect. */
  datatype State = State(cell: Word, calls: map<CallId, Call>, log: seq<CallId>)

  /** What one call does to the cell when it runs alone. */
  function Apply(op: Op, cell: Word): Word {
    match op
    case Add(amount) => (cell + amount) % MODULUS
    case Absolute(value) => if value > cell then value else cell
    case Update(f) => f(cell)
    case Store(bits) => bits
  }

  predicate Loops(op: Op) {
    op.Absolute? || op.Update?
  }

  function WithPhase(s: State, c: CallId, phase: Phase): State
    requires c in s.calls
  {
    s.(calls := s.calls[c := s.calls[c].(phase := phase)])
  }

  /** The call takes effect now and is done. */
  function TakesEffect(s: State, c: CallId, cell: Word): State
    requires c in s.calls
  {
    WithPhase(s, c, Done).(cell := cell, log := s.log + [c])
  }

  /** What a looping call does with a value it has just read from the cell. */
  function AfterRead(s: State, c: CallId): State
    requires c in s.calls
  {
    var op := s.calls[c].op;
    if op.Absolute? && op.value <= s.cell then TakesEffect(s, c, s.cell) else WithPhase(s, c, Loaded(s.cell))
  }

  /** The value a looping call wants to exchange for the one it has seen. */
  function Wanted(op: Op, seen: Word): Word
    requires Loops(op)
  {
    match op
    case Absolute(value) => value
    case Update(f) => f(seen)
  }

  // ---------------------------------------------------------------- steps

  ghost predicate Begin(s: State, s': State, c: CallId, op: Op) {
    c !in s.calls && s' == s.(calls := s.calls[c := Call(op, Started)])
  }

  /** A plain `fetch_add` or `store`. */
  ghost predicate Single(s: State, s': State, c: CallId) {
    && c in s.calls && s.calls[c].phase.Started? && !Loops(s.calls[c].op)
    && s' == TakesEffect(
         s, c, if s.calls[c].op.Add? then (s.cell + s.calls[c].op.amount) % MODULUS else s.calls[c].op.bits)
  }

  ghost predicate Load(s: State, s': State, c: CallId) {
    c in s.calls && s.calls[c].phase.Started? && Loops(s.calls[c].op) && s' == AfterRead(s, c)
  }

  ghost predicate Exchange(s: State, s': State, c: CallId) {
    && c in s.calls && s.calls[c].phase.Loaded? && Loops(s.calls[c].op) && s.calls[c].phase.seen == s.cell
    && s' == TakesEffect(s, c, Wanted(s.calls[c].op, s.cell))
  }

  /** The exchange fails, spuriously or not, and hands back the current value. */
  ghost predicate Retry(s: State, s': State, c: CallId) {
    c in s.calls && s.calls[c].phase.Loaded? && Loops(s.calls[c].op) && s' == AfterRead(s, c)
  }

  ghost predicate Step(s: State, s': State, c: CallId) {
    || (exists op :: Begin(s, s', c, op))
    || Single(s, s', c)
    || Load(s, s', c)
    || Exchange(s, s', c)
    || Retry(s, s', c)
  }

  ghost predicate Next(s: State, s': State) {
    exists c: CallId :: Step(s, s', c)
  }

  ghost predicate IsRun(run: seq<State>) {
    && run != [] && run[0].calls == map[] && run[0].log == []
    && forall i :: 0 <= i < |run| - 1 ==> Next(run[i], run[i + 1])
  }

  // ---------------------------------------------------------------- every call exactly once

  /** The calls of the log applied one after the other. */
  function Fold(cell: Word, calls: map<CallId, Call>, log: seq<CallId>): Word
    requires forall c :: c in log ==> c in calls
  {
    if log == [] then cell
    else Apply(calls[log[|log| - 1]].op, Fold(cell, calls, log[..|log| - 1]))
  }

  /** A done call took effect exactly once, any other call not at all. */
  ghost predicate OncePerCall(s: State) {
    && (forall c :: c in s.log <==> c in s.calls && s.calls[c].phase.Done?)
    && Sorting.NoRepeats(s.log)
  }

  /** An `absolute` loop goes on only while its value is larger than the one it has seen. */
  predicate LoadedOk(call: Call) {
    call.phase.Loaded? && call.op.Absolute? ==> call.op.value > call.phase.seen
  }

  ghost predicate Inv(initial: Word, s: State) {
    && OncePerCall(s) && s.cell == Fold(initial, s.calls, s.log)
    && forall c :: c in s.calls ==> LoadedOk(s.calls[c])
  }

  lemma {:induction false} FoldIgnoresOthers(cell: Word, calls: map<CallId, Call>, calls': map<CallId, Call>,
                                             log: seq<CallId>)
    requires forall c :: c in log ==> c in calls && c in calls' && calls[c].op == calls'[c].op
    ensures Fold(cell, calls, log) == Fold(cell, calls', log)
  {
    if log != [] {
      assert log[|log| - 1] in log;
      FoldIgnoresOthers(cell, calls, calls', log[..|log| - 1]);
    }
  }

  lemma EffectKeepsInv(initial: Word, s: State, c: CallId, cell: Word)
    requires Inv(initial, s) && c in s.calls && !s.calls[c].phase.Done? && cell == Apply(s.calls[c].op, s.cell)
    ensures Inv(initial, TakesEffect(s, c, cell))
  {
    var s' := TakesEffect(s, c, cell);
    assert s'.log[..|s.log|] == s.log;
    FoldIgnoresOthers(initial, s.calls, s'.calls, s.log);
    assert s'.cell == Fold(initial, s'.calls, s'.log) by { hide OncePerCall, LoadedOk, Apply; }
    hide Apply, Fold;
    assert OncePerCall(s');
  }

  lemma PhaseKeepsInv(initial: Word, s: State, c: CallId, call: Call)
    requires Inv(initial, s) && !call.phase.Done? && LoadedOk(call)
    requires c in s.calls ==> !s.calls[c].phase.Done? && call.op == s.calls[c].op
    ensures Inv(initial, s.(calls := s.calls[c := call]))
  {
    hide Apply;
    FoldIgnoresOthers(initial, s.calls, s.calls[c := call], s.log);
  }

  lemma StepKeepsInv(initial: Word, s: State, s': State, c: CallId)
    requires Inv(initial, s) && Step(s, s', c)
    ensures Inv(initial, s')
  {
    assert c in s.calls ==> LoadedOk(s.calls[c]);
    hide Inv, Fold, OncePerCall;
    if op :| Begin(s, s', c, op) {
      PhaseKeepsInv(initial, s, c, Call(op, Started)) by {
        assert c !in s.calls;
      }
    } else if s' == TakesEffect(s, c, s'.cell) {
      EffectKeepsInv(initial, s, c, s'.cell);
    } else {
      PhaseKeepsInv(initial, s, c, s.calls[c].(phase := Loaded(s.cell)));
    }
  }

  lemma {:induction false} EveryRunKeepsInv(run: seq<State>, i: nat)
    requires IsRun(run) && i < |run|
    ensures Inv(run[0].cell, run[i])
  {
    if i > 0 {
      EveryRunKeepsInv(run, i - 1);
      hide Step, Inv;
      assert Next(run[i - 1], run[i - 1 + 1]);
      var c :| Step(run[i - 1], run[i], c);
      StepKeepsInv(run[0].cell, run[i - 1], run[i], c);
    }
  }

  /**
   * In every state of every run each finished call has been applied exactly once, no other call at
   * all, and the cell holds their effects in the order of the successful exchanges.
   */
  lemma EveryRunFolds(run: seq<State>, i: nat)
    requires IsRun(run) && i < |run|
    ensures var s := run[i]; OncePerCall(s) && s.cell == Fold(run[0].cell, s.calls, s.log)
  {
    EveryRunKeepsInv(run, i);
    hide IsRun, Fold;
  }

  // ---------------------------------------------------------------- counters

  ghost predicate OnlyAbsolute(s: State) {
    forall c :: c in s.calls ==> s.calls[c].op.Absolute?
  }

  /** The greatest of a start value and the values of the logged calls. */
  ghost predicate IsMaximum(cell: Word, start: Word, s: State) {
    && start <= cell
    && (forall c :: c in s.log && c in s.calls && s.calls[c].op.Absolute? ==> s.calls[c].op.value <= cell)
    && (cell == start || exists c :: c in s.log && c in s.calls && s.calls[c].op == Absolute(cell))
  }

  lemma {:induction false} FoldIsMaximum(start: Word, s: State, n: nat)
    requires n <= |s.log| && OnlyAbsolute(s) && forall c :: c in s.log ==> c in s.calls
    ensures IsMaximum(Fold(start, s.calls, s.log[..n]), start, s.(log := s.log[..n]))
  {
    if n > 0 {
      FoldIsMaximum(start, s, n - 1);
      var c := s.log[n - 1];
      assert s.log[..n][..n - 1] == s.log[..n - 1];
      assert s.log[..n] == s.log[..n - 1] + [c];
      assert c in s.log && c in s.log[..n];
      var before, after := Fold(start, s.calls, s.log[..n - 1]), Fold(start, s.calls, s.log[..n]);
      assert after == Apply(Absolute(s.calls[c].op.value), before);
      hide Fold;
    }
  }

  /** With `absolute` calls only, a quiet counter holds the maximum of its start and all arguments. */
  lemma CounterHoldsMaximum(run: seq<State>, i: nat)
    requires IsRun(run) && i < |run| && OnlyAbsolute(run[i])
    requires forall c :: c in run[i].calls ==> run[i].calls[c].phase.Done?
    ensures run[0].cell <= run[i].cell
    ensures forall c :: c in run[i].calls ==> run[i].calls[c].op.value <= run[i].cell
    ensures run[i].cell == run[0].cell || exists c :: c in run[i].calls && run[i].calls[c].op == Absolute(run[i].cell)
  {
    var s := run[i];
    EveryRunFolds(run, i);
    hide Fold, IsRun;
    FoldIsMaximum(run[0].cell, s, |s.log|);
    assert s.log[..|s.log|] == s.log;
  }

  lemma StepOnlyRaises(initial: Word, s: State, s': State, c: CallId)
    requires Inv(initial, s) && Step(s, s', c) && OnlyAbsolute(s')
    ensures s.cell <= s'.cell && OnlyAbsolute(s)
  {
    assert c in s.calls ==> LoadedOk(s.calls[c]);
    hide Inv;
    forall d | d in s.calls ensures s.calls[d].op.Absolute? {
      assert d in s'.calls && s'.calls[d].op == s.calls[d].op;
    }
  }

  /** With `absolute` calls only, a counter never decreases. */
  lemma {:induction false} CounterNeverDecreases(run: seq<State>, i: nat, j: nat)
    requires IsRun(run) && i <= j < |run| && OnlyAbsolute(run[j])
    ensures run[i].cell <= run[j].cell
    decreases j - i
  {
    if i < j {
      EveryRunKeepsInv(run, j - 1);
      assert Next(run[j - 1], run[j - 1 + 1]);
      hide Step, Inv, IsRun, OnlyAbsolute;
      var c :| Step(run[j - 1], run[j], c);
      StepOnlyRaises(run[0].cell, run[j - 1], run[j], c);
      CounterNeverDecreases(run, i, j - 1);
    }
  }

  /** The amounts of the logged calls, added up without a bound. */
  function Total(calls: map<CallId, Call>, log: seq<CallId>): nat
    requires forall c :: c in log ==> c in calls && calls[c].op.Add?
  {
    if log == [] then 0 else Total(calls, log[..|log| - 1]) + calls[log[|log| - 1]].op.amount
  }

  lemma WrapsOnce(a: nat, b: nat)
    ensures (a % MODULUS + b) % MODULUS == (a + b) % MODULUS
  {
    var q := a / MODULUS;
    assert a == q * MODULUS + a % MODULUS;
    SameRemainder(a % MODULUS + b, q);
  }

  lemma SameRemainder(a: nat, q: nat)
    ensures (a + q * MODULUS) % MODULUS == a % MODULUS
  {
  }

  lemma {:induction false} FoldIsTotal(start: Word, calls: map<CallId, Call>, log: seq<CallId>)
    requires forall c :: c in log ==> c in calls && calls[c].op.Add?
    ensures Fold(start, calls, log) == (start + Total(calls, log)) % MODULUS
  {
    if log != [] {
      var c := log[|log| - 1];
      assert c in log;
      FoldIsTotal(start, calls, log[..|log| - 1]);
      WrapsOnce(start + Total(calls, log[..|log| - 1]), calls[c].op.amount);
    }
  }

  /**
   * With additions only, a quiet counter holds its start plus all amounts, modulo two to the 64th;
   * the log names every call exactly once.
   */
  lemma CounterHoldsSum(run: seq<State>, i: nat)
    requires IsRun(run) && i < |run|
    requires forall c :: c in run[i].calls ==> run[i].calls[c].op.Add? && run[i].calls[c].phase.Done?
    ensures var s := run[i];
            && (forall c :: c in s.log <==> c in s.calls)
            && (forall j, k :: 0 <= j < k < |s.log| ==> s.log[j] != s.log[k])
            && s.cell == (run[0].cell + Total(s.calls, s.log)) % 0x1_0000_0000_0000_0000
  {
    EveryRunFolds(run, i);
    hide IsRun, Fold, Total;
    FoldIsTotal(run[0].cell, run[i].calls, run[i].log);
  }

  /** A state whose last effect was a store holds the stored bits, and after an update the update's result. */
  lemma LastEffectStays(run: seq<State>, i: nat)
    requires IsRun(run) && i < |run| && run[i].log != []
    ensures var s := run[i];
            var c, earlier := s.log[|s.log| - 1], s.log[..|s.log| - 1];
            && c in s.calls && (forall d :: d in earlier ==> d in s.calls)
            && (s.calls[c].op.Store? ==> s.cell == s.calls[c].op.bits)
            && (s.calls[c].op.Update? ==> s.cell == s.calls[c].op.f(Fold(run[0].cell, s.calls, earlier)))
  {
    EveryRunFolds(run, i);
    hide IsRun;
    assert run[i].log[|run[i].log| - 1] in run[i].log;
  }
}
