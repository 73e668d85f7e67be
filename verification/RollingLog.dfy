/**
 * The size-based rolling log file.
 *
 * The directory maps a file's index to its contents: 0 is the active file, `n` the file ending in
 * `.n`. Missing files are the only failure of a rename.
 */
module RollingLog {
  import opened Prelude

  type Byte = bv8
  type Bytes = seq<Byte>

  /** One buffer passed to a single write, or the initial contents of one file. */
  type Record = Bytes

  function Concat(records: seq<Record>): Bytes {
    if records == [] then [] else records[0] + Concat(records[1..])
  }

  lemma {:induction false} ConcatAppend(a: seq<Record>, b: seq<Record>)
    ensures Concat(a + b) == Concat(a) + Concat(b)
  {
    if a == [] {
      assert a + b == b;
    } else {
      assert (a + b)[1..] == a[1..] + b;
      ConcatAppend(a[1..], b);
    }
  }

  lemma ConcatNone()
    ensures Concat([]) == []
  {
  }

  lemma ConcatOne(r: Record)
    ensures Concat([r]) == r
  {
    assert [r][1..] == [];
  }

  function At<T>(files: map<nat, seq<T>>, n: nat): Option<seq<T>> {
    if n in files then Some(files[n]) else None
  }

  function OrEmpty<T>(o: Option<seq<T>>): seq<T> {
    match o
    case Some(s) => s
    case None => []
  }

  /** The contents of files `n` down to 0, oldest first. */
  function Chain<T>(files: map<nat, seq<T>>, n: nat): seq<T> {
    OrEmpty(At(files, n)) + (if n == 0 then [] else Chain(files, n - 1))
  }

  /**
   * File `n` once the renames of files `from` and later are done: each went one index up, and the
   * file at `top` stays only when nothing moved onto it and removing it failed.
   */
  function Shifted<T>(files: map<nat, seq<T>>, top: nat, removed: bool, from: nat, n: nat): Option<seq<T>> {
    if n > top || n < from then At(files, n)
    else if n > from && n - 1 in files then Some(files[n - 1])
    else if n == top && !removed then At(files, top)
    else None
  }

  ghost predicate IsShifted<T>(before: map<nat, seq<T>>, after: map<nat, seq<T>>, top: nat, removed: bool, from: nat) {
    forall n: nat :: At(after, n) == Shifted(before, top, removed, from, n)
  }

  /**
   * File `n` after a rotation: up to index `maxFiles`, or the first one, it takes the contents of
   * the file before it, and only an oldest file that could not be removed stays.
   */
  function AfterRotation(before: map<nat, Bytes>, maxFiles: nat, removed: bool, n: nat): Option<Bytes>
    requires n > 0
  {
    if n > 1 && n > maxFiles then At(before, n)
    else if n - 1 in before then Some(before[n - 1])
    else if n >= maxFiles && !removed then At(before, n)
    else None
  }

  ghost predicate IsRotated(before: map<nat, Bytes>, after: map<nat, Bytes>, maxFiles: nat, removed: bool) {
    forall n: nat :: n > 0 ==> At(after, n) == AfterRotation(before, maxFiles, removed, n)
  }

  /** Opening a new active file afterwards changes no numbered file. */
  lemma ShiftedIsRotated(before: map<nat, Bytes>, shifted: map<nat, Bytes>, after: map<nat, Bytes>, maxFiles: nat,
                         removed: bool)
    requires IsShifted(before, shifted, if maxFiles > 1 then maxFiles else 1, removed, 0)
    requires SameNumbered(shifted, after)
    ensures IsRotated(before, after, maxFiles, removed)
  {
    forall n: nat | n > 0 ensures At(after, n) == AfterRotation(before, maxFiles, removed, n) {
      assert At(shifted, n) == Shifted(before, if maxFiles > 1 then maxFiles else 1, removed, 0, n);
    }
  }

  /** Only the active file differs. */
  ghost predicate SameNumbered(before: map<nat, Bytes>, after: map<nat, Bytes>) {
    forall n: nat :: n > 0 ==> At(after, n) == At(before, n)
  }

  /** `rename` from index `i` to `i + 1`; a missing source changes nothing. */
  function Rename<T>(files: map<nat, seq<T>>, i: nat): map<nat, seq<T>> {
    if i in files then (files - {i})[i + 1 := files[i]] else files
  }

  lemma RemovalShifts<T>(files: map<nat, seq<T>>, top: nat, removed: bool)
    ensures IsShifted(files, if removed then files - {top} else files, top, removed, top)
  {
  }

  lemma RenameShifts<T>(before: map<nat, seq<T>>, files: map<nat, seq<T>>, top: nat, removed: bool, i: nat)
    requires i < top && IsShifted(before, files, top, removed, i + 1)
    ensures IsShifted(before, Rename(files, i), top, removed, i)
  {
    assert At(files, i) == At(before, i);
    forall n: nat ensures At(Rename(files, i), n) == Shifted(before, top, removed, i, n) {
      assert At(files, n) == Shifted(before, top, removed, i + 1, n);
    }
  }

  lemma {:induction false} ChainBelow<T>(before: map<nat, seq<T>>, after: map<nat, seq<T>>, top: nat, removed: bool,
                                         n: nat)
    requires IsShifted(before, after, top, removed, 0) && n < top
    ensures Chain(after, n) == if n == 0 then [] else Chain(before, n - 1)
  {
    assert At(after, n) == Shifted(before, top, removed, 0, n);
    if n > 0 {
      ChainBelow(before, after, top, removed, n - 1);
      assert Chain(after, n) == OrEmpty(At(before, n - 1)) + Chain(after, n - 1);
    }
  }

  lemma ChainStep<T>(files: map<nat, seq<T>>, n: nat)
    ensures Chain(files, n) == if n == 0 then OrEmpty(At(files, 0)) else OrEmpty(At(files, n)) + Chain(files, n - 1)
  {
  }

  lemma Reassociate<T>(a: seq<T>, b: seq<T>, c: seq<T>)
    ensures a + (b + c) == (a + b) + c
  {
  }

  /** What a rotation loses: the oldest file, unless it could stay. */
  function LostByShift<T>(files: map<nat, seq<T>>, top: nat, removed: bool): seq<T>
    requires top > 0
  {
    if top - 1 in files || removed then OrEmpty(At(files, top)) else []
  }

  /** A rotation keeps every retained byte in order, except for the whole oldest file. */
  lemma RotationLosesOldest<T>(before: map<nat, seq<T>>, after: map<nat, seq<T>>, top: nat, removed: bool)
    requires top > 0 && IsShifted(before, after, top, removed, 0)
    ensures Chain(before, top) == LostByShift(before, top, removed) + Chain(after, top)
  {
    hide Chain;
    ChainBelow(before, after, top, removed, top - 1);
    assert At(after, top) == Shifted(before, top, removed, 0, top);
    hide IsShifted;
    ChainStep(after, top);
    ChainStep(before, top);
    ChainStep(before, top - 1);
    var rest := if top == 1 then [] else Chain(before, top - 2);
    assert Chain(before, top - 1) == OrEmpty(At(before, top - 1)) + rest;
    assert Chain(after, top) == OrEmpty(At(after, top)) + rest;
    if top - 1 in before {
      assert Chain(after, top) == Chain(before, top - 1);
    } else if removed {
      assert Chain(after, top) == rest == Chain(before, top - 1);
    } else {
      assert Chain(after, top) == OrEmpty(At(before, top)) + Chain(before, top - 1);
    }
  }

  lemma {:induction false} SameChain<T>(f: map<nat, seq<T>>, g: map<nat, seq<T>>, n: nat)
    requires forall k: nat :: k <= n ==> OrEmpty(At(f, k)) == OrEmpty(At(g, k))
    ensures Chain(f, n) == Chain(g, n)
  {
    if n > 0 {
      SameChain(f, g, n - 1);
    }
  }

  /** File `n` holds exactly its records, the buffered bytes counting towards the active file. */
  ghost predicate Holds(files: map<nat, Bytes>, records: map<nat, seq<Record>>, buffered: Bytes, n: nat) {
    && (n in records <==> n in files)
    && (n in files ==> Concat(records[n]) == files[n] + (if n == 0 then buffered else []))
  }

  ghost predicate HoldsAll(files: map<nat, Bytes>, records: map<nat, seq<Record>>, buffered: Bytes) {
    forall n: nat :: Holds(files, records, buffered, n)
  }

  lemma RotatedHolds(files: map<nat, Bytes>, records: map<nat, seq<Record>>,
                     files': map<nat, Bytes>, records': map<nat, seq<Record>>, top: nat, removed: bool)
    requires HoldsAll(files, records, [])
    requires IsShifted(files, files', top, removed, 0) && IsShifted(records, records', top, removed, 0)
    ensures HoldsAll(files', records', [])
  {
    forall n: nat ensures Holds(files', records', [], n) {
      assert Holds(files, records, [], n);
      assert n > 0 ==> Holds(files, records, [], n - 1);
      assert At(files', n) == Shifted(files, top, removed, 0, n);
      assert At(records', n) == Shifted(records, top, removed, 0, n);
    }
  }

  lemma FileHolds(files: map<nat, Bytes>, records: map<nat, seq<Record>>, buffered: Bytes, n: nat)
    requires HoldsAll(files, records, buffered) && (0 in files || buffered == [])
    ensures Concat(OrEmpty(At(records, n))) == OrEmpty(At(files, n)) + (if n == 0 then buffered else [])
  {
    assert Holds(files, records, buffered, n);
    ConcatNone();
    hide Concat;
  }

  /** The bytes of the retained files and the buffer are those of the retained records. */
  lemma {:induction false} ChainHolds(files: map<nat, Bytes>, records: map<nat, seq<Record>>, buffered: Bytes, n: nat)
    requires HoldsAll(files, records, buffered) && (0 in files || buffered == [])
    ensures Concat(Chain(records, n)) == Chain(files, n) + buffered
  {
    hide HoldsAll, Concat, OrEmpty, At, Chain;
    FileHolds(files, records, buffered, n);
    ChainStep(files, n);
    ChainStep(records, n);
    if n > 0 {
      ChainHolds(files, records, buffered, n - 1);
      ConcatAppend(OrEmpty(At(records, n)), Chain(records, n - 1));
      Reassociate(OrEmpty(At(files, n)), Chain(files, n - 1), buffered);
    }
  }

  lemma {:induction false} ChainAppend(records: map<nat, seq<Record>>, r: Record, n: nat)
    requires 0 in records
    ensures Chain(records[0 := records[0] + [r]], n) == Chain(records, n) + [r]
  {
    if n > 0 {
      ChainAppend(records, r, n - 1);
      assert Chain(records, n) == OrEmpty(At(records, n)) + Chain(records, n - 1);
    }
  }

  lemma AppendHolds(files: map<nat, Bytes>, files': map<nat, Bytes>, records: map<nat, seq<Record>>,
                    buffered: Bytes, buffered': Bytes, r: Record)
    requires HoldsAll(files, records, buffered) && 0 in files && 0 in files' && 0 in records
    requires files' == files[0 := files'[0]] && files'[0] + buffered' == files[0] + buffered + r
    ensures HoldsAll(files', records[0 := records[0] + [r]], buffered')
  {
    var appended := records[0 := records[0] + [r]];
    forall n: nat ensures Holds(files', appended, buffered', n) {
      assert Holds(files, records, buffered, n);
      if n == 0 {
        ConcatAppend(records[0], [r]);
        ConcatOne(r);
      }
    }
  }

  class RollingFileAppender {
    const maxSize: nat
    const maxFiles: nat
    /** The buffered writer's capacity. */
    const capacity: nat

    var files: map<nat, Bytes>
    var currentFilesize: nat
    /** Bytes accepted but not yet in the active file; absent while no writer is open. */
    var writer: Option<Bytes>

    /** The records each file holds, the buffered ones included. */
    ghost var records: map<nat, seq<Record>>
    /** Every record since the appender was created, the initial files first. */
    ghost var log: seq<Record>
    /** Records lost to rotations. */
    ghost var lost: seq<Record>

    function Top(): nat {
      if maxFiles > 1 then maxFiles else 1
    }

    function Buffered(): Bytes
      reads this
    {
      OrEmpty(writer)
    }

    /** The active file as a reader would see it after a flush. */
    function Active(): Bytes
      reads this
    {
      OrEmpty(At(files, 0)) + Buffered()
    }

    ghost predicate Valid()
      reads this
    {
      && HoldsAll(files, records, Buffered())
      && log == lost + Chain(records, Top())
      && (writer.Some? ==> 0 in files && currentFilesize == |Active()|)
      && (writer.None? ==> currentFilesize == 0)
    }

    /** The retained files, oldest first, and the buffer are a suffix of everything ever logged. */
    lemma RetainedIsSuffix()
      requires Valid()
      ensures Concat(log) == Concat(lost) + (Chain(files, Top()) + Buffered())
    {
      ChainHolds(files, records, Buffered(), Top());
      ConcatAppend(lost, Chain(records, Top()));
    }

    constructor (maxSize: nat, maxFiles: nat, capacity: nat, initial: map<nat, Bytes>)
      ensures Valid() && writer == Some([]) && lost == []
      ensures this.maxSize == maxSize && this.maxFiles == maxFiles && this.capacity == capacity
      ensures files == if 0 in initial then initial else initial[0 := []]
    {
      this.maxSize, this.maxFiles, this.capacity := maxSize, maxFiles, capacity;
      currentFilesize := 0;
      writer := None;
      files := initial;
      records := map n | n in initial :: [initial[n]];
      lost := [];
      log := Chain(map n | n in initial :: [initial[n]], if maxFiles > 1 then maxFiles else 1);
      new;
      forall n: nat ensures Holds(files, records, [], n) {
        if n in initial {
          ConcatOne(initial[n]);
        }
      }
      OpenWriterIfNeeded();
    }

    method OpenWriterIfNeeded()
      requires Valid()
      modifies this`files, this`currentFilesize, this`writer, this`records
      ensures Valid() && writer == if old(writer).Some? then old(writer) else Some([])
      ensures files == if old(writer).Some? || 0 in old(files) then old(files) else old(files)[0 := []]
      ensures records == if old(writer).Some? || 0 in old(files) then old(records) else old(records)[0 := []]
    {
      if writer.None? {
        if 0 !in files {
          files := files[0 := []];
          ghost var created := records[0 := []];
          assert Holds(old(files), records, [], 0);
          SameChain(records, created, Top());
          forall n: nat ensures Holds(files, created, [], n) {
            assert Holds(old(files), records, [], n);
          }
          records := created;
        }
        writer := Some([]);
        currentFilesize := |files[0]|;
      }
    }

    method Flush()
      requires Valid()
      modifies this`files, this`writer
      ensures Valid()
      ensures writer == if old(writer).Some? then Some([]) else None
      ensures files == if old(writer).Some? then old(files)[0 := old(Active())] else old(files)
    {
      if writer.Some? {
        files := files[0 := files[0] + writer.value];
        writer := Some([]);
        forall n: nat ensures Holds(files, records, [], n) {
          assert Holds(old(files), records, old(Buffered()), n);
        }
      }
    }

    /** `removed` says whether the operating system let the oldest file be removed. */
    method RotateFiles(removed: bool)
      requires Valid() && writer.None?
      modifies this`files, this`records, this`lost
      ensures Valid()
      ensures IsShifted(old(files), files, Top(), removed, 0)
      ensures IsShifted(old(records), records, Top(), removed, 0)
      ensures lost == old(lost) + LostByShift(old(records), Top(), removed)
    {
      ghost var records0 := records;
      hide IsShifted, Rename, Chain, Concat, HoldsAll, LostByShift;
      RemovalShifts(files, Top(), removed);
      RemovalShifts(records, Top(), removed);
      if removed {
        files := files - {Top()};
        records := records - {Top()};
      }
      var i: nat := Top();
      while i > 0
        invariant i <= Top()
        invariant IsShifted(old(files), files, Top(), removed, i)
        invariant IsShifted(records0, records, Top(), removed, i)
        invariant lost == old(lost)
      {
        i := i - 1;
        RenameShifts(old(files), files, Top(), removed, i);
        RenameShifts(records0, records, Top(), removed, i);
        files := Rename(files, i);
        records := Rename(records, i);
      }
      RotationLosesOldest(records0, records, Top(), removed);
      RotatedHolds(old(files), records0, files, records, Top(), removed);
      lost := lost + LostByShift(records0, Top(), removed);
    }

    /** Closes the active file, moves every file one index up and opens a new active file. */
    method Rollover(removed: bool)
      requires Valid()
      modifies this`files, this`currentFilesize, this`writer, this`records, this`lost
      ensures Valid() && writer == Some([]) && Active() == []
      ensures IsRotated(old(Flushed()), files, maxFiles, removed)
      ensures lost == old(lost) + LostByShift(old(records), Top(), removed)
    {
      Flush();
      writer := None;
      currentFilesize := 0;
      assert files == old(Flushed());
      RotateFiles(removed);
      ghost var rotated := files;
      assert At(files, 0) == Shifted(old(Flushed()), Top(), removed, 0, 0);
      OpenWriterIfNeeded();
      ShiftedIsRotated(old(Flushed()), rotated, files, maxFiles, removed);
    }

    /** The directory after a flush. */
    function Flushed(): map<nat, Bytes>
      reads this
      requires writer.Some? ==> 0 in files
    {
      if writer.Some? then files[0 := Active()] else files
    }

    /**
     * The buffered writer's own policy: small writes are copied, a full buffer is flushed first,
     * writes of at least the capacity bypass it.
     */
    method BufferedWriteAll(buf: Bytes)
      requires Valid() && writer.Some? && |Buffered()| <= capacity
      modifies this`files, this`writer
      ensures writer.Some? && |Buffered()| <= capacity && 0 in files
      ensures Active() == old(Active()) + buf
      ensures files == old(files)[0 := files[0]]
    {
      if |buf| < capacity - |writer.value| {
        writer := Some(writer.value + buf);
      } else {
        if |buf| > capacity - |writer.value| {
          Flush();
        }
        if |buf| >= capacity {
          files := files[0 := files[0] + buf];
        } else {
          writer := Some(writer.value + buf);
        }
      }
    }

    /**
     * One write: the whole of `buf` becomes one record at the end of the active file, in a new
     * active file when the old one has reached the maximum size.
     */
    method Write(buf: Bytes, removed: bool) returns (written: nat)
      requires Valid() && |Buffered()| <= capacity
      modifies this
      ensures Valid() && |Buffered()| <= capacity && written == |buf|
      ensures log == old(log) + [buf]
      ensures 0 in files && writer.Some?
      ensures var size := if old(writer).Some? then |old(files)[0]| + |old(writer).value| else 0;
              if size >= maxSize then
                && files[0] + writer.value == buf
                && (old(writer).Some? ==>
                      IsRotated(old(files)[0 := old(files)[0] + old(writer).value], files, maxFiles, removed))
                && (old(writer).None? ==> IsRotated(old(files), files, maxFiles, removed))
                && lost == old(lost) + LostByShift(old(records), Top(), removed)
              else
                && files[0] + writer.value
                   == (if 0 in old(files) then old(files)[0] else [])
                      + (if old(writer).Some? then old(writer).value else []) + buf
                && SameNumbered(old(files), files) && lost == old(lost)
    {
      hide Shifted, LostByShift, Concat;
      hide Chain;
      if currentFilesize >= maxSize {
        Rollover(removed);
      }
      OpenWriterIfNeeded();
      assert 0 in records by { assert Holds(files, records, Buffered(), 0); }
      hide HoldsAll;
      ghost var files0, buffered0 := files, Buffered();
      BufferedWriteAll(buf);
      currentFilesize := currentFilesize + |buf|;
      ChainAppend(records, buf, Top());
      AppendHolds(files0, files, records, buffered0, Buffered(), buf);
      records := records[0 := records[0] + [buf]];
      log := log + [buf];
      written := |buf|;
    }
  }
}
