/**
 What the striper's calls do to its cached metadata and to the file, as functions on values, and
 the properties of whole runs of calls: how the allocation grows and shrinks, that the striped
 file is a flat byte sequence, and that no object is left behind.
 */
module StriperSpec {
  import opened Wrappers
  import opened StriperMeta
  import opened Bytes
  import opened StripedStore

  /** Cached metadata, and the store as it will be once everything in flight has landed. */
  datatype File = File(size: nat, alloc: nat, version: nat, dirty: bool, view: Store)

  predicate AllocOk(alloc: nat) {
    alloc == 0 || (alloc >= MIN_GROWTH && alloc % OBJECT_SIZE == 0)
  }

  /** What every sequence of calls keeps, however sparse. */
  predicate Wf(f: File) {
    && AllocOk(f.alloc)
    && f.view.meta.alloc == f.alloc
    && f.view.meta.version == f.version
    && (!f.dirty ==> f.view.meta.size == f.size)
    && 0 in f.view.objs
  }

  function RoundUp(n: nat): (r: nat)
    ensures n <= r < n + OBJECT_SIZE && r % OBJECT_SIZE == 0
  {
    (n + (OBJECT_SIZE - 1)) / OBJECT_SIZE * OBJECT_SIZE
  }

  // ---------------------------------------------------------------- the calls

  function Max(a: nat, b: nat): nat {
    if a < b then b else a
  }

  /** The stripes shrink_alloc removes: never the first, and nothing at or past the allocation. */
  predicate Pruned(k: nat, a: nat, alloc: nat) {
    Max(a, OBJECT_SIZE) <= k * OBJECT_SIZE < alloc
  }

  function ShrinkAlloc(f: File, a: nat): File {
    var u := Update(None, Some(a), f.version + 1);
    var objs := map k | k in f.view.objs && !Pruned(k, a, f.alloc) :: f.view.objs[k];
    f.(alloc := a, version := f.version + 1, view := Store(objs, Applied(f.view.meta, u)))
  }

  function MaybeShrinkAlloc(f: File): File {
    if f.size == 0 then
      if f.alloc > 0 then ShrinkAlloc(f, 0) else f
    else
      var a := MIN_GROWTH + RoundUp(f.size);
      if f.alloc > a && f.alloc - a > MIN_GROWTH then ShrinkAlloc(f, a) else f
  }

  /** Growth rounds up from the current size, not from the new one. */
  function Grown(f: File): nat {
    MIN_GROWTH + RoundUp(f.size)
  }

  function SetMetadata(f: File, newSize: nat, updateSize: bool): File {
    var grow := newSize > f.alloc;
    if !grow && !updateSize then f
    else
      var u := Update(if updateSize then Some(newSize) else None,
                      if grow then Some(Grown(f)) else None,
                      f.version + 1);
      var f1 := f.(alloc := if grow then Grown(f) else f.alloc,
                   version := f.version + 1,
                   view := f.view.(meta := Applied(f.view.meta, u)));
      if updateSize then MaybeShrinkAlloc(f1.(size := newSize, dirty := false)) else f1
  }

  function Write(f: File, off: nat, data: seq<Byte>): File {
    var end := off + |data|;
    var f1 := if f.alloc < end then SetMetadata(f, end, false) else f;
    var f2 := f1.(view := ApplyOps(f1.view, WriteOps(off, data)));
    if f2.size < end then f2.(size := end, dirty := true) else f2
  }

  function Truncate(f: File, size: nat): File {
    SetMetadata(f, size, true)
  }

  function Flush(f: File): File {
    if f.dirty then SetMetadata(f, f.size, true) else f
  }

  function Remove(f: File): File {
    var f1 := SetMetadata(f, 0, true);
    f1.(view := ApplyOp(f1.view, RemoveOp(0)))
  }

  datatype Call = WriteCall(off: nat, data: seq<Byte>) | TruncateCall(size: nat) | FlushCall

  function Do(f: File, call: Call): File {
    match call
    case WriteCall(off, data) => Write(f, off, data)
    case TruncateCall(size) => Truncate(f, size)
    case FlushCall => Flush(f)
  }

  function Run(f: File, calls: seq<Call>): File
    decreases |calls|
  {
    if calls == [] then f else Run(Do(f, calls[0]), calls[1..])
  }

  // ---------------------------------------------------------------- metadata

  lemma MaybeShrinkKeepsWf(f: File)
    requires Wf(f)
    ensures Wf(MaybeShrinkAlloc(f))
    ensures MaybeShrinkAlloc(f).dirty == f.dirty && MaybeShrinkAlloc(f).size == f.size
  {
  }

  lemma SetMetadataKeepsWf(f: File, newSize: nat, updateSize: bool)
    requires Wf(f)
    ensures Wf(SetMetadata(f, newSize, updateSize))
    ensures updateSize ==> SetMetadata(f, newSize, updateSize).size == newSize
    ensures updateSize ==> !SetMetadata(f, newSize, updateSize).dirty
  {
  }

  lemma WriteKeepsWf(f: File, off: nat, data: seq<Byte>)
    requires Wf(f)
    ensures Wf(Write(f, off, data))
  {
    var end := off + |data|;
    var f1 := if f.alloc < end then SetMetadata(f, end, false) else f;
    WriteOpsKeys(f1.view, off, data);
  }

  lemma DoKeepsWf(f: File, call: Call)
    requires Wf(f)
    ensures Wf(Do(f, call))
  {
    match call
    case WriteCall(off, data) => WriteKeepsWf(f, off, data);
    case TruncateCall(size) => SetMetadataKeepsWf(f, size, true);
    case FlushCall => SetMetadataKeepsWf(f, f.size, true);
  }

  /** In every run the allocation is 0 or a whole number of objects of at least 128 MiB. */
  lemma {:induction false} RunKeepsWf(f: File, calls: seq<Call>)
    requires Wf(f)
    ensures Wf(Run(f, calls))
    decreases |calls|
  {
    if calls != [] {
      DoKeepsWf(f, calls[0]);
      RunKeepsWf(Do(f, calls[0]), calls[1..]);
    }
  }

  // ---------------------------------------------------------------- allocation

  /** The file lies inside its allocation and no object dangles past it. */
  ghost predicate Bounded(f: File) {
    && f.size <= f.alloc
    && forall k | k in f.view.objs :: k == 0 || k * OBJECT_SIZE < f.alloc
  }

  /** The end of the object that position n lies in, or n itself on a boundary. */
  function NextBoundary(n: nat): nat {
    if n % OBJECT_SIZE == 0 then n else n - n % OBJECT_SIZE + OBJECT_SIZE
  }

  /** How far a call may reach: the allocation, or 128 MiB past the boundary after the current size. */
  function Room(f: File): nat {
    Max(f.alloc, NextBoundary(f.size) + MIN_GROWTH)
  }

  lemma GrownIsRoom(f: File)
    ensures Grown(f) == NextBoundary(f.size) + MIN_GROWTH
  {
    RoundUpIs(f.size);
  }

  lemma RoundUpIs(n: nat)
    ensures RoundUp(n) == NextBoundary(n)
  {
  }

  predicate Fits(f: File, call: Call) {
    match call
    case WriteCall(off, data) => off + |data| <= Room(f)
    case TruncateCall(size) => size <= Room(f)
    case FlushCall => true
  }

  lemma ShrinkKeepsBounded(f: File)
    requires Wf(f) && Bounded(f)
    ensures Bounded(MaybeShrinkAlloc(f))
  {
  }

  lemma SetMetadataBounded(f: File, newSize: nat, updateSize: bool)
    requires Wf(f) && Bounded(f)
    ensures newSize <= Room(f) ==>
              Bounded(SetMetadata(f, newSize, updateSize)) &&
              (updateSize || newSize <= SetMetadata(f, newSize, updateSize).alloc)
    ensures updateSize && newSize > Room(f) ==>
              !Bounded(SetMetadata(f, newSize, updateSize))
  {
    GrownIsRoom(f);
    var grow := newSize > f.alloc;
    if updateSize {
      var u := Update(Some(newSize), if grow then Some(Grown(f)) else None, f.version + 1);
      var f1 := f.(alloc := if grow then Grown(f) else f.alloc, version := f.version + 1,
                   view := f.view.(meta := Applied(f.view.meta, u)), size := newSize, dirty := false);
      assert SetMetadata(f, newSize, updateSize) == MaybeShrinkAlloc(f1);
      if newSize <= Room(f) {
        ShrinkKeepsBounded(f1);
      }
    }
  }

  /** A call keeps the file inside its allocation exactly when it fits. */
  lemma BoundedExactly(f: File, call: Call)
    requires Wf(f) && Bounded(f)
    ensures Bounded(Do(f, call)) <==> Fits(f, call)
  {
    match call
    case WriteCall(off, data) =>
      var end := off + |data|;
      var f1 := if f.alloc < end then SetMetadata(f, end, false) else f;
      SetMetadataBounded(f, end, false);
      GrownIsRoom(f);
      WriteOpsKeys(f1.view, off, data);
    case TruncateCall(size) => SetMetadataBounded(f, size, true);
    case FlushCall => SetMetadataBounded(f, f.size, true);
  }

  /** One byte just past 128 MiB in a new file: the allocation ends before the byte. */
  lemma SparseWriteEscapes()
    ensures var f := File(0, 0, 0, false, Store(map[0 := []], Meta(0, 0, 0)));
            Wf(f) && Bounded(f) && !Bounded(Do(f, WriteCall(MIN_GROWTH, [0])))
  {
    var f := File(0, 0, 0, false, Store(map[0 := []], Meta(0, 0, 0)));
    BoundedExactly(f, WriteCall(MIN_GROWTH, [0]));
  }

  ghost predicate AllFit(f: File, calls: seq<Call>)
    decreases |calls|
  {
    calls == [] || (Fits(f, calls[0]) && AllFit(Do(f, calls[0]), calls[1..]))
  }

  lemma {:induction false} RunKeepsBounded(f: File, calls: seq<Call>)
    requires Wf(f) && Bounded(f) && AllFit(f, calls)
    ensures Wf(Run(f, calls)) && Bounded(Run(f, calls))
    decreases |calls|
  {
    if calls != [] {
      BoundedExactly(f, calls[0]);
      DoKeepsWf(f, calls[0]);
      RunKeepsBounded(Do(f, calls[0]), calls[1..]);
    }
  }

  /** Calls that start at or before the end, write at most 128 MiB at a time and never grow by truncation. */
  predicate Modest(size: nat, call: Call) {
    match call
    case WriteCall(off, data) => off <= size && |data| <= MIN_GROWTH
    case TruncateCall(n) => n <= size
    case FlushCall => true
  }

  /** Such a call keeps the file and its objects inside the allocation. */
  lemma ModestFits(f: File, call: Call)
    requires Wf(f) && Bounded(f) && Modest(f.size, call)
    ensures Bounded(Do(f, call))
  {
    BoundedExactly(f, call);
  }

  ghost predicate AllModest(f: File, calls: seq<Call>)
    decreases |calls|
  {
    calls == [] || (Modest(f.size, calls[0]) && AllModest(Do(f, calls[0]), calls[1..]))
  }

  /** Over every run of such calls the file stays inside its allocation, and remove() leaves nothing. */
  lemma {:induction false} ModestRuns(f: File, calls: seq<Call>)
    requires Wf(f) && Bounded(f) && AllModest(f, calls)
    ensures Bounded(Run(f, calls)) && Remove(Run(f, calls)).view.objs == map[]
    decreases |calls|
  {
    if calls == [] {
      RemoveLeavesOnlyDangling(f);
    } else {
      hide Remove; hide Do; hide Bounded; hide Wf;
      ModestFits(f, calls[0]);
      DoKeepsWf(f, calls[0]);
      ModestRuns(Do(f, calls[0]), calls[1..]);
    }
  }

  /** The size is marked dirty exactly when the stored one lags behind it. */
  predicate DirtyLags(f: File) {
    (f.dirty <==> f.view.meta.size < f.size) && (!f.dirty ==> f.view.meta.size == f.size)
  }

  lemma WriteKeepsLag(f: File, off: nat, data: seq<Byte>)
    requires DirtyLags(f)
    ensures DirtyLags(Write(f, off, data))
  {
    var end := off + |data|;
    var f1 := if f.alloc < end then SetMetadata(f, end, false) else f;
    WriteOpsKeys(f1.view, off, data);
  }

  /** Over every run a flush has a size to send exactly when a write has extended the file since the last one was sent. */
  lemma {:induction false} RunKeepsLag(f: File, calls: seq<Call>)
    requires DirtyLags(f)
    ensures DirtyLags(Run(f, calls))
    decreases |calls|
  {
    if calls != [] {
      if calls[0].WriteCall? { WriteKeepsLag(f, calls[0].off, calls[0].data); }
      hide DirtyLags; hide Write;
      SizeKeepsLag(f, if calls[0].TruncateCall? then calls[0].size else f.size);
      RunKeepsLag(Do(f, calls[0]), calls[1..]);
    }
  }

  lemma SizeKeepsLag(f: File, n: nat)
    ensures DirtyLags(SetMetadata(f, n, true))
  {
  }

  // ---------------------------------------------------------------- how much is allocated

  /** What the allocation becomes before any of it is given back. */
  function AllocFor(f: File, end: nat): nat {
    if end <= f.alloc then f.alloc else NextBoundary(f.size) + MIN_GROWTH
  }

  /** A write takes nothing while it ends inside the allocation, and one growth step otherwise. */
  lemma WriteAllocExactly(f: File, off: nat, data: seq<Byte>)
    ensures Write(f, off, data).alloc == AllocFor(f, off + |data|)
  {
    GrownIsRoom(f);
  }

  /** The allocation a file of this size is cut down to. */
  function AllocTarget(size: nat): nat {
    if size == 0 then 0 else NextBoundary(size) + MIN_GROWTH
  }

  /** Setting the size gives back whatever is more than 128 MiB above the target, and all of an empty file. */
  lemma SizeAllocExactly(f: File, n: nat)
    ensures SetMetadata(f, n, true).alloc ==
              var had := AllocFor(f, n);
              if n == 0 || had > AllocTarget(n) + MIN_GROWTH then AllocTarget(n) else had
  {
    GrownIsRoom(f);
    RoundUpIs(n);
  }

  /** A second flush finds nothing to do. */
  lemma FlushTwice(f: File)
    ensures Flush(Flush(f)) == Flush(f) && !Flush(f).dirty && Flush(f).size == f.size
  {
  }

  /** So a truncated or flushed file never keeps more than 256 MiB and an object beyond its size. */
  lemma SpaceComesBack(f: File, n: nat)
    ensures Truncate(f, n).alloc < n + OBJECT_SIZE + 2 * MIN_GROWTH
    ensures n == 0 ==> Truncate(f, n).alloc == 0
    ensures f.dirty ==> Flush(f).alloc < f.size + OBJECT_SIZE + 2 * MIN_GROWTH
    ensures f.dirty && f.size == 0 ==> Flush(f).alloc == 0
  {
    SizeAllocExactly(f, n);
    SizeAllocExactly(f, f.size);
  }

  /**
   Setting the size removes exactly the objects, other than the first, that start in the part of the
   allocation that is given back, and leaves the others as they are.
   */
  lemma RemovedExactly(f: File, n: nat, k: nat)
    requires Wf(f)
    ensures var f' := SetMetadata(f, n, true);
            && (k in f'.view.objs <==>
                  k in f.view.objs && !(k > 0 && f'.alloc <= k * OBJECT_SIZE < AllocFor(f, n)))
            && (k in f'.view.objs ==> f'.view.objs[k] == f.view.objs[k])
  {
    GrownIsRoom(f);
    RoundUpIs(n);
  }

  /** remove() deletes every object except those that dangle past the allocation. */
  lemma RemoveLeavesOnlyDangling(f: File)
    requires Wf(f)
    ensures Remove(f).view.objs.Keys
         == set k | k in f.view.objs && k != 0 && k * OBJECT_SIZE >= f.alloc
  {
    var f1 := SetMetadata(f, 0, true);
    assert f.alloc > 0 ==> forall k: nat | k in f.view.objs ::
        k in f1.view.objs <==> !Pruned(k, 0, f.alloc);
  }

  /** After any run of fitting calls, remove() leaves no object behind. */
  lemma RemoveLeavesNothing(f: File, calls: seq<Call>)
    requires Wf(f) && Bounded(f) && AllFit(f, calls)
    ensures Remove(Run(f, calls)).view.objs == map[]
  {
    RunKeepsBounded(f, calls);
    RemoveLeavesOnlyDangling(Run(f, calls));
  }

  // ---------------------------------------------------------------- the flat file

  ghost predicate HoleFree(f: File) {
    forall i: nat | i < f.size :: Lookup(f.view.objs, i).Some?
  }

  ghost function Content(f: File): seq<Byte>
    requires HoleFree(f)
  {
    seq(f.size, i requires 0 <= i < f.size => Lookup(f.view.objs, i).value)
  }

  /** Calls without gaps: a write starts inside the file or at its end, a truncate does not grow. */
  predicate Gapless(size: nat, call: Call) {
    match call
    case WriteCall(off, _) => off <= size
    case TruncateCall(n) => n <= size
    case FlushCall => true
  }

  function Zeros(n: nat): seq<Byte> {
    seq(n, _ => 0)
  }

  /** What POSIX asks of a flat file: gaps read as zeros, and writing nothing changes nothing. */
  function FlatDo(s: seq<Byte>, call: Call): seq<Byte> {
    match call
    case WriteCall(off, data) => if data == [] then s else WriteAt(s, off, data)
    case TruncateCall(n) => if n <= |s| then s[..n] else s + Zeros(n - |s|)
    case FlushCall => s
  }

  lemma ShrinkKeepsBytes(f: File, i: nat)
    requires Wf(f) && i < f.size
    ensures Lookup(MaybeShrinkAlloc(f).view.objs, i) == Lookup(f.view.objs, i)
  {
  }

  /** Shrinking the allocation deletes no byte below the new size. */
  lemma SetMetadataKeepsBytes(f: File, newSize: nat, updateSize: bool, i: nat)
    requires Wf(f) && i < newSize
    ensures Lookup(SetMetadata(f, newSize, updateSize).view.objs, i) == Lookup(f.view.objs, i)
  {
    var grow := newSize > f.alloc;
    if updateSize {
      var u := Update(Some(newSize), if grow then Some(Grown(f)) else None, f.version + 1);
      var f1 := f.(alloc := if grow then Grown(f) else f.alloc, version := f.version + 1,
                   view := f.view.(meta := Applied(f.view.meta, u)), size := newSize, dirty := false);
      assert SetMetadata(f, newSize, updateSize) == MaybeShrinkAlloc(f1);
      ShrinkKeepsBytes(f1, i);
    }
  }

  lemma WriteLookup(f: File, off: nat, data: seq<Byte>, i: nat)
    ensures Lookup(Write(f, off, data).view.objs, i) == Overwritten(Lookup(f.view.objs, i), off, data, i)
  {
    var end := off + |data|;
    var f1 := if f.alloc < end then SetMetadata(f, end, false) else f;
    WriteOpsLookup(f1.view, off, data, i);
  }

  /** Every byte between the end of the file and the call will read as zero. */
  ghost predicate GapReadsZero(f: File, call: Call) {
    match call
    case WriteCall(off, data) =>
      off <= f.size ||
      (data != [] && forall i: nat | f.size <= i < off ::
         var was := Lookup(f.view.objs, i);
         was == Some(0) || (was.None? && i / OBJECT_SIZE == off / OBJECT_SIZE))
    case TruncateCall(n) => forall i: nat | f.size <= i < n :: Lookup(f.view.objs, i) == Some(0)
    case FlushCall => true
  }

  /** The file holds exactly these bytes. */
  ghost predicate Holds(f: File, s: seq<Byte>) {
    f.size == |s| && forall i: nat | i < |s| :: Lookup(f.view.objs, i) == Some(s[i])
  }

  lemma HoldsContent(f: File, s: seq<Byte>)
    ensures Holds(f, s) <==> HoleFree(f) && Content(f) == s
  {
    if Holds(f, s) {
      assert HoleFree(f) && Content(f) == s;
    }
    if HoleFree(f) && Content(f) == s {
      assert forall i: nat | i < |s| :: Content(f)[i] == s[i];
    }
  }

  lemma WriteFlatExactly(f: File, off: nat, data: seq<Byte>, s: seq<Byte>)
    requires Wf(f) && Holds(f, s)
    ensures Holds(Write(f, off, data), FlatDo(s, WriteCall(off, data))) <==> GapReadsZero(f, WriteCall(off, data))
  {
    var f' := Write(f, off, data);
    assert f'.size == Max(f.size, off + |data|);
    forall i: nat
      ensures Lookup(f'.view.objs, i) == Overwritten(Lookup(f.view.objs, i), off, data, i)
    {
      WriteLookup(f, off, data, i);
    }
    var want := FlatDo(s, WriteCall(off, data));
    if off > f.size && data != [] && !GapReadsZero(f, WriteCall(off, data)) {
      var i: nat :| f.size <= i < off &&
                    var was := Lookup(f.view.objs, i);
                    !(was == Some(0) || (was.None? && i / OBJECT_SIZE == off / OBJECT_SIZE));
      assert want[i] == 0 && Lookup(f'.view.objs, i) != Some(0);
    }
  }

  lemma TruncateFlatExactly(f: File, n: nat, s: seq<Byte>)
    requires Wf(f) && Holds(f, s)
    ensures Holds(Truncate(f, n), FlatDo(s, TruncateCall(n))) <==> GapReadsZero(f, TruncateCall(n))
  {
    var f' := Truncate(f, n);
    SetMetadataKeepsWf(f, n, true);
    forall i: nat | i < n
      ensures Lookup(f'.view.objs, i) == Lookup(f.view.objs, i)
    {
      SetMetadataKeepsBytes(f, n, true, i);
    }
    var want := FlatDo(s, TruncateCall(n));
    if !GapReadsZero(f, TruncateCall(n)) {
      var i: nat :| f.size <= i < n && Lookup(f.view.objs, i) != Some(0);
      assert want[i] == 0;
    }
  }

  /**
   A call does to the striped file what POSIX asks of a flat one exactly when the gap it leaves, if
   any, already reads as zeros.
   */
  lemma DoIsFlatExactly(f: File, call: Call)
    requires Wf(f) && HoleFree(f)
    ensures (HoleFree(Do(f, call)) && Content(Do(f, call)) == FlatDo(Content(f), call)) <==> GapReadsZero(f, call)
  {
    HoldsContent(f, Content(f));
    HoldsContent(Do(f, call), FlatDo(Content(f), call));
    match call
    case WriteCall(off, data) => WriteFlatExactly(f, off, data, Content(f));
    case TruncateCall(n) => TruncateFlatExactly(f, n, Content(f));
    case FlushCall =>
      TruncateFlatExactly(f, f.size, Content(f));
      assert Content(f)[..f.size] == Content(f);
  }

  /** Cutting a file and growing it again brings back the byte that was cut off. */
  lemma StaleByteReturns()
    ensures var f := File(0, 0, 0, false, Store(map[0 := []], Meta(0, 0, 0)));
            var cut := Do(Do(f, WriteCall(0, [1])), TruncateCall(0));
            Wf(cut) && HoleFree(cut) && Content(cut) == [] &&
            Holds(Do(cut, TruncateCall(1)), [1]) && FlatDo(Content(cut), TruncateCall(1)) == [0]
  {
    var f := File(0, 0, 0, false, Store(map[0 := []], Meta(0, 0, 0)));
    var f1 := Do(f, WriteCall(0, [1]));
    WriteKeepsWf(f, 0, [1]);
    WriteLookup(f, 0, [1], 0);
    var cut := Do(f1, TruncateCall(0));
    SetMetadataKeepsWf(f1, 0, true);
    assert cut.view.objs[0] == f1.view.objs[0];
    SetMetadataKeepsWf(cut, 1, true);
    SetMetadataKeepsBytes(cut, 1, true, 0);
  }

  ghost predicate GapsReadZero(f: File, calls: seq<Call>)
    decreases |calls|
  {
    calls == [] || (GapReadsZero(f, calls[0]) && GapsReadZero(Do(f, calls[0]), calls[1..]))
  }

  function FlatRun(s: seq<Byte>, calls: seq<Call>): seq<Byte>
    decreases |calls|
  {
    if calls == [] then s else FlatRun(FlatDo(s, calls[0]), calls[1..])
  }

  /** Over every run whose gaps read as zeros the striped file refines the flat one. */
  lemma {:induction false} RunIsFlat(f: File, calls: seq<Call>)
    requires Wf(f) && HoleFree(f) && GapsReadZero(f, calls)
    ensures HoleFree(Run(f, calls)) && Content(Run(f, calls)) == FlatRun(Content(f), calls)
    decreases |calls|
  {
    if calls != [] {
      DoIsFlatExactly(f, calls[0]);
      DoKeepsWf(f, calls[0]);
      RunIsFlat(Do(f, calls[0]), calls[1..]);
    }
  }

  ghost predicate AllGapless(f: File, calls: seq<Call>)
    decreases |calls|
  {
    calls == [] || (Gapless(f.size, calls[0]) && AllGapless(Do(f, calls[0]), calls[1..]))
  }

  /** Calls that leave no gap need nothing else. */
  lemma {:induction false} GaplessRuns(f: File, calls: seq<Call>)
    requires AllGapless(f, calls)
    ensures GapsReadZero(f, calls)
    decreases |calls|
  {
    if calls != [] {
      GaplessRuns(Do(f, calls[0]), calls[1..]);
    }
  }

  // ---------------------------------------------------------------- gaps by size and offset alone

  /** Nothing is stored at or past the end, as in a new file. */
  ghost predicate Tight(f: File) {
    forall i: nat | i >= f.size :: Lookup(f.view.objs, i).None?
  }

  /** The call starts at or before the end, or past it in the object of the end. */
  predicate NearEnd(size: nat, call: Call) {
    match call
    case WriteCall(off, data) => off <= size || (data != [] && size / OBJECT_SIZE == off / OBJECT_SIZE)
    case TruncateCall(n) => n <= size
    case FlushCall => true
  }

  predicate Cuts(size: nat, call: Call) {
    call.TruncateCall? && call.size < size
  }

  /** With nothing stored past the end, size and offset decide whether a call is flat. */
  lemma TightGap(f: File, call: Call)
    requires Tight(f)
    ensures GapReadsZero(f, call) <==> NearEnd(f.size, call)
  {
    assert Lookup(f.view.objs, f.size).None?;
    if call.WriteCall? && f.size < call.off && f.size / OBJECT_SIZE == call.off / OBJECT_SIZE {
      assert forall i: nat | f.size <= i < call.off :: i / OBJECT_SIZE == call.off / OBJECT_SIZE;
    }
  }

  lemma WriteKeepsTight(f: File, off: nat, data: seq<Byte>)
    requires Tight(f)
    ensures Tight(Write(f, off, data))
  {
    var f' := Write(f, off, data);
    forall i: nat | i >= f'.size
      ensures Lookup(f'.view.objs, i).None?
    {
      WriteLookup(f, off, data, i);
    }
  }

  /** Shrinking the allocation adds no byte. */
  lemma SetMetadataAddsNoByte(f: File, newSize: nat, updateSize: bool, i: nat)
    ensures Lookup(f.view.objs, i).None? ==> Lookup(SetMetadata(f, newSize, updateSize).view.objs, i).None?
  {
  }

  /** A truncate that cuts leaves the first byte it cut off in its object. */
  lemma CutByteStays(f: File, n: nat)
    requires Wf(f) && n < f.size
    ensures Lookup(Truncate(f, n).view.objs, n) == Lookup(f.view.objs, n)
  {
  }

  /** A call that is flat leaves nothing past the end exactly when it does not cut. */
  lemma TightExactly(f: File, call: Call)
    requires Wf(f) && HoleFree(f) && Tight(f) && NearEnd(f.size, call)
    ensures Tight(Do(f, call)) <==> !Cuts(f.size, call)
  {
    if Cuts(f.size, call) {
      CutByteStays(f, call.size);
      SetMetadataKeepsWf(f, call.size, true);
      assert Lookup(Do(f, call).view.objs, call.size).Some?;
    } else {
      DoKeepsTight(f, call);
    }
  }

  lemma DoKeepsTight(f: File, call: Call)
    requires Wf(f) && Tight(f) && NearEnd(f.size, call) && !Cuts(f.size, call)
    ensures Tight(Do(f, call)) && Do(f, call).size == SizeAfter(f.size, call)
  {
    hide Lookup;
    match call
    case WriteCall(off, data) => WriteKeepsTight(f, off, data);
    case _ =>
      SetMetadataKeepsWf(f, f.size, true);
      forall i: nat | i >= f.size
        ensures Lookup(SetMetadata(f, f.size, true).view.objs, i).None?
      {
        SetMetadataAddsNoByte(f, f.size, true, i);
      }
  }

  function SizeAfter(size: nat, call: Call): nat {
    match call
    case WriteCall(off, data) => Max(size, off + |data|)
    case TruncateCall(n) => n
    case FlushCall => size
  }

  predicate AllNearEnd(size: nat, calls: seq<Call>)
    decreases |calls|
  {
    calls == [] || (NearEnd(size, calls[0]) && AllNearEnd(SizeAfter(size, calls[0]), calls[1..]))
  }

  predicate NeverCuts(size: nat, calls: seq<Call>)
    decreases |calls|
  {
    calls == [] || (!Cuts(size, calls[0]) && NeverCuts(SizeAfter(size, calls[0]), calls[1..]))
  }

  /** Over every run that never cuts, sizes and offsets decide whether all gaps read as zeros. */
  lemma {:induction false} TightRuns(f: File, calls: seq<Call>)
    requires Wf(f) && Tight(f) && NeverCuts(f.size, calls)
    ensures GapsReadZero(f, calls) <==> AllNearEnd(f.size, calls)
    decreases |calls|
  {
    if calls != [] {
      hide Do; hide Tight; hide GapReadsZero; hide NearEnd; hide Cuts; hide SizeAfter; hide Wf;
      TightGap(f, calls[0]);
      if NearEnd(f.size, calls[0]) {
        DoKeepsWf(f, calls[0]);
        DoKeepsTight(f, calls[0]);
        TightRuns(Do(f, calls[0]), calls[1..]);
      }
    }
  }

  /** A new file, filled by calls that stay near the end and never cut, is the flat file. */
  lemma NewFileIsFlat(calls: seq<Call>)
    requires AllNearEnd(0, calls) && NeverCuts(0, calls)
    ensures var f := Run(File(0, 0, 0, false, Store(map[0 := []], Meta(0, 0, 0))), calls);
            HoleFree(f) && Content(f) == FlatRun([], calls)
  {
    var f := File(0, 0, 0, false, Store(map[0 := []], Meta(0, 0, 0)));
    assert Tight(f) && Content(f) == [];
    TightRuns(f, calls);
    RunIsFlat(f, calls);
  }

  // ---------------------------------------------------------------- reading

  function Min(a: nat, b: nat): nat {
    if a < b then a else b
  }

  /** What read() collects, object by object; None if an object is missing. */
  function ReadBytes(objs: map<nat, seq<Byte>>, off: nat, len: nat): Option<seq<Byte>>
    decreases len
  {
    if len == 0 then Some([])
    else
      var e := NextExtent(off, len);
      if e.stripe !in objs then None
      else
        var obj := objs[e.stripe];
        var rest := ReadBytes(objs, off + e.len, len - e.len);
        if rest.None? then None
        else Some(obj[Min(e.off, |obj|)..Min(e.off + e.len, |obj|)] + rest.value)
  }

  ghost predicate NoHole(objs: map<nat, seq<Byte>>, off: nat, len: nat) {
    forall i: nat | off <= i < off + len :: Lookup(objs, i).Some?
  }

  /** A read is full exactly when the range has no hole, and then it is the range byte for byte. */
  lemma {:induction false} ReadExactly(objs: map<nat, seq<Byte>>, off: nat, len: nat)
    ensures ReadBytes(objs, off, len).Some? ==> |ReadBytes(objs, off, len).value| <= len
    ensures (ReadBytes(objs, off, len).Some? && |ReadBytes(objs, off, len).value| == len)
            <==> NoHole(objs, off, len)
    ensures NoHole(objs, off, len) ==>
              forall i: nat | off <= i < off + len ::
                Lookup(objs, i) == Some(ReadBytes(objs, off, len).value[i - off])
    decreases len
  {
    if len > 0 {
      hide Lookup; hide NoHole;
      var e := NextExtent(off, len);
      ReadExactly(objs, off + e.len, len - e.len);
      HoleInExtent(objs, off, len, e);
    }
  }

  lemma HoleInExtent(objs: map<nat, seq<Byte>>, off: nat, len: nat, e: Extent)
    requires len > 0 && e == NextExtent(off, len)
    ensures NoHole(objs, off, len) <==>
              (e.stripe in objs && e.off + e.len <= |objs[e.stripe]| && NoHole(objs, off + e.len, len - e.len))
    ensures e.stripe in objs && e.off + e.len <= |objs[e.stripe]| ==>
              forall i: nat | off <= i < off + e.len :: Lookup(objs, i) == Some(objs[e.stripe][e.off + (i - off)])
  {
    if NoHole(objs, off, len) {
      assert Lookup(objs, off + (e.len - 1)).Some?;
    }
    forall i: nat | off <= i < off + len &&
                    e.stripe in objs && e.off + e.len <= |objs[e.stripe]| && NoHole(objs, off + e.len, len - e.len)
      ensures Lookup(objs, i).Some?
    {
      assert i < off + e.len ==> i / OBJECT_SIZE == e.stripe;
    }
  }

  /** Every read inside a hole-free file returns exactly the flat slice. */
  lemma ReadIsFlat(f: File, off: nat, len: nat)
    requires HoleFree(f) && off + len <= f.size
    ensures ReadBytes(f.view.objs, off, len) == Some(Content(f)[off..off + len])
  {
    ReadExactly(f.view.objs, off, len);
    var got := ReadBytes(f.view.objs, off, len).value;
    forall j | 0 <= j < len
      ensures got[j] == Content(f)[off + j]
    {
      assert Lookup(f.view.objs, off + j) == Some(got[off + j - off]);
    }
    assert got == Content(f)[off..off + len];
  }

  // ---------------------------------------------------------------- reads that are not full

  /** The bytes of one extent, as far as its object reaches. */
  function PieceOf(objs: map<nat, seq<Byte>>, e: Extent): seq<Byte>
    requires e.stripe in objs
  {
    var obj := objs[e.stripe];
    obj[Min(e.off, |obj|)..Min(e.off + e.len, |obj|)]
  }

  /** An extent holds its piece and nothing after it. */
  lemma PieceLookup(objs: map<nat, seq<Byte>>, off: nat, len: nat, e: Extent, i: nat)
    requires len > 0 && e == NextExtent(off, len) && e.stripe in objs && off <= i < off + e.len
    ensures var p := PieceOf(objs, e);
            Lookup(objs, i) == if i - off < |p| then Some(p[i - off]) else None
  {
    assert i / OBJECT_SIZE == e.stripe && i % OBJECT_SIZE == e.off + (i - off);
  }

  /** read() fails exactly when an object of the range does not exist. */
  lemma {:induction false} ReadFailsExactly(objs: map<nat, seq<Byte>>, off: nat, len: nat)
    ensures ReadBytes(objs, off, len).None? <==> exists i: nat | off <= i < off + len :: i / OBJECT_SIZE !in objs
    decreases len
  {
    if len > 0 {
      var e := NextExtent(off, len);
      ReadFailsExactly(objs, off + e.len, len - e.len);
      assert off / OBJECT_SIZE == e.stripe;
      assert forall i: nat | off <= i < off + e.len :: i / OBJECT_SIZE == e.stripe;
    }
  }

  /** A read is its first piece, then the read of the rest. */
  lemma ReadUnfold(objs: map<nat, seq<Byte>>, off: nat, len: nat)
    requires len > 0
    ensures var e := NextExtent(off, len);
            var rest := ReadBytes(objs, off + e.len, len - e.len);
            ReadBytes(objs, off, len) ==
              if e.stripe in objs && rest.Some? then Some(PieceOf(objs, e) + rest.value) else None
  {
  }

  /** read() returns something exactly when the range holds something. */
  lemma {:induction false} ReadNothingExactly(objs: map<nat, seq<Byte>>, off: nat, len: nat)
    requires ReadBytes(objs, off, len).Some?
    ensures ReadBytes(objs, off, len) == Some([]) <==> forall i: nat | off <= i < off + len :: Lookup(objs, i).None?
    decreases len
  {
    if len > 0 {
      hide Lookup;
      var e := NextExtent(off, len);
      ReadUnfold(objs, off, len);
      ReadNothingExactly(objs, off + e.len, len - e.len);
      assert |ReadBytes(objs, off, len).value| ==
             |PieceOf(objs, e)| + |ReadBytes(objs, off + e.len, len - e.len).value|;
      forall i: nat | off <= i < off + e.len
        ensures Lookup(objs, i) == if i - off < |PieceOf(objs, e)| then Some(PieceOf(objs, e)[i - off]) else None
      {
        PieceLookup(objs, off, len, e, i);
      }
      assert Lookup(objs, off).None? <==> PieceOf(objs, e) == [];
    }
  }

  /** Every byte that was returned is the byte of its place in the range. */
  ghost predicate InPlace(objs: map<nat, seq<Byte>>, off: nat, got: seq<Byte>) {
    forall j: nat | j < |got| :: Lookup(objs, off + j) == Some(got[j])
  }

  /** Where the range has a hole, nothing follows. */
  ghost predicate HolesLast(objs: map<nat, seq<Byte>>, off: nat, len: nat) {
    forall i: nat, j: nat | off <= i < j < off + len && Lookup(objs, j).Some? :: Lookup(objs, i).Some?
  }

  /** Behind an extent without a hole the rest decides. */
  lemma FullPiece(objs: map<nat, seq<Byte>>, off: nat, len: nat, e: Extent, rest: seq<Byte>)
    requires len > 0 && e == NextExtent(off, len) && e.stripe in objs && |PieceOf(objs, e)| == e.len
    ensures InPlace(objs, off, PieceOf(objs, e) + rest) <==> InPlace(objs, off + e.len, rest)
    ensures HolesLast(objs, off, len) <==> HolesLast(objs, off + e.len, len - e.len)
  {
    hide Lookup;
    var p := PieceOf(objs, e);
    forall i: nat | off <= i < off + e.len
      ensures Lookup(objs, i) == Some(p[i - off])
    {
      PieceLookup(objs, off, len, e, i);
    }
    if InPlace(objs, off, p + rest) {
      forall j: nat | j < |rest|
        ensures Lookup(objs, off + e.len + j) == Some(rest[j])
      {
        assert Lookup(objs, off + (e.len + j)) == Some((p + rest)[e.len + j]);
      }
    }
    if InPlace(objs, off + e.len, rest) {
      forall j: nat | j < |p + rest|
        ensures Lookup(objs, off + j) == Some((p + rest)[j])
      {
        if j >= e.len { assert Lookup(objs, off + e.len + (j - e.len)) == Some(rest[j - e.len]); }
      }
    }
  }

  /** Behind an extent with a hole there must be nothing. */
  lemma ShortPiece(objs: map<nat, seq<Byte>>, off: nat, len: nat, e: Extent, rest: seq<Byte>)
    requires len > 0 && e == NextExtent(off, len) && e.stripe in objs && |PieceOf(objs, e)| < e.len
    requires rest == [] <==> forall i: nat | off + e.len <= i < off + len :: Lookup(objs, i).None?
    ensures InPlace(objs, off, PieceOf(objs, e) + rest) <==> rest == []
    ensures HolesLast(objs, off, len) <==> rest == []
  {
    hide Lookup;
    var p := PieceOf(objs, e);
    forall i: nat | off <= i < off + e.len
      ensures Lookup(objs, i) == if i - off < |p| then Some(p[i - off]) else None
    {
      PieceLookup(objs, off, len, e, i);
    }
    var hole := off + |p|;
    assert Lookup(objs, hole).None?;
    if rest == [] {
      assert p + rest == p;
    } else {
      assert (p + rest)[|p|] == rest[0];
      var j: nat :| off + e.len <= j < off + len && Lookup(objs, j).Some?;
      assert hole < j;
    }
  }

  lemma ReadOfNothing(objs: map<nat, seq<Byte>>, off: nat)
    ensures ReadBytes(objs, off, 0) == Some([]) && InPlace(objs, off, []) && HolesLast(objs, off, 0)
  {
  }

  /** A short read returns the beginning of the range exactly when its holes come last. */
  lemma {:induction false} ShortReadExactly(objs: map<nat, seq<Byte>>, off: nat, len: nat)
    requires ReadBytes(objs, off, len).Some?
    ensures InPlace(objs, off, ReadBytes(objs, off, len).value) <==> HolesLast(objs, off, len)
    decreases len
  {
    hide InPlace; hide HolesLast; hide Lookup; hide ReadBytes;
    if len == 0 {
      ReadOfNothing(objs, off);
    } else {
      var e := NextExtent(off, len);
      ReadUnfold(objs, off, len);
      var rest := ReadBytes(objs, off + e.len, len - e.len).value;
      ReadNothingExactly(objs, off + e.len, len - e.len);
      if |PieceOf(objs, e)| == e.len {
        FullPiece(objs, off, len, e, rest);
        ShortReadExactly(objs, off + e.len, len - e.len);
      } else {
        ShortPiece(objs, off, len, e, rest);
      }
    }
  }

  /** Two writes that fit, a gap between them: the read moves the second byte up to the first. */
  lemma ShortReadMoves()
    ensures var f := File(0, 0, 0, false, Store(map[0 := []], Meta(0, 0, 0)));
            var f2 := Do(Do(f, WriteCall(0, [1])), WriteCall(OBJECT_SIZE, [2]));
            && Fits(f, WriteCall(0, [1])) && Fits(Do(f, WriteCall(0, [1])), WriteCall(OBJECT_SIZE, [2]))
            && f2.view.objs == map[0 := [1], 1 := [2]] && f2.size == OBJECT_SIZE + 1
            && ReadBytes(f2.view.objs, 0, f2.size) == Some([1, 2])
            && !HolesLast(f2.view.objs, 0, f2.size)
  {
    var f := File(0, 0, 0, false, Store(map[0 := []], Meta(0, 0, 0)));
    OneByte(f.view.objs, 0, 1);
    var f1 := Do(f, WriteCall(0, [1]));
    assert f1.view.objs == map[0 := [1]];
    OneByte(f1.view.objs, 1, 2);
    var f2 := Do(f1, WriteCall(OBJECT_SIZE, [2]));
    assert f2.view.objs == map[0 := [1], 1 := [2]];
    TwoShortObjects(f2.view.objs);
    assert f2.view.objs[0] + f2.view.objs[1] == [1, 2];
    assert Lookup(f2.view.objs, OBJECT_SIZE).Some? && Lookup(f2.view.objs, 1).None?;
  }

  lemma TwoShortObjects(objs: map<nat, seq<Byte>>)
    requires 0 in objs && 1 in objs && |objs[0]| == |objs[1]| == 1
    ensures ReadBytes(objs, 0, OBJECT_SIZE + 1) == Some(objs[0] + objs[1])
  {
    var e0, e1 := NextExtent(0, OBJECT_SIZE + 1), NextExtent(OBJECT_SIZE, 1);
    assert e0 == Extent(0, 0, OBJECT_SIZE) && e1 == Extent(1, 0, 1);
    assert PieceOf(objs, e0) == objs[0] && PieceOf(objs, e1) == objs[1];
    ReadUnfold(objs, 0, OBJECT_SIZE + 1);
    ReadUnfold(objs, OBJECT_SIZE, 1);
    assert objs[1] + [] == objs[1];
  }

  /** A write of one byte at the start of an object. */
  lemma OneByte(objs: map<nat, seq<Byte>>, k: nat, b: Byte)
    requires k in objs ==> objs[k] == []
    ensures forall meta :: ApplyOps(Store(objs, meta), WriteOps(k * OBJECT_SIZE, [b])) == Store(objs[k := [b]], meta)
  {
    var e := NextExtent(k * OBJECT_SIZE, 1);
    assert e == Extent(k, 0, 1);
    assert WriteOps(k * OBJECT_SIZE + 1, []) == [];
    assert WriteAt([], 0, [b]) == [b];
    forall meta
      ensures ApplyOps(Store(objs, meta), WriteOps(k * OBJECT_SIZE, [b])) == Store(objs[k := [b]], meta)
    {
      WriteOpsUnfold(Store(objs, meta), k * OBJECT_SIZE, [b]);
      assert [b][..1] == [b] && [b][1..] == [];
    }
  }
}
