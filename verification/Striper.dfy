/**
 SimpleRADOSStriper itself: the methods that update its cached fields, issue operations and wait
 for them. Each method is tied to its function in StriperSpec through Abs(). Beside that, the
 ghost `trace` records every state of the durable store and of the operations in flight that a
 call passes through, so that a crash may be placed between any two of its steps.
 */
module Striper {
  import opened Wrappers
  import opened StriperMeta
  import opened Bytes
  import opened StripedStore
  import opened Inflight
  import Spec = StriperSpec

  datatype Status = Ok | Blocklisted | Busy | Canceled | NoEntry | Exists

  // ---------------------------------------------------------------- the loops of read and write

  /** The store once the bytes from w on have been written as well. */
  function RestWritten(st: Store, off: nat, data: seq<Byte>, w: nat): Store
    requires w <= |data|
  {
    ApplyOps(st, WriteOps(off + w, data[w..]))
  }

  lemma WriteStep(st: Store, off: nat, data: seq<Byte>, w: nat, e: Extent)
    requires w < |data| && e == NextExtent(off + w, |data| - w)
    ensures RestWritten(st, off, data, w) ==
              RestWritten(ApplyOp(st, WriteOp(e.stripe, e.off, data[w..w + e.len])), off, data, w + e.len)
  {
    hide ApplyOps; hide WriteOps; hide ApplyOp;
    var rest := data[w..];
    assert rest[..e.len] == data[w..w + e.len] && rest[e.len..] == data[w + e.len..];
    WriteOpsUnfold(st, off + w, rest);
  }

  lemma WriteEnds(st: Store, off: nat, data: seq<Byte>)
    ensures RestWritten(st, off, data, |data|) == st
    ensures RestWritten(st, off, data, 0) == ApplyOps(st, WriteOps(off, data))
  {
    assert data[0..] == data;
  }

  /** What a read returns if `data` has been collected and n bytes of the range are done. */
  function RestRead(objs: map<nat, seq<Byte>>, off: nat, len: nat, data: seq<Byte>, n: nat): Option<seq<Byte>>
    requires n <= len
  {
    var rest := Spec.ReadBytes(objs, off + n, len - n);
    if rest.None? then None else Some(data + rest.value)
  }

  lemma ReadStep(objs: map<nat, seq<Byte>>, off: nat, len: nat, data: seq<Byte>, n: nat, e: Extent)
    requires n < len && e == NextExtent(off + n, len - n)
    ensures e.stripe !in objs ==> RestRead(objs, off, len, data, n) == None
    ensures e.stripe in objs ==>
              var obj := objs[e.stripe];
              RestRead(objs, off, len, data, n) ==
                RestRead(objs, off, len,
                         data + obj[Spec.Min(e.off, |obj|)..Spec.Min(e.off + e.len, |obj|)], n + e.len)
  {
    if e.stripe in objs {
      var obj := objs[e.stripe];
      var piece := obj[Spec.Min(e.off, |obj|)..Spec.Min(e.off + e.len, |obj|)];
      var rest := Spec.ReadBytes(objs, off + n + e.len, len - n - e.len);
      assert off + (n + e.len) == off + n + e.len && len - (n + e.len) == len - n - e.len;
      if rest.Some? {
        assert data + piece + rest.value == data + (piece + rest.value);
      }
    }
  }

  lemma ReadEnds(objs: map<nat, seq<Byte>>, off: nat, len: nat, data: seq<Byte>)
    ensures RestRead(objs, off, len, [], 0) == Spec.ReadBytes(objs, off, len)
    ensures RestRead(objs, off, len, data, len) == Some(data)
  {
    var all := Spec.ReadBytes(objs, off, len);
    assert all.Some? ==> [] + all.value == all.value;
    assert data + [] == data;
  }

  // ---------------------------------------------------------------- shrinking

  /** The objects that do not start in [lo, hi). */
  function Cut(objs: map<nat, seq<Byte>>, lo: nat, hi: nat): map<nat, seq<Byte>> {
    map k | k in objs && !(lo <= k * OBJECT_SIZE < hi) :: objs[k]
  }

  lemma CutNothing(objs: map<nat, seq<Byte>>, lo: nat)
    ensures Cut(objs, lo, lo) == objs
  {
  }

  lemma CutOneMore(objs: map<nat, seq<Byte>>, lo: nat, hi: nat, e: Extent, len: nat)
    requires lo <= hi && hi % OBJECT_SIZE == 0 && len > 0 && len % OBJECT_SIZE == 0 && e == NextExtent(hi, len)
    ensures e.len == OBJECT_SIZE && e.stripe * OBJECT_SIZE == hi
    ensures Cut(objs, lo, hi) - {e.stripe} == Cut(objs, lo, hi + OBJECT_SIZE)
  {
    assert len >= OBJECT_SIZE;
  }

  /** Once the removed stripes are gone, what is left lies under the smaller allocation. */
  lemma UnderAfterRemoves(s: Snapshot, removes: seq<nat>, a: nat, alloc: nat)
    requires NoDangling(s) && alloc in Allocs(s) && Spec.AllocOk(a)
    requires forall k: nat :: k in removes <==> Spec.Max(a, OBJECT_SIZE) <= k * OBJECT_SIZE < alloc
    requires forall k | k in removes :: k !in s.store.objs
    requires forall op | op in s.inflight :: Target(op) !in removes
    ensures AllUnder(Objects(s), a)
  {
    forall k | k in Objects(s)
      ensures Under(k, a)
    {
      assert Under(k, alloc);
      assert k !in removes;
    }
  }

  /** Without dangling extents remove() deletes every object. */
  lemma RemoveEmpties(s: Snapshot, f: Spec.File)
    requires NoDangling(s) && Spec.Wf(f) && f.view == Outcome(s) && f.alloc in Allocs(s)
    ensures Spec.Remove(f).view.objs == map[]
  {
    hide Spec.Remove;
    Spec.RemoveLeavesOnlyDangling(f);
    OutcomeNarrows(s);
    assert AllUnder(Objects(s), f.alloc);
    assert forall k | k in f.view.objs :: Under(k, f.alloc);
    assert Spec.Remove(f).view.objs.Keys == {};
  }

  // ---------------------------------------------------------------- the striper

  class Cluster {
    var store: Store
    var holder: Option<nat>
    var excl: Option<nat>

    constructor ()
      ensures store == Store(map[], Meta(0, 0, 0)) && holder.None? && excl.None?
    {
      store, holder, excl := Store(map[], Meta(0, 0, 0)), None, None;
    }
  }

  class Striper {
    const cluster: Cluster
    const addr: nat
    var size: nat
    var alloc: nat
    var version: nat
    var sizeDirty: bool
    var locked: bool
    var blocklisted: bool
    var inflight: seq<Op>
    ghost var trace: seq<Snapshot>
    ghost var updates: nat   // metadata updates issued so far

    constructor (cluster: Cluster, addr: nat)
      ensures this.cluster == cluster && this.addr == addr
      ensures !locked && !blocklisted && !sizeDirty && inflight == [] && trace == []
      ensures size == 0 && alloc == 0 && version == 0 && updates == 0
    {
      this.cluster, this.addr := cluster, addr;
      size, alloc, version, sizeDirty := 0, 0, 0, false;
      locked, blocklisted, inflight, trace, updates := false, false, [], [], 0;
    }

    ghost function Now(): Snapshot
      reads this, cluster
    {
      Snapshot(cluster.store, inflight)
    }

    ghost function Abs(): Spec.File
      reads this, cluster
    {
      Spec.File(size, alloc, version, sizeDirty, Outcome(Now()))
    }

    /** The durable allocation is the cached one, and nothing in flight will change it. */
    ghost predicate AllocSettled()
      reads this, cluster
    {
      Allocs(Now()) == {alloc}
    }

    ghost predicate Valid()
      reads this, cluster
    {
      Spec.Wf(Abs()) && AllocSettled()
    }

    /** If the call began without dangling extents and `cond`, every state it passed through has none. */
    twostate predicate StaysSafe(cond: bool)
      reads this, cluster
    {
      && old(trace) <= trace
      && (old(NoDangling(Now())) && cond ==>
            NoDangling(Now()) && forall i | |old(trace)| <= i < |trace| :: NoDangling(trace[i]))
    }

    // -------------------------------------------------- issuing and waiting

    /** aio_write, aio_remove, aio_operate. */
    method Submit(op: Op)
      modifies this`inflight, this`trace, this`updates
      ensures inflight == old(inflight) + [op] && trace == old(trace) + [Now()]
      ensures Abs().view == ApplyOp(old(Abs().view), op)
      ensures updates == old(updates) + if op.MetaOp? then 1 else 0
      ensures Allocs(Now()) == old(Allocs(Now())) +
                if op.MetaOp? && op.update.alloc.Some? then {op.update.alloc.value} else {}
      ensures old(NoDangling(Now()) && SafeToIssue(Now(), op)) ==> NoDangling(Now())
    {
      IssueWidens(Now(), op);
      if NoDangling(Now()) && SafeToIssue(Now(), op) { IssueKeepsNoDangling(Now(), op); }
      inflight := inflight + [op];
      trace := trace + [Now()];
      updates := updates + if op.MetaOp? then 1 else 0;
      assert Now() == Issued(old(Now()), op);
    }

    /** wait_for_complete on an operation on object t. */
    method Await(t: nat)
      modifies this`inflight, this`trace, cluster`store
      ensures trace == old(trace) + [Now()]
      ensures Abs().view == old(Abs().view)
      ensures forall op | op in inflight :: op in old(inflight) && Target(op) != t
      ensures (forall op | op in old(inflight) :: Target(op) == t) ==> inflight == []
      ensures Allocs(Now()) <= old(Allocs(Now()))
      ensures old(NoDangling(Now())) ==> NoDangling(Now())
    {
      SettleKeepsOutcome(Now(), t);
      if forall op | op in inflight :: Target(op) == t { SettleAll(Now(), t); }
      SettleNarrows(Now(), t);
      if NoDangling(Now()) { NarrowerHasNoDangling(Now(), Settle(Now(), t)); }
      var s := Settle(Snapshot(cluster.store, inflight), t);
      cluster.store, inflight := s.store, s.inflight;
      trace := trace + [Now()];
    }

    /** The OSDs make progress on their own, in any order they may. */
    method OsdProcesses(i: nat)
      requires MayProcess(inflight, i)
      modifies this`inflight, this`trace, cluster`store
      ensures inflight == old(inflight[..i] + inflight[i + 1..])
      ensures Abs() == old(Abs())
      ensures trace == old(trace) + [Now()]
      ensures Allocs(Now()) <= old(Allocs(Now()))
      ensures old(NoDangling(Now())) ==> NoDangling(Now())
    {
      ProcessingKeepsOutcome(cluster.store, inflight, i);
      ProcessNarrows(Now(), i);
      if NoDangling(Now()) { NarrowerHasNoDangling(Now(), Processed(Now(), i)); }
      cluster.store, inflight := ApplyOp(cluster.store, inflight[i]), inflight[..i] + inflight[i + 1..];
      trace := trace + [Now()];
    }

    /** wait_for_aios(true), free of errors. */
    method WaitForAios()
      modifies this`inflight, this`trace, cluster`store
      ensures inflight == [] && cluster.store == old(Abs().view)
      ensures Abs() == old(Abs())
      ensures old(AllocSettled()) ==> AllocSettled()
      ensures StaysSafe(true)
    {
      while inflight != []
        invariant Abs() == old(Abs())
        invariant old(AllocSettled()) ==> AllocSettled()
        invariant StaysSafe(true)
        decreases |inflight|
      {
        OsdProcesses(0);
      }
    }

    // -------------------------------------------------- metadata

    /** Issues the removal of every object that starts in [prune, alloc). */
    method IssueRemoves(prune: nat) returns (removes: seq<nat>)
      requires prune <= alloc && prune % OBJECT_SIZE == 0 && alloc % OBJECT_SIZE == 0
      modifies this`inflight, this`trace, this`updates
      ensures forall k: nat :: k in removes <==> prune <= k * OBJECT_SIZE < alloc
      ensures forall op | op in inflight :: op in old(inflight) || Target(op) in removes
      ensures Abs().view == Store(Cut(old(Abs().view.objs), prune, alloc), old(Abs().view.meta))
      ensures updates == old(updates)
      ensures old(AllocSettled()) ==> AllocSettled()
      ensures StaysSafe(true)
    {
      hide Allocs; hide Objects; hide NoDangling; hide Outcome; hide Cut;
      CutNothing(Abs().view.objs, prune);
      ghost var view := Abs().view;
      removes := [];
      var len := alloc - prune;
      var offset := prune;
      while len > 0
        invariant len >= 0 && offset + len == alloc && offset >= prune && offset % OBJECT_SIZE == 0
        invariant forall k: nat :: k in removes <==> prune <= k * OBJECT_SIZE < offset
        invariant forall op | op in inflight :: op in old(inflight) || Target(op) in removes
        invariant Abs().view == Store(Cut(view.objs, prune, offset), view.meta)
        invariant updates == old(updates)
        invariant old(AllocSettled()) ==> AllocSettled()
        invariant StaysSafe(true)
      {
        var e := NextExtent(offset, len);
        CutOneMore(view.objs, prune, offset, e, len);
        Submit(RemoveOp(e.stripe));
        removes := removes + [e.stripe];
        len := len - e.len;
        offset := offset + e.len;
      }
    }

    /** Waits for each removal in turn. */
    method AwaitRemoves(removes: seq<nat>)
      requires forall k | k in removes :: k !in Abs().view.objs
      modifies this`inflight, this`trace, cluster`store
      ensures Abs() == old(Abs())
      ensures old(AllocSettled()) ==> AllocSettled()
      ensures forall op | op in inflight :: op in old(inflight) && Target(op) !in removes
      ensures forall k | k in removes :: k !in cluster.store.objs
      ensures StaysSafe(true)
    {
      for i := 0 to |removes|
        invariant forall op | op in inflight :: op in old(inflight) && Target(op) !in removes[..i]
        invariant Abs() == old(Abs())
        invariant old(AllocSettled()) ==> AllocSettled()
        invariant StaysSafe(true)
      {
        Await(removes[i]);
      }
      assert removes[..|removes|] == removes;
      forall k | k in removes
        ensures k !in cluster.store.objs
      {
        Untargeted(Now(), k);
      }
    }

    /** The compound update of shrink_alloc, waited for. */
    method CommitAlloc(a: nat)
      modifies this`alloc, this`version, this`inflight, this`trace, this`updates, cluster`store
      ensures version == old(version) + 1 && alloc == a && updates == old(updates) + 1
      ensures Abs().view == ApplyOp(old(Abs().view), MetaOp(Update(None, Some(a), old(version) + 1)))
      ensures AllocSettled()
      ensures forall op | op in inflight :: op in old(inflight) || Target(op) == 0
      ensures StaysSafe(Spec.AllocOk(a) && old(AllUnder(Objects(Now()), a)))
    {
      hide Allocs; hide Objects; hide NoDangling; hide AllUnder; hide Outcome;
      Submit(MetaOp(Update(None, Some(a), version + 1)));
      Await(0);
      AllocFinal(Now());
      version := version + 1;
      alloc := a;
    }

    method ShrinkAlloc(a: nat)
      requires Valid() && a <= alloc && alloc > 0 && Spec.AllocOk(a)
      modifies this`alloc, this`version, this`inflight, this`trace, this`updates, cluster`store
      ensures Abs() == Spec.ShrinkAlloc(old(Abs()), a)
      ensures AllocSettled()
      ensures updates - old(updates) == version - old(version)
      ensures forall op | op in inflight :: op in old(inflight) || Target(op) == 0
      ensures StaysSafe(true)
    {
      hide Allocs; hide Objects; hide NoDangling; hide AllUnder; hide Outcome;
      var removes := IssueRemoves(Spec.Max(a, OBJECT_SIZE));
      AwaitRemoves(removes);
      if NoDangling(Now()) { UnderAfterRemoves(Now(), removes, a, alloc); }
      CommitAlloc(a);
    }

    method MaybeShrinkAlloc()
      requires Valid()
      modifies this`alloc, this`version, this`inflight, this`trace, this`updates, cluster`store
      ensures Abs() == Spec.MaybeShrinkAlloc(old(Abs())) && Valid()
      ensures updates - old(updates) == version - old(version)
      ensures forall op | op in inflight :: op in old(inflight) || Target(op) == 0
      ensures StaysSafe(true)
    {
      Spec.MaybeShrinkKeepsWf(Abs());
      if size == 0 {
        if alloc > 0 {
          ShrinkAlloc(0);
        }
        return;
      }
      var newAlloc := MIN_GROWTH + Spec.RoundUp(size);
      if alloc > newAlloc && alloc - newAlloc > MIN_GROWTH {
        ShrinkAlloc(newAlloc);
      }
    }

    /** The compound update of set_metadata, waited for when it changes the allocation. */
    method UpdateAttributes(u: Update, newAlloc: nat)
      requires Valid() && u.version == version + 1 && Spec.AllocOk(newAlloc)
      requires u.alloc == Some(newAlloc) || (u.alloc.None? && newAlloc == alloc)
      modifies this`alloc, this`version, this`inflight, this`trace, this`updates, cluster`store
      ensures version == old(version) + 1 && alloc == newAlloc && updates == old(updates) + 1
      ensures Abs().view == ApplyOp(old(Abs().view), MetaOp(u))
      ensures AllocSettled()
      ensures forall op | op in inflight :: op in old(inflight) || Target(op) == 0
      ensures StaysSafe(old(alloc) <= newAlloc)
    {
      hide Allocs; hide Objects; hide NoDangling; hide AllUnder; hide Outcome;
      assert alloc in Allocs(Now());
      if NoDangling(Now()) && alloc <= newAlloc { GrowthIsSafe(Now(), newAlloc); }
      Submit(MetaOp(u));
      version := version + 1;
      if alloc != newAlloc {
        Await(0);
        AllocFinal(Now());
        alloc := newAlloc;
      }
    }

    method SetMetadata(newSize: nat, updateSize: bool)
      requires Valid()
      modifies this`size, this`sizeDirty
      modifies this`alloc, this`version, this`inflight, this`trace, this`updates, cluster`store
      ensures Abs() == Spec.SetMetadata(old(Abs()), newSize, updateSize) && Valid()
      ensures updates - old(updates) == version - old(version)
      ensures forall op | op in inflight :: op in old(inflight) || Target(op) == 0
      ensures StaysSafe(newSize <= Spec.Room(old(Abs())))
    {
      hide Allocs; hide Objects; hide NoDangling; hide Outcome; hide Spec.MaybeShrinkAlloc; hide Spec.ShrinkAlloc;
      Spec.SetMetadataKeepsWf(Abs(), newSize, updateSize);
      Spec.GrownIsRoom(Abs());
      var newAlloc := alloc;
      var grow := newSize > alloc;
      if grow {
        newAlloc := MIN_GROWTH + Spec.RoundUp(size);
      }
      if grow || updateSize {
        var u := Update(if updateSize then Some(newSize) else None,
                        if grow then Some(newAlloc) else None,
                        version + 1);
        UpdateAttributes(u, newAlloc);
        if updateSize {
          size := newSize;
          sizeDirty := false;
          MaybeShrinkAlloc();
        }
      }
    }

    // -------------------------------------------------- data

    /** One aio_write. */
    method IssueWrite(e: Extent, chunk: seq<Byte>)
      requires AllocSettled()
      modifies this`inflight, this`trace, this`updates
      ensures AllocSettled() && updates == old(updates)
      ensures Abs().view == ApplyOp(old(Abs().view), WriteOp(e.stripe, e.off, chunk))
      ensures trace == old(trace) + [Now()]
      ensures old(NoDangling(Now())) && e.stripe * OBJECT_SIZE < alloc ==> NoDangling(Now())
    {
      Submit(WriteOp(e.stripe, e.off, chunk));
    }

    /** The loop of write(): one aio_write for each object the range touches. */
    method IssueWrites(data: seq<Byte>, off: nat) returns (w: nat)
      requires AllocSettled()
      modifies this`inflight, this`trace, this`updates
      ensures w == |data| && updates == old(updates) && AllocSettled()
      ensures Abs().view == ApplyOps(old(Abs().view), WriteOps(off, data))
      ensures StaysSafe(off + |data| <= alloc)
    {
      hide Allocs; hide Objects; hide NoDangling; hide Outcome; hide RestWritten;
      ghost var want := RestWritten(Abs().view, off, data, 0);
      WriteEnds(Abs().view, off, data);
      w := 0;
      while |data| - w > 0
        invariant w <= |data| && updates == old(updates) && AllocSettled()
        invariant RestWritten(Abs().view, off, data, w) == want
        invariant StaysSafe(off + |data| <= alloc)
      {
        var e := NextExtent(off + w, |data| - w);
        WriteStep(Abs().view, off, data, w, e);
        IssueWrite(e, data[w..w + e.len]);
        w := w + e.len;
      }
      WriteEnds(Abs().view, off, data);
    }

    method Write(data: seq<Byte>, off: nat) returns (r: Status, w: nat)
      requires Valid()
      modifies this`size, this`sizeDirty
      modifies this`alloc, this`version, this`inflight, this`trace, this`updates, cluster`store
      ensures r == if blocklisted then Blocklisted else Ok
      ensures r.Ok? ==> w == |data| && Abs() == Spec.Write(old(Abs()), off, data)
      ensures !r.Ok? ==> Abs() == old(Abs()) && trace == old(trace)
      ensures Valid()
      ensures updates - old(updates) == version - old(version)
      ensures StaysSafe(Spec.Fits(old(Abs()), Spec.WriteCall(off, data)))
    {
      hide Allocs; hide Objects; hide NoDangling; hide Outcome; hide ApplyOps; hide WriteOps;
      if blocklisted {
        return Blocklisted, 0;
      }
      Spec.WriteKeepsWf(Abs(), off, data);
      if alloc < |data| + off {
        SetMetadata(|data| + off, false);
      }
      w := IssueWrites(data, off);
      if size < |data| + off {
        size := |data| + off;
        sizeDirty := true;
      }
      r := Ok;
    }

    /** Reads what each object of the range holds, after what is in flight for it. */
    method Read(len: nat, off: nat) returns (r: Status, data: seq<Byte>)
      requires Valid()
      modifies this`inflight, this`trace, cluster`store
      ensures Abs() == old(Abs()) && Valid()
      ensures blocklisted ==> r.Blocklisted?
      ensures !blocklisted ==>
                match Spec.ReadBytes(Abs().view.objs, off, len)
                case None => r.NoEntry?
                case Some(bytes) => r.Ok? && data == bytes
      ensures old(NoDangling(Now())) ==> NoDangling(Now())
    {
      data := [];
      if blocklisted {
        return Blocklisted, [];
      }
      var n := 0;
      ghost var objs := Abs().view.objs;
      ReadEnds(objs, off, len, data);
      while len - n > 0
        invariant n <= len
        invariant Abs() == old(Abs()) && Valid()
        invariant RestRead(objs, off, len, data, n) == Spec.ReadBytes(objs, off, len)
        invariant old(NoDangling(Now())) ==> NoDangling(Now())
      {
        var e := NextExtent(off + n, len - n);
        ReadStep(objs, off, len, data, n, e);
        Await(e.stripe);
        Untargeted(Now(), e.stripe);
        if e.stripe !in cluster.store.objs {
          return NoEntry, [];
        }
        var obj := cluster.store.objs[e.stripe];
        data := data + obj[Spec.Min(e.off, |obj|)..Spec.Min(e.off + e.len, |obj|)];
        n := n + e.len;
      }
      ReadEnds(objs, off, len, data);
      r := Ok;
    }

    // -------------------------------------------------- truncate, flush, remove

    method Truncate(newSize: nat) returns (r: Status)
      requires Valid()
      modifies this`size, this`sizeDirty
      modifies this`alloc, this`version, this`inflight, this`trace, this`updates, cluster`store
      ensures r == if blocklisted then Blocklisted else Ok
      ensures Abs() == if r.Ok? then Spec.Truncate(old(Abs()), newSize) else old(Abs())
      ensures Valid()
      ensures updates - old(updates) == version - old(version)
      ensures StaysSafe(Spec.Fits(old(Abs()), Spec.TruncateCall(newSize)))
    {
      if blocklisted {
        return Blocklisted;
      }
      SetMetadata(newSize, true);
      r := Ok;
    }

    /** Afterwards nothing is in flight and the durable attributes are the cached ones. */
    method Flush() returns (r: Status)
      requires Valid()
      modifies this`size, this`sizeDirty
      modifies this`alloc, this`version, this`inflight, this`trace, this`updates, cluster`store
      ensures r == if blocklisted then Blocklisted else Ok
      ensures Abs() == if r.Ok? then Spec.Flush(old(Abs())) else old(Abs())
      ensures Valid()
      ensures r.Ok? ==> inflight == [] && !sizeDirty && cluster.store.meta == Meta(size, alloc, version)
      ensures r.Ok? ==> cluster.store == Abs().view
      ensures updates - old(updates) == version - old(version)
      ensures StaysSafe(old(size) <= old(alloc))
    {
      if blocklisted {
        return Blocklisted;
      }
      if sizeDirty {
        SetMetadata(size, true);
      }
      WaitForAios();
      r := Ok;
    }

    /** Leaves exactly the objects that dangle past the allocation, and none after fitting calls. */
    method Remove() returns (r: Status)
      requires Valid()
      modifies this`size, this`sizeDirty, this`locked, cluster
      modifies this`alloc, this`version, this`inflight, this`trace, this`updates
      ensures r == if blocklisted then Blocklisted else Ok
      ensures Abs() == if r.Ok? then Spec.Remove(old(Abs())) else old(Abs())
      ensures r.Ok? ==> !locked && 0 !in cluster.store.objs && cluster.holder.None? && cluster.excl.None?
      ensures !r.Ok? ==> locked == old(locked) && trace == old(trace)
                         && cluster.holder == old(cluster.holder) && cluster.excl == old(cluster.excl)
      ensures StaysSafe(true)
      ensures r.Ok? && old(NoDangling(Now())) ==> cluster.store.objs == map[]
    {
      if blocklisted {
        return Blocklisted;
      }
      hide Allocs; hide Objects; hide NoDangling; hide Outcome; hide Spec.SetMetadata;
      if NoDangling(Now()) { RemoveEmpties(Now(), Abs()); }
      Spec.RemoveLeavesOnlyDangling(Abs());
      WaitForAios();
      SetMetadata(0, true);
      RemoveFirst();
      locked := false;
      r := Ok;
    }

    /** The removal of the first object, and with it of the lock and the owner attribute it carries. */
    method RemoveFirst()
      requires forall op | op in inflight :: Target(op) == 0
      modifies this`inflight, this`trace, this`updates, cluster
      ensures inflight == [] && cluster.store == ApplyOp(old(Abs().view), RemoveOp(0))
      ensures cluster.holder.None? && cluster.excl.None?
      ensures StaysSafe(true)
    {
      Submit(RemoveOp(0));
      Await(0);
      cluster.holder, cluster.excl := None, None;
    }

    // -------------------------------------------------- create, open, lock, unlock

    /** Exclusive creation of the first object with all attributes zero. */
    method Create() returns (r: Status)
      modifies cluster
      ensures r == if blocklisted then Blocklisted else if 0 in old(cluster.store.objs) then Exists else Ok
      ensures r.Ok? ==> cluster.store == Store(old(cluster.store.objs)[0 := []], Meta(0, 0, 0)) && cluster.excl.None?
      ensures r.Ok? ==> cluster.holder == old(cluster.holder)
      ensures !r.Ok? ==> cluster.store == old(cluster.store) && cluster.excl == old(cluster.excl)
                         && cluster.holder == old(cluster.holder)
    {
      if blocklisted {
        return Blocklisted;
      }
      if 0 in cluster.store.objs {
        return Exists;
      }
      cluster.store := Store(cluster.store.objs[0 := []], Meta(0, 0, 0));
      cluster.excl := None;
      r := Ok;
    }

    /** Takes size, allocation and version from the durable attributes. */
    method Open() returns (r: Status)
      requires inflight == []
      modifies this`size, this`alloc, this`version
      ensures r == if blocklisted then Blocklisted else if 0 in cluster.store.objs then Ok else NoEntry
      ensures r.Ok? ==> Meta(size, alloc, version) == cluster.store.meta
      ensures !r.Ok? ==> size == old(size) && alloc == old(alloc) && version == old(version)
    {
      if blocklisted {
        return Blocklisted;
      }
      if 0 !in cluster.store.objs {
        return NoEntry;
      }
      size, alloc, version := cluster.store.meta.size, cluster.store.meta.alloc, cluster.store.meta.version;
      r := Ok;
    }

    /** The fast path of lock(); Canceled is where recovery would begin. */
    method Lock() returns (r: Status)
      requires !locked && inflight == []
      modifies this`size, this`alloc, this`version, this`locked, cluster`holder, cluster`excl
      ensures blocklisted ==> r.Blocklisted?
      ensures !blocklisted && old(cluster.holder.Some?) ==> r.Busy?
      ensures !blocklisted && old(cluster.holder.None?) && old(cluster.excl.Some?) ==> r.Canceled?
      ensures r.Blocklisted? || r.Busy? || r.Canceled? ==>
                !locked && cluster.holder == old(cluster.holder) && cluster.excl == old(cluster.excl)
      ensures r.Ok? || r.NoEntry? ==> locked && cluster.holder == Some(addr) && cluster.excl == Some(addr)
      ensures r.Ok? <==> !blocklisted && old(cluster.holder.None?) && old(cluster.excl.None?) && 0 in cluster.store.objs
      ensures r.Ok? ==> Meta(size, alloc, version) == cluster.store.meta
    {
      if blocklisted {
        return Blocklisted;
      }
      if cluster.holder.Some? {
        return Busy;
      }
      if cluster.excl.Some? {
        return Canceled;
      }
      cluster.holder, cluster.excl := Some(addr), Some(addr);
      locked := true;
      r := Open();
    }

    /** unlock(): flush, then clear the holder attribute and drop the lock in one operation. */
    method Unlock() returns (r: Status)
      requires Valid() && locked
      modifies this`size, this`sizeDirty, this`locked, cluster
      modifies this`alloc, this`version, this`inflight, this`trace, this`updates
      ensures blocklisted ==> r.Blocklisted? && Abs() == old(Abs())
      ensures !blocklisted ==>
                && Abs() == Spec.Flush(old(Abs()))
                && inflight == [] && !sizeDirty
                && cluster.store == Abs().view && cluster.store.meta == Meta(size, alloc, version)
      ensures r.Ok? <==> !blocklisted && old(cluster.excl) == Some(addr) && old(cluster.holder) == Some(addr)
      ensures r.Canceled? <==> !blocklisted && old(cluster.excl) != Some(addr)
      ensures r.Ok? ==> !locked && cluster.excl.None? && cluster.holder.None?
      ensures !r.Ok? ==> locked && cluster.excl == old(cluster.excl) && cluster.holder == old(cluster.holder)
      ensures Valid()
      ensures updates - old(updates) == version - old(version)
      ensures old(NoDangling(Now())) && old(size) <= old(alloc) ==> NoDangling(Now())
    {
      r := Flush();
      if !r.Ok? {
        return;
      }
      if cluster.excl != Some(addr) {
        return Canceled;
      }
      if cluster.holder != Some(addr) {
        return NoEntry;
      }
      cluster.excl, cluster.holder := None, None;
      locked := false;
    }
  }

  /** The next locker opens exactly the flushed state of the last owner, and its whole file. */
  method HandOver(a: Striper, b: Striper) returns (r: Status)
    requires a != b && a.cluster == b.cluster && a.addr != b.addr
    requires a.Valid() && a.locked && !a.blocklisted
    requires a.cluster.holder == Some(a.addr) && a.cluster.excl == Some(a.addr)
    requires !b.locked && !b.blocklisted && !b.sizeDirty && b.inflight == []
    modifies a, b, a.cluster
    ensures r.Ok? && b.locked && !a.locked
    ensures b.Valid() && b.Abs() == Spec.Flush(old(a.Abs()))
    ensures b.cluster.holder == Some(b.addr) && b.cluster.excl == Some(b.addr)
  {
    r := a.Unlock();
    r := b.Lock();
  }
}
