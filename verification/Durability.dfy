/**
 What a crash does to the bytes of a file. Each OSD processes the operations on its object in the
 order they were issued, and the OSDs do not wait for each other; so a crash leaves, object by
 object, the effect of some prefix of what was in flight. The durable size is an attribute of the
 first object. The question is when every byte below the durable size exists after any crash.
 */
module Durability {
  import opened Wrappers
  import opened StriperMeta
  import opened Bytes
  import opened StripedStore
  import opened Inflight
  import Spec = StriperSpec

  // ---------------------------------------------------------------- one object at a time

  /** The operations on object t, in order. */
  function Only(ops: seq<Op>, t: nat): seq<Op> {
    if ops == [] then []
    else (if Target(ops[0]) == t then [ops[0]] else []) + Only(ops[1..], t)
  }

  /** The two stores have the same object t, and the same attributes if t is the first. */
  predicate SamePart(a: Store, b: Store, t: nat) {
    && (t in a.objs <==> t in b.objs)
    && (t in a.objs ==> a.objs[t] == b.objs[t])
    && (t == 0 ==> a.meta == b.meta)
  }

  ghost predicate AllOn(ops: seq<Op>, t: nat) {
    forall op | op in ops :: Target(op) == t
  }

  lemma {:induction false} OnlyOn(ops: seq<Op>, t: nat)
    ensures AllOn(Only(ops, t), t)
    ensures forall op | op in ops && Target(op) == t :: op in Only(ops, t)
    ensures forall op | op in Only(ops, t) :: op in ops
    decreases |ops|
  {
    if ops != [] { OnlyOn(ops[1..], t); }
  }

  lemma {:induction false} OnlySnoc(ops: seq<Op>, op: Op, t: nat)
    ensures Only(ops + [op], t) == Only(ops, t) + if Target(op) == t then [op] else []
    decreases |ops|
  {
    if ops == [] {
      assert ops + [op] == [op] && [op][1..] == [];
    } else {
      assert (ops + [op])[1..] == ops[1..] + [op];
      OnlySnoc(ops[1..], op, t);
    }
  }

  /** Processing an operation takes the first one off its own object and leaves the others alone. */
  lemma {:induction false} OnlyProcessed(ops: seq<Op>, i: nat, t: nat)
    requires MayProcess(ops, i)
    ensures var rest := ops[..i] + ops[i + 1..];
            Only(ops, t) == (if Target(ops[i]) == t then [ops[i]] else []) + Only(rest, t)
    decreases i
  {
    var rest := ops[..i] + ops[i + 1..];
    if i == 0 {
      assert rest == ops[1..];
    } else {
      var tail := ops[1..];
      assert forall j | 0 <= j < i - 1 :: tail[j] == ops[j + 1];
      OnlyProcessed(tail, i - 1, t);
      assert rest[0] == ops[0] && rest[1..] == tail[..i - 1] + tail[i..];
      assert Target(ops[0]) != Target(ops[i]);
    }
  }

  lemma {:induction false} OpsPart(a: Store, b: Store, ops: seq<Op>, t: nat)
    requires AllOn(ops, t) && SamePart(a, b, t)
    ensures SamePart(ApplyOps(a, ops), ApplyOps(b, ops), t)
    decreases |ops|
  {
    if ops != [] {
      assert ops[0] in ops;
      OpsPart(ApplyOp(a, ops[0]), ApplyOp(b, ops[0]), ops[1..], t);
    }
  }

  lemma {:induction false} OpsOther(st: Store, ops: seq<Op>, t: nat, u: nat)
    requires AllOn(ops, t) && t != u
    ensures SamePart(ApplyOps(st, ops), st, u)
    decreases |ops|
  {
    if ops != [] {
      assert ops[0] in ops;
      OpsOther(ApplyOp(st, ops[0]), ops[1..], t, u);
    }
  }

  /** The store with the first j operations on object t applied. */
  function Cut(s: Snapshot, t: nat, j: nat): Store
    requires j <= |Only(s.inflight, t)|
  {
    ApplyOps(s.store, Only(s.inflight, t)[..j])
  }

  lemma CutNext(s: Snapshot, i: nat, t: nat, j: nat)
    requires MayProcess(s.inflight, i) && j <= |Only(Processed(s, i).inflight, t)|
    ensures Target(s.inflight[i]) == t ==>
              j + 1 <= |Only(s.inflight, t)| && Cut(Processed(s, i), t, j) == Cut(s, t, j + 1)
    ensures Target(s.inflight[i]) != t ==>
              j <= |Only(s.inflight, t)| && SamePart(Cut(Processed(s, i), t, j), Cut(s, t, j), t)
  {
    var op, s1 := s.inflight[i], Processed(s, i);
    OnlyProcessed(s.inflight, i, t);
    if Target(op) == t {
      var ops := Only(s.inflight, t)[..j + 1];
      assert ops == [op] + Only(s1.inflight, t)[..j];
      assert ops[1..] == Only(s1.inflight, t)[..j];
    } else {
      OnlyOn(s.inflight, t);
      assert [] + Only(s1.inflight, t) == Only(s1.inflight, t);
      OpsPart(s1.store, s.store, Only(s.inflight, t)[..j], t);
    }
  }

  /** After a crash each object has the effect of a prefix of its operations. */
  lemma {:induction false} SurvivorPart(s: Snapshot, order: seq<nat>, t: nat) returns (j: nat)
    requires MayRun(s, order)
    ensures j <= |Only(s.inflight, t)| && SamePart(Survives(s, order), Cut(s, t, j), t)
    decreases |order|
  {
    hide Cut;
    j := 0;
    if order == [] {
      CutNothing(s, t);
    } else {
      var i := order[0];
      var k := SurvivorPart(Processed(s, i), order[1..], t);
      CutNext(s, i, t, k);
      j := if Target(s.inflight[i]) == t then k + 1 else k;
    }
  }

  lemma CutNothing(s: Snapshot, t: nat)
    ensures Cut(s, t, 0) == s.store
  {
  }

  // ---------------------------------------------------------------- and every prefix is possible

  ghost function Ends(s: Snapshot, order: seq<nat>): Snapshot
    requires MayRun(s, order)
    decreases |order|
  {
    if order == [] then s else Ends(Processed(s, order[0]), order[1..])
  }

  lemma {:induction false} SurvivesEnds(s: Snapshot, order: seq<nat>)
    requires MayRun(s, order)
    ensures Survives(s, order) == Ends(s, order).store
    decreases |order|
  {
    if order != [] { SurvivesEnds(Processed(s, order[0]), order[1..]); }
  }

  lemma {:induction false} RunOn(s: Snapshot, a: seq<nat>, b: seq<nat>)
    requires MayRun(s, a) && MayRun(Ends(s, a), b)
    ensures MayRun(s, a + b) && Ends(s, a + b) == Ends(Ends(s, a), b)
    decreases |a|
  {
    if a == [] {
      assert a + b == b;
    } else {
      assert (a + b)[0] == a[0] && (a + b)[1..] == a[1..] + b;
      RunOn(Processed(s, a[0]), a[1..], b);
    }
  }

  lemma {:induction false} FirstOf(ops: seq<Op>, t: nat) returns (i: nat)
    requires Only(ops, t) != []
    ensures MayProcess(ops, i) && Target(ops[i]) == t
    decreases |ops|
  {
    if Target(ops[0]) == t {
      i := 0;
    } else {
      var j := FirstOf(ops[1..], t);
      i := j + 1;
      assert forall k | 1 <= k < i :: ops[k] == ops[1..][k - 1];
    }
  }

  /** The OSD of object t makes j steps while all others stand still. */
  lemma {:induction false} TakeOnly(s: Snapshot, t: nat, j: nat) returns (order: seq<nat>)
    requires j <= |Only(s.inflight, t)|
    ensures MayRun(s, order) && Ends(s, order).store == Cut(s, t, j)
    ensures forall u: nat | u != t :: Only(Ends(s, order).inflight, u) == Only(s.inflight, u)
    decreases j
  {
    if j == 0 {
      order := [];
    } else {
      hide Cut;
      var i := FirstOf(s.inflight, t);
      var s1 := Processed(s, i);
      OnlyProcessed(s.inflight, i, t);
      var rest := TakeOnly(s1, t, j - 1);
      CutNext(s, i, t, j - 1);
      order := [i] + rest;
      assert order[0] == i && order[1..] == rest;
      forall u: nat | u != t
        ensures Only(s1.inflight, u) == Only(s.inflight, u)
      {
        OnlyProcessed(s.inflight, i, u);
        assert [] + Only(s1.inflight, u) == Only(s1.inflight, u);
      }
    }
  }

  // ---------------------------------------------------------------- sizes

  /** The values the durable size has or can come to have. */
  ghost function Sizes(s: Snapshot): set<nat> {
    {s.store.meta.size} + set op | op in s.inflight && op.MetaOp? && op.update.size.Some? :: op.update.size.value
  }

  lemma ApplySnoc(st: Store, ops: seq<Op>, n: nat)
    requires n < |ops|
    ensures ApplyOps(st, ops[..n + 1]) == ApplyOp(ApplyOps(st, ops[..n]), ops[n])
  {
    assert ops[..n + 1] == ops[..n] + [ops[n]];
    ApplyOpsAppend(st, ops[..n], [ops[n]]);
    assert [ops[n]][1..] == [];
  }

  lemma CutSnoc(s: Snapshot, t: nat, j: nat)
    requires 0 < j <= |Only(s.inflight, t)|
    ensures Cut(s, t, j) == ApplyOp(Cut(s, t, j - 1), Only(s.inflight, t)[j - 1])
  {
    hide ApplyOps; hide Only;
    ApplySnoc(s.store, Only(s.inflight, t), j - 1);
  }

  lemma {:induction false} CutSize(s: Snapshot, j: nat)
    requires j <= |Only(s.inflight, 0)|
    ensures Cut(s, 0, j).meta.size in Sizes(s)
    decreases j
  {
    if j > 0 {
      hide Cut;
      CutSize(s, j - 1);
      CutSnoc(s, 0, j);
      OnlyOn(s.inflight, 0);
      assert Only(s.inflight, 0)[j - 1] in Only(s.inflight, 0);
    } else {
      CutNothing(s, 0);
    }
  }

  lemma SizeReached(s: Snapshot, z: nat) returns (j: nat)
    requires z in Sizes(s)
    ensures j <= |Only(s.inflight, 0)| && Cut(s, 0, j).meta.size == z
  {
    hide Cut; hide Only;
    j := 0;
    CutNothing(s, 0);
    if z != s.store.meta.size {
      var op :| op in s.inflight && op.MetaOp? && op.update.size == Some(z);
      OnlyOn(s.inflight, 0);
      var k :| 0 <= k < |Only(s.inflight, 0)| && Only(s.inflight, 0)[k] == op;
      j := k + 1;
      CutSnoc(s, 0, j);
    }
  }

  // ---------------------------------------------------------------- which snapshots are safe

  /** Whatever lands, the next owner finds every byte below the size. */
  ghost predicate CrashSafe(s: Snapshot) {
    forall order | MayRun(s, order) :: Spec.HoleFree(Opened(Survives(s, order)))
  }

  ghost predicate FirstHolds(st: Store) {
    forall i: nat | i < st.meta.size && i < OBJECT_SIZE :: Lookup(st.objs, i).Some?
  }

  /** The first object, which carries the size, has the bytes below it after every prefix. */
  ghost predicate FirstCovered(s: Snapshot) {
    forall j: nat | j <= |Only(s.inflight, 0)| :: FirstHolds(Cut(s, 0, j))
  }

  /** The bytes in other objects below any size that is durable or on its way are durable, and stay. */
  ghost predicate OthersCovered(s: Snapshot) {
    forall z: nat, i: nat | z in Sizes(s) && OBJECT_SIZE <= i < z ::
      Lookup(s.store.objs, i).Some? && RemoveOp(i / OBJECT_SIZE) !in s.inflight
  }

  lemma SamePartLookup(a: Store, b: Store, i: nat)
    requires SamePart(a, b, i / OBJECT_SIZE)
    ensures Lookup(a.objs, i) == Lookup(b.objs, i)
  {
  }

  /** Without a removal a byte that exists stays. */
  lemma {:induction false} WritesKeepByte(st: Store, ops: seq<Op>, k: nat, i: nat)
    requires k > 0 && i / OBJECT_SIZE == k && AllOn(ops, k) && RemoveOp(k) !in ops && Lookup(st.objs, i).Some?
    ensures Lookup(ApplyOps(st, ops).objs, i).Some?
    decreases |ops|
  {
    if ops != [] {
      assert ops[0] in ops;
      WritesKeepByte(ApplyOp(st, ops[0]), ops[1..], k, i);
    }
  }

  lemma CoveredSurvives(s: Snapshot, order: seq<nat>, i: nat)
    requires FirstCovered(s) && OthersCovered(s) && MayRun(s, order) && i < Survives(s, order).meta.size
    ensures Lookup(Survives(s, order).objs, i).Some?
  {
    hide Lookup; hide Sizes; hide Survives;
    var st := Survives(s, order);
    var j := SurvivorPart(s, order, 0);
    if i < OBJECT_SIZE {
      assert FirstHolds(Cut(s, 0, j));
      SamePartLookup(st, Cut(s, 0, j), i);
    } else {
      CutSize(s, j);
      var k := i / OBJECT_SIZE;
      var n := SurvivorPart(s, order, k);
      OnlyOn(s.inflight, k);
      assert Lookup(s.store.objs, i).Some? && RemoveOp(k) !in s.inflight;
      WritesKeepByte(s.store, Only(s.inflight, k)[..n], k, i);
      SamePartLookup(st, Cut(s, k, n), i);
    }
  }

  lemma CoveredIsSafe(s: Snapshot)
    requires FirstCovered(s) && OthersCovered(s)
    ensures CrashSafe(s)
  {
    forall order | MayRun(s, order)
      ensures Spec.HoleFree(Opened(Survives(s, order)))
    {
      forall i: nat | i < Survives(s, order).meta.size
        ensures Lookup(Survives(s, order).objs, i).Some?
      {
        CoveredSurvives(s, order, i);
      }
    }
  }

  /** In a safe snapshot no prefix of the first object leaves a hole. */
  lemma SafeCut(s: Snapshot, j: nat)
    requires CrashSafe(s) && j <= |Only(s.inflight, 0)|
    ensures Spec.HoleFree(Opened(Cut(s, 0, j)))
  {
    var order := TakeOnly(s, 0, j);
    SurvivesEnds(s, order);
  }

  /** Nor does the first object together with any prefix of another one. */
  lemma SafeCuts(s: Snapshot, j: nat, k: nat, n: nat)
    requires CrashSafe(s) && j <= |Only(s.inflight, 0)| && k > 0 && n <= |Only(s.inflight, k)|
    ensures Spec.HoleFree(Opened(ApplyOps(Cut(s, 0, j), Only(s.inflight, k)[..n])))
  {
    var a := TakeOnly(s, 0, j);
    var b := TakeOnly(Ends(s, a), k, n);
    RunOn(s, a, b);
    SurvivesEnds(s, a + b);
  }

  lemma SafeByte(s: Snapshot, z: nat, i: nat)
    requires CrashSafe(s) && z in Sizes(s) && OBJECT_SIZE <= i < z
    ensures Lookup(s.store.objs, i).Some? && RemoveOp(i / OBJECT_SIZE) !in s.inflight
  {
    hide Lookup; hide CrashSafe; hide Sizes;
    var k := i / OBJECT_SIZE;
    var j := SizeReached(s, z);
    var first := Cut(s, 0, j);
    SafeCut(s, j);
    OnlyOn(s.inflight, 0);
    OpsOther(s.store, Only(s.inflight, 0)[..j], 0, k);
    SamePartLookup(first, s.store, i);
    assert Lookup(Opened(first).view.objs, i).Some?;
    if RemoveOp(k) in s.inflight {
      OnlyOn(s.inflight, k);
      var ops := Only(s.inflight, k);
      var n :| 0 <= n < |ops| && ops[n] == RemoveOp(k);
      SafeCuts(s, j, k, n + 1);
      RemovedLast(first, ops, k, n, i);
    }
  }

  /** After a removal as the last operation the object is gone, and the size is as it was. */
  lemma RemovedLast(st: Store, ops: seq<Op>, k: nat, n: nat, i: nat)
    requires n < |ops| && ops[n] == RemoveOp(k) && k > 0 && AllOn(ops, k) && i / OBJECT_SIZE == k && i < st.meta.size
    ensures !Spec.HoleFree(Opened(ApplyOps(st, ops[..n + 1])))
  {
    hide ApplyOps;
    var last := ApplyOps(st, ops[..n + 1]);
    ApplySnoc(st, ops, n);
    OpsOther(st, ops[..n + 1], k, 0);
    assert last.meta == st.meta && Lookup(last.objs, i).None?;
  }

  /** No crash loses a byte below the durable size exactly when both conditions hold. */
  lemma CrashSafeExactly(s: Snapshot)
    ensures CrashSafe(s) <==> FirstCovered(s) && OthersCovered(s)
  {
    if CrashSafe(s) {
      forall j: nat | j <= |Only(s.inflight, 0)|
        ensures FirstHolds(Cut(s, 0, j))
      {
        SafeCut(s, j);
        assert forall i: nat | i < Cut(s, 0, j).meta.size :: Lookup(Opened(Cut(s, 0, j)).view.objs, i).Some?;
      }
      forall z: nat, i: nat | z in Sizes(s) && OBJECT_SIZE <= i < z
        ensures Lookup(s.store.objs, i).Some? && RemoveOp(i / OBJECT_SIZE) !in s.inflight
      {
        SafeByte(s, z, i);
      }
    }
    if FirstCovered(s) && OthersCovered(s) { CoveredIsSafe(s); }
  }

  // ---------------------------------------------------------------- which operations keep it safe

  lemma {:induction false} OutcomePart(st: Store, ops: seq<Op>, t: nat)
    ensures SamePart(ApplyOps(st, ops), ApplyOps(st, Only(ops, t)), t)
    decreases |ops|
  {
    if ops != [] {
      var op, rest := ops[0], ops[1..];
      OutcomePart(ApplyOp(st, op), rest, t);
      if Target(op) == t {
        assert Only(ops, t)[0] == op && Only(ops, t)[1..] == Only(rest, t);
      } else {
        assert Only(ops, t) == Only(rest, t);
        OnlyOn(rest, t);
        OpsPart(ApplyOp(st, op), st, Only(rest, t), t);
      }
    }
  }

  /** One operation more: the prefixes of before, and one more if it is on that object. */
  lemma CutIssued(s: Snapshot, op: Op, j: nat)
    requires j <= |Only(Issued(s, op).inflight, 0)|
    ensures |Only(Issued(s, op).inflight, 0)| == |Only(s.inflight, 0)| + if Target(op) == 0 then 1 else 0
    ensures j <= |Only(s.inflight, 0)| ==> Cut(Issued(s, op), 0, j) == Cut(s, 0, j)
    ensures j > |Only(s.inflight, 0)| ==>
              Cut(Issued(s, op), 0, j) == ApplyOp(Cut(s, 0, |Only(s.inflight, 0)|), op)
  {
    OnlySnoc(s.inflight, op, 0);
    var ops, ops' := Only(s.inflight, 0), Only(Issued(s, op).inflight, 0);
    if j <= |ops| {
      assert ops'[..j] == ops[..j];
    } else {
      assert ops'[..j - 1] == ops[..|ops|];
      CutSnoc(Issued(s, op), 0, j);
    }
  }

  lemma SizesIssued(s: Snapshot, op: Op)
    ensures Sizes(Issued(s, op)) ==
              Sizes(s) + if op.MetaOp? && op.update.size.Some? then {op.update.size.value} else {}
  {
    assert forall x :: x in s.inflight + [op] <==> x in s.inflight || x == op;
  }

  /** The first object stays covered exactly when it is after the new operation. */
  lemma FirstIssued(s: Snapshot, op: Op)
    requires FirstCovered(s)
    ensures FirstCovered(Issued(s, op)) <==>
              (Target(op) == 0 ==> FirstHolds(ApplyOp(Cut(s, 0, |Only(s.inflight, 0)|), op)))
  {
    hide Cut; hide FirstHolds; hide Only; hide Issued;
    var s' := Issued(s, op);
    var n := |Only(s.inflight, 0)|;
    CutIssued(s, op, 0);
    if Target(op) == 0 { CutIssued(s, op, n + 1); }
    forall j: nat | j <= |Only(s'.inflight, 0)| && j <= n
      ensures FirstHolds(Cut(s', 0, j))
    {
      CutIssued(s, op, j);
      assert FirstHolds(Cut(s, 0, j));
    }
  }

  /** A write never makes a snapshot unsafe. */
  lemma WriteIsSafe(s: Snapshot, k: nat, off: nat, data: seq<Byte>)
    requires CrashSafe(s)
    ensures CrashSafe(Issued(s, WriteOp(k, off, data)))
  {
    hide CrashSafe; hide Sizes; hide Cut; hide Only;
    var op := WriteOp(k, off, data);
    CrashSafeExactly(s);
    SizesIssued(s, op);
    FirstIssued(s, op);
    if k == 0 {
      var st := Cut(s, 0, |Only(s.inflight, 0)|);
      assert FirstHolds(st);
      WriteKeepsFirst(st, off, data);
    }
    CrashSafeExactly(Issued(s, op));
  }

  lemma WriteKeepsFirst(st: Store, off: nat, data: seq<Byte>)
    requires FirstHolds(st)
    ensures FirstHolds(ApplyOp(st, WriteOp(0, off, data)))
  {
    var st' := ApplyOp(st, WriteOp(0, off, data));
    forall i: nat | i < st'.meta.size && i < OBJECT_SIZE
      ensures Lookup(st'.objs, i).Some?
    {
      assert Lookup(st.objs, i).Some?;
    }
  }

  /**
   A size update keeps a snapshot safe exactly when below the new size the first object has its bytes
   once what is in flight for it has landed, and the others have theirs already and will keep them.
   */
  lemma SizeUpdateIsSafeExactly(s: Snapshot, u: Update)
    requires CrashSafe(s) && u.size.Some?
    ensures CrashSafe(Issued(s, MetaOp(u))) <==>
              && (forall i: nat | i < u.size.value && i < OBJECT_SIZE :: Lookup(Outcome(s).objs, i).Some?)
              && (forall i: nat | OBJECT_SIZE <= i < u.size.value ::
                    Lookup(s.store.objs, i).Some? && RemoveOp(i / OBJECT_SIZE) !in s.inflight)
  {
    hide CrashSafe; hide Sizes; hide Cut; hide Only; hide Lookup; hide Outcome;
    var op := MetaOp(u);
    var st := Cut(s, 0, |Only(s.inflight, 0)|);
    CrashSafeExactly(s);
    CrashSafeExactly(Issued(s, op));
    SizesIssued(s, op);
    FirstIssued(s, op);
    LastCut(s);
    forall i: nat | i < OBJECT_SIZE
      ensures Lookup(st.objs, i) == Lookup(Outcome(s).objs, i)
    {
      SamePartLookup(st, Outcome(s), i);
    }
    assert RemoveOp(0) != op;
    assert forall x | x in Issued(s, op).inflight :: x in s.inflight || x == op;
    assert forall x | x in s.inflight :: x in Issued(s, op).inflight;
  }

  lemma LastCut(s: Snapshot)
    ensures SamePart(Cut(s, 0, |Only(s.inflight, 0)|), Outcome(s), 0)
  {
    var ops := Only(s.inflight, 0);
    assert ops[..|ops|] == ops;
    OutcomePart(s.store, s.inflight, 0);
  }

  /** Removing an object other than the first is safe exactly when no size it could count for is left. */
  lemma RemoveIsSafeExactly(s: Snapshot, k: nat)
    requires CrashSafe(s) && k > 0
    ensures CrashSafe(Issued(s, RemoveOp(k))) <==> forall z | z in Sizes(s) :: z <= k * OBJECT_SIZE
  {
    hide CrashSafe; hide Sizes; hide Cut; hide Only; hide Lookup;
    var op := RemoveOp(k);
    var s' := Issued(s, op);
    CrashSafeExactly(s);
    CrashSafeExactly(s');
    SizesIssued(s, op);
    FirstIssued(s, op);
    assert op in s'.inflight && forall x :: x in s'.inflight <==> x in s.inflight || x == op;
    var first := k * OBJECT_SIZE;
    assert first / OBJECT_SIZE == k && first >= OBJECT_SIZE;
    if OthersCovered(s') {
      var there := Lookup(s'.store.objs, first);
      assert forall z | z in Sizes(s) :: z <= first;
    }
    if forall z | z in Sizes(s) :: z <= k * OBJECT_SIZE {
      forall z: nat, i: nat | z in Sizes(s') && OBJECT_SIZE <= i < z
        ensures Lookup(s'.store.objs, i).Some? && RemoveOp(i / OBJECT_SIZE) !in s'.inflight
      {
        assert i / OBJECT_SIZE != k;
      }
    }
  }

  /** truncate() to nothing: the removal lands and the size update does not. */
  lemma TruncateLoses(first: seq<Byte>, b: Byte, m: Meta)
    requires |first| == OBJECT_SIZE && m.size == OBJECT_SIZE + 1
    ensures var st := Store(map[0 := first, 1 := [b]], m);
            var s := Snapshot(st, [MetaOp(Update(Some(0), None, m.version + 1)), RemoveOp(1)]);
            Spec.HoleFree(Opened(st)) && MayRun(s, [1]) && !Spec.HoleFree(Opened(Survives(s, [1])))
  {
    var st := Store(map[0 := first, 1 := [b]], m);
    var s := Snapshot(st, [MetaOp(Update(Some(0), None, m.version + 1)), RemoveOp(1)]);
    assert MayRun(s, [1]) && Survives(s, [1]) == ApplyOp(st, RemoveOp(1)) by {
      assert [1][1..] == [] && MayRun(Processed(s, 1), []);
    }
    assert Lookup(Survives(s, [1]).objs, OBJECT_SIZE).None?;
  }

  /** flush(): the size update lands and the write before it, on another object, does not. */
  lemma FlushLoses(first: seq<Byte>, b: Byte, m: Meta)
    requires |first| == OBJECT_SIZE && m.size == OBJECT_SIZE
    ensures var st := Store(map[0 := first], m);
            var s := Snapshot(st, [WriteOp(1, 0, [b]), MetaOp(Update(Some(OBJECT_SIZE + 1), None, m.version + 1))]);
            Spec.HoleFree(Opened(st)) && MayRun(s, [1]) && !Spec.HoleFree(Opened(Survives(s, [1])))
  {
    var st := Store(map[0 := first], m);
    var u := Update(Some(OBJECT_SIZE + 1), None, m.version + 1);
    var s := Snapshot(st, [WriteOp(1, 0, [b]), MetaOp(u)]);
    assert MayRun(s, [1]) && Survives(s, [1]) == ApplyOp(st, MetaOp(u)) by {
      assert [1][1..] == [] && MayRun(Processed(s, 1), []);
    }
    assert Lookup(Survives(s, [1]).objs, OBJECT_SIZE).None?;
  }
}
