/**
 The durable store together with the operations a client has in flight. A crash loses the client
 but not the store: any part of what was in flight may still land. So properties that have to
 survive a crash are stated for a snapshot and for everything the OSDs can make of it.
 */
module Inflight {
  import opened Wrappers
  import opened StriperMeta
  import opened StripedStore
  import Spec = StriperSpec

  datatype Snapshot = Snapshot(store: Store, inflight: seq<Op>)

  // ---------------------------------------------------------------- waiting for one object

  /** Lets the operations on object t take effect, in order, and leaves the others in flight. */
  function Settle(s: Snapshot, t: nat): Snapshot
    decreases |s.inflight|
  {
    if s.inflight == [] then s
    else
      var op, rest := s.inflight[0], s.inflight[1..];
      if Target(op) == t then Settle(Snapshot(ApplyOp(s.store, op), rest), t)
      else
        var r := Settle(Snapshot(s.store, rest), t);
        Snapshot(r.store, [op] + r.inflight)
  }

  function Outcome(s: Snapshot): Store {
    ApplyOps(s.store, s.inflight)
  }

  lemma {:induction false} SettleCommutes(s: Snapshot, op: Op, t: nat)
    requires Target(op) != t
    ensures Settle(Snapshot(ApplyOp(s.store, op), s.inflight), t)
         == Snapshot(ApplyOp(Settle(s, t).store, op), Settle(s, t).inflight)
    decreases |s.inflight|
  {
    if s.inflight != [] {
      var first, rest := s.inflight[0], s.inflight[1..];
      if Target(first) == t {
        OpsCommute(s.store, op, first);
        SettleCommutes(Snapshot(ApplyOp(s.store, first), rest), op, t);
      } else {
        SettleCommutes(Snapshot(s.store, rest), op, t);
      }
    }
  }

  /** Waiting does not change the file the client will end up with. */
  lemma {:induction false} SettleKeepsOutcome(s: Snapshot, t: nat)
    ensures Outcome(Settle(s, t)) == Outcome(s)
    ensures forall op | op in Settle(s, t).inflight :: op in s.inflight && Target(op) != t
    decreases |s.inflight|
  {
    if s.inflight != [] {
      var op, rest := s.inflight[0], s.inflight[1..];
      if Target(op) == t {
        SettleKeepsOutcome(Snapshot(ApplyOp(s.store, op), rest), t);
      } else {
        var r := Settle(Snapshot(s.store, rest), t);
        SettleKeepsOutcome(Snapshot(s.store, rest), t);
        SettleCommutes(Snapshot(s.store, rest), op, t);
        SettleKeepsOutcome(Snapshot(ApplyOp(s.store, op), rest), t);
        assert ([op] + r.inflight)[1..] == r.inflight;
      }
    }
  }

  /** Waiting for the only object that has anything in flight waits for everything. */
  lemma {:induction false} SettleAll(s: Snapshot, t: nat)
    requires forall op | op in s.inflight :: Target(op) == t
    ensures Settle(s, t) == Snapshot(Outcome(s), [])
    decreases |s.inflight|
  {
    if s.inflight != [] {
      assert s.inflight[0] in s.inflight;
      SettleAll(Snapshot(ApplyOp(s.store, s.inflight[0]), s.inflight[1..]), t);
    }
  }

  /** An object nothing in flight is aimed at is durable as it stands. */
  lemma {:induction false} Untargeted(s: Snapshot, k: nat)
    requires forall op | op in s.inflight :: Target(op) != k
    ensures k in Outcome(s).objs <==> k in s.store.objs
    ensures k in s.store.objs ==> Outcome(s).objs[k] == s.store.objs[k]
    ensures k == 0 ==> Outcome(s).meta == s.store.meta
    decreases |s.inflight|
  {
    if s.inflight != [] {
      var op, rest := s.inflight[0], s.inflight[1..];
      assert op in s.inflight;
      Untargeted(Snapshot(ApplyOp(s.store, op), rest), k);
    }
  }

  // ---------------------------------------------------------------- what a store can come to hold

  /** The values the durable allocation attribute has or can come to have. */
  ghost function Allocs(s: Snapshot): set<nat> {
    {s.store.meta.alloc} +
    set op | op in s.inflight && op.MetaOp? && op.update.alloc.Some? :: op.update.alloc.value
  }

  /** The objects that exist or can come to exist. */
  ghost function Objects(s: Snapshot): set<nat> {
    s.store.objs.Keys + set op | op in s.inflight && op.WriteOp? :: op.stripe
  }

  /** With no update in flight the durable allocation is final. */
  lemma AllocFinal(s: Snapshot)
    requires forall op | op in s.inflight :: Target(op) != 0
    ensures Allocs(s) == {Outcome(s).meta.alloc} && Outcome(s).meta == s.store.meta
  {
    Untargeted(s, 0);
  }

  function Processed(s: Snapshot, i: nat): Snapshot
    requires i < |s.inflight|
  {
    Snapshot(ApplyOp(s.store, s.inflight[i]), s.inflight[..i] + s.inflight[i + 1..])
  }

  /** Processing only narrows down what can come. */
  lemma ProcessNarrows(s: Snapshot, i: nat)
    requires i < |s.inflight|
    ensures Allocs(Processed(s, i)) <= Allocs(s) && Objects(Processed(s, i)) <= Objects(s)
  {
    var op := s.inflight[i];
    assert op in s.inflight;
    assert forall x | x in Processed(s, i).inflight :: x in s.inflight;
  }

  /** What one more operation in front adds to the possibilities does not depend on the others. */
  lemma FirstAdds(st: Store, op: Op, rest: seq<Op>)
    ensures Allocs(Snapshot(st, [op] + rest)) ==
              Allocs(Snapshot(st, rest)) + if op.MetaOp? && op.update.alloc.Some? then {op.update.alloc.value} else {}
    ensures Objects(Snapshot(st, [op] + rest)) == Objects(Snapshot(st, rest)) + if op.WriteOp? then {op.stripe} else {}
  {
    assert forall x :: x in [op] + rest <==> x == op || x in rest;
  }

  lemma {:induction false} SettleNarrows(s: Snapshot, t: nat)
    ensures Allocs(Settle(s, t)) <= Allocs(s) && Objects(Settle(s, t)) <= Objects(s)
    decreases |s.inflight|
  {
    hide Allocs; hide Objects; hide ApplyOp;
    if s.inflight != [] {
      var op, rest := s.inflight[0], s.inflight[1..];
      if Target(op) == t {
        ProcessNarrows(s, 0);
        assert s.inflight[..0] + rest == rest;
        SettleNarrows(Snapshot(ApplyOp(s.store, op), rest), t);
      } else {
        var r := Settle(Snapshot(s.store, rest), t);
        SettleNarrows(Snapshot(s.store, rest), t);
        FirstAdds(r.store, op, r.inflight);
        FirstAdds(s.store, op, rest);
        assert s.inflight == [op] + rest;
      }
    }
  }

  lemma {:induction false} OutcomeNarrows(s: Snapshot)
    ensures Outcome(s).objs.Keys <= Objects(s)
    decreases |s.inflight|
  {
    if s.inflight != [] {
      ProcessNarrows(s, 0);
      assert s.inflight[..0] + s.inflight[1..] == s.inflight[1..];
      OutcomeNarrows(Processed(s, 0));
    }
  }

  // ---------------------------------------------------------------- no dangling extents

  predicate Under(k: nat, alloc: nat) {
    k == 0 || k * OBJECT_SIZE < alloc
  }

  ghost predicate AllUnder(objects: set<nat>, alloc: nat) {
    forall k | k in objects :: Under(k, alloc)
  }

  /** Whatever lands, every object but the first starts below the durable allocation. */
  ghost predicate NoDangling(s: Snapshot) {
    forall a | a in Allocs(s) :: Spec.AllocOk(a) && AllUnder(Objects(s), a)
  }

  /** Issuing the operation cannot make an object dangle. */
  ghost predicate SafeToIssue(s: Snapshot, op: Op) {
    match op
    case WriteOp(k, _, _) => forall a | a in Allocs(s) :: Under(k, a)
    case MetaOp(u) => u.alloc.Some? ==> Spec.AllocOk(u.alloc.value) && AllUnder(Objects(s), u.alloc.value)
    case RemoveOp(_) => true
  }

  function Issued(s: Snapshot, op: Op): Snapshot {
    Snapshot(s.store, s.inflight + [op])
  }

  lemma IssueWidens(s: Snapshot, op: Op)
    ensures Outcome(Issued(s, op)) == ApplyOp(Outcome(s), op)
    ensures Allocs(Issued(s, op)) ==
              Allocs(s) + if op.MetaOp? && op.update.alloc.Some? then {op.update.alloc.value} else {}
    ensures Objects(Issued(s, op)) == Objects(s) + if op.WriteOp? then {op.stripe} else {}
  {
    ApplyOpsAppend(s.store, s.inflight, [op]);
    assert [op][1..] == [];
    assert forall x :: x in s.inflight + [op] <==> x in s.inflight || x == op;
  }

  lemma IssueKeepsNoDangling(s: Snapshot, op: Op)
    requires NoDangling(s) && SafeToIssue(s, op)
    ensures NoDangling(Issued(s, op))
  {
    hide Outcome; hide Allocs; hide Objects; hide Issued;
    IssueWidens(s, op);
    forall a | a in Allocs(Issued(s, op))
      ensures Spec.AllocOk(a) && AllUnder(Objects(Issued(s, op)), a)
    {
      assert a in Allocs(s) ==> AllUnder(Objects(s), a);
    }
  }

  /** A larger allocation is safe to announce. */
  lemma GrowthIsSafe(s: Snapshot, alloc: nat)
    requires NoDangling(s) && Spec.AllocOk(alloc) && exists a :: a in Allocs(s) && a <= alloc
    ensures AllUnder(Objects(s), alloc)
  {
    var a :| a in Allocs(s) && a <= alloc;
    assert AllUnder(Objects(s), a);
  }

  lemma NarrowerHasNoDangling(s: Snapshot, s': Snapshot)
    requires NoDangling(s) && Allocs(s') <= Allocs(s) && Objects(s') <= Objects(s)
    ensures NoDangling(s')
  {
    forall a | a in Allocs(s')
      ensures Spec.AllocOk(a) && AllUnder(Objects(s'), a)
    {
      assert Spec.AllocOk(a) && AllUnder(Objects(s), a);
    }
  }

  /** The order in which the OSDs go on processing after the client is gone. */
  ghost predicate MayRun(s: Snapshot, order: seq<nat>)
    decreases |order|
  {
    order == [] || (MayProcess(s.inflight, order[0]) && MayRun(Processed(s, order[0]), order[1..]))
  }

  ghost function Survives(s: Snapshot, order: seq<nat>): Store
    requires MayRun(s, order)
    decreases |order|
  {
    if order == [] then s.store else Survives(Processed(s, order[0]), order[1..])
  }

  lemma {:induction false} SurvivorHasNoDangling(s: Snapshot, order: seq<nat>)
    requires NoDangling(s) && MayRun(s, order)
    ensures NoDangling(Snapshot(Survives(s, order), []))
    decreases |order|
  {
    if order == [] {
      NarrowerHasNoDangling(s, Snapshot(s.store, []));
    } else {
      ProcessNarrows(s, order[0]);
      NarrowerHasNoDangling(s, Processed(s, order[0]));
      SurvivorHasNoDangling(Processed(s, order[0]), order[1..]);
    }
  }

  /** What the next owner reads from a store. */
  function Opened(st: Store): Spec.File {
    Spec.File(st.meta.size, st.meta.alloc, st.meta.version, false, st)
  }

  /**
   No crash leaks an object: whatever part of the operations in flight still lands, the next owner
   can remove the file without leaving anything behind.
   */
  lemma CrashLeaksNothing(s: Snapshot, order: seq<nat>)
    requires NoDangling(s) && MayRun(s, order) && 0 in Survives(s, order).objs
    ensures Spec.Wf(Opened(Survives(s, order)))
    ensures Spec.Remove(Opened(Survives(s, order))).view.objs == map[]
  {
    var st := Survives(s, order);
    SurvivorHasNoDangling(s, order);
    assert st.meta.alloc in Allocs(Snapshot(st, []));
    Spec.RemoveLeavesOnlyDangling(Opened(st));
    assert forall k | k in st.objs :: k in Objects(Snapshot(st, [])) && Under(k, st.meta.alloc);
  }
}
