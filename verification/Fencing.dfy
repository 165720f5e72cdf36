/**
 The data objects of a file under the lock protocol. Each object is served by an OSD of its own,
 which learns of blocklisted clients from operations that carry a newer map. Every time a client
 becomes the holder a new era begins; the promise is that on each object writes take effect in the
 order of their eras, so that no write of an evicted owner lands after one of its successors.
 */
module Fencing {
  import opened Wrappers
  import L = LockProtocol

  type Addr = L.Addr

  /** A write on its way, with the era of its sender and the blocklist in the sender's map. */
  datatype Write = Write(c: Addr, era: nat, obj: nat, blocklist: set<Addr>)

  datatype Landing = Landing(obj: nat, era: nat)

  datatype World = World(
    sharesMaps: bool,             // an OSD gives its map to a client before it answers
    lock: L.Cluster,
    era: nat,
    eras: map<Addr, nat>,         // the era in which a client last became the holder
    waited: set<nat>,             // eras that began with a recovery that waited for the latest map
    known: map<Addr, set<Addr>>,  // the blocklist in a client's map
    osds: map<nat, set<Addr>>,    // the blocklist that the OSD of a data object enforces
    pending: seq<Write>,
    landed: seq<Landing>)

  datatype Step =
    | Lock(step: L.Step)
    | Send(c: Addr, obj: nat)   // aio_write
    | Land(i: nat)              // an OSD takes up a write, whichever
    | Learn(obj: nat)           // an OSD receives the latest map

  // ---------------------------------------------------------------- behaviour

  function Known(w: World, c: Addr): set<Addr> {
    if c in w.known then w.known[c] else {}
  }

  function Enforced(w: World, obj: nat): set<Addr> {
    if obj in w.osds then w.osds[obj] else {}
  }

  /** unlock() waits for every write, so none of the client's is pending. */
  ghost predicate Enabled(w: World, st: Step) {
    match st
    case Lock(l) =>
      L.Enabled(w.lock, l) &&
      (l.Act? && l.action.Unlock? ==> forall p | p in w.pending :: p.c != l.c)
    case Send(c, _) =>
      c in w.lock.clients && w.lock.clients[c].alive && !w.lock.clients[c].refused && w.lock.clients[c].phase.Owner?
      && c in w.eras
    case Land(i) => i < |w.pending|
    case Learn(_) => true
  }

  /** The step makes the client the holder. */
  predicate Enters(s: L.Cluster, l: L.Step)
    requires L.Enabled(s, l)
  {
    && l.Act? && (l.action.TryLock? || l.action.SetExcl?)
    && l.c in L.Apply(s, l).clients && L.Apply(s, l).clients[l.c].phase.Opening?
  }

  /** The step ends a recovery that had to blocklist someone. */
  predicate Waited(s: L.Cluster, l: L.Step)
    requires L.Enabled(s, l)
  {
    l.Act? && l.action.SetExcl? && s.clients[l.c].phase.SetOwner? && s.clients[l.c].phase.latestMap
  }

  function ApplyLock(w: World, l: L.Step): World
    requires L.Enabled(w.lock, l)
  {
    var lock := L.Apply(w.lock, l);
    if Enters(w.lock, l) then
      var known := if w.sharesMaps then Known(w, l.c) + lock.osdBlocklist else Known(w, l.c);
      w.(lock := lock, era := w.era + 1, eras := w.eras[l.c := w.era + 1], known := w.known[l.c := known],
         waited := if Waited(w.lock, l) then w.waited + {w.era + 1} else w.waited)
    else if l.Act? && l.action.Blocklist? then
      w.(lock := lock, known := w.known[l.c := Known(w, l.c) + lock.monBlocklist])
    else w.(lock := lock)
  }

  /** An OSD that takes up a write first has a map at least as new as the sender's. */
  function ApplyLand(w: World, i: nat): World
    requires i < |w.pending|
  {
    var p := w.pending[i];
    var enforced := Enforced(w, p.obj) + p.blocklist;
    w.(osds := w.osds[p.obj := enforced],
       pending := w.pending[..i] + w.pending[i + 1..],
       landed := if p.c in enforced then w.landed else w.landed + [Landing(p.obj, p.era)])
  }

  ghost function Apply(w: World, st: Step): World
    requires Enabled(w, st)
  {
    match st
    case Lock(l) => ApplyLock(w, l)
    case Send(c, obj) => w.(pending := w.pending + [Write(c, w.eras[c], obj, Known(w, c))])
    case Land(i) => ApplyLand(w, i)
    case Learn(obj) => w.(osds := w.osds[obj := Enforced(w, obj) + w.lock.monBlocklist])
  }

  /** If `timely`, no lease of a recoverer runs out. */
  ghost predicate May(w: World, st: Step, timely: bool) {
    Enabled(w, st) && (timely && st.Lock? ==> L.Timely(w.lock, st.step))
  }

  ghost predicate Run(w: World, steps: seq<Step>, timely: bool)
    decreases |steps|
  {
    steps == [] || (May(w, steps[0], timely) && Run(Apply(w, steps[0]), steps[1..], timely))
  }

  ghost function Exec(w: World, steps: seq<Step>, timely: bool): World
    requires Run(w, steps, timely)
    decreases |steps|
  {
    if steps == [] then w else Exec(Apply(w, steps[0]), steps[1..], timely)
  }

  function Created(blocklistTheDead: bool, sharesMaps: bool): World {
    World(sharesMaps, L.Created(blocklistTheDead), 0, map[], {}, map[], map[], [], [])
  }

  /** On each object, writes have taken effect in the order of their eras. */
  ghost predicate InOrder(landed: seq<Landing>) {
    forall i, j | 0 <= i < j < |landed| && landed[i].obj == landed[j].obj :: landed[i].era <= landed[j].era
  }

  /** The owner of the era has a map in which every earlier owner that did not unlock is blocklisted. */
  predicate Informed(w: World, e: nat) {
    w.sharesMaps || e in w.waited
  }

  /** After a write of an informed owner, no write of an earlier owner takes effect on the object. */
  ghost predicate InOrderAfterInformed(w: World) {
    forall i, j | 0 <= i < j < |w.landed| && w.landed[i].obj == w.landed[j].obj && Informed(w, w.landed[i].era) ::
      w.landed[i].era <= w.landed[j].era
  }

  // ---------------------------------------------------------------- the invariant

  /** The client holds the file, or did until it was evicted without noticing. */
  predicate Holds(w: World, c: Addr) {
    c in w.lock.clients && L.Holding(w.lock.clients[c])
  }

  ghost predicate Eras(w: World) {
    && (forall c | Holds(w, c) :: c in w.eras && w.eras[c] <= w.era)
    && (forall p | p in w.pending :: Holds(w, p.c) && w.lock.clients[p.c].phase.Owner? && p.c in w.eras && p.era == w.eras[p.c])
    && (forall l | l in w.landed :: l.era <= w.era)
    && (forall e | e in w.waited :: e <= w.era)
  }

  /** A recoverer that has waited for the latest map has all of the monitor's blocklist. */
  ghost predicate WaitersKnow(w: World) {
    forall c | c in w.lock.clients && w.lock.clients[c].alive && w.lock.clients[c].phase == L.SetOwner(true) ::
      w.lock.monBlocklist <= Known(w, c)
  }

  /** If the owner of era e is informed, holders of earlier eras are all in the blocklist. */
  ghost predicate Fenced(w: World, e: nat, blocklist: set<Addr>) {
    Informed(w, e) ==> forall c | Holds(w, c) && c in w.eras && w.eras[c] < e :: c in blocklist
  }

  ghost predicate AllFenced(w: World) {
    && (forall d | Holds(w, d) && d in w.eras :: Fenced(w, w.eras[d], Known(w, d)))
    && (forall p | p in w.pending :: Fenced(w, p.era, p.blocklist))
    && (forall l | l in w.landed :: Fenced(w, l.era, Enforced(w, l.obj)))
  }

  ghost predicate Inv(w: World) {
    L.Inv(w.lock) && Eras(w) && WaitersKnow(w) && AllFenced(w) && InOrderAfterInformed(w)
  }

  lemma ActorEnters(s: L.Cluster, c: Addr, a: L.Action)
    requires c in s.clients && L.CanAct(s.clients[c], a) && !L.Holding(s.clients[c])
    requires c in L.ApplyAction(s, c, a).clients && L.Holding(L.ApplyAction(s, c, a).clients[c])
    ensures (a.TryLock? || a.SetExcl?) && L.ApplyAction(s, c, a).clients[c].phase.Opening?
  {
  }

  /** Only TryLock and SetExcl make a holder. */
  lemma HoldersEnter(s: L.Cluster, l: L.Step, c: Addr)
    requires L.Enabled(s, l) && c in L.Apply(s, l).clients && L.Holding(L.Apply(s, l).clients[c])
    ensures (c in s.clients && L.Holding(s.clients[c])) || (Enters(s, l) && l.c == c)
  {
    hide L.ApplyAction; hide L.CanAct;
    if l.Act? {
      if l.c != c { L.OthersUntouched(s, l.c, l.action, c); }
      if l.c == c && !L.Holding(s.clients[c]) { ActorEnters(s, c, l.action); }
    }
  }

  /** Only an unlock ends being an owner. */
  lemma OwnersStay(s: L.Cluster, l: L.Step, c: Addr)
    requires L.Enabled(s, l) && c in s.clients && s.clients[c].phase.Owner?
    requires !(l.Act? && l.c == c && l.action.Unlock?)
    ensures c in L.Apply(s, l).clients && L.Apply(s, l).clients[c].phase.Owner?
  {
  }

  /** Whoever becomes the holder was none, and is now the one the owner attribute names. */
  lemma EntersAlone(s: L.Cluster, l: L.Step)
    requires L.Enabled(s, l) && Enters(s, l)
    ensures l.c in s.clients && !L.Holding(s.clients[l.c]) && L.Apply(s, l).excl == Some(l.c)
  {
  }

  lemma HolderStep(s: L.Cluster, l: L.Step, c: Addr)
    requires L.Enabled(s, l)
    ensures var s' := L.Apply(s, l);
            && (c in s'.clients && L.Holding(s'.clients[c]) && !(c in s.clients && L.Holding(s.clients[c])) ==>
                  Enters(s, l) && l.c == c)
            && (c in s.clients && s.clients[c].phase.Owner? && !(l.Act? && l.c == c && l.action.Unlock?) ==>
                  c in s'.clients && s'.clients[c].phase.Owner?)
            && (Enters(s, l) ==> l.c in s.clients && !L.Holding(s.clients[l.c]) && s'.excl == Some(l.c))
  {
    hide L.Apply; hide L.Enabled; hide Enters; hide L.Holding;
    if c in L.Apply(s, l).clients && L.Holding(L.Apply(s, l).clients[c]) { HoldersEnter(s, l, c); }
    if c in s.clients && s.clients[c].phase.Owner? && !(l.Act? && l.c == c && l.action.Unlock?) { OwnersStay(s, l, c); }
    if Enters(s, l) { EntersAlone(s, l); }
  }

  /** Whoever else holds when a new era begins is refused by the OSD of the first object. */
  lemma OthersRefused(s: L.Cluster, d: Addr, c: Addr)
    requires L.LockInv(s) && s.excl == Some(d) && c != d && c in s.clients && L.Holding(s.clients[c])
    ensures c in s.osdBlocklist
  {
    assert L.ClientInv(s, c, s.clients[c]);
  }

  lemma LockKeepsHolderEra(w: World, l: L.Step, c: Addr)
    requires Eras(w) && Enabled(w, Lock(l)) && Holds(ApplyLock(w, l), c)
    ensures c in ApplyLock(w, l).eras && ApplyLock(w, l).eras[c] <= ApplyLock(w, l).era
  {
    hide L.Apply; hide L.Enabled;
    HolderStep(w.lock, l, c);
  }

  lemma LockKeepsPendingEra(w: World, l: L.Step, p: Write)
    requires Eras(w) && Enabled(w, Lock(l)) && p in w.pending
    ensures var w' := ApplyLock(w, l);
            Holds(w', p.c) && w'.lock.clients[p.c].phase.Owner? && p.c in w'.eras && p.era == w'.eras[p.c]
  {
    hide L.Apply; hide L.Enabled;
    HolderStep(w.lock, l, p.c);
  }

  lemma LockKeepsEras(w: World, l: L.Step)
    requires Eras(w) && Enabled(w, Lock(l))
    ensures Eras(ApplyLock(w, l))
  {
    hide L.Apply; hide L.Enabled; hide Holds;
    var w' := ApplyLock(w, l);
    forall c | Holds(w', c)
      ensures c in w'.eras && w'.eras[c] <= w'.era
    {
      LockKeepsHolderEra(w, l, c);
    }
    forall p | p in w'.pending
      ensures Holds(w', p.c) && p.c in w'.lock.clients && w'.lock.clients[p.c].phase.Owner?
      ensures p.c in w'.eras && p.era == w'.eras[p.c]
    {
      LockKeepsPendingEra(w, l, p);
      assert Holds(w', p.c) ==> p.c in w'.lock.clients by { HoldsClient(w', p.c); }
    }
  }

  lemma HoldsClient(w: World, c: Addr)
    ensures Holds(w, c) ==> c in w.lock.clients
  {
  }

  /** A lock step adds no holder of an old era. */
  lemma LockKeepsFence(w: World, l: L.Step, e: nat, blocklist: set<Addr>)
    requires Eras(w) && Enabled(w, Lock(l)) && e <= w.era && Fenced(w, e, blocklist)
    ensures Fenced(ApplyLock(w, l), e, blocklist)
  {
    hide L.Apply; hide L.Enabled;
    var w' := ApplyLock(w, l);
    assert Informed(w', e) <==> Informed(w, e);
    forall c | Informed(w, e) && Holds(w', c) && c in w'.eras && w'.eras[c] < e
      ensures c in blocklist
    {
      HolderStep(w.lock, l, c);
    }
  }

  lemma LockKeepsOrder(w: World, l: L.Step)
    requires Eras(w) && L.Enabled(w.lock, l) && InOrderAfterInformed(w)
    ensures InOrderAfterInformed(ApplyLock(w, l))
  {
    hide L.Apply; hide L.Enabled;
    forall i | 0 <= i < |w.landed|
      ensures Informed(ApplyLock(w, l), w.landed[i].era) <==> Informed(w, w.landed[i].era)
    {
      assert w.landed[i] in w.landed;
    }
  }

  /** Only its own Blocklist makes a client wait to write the owner attribute with the latest map. */
  lemma WaiterStep(s: L.Cluster, c: Addr, a: L.Action)
    requires c in s.clients && s.clients[c].alive && L.CanAct(s.clients[c], a)
    requires c in L.ApplyAction(s, c, a).clients && L.ApplyAction(s, c, a).clients[c].phase == L.SetOwner(true)
    ensures a.Blocklist? || (s.clients[c].phase == L.SetOwner(true) && a.Crash?)
  {
  }

  /** While a recoverer waits to write the owner attribute, nobody else adds to the blocklist. */
  lemma OneWaiter(s: L.Cluster, l: L.Step, c: Addr)
    requires L.LockInv(s) && L.Enabled(s, l) && c in L.Apply(s, l).clients
    requires L.Apply(s, l).clients[c].alive && L.Apply(s, l).clients[c].phase == L.SetOwner(true)
    ensures l == L.Act(c, L.Blocklist) ||
            (c in s.clients && s.clients[c].alive && s.clients[c].phase == L.SetOwner(true)
             && L.Apply(s, l).monBlocklist == s.monBlocklist)
  {
    L.ListStep(s, l);
    assert c in s.clients ==> L.ClientInv(s, c, s.clients[c]);
    if l.Act? {
      hide L.ApplyAction; hide L.CanAct;
      assert L.ClientInv(s, l.c, s.clients[l.c]);
      if l.action.Blocklist? { Blocklister(s, l.c, l.action); }
      if l.c == c {
        WaiterStep(s, c, l.action);
        L.CrashExactly(s, l, c);
      } else {
        L.OthersUntouched(s, l.c, l.action, c);
      }
    }
  }

  lemma Blocklister(s: L.Cluster, c: Addr, a: L.Action)
    requires c in s.clients && L.CanAct(s.clients[c], a) && a.Blocklist?
    ensures L.Recovering(s.clients[c])
  {
  }

  lemma LockKeepsWaiters(w: World, l: L.Step)
    requires L.LockInv(w.lock) && WaitersKnow(w) && L.Enabled(w.lock, l)
    ensures WaitersKnow(ApplyLock(w, l))
  {
    hide L.Apply; hide L.Enabled; hide L.LockInv;
    var w' := ApplyLock(w, l);
    forall c | c in w'.lock.clients && w'.lock.clients[c].alive && w'.lock.clients[c].phase == L.SetOwner(true)
      ensures w'.lock.monBlocklist <= Known(w', c)
    {
      OneWaiter(w.lock, l, c);
    }
  }

  lemma LockKeepsInv(w: World, l: L.Step)
    requires Inv(w) && May(w, Lock(l), true)
    ensures Inv(ApplyLock(w, l))
  {
    hide L.Apply; hide L.Enabled; hide L.LockInv; hide L.Timely; hide Fenced; hide Eras; hide WaitersKnow;
    hide InOrderAfterInformed;
    var w' := ApplyLock(w, l);
    L.InvStep(w.lock, l);
    LockKeepsEras(w, l);
    LockKeepsWaiters(w, l);
    LockKeepsOrder(w, l);
    forall d | Holds(w', d) && d in w'.eras
      ensures Fenced(w', w'.eras[d], Known(w', d))
    {
      HolderFenced(w, l, d);
    }
    forall p | p in w'.pending
      ensures Fenced(w', p.era, p.blocklist)
    {
      PendingEra(w, p);
      LockKeepsFence(w, l, p.era, p.blocklist);
    }
    forall x | x in w'.landed
      ensures Fenced(w', x.era, Enforced(w', x.obj))
    {
      LandedEra(w, x);
      LockKeepsFence(w, l, x.era, Enforced(w, x.obj));
    }
  }

  lemma PendingEra(w: World, p: Write)
    requires Eras(w) && p in w.pending
    ensures p.era <= w.era
  {
  }

  lemma LandedEra(w: World, x: Landing)
    requires Eras(w) && x in w.landed
    ensures x.era <= w.era
  {
  }

  /** An informed new holder has the blocklist that the OSD of the first object now enforces. */
  lemma EntersInformed(w: World, l: L.Step)
    requires L.Enabled(w.lock, l) && Enters(w.lock, l) && Informed(ApplyLock(w, l), w.era + 1)
    requires L.LockInv(w.lock) && L.LockInv(ApplyLock(w, l).lock) && Eras(w) && WaitersKnow(w)
    ensures ApplyLock(w, l).lock.osdBlocklist <= Known(ApplyLock(w, l), l.c)
  {
  }

  /** An informed new holder knows of every other one, because the OSD it took the lock from refuses them. */
  lemma NewHolderFenced(w: World, l: L.Step)
    requires L.Enabled(w.lock, l) && Enters(w.lock, l)
    requires L.LockInv(w.lock) && L.LockInv(ApplyLock(w, l).lock) && Eras(w) && WaitersKnow(w)
    ensures Fenced(ApplyLock(w, l), w.era + 1, Known(ApplyLock(w, l), l.c))
  {
    hide L.Apply; hide L.Enabled; hide L.LockInv; hide WaitersKnow; hide Eras; hide Known;
    var w' := ApplyLock(w, l);
    HolderStep(w.lock, l, l.c);
    if Informed(w', w.era + 1) {
      EntersInformed(w, l);
      forall c | Holds(w', c) && c in w'.eras && w'.eras[c] < w.era + 1
        ensures c in Known(w', l.c)
      {
        OthersRefused(w'.lock, l.c, c);
      }
    }
  }

  lemma HolderFenced(w: World, l: L.Step, d: Addr)
    requires Inv(w) && May(w, Lock(l), true) && L.Inv(ApplyLock(w, l).lock)
    requires Holds(ApplyLock(w, l), d) && d in ApplyLock(w, l).eras
    ensures Fenced(ApplyLock(w, l), ApplyLock(w, l).eras[d], Known(ApplyLock(w, l), d))
  {
    hide L.Apply; hide L.Enabled; hide L.LockInv; hide L.Timely; hide WaitersKnow; hide InOrderAfterInformed;
    hide Fenced;
    var w' := ApplyLock(w, l);
    HolderStep(w.lock, l, d);
    if Enters(w.lock, l) && l.c == d {
      NewHolderFenced(w, l);
    } else {
      assert Holds(w, d);
      LockKeepsFence(w, l, w.eras[d], Known(w, d));
      assert Known(w, d) <= Known(w', d);
      WiderFence(w', w.eras[d], Known(w, d), Known(w', d));
    }
  }

  lemma WiderFence(w: World, e: nat, blocklist: set<Addr>, blocklist': set<Addr>)
    requires Fenced(w, e, blocklist) && blocklist <= blocklist'
    ensures Fenced(w, e, blocklist')
  {
  }

  lemma SendKeepsInv(w: World, c: Addr, obj: nat)
    requires Inv(w) && Enabled(w, Send(c, obj))
    ensures Inv(Apply(w, Send(c, obj)))
  {
    hide L.Inv; hide Fenced;
    var w' := Apply(w, Send(c, obj));
    assert Holds(w, c) && Fenced(w, w.eras[c], Known(w, c));
    forall d | Holds(w', d) && d in w'.eras
      ensures Fenced(w', w'.eras[d], Known(w', d))
    {
      assert Holds(w, d);
      FenceStays(w, w', w.eras[d], Known(w, d), Known(w', d));
    }
    forall q | q in w'.pending
      ensures Fenced(w', q.era, q.blocklist)
    {
      FenceStays(w, w', q.era, q.blocklist, q.blocklist);
    }
    forall l | l in w'.landed
      ensures Fenced(w', l.era, Enforced(w', l.obj))
    {
      FenceStays(w, w', l.era, Enforced(w, l.obj), Enforced(w', l.obj));
    }
  }

  /** A write that takes effect is of no earlier era than any that did before it. */
  lemma LandKeepsOrder(w: World, i: nat)
    requires Eras(w) && AllFenced(w) && InOrderAfterInformed(w) && i < |w.pending|
    ensures InOrderAfterInformed(ApplyLand(w, i))
  {
    var p := w.pending[i];
    assert p in w.pending;
    if p.c !in Enforced(w, p.obj) + p.blocklist {
      forall k | 0 <= k < |w.landed| && w.landed[k].obj == p.obj && Informed(w, w.landed[k].era)
        ensures w.landed[k].era <= p.era
      {
        assert w.landed[k] in w.landed;
        assert Fenced(w, w.landed[k].era, Enforced(w, p.obj));
      }
    }
  }

  /** Fences depend on the holders and their eras only, and a larger blocklist is as good. */
  lemma FenceStays(w: World, w': World, e: nat, blocklist: set<Addr>, blocklist': set<Addr>)
    requires w'.lock == w.lock && w'.eras == w.eras && w'.waited == w.waited && w'.sharesMaps == w.sharesMaps
    requires Fenced(w, e, blocklist) && blocklist <= blocklist'
    ensures Fenced(w', e, blocklist')
  {
    forall c | Informed(w, e) && Holds(w', c) && c in w'.eras && w'.eras[c] < e
      ensures c in blocklist'
    {
      assert Holds(w, c);
    }
  }

  lemma LandKeepsInv(w: World, i: nat)
    requires Inv(w) && i < |w.pending|
    ensures Inv(ApplyLand(w, i))
  {
    hide L.Inv; hide Fenced; hide InOrderAfterInformed;
    LandKeepsOrder(w, i);
    var w', p := ApplyLand(w, i), w.pending[i];
    assert p in w.pending && forall q | q in w'.pending :: q in w.pending;
    forall d | Holds(w', d) && d in w'.eras
      ensures Fenced(w', w'.eras[d], Known(w', d))
    {
      assert Holds(w, d);
      FenceStays(w, w', w.eras[d], Known(w, d), Known(w', d));
    }
    forall q | q in w'.pending
      ensures Fenced(w', q.era, q.blocklist)
    {
      FenceStays(w, w', q.era, q.blocklist, q.blocklist);
    }
    forall l | l in w'.landed
      ensures Fenced(w', l.era, Enforced(w', l.obj))
    {
      if l in w.landed {
        FenceStays(w, w', l.era, Enforced(w, l.obj), Enforced(w', l.obj));
      } else {
        FenceStays(w, w', p.era, p.blocklist, Enforced(w', p.obj));
      }
    }
  }

  lemma InvStep(w: World, st: Step)
    requires Inv(w) && May(w, st, true)
    ensures Inv(Apply(w, st))
  {
    match st
    case Lock(l) => LockKeepsInv(w, l);
    case Send(c, obj) => SendKeepsInv(w, c, obj);
    case Land(i) => LandKeepsInv(w, i);
    case Learn(obj) =>
      hide L.Inv;
      var w' := Apply(w, st);
      forall l | l in w'.landed
        ensures Fenced(w', l.era, Enforced(w', l.obj))
      {
        assert Fenced(w, l.era, Enforced(w, l.obj));
      }
  }

  lemma {:induction false} InvRun(w: World, steps: seq<Step>)
    requires Inv(w) && Run(w, steps, true)
    ensures Inv(Exec(w, steps, true))
    decreases |steps|
  {
    hide Inv; hide Apply;
    if steps != [] {
      InvStep(w, steps[0]);
      InvRun(Apply(w, steps[0]), steps[1..]);
    }
  }

  // ---------------------------------------------------------------- theorems

  /**
   On every object, over every timely run with blocklisting: once a write of an informed owner has
   taken effect, no write of an owner before it ever does. An owner that had to blocklist its
   predecessor is informed whether or not OSDs share maps.
   */
  lemma InformedWritesFence(sharesMaps: bool, steps: seq<Step>)
    requires Run(Created(true, sharesMaps), steps, true)
    ensures InOrderAfterInformed(Exec(Created(true, sharesMaps), steps, true))
  {
    InvRun(Created(true, sharesMaps), steps);
  }

  /** If OSDs share maps, every owner is informed. */
  lemma WritesLandInOrder(steps: seq<Step>)
    requires Run(Created(true, true), steps, true)
    ensures InOrder(Exec(Created(true, true), steps, true).landed)
  {
    InformedWritesFence(true, steps);
    SharesForGood(Created(true, true), steps);
  }

  lemma {:induction false} SharesForGood(w: World, steps: seq<Step>)
    requires Run(w, steps, true)
    ensures Exec(w, steps, true).sharesMaps == w.sharesMaps
    decreases |steps|
  {
    if steps != [] {
      SharesForGood(Apply(w, steps[0]), steps[1..]);
    }
  }

  /** What the OSD of an object enforces it enforces for good, and after a new map all that is listed. */
  lemma {:induction false} EnforcedForGood(w: World, steps: seq<Step>, timely: bool, obj: nat)
    requires Run(w, steps, timely)
    ensures Enforced(w, obj) <= Enforced(Exec(w, steps, timely), obj)
    ensures Learn(obj) in steps ==> w.lock.monBlocklist <= Enforced(Exec(w, steps, timely), obj)
    decreases |steps|
  {
    if steps != [] {
      EnforcedStep(w, steps[0], obj);
      hide Apply; hide Enabled; hide Enforced;
      EnforcedForGood(Apply(w, steps[0]), steps[1..], timely, obj);
    }
  }

  lemma EnforcedStep(w: World, st: Step, obj: nat)
    requires Enabled(w, st)
    ensures Enforced(w, obj) <= Enforced(Apply(w, st), obj)
    ensures st == Learn(obj) ==> w.lock.monBlocklist <= Enforced(Apply(w, st), obj)
    ensures w.lock.monBlocklist <= Apply(w, st).lock.monBlocklist
  {
  }

  /** A write takes effect exactly when neither the OSD nor its own map has its sender blocklisted. */
  lemma LandsExactly(w: World, i: nat)
    requires i < |w.pending|
    ensures var p := w.pending[i];
            var refused := p.c in Enforced(w, p.obj) || p.c in p.blocklist;
            ApplyLand(w, i).landed == w.landed + if refused then [] else [Landing(p.obj, p.era)]
  {
  }

  /** A striper that refuses its calls sends no write ever again. */
  lemma {:induction false} RefusedSendsNothing(w: World, steps: seq<Step>, timely: bool, c: Addr)
    requires Run(w, steps, timely) && L.Refused(w.lock, c)
    ensures forall i | 0 <= i < |steps| && steps[i].Send? :: steps[i].c != c
    ensures L.Refused(Exec(w, steps, timely).lock, c)
    decreases |steps|
  {
    if steps != [] {
      if steps[0].Lock? { L.RefusedStep(w.lock, steps[0].step, c); }
      hide L.Apply; hide L.Enabled; hide L.RenewalFails;
      RefusedSendsNothing(Apply(w, steps[0]), steps[1..], timely, c);
      assert forall i | 0 < i < |steps| :: steps[i] == steps[1..][i - 1];
    }
  }

  lemma {:induction false} Snoc(w: World, steps: seq<Step>, st: Step, timely: bool)
    requires Run(w, steps, timely) && May(Exec(w, steps, timely), st, timely)
    ensures Run(w, steps + [st], timely)
    ensures Exec(w, steps + [st], timely) == Apply(Exec(w, steps, timely), st)
    decreases |steps|
  {
    hide Enabled; hide Apply;
    if steps == [] {
      assert steps + [st] == [st] && [st][1..] == [];
    } else {
      assert (steps + [st])[0] == steps[0] && (steps + [st])[1..] == steps[1..] + [st];
      Snoc(Apply(w, steps[0]), steps[1..], st, timely);
    }
  }

  lemma NoSteps(w: World, timely: bool)
    ensures Run(w, [], timely) && Exec(w, [], timely) == w
  {
  }

  // ---------------------------------------------------------------- why each assumption is needed

  /** What the runs below have in common: only client 0 can be on a blocklist. */
  ghost predicate OnlyFirstListed(w: World) {
    && w.lock.monBlocklist <= {0} && w.lock.osdBlocklist <= w.lock.monBlocklist
    && (forall c | c in w.known :: w.known[c] <= {0})
    && w.osds == map[] && w.landed == []
  }

  /** A client that has done nothing yet but come as far as this phase. */
  predicate At(w: World, c: Addr, phase: L.Phase) {
    c in w.lock.clients && w.lock.clients[c] == L.Client(phase, true, false, w.lock.clients[c].cache, false, [])
  }

  /** Three clients, all idle. */
  lemma Joined(b: bool, s: bool, t: bool) returns (steps: seq<Step>)
    ensures Run(Created(b, s), steps, t)
    ensures var w := Exec(Created(b, s), steps, t);
            && w == Created(b, s).(lock := w.lock) && w.lock == L.Created(b).(clients := w.lock.clients)
            && At(w, 0, L.Idle) && At(w, 1, L.Idle) && At(w, 2, L.Idle)
  {
    hide Run; hide Exec;
    var w := Created(b, s);
    steps := [];
    NoSteps(w, t);
    Snoc(w, steps, Lock(L.Join(0)), t);
    steps := steps + [Lock(L.Join(0))];
    Snoc(w, steps, Lock(L.Join(1)), t);
    steps := steps + [Lock(L.Join(1))];
    Snoc(w, steps, Lock(L.Join(2)), t);
    steps := steps + [Lock(L.Join(2))];
  }

  /** Client 0 owns the file in era 1. */
  lemma FirstOwner(b: bool, s: bool, t: bool) returns (steps: seq<Step>)
    ensures Run(Created(b, s), steps, t)
    ensures var w := Exec(Created(b, s), steps, t);
            && w.sharesMaps == s && w.lock.blocklistTheDead == b && OnlyFirstListed(w)
            && w.lock.monBlocklist == {} && w.era == 1 && w.eras == map[0 := 1] && w.known == map[0 := {}]
            && w.pending == [] && w.lock.excl == Some(0) && w.lock.holder == Some(0)
            && At(w, 0, L.Owner) && At(w, 1, L.Idle) && At(w, 2, L.Idle)
  {
    hide Run; hide Exec;
    var w := Created(b, s);
    steps := Joined(b, s, t);
    Snoc(w, steps, Lock(L.Act(0, L.TryLock)), t);
    steps := steps + [Lock(L.Act(0, L.TryLock))];
    assert Exec(w, steps, t).known[0] == {};
    Snoc(w, steps, Lock(L.Act(0, L.Open)), t);
    steps := steps + [Lock(L.Act(0, L.Open))];
  }

  /** It dies with a write to object k on its way, and its lease is over. */
  lemma DeadOwner(b: bool, s: bool, t: bool, k: nat) returns (steps: seq<Step>)
    ensures Run(Created(b, s), steps, t)
    ensures var w := Exec(Created(b, s), steps, t);
            && w.sharesMaps == s && w.lock.blocklistTheDead == b && OnlyFirstListed(w)
            && w.lock.monBlocklist == {} && w.era == 1 && w.known.Keys == {0}
            && w.pending == [Write(0, 1, k, {})] && w.lock.excl == Some(0) && w.lock.holder.None?
            && At(w, 1, L.Idle) && At(w, 2, L.Idle)
  {
    hide Run; hide Exec;
    var w := Created(b, s);
    steps := FirstOwner(b, s, t);
    Snoc(w, steps, Send(0, k), t);
    steps := steps + [Send(0, k)];
    Snoc(w, steps, Lock(L.Act(0, L.Crash)), t);
    steps := steps + [Lock(L.Act(0, L.Crash))];
    Snoc(w, steps, Lock(L.Expire), t);
    steps := steps + [Lock(L.Expire)];
  }

  /** Client 1 holds the RADOS lock for recovery. */
  lemma RecoveryBegun(b: bool, s: bool, t: bool, k: nat) returns (steps: seq<Step>)
    ensures Run(Created(b, s), steps, t)
    ensures var w := Exec(Created(b, s), steps, t);
            && w.sharesMaps == s && w.lock.blocklistTheDead == b && OnlyFirstListed(w)
            && w.lock.monBlocklist == {} && w.era == 1 && w.known.Keys == {0}
            && w.pending == [Write(0, 1, k, {})] && w.lock.excl == Some(0) && w.lock.holder == Some(1)
            && At(w, 1, L.FetchHolder) && At(w, 2, L.Idle)
  {
    hide Run; hide Exec; hide OnlyFirstListed;
    var w := Created(b, s);
    steps := DeadOwner(b, s, t, k);
    var w0 := Exec(w, steps, t);
    NotListed(w0, 1);
    Snoc(w, steps, Lock(L.Act(1, L.TryLock)), t);
    steps := steps + [Lock(L.Act(1, L.TryLock))];
    Snoc(w, steps, Lock(L.Act(1, L.TakeRadosLock)), t);
    steps := steps + [Lock(L.Act(1, L.TakeRadosLock))];
    ListedStays(w0, Exec(w, steps, t));
  }

  lemma ListedStays(w: World, w': World)
    requires OnlyFirstListed(w) && w'.known == w.known && w'.osds == w.osds && w'.landed == w.landed
    requires w'.lock.monBlocklist == w.lock.monBlocklist && w'.lock.osdBlocklist == w.lock.osdBlocklist
    ensures OnlyFirstListed(w')
  {
  }

  /** Without blocklisting it becomes the holder in era 2 and knows of nobody it should fear. */
  lemma UnblockedHolder(s: bool, t: bool, k: nat) returns (steps: seq<Step>)
    ensures Run(Created(false, s), steps, t)
    ensures var w := Exec(Created(false, s), steps, t);
            && OnlyFirstListed(w) && w.lock.monBlocklist == {} && w.era == 2 && Known(w, 1) == {}
            && 1 in w.eras && w.eras[1] == 2 && w.pending == [Write(0, 1, k, {})] && At(w, 1, L.Opening)
  {
    hide Run; hide Exec;
    var w := Created(false, s);
    steps := RecoveryBegun(false, s, t, k);
    Snoc(w, steps, Lock(L.Act(1, L.Fetch)), t);
    steps := steps + [Lock(L.Act(1, L.Fetch))];
    Snoc(w, steps, Lock(L.Act(1, L.SetExcl)), t);
    steps := steps + [Lock(L.Act(1, L.SetExcl))];
    assert Known(Exec(w, steps, t), 1) == {};
  }

  /** The dead owner's write lands after its own. */
  lemma UnblockedWriteLands(s: bool, t: bool, k: nat) returns (steps: seq<Step>)
    ensures Run(Created(false, s), steps, t)
    ensures Exec(Created(false, s), steps, t).landed == [Landing(k, 2), Landing(k, 1)]
  {
    hide Run; hide Exec;
    var w := Created(false, s);
    steps := UnblockedHolder(s, t, k);
    Snoc(w, steps, Lock(L.Act(1, L.Open)), t);
    steps := steps + [Lock(L.Act(1, L.Open))];
    Snoc(w, steps, Send(1, k), t);
    steps := steps + [Send(1, k)];
    assert Exec(w, steps, t).pending == [Write(0, 1, k, {}), Write(1, 2, k, {})];
    steps := OvertakenBy(w, steps, t, k, 1, 2);
  }

  /** The later of two writes lands first, and nothing stops the earlier one. */
  lemma OvertakenBy(w: World, steps: seq<Step>, t: bool, k: nat, c: Addr, era: nat) returns (steps': seq<Step>)
    requires Run(w, steps, t) && c != 0
    requires var v := Exec(w, steps, t);
             v.pending == [Write(0, 1, k, {}), Write(c, era, k, {})] && v.osds == map[] && v.landed == []
    ensures Run(w, steps', t) && Exec(w, steps', t).landed == [Landing(k, era), Landing(k, 1)]
  {
    hide Run; hide Exec;
    Snoc(w, steps, Land(1), t);
    steps' := steps + [Land(1)];
    var v := Exec(w, steps', t);
    assert v.pending == [Write(0, 1, k, {})] && Enforced(v, k) == {} && v.landed == [Landing(k, era)];
    Snoc(w, steps', Land(0), t);
    steps' := steps' + [Land(0)];
  }

  /** With blocklisting, client 1 has blocklisted client 0 and is about to write the owner attribute. */
  lemma BlocklistedOwner(s: bool, t: bool, k: nat) returns (steps: seq<Step>)
    ensures Run(Created(true, s), steps, t)
    ensures var w := Exec(Created(true, s), steps, t);
            && w.sharesMaps == s && w.lock.blocklistTheDead && OnlyFirstListed(w)
            && w.lock.monBlocklist == {0} && w.era == 1 && w.known.Keys == {0, 1}
            && w.pending == [Write(0, 1, k, {})] && w.lock.excl == Some(0) && w.lock.holder == Some(1)
            && At(w, 1, L.SetOwner(true)) && At(w, 2, L.Idle)
  {
    hide Run; hide Exec;
    var w := Created(true, s);
    steps := RecoveryBegun(true, s, t, k);
    Snoc(w, steps, Lock(L.Act(1, L.Fetch)), t);
    steps := steps + [Lock(L.Act(1, L.Fetch))];
    Snoc(w, steps, Lock(L.Act(1, L.Blocklist)), t);
    steps := steps + [Lock(L.Act(1, L.Blocklist))];
  }

  /** Client 1 takes the file over in era 2. */
  lemma Recovered(t: bool, k: nat) returns (steps: seq<Step>)
    ensures Run(Created(true, false), steps, t)
    ensures var w := Exec(Created(true, false), steps, t);
            && !w.sharesMaps && OnlyFirstListed(w) && w.era == 2 && w.known.Keys == {0, 1}
            && w.pending == [Write(0, 1, k, {})] && w.lock.excl == Some(1) && w.lock.holder == Some(1)
            && At(w, 1, L.Opening) && At(w, 2, L.Idle)
  {
    hide Run; hide Exec;
    var w := Created(true, false);
    steps := BlocklistedOwner(false, t, k);
    Snoc(w, steps, Lock(L.Act(1, L.SetExcl)), t);
    steps := steps + [Lock(L.Act(1, L.SetExcl))];
  }

  /** It gives the file back without having touched object k. */
  lemma RecoveredAndReleased(t: bool, k: nat) returns (steps: seq<Step>)
    ensures Run(Created(true, false), steps, t)
    ensures var w := Exec(Created(true, false), steps, t);
            && !w.sharesMaps && OnlyFirstListed(w) && w.era == 2 && w.known.Keys == {0, 1}
            && w.pending == [Write(0, 1, k, {})] && w.lock.excl.None? && w.lock.holder.None?
            && At(w, 2, L.Idle)
  {
    hide Run; hide Exec; hide OnlyFirstListed;
    var w := Created(true, false);
    steps := Recovered(t, k);
    var w0 := Exec(w, steps, t);
    NotListed(w0, 1);
    Snoc(w, steps, Lock(L.Act(1, L.Open)), t);
    steps := steps + [Lock(L.Act(1, L.Open))];
    Snoc(w, steps, Lock(L.Act(1, L.Unlock)), t);
    steps := steps + [Lock(L.Act(1, L.Unlock))];
    ListedStays(w0, Exec(w, steps, t));
  }

  /**
   If OSDs do not share maps, a third owner that takes the fast path knows nothing of the blocklist,
   and a write of the first one may land after its own.
   */
  lemma StaleWriteLands(t: bool, k: nat) returns (steps: seq<Step>)
    ensures Run(Created(true, false), steps, t)
    ensures Exec(Created(true, false), steps, t).landed == [Landing(k, 3), Landing(k, 1)]
  {
    hide Run; hide Exec;
    var w := Created(true, false);
    steps := RecoveredAndReleased(t, k);
    Snoc(w, steps, Lock(L.Act(2, L.TryLock)), t);
    steps := steps + [Lock(L.Act(2, L.TryLock))];
    Snoc(w, steps, Lock(L.Act(2, L.Open)), t);
    steps := steps + [Lock(L.Act(2, L.Open))];
    Snoc(w, steps, Send(2, k), t);
    steps := steps + [Send(2, k)];
    assert Exec(w, steps, t).pending == [Write(0, 1, k, {}), Write(2, 3, k, {})];
    steps := OvertakenBy(w, steps, t, k, 2, 3);
  }

  /** Client 1's lease lapses before it has written the owner attribute, and client 2 recovers as well. */
  lemma SecondRecovery(s: bool, k: nat) returns (steps: seq<Step>)
    ensures Run(Created(true, s), steps, false)
    ensures var w := Exec(Created(true, s), steps, false);
            && w.sharesMaps == s && OnlyFirstListed(w) && w.era == 1
            && |w.pending| == 1 && w.lock.holder == Some(2)
            && At(w, 1, L.SetOwner(true)) && At(w, 2, L.FetchHolder)
            && w.lock.blocklistTheDead && w.lock.excl == Some(0)
  {
    hide Run; hide Exec; hide OnlyFirstListed;
    var w := Created(true, s);
    steps := BlocklistedOwner(s, false, k);
    var w0 := Exec(w, steps, false);
    Snoc(w, steps, Lock(L.Expire), false);
    steps := steps + [Lock(L.Expire)];
    NotListed(w0, 2);
    Snoc(w, steps, Lock(L.Act(2, L.TryLock)), false);
    steps := steps + [Lock(L.Act(2, L.TryLock))];
    Snoc(w, steps, Lock(L.Act(2, L.TakeRadosLock)), false);
    steps := steps + [Lock(L.Act(2, L.TakeRadosLock))];
    ListedStays(w0, Exec(w, steps, false));
  }

  lemma NotListed(w: World, c: Addr)
    requires OnlyFirstListed(w) && c != 0
    ensures c !in w.lock.monBlocklist && c !in w.lock.osdBlocklist && c !in Known(w, c)
  {
  }

  /** Client 2 has read and blocklisted the same dead owner. */
  lemma BlocklistedAgain(s: bool, k: nat) returns (steps: seq<Step>)
    ensures Run(Created(true, s), steps, false)
    ensures var w := Exec(Created(true, s), steps, false);
            && w.sharesMaps == s && OnlyFirstListed(w) && w.era == 1 && |w.pending| == 1
            && At(w, 1, L.SetOwner(true)) && At(w, 2, L.SetOwner(true))
  {
    hide Run; hide Exec;
    var w := Created(true, s);
    steps := SecondRecovery(s, k);
    Snoc(w, steps, Lock(L.Act(2, L.Fetch)), false);
    steps := steps + [Lock(L.Act(2, L.Fetch))];
    Snoc(w, steps, Lock(L.Act(2, L.Blocklist)), false);
    steps := steps + [Lock(L.Act(2, L.Blocklist))];
  }

  /** Client 2 owns the file in era 2 and has sent a write to object k. */
  lemma SecondOwner(s: bool, k: nat) returns (steps: seq<Step>)
    ensures Run(Created(true, s), steps, false)
    ensures var w := Exec(Created(true, s), steps, false);
            && w.sharesMaps == s && OnlyFirstListed(w) && w.era == 2 && At(w, 1, L.SetOwner(true))
            && |w.pending| == 2 && w.pending[1].c == 2 && w.pending[1].era == 2 && w.pending[1].obj == k
            && w.pending[1].blocklist <= {0}
  {
    hide Run; hide Exec;
    var w := Created(true, s);
    steps := BlocklistedAgain(s, k);
    Snoc(w, steps, Lock(L.Act(2, L.SetExcl)), false);
    steps := steps + [Lock(L.Act(2, L.SetExcl))];
    Snoc(w, steps, Lock(L.Act(2, L.Open)), false);
    steps := steps + [Lock(L.Act(2, L.Open))];
    Snoc(w, steps, Send(2, k), false);
    steps := steps + [Send(2, k)];
  }

  /** Client 1 wakes up, takes the file in era 3 and writes; the write of era 2 lands after its own. */
  lemma LapsedWriteLands(s: bool, k: nat) returns (steps: seq<Step>)
    ensures Run(Created(true, s), steps, false)
    ensures Exec(Created(true, s), steps, false).landed == [Landing(k, 3), Landing(k, 2)]
  {
    hide Run; hide Exec;
    var w := Created(true, s);
    steps := SecondOwner(s, k);
    Snoc(w, steps, Lock(L.Act(1, L.SetExcl)), false);
    steps := steps + [Lock(L.Act(1, L.SetExcl))];
    Snoc(w, steps, Lock(L.Act(1, L.Open)), false);
    steps := steps + [Lock(L.Act(1, L.Open))];
    Snoc(w, steps, Send(1, k), false);
    steps := steps + [Send(1, k)];
    Snoc(w, steps, Land(2), false);
    steps := steps + [Land(2)];
    Snoc(w, steps, Land(1), false);
    steps := steps + [Land(1)];
  }

  lemma OutOfOrder(landed: seq<Landing>, k: nat, e: nat, e': nat)
    requires landed == [Landing(k, e), Landing(k, e')] && e > e'
    ensures !InOrder(landed)
  {
    assert landed[0].era > landed[1].era;
  }

  /**
   Writes land in the order of ownership over every run exactly when dead owners are blocklisted, no
   recoverer's lease lapses before it writes striper.excl, and OSDs share their maps with clients.
   */
  lemma FencingExactly(blocklistTheDead: bool, timely: bool, sharesMaps: bool)
    ensures (forall steps | Run(Created(blocklistTheDead, sharesMaps), steps, timely) ::
               InOrder(Exec(Created(blocklistTheDead, sharesMaps), steps, timely).landed))
            <==> (blocklistTheDead && timely && sharesMaps)
  {
    hide Run; hide Exec; hide InOrder;
    if blocklistTheDead && timely && sharesMaps {
      forall steps | Run(Created(true, true), steps, true)
        ensures InOrder(Exec(Created(true, true), steps, true).landed)
      {
        WritesLandInOrder(steps);
      }
    } else if !blocklistTheDead {
      var steps := UnblockedWriteLands(sharesMaps, timely, 0);
      OutOfOrder(Exec(Created(false, sharesMaps), steps, timely).landed, 0, 2, 1);
    } else if !timely {
      var steps := LapsedWriteLands(sharesMaps, 0);
      OutOfOrder(Exec(Created(true, sharesMaps), steps, false).landed, 0, 3, 2);
    } else {
      var steps := StaleWriteLands(true, 0);
      OutOfOrder(Exec(Created(true, false), steps, true).landed, 0, 3, 1);
    }
  }
}
