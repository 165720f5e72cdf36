/**
 The lock protocol of SimpleRADOSStriper as a transition system over any number
 of clients: the fast path of lock(), recover_lock(), open(), the renewal thread,
 unlock(), lease expiry, crashes, and the metadata updates an owner leaves in flight.

 A step is one atomic RADOS operation (or one local update) of one client. A run is
 any sequence of enabled steps, so a theorem about runs covers every interleaving.
 */
module LockProtocol {
  import opened Wrappers
  import opened StriperMeta

  /** The address vector of a client; distinct clients have distinct addresses. */
  type Addr = nat

  datatype Phase =
    | Idle                          // not locked
    | TakeLock                      // the fast path returned -ECANCELED
    | FetchHolder                   // recovery holds the RADOS lock
    | BlocklistHolder(addr: Addr)   // recovery has read the last holder
    | SetOwner(latestMap: bool)     // recovery is about to write its own address
    | Opening                       // the holder attribute is ours
    | Owner                         // lock() returned 0
    | OpenFailed                    // lock() returned an error, locked stays true

  datatype Client = Client(
    phase: Phase,
    alive: bool,
    refused: bool,        // the striper's own `blocklisted` flag
    cache: Meta,
    sizeDirty: bool,
    inflight: seq<Update>)

  datatype Cluster = Cluster(
    blocklistTheDead: bool,
    holder: Option<Addr>,      // holder of the leased RADOS lock
    excl: Option<Addr>,        // striper.excl; None is the empty attribute
    monBlocklist: set<Addr>,   // blocklist in the latest map
    osdBlocklist: set<Addr>,   // blocklist the object's OSD enforces
    stored: Meta,
    clients: map<Addr, Client>)

  /** What a live client does next. */
  datatype Action =
    | TryLock
    | TakeRadosLock
    | Fetch
    | Blocklist
    | SetExcl
    | RecoveryFails
    | Open
    | OpenFails
    | Renew
    | WriteGrows(size: nat)
    | Issue(newSize: Option<nat>, newAlloc: Option<nat>)
    | Unlock
    | Crash

  datatype Step =
    | Act(c: Addr, action: Action)
    | Join(c: Addr)
    | Deliver(c: Addr)   // the OSD processes the oldest update in flight
    | Expire             // the lease of the RADOS lock runs out
    | OsdLearns          // the OSD receives the latest map

  // ---------------------------------------------------------------- behaviour

  function AppliedAll(m: Meta, us: seq<Update>): Meta
    decreases |us|
  {
    if us == [] then m else AppliedAll(Applied(m, us[0]), us[1..])
  }

  predicate Recovering(cl: Client) {
    cl.phase.FetchHolder? || cl.phase.BlocklistHolder? || cl.phase.SetOwner?
  }

  /** The client wrote its address into striper.excl and has not unlocked. */
  predicate Holding(cl: Client) {
    cl.phase.Opening? || cl.phase.Owner? || cl.phase.OpenFailed?
  }

  predicate Enabled(s: Cluster, st: Step) {
    match st
    case Act(c, a) => c in s.clients && s.clients[c].alive && CanAct(s.clients[c], a)
    case Join(c) => c !in s.clients
    case Deliver(c) => c in s.clients && s.clients[c].inflight != []
    case Expire => s.holder.Some?
    case OsdLearns => true
  }

  predicate CanAct(cl: Client, a: Action) {
    match a
    case TryLock => cl.phase.Idle? && !cl.refused
    case TakeRadosLock => cl.phase.TakeLock?
    case Fetch => cl.phase.FetchHolder?
    case Blocklist => cl.phase.BlocklistHolder?
    case SetExcl => cl.phase.SetOwner?
    case RecoveryFails => Recovering(cl)
    case Open => cl.phase.Opening?
    case OpenFails => cl.phase.Opening?
    case Renew => (cl.phase.Owner? || cl.phase.OpenFailed?) && !cl.refused
    case WriteGrows(size) => cl.phase.Owner? && !cl.refused && cl.cache.size < size
    case Issue(newSize, newAlloc) =>
      cl.phase.Owner? && !cl.refused && (newSize.Some? || newAlloc.Some?)
    // an owner, or the destructor after a failed open()
    case Unlock =>
      (cl.phase.Owner? || cl.phase.OpenFailed?) && !cl.refused && !cl.sizeDirty && cl.inflight == []
    case Crash => true
  }

  /** A client's record after it issues an update. */
  function Issuing(cl: Client, newSize: Option<nat>, newAlloc: Option<nat>): Client {
    var u := Update(newSize, newAlloc, cl.cache.version + 1);
    cl.(cache := Applied(cl.cache, u),
        sizeDirty := cl.sizeDirty && newSize.None?,
        inflight := cl.inflight + [u])
  }

  function Put(s: Cluster, c: Addr, cl: Client): Cluster {
    s.(clients := s.clients[c := cl])
  }

  function Apply(s: Cluster, st: Step): Cluster
    requires Enabled(s, st)
  {
    match st
    case Act(c, a) => ApplyAction(s, c, a)
    case Join(c) => Put(s, c, Client(Idle, true, false, Meta(0, 0, 0), false, []))
    case Deliver(c) =>
      var cl := s.clients[c];
      var s' := if c in s.osdBlocklist then s else s.(stored := Applied(s.stored, cl.inflight[0]));
      Put(s', c, cl.(inflight := cl.inflight[1..]))
    case Expire => s.(holder := None)
    case OsdLearns => s.(osdBlocklist := s.osdBlocklist + s.monBlocklist)
  }

  /** Every operation of a client the OSD has blocklisted fails. */
  function ApplyAction(s: Cluster, c: Addr, a: Action): Cluster
    requires c in s.clients && CanAct(s.clients[c], a)
  {
    var cl := s.clients[c];
    var blocked := c in s.osdBlocklist;
    match a
    case TryLock =>
      if blocked || s.holder.Some? then s
      else if s.excl.Some? then Put(s, c, cl.(phase := TakeLock))
      else Put(s.(holder := Some(c), excl := Some(c)), c, cl.(phase := Opening))
    case TakeRadosLock =>
      if blocked || s.holder.Some? then Put(s, c, cl.(phase := Idle))
      else Put(s.(holder := Some(c)), c, cl.(phase := FetchHolder))
    case Fetch =>
      var next :=
        if blocked then Idle
        else match s.excl
          case None => SetOwner(false)
          case Some(a) => if s.blocklistTheDead then BlocklistHolder(a) else SetOwner(false);
      Put(s, c, cl.(phase := next))
    case Blocklist =>
      Put(s.(monBlocklist := s.monBlocklist + {cl.phase.addr}), c, cl.(phase := SetOwner(true)))
    case SetExcl =>
      var known := if cl.phase.latestMap then s.osdBlocklist + s.monBlocklist else s.osdBlocklist;
      if c in known then Put(s.(osdBlocklist := known), c, cl.(phase := Idle))
      else Put(s.(osdBlocklist := known, excl := Some(c)), c, cl.(phase := Opening))
    case RecoveryFails => Put(s, c, cl.(phase := Idle))
    case Open =>
      if blocked then Put(s, c, cl.(phase := OpenFailed))
      else Put(s, c, cl.(phase := Owner, cache := s.stored))
    case OpenFails => Put(s, c, cl.(phase := OpenFailed))
    case Renew =>
      if !blocked && s.holder == Some(c) then s else Put(s, c, cl.(refused := true))
    case WriteGrows(size) =>
      Put(s, c, cl.(cache := cl.cache.(size := size), sizeDirty := true))
    case Issue(newSize, newAlloc) =>
      Put(s, c, Issuing(cl, newSize, newAlloc))
    case Unlock =>
      if !blocked && s.excl == Some(c) && s.holder == Some(c)
      then Put(s.(excl := None, holder := None), c, cl.(phase := Idle))
      else s
    case Crash => Put(s, c, cl.(alive := false))
  }

  /** No lease runs out between a recoverer's lock and its write of striper.excl. */
  predicate Timely(s: Cluster, st: Step) {
    st.Expire? && s.holder.Some? && s.holder.value in s.clients ==>
      var cl := s.clients[s.holder.value];
      !(cl.alive && Recovering(cl))
  }

  ghost predicate IsRun(s: Cluster, steps: seq<Step>)
    decreases |steps|
  {
    steps == [] || (Enabled(s, steps[0]) && IsRun(Apply(s, steps[0]), steps[1..]))
  }

  ghost predicate NeverLapses(s: Cluster, steps: seq<Step>)
    requires IsRun(s, steps)
    decreases |steps|
  {
    steps == [] || (Timely(s, steps[0]) && NeverLapses(Apply(s, steps[0]), steps[1..]))
  }

  /** A run, and if `timely` one in which no lease of a recoverer runs out. */
  ghost predicate Run(s: Cluster, steps: seq<Step>, timely: bool) {
    IsRun(s, steps) && (timely ==> NeverLapses(s, steps))
  }

  ghost function Exec(s: Cluster, steps: seq<Step>): Cluster
    requires IsRun(s, steps)
    decreases |steps|
  {
    if steps == [] then s else Exec(Apply(s, steps[0]), steps[1..])
  }

  /** The state create() leaves behind, before any client has joined. */
  function Created(blocklistTheDead: bool): Cluster {
    Cluster(blocklistTheDead, None, None, {}, {}, Meta(0, 0, 0), map[])
  }

  /** An action changes the record of the client that acts and of no other. */
  lemma OthersUntouched(s: Cluster, c: Addr, a: Action, d: Addr)
    requires c in s.clients && CanAct(s.clients[c], a) && d != c
    ensures d in ApplyAction(s, c, a).clients <==> d in s.clients
    ensures d in s.clients ==> ApplyAction(s, c, a).clients[d] == s.clients[d]
  {
  }

  // ---------------------------------------------------------------- safety

  /** What the invariant says about one client. */
  ghost predicate ClientInv(s: Cluster, c: Addr, cl: Client) {
    && (Holding(cl) && c !in s.osdBlocklist ==> s.excl == Some(c))
    && (cl.alive && Recovering(cl) ==> s.holder == Some(c))
    && (cl.alive && cl.phase.BlocklistHolder? ==> s.excl == Some(cl.phase.addr))
    && (cl.alive && cl.phase.SetOwner? ==>
          s.excl.None? || (cl.phase.latestMap && s.excl.value in s.monBlocklist))
  }

  ghost predicate LockInv(s: Cluster) {
    && s.blocklistTheDead
    && s.osdBlocklist <= s.monBlocklist
    && (s.excl.Some? ==> s.excl.value in s.clients && Holding(s.clients[s.excl.value]))
    && (forall c | c in s.clients :: ClientInv(s, c, s.clients[c]))
  }

  /** A step that leaves the lock, the attribute and the blocklists alone. */
  lemma LocalStepKeepsLockInv(s: Cluster, c: Addr, cl: Client, s': Cluster)
    requires LockInv(s) && c in s.clients
    requires s' == Put(s.(stored := s'.stored), c, cl)
    requires ClientInv(s, c, cl)
    requires Holding(s.clients[c]) ==> Holding(cl)
    ensures LockInv(s')
  {
    forall d | d in s'.clients
      ensures ClientInv(s', d, s'.clients[d])
    {
      assert d != c ==> ClientInv(s, d, s.clients[d]);
    }
  }

  /** The write of striper.excl evicts only a holder that the OSD now refuses. */
  lemma LockActionKeepsLockInv(s: Cluster, c: Addr, a: Action)
    requires LockInv(s) && c in s.clients && s.clients[c].alive && CanAct(s.clients[c], a)
    requires a.TryLock? || a.TakeRadosLock? || a.Blocklist? || a.SetExcl? || a.Unlock?
    ensures LockInv(ApplyAction(s, c, a))
  {
    var s' := ApplyAction(s, c, a);
    assert ClientInv(s, c, s.clients[c]);
    forall d | d in s'.clients
      ensures ClientInv(s', d, s'.clients[d])
    {
      assert ClientInv(s, d, s.clients[d]);
    }
  }

  lemma ActionKeepsLockInv(s: Cluster, c: Addr, a: Action)
    requires LockInv(s) && c in s.clients && s.clients[c].alive && CanAct(s.clients[c], a)
    ensures LockInv(ApplyAction(s, c, a))
  {
    var s' := ApplyAction(s, c, a);
    if a.TryLock? || a.TakeRadosLock? || a.Blocklist? || a.SetExcl? || a.Unlock? {
      LockActionKeepsLockInv(s, c, a);
    } else {
      assert ClientInv(s, c, s.clients[c]);
      LocalStepKeepsLockInv(s, c, s'.clients[c], s');
    }
  }

  lemma LockInvStep(s: Cluster, st: Step)
    requires LockInv(s) && Enabled(s, st) && Timely(s, st)
    ensures LockInv(Apply(s, st))
  {
    var s' := Apply(s, st);
    match st
    case Act(c, a) => ActionKeepsLockInv(s, c, a);
    case Deliver(c) =>
      assert ClientInv(s, c, s.clients[c]);
      LocalStepKeepsLockInv(s, c, s'.clients[c], s');
    case _ =>
      forall d | d in s'.clients
        ensures ClientInv(s', d, s'.clients[d])
      {
        assert d in s.clients ==> ClientInv(s, d, s.clients[d]);
      }
  }

  // ---------------------------------------------------------------- metadata

  /** An owner's cache is the stored metadata once its own updates have landed. */
  ghost predicate InStep(stored: Meta, cl: Client) {
    var m := AppliedAll(stored, cl.inflight);
    && cl.cache == (if cl.sizeDirty then m.(size := cl.cache.size) else m)
    && (forall i | 0 <= i < |cl.inflight| :: cl.inflight[i].version == stored.version + 1 + i)
    && cl.cache.version == stored.version + |cl.inflight|
  }

  ghost predicate MetaClientInv(s: Cluster, c: Addr, cl: Client) {
    && (cl.inflight != [] || cl.sizeDirty ==> cl.phase.Owner?)
    && (cl.phase.Owner? && c !in s.osdBlocklist ==> InStep(s.stored, cl))
  }

  ghost predicate Inv(s: Cluster) {
    && LockInv(s)
    && (forall c | c in s.clients :: MetaClientInv(s, c, s.clients[c]))
  }

  lemma {:induction false} AppliedAllAppend(m: Meta, us: seq<Update>, u: Update)
    ensures AppliedAll(m, us + [u]) == Applied(AppliedAll(m, us), u)
    decreases |us|
  {
    if us == [] {
      assert us + [u] == [u];
    } else {
      assert (us + [u])[1..] == us[1..] + [u];
      AppliedAllAppend(Applied(m, us[0]), us[1..], u);
    }
  }

  lemma IssueKeepsInStep(stored: Meta, cl: Client, newSize: Option<nat>, newAlloc: Option<nat>)
    requires InStep(stored, cl)
    ensures InStep(stored, Issuing(cl, newSize, newAlloc))
  {
    AppliedAllAppend(stored, cl.inflight, Update(newSize, newAlloc, cl.cache.version + 1));
  }

  lemma ActionKeepsMetaInv(s: Cluster, c: Addr, a: Action)
    requires Inv(s) && c in s.clients && CanAct(s.clients[c], a)
    ensures forall d | d in s.clients ::
              MetaClientInv(ApplyAction(s, c, a), d, ApplyAction(s, c, a).clients[d])
  {
    hide AppliedAll;
    var s' := ApplyAction(s, c, a);
    forall d | d in s.clients
      ensures MetaClientInv(s', d, s'.clients[d])
    {
      assert MetaClientInv(s, d, s.clients[d]);
      if a.Issue? && d == c && c !in s.osdBlocklist {
        IssueKeepsInStep(s.stored, s.clients[c], a.newSize, a.newAlloc);
      }
      if a.Open? && d == c {
        NothingInFlight(s.stored);
      }
    }
  }

  lemma NothingInFlight(m: Meta)
    ensures AppliedAll(m, []) == m
  {
  }

  lemma DeliverKeepsMetaInv(s: Cluster, c: Addr)
    requires Inv(s) && Enabled(s, Deliver(c))
    ensures forall d | d in s.clients ::
              MetaClientInv(Apply(s, Deliver(c)), d, Apply(s, Deliver(c)).clients[d])
  {
    var s' := Apply(s, Deliver(c));
    assert MetaClientInv(s, c, s.clients[c]) && ClientInv(s, c, s.clients[c]);
    forall d | d in s.clients
      ensures MetaClientInv(s', d, s'.clients[d])
    {
      assert MetaClientInv(s, d, s.clients[d]) && ClientInv(s, d, s.clients[d]);
    }
  }

  lemma OtherKeepsMetaInv(s: Cluster, st: Step)
    requires Inv(s) && Enabled(s, st) && (st.Join? || st.Expire? || st.OsdLearns?)
    ensures forall d | d in Apply(s, st).clients :: MetaClientInv(Apply(s, st), d, Apply(s, st).clients[d])
  {
    hide LockInv; hide InStep;
    var s' := Apply(s, st);
    forall d | d in s'.clients
      ensures MetaClientInv(s', d, s'.clients[d])
    {
      assert d in s.clients ==> MetaClientInv(s, d, s.clients[d]);
    }
  }

  lemma InvStep(s: Cluster, st: Step)
    requires Inv(s) && Enabled(s, st) && Timely(s, st)
    ensures Inv(Apply(s, st))
  {
    hide LockInv; hide MetaClientInv; hide ApplyAction; hide CanAct;
    LockInvStep(s, st);
    match st
    case Act(c, a) =>
      ActionKeepsMetaInv(s, c, a);
      ActionKeepsClients(s, c, a);
    case Deliver(c) => DeliverKeepsMetaInv(s, c);
    case _ => OtherKeepsMetaInv(s, st);
  }

  lemma ActionKeepsClients(s: Cluster, c: Addr, a: Action)
    requires c in s.clients && CanAct(s.clients[c], a)
    ensures ApplyAction(s, c, a).clients.Keys == s.clients.Keys
  {
  }

  lemma {:induction false} InvRun(s: Cluster, steps: seq<Step>)
    requires Inv(s) && Run(s, steps, true)
    ensures Inv(Exec(s, steps))
    decreases |steps|
  {
    if steps != [] {
      InvStep(s, steps[0]);
      InvRun(Apply(s, steps[0]), steps[1..]);
    }
  }

  // ---------------------------------------------------------------- theorems

  /** Holds the file in a way the OSD would still honour. */
  predicate Active(s: Cluster, c: Addr) {
    c in s.clients && Holding(s.clients[c]) && c !in s.osdBlocklist
  }

  /** Mutual exclusion over every interleaving: whoever holds is named by striper.excl. */
  lemma MutualExclusion(steps: seq<Step>, c: Addr, d: Addr)
    requires Run(Created(true), steps, true)
    ensures var s := Exec(Created(true), steps);
            && (Active(s, c) ==> s.excl == Some(c))
            && (Active(s, c) && Active(s, d) ==> c == d)
  {
    InvRun(Created(true), steps);
    var s := Exec(Created(true), steps);
    assert c in s.clients ==> ClientInv(s, c, s.clients[c]);
    assert d in s.clients ==> ClientInv(s, d, s.clients[d]);
  }

  /**
   Stored metadata only ever changes because the client named by striper.excl had an update
   in flight, and each change raises the stored version by exactly one.
   */
  lemma OnlyTheHolderWrites(s: Cluster, st: Step)
    requires Inv(s) && Enabled(s, st)
    ensures Apply(s, st).stored != s.stored ==>
              && st.Deliver? && s.excl == Some(st.c) && st.c !in s.osdBlocklist
              && Apply(s, st).stored.version == s.stored.version + 1
  {
    if st.Deliver? {
      assert MetaClientInv(s, st.c, s.clients[st.c]) && ClientInv(s, st.c, s.clients[st.c]);
    }
  }

  /** The stored version never goes back. */
  lemma {:induction false} VersionNeverDecreases(s: Cluster, steps: seq<Step>)
    requires Inv(s) && Run(s, steps, true)
    ensures s.stored.version <= Exec(s, steps).stored.version
    decreases |steps|
  {
    if steps != [] {
      OnlyTheHolderWrites(s, steps[0]);
      InvStep(s, steps[0]);
      VersionNeverDecreases(Apply(s, steps[0]), steps[1..]);
    }
  }

  predicate Unlocks(s: Cluster, c: Addr) {
    && Enabled(s, Act(c, Unlock)) && s.clients[c].phase.Owner?
    && c !in s.osdBlocklist && s.excl == Some(c) && s.holder == Some(c)
  }

  predicate Opens(s: Cluster, st: Step) {
    st.Act? && st.action.Open? && st.c !in s.osdBlocklist
  }

  /** No client the OSD serves is an owner, so none has anything in flight. */
  ghost predicate Quiet(s: Cluster) {
    forall c | c in s.clients && c !in s.osdBlocklist :: !s.clients[c].phase.Owner?
  }

  ghost predicate NobodyOpens(s: Cluster, steps: seq<Step>)
    requires IsRun(s, steps)
    decreases |steps|
  {
    steps == [] || (!Opens(s, steps[0]) && NobodyOpens(Apply(s, steps[0]), steps[1..]))
  }

  lemma QuietStep(s: Cluster, st: Step)
    requires Inv(s) && Quiet(s) && Enabled(s, st) && !Opens(s, st)
    ensures Quiet(Apply(s, st)) && Apply(s, st).stored == s.stored
  {
    hide LockInv; hide InStep; hide Issuing;
    if st.Deliver? {
      assert MetaClientInv(s, st.c, s.clients[st.c]);
    }
  }

  lemma {:induction false} QuietRun(s: Cluster, steps: seq<Step>)
    requires Inv(s) && Quiet(s) && Run(s, steps, true) && NobodyOpens(s, steps)
    ensures Quiet(Exec(s, steps)) && Exec(s, steps).stored == s.stored
    decreases |steps|
  {
    if steps != [] {
      QuietStep(s, steps[0]);
      InvStep(s, steps[0]);
      QuietRun(Apply(s, steps[0]), steps[1..]);
    }
  }

  /**
   Metadata handoff over every interleaving: when unlock() succeeds the stored attributes equal
   the owner's cache, and whatever else happens before the next successful open(), that
   open() reads exactly the last owner's state.
   */
  lemma Handoff(before: seq<Step>, c: Addr, between: seq<Step>, d: Addr)
    requires Run(Created(true), before, true)
    requires Unlocks(Exec(Created(true), before), c)
    requires var s := Apply(Exec(Created(true), before), Act(c, Unlock));
             && Run(s, between, true) && NobodyOpens(s, between)
             && Enabled(Exec(s, between), Act(d, Open)) && Opens(Exec(s, between), Act(d, Open))
    ensures var s0 := Exec(Created(true), before);
            var s2 := Exec(Apply(s0, Act(c, Unlock)), between);
            && s0.stored == s0.clients[c].cache
            && Apply(s2, Act(d, Open)).clients[d].cache == s0.clients[c].cache
  {
    var s0 := Exec(Created(true), before);
    InvRun(Created(true), before);
    assert MetaClientInv(s0, c, s0.clients[c]);
    var s1 := Apply(s0, Act(c, Unlock));
    InvStep(s0, Act(c, Unlock));
    forall e | e in s1.clients && e !in s1.osdBlocklist
      ensures !s1.clients[e].phase.Owner?
    {
      assert ClientInv(s0, e, s0.clients[e]);
    }
    QuietRun(s1, between);
  }

  // ---------------------------------------------------------------- handoff after a crash

  /** The updates that a step adds to those client c has issued. */
  function IssuedBy(s: Cluster, st: Step, c: Addr): seq<Update>
    requires Enabled(s, st)
  {
    if st.Act? && st.c == c && st.action.Issue?
    then [Update(st.action.newSize, st.action.newAlloc, s.clients[c].cache.version + 1)]
    else []
  }

  ghost function IssuedOver(s: Cluster, steps: seq<Step>, c: Addr): seq<Update>
    requires IsRun(s, steps)
    decreases |steps|
  {
    if steps == [] then []
    else IssuedBy(s, steps[0], c) + IssuedOver(Apply(s, steps[0]), steps[1..], c)
  }

  /** No client the OSD serves is an owner, except perhaps c. */
  ghost predicate QuietBut(s: Cluster, c: Addr) {
    forall x | x in s.clients && x != c && x !in s.osdBlocklist :: !s.clients[x].phase.Owner?
  }

  /** The first n of the updates c has issued have landed; while c is served, the others are in flight. */
  ghost predicate LandedUpTo(s: Cluster, c: Addr, m: Meta, issued: seq<Update>, n: nat) {
    && n <= |issued| && s.stored == AppliedAll(m, issued[..n])
    && (c in s.clients && c !in s.osdBlocklist && s.clients[c].phase.Owner? ==> s.clients[c].inflight == issued[n..])
  }

  lemma QuietButStep(s: Cluster, st: Step, c: Addr)
    requires Inv(s) && QuietBut(s, c) && Enabled(s, st) && !Opens(s, st)
    ensures QuietBut(Apply(s, st), c)
    ensures !(st.Deliver? && st.c == c) ==> Apply(s, st).stored == s.stored
  {
    hide LockInv; hide InStep; hide Issuing;
    if st.Deliver? {
      assert MetaClientInv(s, st.c, s.clients[st.c]);
    }
  }

  lemma LandedDeliver(s: Cluster, c: Addr, m: Meta, issued: seq<Update>, n: nat) returns (n': nat)
    requires Inv(s) && Enabled(s, Deliver(c)) && LandedUpTo(s, c, m, issued, n)
    ensures LandedUpTo(Apply(s, Deliver(c)), c, m, issued, n')
  {
    hide LockInv; hide InStep; hide AppliedAll;
    n' := n;
    if c !in s.osdBlocklist {
      assert MetaClientInv(s, c, s.clients[c]);
      n' := n + 1;
      assert issued[..n + 1] == issued[..n] + [issued[n]];
      AppliedAllAppend(m, issued[..n], issued[n]);
    }
  }

  /** Apart from its own updates and deliveries, nothing changes what a served owner has in flight. */
  lemma InflightStays(s: Cluster, st: Step, c: Addr)
    requires Enabled(s, st) && !Opens(s, st) && !(st.Deliver? && st.c == c)
    ensures var s' := Apply(s, st);
            c in s'.clients && c !in s'.osdBlocklist && s'.clients[c].phase.Owner? ==>
              && c in s.clients && c !in s.osdBlocklist && s.clients[c].phase.Owner?
              && s'.clients[c].inflight == s.clients[c].inflight + IssuedBy(s, st, c)
  {
  }

  lemma LandedStep(s: Cluster, st: Step, c: Addr, m: Meta, issued: seq<Update>, n: nat) returns (n': nat)
    requires Inv(s) && QuietBut(s, c) && Enabled(s, st) && !Opens(s, st) && LandedUpTo(s, c, m, issued, n)
    ensures LandedUpTo(Apply(s, st), c, m, issued + IssuedBy(s, st, c), n')
  {
    hide LockInv; hide InStep; hide AppliedAll; hide Apply; hide Enabled;
    if st == Deliver(c) {
      n' := LandedDeliver(s, c, m, issued, n);
      assert issued + [] == issued;
    } else {
      n' := n;
      QuietButStep(s, st, c);
      InflightStays(s, st, c);
      var more := issued + IssuedBy(s, st, c);
      assert more[..n] == issued[..n] && more[n..] == issued[n..] + IssuedBy(s, st, c);
    }
  }

  lemma {:induction false} LandedRun(s: Cluster, steps: seq<Step>, c: Addr, m: Meta, issued: seq<Update>, n: nat)
    returns (n': nat)
    requires Inv(s) && QuietBut(s, c) && Run(s, steps, true) && NobodyOpens(s, steps) && LandedUpTo(s, c, m, issued, n)
    ensures LandedUpTo(Exec(s, steps), c, m, issued + IssuedOver(s, steps, c), n')
    decreases |steps|
  {
    hide LandedUpTo; hide Inv; hide QuietBut; hide Apply; hide Opens; hide IssuedBy;
    if steps == [] {
      n' := n;
      assert issued + [] == issued;
    } else {
      var more := IssuedBy(s, steps[0], c);
      var k := LandedStep(s, steps[0], c, m, issued, n);
      QuietButStep(s, steps[0], c);
      InvStep(s, steps[0]);
      var rest := IssuedOver(Apply(s, steps[0]), steps[1..], c);
      n' := LandedRun(Apply(s, steps[0]), steps[1..], c, m, issued + more, k);
      assert issued + more + rest == issued + (more + rest);
    }
  }

  /**
   Handoff whatever becomes of the last owner, crash and eviction included: the next successful
   open() reads what the last one read, with some prefix of the updates issued since applied in order.
   */
  lemma CrashHandoff(before: seq<Step>, c: Addr, between: seq<Step>, d: Addr) returns (n: nat)
    requires Run(Created(true), before, true)
    requires var s := Exec(Created(true), before); Enabled(s, Act(c, Open)) && Opens(s, Act(c, Open))
    requires var s := Apply(Exec(Created(true), before), Act(c, Open));
             && Run(s, between, true) && NobodyOpens(s, between)
             && Enabled(Exec(s, between), Act(d, Open)) && Opens(Exec(s, between), Act(d, Open))
    ensures var s0 := Exec(Created(true), before);
            var s1 := Apply(s0, Act(c, Open));
            var s2 := Exec(s1, between);
            && s1.clients[c].cache == s0.stored
            && n <= |IssuedOver(s1, between, c)|
            && Apply(s2, Act(d, Open)).clients[d].cache == AppliedAll(s0.stored, IssuedOver(s1, between, c)[..n])
  {
    var s0 := Exec(Created(true), before);
    InvRun(Created(true), before);
    var s1 := Apply(s0, Act(c, Open));
    InvStep(s0, Act(c, Open));
    OpensAlone(s0, c);
    n := LandedRun(s1, between, c, s0.stored, [], 0);
    assert [] + IssuedOver(s1, between, c) == IssuedOver(s1, between, c);
  }

  /** Whoever opens is the only owner the OSD serves, with nothing in flight. */
  lemma OpensAlone(s: Cluster, c: Addr)
    requires Inv(s) && Enabled(s, Act(c, Open)) && Opens(s, Act(c, Open))
    ensures var s' := Apply(s, Act(c, Open)); QuietBut(s', c) && LandedUpTo(s', c, s.stored, [], 0)
  {
    hide InStep;
    assert ClientInv(s, c, s.clients[c]) && MetaClientInv(s, c, s.clients[c]);
    forall x | x in s.clients && x != c && x !in s.osdBlocklist
      ensures !s.clients[x].phase.Owner?
    {
      assert ClientInv(s, x, s.clients[x]);
    }
  }

  // ---------------------------------------------------------------- renewal

  /** The striper returns -EBLOCKLISTED for every call from now on. */
  predicate Refused(s: Cluster, c: Addr) {
    c in s.clients && s.clients[c].refused
  }

  /** Client c tries to renew a lease that it does not have, or is turned away by the OSD. */
  predicate RenewalFails(s: Cluster, st: Step, c: Addr) {
    st == Act(c, Renew) && (c in s.osdBlocklist || s.holder != Some(c))
  }

  ghost predicate SomeRenewalFails(s: Cluster, steps: seq<Step>, c: Addr)
    requires IsRun(s, steps)
    decreases |steps|
  {
    steps != [] && (RenewalFails(s, steps[0], c) || SomeRenewalFails(Apply(s, steps[0]), steps[1..], c))
  }

  lemma RefusedStep(s: Cluster, st: Step, c: Addr)
    requires Enabled(s, st)
    ensures Refused(Apply(s, st), c) <==> Refused(s, c) || RenewalFails(s, st, c)
  {
    if st.Act? {
      RefusedAction(s, st.c, st.action, c);
    }
  }

  lemma RefusedAction(s: Cluster, d: Addr, a: Action, c: Addr)
    requires d in s.clients && s.clients[d].alive && CanAct(s.clients[d], a)
    ensures Refused(ApplyAction(s, d, a), c) <==> Refused(s, c) || RenewalFails(s, Act(d, a), c)
  {
  }

  /** Over every run: a striper refuses its calls exactly when it did before or a renewal of its own failed. */
  lemma {:induction false} RefusedExactly(s: Cluster, steps: seq<Step>, c: Addr)
    requires IsRun(s, steps)
    ensures Refused(Exec(s, steps), c) <==> Refused(s, c) || SomeRenewalFails(s, steps, c)
    decreases |steps|
  {
    hide Apply; hide Enabled; hide Refused; hide RenewalFails;
    if steps != [] {
      RefusedStep(s, steps[0], c);
      RefusedExactly(Apply(s, steps[0]), steps[1..], c);
    }
  }

  /** What only a striper that answers its caller does. */
  predicate NeedsStriper(a: Action) {
    a.TryLock? || a.Renew? || a.WriteGrows? || a.Issue? || a.Unlock?
  }

  /** A striper that refuses its calls locks, writes, updates, renews and unlocks nothing ever again. */
  lemma {:induction false} RefusedForGood(s: Cluster, steps: seq<Step>, c: Addr)
    requires IsRun(s, steps) && Refused(s, c)
    ensures Refused(Exec(s, steps), c)
    ensures forall i | 0 <= i < |steps| && steps[i].Act? && steps[i].c == c :: !NeedsStriper(steps[i].action)
    decreases |steps|
  {
    if steps != [] {
      hide Apply;
      RefusedStep(s, steps[0], c);
      RefusedForGood(Apply(s, steps[0]), steps[1..], c);
      assert forall i | 0 < i < |steps| :: steps[i] == steps[1..][i - 1];
    }
  }

  // ---------------------------------------------------------------- death and eviction

  /** A dead client takes no step, and its record changes only by what was in flight. */
  lemma {:induction false} DeadForGood(s: Cluster, steps: seq<Step>, c: Addr)
    requires IsRun(s, steps) && c in s.clients && !s.clients[c].alive
    ensures forall i | 0 <= i < |steps| && steps[i].Act? :: steps[i].c != c
    ensures var s' := Exec(s, steps);
            && c in s'.clients && s'.clients[c] == s.clients[c].(inflight := s'.clients[c].inflight)
            && |s'.clients[c].inflight| <= |s.clients[c].inflight|
    decreases |steps|
  {
    if steps != [] {
      DeadStep(s, steps[0], c);
      hide Apply;
      DeadForGood(Apply(s, steps[0]), steps[1..], c);
      assert forall i | 0 < i < |steps| :: steps[i] == steps[1..][i - 1];
    }
  }

  lemma DeadStep(s: Cluster, st: Step, c: Addr)
    requires Enabled(s, st) && c in s.clients && !s.clients[c].alive
    ensures st.Act? ==> st.c != c
    ensures var s' := Apply(s, st);
            && c in s'.clients && s'.clients[c] == s.clients[c].(inflight := s'.clients[c].inflight)
            && |s'.clients[c].inflight| <= |s.clients[c].inflight|
  {
  }

  lemma CrashAction(s: Cluster, c: Addr, a: Action)
    requires c in s.clients && s.clients[c].alive && CanAct(s.clients[c], a)
    ensures c in ApplyAction(s, c, a).clients && (!ApplyAction(s, c, a).clients[c].alive <==> a.Crash?)
  {
  }

  /** A crash is what ends a client's life, and nothing else does. */
  lemma CrashExactly(s: Cluster, st: Step, c: Addr)
    requires Enabled(s, st) && c in s.clients && s.clients[c].alive
    ensures c in Apply(s, st).clients && (!Apply(s, st).clients[c].alive <==> st == Act(c, Crash))
  {
    hide ApplyAction; hide CanAct;
    if st.Act? {
      if st.c == c { CrashAction(s, c, st.action); } else { OthersUntouched(s, st.c, st.action, c); }
    }
  }

  /**
   A client the OSD refuses changes nothing there and gets no further: it stays where it is or
   falls back, except that it may still blocklist whom it had read before.
   */
  lemma BlockedIsPowerless(s: Cluster, c: Addr, a: Action)
    requires c in s.clients && s.clients[c].alive && CanAct(s.clients[c], a) && c in s.osdBlocklist
    ensures var s' := ApplyAction(s, c, a);
            && s'.holder == s.holder && s'.excl == s.excl && s'.stored == s.stored
            && s.osdBlocklist <= s'.osdBlocklist && c in s'.clients
            && (s'.clients[c].phase == s.clients[c].phase || s'.clients[c].phase.Idle?
                || s'.clients[c].phase.OpenFailed? || a.Blocklist?)
  {
  }

  /** A client that finds the RADOS lock taken takes nothing and tries again from the start. */
  lemma BusyTakesNothing(s: Cluster, c: Addr, a: Action)
    requires c in s.clients && CanAct(s.clients[c], a) && s.holder.Some? && (a.TryLock? || a.TakeRadosLock?)
    ensures ApplyAction(s, c, a) == Put(s, c, s.clients[c].(phase := Idle))
  {
  }

  /** Blocklists only grow; the OSD enforces what the monitor has listed, at the latest when it gets the map. */
  lemma {:induction false} ListedForGood(s: Cluster, steps: seq<Step>)
    requires IsRun(s, steps) && s.osdBlocklist <= s.monBlocklist
    ensures var s' := Exec(s, steps);
            s.monBlocklist <= s'.monBlocklist && s.osdBlocklist <= s'.osdBlocklist <= s'.monBlocklist
    ensures OsdLearns in steps ==> s.monBlocklist <= Exec(s, steps).osdBlocklist
    decreases |steps|
  {
    if steps != [] {
      ListStep(s, steps[0]);
      hide Apply;
      ListedForGood(Apply(s, steps[0]), steps[1..]);
    }
  }

  lemma ListStep(s: Cluster, st: Step)
    requires Enabled(s, st) && s.osdBlocklist <= s.monBlocklist
    ensures var s' := Apply(s, st);
            && s.monBlocklist <= s'.monBlocklist && s.osdBlocklist <= s'.osdBlocklist <= s'.monBlocklist
            && (st.OsdLearns? ==> s.monBlocklist <= s'.osdBlocklist)
            && (s'.monBlocklist != s.monBlocklist ==> st.Act? && st.action.Blocklist?)
  {
  }

  /** Everyone listed is a former or present holder that does not have the RADOS lock. */
  ghost predicate OnlyEvicted(s: Cluster) {
    forall a | a in s.monBlocklist :: a in s.clients && Holding(s.clients[a]) && s.holder != Some(a)
  }

  lemma EvictedStep(s: Cluster, st: Step)
    requires LockInv(s) && OnlyEvicted(s) && Enabled(s, st) && Timely(s, st)
    ensures OnlyEvicted(Apply(s, st))
  {
    var s' := Apply(s, st);
    forall a | a in s'.monBlocklist
      ensures a in s'.clients && Holding(s'.clients[a]) && s'.holder != Some(a)
    {
      assert a in s.clients ==> ClientInv(s, a, s.clients[a]);
      if st.Act? {
        assert ClientInv(s, st.c, s.clients[st.c]);
      }
    }
  }

  /**
   Over every timely run with blocklisting: whoever is listed has held the file, is still an owner in
   its own eyes, and never has the RADOS lock again, so it neither renews nor unlocks.
   */
  lemma {:induction false} EvictedForGood(s: Cluster, steps: seq<Step>)
    requires Inv(s) && OnlyEvicted(s) && Run(s, steps, true)
    ensures OnlyEvicted(Exec(s, steps))
    decreases |steps|
  {
    if steps != [] {
      hide OnlyEvicted; hide Apply; hide Enabled; hide Timely;
      EvictedStep(s, steps[0]);
      InvStep(s, steps[0]);
      EvictedForGood(Apply(s, steps[0]), steps[1..]);
    }
  }

  // ---------------------------------------------------------------- the size in the cache

  /** The size that client c last wrote, set or found, if it was `size` before. */
  ghost function LastSize(s: Cluster, steps: seq<Step>, c: Addr, size: nat): nat
    requires IsRun(s, steps)
    decreases |steps|
  {
    if steps == [] then size
    else LastSize(Apply(s, steps[0]), steps[1..], c, SizeAfter(s, steps[0], c, size))
  }

  function SizeAfter(s: Cluster, st: Step, c: Addr, size: nat): nat {
    if !st.Act? || st.c != c then size
    else if st.action.WriteGrows? then st.action.size
    else if st.action.Issue? && st.action.newSize.Some? then st.action.newSize.value
    else if Opens(s, st) then s.stored.size
    else size
  }

  /** Over every run a client's cached size is the one it last wrote, set or found at its open(). */
  lemma {:induction false} CachedSize(s: Cluster, steps: seq<Step>, c: Addr)
    requires IsRun(s, steps) && c in s.clients
    ensures c in Exec(s, steps).clients
    ensures Exec(s, steps).clients[c].cache.size == LastSize(s, steps, c, s.clients[c].cache.size)
    decreases |steps|
  {
    if steps != [] {
      CachedSizeStep(s, steps[0], c);
      hide Apply; hide SizeAfter;
      CachedSize(Apply(s, steps[0]), steps[1..], c);
    }
  }

  /** An owner's cached size falls only by an update that sets it. */
  lemma SizeFallsByUpdate(s: Cluster, st: Step, c: Addr)
    requires Enabled(s, st) && c in s.clients && s.clients[c].phase.Owner?
    ensures c in Apply(s, st).clients
    ensures Apply(s, st).clients[c].cache.size < s.clients[c].cache.size ==>
              st.Act? && st.c == c && st.action.Issue? && st.action.newSize.Some?
  {
  }

  lemma CachedSizeStep(s: Cluster, st: Step, c: Addr)
    requires Enabled(s, st) && c in s.clients
    ensures c in Apply(s, st).clients
    ensures Apply(s, st).clients[c].cache.size == SizeAfter(s, st, c, s.clients[c].cache.size)
  {
    hide ApplyAction; hide CanAct;
    if st.Act? {
      if st.c == c { CachedSizeAction(s, c, st.action); } else { OthersUntouched(s, st.c, st.action, c); }
    }
  }

  lemma CachedSizeAction(s: Cluster, c: Addr, a: Action)
    requires c in s.clients && CanAct(s.clients[c], a)
    ensures c in ApplyAction(s, c, a).clients
    ensures ApplyAction(s, c, a).clients[c].cache.size == SizeAfter(s, Act(c, a), c, s.clients[c].cache.size)
  {
  }

  // ---------------------------------------------------------------- recovery is always possible

  lemma {:induction false} Snoc(s: Cluster, steps: seq<Step>, st: Step, timely: bool)
    requires Run(s, steps, timely)
    requires Enabled(Exec(s, steps), st) && (timely ==> Timely(Exec(s, steps), st))
    ensures Run(s, steps + [st], timely)
    ensures Exec(s, steps + [st]) == Apply(Exec(s, steps), st)
    decreases |steps|
  {
    if steps == [] {
      assert steps + [st] == [st];
      assert [st][1..] == [];
    } else {
      assert (steps + [st])[0] == steps[0] && (steps + [st])[1..] == steps[1..] + [st];
      Snoc(Apply(s, steps[0]), steps[1..], st, timely);
    }
  }

  /** A client that is free to take part: it runs, is not locked and is on no blocklist. */
  predicate Ready(s: Cluster, c: Addr) {
    && c in s.clients && s.clients[c].alive && s.clients[c].phase.Idle? && !s.clients[c].refused
    && c !in s.monBlocklist && c !in s.osdBlocklist
  }

  /** Whoever holds the RADOS lock, it can become free without disturbing anyone idle. */
  lemma FreeTheLock(s: Cluster, c: Addr) returns (steps: seq<Step>)
    requires Inv(s) && Ready(s, c)
    ensures Run(s, steps, true)
    ensures Inv(Exec(s, steps)) && Ready(Exec(s, steps), c) && Exec(s, steps).holder.None?
  {
    steps := [];
    if s.holder.Some? && s.holder.value in s.clients
       && s.clients[s.holder.value].alive && Recovering(s.clients[s.holder.value]) {
      var st := Act(s.holder.value, RecoveryFails);
      Snoc(s, steps, st, true);
      steps := steps + [st];
    }
    if Exec(s, steps).holder.Some? {
      Snoc(s, steps, Expire, true);
      steps := steps + [Expire];
    }
    InvRun(s, steps);
  }

  /** With the lock free, recover_lock() taken to its end makes the client an owner. */
  lemma TakeOver(s: Cluster, c: Addr) returns (steps: seq<Step>)
    requires Inv(s) && Ready(s, c) && s.holder.None?
    ensures Run(s, steps, true)
    ensures c in Exec(s, steps).clients && Exec(s, steps).clients[c].phase.Owner?
    ensures c !in Exec(s, steps).osdBlocklist
  {
    Snoc(s, [], Act(c, TryLock), true);
    steps := [Act(c, TryLock)];
    if s.excl.Some? {
      Snoc(s, steps, Act(c, TakeRadosLock), true);
      steps := steps + [Act(c, TakeRadosLock)];
      Snoc(s, steps, Act(c, Fetch), true);
      steps := steps + [Act(c, Fetch)];
      assert s.excl != Some(c);
      Snoc(s, steps, Act(c, Blocklist), true);
      steps := steps + [Act(c, Blocklist)];
      Snoc(s, steps, Act(c, SetExcl), true);
      steps := steps + [Act(c, SetExcl)];
    }
    Snoc(s, steps, Act(c, Open), true);
    steps := steps + [Act(c, Open)];
  }

  lemma {:induction false} Concat(s: Cluster, xs: seq<Step>, ys: seq<Step>)
    requires Run(s, xs, true) && Run(Exec(s, xs), ys, true)
    ensures Run(s, xs + ys, true)
    ensures Exec(s, xs + ys) == Exec(Exec(s, xs), ys)
    decreases |xs|
  {
    if xs == [] {
      assert xs + ys == ys;
    } else {
      assert (xs + ys)[0] == xs[0] && (xs + ys)[1..] == xs[1..] + ys;
      Concat(Apply(s, xs[0]), xs[1..], ys);
    }
  }

  /**
   No crash wedges the file: from every reachable state some run makes any ready client the
   owner, whatever the last owner or recoverer left behind.
   */
  lemma AlwaysRecoverable(before: seq<Step>, c: Addr) returns (steps: seq<Step>)
    requires Run(Created(true), before, true) && Ready(Exec(Created(true), before), c)
    ensures Run(Created(true), before + steps, true)
    ensures var s := Exec(Created(true), before + steps); Active(s, c) && s.clients[c].phase.Owner?
  {
    var s := Exec(Created(true), before);
    InvRun(Created(true), before);
    var xs := FreeTheLock(s, c);
    var ys := TakeOver(Exec(s, xs), c);
    Concat(s, xs, ys);
    steps := xs + ys;
    Concat(Created(true), before, steps);
  }

  // ---------------------------------------------------------------- a healthy client can always let go

  /** The client runs, is served, has its lease, and its striper answers. */
  predicate Healthy(s: Cluster, c: Addr) {
    && c in s.clients && s.clients[c].alive && !s.clients[c].refused
    && c !in s.osdBlocklist && s.holder == Some(c)
  }

  /** If open() fails after the lock was taken, the lease can be renewed and the destructor gives the file back. */
  lemma FailedOpenLetsGo(s: Cluster, c: Addr) returns (steps: seq<Step>)
    requires Inv(s) && Healthy(s, c) && s.clients[c].phase.Opening?
    ensures steps == [Act(c, OpenFails), Act(c, Renew), Act(c, Unlock)] && Run(s, steps, true)
    ensures var s' := Exec(s, steps);
            && s'.holder.None? && s'.excl.None? && s'.stored == s.stored
            && c in s'.clients && s'.clients[c].phase.Idle? && !s'.clients[c].refused
  {
    assert ClientInv(s, c, s.clients[c]) && MetaClientInv(s, c, s.clients[c]);
    NoStepsYet(s);
    Snoc(s, [], Act(c, OpenFails), true);
    steps := [] + [Act(c, OpenFails)];
    hide IsRun; hide NeverLapses; hide Exec;
    Snoc(s, steps, Act(c, Renew), true);
    steps := steps + [Act(c, Renew)];
    Snoc(s, steps, Act(c, Unlock), true);
    steps := steps + [Act(c, Unlock)];
  }

  lemma NoStepsYet(s: Cluster)
    ensures Run(s, [], true) && Exec(s, []) == s
  {
  }

  /** The OSD works off what an owner has in flight. */
  lemma {:induction false} DeliverAll(s: Cluster, c: Addr) returns (steps: seq<Step>)
    requires Inv(s) && Healthy(s, c) && s.clients[c].phase.Owner?
    ensures Run(s, steps, true)
    ensures var s' := Exec(s, steps);
            && Inv(s') && Healthy(s', c) && s'.excl == s.excl
            && s'.clients[c] == s.clients[c].(inflight := [])
    decreases |s.clients[c].inflight|
  {
    if s.clients[c].inflight == [] {
      NoStepsYet(s);
      steps := [];
    } else {
      InvStep(s, Deliver(c));
      hide LockInv; hide MetaClientInv;
      NoStepsYet(s);
      Snoc(s, [], Deliver(c), true);
      assert [] + [Deliver(c)] == [Deliver(c)];
      var rest := DeliverAll(Apply(s, Deliver(c)), c);
      Concat(s, [Deliver(c)], rest);
      steps := [Deliver(c)] + rest;
    }
  }

  /** Whatever a healthy owner has written and issued, it can flush it and unlock, and its size is then the stored one. */
  lemma OwnerLetsGo(s: Cluster, c: Addr) returns (steps: seq<Step>)
    requires Inv(s) && Healthy(s, c) && s.clients[c].phase.Owner?
    ensures Run(s, steps, true)
    ensures var s' := Exec(s, steps);
            && s'.holder.None? && s'.excl.None? && s'.stored.size == s.clients[c].cache.size
            && c in s'.clients && s'.clients[c].phase.Idle?
  {
    NoStepsYet(s);
    steps := [];
    assert ClientInv(s, c, s.clients[c]);
    if s.clients[c].sizeDirty {
      var flush := Act(c, Issue(Some(s.clients[c].cache.size), None));
      Snoc(s, [], flush, true);
      steps := [] + [flush];
      InvStep(s, flush);
    }
    var s1 := Exec(s, steps);
    var rest := DeliverAll(s1, c);
    var s2 := Exec(s1, rest);
    assert MetaClientInv(s2, c, s2.clients[c]);
    hide IsRun; hide NeverLapses; hide Exec;
    Concat(s, steps, rest);
    steps := steps + rest;
    Snoc(s, steps, Act(c, Unlock), true);
    steps := steps + [Act(c, Unlock)];
  }

  // ---------------------------------------------------------------- why the assumptions are needed

  /** An owner that the OSD serves and that has issued nothing on a new file. */
  predicate FreshOwner(s: Cluster, c: Addr) {
    Active(s, c) && s.clients[c] == Client(Owner, true, false, Meta(0, 0, 0), false, [])
  }

  /** Client 0 owns the file and its lease has run out; clients 1 and 2 are idle. */
  lemma LapsedOwner(blocklistTheDead: bool) returns (steps: seq<Step>)
    ensures Run(Created(blocklistTheDead), steps, true)
    ensures var s := Exec(Created(blocklistTheDead), steps);
            && s.holder.None? && s.excl == Some(0) && s.monBlocklist == {} && s.osdBlocklist == {}
            && s.blocklistTheDead == blocklistTheDead
            && s.stored == Meta(0, 0, 0) && FreshOwner(s, 0)
            && Ready(s, 1) && Ready(s, 2)
            && s.clients[1] == s.clients[2] == Client(Idle, true, false, Meta(0, 0, 0), false, [])
  {
    var s := Created(blocklistTheDead);
    Snoc(s, [], Join(0), true);
    steps := [] + [Join(0)];
    Snoc(s, steps, Join(1), true);
    steps := steps + [Join(1)];
    Snoc(s, steps, Join(2), true);
    steps := steps + [Join(2)];
    Snoc(s, steps, Act(0, TryLock), true);
    steps := steps + [Act(0, TryLock)];
    Snoc(s, steps, Act(0, Open), true);
    steps := steps + [Act(0, Open)];
    Snoc(s, steps, Expire, true);
    steps := steps + [Expire];
  }

  /** A client that has gone as far as reading the holder and, if configured, blocklisting it. */
  lemma RecoverUpToSetExcl(s0: Cluster, steps: seq<Step>, c: Addr, timely: bool)
    returns (steps': seq<Step>)
    requires Run(s0, steps, timely)
    requires var s := Exec(s0, steps);
             Ready(s, c) && s.holder.None? && s.excl.Some? && s.excl != Some(c)
    ensures Run(s0, steps', timely)
    ensures var s := Exec(s0, steps);
            var s' := Exec(s0, steps');
            && s'.holder == Some(c) && s'.excl == s.excl && s'.osdBlocklist == s.osdBlocklist
            && s'.stored == s.stored
            && s'.monBlocklist ==
                 (if s.blocklistTheDead then s.monBlocklist + {s.excl.value} else s.monBlocklist)
            && s'.blocklistTheDead == s.blocklistTheDead
            && s'.clients == s.clients[c := s.clients[c].(phase := SetOwner(s.blocklistTheDead))]
  {
    hide IsRun; hide NeverLapses; hide Exec;
    Snoc(s0, steps, Act(c, TryLock), timely);
    steps' := steps + [Act(c, TryLock)];
    Snoc(s0, steps', Act(c, TakeRadosLock), timely);
    steps' := steps' + [Act(c, TakeRadosLock)];
    Snoc(s0, steps', Act(c, Fetch), timely);
    steps' := steps' + [Act(c, Fetch)];
    if Exec(s0, steps).blocklistTheDead {
      Snoc(s0, steps', Act(c, Blocklist), timely);
      steps' := steps' + [Act(c, Blocklist)];
    }
  }

  lemma FinishRecovery(s0: Cluster, steps: seq<Step>, c: Addr, timely: bool)
    returns (steps': seq<Step>)
    requires Run(s0, steps, timely)
    requires var s := Exec(s0, steps);
             && c in s.clients && s.clients[c].alive && s.clients[c].phase.SetOwner?
             && c !in s.osdBlocklist && c !in s.monBlocklist
    ensures Run(s0, steps', timely)
    ensures var s := Exec(s0, steps);
            var s' := Exec(s0, steps');
            && s'.holder == s.holder && s'.excl == Some(c) && s'.monBlocklist == s.monBlocklist
            && s'.osdBlocklist <= s.osdBlocklist + s.monBlocklist && s'.stored == s.stored
            && s'.clients == s.clients[c := s.clients[c].(phase := Owner, cache := s.stored)]
  {
    hide IsRun; hide NeverLapses; hide Exec;
    Snoc(s0, steps, Act(c, SetExcl), timely);
    steps' := steps + [Act(c, SetExcl)];
    Snoc(s0, steps', Act(c, Open), timely);
    steps' := steps' + [Act(c, Open)];
  }

  /** If a recoverer's lease may lapse before it writes striper.excl, two owners can coexist. */
  lemma LapsedRecoveryBreaksMutualExclusion() returns (steps: seq<Step>)
    ensures Run(Created(true), steps, false)
    ensures var s := Exec(Created(true), steps);
            FreshOwner(s, 1) && FreshOwner(s, 2) && s.stored == Meta(0, 0, 0)
  {
    hide IsRun; hide NeverLapses; hide Exec;
    steps := LapsedOwner(true);
    steps := RecoverUpToSetExcl(Created(true), steps, 1, false);
    Snoc(Created(true), steps, Expire, false);
    steps := RecoverUpToSetExcl(Created(true), steps + [Expire], 2, false);
    steps := FinishRecovery(Created(true), steps, 2, false);
    steps := FinishRecovery(Created(true), steps, 1, false);
  }

  /** Without blocklisting, a recovered file still has its old owner. */
  lemma NoBlocklistBreaksMutualExclusion() returns (steps: seq<Step>)
    ensures Run(Created(false), steps, true)
    ensures var s := Exec(Created(false), steps);
            FreshOwner(s, 0) && FreshOwner(s, 1) && s.stored == Meta(0, 0, 0)
  {
    hide IsRun; hide NeverLapses; hide Exec;
    steps := LapsedOwner(false);
    steps := RecoverUpToSetExcl(Created(false), steps, 1, true);
    steps := FinishRecovery(Created(false), steps, 1, true);
  }

  ghost predicate Exclusive(s: Cluster) {
    forall c, d :: Active(s, c) && Active(s, d) ==> c == d
  }

  /**
   Mutual exclusion holds of every run exactly when dead clients are blocklisted and no
   recoverer's lease lapses before it writes striper.excl.
   */
  lemma MutualExclusionExactly(blocklistTheDead: bool, timely: bool)
    ensures (forall steps | Run(Created(blocklistTheDead), steps, timely) ::
               Exclusive(Exec(Created(blocklistTheDead), steps)))
            <==> (blocklistTheDead && timely)
  {
    if blocklistTheDead && timely {
      forall steps | Run(Created(true), steps, true)
        ensures Exclusive(Exec(Created(true), steps))
      {
        forall c, d { MutualExclusion(steps, c, d); }
      }
    } else if blocklistTheDead {
      var steps := LapsedRecoveryBreaksMutualExclusion();
      assert Run(Created(true), steps, timely) && !Exclusive(Exec(Created(true), steps));
    } else {
      var steps := NoBlocklistBreaksMutualExclusion();
      assert Run(Created(false), steps, timely) && !Exclusive(Exec(Created(false), steps));
    }
  }

  /** The owner counts its own updates: two of one owner, then one of the other. */
  lemma VersionTurnsBack(s0: Cluster, steps: seq<Step>, timely: bool, c: Addr, d: Addr) returns (steps': seq<Step>)
    requires Run(s0, steps, timely) && c != d
    requires var s := Exec(s0, steps); FreshOwner(s, c) && FreshOwner(s, d) && s.stored == Meta(0, 0, 0)
    ensures Run(s0, steps', timely)
    ensures var s := Exec(s0, steps'); Enabled(s, Deliver(d)) && Apply(s, Deliver(d)).stored.version < s.stored.version
  {
    hide IsRun; hide NeverLapses; hide Exec;
    var issue := Issue(Some(0), None);
    Snoc(s0, steps, Act(c, issue), timely);
    steps' := steps + [Act(c, issue)];
    Snoc(s0, steps', Act(c, issue), timely);
    steps' := steps' + [Act(c, issue)];
    Snoc(s0, steps', Deliver(c), timely);
    steps' := steps' + [Deliver(c)];
    Snoc(s0, steps', Deliver(c), timely);
    steps' := steps' + [Deliver(c)];
    Snoc(s0, steps', Act(d, issue), timely);
    steps' := steps' + [Act(d, issue)];
  }

  /** If the step may come next, it does not turn the stored version back. */
  ghost predicate VersionKept(s: Cluster, st: Step, timely: bool) {
    Enabled(s, st) && (timely ==> Timely(s, st)) ==> s.stored.version <= Apply(s, st).stored.version
  }

  /**
   The stored version never goes back in any run exactly when dead clients are blocklisted and no
   recoverer's lease lapses before it writes striper.excl.
   */
  lemma VersionExactly(blocklistTheDead: bool, timely: bool)
    ensures (forall steps, st | Run(Created(blocklistTheDead), steps, timely) ::
               VersionKept(Exec(Created(blocklistTheDead), steps), st, timely))
            <==> (blocklistTheDead && timely)
  {
    hide IsRun; hide NeverLapses; hide Exec; hide Apply;
    if blocklistTheDead && timely {
      forall steps, st | Run(Created(true), steps, true)
        ensures VersionKept(Exec(Created(true), steps), st, true)
      {
        InvRun(Created(true), steps);
        if Enabled(Exec(Created(true), steps), st) { OnlyTheHolderWrites(Exec(Created(true), steps), st); }
      }
    } else if blocklistTheDead {
      var steps := LapsedRecoveryBreaksMutualExclusion();
      steps := VersionTurnsBack(Created(true), steps, false, 1, 2);
      assert !VersionKept(Exec(Created(true), steps), Deliver(2), timely);
    } else {
      var steps := NoBlocklistBreaksMutualExclusion();
      Relaxed(Created(false), steps, timely);
      steps := VersionTurnsBack(Created(false), steps, timely, 0, 1);
      assert !VersionKept(Exec(Created(false), steps), Deliver(1), timely);
    }
  }

  lemma Relaxed(s: Cluster, steps: seq<Step>, timely: bool)
    requires Run(s, steps, true)
    ensures Run(s, steps, timely)
  {
  }
}
