/**
 Mapping an image: the kernel's answer arrives through one descriptor, the devices through a
 monitor, in any order and any grouping. The matcher pairs the first bus device for the image with
 the block device that carries its node.
 */
module Krbd {
  import opened Wrappers

  // ---------------------------------------------------------------- devices

  datatype Spec = Spec(pool: string, nspace: string, image: string, snap: string)

  /** What the monitor reports; attributes may be missing. */
  datatype Device = Device(
    action: string, subsystem: string, sysname: string, devnode: string,
    pool: Option<string>, nspace: Option<string>, image: Option<string>, snap: Option<string>,
    major: string, minor: string)

  const DEVNODE_PREFIX := "/dev/rbd"
  const SNAP_HEAD_NAME := "-"

  /** spec_from_dev(): the namespace may be missing, the others may not. */
  function SpecOf(dev: Device): Option<Spec> {
    if dev.pool.None? || dev.image.None? || dev.snap.None? then None
    else Some(Spec(dev.pool.value,
                   if dev.nspace.Some? then dev.nspace.value else "",
                   dev.image.value,
                   if dev.snap.value == "" then SNAP_HEAD_NAME else dev.snap.value))
  }

  function NodeOf(bus: Device): string {
    DEVNODE_PREFIX + bus.sysname
  }

  predicate IsBus(dev: Device, spec: Spec) {
    dev.action == "add" && dev.subsystem == "rbd" && SpecOf(dev) == Some(spec)
  }

  predicate IsBlock(dev: Device, node: string) {
    dev.action == "add" && dev.subsystem == "block" && dev.devnode == node
  }

  /** The first event that satisfies a test. */
  function FirstBus(seen: seq<Device>, spec: Spec): Option<Device> {
    if seen == [] then None
    else
      var before, last := FirstBus(seen[..|seen| - 1], spec), seen[|seen| - 1];
      if before.Some? then before else if IsBus(last, spec) then Some(last) else None
  }

  function FirstBlock(seen: seq<Device>, node: string): Option<Device> {
    if seen == [] then None
    else
      var before, last := FirstBlock(seen[..|seen| - 1], node), seen[|seen| - 1];
      if before.Some? then before else if IsBlock(last, node) then Some(last) else None
  }

  /** Both halves have been seen: the first bus device for the image, and a block device with its node. */
  predicate Complete(seen: seq<Device>, spec: Spec) {
    var bus := FirstBus(seen, spec);
    bus.Some? && FirstBlock(seen, NodeOf(bus.value)).Some?
  }

  // ---------------------------------------------------------------- what a match is

  function Namespace(dev: Device): string {
    if dev.nspace.Some? then dev.nspace.value else ""
  }

  /** Two snapshot names mean the same if they are equal or both stand for the image itself. */
  predicate SameSnap(a: string, b: string) {
    a == b || (a in {"", "-"} && b in {"", "-"})
  }

  /** A device names exactly one image, if it has a pool, a name and a current snapshot at all. */
  lemma SpecOfExactly(dev: Device, spec: Spec)
    ensures SpecOf(dev) == Some(spec) <==>
              && dev.pool == Some(spec.pool) && dev.image == Some(spec.image) && Namespace(dev) == spec.nspace
              && dev.snap.Some? && spec.snap != "" && SameSnap(dev.snap.value, spec.snap)
  {
  }

  /** Two devices name the same image exactly when pool, namespace, name and snapshot agree. */
  lemma SameImageExactly(a: Device, b: Device)
    requires SpecOf(a).Some? && SpecOf(b).Some?
    ensures SpecOf(a) == SpecOf(b) <==>
              && a.pool == b.pool && a.image == b.image && Namespace(a) == Namespace(b)
              && SameSnap(a.snap.value, b.snap.value)
  {
  }

  /** The i-th event announces the image on the bus, and none before it does. */
  ghost predicate FirstOnBus(seen: seq<Device>, spec: Spec, i: nat) {
    && i < |seen| && seen[i].action == "add" && seen[i].subsystem == "rbd" && SpecOf(seen[i]) == Some(spec)
    && forall k | 0 <= k < i :: !(seen[k].action == "add" && seen[k].subsystem == "rbd" && SpecOf(seen[k]) == Some(spec))
  }

  /** The j-th event announces the block device `node`, and none before it does. */
  ghost predicate FirstAsBlock(seen: seq<Device>, node: string, j: nat) {
    && j < |seen| && seen[j].action == "add" && seen[j].subsystem == "block" && seen[j].devnode == node
    && forall k | 0 <= k < j :: !(seen[k].action == "add" && seen[k].subsystem == "block" && seen[k].devnode == node)
  }

  lemma {:induction false} FirstBusIs(seen: seq<Device>, spec: Spec, i: nat)
    requires FirstOnBus(seen, spec, i)
    ensures FirstBus(seen, spec) == Some(seen[i])
    decreases |seen|
  {
    var n := |seen| - 1;
    if i < n {
      FirstBusIs(seen[..n], spec, i);
    } else {
      NoBus(seen[..n], spec);
    }
  }

  lemma {:induction false} NoBus(seen: seq<Device>, spec: Spec)
    requires forall k | 0 <= k < |seen| :: !IsBus(seen[k], spec)
    ensures FirstBus(seen, spec).None?
    decreases |seen|
  {
    if seen != [] { NoBus(seen[..|seen| - 1], spec); }
  }

  lemma {:induction false} FirstBusAt(seen: seq<Device>, spec: Spec) returns (i: nat)
    requires FirstBus(seen, spec).Some?
    ensures FirstOnBus(seen, spec, i) && FirstBus(seen, spec) == Some(seen[i])
    decreases |seen|
  {
    var n := |seen| - 1;
    if FirstBus(seen[..n], spec).Some? {
      i := FirstBusAt(seen[..n], spec);
    } else {
      i := n;
      forall k | 0 <= k < n
        ensures !IsBus(seen[k], spec)
      {
        FirstBusNone(seen[..n], spec, k);
      }
    }
  }

  lemma {:induction false} FirstBusNone(seen: seq<Device>, spec: Spec, k: nat)
    requires FirstBus(seen, spec).None? && k < |seen|
    ensures !IsBus(seen[k], spec)
    decreases |seen|
  {
    if k < |seen| - 1 { FirstBusNone(seen[..|seen| - 1], spec, k); }
  }

  lemma {:induction false} FirstBlockAt(seen: seq<Device>, node: string) returns (j: nat)
    requires FirstBlock(seen, node).Some?
    ensures FirstAsBlock(seen, node, j) && FirstBlock(seen, node) == Some(seen[j])
    decreases |seen|
  {
    var n := |seen| - 1;
    if FirstBlock(seen[..n], node).Some? {
      j := FirstBlockAt(seen[..n], node);
    } else {
      j := n;
      forall k | 0 <= k < n
        ensures !IsBlock(seen[k], node)
      {
        FirstBlockNone(seen[..n], node, k);
      }
    }
  }

  lemma {:induction false} FirstBlockNone(seen: seq<Device>, node: string, k: nat)
    requires FirstBlock(seen, node).None? && k < |seen|
    ensures !IsBlock(seen[k], node)
    decreases |seen|
  {
    if k < |seen| - 1 { FirstBlockNone(seen[..|seen| - 1], node, k); }
  }

  /**
   A history is complete exactly when some event is the first to announce the image on the bus and
   some event, before or after it, announces the block device /dev/rbd with its number.
   */
  lemma CompleteExactly(seen: seq<Device>, spec: Spec)
    ensures Complete(seen, spec) <==>
              exists i: nat, j: nat :: FirstOnBus(seen, spec, i) && FirstAsBlock(seen, "/dev/rbd" + seen[i].sysname, j)
  {
    if Complete(seen, spec) {
      var i := FirstBusAt(seen, spec);
      var j := FirstBlockAt(seen, NodeOf(seen[i]));
      assert FirstOnBus(seen, spec, i) && FirstAsBlock(seen, "/dev/rbd" + seen[i].sysname, j);
    }
    if i: nat, j: nat :| FirstOnBus(seen, spec, i) && FirstAsBlock(seen, "/dev/rbd" + seen[i].sysname, j) {
      FirstBusIs(seen, spec, i);
      if FirstBlock(seen, NodeOf(seen[i])).None? { FirstBlockNone(seen, NodeOf(seen[i]), j); }
    }
  }

  /** Block devices gathered while no bus device is known. */
  function Candidates(seen: seq<Device>): seq<Device> {
    if seen == [] then []
    else
      var before, last := Candidates(seen[..|seen| - 1]), seen[|seen| - 1];
      if last.action == "add" && last.subsystem == "block" && DEVNODE_PREFIX <= last.devnode
      then before + [last] else before
  }

  /** The first of the gathered devices with the node, if any. */
  function FirstWith(devs: seq<Device>, node: string): Option<Device> {
    if devs == [] then None
    else
      var before, last := FirstWith(devs[..|devs| - 1], node), devs[|devs| - 1];
      if before.Some? then before else if last.devnode == node then Some(last) else None
  }

  /** Gathering loses nothing that could match. */
  lemma {:induction false} CandidatesSuffice(seen: seq<Device>, bus: Device)
    ensures FirstWith(Candidates(seen), NodeOf(bus)) == FirstBlock(seen, NodeOf(bus))
    decreases |seen|
  {
    if seen != [] {
      var before, last := seen[..|seen| - 1], seen[|seen| - 1];
      CandidatesSuffice(before, bus);
      assert (Candidates(before) + [last])[..|Candidates(before)|] == Candidates(before);
      assert DEVNODE_PREFIX <= NodeOf(bus);
    }
  }

  /** What one more event adds. */
  lemma EventAdded(seen: seq<Device>, dev: Device, spec: Spec, node: string)
    ensures FirstBus(seen + [dev], spec) ==
              if FirstBus(seen, spec).Some? then FirstBus(seen, spec) else if IsBus(dev, spec) then Some(dev) else None
    ensures FirstBlock(seen + [dev], node) ==
              if FirstBlock(seen, node).Some? then FirstBlock(seen, node)
              else if IsBlock(dev, node) then Some(dev) else None
    ensures Candidates(seen + [dev]) ==
              if dev.action == "add" && dev.subsystem == "block" && DEVNODE_PREFIX <= dev.devnode
              then Candidates(seen) + [dev] else Candidates(seen)
    ensures FirstWith([], node).None? && FirstWith([dev], node) == if dev.devnode == node then Some(dev) else None
  {
    assert (seen + [dev])[..|seen|] == seen && [dev][..0] == [];
  }

  datatype Mapped = Mapped(devnode: string, major: string, minor: string)

  class UdevMapHandler {
    const spec: Spec
    var busDev: Option<Device>
    var blockDevs: seq<Device>
    ghost var seen: seq<Device>

    constructor (spec: Spec)
      ensures Valid() && this.spec == spec && seen == []
    {
      this.spec, busDev, blockDevs, seen := spec, None, [], [];
    }

    /** The state is a summary of an incomplete history. */
    ghost predicate Valid()
      reads this
    {
      && busDev == FirstBus(seen, spec)
      && (busDev.None? ==> blockDevs == Candidates(seen))
      && (busDev.Some? ==> blockDevs == [] && FirstBlock(seen, NodeOf(busDev.value)).None?)
    }

    /** operator(): succeeds at the first event that completes the history, whichever half comes last. */
    method Handle(dev: Device) returns (r: Option<Mapped>)
      requires Valid()
      modifies this
      ensures seen == old(seen) + [dev]
      ensures r.Some? <==> Complete(seen, spec)
      ensures r.Some? ==>
                var bus := FirstBus(seen, spec).value;
                var block := FirstBlock(seen, NodeOf(bus)).value;
                r.value == Mapped(NodeOf(bus), block.major, block.minor)
      ensures r.None? ==> Valid()
    {
      hide FirstBus; hide FirstBlock; hide Candidates; hide FirstWith; hide SpecOf;
      seen := seen + [dev];
      EventAdded(old(seen), dev, spec, if busDev.Some? then NodeOf(busDev.value) else NodeOf(dev));
      if dev.action != "add" {
        return None;
      }
      if dev.subsystem == "rbd" {
        if busDev.None? && SpecOf(dev) == Some(spec) {
          busDev := Some(dev);
          CandidatesSuffice(seen, dev);
        }
      } else if dev.subsystem == "block" {
        if DEVNODE_PREFIX <= dev.devnode {
          blockDevs := blockDevs + [dev];
        }
      }
      if busDev.Some? {
        assert DEVNODE_PREFIX <= NodeOf(busDev.value);
      }
      r := None;
      if busDev.Some? && blockDevs != [] {
        var found := FindNode(blockDevs, NodeOf(busDev.value));
        assert old(busDev.Some?) ==> blockDevs == [dev];
        if found.Some? {
          return Some(Mapped(NodeOf(busDev.value), found.value.major, found.value.minor));
        }
        blockDevs := [];
      }
    }
  }

  method FindNode(devs: seq<Device>, node: string) returns (r: Option<Device>)
    ensures r == FirstWith(devs, node)
  {
    for i := 0 to |devs|
      invariant FirstWith(devs[..i], node).None?
    {
      assert devs[..i + 1][..i] == devs[..i];
      if devs[i].devnode == node {
        FirstWithPrefix(devs, i + 1, node);
        return Some(devs[i]);
      }
    }
    assert devs[..|devs|] == devs;
    r := None;
  }

  lemma {:induction false} FirstWithPrefix(devs: seq<Device>, n: nat, node: string)
    requires n <= |devs| && FirstWith(devs[..n], node).Some?
    ensures FirstWith(devs, node) == FirstWith(devs[..n], node)
    decreases |devs|
  {
    if n < |devs| {
      assert devs[..|devs| - 1][..n] == devs[..n];
      FirstWithPrefix(devs[..|devs| - 1], n, node);
    } else {
      assert devs[..n] == devs;
    }
  }

  // ---------------------------------------------------------------- waiting

  const INT_MAX: int := 0x7fff_ffff

  /** One delivery of the monitor: a device, or an error other than EINTR and EAGAIN. */
  datatype Item = Arrived(dev: Device) | MonitorError(errno: Errno)

  type Errno = e: int | 0 < e < INT_MAX witness 1

  function Negated(e: int): int {
    -e
  }

  /** One return of poll(): whether the kernel's answer is there, and the items that are. */
  datatype Round = Round(sysfs: bool, items: seq<Item>)

  datatype Outcome = Waiting | NotMapped(error: int) | IsMapped(udev: int) | AssertFailed

  function Devices(items: seq<Item>): seq<Device> {
    if items == [] then []
    else
      var before, last := Devices(items[..|items| - 1]), items[|items| - 1];
      if last.Arrived? then before + [last.dev] else before
  }

  /** The monitor's verdict: 0 once the devices are complete, or the first error before that. */
  function Verdict(items: seq<Item>, spec: Spec): (v: Option<int>)
    ensures v.Some? ==> v.value <= 0
  {
    if items == [] then None
    else
      var before, last := Verdict(items[..|items| - 1], spec), items[|items| - 1];
      if before.Some? then before
      else if last.MonitorError? then Some(Negated(last.errno))
      else if Complete(Devices(items), spec) then Some(0) else None
  }

  function AllItems(rounds: seq<Round>): seq<Item> {
    if rounds == [] then [] else AllItems(rounds[..|rounds| - 1]) + rounds[|rounds| - 1].items
  }

  function Answered(rounds: seq<Round>): bool {
    if rounds == [] then false else Answered(rounds[..|rounds| - 1]) || rounds[|rounds| - 1].sysfs
  }

  /** The answer as a function of what was delivered, not of when. */
  function Answer(sysfs: Option<int>, verdict: Option<int>): Outcome {
    if sysfs.None? then Waiting
    else if sysfs.value < 0 then NotMapped(sysfs.value)
    else if verdict.None? then Waiting
    else if sysfs.value == 0 then IsMapped(verdict.value)
    else AssertFailed
  }

  lemma {:induction false} VerdictStays(items: seq<Item>, more: seq<Item>, spec: Spec)
    requires Verdict(items, spec).Some?
    ensures Verdict(items + more, spec) == Verdict(items, spec)
    decreases |more|
  {
    if more == [] {
      assert items + more == items;
    } else {
      assert (items + more)[..|items + more| - 1] == items + more[..|more| - 1];
      VerdictStays(items, more[..|more| - 1], spec);
    }
  }

  lemma ItemAdded(before: seq<Item>, item: Item, spec: Spec)
    ensures Devices(before + [item]) == if item.Arrived? then Devices(before) + [item.dev] else Devices(before)
    ensures Verdict(before, spec).None? ==>
              Verdict(before + [item], spec) ==
                (if item.MonitorError? then Some(Negated(item.errno))
                 else if Complete(Devices(before) + [item.dev], spec) then Some(0)
                 else None)
  {
    assert (before + [item])[..|before|] == before;
  }

  function UpTo(before: seq<Item>, items: seq<Item>, j: nat): seq<Item>
    requires j <= |items|
  {
    before + items[..j]
  }

  lemma UpToNext(before: seq<Item>, items: seq<Item>, j: nat)
    requires j < |items|
    ensures UpTo(before, items, j + 1) == UpTo(before, items, j) + [items[j]]
    ensures before + items == UpTo(before, items, j + 1) + items[j + 1..]
  {
  }

  /** A verdict reached within the batch is the verdict of the batch. */
  lemma Settled(before: seq<Item>, items: seq<Item>, j: nat, spec: Spec)
    requires j < |items| && Verdict(UpTo(before, items, j + 1), spec).Some?
    ensures Verdict(before + items, spec) == Verdict(UpTo(before, items, j + 1), spec)
  {
    UpToNext(before, items, j);
    VerdictStays(UpTo(before, items, j + 1), items[j + 1..], spec);
  }

  /** The inner loop: take items until the monitor is empty, fails, or the handler is satisfied. */
  method Drain(handler: UdevMapHandler, items: seq<Item>, ghost before: seq<Item>) returns (v: Option<int>)
    requires handler.Valid() && handler.seen == Devices(before) && Verdict(before, handler.spec).None?
    modifies handler
    ensures v == Verdict(before + items, handler.spec)
    ensures v.None? ==> handler.Valid() && handler.seen == Devices(before + items)
  {
    assert UpTo(before, items, 0) == before && UpTo(before, items, |items|) == before + items;
    for j := 0 to |items|
      invariant handler.Valid() && handler.seen == Devices(UpTo(before, items, j))
      invariant Verdict(UpTo(before, items, j), handler.spec).None?
    {
      UpToNext(before, items, j);
      ItemAdded(UpTo(before, items, j), items[j], handler.spec);
      match items[j]
      case MonitorError(e) =>
        Settled(before, items, j, handler.spec);
        return Some(Negated(e));
      case Arrived(dev) =>
        var mapped := handler.Handle(dev);
        if mapped.Some? {
          Settled(before, items, j, handler.spec);
          return Some(0);
        }
    }
    v := None;
  }

  // ---------------------------------------------------------------- what the answer means

  ghost predicate NoErrors(items: seq<Item>) {
    forall i | 0 <= i < |items| :: items[i].Arrived?
  }

  /** The devices were complete at some point before any error of the monitor. */
  ghost predicate CompleteFirst(items: seq<Item>, spec: Spec) {
    exists n: nat :: n <= |items| && NoErrors(items[..n]) && Complete(Devices(items[..n]), spec)
  }

  /** The monitor's first error was e, and the devices were not complete before it. */
  ghost predicate ErrorFirst(items: seq<Item>, e: Errno, spec: Spec) {
    exists n: nat :: n < |items| && ErrorAt(items, n, e) && !CompleteFirst(items[..n], spec)
  }

  ghost predicate SomeErrorFirst(items: seq<Item>, spec: Spec) {
    exists e: Errno :: ErrorFirst(items, e, spec)
  }

  ghost predicate ErrorAt(items: seq<Item>, n: nat, e: Errno)
    requires n < |items|
  {
    items[n] == MonitorError(e) && NoErrors(items[..n])
  }

  lemma {:induction false} NoErrorVerdict(items: seq<Item>, spec: Spec)
    requires NoErrors(items)
    ensures Verdict(items, spec).Some? ==> Verdict(items, spec) == Some(0)
    ensures Complete(Devices(items), spec) ==> Verdict(items, spec) == Some(0)
    decreases |items|
  {
    if items != [] { NoErrorVerdict(items[..|items| - 1], spec); }
  }

  lemma VerdictPrefix(items: seq<Item>, n: nat, spec: Spec)
    requires n <= |items| && Verdict(items[..n], spec).Some?
    ensures Verdict(items, spec) == Verdict(items[..n], spec)
  {
    hide Verdict;
    VerdictStays(items[..n], items[n..], spec);
    assert items[..n] + items[n..] == items;
  }

  lemma VerdictUnfold(items: seq<Item>, spec: Spec)
    requires items != []
    ensures var before, last := Verdict(items[..|items| - 1], spec), items[|items| - 1];
            Verdict(items, spec) ==
              if before.Some? then before
              else if last.MonitorError? then Some(Negated(last.errno))
              else if Complete(Devices(items), spec) then Some(0) else None
  {
  }

  /** The item that gave the verdict: the first error, or the one that completed the devices. */
  ghost predicate Decides(items: seq<Item>, n: nat, verdict: Option<int>, spec: Spec)
    requires n < |items|
  {
    && NoErrors(items[..n]) && Verdict(items[..n], spec).None?
    && (items[n].MonitorError? ==> verdict == Some(Negated(items[n].errno)))
    && (items[n].Arrived? ==> verdict == Some(0) && Complete(Devices(items[..n + 1]), spec))
  }

  lemma DecidesLonger(items: seq<Item>, m: nat, n: nat, verdict: Option<int>, spec: Spec)
    requires n < m <= |items| && Decides(items[..m], n, verdict, spec)
    ensures Decides(items, n, verdict, spec)
  {
    assert items[..m][..n] == items[..n] && items[..m][..n + 1] == items[..n + 1];
  }

  lemma VerdictNeedsItems(items: seq<Item>, spec: Spec)
    requires Verdict(items, spec).Some?
    ensures items != []
  {
  }

  lemma DecidesLast(items: seq<Item>, spec: Spec)
    requires items != [] && Verdict(items, spec).Some? && Verdict(items[..|items| - 1], spec).None?
    ensures Decides(items, |items| - 1, Verdict(items, spec), spec)
  {
    hide Complete; hide Devices; hide Verdict; hide Negated;
    VerdictUnfold(items, spec);
    NoVerdictNoErrors(items[..|items| - 1], spec);
    assert items[..|items| - 1 + 1] == items;
  }

  lemma {:induction false} VerdictAt(items: seq<Item>, spec: Spec) returns (n: nat)
    requires Verdict(items, spec).Some?
    ensures n < |items| && Decides(items, n, Verdict(items, spec), spec)
    decreases |items|
  {
    hide Complete; hide Devices; hide Verdict; hide Negated; hide Decides; hide NoErrors;
    VerdictNeedsItems(items, spec);
    var m := |items| - 1;
    if Verdict(items[..m], spec).Some? {
      VerdictUnfold(items, spec);
      n := VerdictAt(items[..m], spec);
      DecidesLonger(items, m, n, Verdict(items, spec), spec);
    } else {
      n := m;
      DecidesLast(items, spec);
    }
  }

  lemma {:induction false} NoVerdictNoErrors(items: seq<Item>, spec: Spec)
    requires Verdict(items, spec).None?
    ensures NoErrors(items)
    decreases |items|
  {
    if items != [] {
      hide Complete; hide Devices; hide Verdict;
      VerdictUnfold(items, spec);
      NoVerdictNoErrors(items[..|items| - 1], spec);
    }
  }

  lemma CompletePrefix(items: seq<Item>, n: nat, spec: Spec)
    requires n <= |items| && NoErrors(items[..n]) && Complete(Devices(items[..n]), spec)
    ensures Verdict(items, spec) == Some(0)
  {
    hide Complete; hide Devices; hide Verdict;
    NoErrorVerdict(items[..n], spec);
    VerdictPrefix(items, n, spec);
  }

  lemma CompleteVerdict(items: seq<Item>, spec: Spec)
    ensures CompleteFirst(items, spec) <==> Verdict(items, spec) == Some(0)
  {
    hide Complete; hide Devices; hide Verdict;
    if n: nat :| n <= |items| && NoErrors(items[..n]) && Complete(Devices(items[..n]), spec) {
      CompletePrefix(items, n, spec);
    }
    if Verdict(items, spec) == Some(0) {
      var n := VerdictAt(items, spec);
      assert items[n].Arrived?;
      assert forall k | 0 <= k < n :: items[k] == items[..n][k];
      assert NoErrors(items[..n + 1]);
    }
  }

  lemma ErrorVerdict(items: seq<Item>, e: Errno, spec: Spec)
    ensures ErrorFirst(items, e, spec) <==> Verdict(items, spec) == Some(Negated(e))
  {
    if n: nat :| n < |items| && ErrorAt(items, n, e) && !CompleteFirst(items[..n], spec) {
      CompleteVerdict(items[..n], spec);
      NoErrorVerdict(items[..n], spec);
      assert items[..n + 1][..n] == items[..n];
      VerdictPrefix(items, n + 1, spec);
    }
    if Verdict(items, spec) == Some(Negated(e)) {
      var n := VerdictAt(items, spec);
      CompleteVerdict(items[..n], spec);
      assert ErrorAt(items, n, e);
    }
  }

  lemma SomeVerdict(items: seq<Item>, spec: Spec)
    ensures Verdict(items, spec).Some? <==> CompleteFirst(items, spec) || SomeErrorFirst(items, spec)
  {
    hide Complete; hide Devices; hide Verdict; hide CompleteFirst; hide ErrorFirst;
    CompleteVerdict(items, spec);
    if Verdict(items, spec).Some? {
      var n := VerdictAt(items, spec);
      if items[n].MonitorError? { ErrorVerdict(items, items[n].errno, spec); }
    }
    if e: Errno :| ErrorFirst(items, e, spec) { ErrorVerdict(items, e, spec); }
  }

  lemma {:induction false} AnsweredExactly(rounds: seq<Round>)
    ensures Answered(rounds) <==> exists i | 0 <= i < |rounds| :: rounds[i].sysfs
    decreases |rounds|
  {
    if rounds != [] { AnsweredExactly(rounds[..|rounds| - 1]); }
  }

  /**
   The pair that wait_for_mapping() documents: not mapped, with the kernel's error, exactly when the
   kernel failed; mapped, with 0 or the monitor's error, exactly when it succeeded and the devices
   came, or the monitor failed first.
   */
  ghost predicate AnswersAsPromised(r: Outcome, rounds: seq<Round>, value: int, spec: Spec) {
    var answered := exists i | 0 <= i < |rounds| :: rounds[i].sysfs;
    var items := AllItems(rounds);
    && (r.NotMapped? <==> answered && value < 0)
    && (r.NotMapped? ==> r.error == value)
    && (r == IsMapped(0) <==> answered && value == 0 && CompleteFirst(items, spec))
    && (forall e: Errno :: r == IsMapped(Negated(e)) <==> answered && value == 0 && ErrorFirst(items, e, spec))
    && (r.IsMapped? ==> r.udev <= 0)
    && (r.AssertFailed? <==> answered && value > 0 && (CompleteFirst(items, spec) || SomeErrorFirst(items, spec)))
  }

  lemma DueAsPromised(rounds: seq<Round>, value: int, spec: Spec)
    ensures AnswersAsPromised(Due(rounds, value, spec), rounds, value, spec)
  {
    hide CompleteFirst; hide ErrorFirst; hide Verdict; hide AllItems; hide Answered;
    AnsweredExactly(rounds);
    CompleteVerdict(AllItems(rounds), spec);
    SomeVerdict(AllItems(rounds), spec);
    forall e: Errno
      ensures ErrorFirst(AllItems(rounds), e, spec) <==> Verdict(AllItems(rounds), spec) == Some(Negated(e))
    {
      ErrorVerdict(AllItems(rounds), e, spec);
    }
  }

  /** What the first n rounds have delivered determines what the loop has returned by then. */
  ghost function Due(rounds: seq<Round>, value: int, spec: Spec): Outcome {
    Answer(if Answered(rounds) then Some(value) else None, Verdict(AllItems(rounds), spec))
  }

  lemma RoundAdded(rounds: seq<Round>, n: nat)
    requires n < |rounds|
    ensures AllItems(rounds[..n + 1]) == AllItems(rounds[..n]) + rounds[n].items
    ensures Answered(rounds[..n + 1]) <==> Answered(rounds[..n]) || rounds[n].sysfs
  {
    assert rounds[..n + 1][..n] == rounds[..n];
  }

  /** Once an answer is due, later rounds do not change it. */
  lemma {:induction false} DueStays(rounds: seq<Round>, n: nat, value: int, spec: Spec)
    requires n <= |rounds| && !Due(rounds[..n], value, spec).Waiting?
    ensures Due(rounds, value, spec) == Due(rounds[..n], value, spec)
    decreases |rounds| - n
  {
    if n == |rounds| {
      assert rounds[..n] == rounds;
    } else {
      RoundAdded(rounds, n);
      if Verdict(AllItems(rounds[..n]), spec).Some? {
        VerdictStays(AllItems(rounds[..n]), rounds[n].items, spec);
      }
      DueStays(rounds, n + 1, value, spec);
    }
  }

  lemma NothingYet(spec: Spec)
    ensures !Answered([]) && AllItems([]) == [] && Devices([]) == [] && Verdict([], spec).None?
  {
  }

  /** wait_for_mapping(), over any sequence of returns of poll(). */
  method WaitForMapping(rounds: seq<Round>, value: int, spec: Spec) returns (r: Outcome)
    ensures value != INT_MAX ==> r == Due(rounds, value, spec) && AnswersAsPromised(r, rounds, value, spec)
  {
    hide AnswersAsPromised; hide Verdict; hide AllItems; hide Answered; hide Devices;
    DueAsPromised(rounds, value, spec);
    NothingYet(spec);
    var handler := new UdevMapHandler(spec);
    var sysfsR, udevR := INT_MAX, INT_MAX;
    var sysfsOpen, udevOpen := true, true;
    for i := 0 to |rounds|
      invariant handler.spec == spec && fresh(handler)
      invariant value != INT_MAX ==> Due(rounds[..i], value, spec).Waiting?
      invariant sysfsOpen == !Answered(rounds[..i])
      invariant sysfsR == if sysfsOpen then INT_MAX else value
      invariant udevOpen ==> handler.Valid() && handler.seen == Devices(AllItems(rounds[..i]))
      invariant udevOpen == Verdict(AllItems(rounds[..i]), spec).None?
      invariant udevR == if udevOpen then INT_MAX else Verdict(AllItems(rounds[..i]), spec).value
      invariant !udevOpen ==> udevR != INT_MAX
    {
      RoundAdded(rounds, i);
      ghost var before := AllItems(rounds[..i]);
      if !udevOpen { VerdictStays(before, rounds[i].items, spec); }
      if sysfsOpen && rounds[i].sysfs {
        sysfsR := value;
        if sysfsR < 0 {
          DueStays(rounds, i + 1, value, spec);
          return NotMapped(sysfsR);
        }
        if udevR != INT_MAX {
          DueStays(rounds, i + 1, value, spec);
          return if sysfsR == 0 then IsMapped(udevR) else AssertFailed;
        }
        sysfsOpen := false;
      }
      if udevOpen {
        var v := Drain(handler, rounds[i].items, before);
        if v.Some? {
          udevR := v.value;
          if sysfsR != INT_MAX {
            DueStays(rounds, i + 1, value, spec);
            return if sysfsR == 0 then IsMapped(udevR) else AssertFailed;
          }
          udevOpen := false;
        }
      }
    }
    assert rounds[..|rounds|] == rounds;
    r := Waiting;
  }
}
