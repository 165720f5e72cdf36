/**
 Rebuilding a file from the bricks of a striped volume, in the coalesced format (each source holds
 its own stripes back to back) and in the traditional one (each source holds its own stripes at
 their original offsets). A source may be missing; the target file may already exist.
 */
module StripeMerge {
  import opened Wrappers
  import opened Bytes
  import opened Arithmetic

  /** The unread part of each source, or None for a missing file. */
  type Sources = seq<Option<seq<Byte>>>

  ghost predicate SomePresent(fds: Sources) {
    exists j | 0 <= j < |fds| :: fds[j].Some?
  }

  function Present(fds: Sources): set<nat> {
    set j: nat | j < |fds| && fds[j].Some?
  }

  function Taken(size: nat, rest: seq<Byte>): nat {
    if |rest| < size then |rest| else size
  }

  function Advance(fds: Sources, i: nat, n: nat): Sources
    requires i < |fds| && (fds[i].Some? ==> n <= |fds[i].value|)
  {
    if fds[i].None? then fds else fds[i := Some(fds[i].value[n..])]
  }

  /** The source after i, going round. */
  function Next(i: nat, n: nat): (k: nat)
    requires i < n
    ensures k == if i + 1 == n then 0 else i + 1
  {
    (i + 1) % n
  }

  // ---------------------------------------------------------------- coalesced format

  /** The sources hold `rest`, dealt out round robin in pieces of `size`, beginning with source i. */
  ghost predicate Dealt(rest: seq<Byte>, size: nat, fds: Sources, i: nat)
    requires size > 0 && i < |fds|
    decreases |rest|
  {
    if rest == [] then forall j | 0 <= j < |fds| && fds[j].Some? :: fds[j].value == []
    else
      var c := Taken(size, rest);
      && (fds[i].Some? ==> c <= |fds[i].value| && fds[i].value[..c] == rest[..c])
      && Dealt(rest[c..], size, Advance(fds, i, c), Next(i, |fds|))
  }

  /** What remains to be done to the target: pieces of present sources are written, others skipped. */
  function Recover(target: seq<Byte>, pos: nat, rest: seq<Byte>, size: nat, n: nat, present: set<nat>, i: nat): seq<Byte>
    requires size > 0 && i < n
    decreases |rest|
  {
    if rest == [] then target
    else
      var c := Taken(size, rest);
      Recover(if i in present then WriteAt(target, pos, rest[..c]) else target,
              pos + size, rest[c..], size, n, present, Next(i, n))
  }

  function Unread(fds: Sources): nat {
    if fds == [] then 0
    else (if fds[0].Some? then |fds[0].value| else 0) + Unread(fds[1..])
  }

  lemma {:induction false} UnreadShrinks(fds: Sources, i: nat, n: nat)
    requires i < |fds| && fds[i].Some? && n <= |fds[i].value|
    ensures Unread(Advance(fds, i, n)) == Unread(fds) - n
    decreases |fds|
  {
    var fds' := Advance(fds, i, n);
    if i == 0 {
      assert fds'[1..] == fds[1..];
    } else {
      assert fds'[1..] == Advance(fds[1..], i - 1, n);
      UnreadShrinks(fds[1..], i - 1, n);
    }
  }

  /** Steps from i to the source p, going round. */
  function StepsTo(p: nat, i: nat, n: nat): nat
    requires p < n && i < n
  {
    if i <= p then p - i else p + n - i
  }

  /** Where the copy loop stands: the sources hold the rest, and finishing it gives `want`. */
  ghost predicate OnTrack(want: seq<Byte>, target: seq<Byte>, pos: nat, rest: seq<Byte>, size: nat,
                          fds: Sources, present: set<nat>, i: nat)
  {
    && size > 0 && i < |fds| && Dealt(rest, size, fds, i)
    && Recover(target, pos, rest, size, |fds|, present, i) == want
  }

  lemma DealtStep(rest: seq<Byte>, size: nat, fds: Sources, i: nat)
    requires size > 0 && i < |fds| && Dealt(rest, size, fds, i) && rest != [] && fds[i].Some?
    ensures var c := Taken(size, rest);
            && c == Taken(size, fds[i].value) && fds[i].value[..c] == rest[..c]
            && Dealt(rest[c..], size, Advance(fds, i, c), Next(i, |fds|))
  {
    var c := Taken(size, rest);
    var fds' := Advance(fds, i, c);
    if c < size {
      assert rest[c..] == [] && Dealt([], size, fds', Next(i, |fds|));
      assert fds'[i].Some? && fds'[i].value == [];
    }
  }

  lemma RecoverStep(target: seq<Byte>, pos: nat, rest: seq<Byte>, size: nat, n: nat, present: set<nat>, i: nat)
    requires size > 0 && i < n && rest != [] && i in present
    ensures var c := Taken(size, rest);
            Recover(target, pos, rest, size, n, present, i)
            == Recover(WriteAt(target, pos, rest[..c]), pos + c, rest[c..], size, n, present, Next(i, n))
  {
    hide WriteAt;
    var c := Taken(size, rest);
    if c < size {
      assert rest[c..] == [];
    }
  }

  /** Reading a present source yields the next piece of the file, or nothing at its end. */
  lemma CopyStep(want: seq<Byte>, target: seq<Byte>, pos: nat, rest: seq<Byte>, size: nat,
                 fds: Sources, present: set<nat>, i: nat)
    requires OnTrack(want, target, pos, rest, size, fds, present, i) && fds[i].Some? && i in present
    ensures var r := Taken(size, fds[i].value);
            && r == Taken(size, rest)
            && (r == 0 ==> target == want)
            && (r > 0 ==> OnTrack(want, WriteAt(target, pos, fds[i].value[..r]), pos + r, rest[r..], size,
                                  Advance(fds, i, r), present, Next(i, |fds|)))
  {
    hide WriteAt;
    if rest != [] {
      hide Dealt; hide Recover; hide Advance;
      DealtStep(rest, size, fds, i);
      RecoverStep(target, pos, rest, size, |fds|, present, i);
    }
  }

  lemma AtStart(old0: seq<Byte>, file: seq<Byte>, size: nat, fds: Sources, present: set<nat>)
    requires size > 0 && fds != [] && Dealt(file, size, fds, 0)
    ensures OnTrack(Recover(old0, 0, file, size, |fds|, present, 0), old0, 0, file, size, fds, present, 0)
  {
  }

  lemma SkipStep(want: seq<Byte>, target: seq<Byte>, pos: nat, rest: seq<Byte>, size: nat,
                 fds: Sources, present: set<nat>, i: nat)
    requires OnTrack(want, target, pos, rest, size, fds, present, i) && fds[i].None? && i !in present
    ensures OnTrack(want, target, pos + size, rest[Taken(size, rest)..], size, fds, present, Next(i, |fds|))
  {
  }

  /**
   generate_file_coalesce(): copy a piece from each source in turn, seek past the pieces of
   missing sources, and stop at the first source that has no more.
   */
  method GenerateCoalesced(sources: Sources, size: nat, old0: seq<Byte>, ghost file: seq<Byte>)
    returns (target: seq<Byte>)
    requires SomePresent(sources)
    ensures size > 0 && Dealt(file, size, sources, 0) ==>
              target == Recover(old0, 0, file, size, |sources|, Present(sources), 0)
  {
    hide OnTrack;
    ghost var p: nat :| p < |sources| && sources[p].Some?;
    ghost var present := Present(sources);
    ghost var good := size > 0 && Dealt(file, size, sources, 0);
    ghost var want := if good then Recover(old0, 0, file, size, |sources|, present, 0) else [];
    if good { AtStart(old0, file, size, sources, present); }
    ghost var rest := file;
    var fds, pos: nat, i: nat := sources, 0, 0;
    target := old0;
    while true
      invariant |fds| == |sources| && i < |fds|
      invariant forall j: nat | j < |fds| :: fds[j].Some? <==> j in present
      invariant good ==> OnTrack(want, target, pos, rest, size, fds, present, i)
      decreases Unread(fds), StepsTo(p, i, |fds|)
    {
      if fds[i].None? {
        if good {
          SkipStep(want, target, pos, rest, size, fds, present, i);
          rest := rest[Taken(size, rest)..];
        }
        pos := pos + size;
        i := Next(i, |fds|);
        continue;
      }
      var r := Taken(size, fds[i].value);
      if good {
        CopyStep(want, target, pos, rest, size, fds, present, i);
        rest := rest[r..];
      }
      if r == 0 {
        break;
      }
      UnreadShrinks(fds, i, r);
      target := WriteAt(target, pos, fds[i].value[..r]);
      pos := pos + r;
      fds := Advance(fds, i, r);
      i := Next(i, |fds|);
    }
  }

  /** The source that a byte at offset q belongs to. */
  function OwnerOf(q: nat, size: nat, count: nat): (j: nat)
    requires size > 0 && count > 0
    ensures j < count
  {
    q / size % count
  }

  /** Offset q lies in the file and its source is there. */
  predicate Recoverable(file: seq<Byte>, size: nat, n: nat, present: set<nat>, q: nat)
    requires size > 0 && n > 0
  {
    q < |file| && OwnerOf(q, size, n) in present
  }

  /** The byte at q when everything recoverable from `from` on is laid over the old target. */
  function ByteOver(old0: seq<Byte>, from: nat, file: seq<Byte>, size: nat, n: nat, present: set<nat>, q: nat): Byte
    requires size > 0 && n > 0
  {
    if from <= q && Recoverable(file, size, n, present, q) then file[q]
    else if q < |old0| then old0[q] else 0
  }

  /** What a recovered file is, byte by byte, whatever the target held before. */
  ghost predicate RecoveredOver(out: seq<Byte>, old0: seq<Byte>, from: nat,
                                file: seq<Byte>, size: nat, n: nat, present: set<nat>)
    requires size > 0 && n > 0
  {
    && (forall q: nat | q < |out| ::
          out[q] == ByteOver(old0, from, file, size, n, present, q))
    && (forall q: nat :: q < |out| <==> Within(old0, from, file, size, n, present, q))
  }

  /** Offset q lies in the old target, or at or before a byte that is recovered. */
  ghost predicate Within(old0: seq<Byte>, from: nat, file: seq<Byte>, size: nat, n: nat, present: set<nat>, q: nat)
    requires size > 0 && n > 0
  {
    q < |old0| || ReachedFrom(file, size, n, present, from, q)
  }

  /** Some byte at or after q, and at or after `from`, comes from a present source. */
  ghost predicate ReachedFrom(file: seq<Byte>, size: nat, n: nat, present: set<nat>, from: nat, q: nat)
    requires size > 0 && n > 0
  {
    exists k: nat | q <= k && from <= k :: Recoverable(file, size, n, present, k)
  }

  lemma InBlock(t: nat, size: nat, q: nat)
    requires size > 0 && t * size <= q < t * size + size
    ensures q / size == t
  {
    DivModUnique(q, size, t, q - t * size);
  }

  lemma NextBlock(t: nat, n: nat)
    requires n > 0
    ensures (t + 1) % n == Next(t % n, n)
  {
    var k, r := t / n, t % n;
    if r + 1 == n {
      DivModUnique(t + 1, n, k + 1, 0);
    } else {
      DivModUnique(t + 1, n, k, r + 1);
    }
  }

  /** All bytes of block t have the same source. */
  lemma BlockOwner(t: nat, file: seq<Byte>, size: nat, n: nat, present: set<nat>, q: nat)
    requires size > 0 && n > 0 && t * size <= q < t * size + size
    ensures Recoverable(file, size, n, present, q) <==> q < |file| && t % n in present
  {
    InBlock(t, size, q);
  }

  function Tail(file: seq<Byte>, from: nat): seq<Byte> {
    if from <= |file| then file[from..] else []
  }

  /** The target after block t has been dealt with. */
  function AfterBlock(target: seq<Byte>, t: nat, file: seq<Byte>, size: nat, n: nat, present: set<nat>): seq<Byte>
    requires size > 0 && n > 0 && t * size < |file|
  {
    var rest := file[t * size..];
    if t % n in present then WriteAt(target, t * size, rest[..Taken(size, rest)]) else target
  }

  lemma ReachedStep(target: seq<Byte>, t: nat, file: seq<Byte>, size: nat, n: nat, present: set<nat>, q: nat)
    requires size > 0 && n > 0 && t * size < |file|
    ensures (q < |target| || ReachedFrom(file, size, n, present, t * size, q)) <==>
            (q < |AfterBlock(target, t, file, size, n, present)| ||
             ReachedFrom(file, size, n, present, (t + 1) * size, q))
  {
    var from := t * size;
    assert (t + 1) * size == from + size;
    var c := Taken(size, file[from..]);
    BlockOwner(t, file, size, n, present, from + c - 1);
    forall k: nat | from <= k < from + size
      ensures Recoverable(file, size, n, present, k) <==> k < |file| && t % n in present
    {
      BlockOwner(t, file, size, n, present, k);
    }
  }

  lemma AfterBlockAt(target: seq<Byte>, t: nat, file: seq<Byte>, size: nat, n: nat, present: set<nat>, q: nat)
    requires size > 0 && n > 0 && t * size < |file|
    ensures var target' := AfterBlock(target, t, file, size, n, present);
            && |target| <= |target'|
            && (t % n in present && t * size <= q < t * size + size && q < |file| ==> q < |target'|)
            && (q < |target'| ==>
                  target'[q] == if t % n in present && t * size <= q < t * size + size && q < |file| then file[q]
                                else if q < |target| then target[q] else 0)
  {
    var from := t * size;
    var rest := file[from..];
    var c := Taken(size, rest);
    assert from + c <= |file| && (from + c == |file| || c == size);
    assert from <= q < from + c ==> rest[..c][q - from] == file[q];
  }

  lemma ByteStep(target: seq<Byte>, t: nat, file: seq<Byte>, size: nat, n: nat, present: set<nat>, q: nat)
    requires size > 0 && n > 0 && t * size < |file|
    ensures ByteOver(AfterBlock(target, t, file, size, n, present), (t + 1) * size, file, size, n, present, q)
         == ByteOver(target, t * size, file, size, n, present, q)
  {
    assert (t + 1) * size == t * size + size;
    AfterBlockAt(target, t, file, size, n, present, q);
    if t * size <= q < t * size + size {
      BlockOwner(t, file, size, n, present, q);
    }
  }

  /** Two descriptions of the same bytes describe the same recovered file. */
  lemma RecoveredCarries(out: seq<Byte>, a: seq<Byte>, from: nat, b: seq<Byte>, to: nat,
                         file: seq<Byte>, size: nat, n: nat, present: set<nat>)
    requires size > 0 && n > 0 && RecoveredOver(out, b, to, file, size, n, present)
    requires forall q: nat :: Within(a, from, file, size, n, present, q) <==> Within(b, to, file, size, n, present, q)
    requires forall q: nat :: ByteOver(a, from, file, size, n, present, q) == ByteOver(b, to, file, size, n, present, q)
    ensures RecoveredOver(out, a, from, file, size, n, present)
  {
    hide Within; hide ByteOver;
  }

  lemma RecoveredStep(out: seq<Byte>, target: seq<Byte>, t: nat, file: seq<Byte>, size: nat, n: nat, present: set<nat>)
    requires size > 0 && n > 0 && t * size < |file|
    requires RecoveredOver(out, AfterBlock(target, t, file, size, n, present), (t + 1) * size, file, size, n, present)
    ensures RecoveredOver(out, target, t * size, file, size, n, present)
  {
    hide AfterBlock; hide ByteOver; hide ReachedFrom; hide RecoveredOver;
    var target', from, to := AfterBlock(target, t, file, size, n, present), t * size, (t + 1) * size;
    forall q: nat
      ensures Within(target, from, file, size, n, present, q) <==> Within(target', to, file, size, n, present, q)
    {
      ReachedStep(target, t, file, size, n, present, q);
    }
    forall q: nat
      ensures ByteOver(target, from, file, size, n, present, q) == ByteOver(target', to, file, size, n, present, q)
    {
      ByteStep(target, t, file, size, n, present, q);
    }
    RecoveredCarries(out, target, from, target', to, file, size, n, present);
  }

  /** Recovery from block t on. */
  function RecoverFrom(target: seq<Byte>, t: nat, file: seq<Byte>, size: nat, n: nat, present: set<nat>): seq<Byte>
    requires size > 0 && n > 0
  {
    Recover(target, t * size, Tail(file, t * size), size, n, present, t % n)
  }

  lemma RecoverUnfold(target: seq<Byte>, t: nat, file: seq<Byte>, size: nat, n: nat, present: set<nat>)
    requires size > 0 && n > 0 && t * size < |file|
    ensures RecoverFrom(target, t, file, size, n, present)
         == RecoverFrom(AfterBlock(target, t, file, size, n, present), t + 1, file, size, n, present)
  {
    assert (t + 1) * size == t * size + size;
    var rest := Tail(file, t * size);
    assert Tail(file, (t + 1) * size) == rest[Taken(size, rest)..];
    NextBlock(t, n);
  }

  /** The recovery loop from block t on, seen byte by byte. */
  lemma {:induction false} RecoverBytes(target: seq<Byte>, t: nat, file: seq<Byte>, size: nat, n: nat, present: set<nat>)
    requires size > 0 && n > 0
    ensures RecoveredOver(RecoverFrom(target, t, file, size, n, present), target, t * size, file, size, n, present)
    decreases |file| - t * size
  {
    if t * size < |file| {
      var target' := AfterBlock(target, t, file, size, n, present);
      RecoverUnfold(target, t, file, size, n, present);
      assert (t + 1) * size == t * size + size;
      RecoverBytes(target', t + 1, file, size, n, present);
      RecoveredStep(RecoverFrom(target', t + 1, file, size, n, present), target, t, file, size, n, present);
    } else {
      assert forall q: nat :: !ReachedFrom(file, size, n, present, t * size, q);
    }
  }

  /** The recovered file reaches as far as the old target or the last recoverable byte. */
  lemma RecoveredLength(out: seq<Byte>, old0: seq<Byte>, file: seq<Byte>, size: nat, n: nat, present: set<nat>, q: nat)
    requires size > 0 && n > 0 && RecoveredOver(out, old0, 0, file, size, n, present)
    ensures q < |out| <==> (q < |old0| || ReachedFrom(file, size, n, present, 0, q))
  {
    assert q < |out| <==> Within(old0, 0, file, size, n, present, q);
  }

  /**
   Coalesced recovery, for any subset of the sources: every offset of a present source holds the
   file's byte, and every other offset what the target held before, or zero.
   */
  lemma CoalescedRecovery(old0: seq<Byte>, file: seq<Byte>, size: nat, n: nat, present: set<nat>)
    requires size > 0 && n > 0
    ensures RecoveredOver(Recover(old0, 0, file, size, n, present, 0), old0, 0, file, size, n, present)
  {
    hide Recover; hide RecoveredOver;
    RecoverBytes(old0, 0, file, size, n, present);
    assert Tail(file, 0) == file;
  }

  ghost predicate AllPresent(n: nat, present: set<nat>) {
    forall j: nat | j < n :: j in present
  }

  lemma AllReached(file: seq<Byte>, size: nat, n: nat, present: set<nat>, q: nat)
    requires size > 0 && n > 0 && AllPresent(n, present)
    ensures ReachedFrom(file, size, n, present, 0, q) <==> q < |file|
  {
    assert q < |file| ==> Recoverable(file, size, n, present, q);
  }

  /** With every source there, recovery gives back the file exactly when the old target was no longer. */
  lemma FullRecoveryExactly(old0: seq<Byte>, file: seq<Byte>, size: nat, n: nat, present: set<nat>)
    requires size > 0 && n > 0 && AllPresent(n, present)
    ensures Recover(old0, 0, file, size, n, present, 0) == file <==> |old0| <= |file|
  {
    var out := Recover(old0, 0, file, size, n, present, 0);
    CoalescedRecovery(old0, file, size, n, present);
    AllReached(file, size, n, present, |file|);
    AllReached(file, size, n, present, |out|);
    RecoveredLength(out, old0, file, size, n, present, |file|);
    RecoveredLength(out, old0, file, size, n, present, |out|);
  }

  /** Striping in the coalesced format: pieces of `size` go to the sources in turn. */
  function Deal(rest: seq<Byte>, size: nat, n: nat, i: nat): (stripes: seq<seq<Byte>>)
    requires size > 0 && i < n
    ensures |stripes| == n
    decreases |rest|
  {
    if rest == [] then seq(n, _ => [])
    else
      var c := Taken(size, rest);
      var later := Deal(rest[c..], size, n, Next(i, n));
      later[i := rest[..c] + later[i]]
  }

  /** The stripes whose files are there. */
  function Keep(stripes: seq<seq<Byte>>, present: set<nat>): Sources {
    seq(|stripes|, j requires 0 <= j < |stripes| => if j in present then Some(stripes[j]) else None)
  }

  lemma {:induction false} DealIsDealt(rest: seq<Byte>, size: nat, n: nat, i: nat, present: set<nat>)
    requires size > 0 && i < n
    ensures Dealt(rest, size, Keep(Deal(rest, size, n, i), present), i)
    decreases |rest|
  {
    if rest != [] {
      var c := Taken(size, rest);
      var later := Deal(rest[c..], size, n, Next(i, n));
      var fds := Keep(Deal(rest, size, n, i), present);
      DealIsDealt(rest[c..], size, n, Next(i, n), present);
      assert Advance(fds, i, c) == Keep(later, present);
    }
  }

  /** The copy loop undoes round-robin striping, for every file, piece size and number of sources. */
  lemma StripingRoundTrip(file: seq<Byte>, size: nat, n: nat, present: set<nat>)
    requires size > 0 && n > 0 && AllPresent(n, present)
    ensures var fds := Keep(Deal(file, size, n, 0), present);
            Dealt(file, size, fds, 0) && Recover([], 0, file, size, |fds|, Present(fds), 0) == file
  {
    var fds := Keep(Deal(file, size, n, 0), present);
    DealIsDealt(file, size, n, 0, present);
    FullRecoveryExactly([], file, size, n, Present(fds));
  }

  // ---------------------------------------------------------------- traditional format

  /** The byte of one source at offset q; past its end, or without the file, it reads as zero. */
  function ByteAt(fd: Option<seq<Byte>>, q: nat): Byte {
    if fd.Some? && q < |fd.value| then fd.value[q] else 0
  }

  function OrAt(fds: Sources, q: nat): Byte {
    if fds == [] then 0 else OrAt(fds[..|fds| - 1], q) | ByteAt(fds[|fds| - 1], q)
  }

  function MaxLen(fds: Sources): nat {
    if fds == [] then 0
    else
      var m, fd := MaxLen(fds[..|fds| - 1]), fds[|fds| - 1];
      if fd.Some? && |fd.value| > m then |fd.value| else m
  }

  /** All sources laid over each other. */
  function OrAll(fds: Sources): seq<Byte> {
    seq(MaxLen(fds), q requires 0 <= q => OrAt(fds, q))
  }

  /** What read() returns for one source at pos. */
  function Got(fd: Option<seq<Byte>>, pos: nat, block: nat): nat {
    if fd.None? || |fd.value| <= pos then 0
    else if |fd.value| - pos < block then |fd.value| - pos else block
  }

  const BLOCK: nat := 4096

  function Short(len: nat, pos: nat): nat {
    if len <= pos then 0 else if len - pos < BLOCK then len - pos else BLOCK
  }

  /** The read loop over the sources: the longest read of this block. */
  method LongestRead(fds: Sources, pos: nat) returns (maxRet: nat)
    ensures maxRet == Short(MaxLen(fds), pos)
  {
    maxRet := 0;
    for i := 0 to |fds|
      invariant maxRet == Short(MaxLen(fds[..i]), pos)
    {
      assert fds[..i + 1][..i] == fds[..i];
      var ret := Got(fds[i], pos, BLOCK);
      if ret > maxRet {
        maxRet := ret;
      }
    }
    assert fds[..|fds|] == fds;
  }

  /** The two inner loops: bytewise OR of one block of all sources. */
  method OrBlock(fds: Sources, pos: nat, len: nat) returns (buf: seq<Byte>)
    ensures |buf| == len && forall k | 0 <= k < len :: buf[k] == OrAt(fds, pos + k)
  {
    buf := [];
    for i := 0 to len
      invariant |buf| == i && forall k | 0 <= k < i :: buf[k] == OrAt(fds, pos + k)
    {
      var b: Byte := 0;
      for j := 0 to |fds|
        invariant b == OrAt(fds[..j], pos + i)
      {
        assert fds[..j + 1][..j] == fds[..j];
        b := b | ByteAt(fds[j], pos + i);
      }
      assert fds[..|fds|] == fds;
      buf := buf + [b];
    }
  }

  /** generate_file_traditional(): the target starts with the OR of all sources. */
  method GenerateTraditional(fds: Sources, old0: seq<Byte>) returns (target: seq<Byte>)
    ensures target == WriteAt(old0, 0, OrAll(fds))
  {
    target := old0;
    var pos: nat := 0;
    var maxRet: nat := 1;
    while maxRet != 0
      invariant pos <= MaxLen(fds) && target == WriteAt(old0, 0, OrAll(fds)[..pos])
      invariant maxRet == 0 ==> pos == MaxLen(fds)
      decreases maxRet != 0, MaxLen(fds) - pos
    {
      maxRet := LongestRead(fds, pos);
      var buf := OrBlock(fds, pos, maxRet);
      WriteContinues(old0, OrAll(fds), pos, buf);
      target := WriteAt(target, pos, buf);
      pos := pos + maxRet;
    }
    assert OrAll(fds)[..pos] == OrAll(fds);
  }

  lemma WriteContinues(old0: seq<Byte>, all: seq<Byte>, pos: nat, buf: seq<Byte>)
    requires pos + |buf| <= |all| && all[pos..pos + |buf|] == buf
    ensures WriteAt(WriteAt(old0, 0, all[..pos]), pos, buf) == WriteAt(old0, 0, all[..pos + |buf|])
  {
  }

  /** Source j of a traditionally striped file: its own stripes in place, zeros elsewhere. */
  ghost predicate InPlace(fd: Option<seq<Byte>>, file: seq<Byte>, size: nat, n: nat, j: nat)
    requires size > 0 && n > 0
  {
    fd.Some? ==>
      && |fd.value| <= |file|
      && (forall q: nat | q < |fd.value| :: fd.value[q] == if OwnerOf(q, size, n) == j then file[q] else 0)
      && (forall q: nat | q < |file| && OwnerOf(q, size, n) == j :: q < |fd.value|)
  }

  ghost predicate AllInPlace(fds: Sources, file: seq<Byte>, size: nat) {
    size > 0 && fds != [] && forall j | 0 <= j < |fds| :: InPlace(fds[j], file, size, |fds|, j)
  }

  lemma OrWithZero(x: Byte)
    ensures x | 0 == x && 0 | x == x
  {
  }

  lemma {:induction false} OrOfOne(fds: Sources, q: nat, j: nat)
    requires forall i | 0 <= i < |fds| && i != j :: ByteAt(fds[i], q) == 0
    ensures OrAt(fds, q) == if j < |fds| then ByteAt(fds[j], q) else 0
    decreases |fds|
  {
    if fds != [] {
      var n := |fds| - 1;
      OrOfOne(fds[..n], q, j);
      OrWithZero(ByteAt(fds[n], q));
      OrWithZero(OrAt(fds[..n], q));
    }
  }

  lemma {:induction false} MaxLenBounds(fds: Sources, q: nat)
    ensures q < MaxLen(fds) <==> exists j | 0 <= j < |fds| :: fds[j].Some? && q < |fds[j].value|
    decreases |fds|
  {
    if fds != [] {
      var n := |fds| - 1;
      MaxLenBounds(fds[..n], q);
      if q < MaxLen(fds[..n]) {
        var j :| 0 <= j < n && fds[..n][j].Some? && q < |fds[..n][j].value|;
        assert fds[j].Some? && q < |fds[j].value|;
      }
    }
  }

  /** The OR at q is the file's byte if its source is there, and zero otherwise. */
  lemma OrRecovers(fds: Sources, file: seq<Byte>, size: nat, q: nat)
    requires AllInPlace(fds, file, size) && q < |file|
    ensures OrAt(fds, q) == if Recoverable(file, size, |fds|, Present(fds), q) then file[q] else 0
  {
    var j := OwnerOf(q, size, |fds|);
    assert InPlace(fds[j], file, size, |fds|, j);
    forall i | 0 <= i < |fds| && i != j
      ensures ByteAt(fds[i], q) == 0
    {
      assert InPlace(fds[i], file, size, |fds|, i);
    }
    OrOfOne(fds, q, j);
  }

  lemma FullReach(fds: Sources, file: seq<Byte>, size: nat, q: nat)
    requires AllInPlace(fds, file, size) && AllPresent(|fds|, Present(fds))
    ensures q < MaxLen(fds) <==> q < |file|
  {
    MaxLenBounds(fds, q);
    if q < |file| {
      var j := OwnerOf(q, size, |fds|);
      assert j in Present(fds) && InPlace(fds[j], file, size, |fds|, j);
    } else {
      assert forall j | 0 <= j < |fds| :: InPlace(fds[j], file, size, |fds|, j);
    }
  }

  /** With every source there, whatever their lengths, the OR is the file. */
  lemma TraditionalFullRecovery(fds: Sources, file: seq<Byte>, size: nat)
    requires AllInPlace(fds, file, size) && AllPresent(|fds|, Present(fds))
    ensures OrAll(fds) == file
  {
    FullReach(fds, file, size, |file|);
    FullReach(fds, file, size, MaxLen(fds));
    forall q | 0 <= q < |file|
      ensures OrAll(fds)[q] == file[q]
    {
      OrRecovers(fds, file, size, q);
    }
  }

  /** Sources reach at least as far as the last byte that one of them owns. */
  lemma OwnReach(fds: Sources, file: seq<Byte>, size: nat, q: nat)
    requires AllInPlace(fds, file, size)
    ensures ReachedFrom(file, size, |fds|, Present(fds), 0, q) ==> q < MaxLen(fds)
    ensures q < MaxLen(fds) ==> q < |file|
  {
    MaxLenBounds(fds, q);
    assert forall j | 0 <= j < |fds| :: InPlace(fds[j], file, size, |fds|, j);
    if ReachedFrom(file, size, |fds|, Present(fds), 0, q) {
      var k: nat :| q <= k && Recoverable(file, size, |fds|, Present(fds), k);
      var j := OwnerOf(k, size, |fds|);
      assert InPlace(fds[j], file, size, |fds|, j);
    }
  }

  /** The OR of the sources laid over the old target: the file where its source is there, zeros in between. */
  ghost predicate Overlaid(out: seq<Byte>, old0: seq<Byte>, fds: Sources, file: seq<Byte>, size: nat)
    requires size > 0 && fds != []
  {
    && |out| == (if |old0| < MaxLen(fds) then MaxLen(fds) else |old0|)
    && forall q: nat | q < |out| ::
         out[q] == if q >= MaxLen(fds) then old0[q]
                   else if Recoverable(file, size, |fds|, Present(fds), q) then file[q] else 0
  }

  /** Traditional recovery from any subset of sources of any lengths, over any old target. */
  lemma TraditionalRecovery(fds: Sources, file: seq<Byte>, size: nat, old0: seq<Byte>)
    requires AllInPlace(fds, file, size)
    ensures Overlaid(WriteAt(old0, 0, OrAll(fds)), old0, fds, file, size)
  {
    hide OrAt; hide MaxLen;
    forall q: nat | q < MaxLen(fds)
      ensures OrAt(fds, q) == if Recoverable(file, size, |fds|, Present(fds), q) then file[q] else 0
    {
      OwnReach(fds, file, size, q);
      OrRecovers(fds, file, size, q);
    }
  }

  /** With every source there, the OR gives back the file exactly when the old target was no longer. */
  lemma TraditionalFullExactly(fds: Sources, file: seq<Byte>, size: nat, old0: seq<Byte>)
    requires AllInPlace(fds, file, size) && AllPresent(|fds|, Present(fds))
    ensures WriteAt(old0, 0, OrAll(fds)) == file <==> |old0| <= |file|
  {
    TraditionalFullRecovery(fds, file, size);
    assert |old0| <= |file| ==> WriteAt(old0, 0, file) == file;
  }

  // ---------------------------------------------------------------- both formats

  /** The longest source ends inside the old target, or with a byte that one of the sources owns. */
  predicate EndsOwned(fds: Sources, file: seq<Byte>, size: nat, old0: seq<Byte>)
    requires size > 0 && fds != []
  {
    MaxLen(fds) <= |old0| || Recoverable(file, size, |fds|, Present(fds), MaxLen(fds) - 1)
  }

  /** What the old target has in the stripes of missing sources, as far as the others reach, is zero. */
  ghost predicate GapsZero(fds: Sources, file: seq<Byte>, size: nat, old0: seq<Byte>)
    requires size > 0 && fds != []
  {
    forall q: nat | q < MaxLen(fds) && q < |old0| ::
      Recoverable(file, size, |fds|, Present(fds), q) || old0[q] == 0
  }

  lemma SameLength(fds: Sources, file: seq<Byte>, size: nat, old0: seq<Byte>, len: nat, b: seq<Byte>)
    requires AllInPlace(fds, file, size) && len == (if |old0| < MaxLen(fds) then MaxLen(fds) else |old0|)
    requires RecoveredOver(b, old0, 0, file, size, |fds|, Present(fds))
    ensures len == |b| <==> EndsOwned(fds, file, size, old0)
  {
    hide InPlace; hide RecoveredOver; hide MaxLen; hide Recoverable; hide Present;
    var n, present := |fds|, Present(fds);
    RecoveredLength(b, old0, file, size, n, present, len);
    OwnReach(fds, file, size, len);
    if len > 0 {
      RecoveredLength(b, old0, file, size, n, present, len - 1);
      if ReachedFrom(file, size, n, present, 0, len - 1) {
        var k: nat :| len - 1 <= k && Recoverable(file, size, n, present, k);
        assert ReachedFrom(file, size, n, present, 0, k);
        OwnReach(fds, file, size, k);
      }
    }
  }

  /**
   Both formats give the same result, for every file, geometry, subset of sources, lengths of
   sources and old target, exactly when the sources end with a byte of their own and the old target
   has nothing in the stripes of missing sources.
   */
  lemma FormatsAgreeExactly(fds: Sources, file: seq<Byte>, size: nat, old0: seq<Byte>)
    requires AllInPlace(fds, file, size)
    ensures WriteAt(old0, 0, OrAll(fds)) == Recover(old0, 0, file, size, |fds|, Present(fds), 0)
            <==> EndsOwned(fds, file, size, old0) && GapsZero(fds, file, size, old0)
  {
    hide Recover; hide OrAll; hide WriteAt; hide Present; hide MaxLen; hide InPlace;
    var n, present := |fds|, Present(fds);
    var a, b := WriteAt(old0, 0, OrAll(fds)), Recover(old0, 0, file, size, n, present, 0);
    TraditionalRecovery(fds, file, size, old0);
    CoalescedRecovery(old0, file, size, n, present);
    SameLength(fds, file, size, old0, |a|, b);
    if |a| == |b| {
      forall q: nat | q < |a|
        ensures a[q] == b[q] <==>
                  (q < MaxLen(fds) && q < |old0| ==> Recoverable(file, size, n, present, q) || old0[q] == 0)
      {
        assert b[q] == ByteOver(old0, 0, file, size, n, present, q);
        OwnReach(fds, file, size, q);
        assert Recoverable(file, size, n, present, q) ==> ReachedFrom(file, size, n, present, 0, q);
      }
      if a == b {
        assert forall q: nat | q < |a| :: a[q] == b[q];
      }
    }
  }

  /** With every source there, the two formats always agree, whatever the target held before. */
  lemma FormatsAgree(fds: Sources, file: seq<Byte>, size: nat, old0: seq<Byte>)
    requires AllInPlace(fds, file, size) && AllPresent(|fds|, Present(fds))
    ensures WriteAt(old0, 0, OrAll(fds)) == Recover(old0, 0, file, size, |fds|, Present(fds), 0)
  {
    FormatsAgreeExactly(fds, file, size, old0);
    FullReach(fds, file, size, |file|);
    FullReach(fds, file, size, MaxLen(fds));
    assert MaxLen(fds) == |file|;
  }

  /** Two sources of a two-byte file, the second missing: the first may run on with a zero, and then they differ. */
  lemma ZeroTailDiffers(b: Byte)
    ensures var fds: Sources := [Some([b, 0]), None];
            AllInPlace(fds, [b, 1], 1) && !EndsOwned(fds, [b, 1], 1, []) &&
            WriteAt([], 0, OrAll(fds)) != Recover([], 0, [b, 1], 1, 2, Present(fds), 0)
  {
    var fds: Sources := [Some([b, 0]), None];
    assert OwnerOf(0, 1, 2) == 0 && OwnerOf(1, 1, 2) == 1;
    assert InPlace(fds[0], [b, 1], 1, 2, 0) && InPlace(fds[1], [b, 1], 1, 2, 1);
    assert fds[..1] == [Some([b, 0])] && fds[..1][..0] == [] && MaxLen(fds[..1]) == 2;
    FormatsAgreeExactly(fds, [b, 1], 1, []);
  }

  /** A one-byte file over a target of two bytes: the second byte stays, in either format. */
  lemma LongTargetSpoils(b: Byte, old0: seq<Byte>)
    requires |old0| == 2
    ensures var fds: Sources := [Some([b])];
            Recover(old0, 0, [b], 1, 1, {0}, 0) != [b] && WriteAt(old0, 0, OrAll(fds)) != [b]
  {
    FullRecoveryExactly(old0, [b], 1, 1, {0});
  }

  /** generate_file(): for striped sources in either format, the recovered file. */
  method GenerateFile(coalesce: bool, fds: Sources, size: nat, old0: seq<Byte>, ghost file: seq<Byte>)
    returns (target: seq<Byte>)
    requires coalesce ==> SomePresent(fds)
    ensures coalesce && size > 0 && Dealt(file, size, fds, 0) ==>
              && RecoveredOver(target, old0, 0, file, size, |fds|, Present(fds))
              && (AllPresent(|fds|, Present(fds)) ==> (target == file <==> |old0| <= |file|))
    ensures !coalesce && AllInPlace(fds, file, size) ==>
              && Overlaid(target, old0, fds, file, size)
              && (AllPresent(|fds|, Present(fds)) ==> (target == file <==> |old0| <= |file|))
    ensures !coalesce ==> target == WriteAt(old0, 0, OrAll(fds))
  {
    hide Recover; hide RecoveredOver; hide Overlaid; hide OrAll; hide WriteAt; hide Dealt; hide AllInPlace;
    if coalesce {
      target := GenerateCoalesced(fds, size, old0, file);
      if size > 0 {
        CoalescedRecovery(old0, file, size, |fds|, Present(fds));
        if AllPresent(|fds|, Present(fds)) { FullRecoveryExactly(old0, file, size, |fds|, Present(fds)); }
      }
    } else {
      target := GenerateTraditional(fds, old0);
      if AllInPlace(fds, file, size) {
        TraditionalRecovery(fds, file, size, old0);
        if AllPresent(|fds|, Present(fds)) { TraditionalFullExactly(fds, file, size, old0); }
      }
    }
  }
}
