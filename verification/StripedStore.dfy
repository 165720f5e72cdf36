/**
 The object store below SimpleRADOSStriper and the way one logical file is cut into objects.
 RADOS is reduced to what the striper relies on: each operation acts on one object, operations
 on the same object take effect in the order they were issued, and operations on different
 objects may take effect in any order.
 */
module StripedStore {
  import opened Wrappers
  import opened StriperMeta
  import opened Bytes

  /** Bytes in one object: 1 << 22. */
  const OBJECT_SIZE: nat := 0x40_0000

  /** The smallest growth of an allocation: 1 << 27. */
  const MIN_GROWTH: nat := 0x800_0000

  /** Objects by stripe number; stripe 0 also carries the metadata attributes. */
  datatype Store = Store(objs: map<nat, seq<Byte>>, meta: Meta)

  datatype Op =
    | WriteOp(stripe: nat, off: nat, data: seq<Byte>)
    | RemoveOp(stripe: nat)
    | MetaOp(update: Update)

  // ---------------------------------------------------------------- extents

  datatype Extent = Extent(stripe: nat, off: nat, len: nat)

  /** The part of [off, off + len) that lies in the object of its first byte. */
  function NextExtent(off: nat, len: nat): (e: Extent)
    ensures e.stripe * OBJECT_SIZE + e.off == off
    ensures e.off + e.len <= OBJECT_SIZE
    ensures e.len <= len && (e.len == len || e.off + e.len == OBJECT_SIZE)
    ensures len > 0 ==> e.len > 0
  {
    var o := off % OBJECT_SIZE;
    Extent(off / OBJECT_SIZE, o, if len < OBJECT_SIZE - o then len else OBJECT_SIZE - o)
  }

  function HexDigit(d: nat): (c: char)
    requires d < 16
  {
    "0123456789abcdef"[d]
  }

  /** The last w hexadecimal digits of n, padded with zeros. */
  function HexPad(n: nat, w: nat): string {
    if w == 0 then "" else HexPad(n / 16, w - 1) + [HexDigit(n % 16)]
  }

  function ObjectName(oid: string, stripe: nat): string {
    oid + "." + HexPad(stripe, 16)
  }

  function Pow16(w: nat): nat {
    if w == 0 then 1 else 16 * Pow16(w - 1)
  }

  /** A lower-case hexadecimal digit read as a number. */
  function DigitValue(c: char): int {
    if '0' <= c <= '9' then c as int - '0' as int else c as int - 'a' as int + 10
  }

  /** Digits read positionally in base 16. */
  function ReadHex(s: string): int {
    if s == "" then 0 else 16 * ReadHex(s[..|s| - 1]) + DigitValue(s[|s| - 1])
  }

  lemma DigitReads(d: nat)
    requires d < 16
    ensures var c := HexDigit(d); DigitValue(c) == d && ('0' <= c <= '9' || 'a' <= c <= 'f')
  {
  }

  /** The padded digits are w lower-case hexadecimal digits that read as the number. */
  lemma {:induction false} HexReads(n: nat, w: nat)
    requires n < Pow16(w)
    ensures |HexPad(n, w)| == w && ReadHex(HexPad(n, w)) == n
    ensures forall c | c in HexPad(n, w) :: '0' <= c <= '9' || 'a' <= c <= 'f'
    decreases w
  {
    if w > 0 {
      var x := HexPad(n, w);
      HexReads(n / 16, w - 1);
      DigitReads(n % 16);
      assert x[..|x| - 1] == HexPad(n / 16, w - 1) && x[|x| - 1] == HexDigit(n % 16);
    }
  }

  /** An object's name is the file's, a dot, and sixteen digits that read as the stripe. */
  lemma ObjectNameReads(oid: string, stripe: nat)
    requires stripe < Pow16(16)
    ensures var name := ObjectName(oid, stripe);
            && |name| == |oid| + 17 && name[..|oid|] == oid && name[|oid|] == '.'
            && ReadHex(name[|oid| + 1..]) == stripe
  {
    HexReads(stripe, 16);
    assert ObjectName(oid, stripe)[|oid| + 1..] == HexPad(stripe, 16);
  }

  /** Any two offsets below 2^86 in different stripes live in objects of different names. */
  lemma ObjectNamesDiffer(oid: string, s: nat, t: nat)
    requires s < Pow16(16) && t < Pow16(16) && s != t
    ensures ObjectName(oid, s) != ObjectName(oid, t)
  {
    ObjectNameReads(oid, s);
    ObjectNameReads(oid, t);
  }

  // ---------------------------------------------------------------- operations on the store

  function Target(op: Op): nat {
    if op.MetaOp? then 0 else op.stripe
  }

  function ApplyOp(st: Store, op: Op): Store {
    match op
    case WriteOp(k, off, data) =>
      st.(objs := st.objs[k := WriteAt(if k in st.objs then st.objs[k] else [], off, data)])
    case RemoveOp(k) => st.(objs := st.objs - {k})
    case MetaOp(u) => st.(meta := Applied(st.meta, u))
  }

  function ApplyOps(st: Store, ops: seq<Op>): Store
    decreases |ops|
  {
    if ops == [] then st else ApplyOps(ApplyOp(st, ops[0]), ops[1..])
  }

  lemma OpsCommute(st: Store, a: Op, b: Op)
    requires Target(a) != Target(b)
    ensures ApplyOp(ApplyOp(st, a), b) == ApplyOp(ApplyOp(st, b), a)
  {
    var x, y := ApplyOp(ApplyOp(st, a), b), ApplyOp(ApplyOp(st, b), a);
    assert x.objs == y.objs;
  }

  lemma {:induction false} ApplyOpsAppend(st: Store, xs: seq<Op>, ys: seq<Op>)
    ensures ApplyOps(st, xs + ys) == ApplyOps(ApplyOps(st, xs), ys)
    decreases |xs|
  {
    if xs == [] {
      assert xs + ys == ys;
    } else {
      assert (xs + ys)[1..] == xs[1..] + ys;
      ApplyOpsAppend(ApplyOp(st, xs[0]), xs[1..], ys);
    }
  }

  /** The OSDs may process operation i next: nothing older is waiting on the same object. */
  predicate MayProcess(inflight: seq<Op>, i: nat) {
    i < |inflight| && forall j | 0 <= j < i :: Target(inflight[j]) != Target(inflight[i])
  }

  /** Whatever the OSDs process next, the file the client will end up with is the same. */
  lemma {:induction false} ProcessingKeepsOutcome(st: Store, inflight: seq<Op>, i: nat)
    requires MayProcess(inflight, i)
    ensures ApplyOps(ApplyOp(st, inflight[i]), inflight[..i] + inflight[i + 1..])
         == ApplyOps(st, inflight)
    decreases |inflight|
  {
    if i == 0 {
      assert inflight[..0] + inflight[1..] == inflight[1..];
    } else {
      var rest := inflight[1..];
      assert rest[i - 1] == inflight[i];
      assert MayProcess(rest, i - 1) by {
        assert forall j | 0 <= j < i - 1 :: rest[j] == inflight[j + 1];
      }
      var left := inflight[..i] + inflight[i + 1..];
      assert left[0] == inflight[0];
      assert left[1..] == rest[..i - 1] + rest[i..];
      OpsCommute(st, inflight[i], inflight[0]);
      ProcessingKeepsOutcome(ApplyOp(st, inflight[0]), rest, i - 1);
    }
  }

  // ---------------------------------------------------------------- the file as bytes

  /** The byte at logical offset i, if any object holds one. */
  function Lookup(objs: map<nat, seq<Byte>>, i: nat): Option<Byte> {
    var k, o := i / OBJECT_SIZE, i % OBJECT_SIZE;
    if k in objs && o < |objs[k]| then Some(objs[k][o]) else None
  }

  /** The operations of one write, object by object. */
  function WriteOps(off: nat, data: seq<Byte>): seq<Op>
    decreases |data|
  {
    if data == [] then []
    else
      var e := NextExtent(off, |data|);
      [WriteOp(e.stripe, e.off, data[..e.len])] + WriteOps(off + e.len, data[e.len..])
  }

  /** A write is its first piece, then the write of the rest. */
  lemma WriteOpsUnfold(st: Store, off: nat, data: seq<Byte>)
    requires data != []
    ensures var e := NextExtent(off, |data|);
            ApplyOps(st, WriteOps(off, data)) ==
              ApplyOps(ApplyOp(st, WriteOp(e.stripe, e.off, data[..e.len])), WriteOps(off + e.len, data[e.len..]))
  {
    var e := NextExtent(off, |data|);
    var ops := WriteOps(off, data);
    assert ops[0] == WriteOp(e.stripe, e.off, data[..e.len]) && ops[1..] == WriteOps(off + e.len, data[e.len..]);
  }

  /** The byte at i after `data` was stored at off: a gap in front, in the same object, is zeroed. */
  function Overwritten(was: Option<Byte>, off: nat, data: seq<Byte>, i: nat): Option<Byte> {
    if off <= i < off + |data| then Some(data[i - off])
    else if was.Some? then was
    else if data != [] && i < off && i / OBJECT_SIZE == off / OBJECT_SIZE then Some(0)
    else None
  }

  lemma WriteOpLookup(st: Store, off: nat, data: seq<Byte>, i: nat)
    requires data != [] && off % OBJECT_SIZE + |data| <= OBJECT_SIZE
    ensures var st' := ApplyOp(st, WriteOp(off / OBJECT_SIZE, off % OBJECT_SIZE, data));
            Lookup(st'.objs, i) == Overwritten(Lookup(st.objs, i), off, data, i)
  {
  }

  lemma WriteOpsLookupStep(st: Store, off: nat, data: seq<Byte>, i: nat, e: Extent, st1: Store)
    requires data != [] && e == NextExtent(off, |data|)
    requires st1 == ApplyOp(st, WriteOp(e.stripe, e.off, data[..e.len]))
    requires Lookup(ApplyOps(st1, WriteOps(off + e.len, data[e.len..])).objs, i)
          == Overwritten(Lookup(st1.objs, i), off + e.len, data[e.len..], i)
    ensures Lookup(ApplyOps(st, WriteOps(off, data)).objs, i) == Overwritten(Lookup(st.objs, i), off, data, i)
  {
    hide Lookup; hide Overwritten; hide ApplyOps; hide WriteOps; hide ApplyOp;
    WriteOpsUnfold(st, off, data);
    WriteOpLookup(st, off, data[..e.len], i);
    OverwrittenTwice(Lookup(st.objs, i), off, data, e.len, i);
  }

  /** What one write, over any number of objects, does to every logical byte. */
  lemma {:induction false} WriteOpsLookup(st: Store, off: nat, data: seq<Byte>, i: nat)
    ensures Lookup(ApplyOps(st, WriteOps(off, data)).objs, i)
         == Overwritten(Lookup(st.objs, i), off, data, i)
    decreases |data|
  {
    hide Lookup; hide ApplyOp;
    if data != [] {
      var e := NextExtent(off, |data|);
      var st1 := ApplyOp(st, WriteOp(e.stripe, e.off, data[..e.len]));
      WriteOpsLookup(st1, off + e.len, data[e.len..], i);
      WriteOpsLookupStep(st, off, data, i, e, st1);
    }
  }

  lemma OverwrittenTwice(was: Option<Byte>, off: nat, data: seq<Byte>, n: nat, i: nat)
    requires 0 < n <= |data| && (n == |data| || (off + n) % OBJECT_SIZE == 0)
    ensures Overwritten(Overwritten(was, off, data[..n], i), off + n, data[n..], i)
         == Overwritten(was, off, data, i)
  {
  }

  /** A write leaves the attributes alone and creates no object beyond those its range touches. */
  lemma {:induction false} WriteOpsKeys(st: Store, off: nat, data: seq<Byte>)
    ensures ApplyOps(st, WriteOps(off, data)).meta == st.meta
    ensures forall k | k in ApplyOps(st, WriteOps(off, data)).objs ::
              k in st.objs || (off / OBJECT_SIZE <= k && k * OBJECT_SIZE < off + |data|)
    ensures st.objs.Keys <= ApplyOps(st, WriteOps(off, data)).objs.Keys
    decreases |data|
  {
    if data != [] {
      var e := NextExtent(off, |data|);
      WriteOpsUnfold(st, off, data);
      WriteOpsKeys(ApplyOp(st, WriteOp(e.stripe, e.off, data[..e.len])), off + e.len, data[e.len..]);
    }
  }
}
