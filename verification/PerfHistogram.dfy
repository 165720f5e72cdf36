/**
 A histogram over any number of axes, stored as one flat array: the mixed-radix index of a bucket,
 the recursive traversal, and the counters.
 */
module PerfHistogram {
  import opened Arithmetic

  /** Bucket counts of the axes; the constructor asserts that each is positive. */
  predicate AxesOk(axes: seq<nat>) {
    forall i | 0 <= i < |axes| :: axes[i] > 0
  }

  predicate InRange(axes: seq<nat>, buckets: seq<nat>) {
    |buckets| == |axes| && forall i | 0 <= i < |axes| :: buckets[i] < axes[i]
  }

  // ---------------------------------------------------------------- the flat index

  function Size(axes: seq<nat>): nat {
    if axes == [] then 1 else axes[0] * Size(axes[1..])
  }

  function SizeUpTo(axes: seq<nat>, n: nat): nat
    requires n <= |axes|
  {
    if n == 0 then 1 else SizeUpTo(axes, n - 1) * axes[n - 1]
  }

  lemma {:induction false} SizeSplits(axes: seq<nat>, n: nat)
    requires n <= |axes|
    ensures Size(axes) == SizeUpTo(axes, n) * Size(axes[n..])
    decreases n
  {
    if n == 0 {
      assert axes[0..] == axes;
    } else {
      SizeSplits(axes, n - 1);
      assert axes[n - 1..][1..] == axes[n..];
      var a, b, c := SizeUpTo(axes, n - 1), axes[n - 1], Size(axes[n..]);
      assert a * (b * c) == (a * b) * c;
    }
  }

  lemma {:induction false} SizePositive(axes: seq<nat>)
    requires AxesOk(axes)
    ensures Size(axes) > 0
    decreases |axes|
  {
    if axes != [] {
      SizePositive(axes[1..]);
      assert axes[0] * Size(axes[1..]) > 0;
    }
  }

  method GetRawSize(axes: seq<nat>) returns (size: nat)
    ensures size == Size(axes)
  {
    size := 1;
    for i := 0 to |axes|
      invariant size == SizeUpTo(axes, i)
    {
      size := size * axes[i];
    }
    SizeSplits(axes, |axes|);
    assert axes[|axes|..] == [];
  }

  /** get_raw_index_internal: axis by axis, multiply and add. */
  function RawIndex(axes: seq<nat>, buckets: seq<nat>, start: nat): nat
    requires |buckets| == |axes|
  {
    if axes == [] then start
    else RawIndex(axes[1..], buckets[1..], axes[0] * start + buckets[0])
  }

  /** The buckets that an index stands for, most significant axis first. */
  function Decode(axes: seq<nat>, index: nat): (buckets: seq<nat>)
    requires AxesOk(axes)
    ensures |buckets| == |axes|
  {
    if axes == [] then []
    else
      SizePositive(axes[1..]);
      [index / Size(axes[1..])] + Decode(axes[1..], index % Size(axes[1..]))
  }

  lemma {:induction false} RawIndexOffset(axes: seq<nat>, buckets: seq<nat>, start: nat)
    requires |buckets| == |axes|
    ensures RawIndex(axes, buckets, start) == start * Size(axes) + RawIndex(axes, buckets, 0)
    decreases |axes|
  {
    if axes != [] {
      var a, b, n := axes[0], buckets[0], Size(axes[1..]);
      RawIndexOffset(axes[1..], buckets[1..], a * start + b);
      FirstBucket(axes, buckets);
      Distribute(a, start, b, n);
    }
  }

  lemma FirstBucket(axes: seq<nat>, buckets: seq<nat>)
    requires |buckets| == |axes| && axes != []
    ensures RawIndex(axes, buckets, 0) == buckets[0] * Size(axes[1..]) + RawIndex(axes[1..], buckets[1..], 0)
    decreases |axes|, 0
  {
    assert axes[0] * 0 + buckets[0] == buckets[0];
    RawIndexOffset(axes[1..], buckets[1..], buckets[0]);
  }

  /** Every bucket tuple has an index in the array, and the index determines the tuple. */
  lemma {:induction false} EncodeDecode(axes: seq<nat>, buckets: seq<nat>)
    requires AxesOk(axes) && InRange(axes, buckets)
    ensures RawIndex(axes, buckets, 0) < Size(axes)
    ensures Decode(axes, RawIndex(axes, buckets, 0)) == buckets
    decreases |axes|
  {
    if axes != [] {
      var b, n, rest := buckets[0], Size(axes[1..]), RawIndex(axes[1..], buckets[1..], 0);
      EncodeDecode(axes[1..], buckets[1..]);
      FirstBucket(axes, buckets);
      Commute(b, n);
      DivModUnique(b * n + rest, n, b, rest);
      NextMultiple(b, n);
      MulMonotone(b + 1, axes[0], n);
    }
  }

  /** Every index of the array is the index of a bucket tuple. */
  lemma {:induction false} DecodeEncode(axes: seq<nat>, index: nat)
    requires AxesOk(axes) && index < Size(axes)
    ensures InRange(axes, Decode(axes, index))
    ensures RawIndex(axes, Decode(axes, index), 0) == index
    decreases |axes|
  {
    if axes != [] {
      SizePositive(axes[1..]);
      var n := Size(axes[1..]);
      DivMod(index, n);
      DecodeEncode(axes[1..], index % n);
      DivBound(index, n, axes[0]);
      var buckets := Decode(axes, index);
      assert buckets[1..] == Decode(axes[1..], index % n);
      FirstBucket(axes, buckets);
    }
  }

  // ---------------------------------------------------------------- traversal

  datatype Event = Enter(level: nat) | Value(index: nat) | Leave(level: nat)

  function Values(events: seq<Event>): seq<nat> {
    if events == [] then []
    else
      var init, last := Values(events[..|events| - 1]), events[|events| - 1];
      if last.Value? then init + [last.index] else init
  }

  lemma {:induction false} ValuesConcat(a: seq<Event>, b: seq<Event>)
    ensures Values(a + b) == Values(a) + Values(b)
    decreases |b|
  {
    if b == [] {
      assert a + b == a;
    } else {
      assert (a + b)[..|a + b| - 1] == a + b[..|b| - 1];
      ValuesConcat(a, b[..|b| - 1]);
    }
  }

  /** The depth after the events, if each Enter and Leave fits it and values come at the bottom. */
  function Depth(depth: nat, events: seq<Event>, bottom: nat): int {
    if events == [] then depth
    else
      var d, last := Depth(depth, events[..|events| - 1], bottom), events[|events| - 1];
      match last
      case Enter(l) => if d == l then l + 1 else -1
      case Value(_) => if d == bottom then d else -1
      case Leave(l) => if d == l + 1 then l else -1
  }

  lemma {:induction false} DepthConcat(depth: nat, a: seq<Event>, b: seq<Event>, bottom: nat)
    requires Depth(depth, a, bottom) >= 0
    ensures Depth(depth, a + b, bottom) == Depth(Depth(depth, a, bottom), b, bottom)
    decreases |b|
  {
    if b == [] {
      assert a + b == a;
    } else {
      assert (a + b)[..|a + b| - 1] == a + b[..|b| - 1];
      DepthConcat(depth, a, b[..|b| - 1], bottom);
    }
  }

  /** lo, lo + 1, ..., hi - 1 */
  function Count(lo: nat, hi: nat): seq<nat>
    requires lo <= hi
  {
    seq(hi - lo, i requires 0 <= i => lo + i)
  }

  lemma CountJoin(lo: nat, mid: nat, hi: nat)
    requires lo <= mid <= hi
    ensures Count(lo, mid) + Count(mid, hi) == Count(lo, hi)
  {
  }

  /** What one call of visit_values() reports for the sub-array that begins at `start`. */
  ghost predicate Visited(axes: seq<nat>, level: nat, start: nat, events: seq<Event>)
    requires level <= |axes|
  {
    var n := Size(axes[level..]);
    && start * n <= (start + 1) * n
    && Values(events) == Count(start * n, (start + 1) * n)
    && Depth(level, events, |axes|) == level
  }

  /** The events of the first children of a node, down to the child before `index`. */
  ghost predicate PartVisited(axes: seq<nat>, level: nat, from: nat, index: nat, events: seq<Event>)
    requires level < |axes|
  {
    var n := Size(axes[level + 1..]);
    && from * n <= index * n
    && Values(events) == Count(from * n, index * n)
    && Depth(level, events, |axes|) == level + 1
  }

  lemma VisitChild(axes: seq<nat>, level: nat, from: nat, index: nat, events: seq<Event>, sub: seq<Event>)
    requires level < |axes| && PartVisited(axes, level, from, index, events) && Visited(axes, level + 1, index, sub)
    ensures PartVisited(axes, level, from, index + 1, events + sub)
  {
    var n := Size(axes[level + 1..]);
    ValuesConcat(events, sub);
    DepthConcat(level, events, sub, |axes|);
    CountJoin(from * n, index * n, (index + 1) * n);
  }

  lemma VisitEnd(axes: seq<nat>, level: nat, start: nat, events: seq<Event>)
    requires level < |axes| && PartVisited(axes, level, start * axes[level], (start + 1) * axes[level], events)
    ensures Visited(axes, level, start, events + [Leave(level)])
  {
    var a, n := axes[level], Size(axes[level + 1..]);
    assert axes[level..][1..] == axes[level + 1..];
    Distribute(a, start, 0, n);
    Distribute(a, start + 1, 0, n);
    Commute(a, start);
    Commute(a, start + 1);
    MulMonotone(start, start + 1, a * n);
    assert (events + [Leave(level)])[..|events|] == events;
  }

  /** A leaf reports its own index. */
  lemma VisitLeaf(axes: seq<nat>, start: nat)
    ensures Visited(axes, |axes|, start, [Value(start)])
  {
    assert axes[|axes|..] == [] && [Value(start)][..0] == [];
  }

  lemma VisitBegin(axes: seq<nat>, level: nat, from: nat)
    requires level < |axes|
    ensures PartVisited(axes, level, from, from, [Enter(level)])
  {
    assert [Enter(level)][..0] == [];
  }

  // ---------------------------------------------------------------- nesting

  /** The next position in the innermost open section. */
  function Bump(path: seq<nat>): seq<nat> {
    if path == [] then [] else path[..|path| - 1] + [path[|path| - 1] + 1]
  }

  /** Positions in the open sections, outermost first, after the events. */
  function Path(path: seq<nat>, events: seq<Event>): seq<nat> {
    if events == [] then path
    else
      var p, last := Path(path, events[..|events| - 1]), events[|events| - 1];
      match last
      case Enter(_) => p + [0]
      case Value(_) => Bump(p)
      case Leave(_) => if p == [] then [] else Bump(p[..|p| - 1])
  }

  /** Each reported index with the positions at which a reader of the nested sections finds it. */
  function Reported(path: seq<nat>, events: seq<Event>): seq<(nat, seq<nat>)> {
    if events == [] then []
    else
      var before, last := events[..|events| - 1], events[|events| - 1];
      Reported(path, before) + if last.Value? then [(last.index, Path(path, before))] else []
  }

  lemma {:induction false} PathConcat(path: seq<nat>, a: seq<Event>, b: seq<Event>)
    ensures Path(path, a + b) == Path(Path(path, a), b)
    ensures Reported(path, a + b) == Reported(path, a) + Reported(Path(path, a), b)
    decreases |b|
  {
    if b == [] {
      assert a + b == a;
    } else {
      assert (a + b)[..|a + b| - 1] == a + b[..|b| - 1];
      PathConcat(path, a, b[..|b| - 1]);
    }
  }

  /** How often a section of this level is opened. */
  function Enters(events: seq<Event>, level: nat): nat {
    if events == [] then 0
    else Enters(events[..|events| - 1], level) + if events[|events| - 1] == Enter(level) then 1 else 0
  }

  lemma {:induction false} EntersConcat(a: seq<Event>, b: seq<Event>, level: nat)
    ensures Enters(a + b, level) == Enters(a, level) + Enters(b, level)
    decreases |b|
  {
    if b == [] {
      assert a + b == a;
    } else {
      assert (a + b)[..|a + b| - 1] == a + b[..|b| - 1];
      EntersConcat(a, b[..|b| - 1], level);
    }
  }

  /** The first m indexes of the sub-array that begins at `start`, each at its bucket tuple. */
  function Listing(axes: seq<nat>, start: nat, path: seq<nat>, m: nat): seq<(nat, seq<nat>)>
    requires AxesOk(axes)
  {
    seq(m, j requires 0 <= j => (start * Size(axes) + j, path + Decode(axes, j)))
  }

  /** One call reports its sub-array as one item of the section it is called in, each value at its tuple. */
  ghost predicate Placed(axes: seq<nat>, level: nat, start: nat, path: seq<nat>, events: seq<Event>)
    requires AxesOk(axes) && level <= |axes|
  {
    && Path(path, events) == Bump(path)
    && Reported(path, events) == Listing(axes[level..], start, path, Size(axes[level..]))
  }

  ghost predicate PartPlaced(axes: seq<nat>, level: nat, start: nat, path: seq<nat>, i: nat, events: seq<Event>)
    requires AxesOk(axes) && level < |axes|
  {
    && Path(path, events) == path + [i]
    && Reported(path, events) == Listing(axes[level..], start, path, i * Size(axes[level + 1..]))
  }

  lemma PlaceLeaf(axes: seq<nat>, start: nat, path: seq<nat>)
    requires AxesOk(axes)
    ensures Placed(axes, |axes|, start, path, [Value(start)])
  {
    assert axes[|axes|..] == [] && [Value(start)][..0] == [];
    assert path + Decode([], 0) == path;
  }

  lemma PlaceBegin(axes: seq<nat>, level: nat, start: nat, path: seq<nat>)
    requires AxesOk(axes) && level < |axes|
    ensures PartPlaced(axes, level, start, path, 0, [Enter(level)])
  {
    assert [Enter(level)][..0] == [];
  }

  lemma IndexSplit(a: nat, start: nat, i: nat, n: nat, j: nat)
    ensures (start * a + i) * n + j == start * (a * n) + (i * n + j)
  {
    Commute(a, start);
    Distribute(a, start, i, n);
  }

  lemma DecodeAt(axes: seq<nat>, i: nat, j: nat)
    requires AxesOk(axes) && axes != [] && j < Size(axes[1..])
    ensures Decode(axes, i * Size(axes[1..]) + j) == [i] + Decode(axes[1..], j)
  {
    hide Size;
    var n := Size(axes[1..]);
    Commute(i, n);
    DivModUnique(i * n + j, n, i, j);
  }

  /** Entry j of child i is entry i * n + j of the parent. */
  lemma ListingAt(axes: seq<nat>, start: nat, path: seq<nat>, i: nat, j: nat)
    requires AxesOk(axes) && axes != [] && j < Size(axes[1..])
    ensures var n := Size(axes[1..]);
            && (start * axes[0] + i) * n + j == start * Size(axes) + (i * n + j)
            && path + [i] + Decode(axes[1..], j) == path + Decode(axes, i * n + j)
  {
    hide Decode;
    DecodeAt(axes, i, j);
    IndexSplit(axes[0], start, i, Size(axes[1..]), j);
    assert path + [i] + Decode(axes[1..], j) == path + ([i] + Decode(axes[1..], j));
  }

  /** The children's listings, one after the other, are the parent's. */
  lemma ListingJoin(axes: seq<nat>, start: nat, path: seq<nat>, i: nat)
    requires AxesOk(axes) && axes != []
    ensures var n := Size(axes[1..]);
            Listing(axes, start, path, i * n) + Listing(axes[1..], start * axes[0] + i, path + [i], n)
            == Listing(axes, start, path, (i + 1) * n)
  {
    hide Size; hide Decode;
    var n := Size(axes[1..]);
    NextMultiple(i, n);
    var a, b := Listing(axes, start, path, i * n), Listing(axes[1..], start * axes[0] + i, path + [i], n);
    var c := Listing(axes, start, path, (i + 1) * n);
    forall j: nat | j < n
      ensures b[j] == c[i * n + j]
    {
      ListingAt(axes, start, path, i, j);
    }
    assert forall j: nat | j < i * n :: a[j] == c[j];
    assert forall k: nat | i * n <= k < |c| :: c[k] == b[k - i * n];
  }

  lemma PlaceChild(axes: seq<nat>, level: nat, start: nat, path: seq<nat>, i: nat, events: seq<Event>, sub: seq<Event>)
    requires AxesOk(axes) && level < |axes| && i < axes[level] && PartPlaced(axes, level, start, path, i, events)
    requires Placed(axes, level + 1, start * axes[level] + i, path + [i], sub)
    ensures PartPlaced(axes, level, start, path, i + 1, events + sub)
  {
    hide Listing; hide Path; hide Reported; hide Size;
    PathConcat(path, events, sub);
    assert axes[level..][1..] == axes[level + 1..];
    ListingJoin(axes[level..], start, path, i);
    assert (path + [i])[..|path|] == path;
  }

  lemma PlaceEnd(axes: seq<nat>, level: nat, start: nat, path: seq<nat>, events: seq<Event>)
    requires AxesOk(axes) && level < |axes| && PartPlaced(axes, level, start, path, axes[level], events)
    ensures Placed(axes, level, start, path, events + [Leave(level)])
  {
    hide Listing;
    assert (events + [Leave(level)])[..|events|] == events;
    assert (path + [axes[level]])[..|path|] == path;
    assert axes[level..][1..] == axes[level + 1..];
  }

  /** Sections of each level: as many as there are positions above it. */
  ghost predicate Sections(axes: seq<nat>, level: nat, events: seq<Event>)
    requires level <= |axes|
  {
    forall l: nat | level <= l < |axes| :: Enters(events, l) == SizeUpTo(axes[level..], l - level)
  }

  ghost predicate PartSections(axes: seq<nat>, level: nat, i: nat, events: seq<Event>)
    requires level < |axes|
  {
    && Enters(events, level) == 1
    && forall l: nat | level < l < |axes| :: Enters(events, l) == i * SizeUpTo(axes[level + 1..], l - level - 1)
  }

  lemma {:induction false} SizeUpToFront(axes: seq<nat>, n: nat)
    requires 0 < n <= |axes|
    ensures SizeUpTo(axes, n) == axes[0] * SizeUpTo(axes[1..], n - 1)
    decreases n
  {
    if n > 1 {
      SizeUpToFront(axes, n - 1);
      assert axes[1..][n - 2] == axes[n - 1];
      Associate(axes[0], SizeUpTo(axes[1..], n - 2), axes[n - 1]);
    }
  }

  lemma NoEnters(events: seq<Event>, level: nat)
    requires |events| == 1
    ensures Enters(events, level) == if events[0] == Enter(level) then 1 else 0
  {
    assert events[..0] == [];
  }

  lemma SectionsChild(axes: seq<nat>, level: nat, i: nat, events: seq<Event>, sub: seq<Event>)
    requires level < |axes| && PartSections(axes, level, i, events) && Sections(axes, level + 1, sub)
    requires Enters(sub, level) == 0
    ensures PartSections(axes, level, i + 1, events + sub)
  {
    hide Enters; hide SizeUpTo;
    EntersConcat(events, sub, level);
    forall l: nat | level < l < |axes|
      ensures Enters(events + sub, l) == (i + 1) * SizeUpTo(axes[level + 1..], l - level - 1)
    {
      EntersConcat(events, sub, l);
      NextMultiple(i, SizeUpTo(axes[level + 1..], l - level - 1));
    }
  }

  lemma SectionsEnd(axes: seq<nat>, level: nat, events: seq<Event>)
    requires level < |axes| && PartSections(axes, level, axes[level], events)
    ensures Sections(axes, level, events + [Leave(level)])
  {
    forall l: nat | level <= l < |axes|
      ensures Enters(events + [Leave(level)], l) == SizeUpTo(axes[level..], l - level)
    {
      EntersConcat(events, [Leave(level)], l);
      NoEnters([Leave(level)], l);
      if l > level {
        assert axes[level..][1..] == axes[level + 1..];
        SizeUpToFront(axes[level..], l - level);
      }
    }
  }

  /** No section above the level is touched. */
  ghost predicate NothingAbove(level: nat, events: seq<Event>) {
    forall l: nat | l < level :: Enters(events, l) == 0
  }

  lemma NothingAboveConcat(level: nat, a: seq<Event>, b: seq<Event>)
    requires NothingAbove(level, a) && NothingAbove(level, b)
    ensures NothingAbove(level, a + b)
  {
    forall l: nat | l < level
      ensures Enters(a + b, l) == 0
    {
      EntersConcat(a, b, l);
    }
  }

  lemma OneEvent(level: nat, e: Event)
    requires e.Enter? ==> e.level >= level
    ensures NothingAbove(level, [e])
  {
    forall l: nat | l < level
      ensures Enters([e], l) == 0
    {
      NoEnters([e], l);
    }
  }

  /** What one call of visit_values() does, in its three aspects. */
  ghost predicate Traversed(axes: seq<nat>, level: nat, start: nat, path: seq<nat>, events: seq<Event>)
    requires AxesOk(axes) && level <= |axes|
  {
    && Visited(axes, level, start, events) && Placed(axes, level, start, path, events)
    && Sections(axes, level, events) && NothingAbove(level, events)
  }

  ghost predicate PartTraversed(axes: seq<nat>, level: nat, start: nat, path: seq<nat>, i: nat, events: seq<Event>)
    requires AxesOk(axes) && level < |axes|
  {
    && PartVisited(axes, level, start * axes[level], start * axes[level] + i, events)
    && PartPlaced(axes, level, start, path, i, events)
    && PartSections(axes, level, i, events) && NothingAbove(level, events)
  }

  lemma TraverseLeaf(axes: seq<nat>, start: nat, path: seq<nat>)
    requires AxesOk(axes)
    ensures Traversed(axes, |axes|, start, path, [Value(start)])
  {
    VisitLeaf(axes, start);
    PlaceLeaf(axes, start, path);
    OneEvent(|axes|, Value(start));
  }

  lemma TraverseBegin(axes: seq<nat>, level: nat, start: nat, path: seq<nat>)
    requires AxesOk(axes) && level < |axes|
    ensures PartTraversed(axes, level, start, path, 0, [Enter(level)])
  {
    hide PartVisited; hide PartPlaced;
    VisitBegin(axes, level, start * axes[level]);
    PlaceBegin(axes, level, start, path);
    OneEvent(level, Enter(level));
    forall l: nat | level <= l < |axes|
      ensures Enters([Enter(level)], l) == if l == level then 1 else 0
    {
      NoEnters([Enter(level)], l);
    }
  }

  lemma TraverseChild(axes: seq<nat>, level: nat, start: nat, path: seq<nat>, i: nat, events: seq<Event>, sub: seq<Event>)
    requires AxesOk(axes) && level < |axes| && i < axes[level] && PartTraversed(axes, level, start, path, i, events)
    requires Traversed(axes, level + 1, start * axes[level] + i, path + [i], sub)
    ensures PartTraversed(axes, level, start, path, i + 1, events + sub)
  {
    hide PartVisited; hide PartPlaced; hide PartSections; hide Visited; hide Placed; hide Sections;
    VisitChild(axes, level, start * axes[level], start * axes[level] + i, events, sub);
    PlaceChild(axes, level, start, path, i, events, sub);
    SectionsChild(axes, level, i, events, sub);
    NothingAboveConcat(level, events, sub);
  }

  lemma TraverseEnd(axes: seq<nat>, level: nat, start: nat, path: seq<nat>, events: seq<Event>)
    requires AxesOk(axes) && level < |axes| && PartTraversed(axes, level, start, path, axes[level], events)
    ensures Traversed(axes, level, start, path, events + [Leave(level)])
  {
    hide PartVisited; hide PartPlaced; hide PartSections; hide Visited; hide Placed; hide Sections;
    NextMultiple(start, axes[level]);
    VisitEnd(axes, level, start, events);
    PlaceEnd(axes, level, start, path, events);
    SectionsEnd(axes, level, events);
    OneEvent(level, Leave(level));
    NothingAboveConcat(level, events, [Leave(level)]);
  }

  /** visit_values(): all indexes of the sub-array, in order, nested as their bucket tuples say. */
  method VisitValues(axes: seq<nat>, level: nat, start: nat, ghost path: seq<nat>) returns (events: seq<Event>)
    requires AxesOk(axes) && level <= |axes|
    ensures Traversed(axes, level, start, path, events)
    decreases |axes| - level
  {
    hide Traversed; hide PartTraversed;
    if level == |axes| {
      TraverseLeaf(axes, start, path);
      return [Value(start)];
    }
    TraverseBegin(axes, level, start, path);
    events := [Enter(level)];
    var index := start * axes[level];
    var i := 0;
    while i < axes[level]
      invariant i <= axes[level] && index == start * axes[level] + i
      invariant PartTraversed(axes, level, start, path, i, events)
    {
      var sub := VisitValues(axes, level + 1, index, path + [i]);
      TraverseChild(axes, level, start, path, i, events, sub);
      events := events + sub;
      i := i + 1;
      index := index + 1;
    }
    TraverseEnd(axes, level, start, path, events);
    events := events + [Leave(level)];
  }

  /**
   The whole traversal: every index of the array exactly once, in increasing order, each found at its
   bucket tuple by a reader of the nested sections, and of each level as many sections as there are
   tuples of the axes before it.
   */
  lemma VisitsEverything(axes: seq<nat>, events: seq<Event>)
    requires AxesOk(axes) && Traversed(axes, 0, 0, [], events)
    ensures Values(events) == Count(0, Size(axes)) && Depth(0, events, |axes|) == 0
    ensures |Reported([], events)| == Size(axes)
    ensures forall k: nat | k < Size(axes) :: Reported([], events)[k] == (k, Decode(axes, k))
    ensures forall l: nat | l < |axes| :: Enters(events, l) == SizeUpTo(axes, l)
  {
    assert axes[0..] == axes;
    forall k: nat | k < Size(axes)
      ensures [] + Decode(axes, k) == Decode(axes, k)
    {
    }
  }

  // ---------------------------------------------------------------- counters

  /** How often the bucket tuple b was incremented. */
  function Times(history: seq<seq<nat>>, b: seq<nat>): nat {
    if history == [] then 0
    else Times(history[..|history| - 1], b) + if history[|history| - 1] == b then 1 else 0
  }

  /** The counts of the first n indexes together. */
  function TimesBelow(axes: seq<nat>, history: seq<seq<nat>>, n: nat): nat
    requires AxesOk(axes)
  {
    if n == 0 then 0 else TimesBelow(axes, history, n - 1) + Times(history, Decode(axes, n - 1))
  }

  lemma TimesSnoc(history: seq<seq<nat>>, b: seq<nat>, x: seq<nat>)
    ensures Times(history + [b], x) == Times(history, x) + if b == x then 1 else 0
  {
    assert (history + [b])[..|history|] == history;
  }

  lemma {:induction false} OneMore(axes: seq<nat>, history: seq<seq<nat>>, b: seq<nat>, n: nat)
    requires AxesOk(axes) && InRange(axes, b) && n <= Size(axes)
    ensures TimesBelow(axes, history + [b], n) ==
              TimesBelow(axes, history, n) + if RawIndex(axes, b, 0) < n then 1 else 0
    decreases n
  {
    hide Times; hide Decode; hide RawIndex; hide Size; hide InRange;
    if n > 0 {
      OneMore(axes, history, b, n - 1);
      TimesSnoc(history, b, Decode(axes, n - 1));
      DecodeEncode(axes, n - 1);
      EncodeDecode(axes, b);
    }
  }

  lemma {:induction false} NoneYet(axes: seq<nat>, n: nat)
    requires AxesOk(axes)
    ensures TimesBelow(axes, [], n) == 0
    decreases n
  {
    if n > 0 { NoneYet(axes, n - 1); }
  }

  /** The counts of all buckets add up to the number of increments. */
  lemma {:induction false} CountsAddUp(axes: seq<nat>, history: seq<seq<nat>>)
    requires AxesOk(axes) && forall i | 0 <= i < |history| :: InRange(axes, history[i])
    ensures TimesBelow(axes, history, Size(axes)) == |history|
    decreases |history|
  {
    if history == [] {
      NoneYet(axes, Size(axes));
    } else {
      var init, b := history[..|history| - 1], history[|history| - 1];
      CountsAddUp(axes, init);
      assert history == init + [b];
      OneMore(axes, init, b, Size(axes));
      EncodeDecode(axes, b);
    }
  }

  /** Counters are unsigned 64-bit words. */
  const WORD: nat := 0x1_0000_0000_0000_0000

  /** Each counter is the number of increments of its own bucket tuple. */
  ghost predicate CountsOf(axes: seq<nat>, history: seq<seq<nat>>, data: seq<nat>)
    requires AxesOk(axes)
  {
    |data| == Size(axes) && forall k | 0 <= k < |data| :: data[k] == Times(history, Decode(axes, k)) % WORD
  }

  function Sum(data: seq<nat>): nat {
    if data == [] then 0 else Sum(data[..|data| - 1]) + data[|data| - 1]
  }

  lemma {:induction false} TimesBounded(history: seq<seq<nat>>, b: seq<nat>)
    ensures Times(history, b) <= |history|
    decreases |history|
  {
    if history != [] { TimesBounded(history[..|history| - 1], b); }
  }

  lemma ModAdd(a: nat, b: nat, times: nat)
    requires a % WORD == b % WORD
    ensures (a + times % WORD) % WORD == (b + times) % WORD
    ensures times < WORD ==> times % WORD == times
  {
  }

  lemma SumSnoc(data: seq<nat>, n: nat)
    requires 0 < n <= |data|
    ensures Sum(data[..n]) == Sum(data[..n - 1]) + data[n - 1]
  {
    assert data[..n][..n - 1] == data[..n - 1];
  }

  lemma {:induction false} SumIsTimesBelow(axes: seq<nat>, history: seq<seq<nat>>, data: seq<nat>, n: nat)
    requires AxesOk(axes) && CountsOf(axes, history, data) && n <= |data|
    ensures Sum(data[..n]) % WORD == TimesBelow(axes, history, n) % WORD
    ensures |history| < WORD ==> Sum(data[..n]) == TimesBelow(axes, history, n)
    decreases n
  {
    hide Decode; hide Size; hide Times;
    if n > 0 {
      hide Sum;
      var times := Times(history, Decode(axes, n - 1));
      SumIsTimesBelow(axes, history, data, n - 1);
      SumSnoc(data, n);
      TimesBounded(history, Decode(axes, n - 1));
      ModAdd(Sum(data[..n - 1]), TimesBelow(axes, history, n - 1), times);
    }
  }

  /** The counters add up to the number of increments, modulo 2^64, and exactly before any can wrap. */
  lemma CountersAddUp(axes: seq<nat>, history: seq<seq<nat>>, data: seq<nat>)
    requires AxesOk(axes) && CountsOf(axes, history, data)
    requires forall i | 0 <= i < |history| :: InRange(axes, history[i])
    ensures Sum(data) % WORD == |history| % WORD
    ensures |history| < WORD ==> Sum(data) == |history|
  {
    SumIsTimesBelow(axes, history, data, |data|);
    assert data[..|data|] == data;
    CountsAddUp(axes, history);
  }

  /** One increment moves one counter, and it is the right one. */
  lemma Incremented(axes: seq<nat>, history: seq<seq<nat>>, data: seq<nat>, b: seq<nat>)
    requires AxesOk(axes) && InRange(axes, b) && CountsOf(axes, history, data)
    ensures RawIndex(axes, b, 0) < |data|
    ensures var i := RawIndex(axes, b, 0);
            CountsOf(axes, history + [b], data[i := (data[i] + 1) % WORD])
  {
    hide Size; hide RawIndex; hide Decode; hide InRange; hide Times;
    EncodeDecode(axes, b);
    var i := RawIndex(axes, b, 0);
    var data' := data[i := (data[i] + 1) % WORD];
    forall k | 0 <= k < |data'|
      ensures data'[k] == Times(history + [b], Decode(axes, k)) % WORD
    {
      DecodeEncode(axes, k);
      TimesSnoc(history, b, Decode(axes, k));
    }
  }

  class Histogram {
    const axes: seq<nat>
    const rawData: array<nat>
    ghost var history: seq<seq<nat>>   // bucket tuples incremented since the last reset

    ghost predicate Valid()
      reads this
    {
      && AxesOk(axes) && rawData.Length == Size(axes)
      && forall i | 0 <= i < |history| :: InRange(axes, history[i])
    }

    /** Each bucket holds its own count; true from the first reset on. */
    ghost predicate Counts()
      reads this, rawData
      requires Valid()
    {
      CountsOf(axes, history, rawData[..])
    }

    /** All counters together count the increments since the last reset. */
    ghost predicate Totals()
      reads this, rawData
    {
      Sum(rawData[..]) % WORD == |history| % WORD && (|history| < WORD ==> Sum(rawData[..]) == |history|)
    }

    /** The counters start with whatever the allocation holds. */
    constructor (axes: seq<nat>)
      requires AxesOk(axes)
      ensures Valid() && this.axes == axes && fresh(rawData) && history == []
    {
      this.axes := axes;
      var size := GetRawSize(axes);
      rawData := new nat[size];
      history := [];
    }

    method Reset()
      requires Valid()
      modifies this`history, rawData
      ensures Valid() && Counts() && history == []
    {
      var i := GetRawSize(axes);
      while i > 0
        invariant 0 <= i <= rawData.Length
        invariant forall k | i <= k < rawData.Length :: rawData[k] == 0
      {
        i := i - 1;
        rawData[i] := 0;
      }
      history := [];
    }

    /** inc_bucket(); a bucket out of range fails an assertion and changes nothing. */
    method IncBucket(buckets: seq<nat>) returns (ok: bool)
      requires Valid() && |buckets| == |axes|
      modifies this`history, rawData
      ensures Valid()
      ensures ok <==> InRange(axes, buckets)
      ensures ok ==> RawIndex(axes, buckets, 0) < rawData.Length
      ensures history == if ok then old(history) + [buckets] else old(history)
      ensures old(Counts()) ==> Counts() && Totals()
      ensures var i := RawIndex(axes, buckets, 0);
              rawData[..] == if ok then old(rawData[..])[i := (old(rawData[..])[i] + 1) % WORD] else old(rawData[..])
    {
      hide Times; hide CountsOf; hide Decode; hide Sum;
      ok := InRange(axes, buckets);
      if ok {
        var index := RawIndex(axes, buckets, 0);
        EncodeDecode(axes, buckets);
        if Counts() { Incremented(axes, history, rawData[..], buckets); }
        rawData[index] := (rawData[index] + 1) % WORD;
        history := history + [buckets];
      }
      if Counts() { CountersAddUp(axes, history, rawData[..]); }
    }

    /** read_bucket(): the number of increments of exactly this bucket, modulo 2^64. */
    method ReadBucket(buckets: seq<nat>) returns (value: nat)
      requires Valid() && InRange(axes, buckets)
      ensures Counts() ==> value == Times(history, buckets) % WORD
    {
      EncodeDecode(axes, buckets);
      value := rawData[RawIndex(axes, buckets, 0)];
    }
  }
}
