/**
 The size-weighted hash layout of a distributed volume: share out the 32-bit hash space by brick
 size, order the bricks by their old ranges, insert new bricks where most hash values keep their
 brick, and lay the shares end to end.
 */
module Rebalance {
  import opened Wrappers

  const HASH_SPACE: int := 0x1_0000_0000

  /** Both ends are part of the range. */
  datatype Range = Range(start: int, end: int)

  /** A brick, its old range if it has a layout, and its share of the hash space. */
  datatype Brick = Brick(name: string, size: nat, range: Option<Range>, good: int)

  predicate Owns(b: Brick, h: int) {
    b.range.Some? && b.range.value.start <= h <= b.range.value.end
  }

  function SumGood(bs: seq<Brick>): int {
    if bs == [] then 0 else SumGood(bs[..|bs| - 1]) + bs[|bs| - 1].good
  }

  function SumSize(bs: seq<Brick>): nat {
    if bs == [] then 0 else SumSize(bs[..|bs| - 1]) + bs[|bs| - 1].size
  }

  // ---------------------------------------------------------------- shares

  /** A brick's part of the hash space by size, rounded down. */
  function Share(size: nat, total: nat): nat
    requires size > 0 ==> total > 0
  {
    if size == 0 then 0 else size * HASH_SPACE / total
  }

  function SumShare(bs: seq<Brick>, total: nat): nat
    requires total > 0
  {
    if bs == [] then 0 else SumShare(bs[..|bs| - 1], total) + Share(bs[|bs| - 1].size, total)
  }

  lemma ShareBounds(size: nat, total: nat)
    requires total > 0
    ensures Share(size, total) * total <= size * HASH_SPACE < (Share(size, total) + 1) * total
  {
    var x := size * HASH_SPACE;
    assert x == x / total * total + x % total;
    if size == 0 {
      assert Share(size, total) * total == 0;
    }
  }

  lemma {:induction false} SharesBounds(bs: seq<Brick>, total: nat)
    requires total > 0
    ensures SumShare(bs, total) * total <= SumSize(bs) * HASH_SPACE
    ensures bs != [] ==> SumSize(bs) * HASH_SPACE < (SumShare(bs, total) + |bs|) * total
    decreases |bs|
  {
    if bs != [] {
      var init, last := bs[..|bs| - 1], bs[|bs| - 1];
      SharesBounds(init, total);
      ShareBounds(last.size, total);
      var f, g, n := SumShare(init, total), Share(last.size, total), |init|;
      assert (f + g) * total == f * total + g * total;
      assert (f + g + (n + 1)) * total == (f + n) * total + (g + 1) * total;
    }
  }

  lemma Cancel(a: int, b: int, t: int)
    requires t > 0
    ensures a * t <= b * t ==> a <= b
    ensures a * t < b * t ==> a < b
  {
    if a > b {
      assert (a - b) * t > 0;
      assert (a - b) * t == a * t - b * t;
    }
  }

  /** Rounding down loses less than one hash value for each brick. */
  lemma LeftoverBounds(bs: seq<Brick>)
    requires SumSize(bs) > 0
    ensures 0 <= HASH_SPACE - SumShare(bs, SumSize(bs)) < |bs|
  {
    var total := SumSize(bs);
    SharesBounds(bs, total);
    Cancel(SumShare(bs, total), HASH_SPACE, total);
    Cancel(HASH_SPACE, SumShare(bs, total) + |bs|, total);
  }

  datatype CalcError = ZeroDivision | NoBricks

  /** The same bricks with other shares. */
  ghost predicate SameBut(bs: seq<Brick>, bs': seq<Brick>) {
    |bs'| == |bs| && forall i | 0 <= i < |bs| :: bs'[i] == bs[i].(good := bs'[i].good)
  }

  /** Brick j takes what rounding left over, on top of its share. */
  ghost predicate SharedOut(bs: seq<Brick>, total: nat, leftover: int, j: int)
    requires total > 0
  {
    forall i | 0 <= i < |bs| ::
      bs[i].good == Share(bs[i].size, total) + (if i == j then leftover else 0)
  }

  lemma {:induction false} SumGoodAtShares(bs: seq<Brick>, total: nat)
    requires total > 0 && SharedOut(bs, total, 0, -1)
    ensures SumGood(bs) == SumShare(bs, total)
    decreases |bs|
  {
    if bs != [] {
      var init := bs[..|bs| - 1];
      assert forall i | 0 <= i < |init| :: init[i] == bs[i];
      SumGoodAtShares(init, total);
    }
  }

  lemma {:induction false} SumGoodOfNothing(bs: seq<Brick>)
    requires forall i | 0 <= i < |bs| :: bs[i].good == 0
    ensures SumGood(bs) == 0
    decreases |bs|
  {
    if bs != [] {
      SumGoodOfNothing(bs[..|bs| - 1]);
    }
  }

  lemma {:induction false} SumGoodUpdate(bs: seq<Brick>, j: nat, g: int)
    requires j < |bs|
    ensures SumGood(bs[j := bs[j].(good := g)]) == SumGood(bs) - bs[j].good + g
    decreases |bs|
  {
    var bs' := bs[j := bs[j].(good := g)];
    var n := |bs| - 1;
    if j == n {
      assert bs'[..n] == bs[..n];
    } else {
      assert bs'[..n] == bs[..n][j := bs[j].(good := g)];
      SumGoodUpdate(bs[..n], j, g);
    }
  }

  lemma {:induction false} SumsIgnoreGood(bs: seq<Brick>, bs': seq<Brick>)
    requires SameBut(bs, bs')
    ensures SumSize(bs') == SumSize(bs)
    ensures forall total: nat | total > 0 :: SumShare(bs', total) == SumShare(bs, total)
    decreases |bs|
  {
    if bs != [] {
      SumsIgnoreGood(bs[..|bs| - 1], bs'[..|bs| - 1]);
    }
  }

  /** The first loop of calc_sizes(): every brick's share, rounded down. */
  method RoundedShares(bricks: seq<Brick>, total: nat) returns (r: Result<seq<Brick>, CalcError>, leftover: int)
    ensures r.Failure? <==> total == 0 && exists b | b in bricks :: b.size > 0
    ensures r.Failure? ==> r.error == ZeroDivision
    ensures r.Success? ==> SameBut(bricks, r.value) && leftover == HASH_SPACE - SumGood(r.value)
    ensures r.Success? && total == 0 ==> forall i | 0 <= i < |bricks| :: r.value[i].good == 0
    ensures r.Success? && total > 0 ==> SharedOut(r.value, total, 0, -1)
  {
    var bs := bricks;
    leftover := HASH_SPACE;
    var i := 0;
    while i < |bs|
      invariant 0 <= i <= |bs| && SameBut(bricks, bs)
      invariant leftover == HASH_SPACE - SumGood(bs[..i])
      invariant total == 0 ==> forall k | 0 <= k < i :: bs[k].size == 0 && bs[k].good == 0
      invariant total > 0 ==> SharedOut(bs[..i], total, 0, -1)
    {
      if bs[i].size != 0 && total == 0 {
        assert bricks[i] in bricks && bricks[i].size == bs[i].size;
        return Failure(ZeroDivision), leftover;
      }
      ghost var done := bs[..i];
      bs := bs[i := bs[i].(good := Share(bs[i].size, total))];
      leftover := leftover - bs[i].good;
      assert bs[..i] == done && bs[..i + 1][..i] == done;
      i := i + 1;
    }
    assert bs[..i] == bs;
    r := Success(bs);
  }

  /** What rounding left over goes to the first brick with a share, or to the first brick. */
  method GiveLeftover(bs: seq<Brick>, leftover: int) returns (r: seq<Brick>, taker: nat)
    requires bs != []
    ensures taker < |bs| && r == bs[taker := bs[taker].(good := bs[taker].good + leftover)]
    ensures SumGood(r) == SumGood(bs) + leftover && SameBut(bs, r)
    ensures bs[taker].good != 0 || forall i | 0 <= i < |bs| :: bs[i].good == 0
    ensures forall i | 0 <= i < taker :: bs[i].good == 0
  {
    taker := FirstShare(bs);
    SumGoodUpdate(bs, taker, bs[taker].good + leftover);
    r := bs[taker := bs[taker].(good := bs[taker].good + leftover)];
  }

  lemma NoShareOfNothing()
    ensures SumGood([]) == 0
  {
  }

  /** Shares by size add up to no more than the hash space, and none is negative. */
  lemma RoundedTotals(bricks: seq<Brick>, bs: seq<Brick>, total: nat, leftover: int)
    requires SameBut(bricks, bs) && leftover == HASH_SPACE - SumGood(bs)
    requires total == 0 ==> forall i | 0 <= i < |bricks| :: bs[i].good == 0
    requires total > 0 ==> SharedOut(bs, total, 0, -1)
    ensures total > 0 ==> leftover == HASH_SPACE - SumShare(bricks, total)
    ensures total == SumSize(bricks) ==> leftover >= 0
    ensures forall i | 0 <= i < |bs| :: bs[i].good >= 0
  {
    SumsIgnoreGood(bricks, bs);
    if total > 0 {
      SumGoodAtShares(bs, total);
      if total == SumSize(bricks) { LeftoverBounds(bricks); }
    } else {
      SumGoodOfNothing(bs);
    }
  }

  /**
   calc_sizes(): shares by size, then what rounding left over to one brick. The shares always add
   up to the whole hash space.
   */
  method CalcSizes(bricks: seq<Brick>, total: nat) returns (r: Result<seq<Brick>, CalcError>, taker: nat)
    ensures r == Failure(ZeroDivision) <==> total == 0 && exists b | b in bricks :: b.size > 0
    ensures r == Failure(NoBricks) <==> bricks == []
    ensures r.Failure? ==> bricks == [] || total == 0
    ensures r.Success? ==> SameBut(bricks, r.value) && SumGood(r.value) == HASH_SPACE
    ensures r.Success? && total > 0 ==>
              && taker < |bricks|
              && SharedOut(r.value, total, HASH_SPACE - SumShare(bricks, total), taker)
              && (forall i | 0 <= i < taker :: r.value[i].good == 0)
              && (HASH_SPACE != SumShare(bricks, total) ==>
                    Share(bricks[taker].size, total) > 0 || forall i | 0 <= i < |bricks| :: Share(bricks[i].size, total) == 0)
    ensures r.Success? && total == SumSize(bricks) ==>
              forall i | 0 <= i < |bricks| :: r.value[i].good >= 0
  {
    hide SumSize; hide SumShare; hide SumGood;
    var leftover;
    taker := 0;
    r, leftover := RoundedShares(bricks, total);
    if r.Failure? {
      return;
    }
    var bs := r.value;
    RoundedTotals(bricks, bs, total, leftover);
    NoShareOfNothing();
    if leftover != 0 {
      if bs == [] {
        return Failure(NoBricks), 0;
      }
      bs, taker := GiveLeftover(bs, leftover);
    }
    r := Success(bs);
  }

  /** The first brick with a share, or the first brick. */
  method FirstShare(bs: seq<Brick>) returns (j: nat)
    requires bs != []
    ensures j < |bs|
    ensures bs[j].good != 0 || (j == 0 && forall i | 0 <= i < |bs| :: bs[i].good == 0)
    ensures forall i | 0 <= i < j :: bs[i].good == 0
  {
    j := 0;
    while j < |bs|
      invariant j <= |bs| && forall i | 0 <= i < j :: bs[i].good == 0
    {
      if bs[j].good != 0 {
        return;
      }
      j := j + 1;
    }
    j := 0;
  }

  // ---------------------------------------------------------------- score

  /** Hash values that [start, start + good) and the old range have in common. */
  function Overlap(start: int, b: Brick): nat {
    if b.range.None? then 0
    else
      var lo := if start > b.range.value.start then start else b.range.value.start;
      var hi := if start + b.good - 1 < b.range.value.end then start + b.good - 1 else b.range.value.end;
      if lo <= hi then hi - lo + 1 else 0
  }

  function Score(bs: seq<Brick>): nat {
    if bs == [] then 0
    else Score(bs[..|bs| - 1]) + Overlap(SumGood(bs[..|bs| - 1]), bs[|bs| - 1])
  }

  method GetScore(bricks: seq<Brick>) returns (score: nat)
    ensures score == Score(bricks)
  {
    score := 0;
    var currHash := 0;
    for i := 0 to |bricks|
      invariant score == Score(bricks[..i]) && currHash == SumGood(bricks[..i])
    {
      assert bricks[..i + 1][..i] == bricks[..i];
      var b := bricks[i];
      if b.range.None? || b.range.value.end - b.range.value.start + 1 == 0 {
        currHash := currHash + b.good;
      } else {
        var newStart := currHash;
        currHash := currHash + b.good;
        var newEnd := currHash - 1;
        var maxStart := if newStart > b.range.value.start then newStart else b.range.value.start;
        var minEnd := if newEnd < b.range.value.end then newEnd else b.range.value.end;
        if maxStart <= minEnd {
          score := score + (minEnd - maxStart + 1);
        }
      }
    }
    assert bricks[..|bricks|] == bricks;
  }

  predicate Shared(bs: seq<Brick>) {
    forall i | 0 <= i < |bs| :: bs[i].good >= 0
  }

  /** Brick i owns h once the shares are laid end to end. */
  predicate OwnsNew(bs: seq<Brick>, i: nat, h: int)
    requires i < |bs|
  {
    SumGood(bs[..i]) <= h < SumGood(bs[..i]) + bs[i].good
  }

  /** The owner of h is the same before and after. */
  ghost predicate Stays(bs: seq<Brick>, h: int) {
    exists i | 0 <= i < |bs| :: OwnsNew(bs, i, h) && Owns(bs[i], h)
  }

  ghost function Kept(bs: seq<Brick>): set<int> {
    set h | 0 <= h < SumGood(bs) && Stays(bs, h)
  }

  /** The hash values that brick b, laid at start, has in common with its old range. */
  ghost function Common(start: int, b: Brick): set<int> {
    set h | start <= h < start + b.good && Owns(b, h)
  }

  /** A set that holds exactly the integers of [lo, hi). */
  lemma {:induction false} IntervalSize(s: set<int>, lo: int, hi: int)
    requires lo <= hi && forall h :: h in s <==> lo <= h < hi
    ensures |s| == hi - lo
    decreases hi - lo
  {
    if lo == hi {
      assert forall h :: h !in s;
      assert s == {};
    } else {
      IntervalSize(s - {hi - 1}, lo, hi - 1);
    }
  }

  lemma CommonSize(start: int, b: Brick)
    ensures |Common(start, b)| == Overlap(start, b)
  {
    if Overlap(start, b) > 0 {
      var lo := if start > b.range.value.start then start else b.range.value.start;
      IntervalSize(Common(start, b), lo, lo + Overlap(start, b));
    } else {
      assert Common(start, b) == {};
    }
  }

  lemma {:induction false} SumGoodGrows(bs: seq<Brick>, i: nat)
    requires Shared(bs) && i <= |bs|
    ensures 0 <= SumGood(bs[..i]) <= SumGood(bs)
    decreases |bs|
  {
    if i == |bs| {
      assert bs[..i] == bs;
      if bs != [] { SumGoodGrows(bs[..|bs| - 1], |bs| - 1); }
    } else {
      assert bs[..|bs| - 1][..i] == bs[..i];
      SumGoodGrows(bs[..|bs| - 1], i);
    }
  }

  /** Whoever owns h in a layout without its last brick owns it below that brick's share. */
  lemma StaysBelow(bs: seq<Brick>, h: int)
    requires Shared(bs) && Stays(bs, h)
    ensures 0 <= h < SumGood(bs)
  {
    var i :| 0 <= i < |bs| && OwnsNew(bs, i, h) && Owns(bs[i], h);
    assert bs[..i + 1][..i] == bs[..i];
    SumGoodGrows(bs, i + 1);
    SumGoodGrows(bs, i);
  }

  lemma StaysStep(bs: seq<Brick>, h: int)
    requires bs != []
    ensures var n := |bs| - 1;
            Stays(bs, h) <==> Stays(bs[..n], h) || (OwnsNew(bs, n, h) && Owns(bs[n], h))
  {
    var n := |bs| - 1;
    var init := bs[..n];
    assert forall i | 0 <= i < n :: init[..i] == bs[..i];
    assert forall i | 0 <= i < n :: OwnsNew(bs, i, h) <==> OwnsNew(init, i, h);
  }

  /** Adding a brick at the end adds exactly the values it keeps. */
  lemma KeptStep(bs: seq<Brick>)
    requires Shared(bs) && bs != []
    ensures var n := |bs| - 1;
            && Kept(bs[..n]) !! Common(SumGood(bs[..n]), bs[n])
            && Kept(bs) == Kept(bs[..n]) + Common(SumGood(bs[..n]), bs[n])
  {
    var n := |bs| - 1;
    SumGoodGrows(bs, n);
    forall h
      ensures h in Kept(bs) <==> h in Kept(bs[..n]) + Common(SumGood(bs[..n]), bs[n])
    {
      StaysStep(bs, h);
      if Stays(bs[..n], h) { StaysBelow(bs[..n], h); }
    }
  }

  /** get_score() counts the hash values that keep their brick. */
  lemma {:induction false} ScoreCounts(bs: seq<Brick>)
    requires Shared(bs)
    ensures Score(bs) == |Kept(bs)|
    decreases |bs|
  {
    if bs == [] {
      assert Kept(bs) == {};
    } else {
      var n := |bs| - 1;
      ScoreCounts(bs[..n]);
      KeptStep(bs);
      CommonSize(SumGood(bs[..n]), bs[n]);
    }
  }

  // ---------------------------------------------------------------- normalisation

  /** The bricks cover [from, to) in order, without gap or overlap, by their old ranges. */
  ghost predicate Tiles(bs: seq<Brick>, from: int, to: int)
    decreases |bs|
  {
    if bs == [] then from == to
    else
      && bs[0].range.Some? && bs[0].range.value.start == from
      && Tiles(bs[1..], bs[0].range.value.end + 1, to)
  }

  lemma {:induction false} TilesSnoc(bs: seq<Brick>, b: Brick, from: int, to: int)
    requires Tiles(bs, from, to) && b.range.Some? && b.range.value.start == to
    ensures Tiles(bs + [b], from, b.range.value.end + 1)
    decreases |bs|
  {
    if bs == [] {
      assert bs + [b] == [b];
    } else {
      assert (bs + [b])[1..] == bs[1..] + [b];
      TilesSnoc(bs[1..], b, bs[0].range.value.end + 1, to);
    }
  }

  /** Ranges as read from the layout attribute: two 32-bit ends, not backwards. */
  predicate RangeOk(b: Brick) {
    b.range.Some? ==> 0 <= b.range.value.start <= b.range.value.end < HASH_SPACE
  }

  datatype Scan = Found(index: nat) | GapHere | NoLayout(at: nat)

  /** The inner scan: the first brick that starts at `hash`; a brick without a layout stops it. */
  method FindStart(bs: seq<Brick>, hash: int) returns (r: Scan)
    ensures r.Found? ==> r.index < |bs| && bs[r.index].range.Some? && bs[r.index].range.value.start == hash
    ensures r.NoLayout? ==> r.at < |bs| && bs[r.at].range.None?
    ensures var n := match r case Found(i) => i case GapHere => |bs| case NoLayout(i) => i;
            forall k | 0 <= k < n :: bs[k].range.Some? && bs[k].range.value.start != hash
  {
    var i := 0;
    while i < |bs|
      invariant i <= |bs|
      invariant forall k | 0 <= k < i :: bs[k].range.Some? && bs[k].range.value.start != hash
    {
      if bs[i].range.None? {
        return NoLayout(i);
      }
      if bs[i].range.value.start == hash {
        return Found(i);
      }
      i := i + 1;
    }
    r := GapHere;
  }

  /** The positions `at` pick the elements of a out of b, in order. */
  ghost predicate EmbedsAt(a: seq<Brick>, b: seq<Brick>, at: seq<nat>) {
    && |at| == |a|
    && (forall i | 0 <= i < |at| :: at[i] < |b| && b[at[i]] == a[i])
    && (forall i, j | 0 <= i < j < |at| :: at[i] < at[j])
  }

  function Without<T>(s: seq<T>, i: nat): (r: seq<T>)
    requires i < |s|
    ensures |r| == |s| - 1
  {
    s[..i] + s[i + 1..]
  }

  lemma WithoutKeeps(input: seq<Brick>, out: seq<Brick>, left: seq<Brick>, i: nat)
    requires i < |left| && multiset(out) + multiset(left) == multiset(input)
    ensures left[i] in input
    ensures multiset(out + [left[i]]) + multiset(Without(left, i)) == multiset(input)
  {
    assert left == left[..i] + [left[i]] + left[i + 1..];
    assert left[i] in multiset(input);
  }

  lemma WithoutEmbeds(a: seq<Brick>, b: seq<Brick>, at: seq<nat>, i: nat)
    requires i < |a| && EmbedsAt(a, b, at)
    ensures EmbedsAt(Without(a, i), b, Without(at, i))
  {
    var a', at' := Without(a, i), Without(at, i);
    assert forall k | 0 <= k < |a'| :: a'[k] == a[if k < i then k else k + 1] && at'[k] == at[if k < i then k else k + 1];
  }

  /** Where normalisation stands: the pulled-out bricks tile [0, hash), the others keep their order. */
  ghost predicate Pulling(input: seq<Brick>, out: seq<Brick>, left: seq<Brick>, at: seq<nat>, hash: int) {
    && multiset(out) + multiset(left) == multiset(input)
    && Tiles(out, 0, hash)
    && |at| == |left| && EmbedsAt(left, input, at)
  }

  lemma PullStep(input: seq<Brick>, out: seq<Brick>, left: seq<Brick>, at: seq<nat>, hash: int, i: nat)
    requires Pulling(input, out, left, at, hash) && i < |left|
    requires left[i].range.Some? && left[i].range.value.start == hash
    ensures left[i] in input
    ensures Pulling(input, out + [left[i]], Without(left, i), Without(at, i), left[i].range.value.end + 1)
  {
    hide Tiles; hide EmbedsAt; hide Without;
    WithoutKeeps(input, out, left, i);
    WithoutEmbeds(left, input, at, i);
    TilesSnoc(out, left[i], 0, hash);
  }

  lemma PullStart(input: seq<Brick>) returns (at: seq<nat>)
    ensures Pulling(input, [], input, at, 0)
  {
    at := seq(|input|, i => i);
  }

  // ---------------------------------------------------------------- which layouts are complete

  /** The bricks before the first one without a layout: the scan never gets past that one. */
  function Old(bs: seq<Brick>): seq<Brick> {
    if bs == [] || bs[0].range.None? then [] else [bs[0]] + Old(bs[1..])
  }

  predicate StartsAt(b: Brick, h: int) {
    b.range.Some? && b.range.value.start == h
  }

  /** The first brick that starts at h. */
  function FirstAt(bs: seq<Brick>, h: int): Option<Brick> {
    if bs == [] then None else if StartsAt(bs[0], h) then Some(bs[0]) else FirstAt(bs[1..], h)
  }

  /** r is the range of the first brick at its start. */
  predicate Picks(bs: seq<Brick>, r: Range) {
    var b := FirstAt(bs, r.start);
    b.Some? && b.value.range == Some(r)
  }

  ghost predicate RangesTile(rs: seq<Range>, from: int, to: int)
    decreases |rs|
  {
    if rs == [] then from == to else rs[0].start == from && RangesTile(rs[1..], rs[0].end + 1, to)
  }

  /** The ranges of the first bricks at their starts cover the hash space without gap or overlap. */
  ghost predicate Covers(bs: seq<Brick>) {
    exists t: seq<Range> :: (forall r | r in t :: Picks(bs, r)) && RangesTile(t, 0, HASH_SPACE)
  }

  lemma {:induction false} OldAt(bs: seq<Brick>, i: nat)
    requires i < |bs| && forall k | 0 <= k <= i :: bs[k].range.Some?
    ensures i < |Old(bs)| && Old(bs)[..i + 1] == bs[..i + 1]
    decreases i
  {
    var rest := bs[1..];
    assert Old(bs) == [bs[0]] + Old(rest);
    if i > 0 {
      OldAt(rest, i - 1);
      assert Old(bs)[..i + 1] == [bs[0]] + Old(rest)[..i] && bs[..i + 1] == [bs[0]] + rest[..i];
    }
  }

  lemma {:induction false} OldWithout(bs: seq<Brick>, i: nat)
    requires i < |Old(bs)| && i < |bs|
    ensures Old(Without(bs, i)) == Without(Old(bs), i)
    decreases i
  {
    var rest := bs[1..];
    assert Old(bs) == [bs[0]] + Old(rest);
    if i == 0 {
      assert Without(bs, 0) == rest && Without(Old(bs), 0) == Old(rest);
    } else {
      OldWithout(rest, i - 1);
      assert Without(bs, i) == [bs[0]] + Without(rest, i - 1);
      assert Without(bs, i)[1..] == Without(rest, i - 1);
      assert Without(Old(bs), i) == [bs[0]] + Without(Old(rest), i - 1);
    }
  }

  /** Nothing the scan for `hash` can reach starts there. */
  lemma {:induction false} OldNever(bs: seq<Brick>, n: nat, hash: int)
    requires n <= |bs| && (n < |bs| ==> bs[n].range.None?)
    requires forall k | 0 <= k < n :: bs[k].range.Some? && bs[k].range.value.start != hash
    ensures FirstAt(Old(bs), hash).None?
    decreases n
  {
    if n > 0 {
      assert forall k | 0 <= k < n - 1 :: bs[1..][k] == bs[k + 1];
      OldNever(bs[1..], n - 1, hash);
      assert Old(bs)[1..] == Old(bs[1..]);
    }
  }

  lemma {:induction false} FirstAtFound(bs: seq<Brick>, i: nat, h: int)
    requires i < |bs| && StartsAt(bs[i], h) && forall k | 0 <= k < i :: !StartsAt(bs[k], h)
    ensures FirstAt(bs, h) == Some(bs[i])
    decreases i
  {
    if i > 0 {
      assert forall k | 0 <= k < i - 1 :: bs[1..][k] == bs[k + 1];
      FirstAtFound(bs[1..], i - 1, h);
    }
  }

  lemma {:induction false} FirstAtWithout(bs: seq<Brick>, i: nat, h: int)
    requires i < |bs| && !StartsAt(bs[i], h)
    ensures FirstAt(Without(bs, i), h) == FirstAt(bs, h)
    decreases i
  {
    if i == 0 {
      assert Without(bs, 0) == bs[1..];
    } else {
      FirstAtWithout(bs[1..], i - 1, h);
      assert Without(bs, i)[0] == bs[0] && Without(bs, i)[1..] == Without(bs[1..], i - 1);
    }
  }

  /** From `hash` on the scan of what is left finds what the scan of all would find. */
  ghost predicate SameFrom(all: seq<Brick>, left: seq<Brick>, hash: int) {
    forall h | h >= hash :: FirstAt(left, h) == FirstAt(all, h)
  }

  lemma PickStep(all: seq<Brick>, left: seq<Brick>, hash: int, i: nat)
    requires SameFrom(all, left, hash) && i < |left| && StartsAt(left[i], hash) && RangeOk(left[i])
    requires forall k | 0 <= k < i :: !StartsAt(left[k], hash)
    ensures Picks(all, left[i].range.value)
    ensures SameFrom(all, Without(left, i), left[i].range.value.end + 1)
  {
    hide FirstAt; hide Without;
    FirstAtFound(left, i, hash);
    assert FirstAt(left, hash) == FirstAt(all, hash);
    forall h | h >= left[i].range.value.end + 1
      ensures FirstAt(Without(left, i), h) == FirstAt(all, h)
    {
      FirstAtWithout(left, i, h);
      assert FirstAt(left, h) == FirstAt(all, h);
    }
  }

  /** One round of the scan: the brick it takes is the first at its start among all that it may take. */
  lemma ScanStep(input: seq<Brick>, left: seq<Brick>, hash: int, i: nat)
    requires SameFrom(Old(input), Old(left), hash) && i < |left| && StartsAt(left[i], hash) && RangeOk(left[i])
    requires forall k | 0 <= k < i :: left[k].range.Some? && !StartsAt(left[k], hash)
    ensures Picks(Old(input), left[i].range.value)
    ensures SameFrom(Old(input), Old(Without(left, i)), left[i].range.value.end + 1)
  {
    hide FirstAt; hide Without; hide Picks; hide SameFrom; hide Old;
    OldAt(left, i);
    OldWithout(left, i);
    assert forall k | 0 <= k <= i :: Old(left)[k] == Old(left)[..i + 1][k] == left[..i + 1][k] == left[k];
    PickStep(Old(input), Old(left), hash, i);
  }

  ghost predicate AllPicked(bs: seq<Brick>, out: seq<Brick>) {
    forall i | 0 <= i < |out| :: RangeOk(out[i]) && out[i].range.Some? && Picks(bs, out[i].range.value)
  }

  function RangesOf(bs: seq<Brick>): seq<Range>
    requires forall i | 0 <= i < |bs| :: bs[i].range.Some?
  {
    seq(|bs|, i requires 0 <= i < |bs| => bs[i].range.value)
  }

  /** A tiling by bricks is a tiling by ranges. */
  lemma {:induction false} TilesRanges(bs: seq<Brick>, from: int, to: int)
    requires Tiles(bs, from, to) && forall i | 0 <= i < |bs| :: RangeOk(bs[i]) && bs[i].range.Some?
    ensures from <= to && RangesTile(RangesOf(bs), from, to)
    decreases |bs|
  {
    if bs != [] {
      TilesRanges(bs[1..], bs[0].range.value.end + 1, to);
      assert RangesOf(bs)[1..] == RangesOf(bs[1..]);
    }
  }

  /** A tiling by first ranges that goes further than `out` has a range where `out` ends. */
  lemma {:induction false} Extends(bs: seq<Brick>, out: seq<Brick>, from: int, to: int, t: seq<Range>)
    requires Tiles(out, from, to) && to < HASH_SPACE && AllPicked(bs, out)
    requires RangesTile(t, from, HASH_SPACE) && forall r | r in t :: Picks(bs, r)
    ensures FirstAt(bs, to).Some?
    decreases |out|
  {
    hide FirstAt;
    TilesRanges(out, from, to);
    assert t[0] in t;
    if out != [] {
      assert t[0] == out[0].range.value;
      Extends(bs, out[1..], out[0].range.value.end + 1, to, t[1..]);
    }
  }

  /** A gap that the scan meets is a gap: no choice of first bricks gets past it. */
  lemma GapIsReal(bs: seq<Brick>, out: seq<Brick>, hash: int)
    requires Tiles(out, 0, hash) && hash < HASH_SPACE && AllPicked(bs, out) && FirstAt(bs, hash).None?
    ensures !Covers(bs)
  {
    forall t: seq<Range> | (forall r | r in t :: Picks(bs, r)) && RangesTile(t, 0, HASH_SPACE)
      ensures false
    {
      Extends(bs, out, 0, hash, t);
    }
  }

  lemma TilingFound(bs: seq<Brick>, out: seq<Brick>)
    requires Tiles(out, 0, HASH_SPACE) && AllPicked(bs, out)
    ensures Covers(bs)
  {
    TilesRanges(out, 0, HASH_SPACE);
    var t := RangesOf(out);
    assert RangesTile(t, 0, HASH_SPACE) && forall r | r in t :: Picks(bs, r);
  }

  // ---------------------------------------------------------------- covering by any order

  ghost function Ranges(bs: seq<Brick>): set<Range> {
    set b | b in bs && b.range.Some? :: b.range.value
  }

  /** Some of the ranges, in some order, cover the hash space without gap or overlap. */
  ghost predicate Complete(rs: set<Range>) {
    exists t: seq<Range> :: (forall r | r in t :: r in rs) && RangesTile(t, 0, HASH_SPACE)
  }

  ghost predicate OneRangePerStart(rs: set<Range>) {
    forall r, s | r in rs && s in rs && r.start == s.start :: r == s
  }

  lemma {:induction false} FirstAtIn(bs: seq<Brick>, h: int)
    ensures FirstAt(bs, h).Some? ==> FirstAt(bs, h).value in bs && StartsAt(FirstAt(bs, h).value, h)
    ensures FirstAt(bs, h).None? ==> forall b | b in bs :: !StartsAt(b, h)
    decreases |bs|
  {
    if bs != [] {
      FirstAtIn(bs[1..], h);
    }
  }

  /** Where no two ranges share a start, any order of the bricks will do. */
  lemma CoversInAnyOrder(bs: seq<Brick>)
    ensures Covers(bs) ==> Complete(Ranges(bs))
    ensures OneRangePerStart(Ranges(bs)) && Complete(Ranges(bs)) ==> Covers(bs)
  {
    hide FirstAt;
    forall r: Range
      ensures Picks(bs, r) ==> r in Ranges(bs)
      ensures OneRangePerStart(Ranges(bs)) && r in Ranges(bs) ==> Picks(bs, r)
    {
      FirstAtIn(bs, r.start);
      if OneRangePerStart(Ranges(bs)) && r in Ranges(bs) {
        var b :| b in bs && b.range == Some(r);
        assert StartsAt(b, r.start);
        assert FirstAt(bs, r.start).value.range.value in Ranges(bs);
      }
    }
  }

  /** A complete layout behind a brick without one: the script sees nothing of it. */
  lemma NewBrickFirst(size: nat)
    ensures var new0 := Brick("new", size, None, 0);
            var old0 := Brick("old", size, Some(Range(0, HASH_SPACE - 1)), 0);
            Covers(Old([old0, new0])) && !Covers(Old([new0, old0]))
  {
    var new0 := Brick("new", size, None, 0);
    var old0 := Brick("old", size, Some(Range(0, HASH_SPACE - 1)), 0);
    assert Old([old0, new0]) == [old0];
    assert AllPicked([old0], [old0]) && Tiles([old0], 0, HASH_SPACE);
    TilingFound([old0], [old0]);
    GapIsReal([], [], 0);
  }

  lemma {:induction false} AllOld(bs: seq<Brick>)
    requires forall i | 0 <= i < |bs| :: bs[i].range.Some?
    ensures Old(bs) == bs
    decreases |bs|
  {
    if bs != [] {
      AllOld(bs[1..]);
    }
  }

  /** Two bricks that start at 0, the short one first: complete in some order, but not in this one. */
  lemma ShortBrickFirst(size: nat)
    ensures var short := Brick("short", size, Some(Range(0, 0)), 0);
            var full := Brick("full", size, Some(Range(0, HASH_SPACE - 1)), 0);
            Complete(Ranges(Old([short, full]))) && !Covers(Old([short, full])) && Covers(Old([full, short]))
  {
    var short := Brick("short", size, Some(Range(0, 0)), 0);
    var full := Brick("full", size, Some(Range(0, HASH_SPACE - 1)), 0);
    var bs := [short, full];
    AllOld(bs);
    AllOld([full, short]);
    assert AllPicked([full, short], [full]) && Tiles([full], 0, HASH_SPACE);
    TilingFound([full, short], [full]);
    CoversInAnyOrder([full, short]);
    assert Ranges([full, short]) == Ranges(bs);
    assert AllPicked(bs, [short]) && Tiles([short], 0, 1);
    FirstAtIn(bs, 1);
    GapIsReal(bs, [short], 1);
  }

  datatype Normalized = Done | Gap(hash: int) | MissingLayout(hash: int)

  /** The first brick that decides the scan for `hash` has no layout. */
  ghost predicate Blocked(left: seq<Brick>, hash: int) {
    exists i | 0 <= i < |left| ::
      left[i].range.None? && forall k | 0 <= k < i :: left[k].range.Some? && left[k].range.value.start != hash
  }

  /**
   normalize(): pull out the brick that starts where the last one ended, until the hash space is
   covered. `bricks` is the pulled-out prefix followed by what is left, in its old order. It succeeds
   exactly when, among the bricks before the first one without a layout, the first ones at their
   starts cover the space.
   */
  method Normalize(input: seq<Brick>) returns (r: Normalized, bricks: seq<Brick>, used: nat, ghost at: seq<nat>)
    requires forall b | b in input :: RangeOk(b)
    ensures multiset(bricks) == multiset(input) && used <= |bricks|
    ensures EmbedsAt(bricks[used..], input, at)
    ensures r.Done? ==> Tiles(bricks[..used], 0, HASH_SPACE)
    ensures !r.Done? ==> r.hash < HASH_SPACE && Tiles(bricks[..used], 0, r.hash)
    ensures r.Gap? ==> forall b | b in bricks[used..] :: b.range.Some? && b.range.value.start != r.hash
    ensures r.MissingLayout? ==> Blocked(bricks[used..], r.hash)
    ensures r.Done? <==> Covers(Old(input))
  {
    hide Tiles; hide EmbedsAt; hide Without; hide Old; hide Covers; hide Picks; hide FirstAt;
    var left, out, currHash := input, [], 0;
    used := 0;
    r := Done;
    at := PullStart(input);
    while currHash < HASH_SPACE
      invariant used == |out| && currHash <= HASH_SPACE
      invariant Pulling(input, out, left, at, currHash)
      invariant AllPicked(Old(input), out) && SameFrom(Old(input), Old(left), currHash)
      invariant r.Done?
      decreases |left|
    {
      var scan := FindStart(left, currHash);
      match scan
      case Found(i) =>
        var b := left[i];
        PullStep(input, out, left, at, currHash, i);
        ScanStep(input, left, currHash, i);
        at := Without(at, i);
        out, left := out + [b], Without(left, i);
        used := used + 1;
        currHash := b.range.value.end + 1;
      case GapHere =>
        r := Gap(currHash);
        OldNever(left, |left|, currHash);
        break;
      case NoLayout(i) =>
        r := MissingLayout(currHash);
        assert Blocked(left, currHash);
        OldNever(left, i, currHash);
        break;
    }
    if r.Done? {
      TilingFound(Old(input), out);
    } else {
      assert FirstAt(Old(left), currHash) == FirstAt(Old(input), currHash);
      GapIsReal(Old(input), out, currHash);
    }
    bricks := out + left;
    assert bricks[..used] == out && bricks[used..] == left;
  }

  // ---------------------------------------------------------------- placement

  /** Takes the brick at `from` out and puts it back at `to`. */
  function Move(bs: seq<Brick>, from: nat, to: nat): seq<Brick>
    requires to <= from < |bs|
  {
    bs[..to] + [bs[from]] + bs[to..from] + bs[from + 1..]
  }

  lemma MoveKeeps(bs: seq<Brick>, from: nat, to: nat)
    requires to <= from < |bs|
    ensures |Move(bs, from, to)| == |bs|
    ensures multiset(Move(bs, from, to)) == multiset(bs)
    ensures Move(bs, from, from) == bs
  {
    assert bs == bs[..to] + bs[to..from] + [bs[from]] + bs[from + 1..];
  }

  /** All other bricks keep their relative order. */
  lemma MoveOnlyMovesOne(bs: seq<Brick>, from: nat, to: nat)
    requires to <= from < |bs|
    ensures |Move(bs, from, to)| == |bs| && Move(bs, from, to)[to] == bs[from]
    ensures Without(Move(bs, from, to), to) == Without(bs, from)
  {
  }

  /** The score with the brick at `used` moved to i. */
  function ScoreAt(bs: seq<Brick>, used: nat, i: nat): nat
    requires i <= used < |bs|
  {
    Score(Move(bs, used, i))
  }

  lemma ScoreAtIs(bs: seq<Brick>, used: nat, i: nat)
    requires i <= used < |bs|
    ensures ScoreAt(bs, used, i) == Score(Move(bs, used, i))
  {
  }

  /** `place` is the first position of the best score, except that staying put wins every tie. */
  ghost predicate Best(bs: seq<Brick>, used: nat, place: nat)
    requires used < |bs|
  {
    && place <= used
    && (forall i: nat | i <= used :: ScoreAt(bs, used, i) <= ScoreAt(bs, used, place))
    && (place < used ==> ScoreAt(bs, used, used) < ScoreAt(bs, used, place))
    && (place < used ==> forall i: nat | i < place :: ScoreAt(bs, used, i) < ScoreAt(bs, used, place))
  }

  /** `del` at used, then `insert` at i. */
  method Reinsert(bricks: seq<Brick>, used: nat, i: nat) returns (out: seq<Brick>)
    requires i <= used < |bricks|
    ensures out == Move(bricks, used, i)
  {
    out := bricks[..used] + bricks[used + 1..];
    out := out[..i] + [bricks[used]] + out[i..];
  }

  /** One round of the greedy loop: try the brick at `used` in every place up to its own. */
  method PlaceOne(bricks: seq<Brick>, used: nat) returns (out: seq<Brick>, place: nat)
    requires used < |bricks|
    ensures Best(bricks, used, place) && out == Move(bricks, used, place)
    ensures |out| == |bricks| && place <= used && out[place] == bricks[used]
    ensures Without(out, place) == Without(bricks, used)
  {
    hide Move; hide Score; hide ScoreAt;
    MoveKeeps(bricks, used, used);
    ScoreAtIs(bricks, used, used);
    place := used;
    var bestScore := GetScore(bricks);
    for i := 0 to used
      invariant place <= used && (place < i || place == used)
      invariant bestScore == ScoreAt(bricks, used, place) >= ScoreAt(bricks, used, used)
      invariant place < used ==> bestScore > ScoreAt(bricks, used, used)
      invariant forall k: nat | k < i :: ScoreAt(bricks, used, k) <= bestScore
      invariant place < used ==> forall k: nat | k < place :: ScoreAt(bricks, used, k) < bestScore
    {
      var newBricks := Reinsert(bricks, used, i);
      var newScore := GetScore(newBricks);
      ScoreAtIs(bricks, used, i);
      if newScore > bestScore {
        place := i;
        bestScore := newScore;
      }
    }
    out := bricks;
    if place != used {
      out := Reinsert(bricks, used, place);
    }
    MoveOnlyMovesOne(bricks, used, place);
  }

  predicate ValidPlaces(bs: seq<Brick>, used: nat, places: seq<nat>) {
    forall i | 0 <= i < |places| :: places[i] <= used + i < |bs|
  }

  /** The list after each brick from `used` on has been moved to its place in turn. */
  function Placed(bs: seq<Brick>, used: nat, places: seq<nat>): (out: seq<Brick>)
    requires ValidPlaces(bs, used, places)
    ensures |out| == |bs|
    decreases |places|
  {
    if places == [] then bs
    else
      var n := |places| - 1;
      Move(Placed(bs, used, places[..n]), used + n, places[n])
  }

  /** Each brick went to the best place there was in its round. */
  ghost predicate GreedyRun(bs: seq<Brick>, used: nat, places: seq<nat>)
    requires ValidPlaces(bs, used, places)
    decreases |places|
  {
    places == [] ||
    var n := |places| - 1;
    GreedyRun(bs, used, places[..n]) && Best(Placed(bs, used, places[..n]), used + n, places[n])
  }

  /** The list is what the recorded places make of the input, each of them the best in its round. */
  ghost predicate PlacedGreedily(input: seq<Brick>, start: nat, bricks: seq<Brick>, places: seq<nat>) {
    && ValidPlaces(input, start, places)
    && bricks == Placed(input, start, places)
    && GreedyRun(input, start, places)
  }

  lemma PlacedNothing(input: seq<Brick>, start: nat)
    ensures PlacedGreedily(input, start, input, [])
  {
  }

  lemma BestInRange(bs: seq<Brick>, used: nat, place: nat)
    requires used < |bs| && Best(bs, used, place)
    ensures place <= used && |Move(bs, used, place)| == |bs|
  {
  }

  lemma PlacedSnoc(input: seq<Brick>, start: nat, bricks: seq<Brick>, places: seq<nat>, place: nat)
    requires PlacedGreedily(input, start, bricks, places)
    requires start + |places| < |bricks| && Best(bricks, start + |places|, place)
    ensures PlacedGreedily(input, start, Move(bricks, start + |places|, place), places + [place])
  {
    hide Move; hide Placed; hide GreedyRun; hide ScoreAt;
    PlacedLast(input, start, places, place);
  }

  lemma PlacedLast(bs: seq<Brick>, used: nat, places: seq<nat>, place: nat)
    requires ValidPlaces(bs, used, places) && place <= used + |places| < |bs|
    ensures ValidPlaces(bs, used, places + [place])
    ensures Placed(bs, used, places + [place]) == Move(Placed(bs, used, places), used + |places|, place)
    ensures GreedyRun(bs, used, places + [place]) <==>
              GreedyRun(bs, used, places) && Best(Placed(bs, used, places), used + |places|, place)
  {
    hide Move; hide Best;
    assert (places + [place])[..|places|] == places;
  }

  /** The placement loop: `places` records where each new brick went. */
  method Greedy(input: seq<Brick>, start: nat) returns (bricks: seq<Brick>, places: seq<nat>)
    requires start <= |input|
    ensures |places| == |input| - start && PlacedGreedily(input, start, bricks, places)
  {
    hide Move; hide Best; hide PlacedGreedily;
    PlacedNothing(input, start);
    bricks, places := input, [];
    var used := start;
    while used < |bricks|
      invariant start <= used <= |bricks| == |input| && |places| == used - start
      invariant PlacedGreedily(input, start, bricks, places)
    {
      var next, place := PlaceOne(bricks, used);
      BestInRange(bricks, used, place);
      PlacedSnoc(input, start, bricks, places, place);
      bricks, places := next, places + [place];
      used := used + 1;
    }
  }

  lemma BestNotWorse(bs: seq<Brick>, used: nat, place: nat)
    requires used < |bs| && Best(bs, used, place)
    ensures Score(Move(bs, used, place)) >= Score(bs)
  {
    MoveKeeps(bs, used, used);
    assert ScoreAt(bs, used, used) <= ScoreAt(bs, used, place);
  }

  /** The greedy loop permutes the bricks and never ends with a lower score. */
  lemma {:induction false} GreedyKeeps(bs: seq<Brick>, used: nat, places: seq<nat>)
    requires ValidPlaces(bs, used, places) && GreedyRun(bs, used, places)
    ensures multiset(Placed(bs, used, places)) == multiset(bs)
    ensures Score(Placed(bs, used, places)) >= Score(bs)
    decreases |places|
  {
    hide Score; hide Move; hide Best; hide ScoreAt;
    if places != [] {
      var n := |places| - 1;
      var mid := Placed(bs, used, places[..n]);
      GreedyKeeps(bs, used, places[..n]);
      MoveKeeps(mid, used + n, places[n]);
      BestNotWorse(mid, used + n, places[n]);
    }
  }

  /** Where element k goes when a later element is moved to `to`. */
  function Shifted(k: nat, to: nat): nat {
    if k < to then k else k + 1
  }

  lemma MoveAt(bs: seq<Brick>, from: nat, to: nat, k: nat)
    requires to <= from < |bs| && k < from
    ensures Move(bs, from, to)[Shifted(k, to)] == bs[k]
  {
  }

  lemma MoveEmbeds(a: seq<Brick>, bs: seq<Brick>, from: nat, to: nat, was: seq<nat>) returns (at: seq<nat>)
    requires to <= from < |bs| && EmbedsAt(a, bs, was) && forall i | 0 <= i < |was| :: was[i] < from
    ensures EmbedsAt(a, Move(bs, from, to), at)
    ensures forall i | 0 <= i < |at| :: at[i] <= from
  {
    at := seq(|was|, i requires 0 <= i < |was| => Shifted(was[i], to));
    forall i | 0 <= i < |at|
      ensures at[i] < |bs| && Move(bs, from, to)[at[i]] == a[i]
    {
      MoveAt(bs, from, to, was[i]);
    }
  }

  lemma PrefixEmbeds(bs: seq<Brick>, n: nat) returns (at: seq<nat>)
    requires n <= |bs|
    ensures EmbedsAt(bs[..n], bs, at) && |at| == n
    ensures forall i | 0 <= i < |at| :: at[i] < n
  {
    at := seq(n, i => i);
  }

  /** The list after the first m rounds. */
  function AfterRounds(bs: seq<Brick>, used: nat, places: seq<nat>, m: nat): (out: seq<Brick>)
    requires ValidPlaces(bs, used, places) && m <= |places|
    ensures |out| == |bs|
  {
    Placed(bs, used, places[..m])
  }

  /** The bricks that have a place after m rounds keep their order in all later rounds. */
  lemma {:induction false} GreedyKeepsOrder(bs: seq<Brick>, used: nat, places: seq<nat>, m: nat) returns (at: seq<nat>)
    requires used <= |bs| && ValidPlaces(bs, used, places) && m <= |places|
    ensures used + |places| <= |bs|
    ensures EmbedsAt(AfterRounds(bs, used, places, m)[..used + m], Placed(bs, used, places), at)
    ensures forall i | 0 <= i < |at| :: at[i] < used + |places|
    decreases |places|
  {
    hide Move; hide EmbedsAt; hide Placed;
    assert places != [] ==> places[|places| - 1] <= used + |places| - 1 < |bs|;
    if m == |places| {
      assert places[..m] == places;
      at := PrefixEmbeds(Placed(bs, used, places), used + m);
    } else {
      var n := |places| - 1;
      assert places[..n][..m] == places[..m];
      var was := GreedyKeepsOrder(bs, used, places[..n], m);
      at := MoveEmbeds(AfterRounds(bs, used, places, m)[..used + m], Placed(bs, used, places[..n]), used + n, places[n], was);
      PlacedUnfold(bs, used, places);
    }
  }

  lemma PlacedUnfold(bs: seq<Brick>, used: nat, places: seq<nat>)
    requires ValidPlaces(bs, used, places) && places != []
    ensures var n := |places| - 1;
            Placed(bs, used, places) == Move(Placed(bs, used, places[..n]), used + n, places[n])
  {
  }

  /** The bricks whose turn has not come stand where they stood. */
  lemma {:induction false} WaitingStay(bs: seq<Brick>, used: nat, places: seq<nat>)
    requires used + |places| <= |bs| && ValidPlaces(bs, used, places)
    ensures Placed(bs, used, places)[used + |places|..] == bs[used + |places|..]
    decreases |places|
  {
    if places != [] {
      var n := |places| - 1;
      var mid := Placed(bs, used, places[..n]);
      WaitingStay(bs, used, places[..n]);
      assert Move(mid, used + n, places[n])[used + n + 1..] == mid[used + n..][1..] == bs[used + n + 1..];
    }
  }

  ghost predicate Embeds(a: seq<Brick>, b: seq<Brick>) {
    exists at :: EmbedsAt(a, b, at)
  }

  /** After every round: the bricks placed so far keep their order to the end, the others still wait. */
  ghost predicate OrderKept(bs: seq<Brick>, used: nat, places: seq<nat>)
    requires used + |places| <= |bs| && ValidPlaces(bs, used, places)
  {
    forall m | 0 <= m <= |places| ::
      && Embeds(AfterRounds(bs, used, places, m)[..used + m], Placed(bs, used, places))
      && AfterRounds(bs, used, places, m)[used + m..] == bs[used + m..]
  }

  lemma RunKeepsOrder(bs: seq<Brick>, used: nat, places: seq<nat>)
    requires used + |places| <= |bs| && ValidPlaces(bs, used, places)
    ensures OrderKept(bs, used, places)
  {
    hide Placed; hide EmbedsAt;
    forall m | 0 <= m <= |places|
      ensures Embeds(AfterRounds(bs, used, places, m)[..used + m], Placed(bs, used, places))
      ensures AfterRounds(bs, used, places, m)[used + m..] == bs[used + m..]
    {
      var at := GreedyKeepsOrder(bs, used, places, m);
      WaitingStay(bs, used, places[..m]);
    }
  }

  // ---------------------------------------------------------------- the new layout

  /** Each brick's new range is its share, starting where the shares before it end. */
  ghost predicate LaidOut(input: seq<Brick>, bricks: seq<Brick>) {
    && |bricks| == |input|
    && forall i | 0 <= i < |input| :: bricks[i] == WithRange(input, i)
  }

  function WithRange(input: seq<Brick>, i: nat): Brick
    requires i < |input|
  {
    var start := SumGood(input[..i]);
    input[i].(range := Some(Range(start, start + input[i].good - 1)))
  }

  /** The finalising loop. */
  method Finalize(input: seq<Brick>) returns (bricks: seq<Brick>)
    ensures LaidOut(input, bricks)
  {
    bricks := input;
    var currHash := 0;
    for n := 0 to |bricks|
      invariant |bricks| == |input| && currHash == SumGood(input[..n])
      invariant forall i | 0 <= i < n :: bricks[i] == WithRange(input, i)
      invariant forall i | n <= i < |input| :: bricks[i] == input[i]
    {
      var start := currHash;
      currHash := currHash + bricks[n].good;
      assert input[..n + 1][..n] == input[..n];
      bricks := bricks[n := bricks[n].(range := Some(Range(start, currHash - 1)))];
    }
  }

  ghost predicate HasOwner(bs: seq<Brick>, h: int) {
    exists i | 0 <= i < |bs| :: Owns(bs[i], h)
  }

  /** Every hash value has exactly one brick. */
  ghost predicate Partition(bs: seq<Brick>) {
    && (forall h | 0 <= h < HASH_SPACE :: HasOwner(bs, h))
    && (forall i, h | 0 <= i < |bs| && Owns(bs[i], h) :: 0 <= h < HASH_SPACE)
    && (forall i, j, h | 0 <= i < |bs| && 0 <= j < |bs| && Owns(bs[i], h) && Owns(bs[j], h) :: i == j)
  }

  lemma {:induction false} OwnerExists(bs: seq<Brick>, h: int) returns (i: nat)
    requires 0 <= h < SumGood(bs)
    ensures i < |bs| && OwnsNew(bs, i, h)
    decreases |bs|
  {
    var n := |bs| - 1;
    if h < SumGood(bs[..n]) {
      i := OwnerExists(bs[..n], h);
      assert bs[..n][..i] == bs[..i];
    } else {
      i := n;
    }
  }

  lemma OwnersOrdered(bs: seq<Brick>, i: nat, j: nat, h: int)
    requires Shared(bs) && i < j < |bs| && OwnsNew(bs, i, h)
    ensures !OwnsNew(bs, j, h)
  {
    assert bs[..j][..i + 1] == bs[..i + 1] && bs[..i + 1][..i] == bs[..i];
    SumGoodGrows(bs[..j], i + 1);
  }

  /** Shares that add up to the hash space, laid end to end, are a partition of it. */
  lemma FinalizedPartition(input: seq<Brick>, bs: seq<Brick>)
    requires Shared(input) && SumGood(input) == HASH_SPACE && LaidOut(input, bs)
    ensures Partition(bs)
  {
    assert forall i, h | 0 <= i < |bs| :: Owns(bs[i], h) <==> OwnsNew(input, i, h);
    forall h | 0 <= h < HASH_SPACE
      ensures HasOwner(bs, h)
    {
      var i := OwnerExists(input, h);
      assert Owns(bs[i], h);
    }
    forall i, h | 0 <= i < |bs| && Owns(bs[i], h)
      ensures 0 <= h < HASH_SPACE
    {
      assert input[..i + 1][..i] == input[..i];
      SumGoodGrows(input, i);
      SumGoodGrows(input, i + 1);
    }
    forall i, j, h | 0 <= i < |bs| && 0 <= j < |bs| && Owns(bs[i], h) && Owns(bs[j], h)
      ensures i == j
    {
      if i < j { OwnersOrdered(input, i, j, h); }
      if j < i { OwnersOrdered(input, j, i, h); }
    }
  }

  // ---------------------------------------------------------------- the whole script

  lemma {:induction false} SumGoodWithout(bs: seq<Brick>, i: nat)
    requires i < |bs|
    ensures SumGood(bs) == SumGood(Without(bs, i)) + bs[i].good
    decreases |bs|
  {
    var n := |bs| - 1;
    if i == n {
      assert Without(bs, i) == bs[..n];
    } else {
      SumGoodWithout(bs[..n], i);
      assert Without(bs, i)[..n - 1] == Without(bs[..n], i);
    }
  }

  lemma MultisetWithout(bs: seq<Brick>, i: nat)
    requires i < |bs|
    ensures multiset(Without(bs, i)) == multiset(bs) - multiset{bs[i]}
  {
    assert bs == bs[..i] + [bs[i]] + bs[i + 1..];
  }

  lemma {:induction false} SumGoodPermuted(xs: seq<Brick>, ys: seq<Brick>)
    requires multiset(xs) == multiset(ys)
    ensures SumGood(xs) == SumGood(ys)
    decreases |xs|
  {
    if xs == [] {
      assert |multiset(ys)| == 0;
    } else {
      assert xs[0] in multiset(ys);
      var i :| 0 <= i < |ys| && ys[i] == xs[0];
      SumGoodWithout(xs, 0);
      SumGoodWithout(ys, i);
      MultisetWithout(xs, 0);
      MultisetWithout(ys, i);
      SumGoodPermuted(Without(xs, 0), Without(ys, i));
    }
  }

  lemma {:induction false} OldIgnoresGood(bs: seq<Brick>, bs': seq<Brick>)
    requires SameBut(bs, bs')
    ensures SameBut(Old(bs), Old(bs'))
    decreases |bs|
  {
    if bs != [] {
      OldIgnoresGood(bs[1..], bs'[1..]);
    }
  }

  lemma {:induction false} FirstAtIgnoresGood(bs: seq<Brick>, bs': seq<Brick>, h: int)
    requires SameBut(bs, bs')
    ensures FirstAt(bs', h).Some? <==> FirstAt(bs, h).Some?
    ensures FirstAt(bs, h).Some? ==> FirstAt(bs', h).value.range == FirstAt(bs, h).value.range
    decreases |bs|
  {
    if bs != [] {
      FirstAtIgnoresGood(bs[1..], bs'[1..], h);
    }
  }

  lemma CoversIgnoresGood(bs: seq<Brick>, bs': seq<Brick>)
    requires SameBut(bs, bs')
    ensures Covers(Old(bs')) <==> Covers(Old(bs))
  {
    hide FirstAt; hide Old;
    OldIgnoresGood(bs, bs');
    forall r: Range
      ensures Picks(Old(bs'), r) <==> Picks(Old(bs), r)
    {
      FirstAtIgnoresGood(Old(bs), Old(bs'), r.start);
    }
  }

  /** Every share is the brick's part by size rounded down, but `taker` has the rest as well. */
  ghost predicate SharedBySize(bricks: seq<Brick>, sized: seq<Brick>, taker: nat) {
    var total := SumSize(bricks);
    && total > 0 && SameBut(bricks, sized) && taker < |sized|
    && SharedOut(sized, total, HASH_SPACE - SumShare(bricks, total), taker)
    && forall i | 0 <= i < taker :: sized[i].good == 0
  }

  /** The script refuses bricks without space, and bricks whose range runs backwards. */
  predicate Usable(b: Brick) {
    b.size > 0 && (b.range.Some? ==> b.range.value.start <= b.range.value.end)
  }

  /** The sizes added up and the hash space shared out. */
  method ShareOut(bricks: seq<Brick>) returns (sized: seq<Brick>, taker: nat)
    requires bricks != [] && forall b | b in bricks :: Usable(b)
    ensures SharedBySize(bricks, sized, taker)
    ensures Shared(sized) && SumGood(sized) == HASH_SPACE
    ensures Covers(Old(sized)) <==> Covers(Old(bricks))
    ensures forall b | b in sized :: exists a | a in bricks :: a.range == b.range
  {
    var total := TotalSize(bricks);
    assert bricks[|bricks| - 1] in bricks;
    var result;
    result, taker := CalcSizes(bricks, total);
    sized := result.value;
    CoversIgnoresGood(bricks, sized);
    assert forall i | 0 <= i < |bricks| :: bricks[i] in bricks && sized[i].range == bricks[i].range;
  }

  /** Sizes, shares and normalisation: the list the placement loop starts from. */
  method Prepare(bricks: seq<Brick>)
    returns (status: Normalized, sized: seq<Brick>, taker: nat, normalized: seq<Brick>, used: nat)
    requires bricks != [] && forall b | b in bricks :: Usable(b) && RangeOk(b)
    ensures SharedBySize(bricks, sized, taker) && multiset(normalized) == multiset(sized)
    ensures Shared(normalized) && SumGood(normalized) == HASH_SPACE && used <= |normalized|
    ensures status.Done? ==> Tiles(normalized[..used], 0, HASH_SPACE)
    ensures Embeds(normalized[used..], sized)
    ensures status.Done? <==> Covers(Old(bricks))
  {
    hide Tiles; hide Covers; hide Old; hide SharedBySize;
    hide EmbedsAt; hide Blocked;
    sized, taker := ShareOut(bricks);
    ghost var at;
    status, normalized, used, at := Normalize(sized);
    SamePermuted(sized, normalized);
  }

  /** The placement loop seen from outside: a permutation that keeps at least as many values. */
  method Arrange(normalized: seq<Brick>, used: nat) returns (ordered: seq<Brick>, places: seq<nat>)
    requires Shared(normalized) && used <= |normalized|
    ensures multiset(ordered) == multiset(normalized) && Shared(ordered)
    ensures SumGood(ordered) == SumGood(normalized)
    ensures |Kept(ordered)| >= |Kept(normalized)|
    ensures |places| == |normalized| - used && PlacedGreedily(normalized, used, ordered, places)
    ensures OrderKept(normalized, used, places)
  {
    hide Placed; hide GreedyRun; hide Kept; hide Score; hide OrderKept;
    ordered, places := Greedy(normalized, used);
    GreedyKeeps(normalized, used, places);
    RunKeepsOrder(normalized, used, places);
    SamePermuted(normalized, ordered);
    ScoreCounts(normalized);
    ScoreCounts(ordered);
  }

  datatype Outcome =
    | NewLayout(sized: seq<Brick>, taker: nat, normalized: seq<Brick>, used: nat, places: seq<nat>,
                ordered: seq<Brick>, bricks: seq<Brick>)
    | Aborted(why: Normalized)
    | Refused
    | NoBricksAtAll

  /** The checks of the two loops that collect sizes and ranges. */
  method AllUsable(bricks: seq<Brick>) returns (ok: bool)
    ensures ok <==> forall b | b in bricks :: Usable(b)
  {
    for i := 0 to |bricks|
      invariant forall b | b in bricks[..i] :: Usable(b)
    {
      if !Usable(bricks[i]) {
        return false;
      }
    }
    assert bricks[..|bricks|] == bricks;
    ok := true;
  }

  /**
   How the new layout came about: shares by size, old bricks first, then each new one in the order of
   the input to the place where most values stay.
   */
  ghost predicate Derived(bricks: seq<Brick>, r: Outcome)
    requires r.NewLayout?
  {
    && SharedBySize(bricks, r.sized, r.taker)
    && multiset(r.normalized) == multiset(r.sized) && multiset(r.ordered) == multiset(r.sized)
    && |r.places| == |r.normalized| - r.used && PlacedGreedily(r.normalized, r.used, r.ordered, r.places)
    && Tiles(r.normalized[..r.used], 0, HASH_SPACE) && Embeds(r.normalized[r.used..], r.sized)
    && OrderKept(r.normalized, r.used, r.places)
    && LaidOut(r.ordered, r.bricks)
  }

  /**
   The script from the sizes on. A layout comes out exactly when the bricks before the first one
   without a layout cover the hash space; then the new ranges partition it, each brick's range is
   its share by size, no brick is moved but in its own round, and no fewer hash values keep their
   brick than without any placement.
   */
  method Rebalance(bricks: seq<Brick>) returns (r: Outcome)
    requires forall b | b in bricks && b.range.Some? :: b.range.value.start >= 0 && b.range.value.end < HASH_SPACE
    ensures r.Refused? <==> exists b | b in bricks :: !Usable(b)
    ensures r.NoBricksAtAll? <==> bricks == []
    ensures r.NewLayout? <==> bricks != [] && (forall b | b in bricks :: Usable(b)) && Covers(Old(bricks))
    ensures r.NewLayout? ==>
              Derived(bricks, r) && Partition(r.bricks) && |Kept(r.ordered)| >= |Kept(r.normalized)|
  {
    hide Covers; hide Old; hide SharedBySize; hide Kept; hide Tiles; hide PlacedGreedily; hide OrderKept; hide Embeds;
    var ok := AllUsable(bricks);
    if !ok {
      return Refused;
    }
    if bricks == [] {
      return NoBricksAtAll;
    }
    var status, sized, taker, normalized, used := Prepare(bricks);
    if !status.Done? {
      return Aborted(status);
    }
    var ordered, places := Arrange(normalized, used);
    var final := Finalize(ordered);
    FinalizedPartition(ordered, final);
    r := NewLayout(sized, taker, normalized, used, places, ordered, final);
  }

  /** A new brick listed before the old one: the script gives up although the layout is complete. */
  method NewBrickFirstAborts(size: nat) returns (r: Outcome)
    requires size > 0
    ensures r.Aborted?
  {
    var new0 := Brick("new", size, None, 0);
    var old0 := Brick("old", size, Some(Range(0, HASH_SPACE - 1)), 0);
    NewBrickFirst(size);
    r := Rebalance([new0, old0]);
  }

  lemma SamePermuted(xs: seq<Brick>, ys: seq<Brick>)
    requires multiset(xs) == multiset(ys) && Shared(xs)
    ensures Shared(ys) && SumGood(ys) == SumGood(xs)
  {
    SumGoodPermuted(xs, ys);
    forall i | 0 <= i < |ys|
      ensures ys[i].good >= 0
    {
      assert ys[i] in multiset(xs);
      assert ys[i] in xs;
    }
  }

  method TotalSize(bricks: seq<Brick>) returns (total: nat)
    ensures total == SumSize(bricks)
  {
    total := 0;
    for i := 0 to |bricks|
      invariant total == SumSize(bricks[..i])
    {
      assert bricks[..i + 1][..i] == bricks[..i];
      total := total + bricks[i].size;
    }
    assert bricks[..|bricks|] == bricks;
  }
}
