/**
 From logical to physical block addresses: the manager gives each extent of a file its range of
 logical bytes, one after the other; the query agent cuts a logical range into physical pieces.
 */
module Lba2Pba {
  import opened Wrappers

  datatype Extent = Extent(host: string, disk: string, offset: int, length: nat)

  /** An extent with the RANGE the manager wrote into it. */
  datatype Ranged = Ranged(extent: Extent, start: int, end: int)

  datatype Piece = Piece(host: string, disk: string, offset: int, length: int)

  /** One physical byte. */
  datatype Place = Place(host: string, disk: string, offset: int)

  function Total(data: seq<Extent>): nat {
    if data == [] then 0 else Total(data[..|data| - 1]) + data[|data| - 1].length
  }

  /** The extents of a file with their cumulative ranges. */
  ghost predicate Assigned(data: seq<Extent>, ranged: seq<Ranged>) {
    && |ranged| == |data|
    && forall i | 0 <= i < |data| :: ranged[i] == Ranged(data[i], Total(data[..i]), Total(data[..i + 1]))
  }

  /** The loop of getPBA() that writes RANGE. */
  method AssignRanges(data: seq<Extent>) returns (ranged: seq<Ranged>)
    ensures Assigned(data, ranged)
  {
    ranged := [];
    var ran := 0;
    for i := 0 to |data|
      invariant |ranged| == i && ran == Total(data[..i])
      invariant forall k | 0 <= k < i :: ranged[k] == Ranged(data[k], Total(data[..k]), Total(data[..k + 1]))
    {
      assert data[..i + 1][..i] == data[..i];
      var end := ran + data[i].length;
      ranged := ranged + [Ranged(data[i], ran, end)];
      ran := end;
    }
  }

  // ---------------------------------------------------------------- byte by byte

  /** Where logical byte x is. */
  function Locate(data: seq<Extent>, x: int): Option<Place> {
    if data == [] || x < 0 then None
    else
      var init, last := data[..|data| - 1], data[|data| - 1];
      if x < Total(init) then Locate(init, x)
      else if x < Total(data) then Some(Place(last.host, last.disk, last.offset + (x - Total(init))))
      else None
  }

  lemma {:induction false} TotalGrows(data: seq<Extent>, i: nat)
    requires i <= |data|
    ensures Total(data[..i]) <= Total(data)
    decreases |data|
  {
    if i == |data| {
      assert data[..i] == data;
    } else {
      assert data[..|data| - 1][..i] == data[..i];
      TotalGrows(data[..|data| - 1], i);
    }
  }

  lemma {:induction false} LocateIn(data: seq<Extent>, i: nat, x: int)
    requires i < |data| && Total(data[..i]) <= x < Total(data[..i + 1])
    ensures Locate(data, x) == Some(Place(data[i].host, data[i].disk, data[i].offset + (x - Total(data[..i]))))
    decreases |data|
  {
    hide Total;
    var n := |data| - 1;
    if i == n {
      assert data[..i + 1] == data;
      assert Total(data[..i]) >= 0;
    } else {
      var init := data[..n];
      assert init[..i] == data[..i] && init[..i + 1] == data[..i + 1];
      TotalGrows(init, i + 1);
      LocateIn(init, i, x);
    }
  }

  /** The physical bytes of a piece, in order. */
  function Expand(p: Piece): seq<Option<Place>> {
    seq(if p.length < 0 then 0 else p.length, k requires 0 <= k => Some(Place(p.host, p.disk, p.offset + k)))
  }

  function ExpandAll(ps: seq<Piece>): seq<Option<Place>> {
    if ps == [] then [] else ExpandAll(ps[..|ps| - 1]) + Expand(ps[|ps| - 1])
  }

  /** The places of logical bytes [from, to), looked up one by one. */
  function Places(data: seq<Extent>, from: int, to: int): seq<Option<Place>> {
    seq(if to < from then 0 else to - from, k requires 0 <= k => Locate(data, from + k))
  }

  function Clip(x: int, limit: int): int {
    if x < limit then x else limit
  }

  /** A piece cut from extent i is its part of the logical range, and continues what came before. */
  lemma PieceAdded(data: seq<Extent>, i: nat, ps: seq<Piece>, p: Piece, start: int, from: int)
    requires i < |data| && start <= from && Total(data[..i]) <= from
    requires p.length >= 0 && from + p.length <= Total(data[..i + 1])
    requires p == Piece(data[i].host, data[i].disk, data[i].offset + (from - Total(data[..i])), p.length)
    requires ExpandAll(ps) == Places(data, start, from)
    ensures ExpandAll(ps + [p]) == Places(data, start, from + p.length)
  {
    assert (ps + [p])[..|ps|] == ps;
    forall k | 0 <= k < p.length
      ensures Expand(p)[k] == Locate(data, from + k)
    {
      LocateIn(data, i, from + k);
    }
    assert Places(data, start, from + p.length) == Places(data, start, from) + Expand(p);
  }

  // ---------------------------------------------------------------- the query

  /** How far the pieces reach after the first n extents. */
  ghost predicate Progress(data: seq<Extent>, n: nat, start: int, length: int, ps: seq<Piece>, schk: bool, echk: bool)
    requires n <= |data|
  {
    var reached := Total(data[..n]);
    && (!schk ==> ps == [] && !echk && (start < 0 || reached <= start))
    && (schk ==> 0 <= start < reached)
    && (schk && length < 0 ==> echk && |ps| == 1 && ps[0].length == length)
    && (schk && length >= 0 && echk ==> start + length < reached && ExpandAll(ps) == Places(data, start, start + length))
    && (schk && length >= 0 && !echk ==> reached <= start + length && ExpandAll(ps) == Places(data, start, reached))
  }

  /** What the query returns for the whole file. */
  ghost predicate Answers(data: seq<Extent>, start: int, length: int, ps: seq<Piece>) {
    && (start < 0 || Total(data) <= start ==> ps == [])
    && (0 <= start < Total(data) && length < 0 ==> |ps| == 1 && ps[0].length == length)
    && (0 <= start && 0 <= length ==> ExpandAll(ps) == Places(data, start, Clip(start + length, Total(data))))
  }

  lemma NoPieces(data: seq<Extent>, start: int)
    ensures ExpandAll([]) == Places(data, start, start)
  {
  }

  /** The extent that contains the first byte. */
  lemma FirstPiece(data: seq<Extent>, n: nat, start: int, length: int, p: Piece)
    requires n < |data| && Total(data[..n]) <= start < Total(data[..n + 1])
    requires p == Piece(data[n].host, data[n].disk, data[n].offset + (start - Total(data[..n])),
                        Clip(start + length, Total(data[..n + 1])) - start)
    ensures Progress(data, n + 1, start, length, [p], true, start + length < Total(data[..n + 1]))
  {
    hide Total; hide ExpandAll; hide Places;
    if length >= 0 {
      NoPieces(data, start);
      PieceAdded(data, n, [], p, start, start);
      assert [] + [p] == [p];
    }
  }

  /** An extent after the first. */
  lemma NextPiece(data: seq<Extent>, n: nat, start: int, length: int, ps: seq<Piece>, p: Piece)
    requires n < |data| && Progress(data, n, start, length, ps, true, false)
    requires p == Piece(data[n].host, data[n].disk, data[n].offset,
                        Clip(start + length, Total(data[..n + 1])) - Total(data[..n]))
    ensures Progress(data, n + 1, start, length, ps + [p], true, start + length < Total(data[..n + 1]))
  {
    assert data[..n + 1][..n] == data[..n];
    PieceAdded(data, n, ps, p, start, Total(data[..n]));
  }

  /** One piece for each extent from the one that holds the first byte up to, and without, `last`. */
  ghost predicate Spread(data: seq<Extent>, start: int, length: int, ps: seq<Piece>, first: nat, last: nat) {
    && first < last <= |data| && |ps| == last - first
    && Total(data[..first]) <= start < Total(data[..first + 1])
    && ps[0].offset == data[first].offset + (start - Total(data[..first]))
    && (forall j | 0 <= j < |ps| :: ps[j].host == data[first + j].host && ps[j].disk == data[first + j].disk)
    && (forall k | first < k < last :: Total(data[..k]) <= start + length)
  }

  /** The pieces end with the first extent that reaches past the range, or with the file. */
  ghost predicate SpreadTo(data: seq<Extent>, n: nat, start: int, length: int, ps: seq<Piece>, schk: bool, echk: bool,
                           first: nat, last: nat)
    requires n <= |data|
  {
    schk ==>
      && Spread(data, start, length, ps, first, last)
      && (echk ==> last <= n && start + length < Total(data[..last]))
      && (!echk ==> last == n && Total(data[..n]) <= start + length)
  }

  lemma SpreadFirst(data: seq<Extent>, n: nat, start: int, length: int, p: Piece)
    requires n < |data| && Total(data[..n]) <= start < Total(data[..n + 1])
    requires p.host == data[n].host && p.disk == data[n].disk
    requires p.offset == data[n].offset + (start - Total(data[..n]))
    ensures SpreadTo(data, n + 1, start, length, [p], true, start + length < Total(data[..n + 1]), n, n + 1)
  {
  }

  lemma SpreadStays(data: seq<Extent>, n: nat, start: int, length: int, ps: seq<Piece>, schk: bool, echk: bool,
                    first: nat, last: nat)
    requires n < |data| && SpreadTo(data, n, start, length, ps, schk, echk, first, last) && (!schk || echk)
    ensures SpreadTo(data, n + 1, start, length, ps, schk, echk, first, last)
  {
  }

  lemma SpreadStarts(data: seq<Extent>, start: int, length: int)
    ensures SpreadTo(data, 0, start, length, [], false, false, 0, 0)
  {
  }

  lemma SpreadEnds(data: seq<Extent>, start: int, length: int, ps: seq<Piece>, echk: bool, first: nat, last: nat)
    requires SpreadTo(data, |data|, start, length, ps, true, echk, first, last)
    ensures Spread(data, start, length, ps, first, last) && (start + length < Total(data[..last]) || last == |data|)
  {
  }

  lemma SpreadUpTo(data: seq<Extent>, n: nat, start: int, length: int, ps: seq<Piece>, first: nat, last: nat)
    requires n <= |data| && SpreadTo(data, n, start, length, ps, true, false, first, last)
    ensures last == n
  {
  }

  lemma SpreadNext(data: seq<Extent>, n: nat, start: int, length: int, ps: seq<Piece>, p: Piece, first: nat)
    requires n < |data| && SpreadTo(data, n, start, length, ps, true, false, first, n)
    requires p.host == data[n].host && p.disk == data[n].disk
    ensures SpreadTo(data, n + 1, start, length, ps + [p], true, start + length < Total(data[..n + 1]), first, n + 1)
  {
    hide Total;
  }

  /** One extent of the loop. */
  method Step(ghost data: seq<Extent>, n: nat, r: Ranged, start: int, length: int,
              ps: seq<Piece>, schk: bool, echk: bool, ghost first: nat, ghost last: nat)
    returns (ps': seq<Piece>, schk': bool, echk': bool, ghost first': nat, ghost last': nat)
    requires n < |data| && r == Ranged(data[n], Total(data[..n]), Total(data[..n + 1]))
    requires Progress(data, n, start, length, ps, schk, echk)
    requires SpreadTo(data, n, start, length, ps, schk, echk, first, last)
    ensures Progress(data, n + 1, start, length, ps', schk', echk')
    ensures SpreadTo(data, n + 1, start, length, ps', schk', echk', first', last')
  {
    hide SpreadTo;
    first', last' := first, last;
    if !schk || echk { SpreadStays(data, n, start, length, ps, schk, echk, first, last); }
    assert data[..n + 1][..n] == data[..n];
    ps', schk', echk' := ps, schk, echk;
    var end := start + length;
    if !schk {
      if r.start <= start < r.end {
        var len;
        if end < r.end {
          len := end - start;
          echk' := true;
        } else {
          len := r.end - start;
        }
        var p := Piece(r.extent.host, r.extent.disk, r.extent.offset + (start - r.start), len);
        FirstPiece(data, n, start, length, p);
        SpreadFirst(data, n, start, length, p);
        first', last' := n, n + 1;
        ps' := ps + [p];
        assert ps' == [p];
        schk' := true;
      }
    } else if !echk {
      var len;
      if r.start <= r.end && end < r.end {
        len := end - r.start;
        echk' := true;
      } else {
        len := r.extent.length;
      }
      var p := Piece(r.extent.host, r.extent.disk, r.extent.offset, len);
      NextPiece(data, n, start, length, ps, p);
      SpreadUpTo(data, n, start, length, ps, first, last);
      SpreadNext(data, n, start, length, ps, p, first);
      last' := n + 1;
      ps' := ps + [p];
    }
  }

  /** LB2PBA(): the pieces of the file cached under `path`; none if it is not cached. */
  method LB2PBA(files: map<string, seq<Ranged>>, path: string, sector: int, length: int, ghost data: seq<Extent>)
    returns (result: seq<Piece>, ghost first: nat, ghost last: nat)
    requires path in files ==> Assigned(data, files[path])
    ensures path !in files ==> result == []
    ensures path in files ==> Answers(data, sector, length, result)
    ensures path in files && 0 <= sector < Total(data) ==>
              && Spread(data, sector, length, result, first, last)
              && (sector + length < Total(data[..last]) || last == |data|)
  {
    hide SpreadTo; hide Spread;
    result, first, last := [], 0, 0;
    if path !in files {
      return;
    }
    var schk, echk := false, false;
    SpreadStarts(data, sector, length);
    for n := 0 to |files[path]|
      invariant Progress(data, n, sector, length, result, schk, echk)
      invariant SpreadTo(data, n, sector, length, result, schk, echk, first, last)
    {
      result, schk, echk, first, last :=
        Step(data, n, files[path][n], sector, length, result, schk, echk, first, last);
    }
    if schk { SpreadEnds(data, sector, length, result, echk, first, last); }
    assert data[..|data|] == data;
  }
}
