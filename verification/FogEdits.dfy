/** What each edit leaves in the list of regions: places, sizes, ids and order (packages/schema/src/fog-editor.ts). */
module FogEdits {
  import opened Text
  import opened Sequences
  import opened Fog
  import opened FogGeometry

  // ------------------------------------------------------------------ moves

  /** A coordinate kept between the edges of the board. */
  function Within(v: real): real { if v < 0.0 then 0.0 else if v > 100.0 then 100.0 else v }

  /** A length cut at the far edge. */
  function Fitting(start: real, length: real): real { if length > 100.0 - start then 100.0 - start else length }

  /** Where a stored region is after a shift: kept on the board and cut at the far edges, unless less than 0.5 would remain. */
  function Placed(r: FogRect, dx: real, dy: real): FogRect {
    var x, y := Within(r.x + dx), Within(r.y + dy);
    var w, h := Fitting(x, r.w), Fitting(y, r.h);
    if w < 0.5 || h < 0.5 then r else FogRect(r.id, x, y, w, h)
  }

  lemma MoveRectIs(r: FogRect, dx: real, dy: real)
    requires InSchema(r)
    ensures MoveRect(r, dx, dy) == Placed(r, dx, dy)
  {}

  /** A move places the regions with the id and leaves the others. */
  lemma MovePlaces(fog: Option<FogState>, id: string, dx: real, dy: real, i: nat)
    requires AllInSchema(Regions(fog)) && i < |Regions(fog)|
    ensures var after := MoveFogRegion(fog, id, dx, dy).revealed;
      && |after| == |Regions(fog)|
      && after[i] == if Regions(fog)[i].id == Some(id) then Placed(Regions(fog)[i], dx, dy) else Regions(fog)[i]
  {
    MoveAllAt(Regions(fog), id, dx, dy);
    MoveRectIs(Regions(fog)[i], dx, dy);
  }

  /** Dragged past the left or the top edge, a region starts at 0 and keeps its size as far as the board allows. */
  lemma DraggedPastEdge(r: FogRect, dx: real, dy: real)
    requires InSchema(r) && r.w >= 0.5 && r.h >= 0.5 && r.x + dx < 0.0
    ensures 0.0 <= r.y + dy <= 99.5 ==>
      MoveRect(r, dx, dy) == r.(x := 0.0, y := r.y + dy, h := if r.h > 100.0 - (r.y + dy) then 100.0 - (r.y + dy) else r.h)
    ensures r.y + dy < 0.0 ==> MoveRect(r, dx, dy) == r.(x := 0.0, y := 0.0)
  {
    MoveRectIs(r, dx, dy);
  }

  // ------------------------------------------------------------------ reveals and deletes

  /** The rectangle comes last, after as many of the latest regions as make at most 500 with it. */
  predicate Appended(after: seq<FogRect>, regions: seq<FogRect>, r: FogRect) {
    after == (if |regions| < 500 then regions else regions[|regions| - 499..]) + [r]
  }

  lemma CapOfAppended(regions: seq<FogRect>, r: FogRect)
    ensures Appended(Capped(regions + [r]), regions, r)
  {
    if |regions| >= 500 { assert (regions + [r])[|regions| - 499..] == regions[|regions| - 499..] + [r]; }
  }

  /** A reveal puts its rectangle last, with its own id or the new one, and drops the oldest beyond 500. */
  lemma RevealAppends(fog: Option<FogState>, rect: FogRect, newId: string)
    ensures Appended(AppendFogReveal(fog, rect, newId).revealed, Regions(fog),
      FogRect(if rect.id.Some? then rect.id else Some(newId), rect.x, rect.y, rect.w, rect.h))
  {
    CapOfAppended(Regions(fog), if rect.id.Some? then rect else rect.(id := Some(newId)));
  }

  /** The regions with another id, in order. */
  function Others(regions: seq<FogRect>, id: string): seq<FogRect> {
    if regions == [] then []
    else
      var last := regions[|regions| - 1];
      Others(regions[..|regions| - 1], id) + if last.id == Some(id) then [] else [last]
  }

  lemma {:induction false} OthersSplit(a: FogRect, rest: seq<FogRect>, id: string)
    ensures Others([a] + rest, id) == (if a.id == Some(id) then [] else [a]) + Others(rest, id)
  {
    if rest == [] {
      assert [a] + rest == [a] && [a][..0] == [];
    } else {
      var init, last := rest[..|rest| - 1], rest[|rest| - 1];
      assert ([a] + rest)[..|rest|] == [a] + init && ([a] + rest)[|rest|] == last;
      OthersSplit(a, init, id);
    }
  }

  lemma {:induction false} WithoutIdIs(regions: seq<FogRect>, id: string)
    ensures WithoutId(regions, id) == Others(regions, id)
  {
    if regions != [] {
      WithoutIdIs(regions[1..], id);
      OthersSplit(regions[0], regions[1..], id);
      assert regions == [regions[0]] + regions[1..];
    }
  }

  /** A delete leaves the regions with another id, unchanged and in order. */
  lemma DeleteLeavesOthers(fog: Option<FogState>, id: string)
    ensures DeleteFogRegion(fog, id).revealed == Others(Regions(fog), id)
  {
    WithoutIdIs(Regions(fog), id);
  }

  predicate PieceOf(piece: FogRect, rect: FogRect, brush: FogRect) {
    piece in Subtract(rect, brush) && piece.id == rect.id
  }

  /** An erase keeps at most 500 pieces, each with the id of the region it comes from. */
  lemma ErasedPieces(fog: Option<FogState>, brush: FogRect, i: nat)
    requires i < |Erase(fog, brush).revealed|
    ensures |Erase(fog, brush).revealed| <= 500
    ensures exists k :: 0 <= k < |Regions(fog)| && PieceOf(Erase(fog, brush).revealed[i], Regions(fog)[k], brush)
  {
    var piece := Erase(fog, brush).revealed[i];
    assert piece in SubtractAll(Regions(fog), brush);
    PieceOfSome(Regions(fog), brush, piece);
  }

  lemma {:induction false} PieceOfSome(regions: seq<FogRect>, brush: FogRect, piece: FogRect)
    requires piece in SubtractAll(regions, brush)
    ensures exists k :: 0 <= k < |regions| && PieceOf(piece, regions[k], brush)
  {
    if piece in Subtract(regions[0], brush) {
      PiecesKeepId(regions[0], brush);
      assert PieceOf(piece, regions[0], brush);
    } else {
      PieceOfSome(regions[1..], brush, piece);
      var k :| 0 <= k < |regions[1..]| && PieceOf(piece, regions[1..][k], brush);
      assert regions[k + 1] == regions[1..][k];
    }
  }

  /** Every edit turns the fog on. */
  lemma EditsEnable(fog: Option<FogState>, op: FogOp)
    ensures Apply(fog, op).enabled
  {}

  // ------------------------------------------------------------------ ids

  function Stored(fog: Option<FogState>): seq<FogRect> { if fog.Some? then fog.value.revealed else [] }

  lemma {:induction false} IdAt(revealed: seq<FogRect>, from: nat, i: nat, n: nat)
    requires i < |revealed| && n == from + i
    ensures EnsureIdsFrom(revealed, from)[i].id == if revealed[i].id.Some? then revealed[i].id else Some(FogId(n, revealed[i]))
  {
    if i > 0 { IdAt(revealed[1..], from + 1, i - 1, n); }
  }

  /** Stored rectangles keep their ids. */
  lemma IdsStay(fog: Option<FogState>, i: nat)
    requires i < |Stored(fog)|
    ensures |Regions(fog)| == |Stored(fog)| && Regions(fog)[i] == Stored(fog)[i].(id := Regions(fog)[i].id)
    ensures Stored(fog)[i].id.Some? ==> Regions(fog)[i].id == Stored(fog)[i].id
    ensures Regions(fog)[i].id.Some?
  {
    IdAt(Stored(fog), 0, i, i);
  }

  lemma DashEnds(a: string, b: string, x: string, y: string)
    requires AllDigits(a) && AllDigits(b) && a + ("-" + x) == b + ("-" + y)
    ensures a == b
  {
    DigitRunOf(a, "-" + x);
    DigitRunOf(b, "-" + y);
    assert (a + ("-" + x))[..|a|] == a && (b + ("-" + y))[..|b|] == b;
  }

  lemma NumbersDiffer(i: nat, j: nat, x: string, y: string)
    requires "fog-" + Decimal(i) + ("-" + x) == "fog-" + Decimal(j) + ("-" + y)
    ensures i == j
  {
    assert ("fog-" + Decimal(i) + ("-" + x))[4..] == Decimal(i) + ("-" + x);
    assert ("fog-" + Decimal(j) + ("-" + y))[4..] == Decimal(j) + ("-" + y);
    DashEnds(Decimal(i), Decimal(j), x, y);
    ParseOfDecimal(i);
    ParseOfDecimal(j);
  }

  function FogTail(a: string, b: string): string { a + "-" + b }

  lemma FogIdIs(i: nat, r: FogRect, a: string, b: string)
    requires a == IntText(Round(r.x * 10.0)) && b == IntText(Round(r.y * 10.0))
    ensures FogId(i, r) == "fog-" + Decimal(i) + ("-" + FogTail(a, b))
  {
    assert IntText(i) == Decimal(i);
  }

  lemma GeneratedDiffer(i: nat, j: nat, a: FogRect, b: FogRect)
    requires FogId(i, a) == FogId(j, b)
    ensures i == j
  {
    var left, top := IntText(Round(a.x * 10.0)), IntText(Round(a.y * 10.0));
    var left2, top2 := IntText(Round(b.x * 10.0)), IntText(Round(b.y * 10.0));
    FogIdIs(i, a, left, top);
    FogIdIs(j, b, left2, top2);
    NumbersDiffer(i, j, FogTail(left, top), FogTail(left2, top2));
  }

  /** Rectangles without an id get different ones. */
  lemma NewIdsDiffer(fog: Option<FogState>, i: nat, j: nat)
    requires i < j < |Stored(fog)| && Stored(fog)[i].id == None && Stored(fog)[j].id == None
    ensures |Regions(fog)| == |Stored(fog)| && Regions(fog)[i].id != Regions(fog)[j].id
  {
    IdAt(Stored(fog), 0, i, i);
    IdAt(Stored(fog), 0, j, j);
    if FogId(i, Stored(fog)[i]) == FogId(j, Stored(fog)[j]) { GeneratedDiffer(i, j, Stored(fog)[i], Stored(fog)[j]); }
  }

  /** The whole number nearest to ten times a coordinate, a half rounded up. */
  predicate Tenths(n: int, v: real) { n as real - 0.5 <= 10.0 * v < n as real + 0.5 }

  lemma RoundIs(n: int, v: real)
    requires Tenths(n, v)
    ensures Round(v * 10.0) == n
  {
    assert v * 10.0 + 0.5 == 10.0 * v + 0.5;
  }

  /** The place in the list, and the corner in tenths. */
  function NewId(i: nat, a: int, b: int): string { "fog-" + Decimal(i) + "-" + IntText(a) + "-" + IntText(b) }

  lemma FogIdOf(i: nat, r: FogRect, a: int, b: int)
    requires Tenths(a, r.x) && Tenths(b, r.y)
    ensures FogId(i, r) == NewId(i, a, b)
  {
    RoundIs(a, r.x);
    RoundIs(b, r.y);
    assert IntText(i) == Decimal(i);
  }

  /** The id that a stored rectangle without one gets. */
  lemma NewIdIs(fog: Option<FogState>, i: nat, a: int, b: int)
    requires i < |Stored(fog)| && Stored(fog)[i].id == None && Tenths(a, Stored(fog)[i].x) && Tenths(b, Stored(fog)[i].y)
    ensures |Regions(fog)| == |Stored(fog)| && Regions(fog)[i].id == Some(NewId(i, a, b))
  {
    IdAt(Stored(fog), 0, i, i);
    FogIdOf(i, Stored(fog)[i], a, b);
  }

  // ------------------------------------------------------------------ raw pixels

  /** Fog conceals no pixels exactly when it is off or one rectangle covers two opposite corners of the board. */
  lemma ConcealsIff(fog: Option<FogState>)
    ensures !FogConcealsPixels(fog) <==>
      fog == None || !fog.value.enabled
      || exists r :: r in fog.value.revealed && Covers(r, 0.0, 0.0) && Covers(r, 100.0, 100.0)
  {
    if fog.Some? && fog.value.enabled {
      var rs := fog.value.revealed;
      forall i | 0 <= i < |rs|
        ensures (rs[i].x <= 0.0 && rs[i].y <= 0.0 && rs[i].x + rs[i].w >= 100.0 && rs[i].y + rs[i].h >= 100.0) <==>
          Covers(rs[i], 0.0, 0.0) && Covers(rs[i], 100.0, 100.0)
      {}
      assert (exists r :: r in rs && Covers(r, 0.0, 0.0) && Covers(r, 100.0, 100.0)) <==>
        exists i :: 0 <= i < |rs| && Covers(rs[i], 0.0, 0.0) && Covers(rs[i], 100.0, 100.0);
    }
  }
}
