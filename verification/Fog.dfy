/** Fog of war as geometry (packages/schema/src/fog-editor.ts, fog-visibility.ts; apps/server/src/common/fog.ts). */
module Fog {
  import opened Text

  /** The smallest width and height, in percent of the map, that an edit keeps. */
  const FOG_RECT_MIN_SIZE: real := 0.5
  const FOG_REVEALED_MAX: nat := 500

  datatype FogRect = FogRect(id: Option<string>, x: real, y: real, w: real, h: real)

  datatype FogState = FogState(enabled: bool, revealed: seq<FogRect>)

  function Max(a: real, b: real): real { if a < b then b else a }

  function Min(a: real, b: real): real { if a < b then a else b }

  // ---------------------------------------------------------------- operations

  predicate RectsIntersect(a: FogRect, b: FogRect) {
    a.x < b.x + b.w && a.x + a.w > b.x && a.y < b.y + b.h && a.y + a.h > b.y
  }

  /** A coordinate moved onto the board. */
  function OnBoard(v: real): real { Max(0.0, Min(100.0, v)) }

  /** What is left of a length that starts at `v` when it is cut at the board's end. */
  function CutAt(v: real, length: real): real { Max(0.0, Min(100.0 - OnBoard(v), length)) }

  function ClampRect(r: FogRect): Option<FogRect> {
    var w, h := CutAt(r.x, r.w), CutAt(r.y, r.h);
    if w < FOG_RECT_MIN_SIZE || h < FOG_RECT_MIN_SIZE then None
    else Some(r.(x := OnBoard(r.x), y := OnBoard(r.y), w := w, h := h))
  }

  /** The parts of `rect` above, below, left and right of the brush. */
  function Above(rect: FogRect, sub: FogRect): FogRect { rect.(h := sub.y - rect.y) }

  function Below(rect: FogRect, sub: FogRect): FogRect {
    rect.(y := sub.y + sub.h, h := rect.y + rect.h - (sub.y + sub.h))
  }

  function MidTop(rect: FogRect, sub: FogRect): real { Max(rect.y, sub.y) }

  function MidHeight(rect: FogRect, sub: FogRect): real {
    Min(rect.y + rect.h, sub.y + sub.h) - MidTop(rect, sub)
  }

  function LeftOf(rect: FogRect, sub: FogRect): FogRect {
    rect.(y := MidTop(rect, sub), w := sub.x - rect.x, h := MidHeight(rect, sub))
  }

  function RightOf(rect: FogRect, sub: FogRect): FogRect {
    rect.(x := sub.x + sub.w, y := MidTop(rect, sub), w := rect.x + rect.w - (sub.x + sub.w), h := MidHeight(rect, sub))
  }

  function Piece(wanted: bool, r: FogRect): seq<FogRect> {
    if wanted && ClampRect(r).Some? then [ClampRect(r).value] else []
  }

  /** The surviving pieces, in the order in which they are pushed. */
  function Subtract(rect: FogRect, sub: FogRect): seq<FogRect> {
    if !RectsIntersect(rect, sub) then [rect]
    else
      var mid := MidHeight(rect, sub) >= FOG_RECT_MIN_SIZE;
      Piece(rect.y < sub.y, Above(rect, sub))
      + Piece(rect.y + rect.h > sub.y + sub.h, Below(rect, sub))
      + Piece(mid && rect.x < sub.x, LeftOf(rect, sub))
      + Piece(mid && rect.x + rect.w > sub.x + sub.w, RightOf(rect, sub))
  }

  /** Push what the clamp leaves of a strip. */
  method PushPiece(out: seq<FogRect>, wanted: bool, strip: FogRect) returns (r: seq<FogRect>)
    ensures r == out + Piece(wanted, strip)
  {
    r := out;
    if wanted {
      var piece := ClampRect(strip);
      if piece.Some? { r := r + [piece.value]; }
    }
  }

  /** Subtract an erase rectangle from a revealed one. */
  method SubtractFogRect(rect: FogRect, sub: FogRect) returns (out: seq<FogRect>)
    ensures out == Subtract(rect, sub)
  {
    if !RectsIntersect(rect, sub) { return [rect]; }
    out := [];
    out := PushPiece(out, rect.y < sub.y, Above(rect, sub));
    out := PushPiece(out, rect.y + rect.h > sub.y + sub.h, Below(rect, sub));
    var mid := MidHeight(rect, sub) >= FOG_RECT_MIN_SIZE;
    out := PushPiece(out, mid && rect.x < sub.x, LeftOf(rect, sub));
    out := PushPiece(out, mid && rect.x + rect.w > sub.x + sub.w, RightOf(rect, sub));
  }

  /** JavaScript's `Math.round`. */
  function Round(v: real): int { (v + 0.5).Floor }

  function FogId(i: nat, r: FogRect): string {
    "fog-" + IntText(i) + "-" + IntText(Round(r.x * 10.0)) + "-" + IntText(Round(r.y * 10.0))
  }

  /** Give an id to every rectangle that lacks one; `from` is the index of the first. */
  function EnsureIdsFrom(revealed: seq<FogRect>, from: nat): (r: seq<FogRect>)
    ensures |r| == |revealed|
    ensures forall i :: 0 <= i < |r| ==> r[i].id.Some? && r[i] == revealed[i].(id := r[i].id)
  {
    if revealed == [] then []
    else
      var first := revealed[0];
      [if first.id.Some? then first else first.(id := Some(FogId(from, first)))] + EnsureIdsFrom(revealed[1..], from + 1)
  }

  function EnsureFogRectIds(revealed: seq<FogRect>): seq<FogRect> { EnsureIdsFrom(revealed, 0) }

  function Capped(revealed: seq<FogRect>): seq<FogRect> {
    if |revealed| <= FOG_REVEALED_MAX then revealed else revealed[|revealed| - FOG_REVEALED_MAX..]
  }

  function Regions(fog: Option<FogState>): seq<FogRect> {
    EnsureFogRectIds(if fog.Some? then fog.value.revealed else [])
  }

  /** `newId` is the id that is made for a rectangle without one. */
  function AppendFogReveal(fog: Option<FogState>, rect: FogRect, newId: string): FogState {
    var withId := if rect.id.Some? then rect else rect.(id := Some(newId));
    FogState(true, Capped(Regions(fog) + [withId]))
  }

  function SubtractAll(regions: seq<FogRect>, brush: FogRect): seq<FogRect> {
    if regions == [] then [] else Subtract(regions[0], brush) + SubtractAll(regions[1..], brush)
  }

  function Erase(fog: Option<FogState>, brush: FogRect): FogState {
    FogState(true, Capped(SubtractAll(Regions(fog), brush)))
  }

  lemma {:induction false} SubtractAllAppend(a: seq<FogRect>, r: FogRect, brush: FogRect)
    ensures SubtractAll(a + [r], brush) == SubtractAll(a, brush) + Subtract(r, brush)
  {
    if a == [] {
      assert a + [r] == [r] && [r][1..] == [] && SubtractAll([], brush) == [];
    } else {
      assert (a + [r])[1..] == a[1..] + [r];
      SubtractAllAppend(a[1..], r, brush);
    }
  }

  lemma PiecesKeepId(rect: FogRect, sub: FogRect)
    ensures forall i :: 0 <= i < |Subtract(rect, sub)| ==> Subtract(rect, sub)[i].id == rect.id
  {}

  /** Push the pieces of a region, which keep its id. */
  method PushPieces(next: seq<FogRect>, region: FogRect, pieces: seq<FogRect>) returns (r: seq<FogRect>)
    requires region.id.Some? && forall i :: 0 <= i < |pieces| ==> pieces[i].id == region.id
    ensures r == next + pieces
  {
    r := next;
    for k := 0 to |pieces|
      invariant r == next + pieces[..k]
    {
      var piece := pieces[k];
      r := r + [if piece.id.Some? then piece else piece.(id := region.id)];
    }
  }

  /** Erase a brush rectangle from the union of the revealed regions. */
  method EraseFogRegion(fog: Option<FogState>, eraseRect: FogRect) returns (r: FogState)
    ensures r == Erase(fog, eraseRect)
  {
    var regions := Regions(fog);
    var next: seq<FogRect> := [];
    for i := 0 to |regions|
      invariant next == SubtractAll(regions[..i], eraseRect)
    {
      var pieces := SubtractFogRect(regions[i], eraseRect);
      PiecesKeepId(regions[i], eraseRect);
      next := PushPieces(next, regions[i], pieces);
      SubtractAllAppend(regions[..i], regions[i], eraseRect);
      assert regions[..i + 1] == regions[..i] + [regions[i]];
    }
    assert regions[..|regions|] == regions;
    r := FogState(true, Capped(next));
  }

  function MoveRect(r: FogRect, dx: real, dy: real): FogRect {
    var moved := ClampRect(r.(x := r.x + dx, y := r.y + dy));
    if moved.Some? then moved.value else r
  }

  function MoveAll(regions: seq<FogRect>, regionId: string, dx: real, dy: real): seq<FogRect> {
    if regions == [] then []
    else [if regions[0].id == Some(regionId) then MoveRect(regions[0], dx, dy) else regions[0]]
         + MoveAll(regions[1..], regionId, dx, dy)
  }

  function MoveFogRegion(fog: Option<FogState>, regionId: string, dx: real, dy: real): FogState {
    FogState(true, MoveAll(Regions(fog), regionId, dx, dy))
  }

  function WithoutId(regions: seq<FogRect>, regionId: string): seq<FogRect> {
    if regions == [] then []
    else (if regions[0].id != Some(regionId) then [regions[0]] else []) + WithoutId(regions[1..], regionId)
  }

  function DeleteFogRegion(fog: Option<FogState>, regionId: string): FogState {
    FogState(true, WithoutId(Regions(fog), regionId))
  }

  // -------------------------------------------------------------- what is visible

  predicate Covers(r: FogRect, x: real, y: real) {
    r.x <= x <= r.x + r.w && r.y <= y <= r.y + r.h
  }

  predicate Covered(revealed: seq<FogRect>, x: real, y: real) {
    exists i :: 0 <= i < |revealed| && Covers(revealed[i], x, y)
  }

  predicate PointInRevealedRegion(x: real, y: real, fog: FogState) { Covered(fog.revealed, x, y) }

  predicate FogConcealsPixels(fog: Option<FogState>) {
    fog.Some? && fog.value.enabled
    && !exists i :: 0 <= i < |fog.value.revealed| &&
         var r := fog.value.revealed[i];
         r.x <= 0.0 && r.y <= 0.0 && r.x + r.w >= 100.0 && r.y + r.h >= 100.0
  }
}
