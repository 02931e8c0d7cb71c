/** Rectangle subtraction is set difference on the points of the board. */
module FogGeometry {
  import opened Text
  import opened Fog

  predicate OnTheBoard(x: real, y: real) { 0.0 <= x <= 100.0 && 0.0 <= y <= 100.0 }

  /** What the schema admits as a stored rectangle. */
  predicate InSchema(r: FogRect) {
    0.0 <= r.x <= 100.0 && 0.0 <= r.y <= 100.0 && 0.0 <= r.w <= 100.0 && 0.0 <= r.h <= 100.0
  }

  predicate AllInSchema(rects: seq<FogRect>) { forall i :: 0 <= i < |rects| ==> InSchema(rects[i]) }

  /** A brush of any size, anywhere. */
  predicate Brush(b: FogRect) { b.w >= 0.0 && b.h >= 0.0 }

  predicate StrictlyInside(r: FogRect, x: real, y: real) {
    r.x < x < r.x + r.w && r.y < y < r.y + r.h
  }

  /** The four strips that surround the brush inside a rectangle. */
  function Strips(rect: FogRect, sub: FogRect): seq<FogRect> {
    [Above(rect, sub), Below(rect, sub), LeftOf(rect, sub), RightOf(rect, sub)]
  }

  /** An edit drops a strip whose part on the board is too narrow or too low. */
  predicate Kept(strip: FogRect) { ClampRect(strip).Some? }

  /** The point lies in the strip, whether or not it is kept. */
  predicate InStrip(rect: FogRect, sub: FogRect, k: nat, x: real, y: real)
    requires k < 4
  {
    Covers(Strips(rect, sub)[k], x, y)
  }

  lemma ClampKeepsPoints(r: FogRect, x: real, y: real)
    requires OnTheBoard(x, y) && r.x >= 0.0 && r.y >= 0.0 && Kept(r)
    ensures Covers(ClampRect(r).value, x, y) <==> Covers(r, x, y)
    ensures InSchema(ClampRect(r).value)
  {}

  lemma StripsCoverTheRest(rect: FogRect, sub: FogRect, x: real, y: real)
    requires RectsIntersect(rect, sub) && Brush(sub)
    ensures Covers(rect, x, y) && !StrictlyInside(sub, x, y) <==>
      (exists k :: 0 <= k < 4 && InStrip(rect, sub, k, x, y))
  {
    if Covers(rect, x, y) && !StrictlyInside(sub, x, y) {
      var k := if y <= sub.y then 0 else if y >= sub.y + sub.h then 1 else if x <= sub.x then 2 else 3;
      assert InStrip(rect, sub, k, x, y);
    }
  }

  lemma PieceCovers(wanted: bool, r: FogRect, x: real, y: real)
    requires OnTheBoard(x, y) && r.x >= 0.0 && r.y >= 0.0
    ensures Covered(Piece(wanted, r), x, y) <==> wanted && Kept(r) && Covers(r, x, y)
    ensures AllInSchema(Piece(wanted, r))
  {
    if Kept(r) { ClampKeepsPoints(r, x, y); }
    if wanted && Kept(r) { assert Piece(wanted, r)[0] == ClampRect(r).value; }
  }

  lemma CoveredConcat(a: seq<FogRect>, b: seq<FogRect>, x: real, y: real)
    ensures Covered(a + b, x, y) <==> Covered(a, x, y) || Covered(b, x, y)
  {
    if Covered(a, x, y) {
      var i :| 0 <= i < |a| && Covers(a[i], x, y);
      assert (a + b)[i] == a[i];
    }
    if Covered(b, x, y) {
      var i :| 0 <= i < |b| && Covers(b[i], x, y);
      assert (a + b)[|a| + i] == b[i];
    }
  }

  /** The conditions of the code admit every strip that is large enough. */
  lemma KeptStripsAreWanted(rect: FogRect, sub: FogRect)
    requires RectsIntersect(rect, sub) && Brush(sub) && InSchema(rect)
    ensures Kept(Above(rect, sub)) ==> rect.y < sub.y
    ensures Kept(Below(rect, sub)) ==> rect.y + rect.h > sub.y + sub.h
    ensures Kept(LeftOf(rect, sub)) ==> MidHeight(rect, sub) >= FOG_RECT_MIN_SIZE && rect.x < sub.x
    ensures Kept(RightOf(rect, sub)) ==> MidHeight(rect, sub) >= FOG_RECT_MIN_SIZE && rect.x + rect.w > sub.x + sub.w
  {}

  lemma StripsStartOnBoard(rect: FogRect, sub: FogRect)
    requires RectsIntersect(rect, sub) && InSchema(rect)
    ensures forall k :: 0 <= k < 4 ==> Strips(rect, sub)[k].x >= 0.0 && Strips(rect, sub)[k].y >= 0.0
  {}

  /** The fast form refines the geometry: on the board, the pieces of a rectangle that meets the
      brush are exactly its strips of at least the minimum size. */
  lemma SubtractIsKeptStrips(rect: FogRect, sub: FogRect, x: real, y: real)
    requires InSchema(rect) && Brush(sub) && OnTheBoard(x, y) && RectsIntersect(rect, sub)
    ensures Covered(Subtract(rect, sub), x, y) <==>
      (exists k :: 0 <= k < 4 && Kept(Strips(rect, sub)[k]) && InStrip(rect, sub, k, x, y))
  {
    var mid := MidHeight(rect, sub) >= FOG_RECT_MIN_SIZE;
    var a := Piece(rect.y < sub.y, Above(rect, sub));
    var b := Piece(rect.y + rect.h > sub.y + sub.h, Below(rect, sub));
    var l := Piece(mid && rect.x < sub.x, LeftOf(rect, sub));
    var r := Piece(mid && rect.x + rect.w > sub.x + sub.w, RightOf(rect, sub));
    StripsStartOnBoard(rect, sub);
    KeptStripsAreWanted(rect, sub);
    PieceCovers(rect.y < sub.y, Strips(rect, sub)[0], x, y);
    PieceCovers(rect.y + rect.h > sub.y + sub.h, Strips(rect, sub)[1], x, y);
    PieceCovers(mid && rect.x < sub.x, Strips(rect, sub)[2], x, y);
    PieceCovers(mid && rect.x + rect.w > sub.x + sub.w, Strips(rect, sub)[3], x, y);
    CoveredConcat(a, b, x, y);
    CoveredConcat(a + b, l, x, y);
    CoveredConcat(a + b + l, r, x, y);
    OneOfFour(rect, sub, x, y);
  }

  lemma OneOfFour(rect: FogRect, sub: FogRect, x: real, y: real)
    ensures (exists k :: 0 <= k < 4 && Kept(Strips(rect, sub)[k]) && InStrip(rect, sub, k, x, y)) <==>
      || (Kept(Above(rect, sub)) && Covers(Above(rect, sub), x, y))
      || (Kept(Below(rect, sub)) && Covers(Below(rect, sub), x, y))
      || (Kept(LeftOf(rect, sub)) && Covers(LeftOf(rect, sub), x, y))
      || (Kept(RightOf(rect, sub)) && Covers(RightOf(rect, sub), x, y))
  {
    if Kept(Above(rect, sub)) && Covers(Above(rect, sub), x, y) { assert InStrip(rect, sub, 0, x, y); }
    if Kept(Below(rect, sub)) && Covers(Below(rect, sub), x, y) { assert InStrip(rect, sub, 1, x, y); }
    if Kept(LeftOf(rect, sub)) && Covers(LeftOf(rect, sub), x, y) { assert InStrip(rect, sub, 2, x, y); }
    if Kept(RightOf(rect, sub)) && Covers(RightOf(rect, sub), x, y) { assert InStrip(rect, sub, 3, x, y); }
  }

  // ----------------------------------------------------------- pieces and their area

  predicate Apart(a: FogRect, b: FogRect) {
    a.x + a.w <= b.x || b.x + b.w <= a.x || a.y + a.h <= b.y || b.y + b.h <= a.y
  }

  predicate PairwiseApart(rects: seq<FogRect>) {
    forall i, j :: 0 <= i < j < |rects| ==> Apart(rects[i], rects[j])
  }

  predicate AllApart(a: seq<FogRect>, b: seq<FogRect>) {
    forall i, j :: 0 <= i < |a| && 0 <= j < |b| ==> Apart(a[i], b[j])
  }

  lemma ApartConcat(a: seq<FogRect>, b: seq<FogRect>)
    requires PairwiseApart(a) && PairwiseApart(b) && AllApart(a, b)
    ensures PairwiseApart(a + b)
  {}

  lemma PiecesApart(rect: FogRect, sub: FogRect, i: nat, j: nat)
    requires RectsIntersect(rect, sub) && InSchema(rect) && Brush(sub) && i < j < 4
    requires Kept(Strips(rect, sub)[i]) && Kept(Strips(rect, sub)[j])
    ensures Apart(ClampRect(Strips(rect, sub)[i]).value, ClampRect(Strips(rect, sub)[j]).value)
  {}

  lemma PieceApart(rect: FogRect, sub: FogRect, i: nat, j: nat, p: bool, q: bool)
    requires RectsIntersect(rect, sub) && InSchema(rect) && Brush(sub) && i < j < 4
    ensures AllApart(Piece(p, Strips(rect, sub)[i]), Piece(q, Strips(rect, sub)[j]))
  {
    if Kept(Strips(rect, sub)[i]) && Kept(Strips(rect, sub)[j]) { PiecesApart(rect, sub, i, j); }
  }

  lemma JoinApart(a: seq<FogRect>, b: seq<FogRect>, c: seq<FogRect>)
    requires AllApart(a, c) && AllApart(b, c)
    ensures AllApart(a + b, c)
  {}

  /** Pieces of four strips, at most one each, that are apart pair by pair. */
  lemma FourApart(a: seq<FogRect>, b: seq<FogRect>, l: seq<FogRect>, r: seq<FogRect>)
    requires |a| <= 1 && |b| <= 1 && |l| <= 1 && |r| <= 1
    requires AllApart(a, b) && AllApart(a, l) && AllApart(b, l) && AllApart(a, r) && AllApart(b, r) && AllApart(l, r)
    ensures PairwiseApart(a + b + l + r)
  {
    ApartConcat(a, b);
    JoinApart(a, b, l);
    ApartConcat(a + b, l);
    JoinApart(a, b, r);
    JoinApart(a + b, l, r);
    ApartConcat(a + b + l, r);
  }

  /** No two pieces of a rectangle overlap. */
  lemma SubtractIsApart(rect: FogRect, sub: FogRect)
    requires InSchema(rect) && Brush(sub)
    ensures PairwiseApart(Subtract(rect, sub))
  {
    if RectsIntersect(rect, sub) {
      var mid := MidHeight(rect, sub) >= FOG_RECT_MIN_SIZE;
      var p, q := rect.y < sub.y, rect.y + rect.h > sub.y + sub.h;
      var s, t := mid && rect.x < sub.x, mid && rect.x + rect.w > sub.x + sub.w;
      var a, b := Piece(p, Strips(rect, sub)[0]), Piece(q, Strips(rect, sub)[1]);
      var l, r := Piece(s, Strips(rect, sub)[2]), Piece(t, Strips(rect, sub)[3]);
      PieceApart(rect, sub, 0, 1, p, q);
      PieceApart(rect, sub, 0, 2, p, s); PieceApart(rect, sub, 1, 2, q, s);
      PieceApart(rect, sub, 0, 3, p, t); PieceApart(rect, sub, 1, 3, q, t); PieceApart(rect, sub, 2, 3, s, t);
      FourApart(a, b, l, r);
    }
  }

  /** The area of the part of a rectangle that lies on the board. */
  function BoardArea(r: FogRect): real { Area(CutAt(r.x, r.w), CutAt(r.y, r.h)) }

  function Area(w: real, h: real): real { w * h }

  /** The part of a rectangle under the brush. */
  function Overlap(rect: FogRect, sub: FogRect): FogRect {
    var left := Max(rect.x, sub.x);
    rect.(x := left, y := MidTop(rect, sub), w := Min(rect.x + rect.w, sub.x + sub.w) - left, h := MidHeight(rect, sub))
  }

  /** Two cuts of a length on the board leave parts that add up to it. */
  lemma CutsAddUp(v: real, length: real, a: real, b: real)
    requires 0.0 <= v <= 100.0 && length >= 0.0 && v < b && a < v + length && a <= b
    ensures CutAt(v, a - v) + CutAt(Max(v, a), Min(v + length, b) - Max(v, a)) + CutAt(b, v + length - b)
         == CutAt(v, length)
  {}

  /** The cuts that a brush makes in a rectangle, across and down. */
  datatype Cuts = Cuts(width: real, left: real, over: real, right: real, height: real, top: real, mid: real, bottom: real)
  {
    predicate AddUp() { left + over + right == width && top + mid + bottom == height }

    function Whole(): real { Area(width, height) }

    function Parts(): real {
      Area(width, top) + Area(width, bottom) + Area(left, mid) + Area(right, mid) + Area(over, mid)
    }

    lemma PartsMakeTheWhole()
      requires AddUp()
      ensures Parts() == Whole()
    {
      assert left * mid + right * mid + over * mid == (left + over + right) * mid;
      assert width * (top + mid + bottom) == width * top + width * mid + width * bottom;
    }
  }

  function CutsOf(rect: FogRect, sub: FogRect): Cuts {
    Cuts(CutAt(rect.x, rect.w), CutAt(rect.x, sub.x - rect.x),
         CutAt(Overlap(rect, sub).x, Overlap(rect, sub).w),
         CutAt(sub.x + sub.w, rect.x + rect.w - (sub.x + sub.w)),
         CutAt(rect.y, rect.h), CutAt(rect.y, sub.y - rect.y), CutAt(MidTop(rect, sub), MidHeight(rect, sub)),
         CutAt(sub.y + sub.h, rect.y + rect.h - (sub.y + sub.h)))
  }

  /** The areas of the strips, large or small, and of the part under the brush. */
  function PartsArea(rect: FogRect, sub: FogRect): real {
    BoardArea(Above(rect, sub)) + BoardArea(Below(rect, sub)) + BoardArea(LeftOf(rect, sub))
    + BoardArea(RightOf(rect, sub)) + BoardArea(Overlap(rect, sub))
  }

  lemma CutsAcross(rect: FogRect, sub: FogRect)
    requires InSchema(rect) && Brush(sub) && RectsIntersect(rect, sub)
    ensures CutsOf(rect, sub).AddUp()
  {
    CutsAddUp(rect.x, rect.w, sub.x, sub.x + sub.w);
    CutsAddUp(rect.y, rect.h, sub.y, sub.y + sub.h);
  }

  lemma PartsOfCuts(rect: FogRect, sub: FogRect)
    ensures PartsArea(rect, sub) == CutsOf(rect, sub).Parts() && BoardArea(rect) == CutsOf(rect, sub).Whole()
  {
    var c := CutsOf(rect, sub);
    assert BoardArea(Above(rect, sub)) == Area(c.width, c.top) && BoardArea(Below(rect, sub)) == Area(c.width, c.bottom);
    assert BoardArea(LeftOf(rect, sub)) == Area(c.left, c.mid) && BoardArea(RightOf(rect, sub)) == Area(c.right, c.mid);
    assert BoardArea(Overlap(rect, sub)) == Area(c.over, c.mid);
  }

  /** Nothing is lost or doubled: the four strips and the part under the brush add up to the area
      of the rectangle. */
  lemma AreaIsConserved(rect: FogRect, sub: FogRect)
    requires InSchema(rect) && Brush(sub) && RectsIntersect(rect, sub)
    ensures PartsArea(rect, sub) == BoardArea(rect)
  {
    CutsAcross(rect, sub);
    CutsOf(rect, sub).PartsMakeTheWhole();
    PartsOfCuts(rect, sub);
  }

  // ------------------------------------------------------------------ erasing

  lemma SubtractInSchema(rect: FogRect, sub: FogRect)
    requires InSchema(rect) && Brush(sub)
    ensures AllInSchema(Subtract(rect, sub))
  {
    if RectsIntersect(rect, sub) {
      StripsStartOnBoard(rect, sub);
      forall k: nat | k < 4 ensures AllInSchema(Piece(true, Strips(rect, sub)[k])) {
        PieceCovers(true, Strips(rect, sub)[k], 0.0, 0.0);
      }
    }
  }

  /** A point of the rectangle falls in a strip that is too small to keep. */
  ghost predicate InSliver(rect: FogRect, sub: FogRect, x: real, y: real) {
    RectsIntersect(rect, sub) && exists k :: 0 <= k < 4 && InStrip(rect, sub, k, x, y) && !Kept(Strips(rect, sub)[k])
  }

  /** On the board, subtraction is set difference up to slivers. */
  lemma SubtractIsDifference(rect: FogRect, sub: FogRect, x: real, y: real)
    requires InSchema(rect) && Brush(sub) && OnTheBoard(x, y)
    ensures Covered(Subtract(rect, sub), x, y) ==> Covers(rect, x, y) && !StrictlyInside(sub, x, y)
    ensures Covers(rect, x, y) && !StrictlyInside(sub, x, y) ==>
      Covered(Subtract(rect, sub), x, y) || InSliver(rect, sub, x, y)
  {
    if RectsIntersect(rect, sub) {
      SubtractIsKeptStrips(rect, sub, x, y);
      StripsCoverTheRest(rect, sub, x, y);
    } else if Covers(rect, x, y) {
      assert Covers(Subtract(rect, sub)[0], x, y);
    }
  }

  lemma EnsureIdsKeepsPoints(revealed: seq<FogRect>, x: real, y: real)
    ensures Covered(EnsureFogRectIds(revealed), x, y) <==> Covered(revealed, x, y)
    ensures AllInSchema(revealed) ==> AllInSchema(EnsureFogRectIds(revealed))
  {
    var e := EnsureFogRectIds(revealed);
    if Covered(revealed, x, y) {
      var i :| 0 <= i < |revealed| && Covers(revealed[i], x, y);
      assert Covers(e[i], x, y);
    }
    if Covered(e, x, y) {
      var i :| 0 <= i < |e| && Covers(e[i], x, y);
      assert Covers(revealed[i], x, y);
    }
  }

  ghost predicate InSomeSliver(regions: seq<FogRect>, brush: FogRect, x: real, y: real) {
    exists i :: 0 <= i < |regions| && Covers(regions[i], x, y) && InSliver(regions[i], brush, x, y)
  }

  lemma {:induction false} SubtractAllIsDifference(regions: seq<FogRect>, brush: FogRect, x: real, y: real)
    requires AllInSchema(regions) && Brush(brush) && OnTheBoard(x, y)
    ensures AllInSchema(SubtractAll(regions, brush))
    ensures Covered(SubtractAll(regions, brush), x, y) ==> Covered(regions, x, y) && !StrictlyInside(brush, x, y)
    ensures Covered(regions, x, y) && !StrictlyInside(brush, x, y) ==>
      Covered(SubtractAll(regions, brush), x, y) || InSomeSliver(regions, brush, x, y)
  {
    if regions != [] {
      var first, rest := regions[0], regions[1..];
      SubtractIsDifference(first, brush, x, y);
      SubtractInSchema(first, brush);
      SubtractAllIsDifference(rest, brush, x, y);
      CoveredConcat(Subtract(first, brush), SubtractAll(rest, brush), x, y);
      assert regions == [first] + rest;
      CoveredConcat([first], rest, x, y);
      assert Covered([first], x, y) <==> Covers(first, x, y) by { assert [first][0] == first; }
      if InSomeSliver(rest, brush, x, y) {
        var i :| 0 <= i < |rest| && Covers(rest[i], x, y) && InSliver(rest[i], brush, x, y);
        assert regions[i + 1] == rest[i];
      }
    }
  }

  /** What the cap of the list throws away: the oldest pieces. */
  function OverCap(pieces: seq<FogRect>): seq<FogRect> {
    if |pieces| <= FOG_REVEALED_MAX then [] else pieces[..|pieces| - FOG_REVEALED_MAX]
  }

  lemma CappedPoints(pieces: seq<FogRect>, x: real, y: real)
    ensures Covered(pieces, x, y) <==> Covered(OverCap(pieces), x, y) || Covered(Capped(pieces), x, y)
    ensures AllInSchema(pieces) ==> AllInSchema(Capped(pieces))
    ensures |Capped(pieces)| <= FOG_REVEALED_MAX
  {
    assert pieces == OverCap(pieces) + Capped(pieces);
    CoveredConcat(OverCap(pieces), Capped(pieces), x, y);
  }

  predicate Revealed(fog: Option<FogState>, x: real, y: real) {
    fog.Some? && PointInRevealedRegion(x, y, fog.value)
  }

  predicate StoredInSchema(fog: Option<FogState>) {
    fog.Some? ==> AllInSchema(fog.value.revealed)
  }

  /** Erasing is set difference on the points of the board: nothing strictly inside the brush stays
      and nothing new appears, and any other point is lost only in a sliver or through the cap. */
  lemma EraseIsDifference(fog: Option<FogState>, brush: FogRect, x: real, y: real)
    requires StoredInSchema(fog) && Brush(brush) && OnTheBoard(x, y)
    ensures Revealed(Some(Erase(fog, brush)), x, y) ==> Revealed(fog, x, y) && !StrictlyInside(brush, x, y)
    ensures Revealed(fog, x, y) && !StrictlyInside(brush, x, y) ==>
      || Revealed(Some(Erase(fog, brush)), x, y)
      || InSomeSliver(Regions(fog), brush, x, y)
      || Covered(OverCap(SubtractAll(Regions(fog), brush)), x, y)
    ensures StoredInSchema(Some(Erase(fog, brush))) && |Erase(fog, brush).revealed| <= FOG_REVEALED_MAX
  {
    var stored := if fog.Some? then fog.value.revealed else [];
    EnsureIdsKeepsPoints(stored, x, y);
    SubtractAllIsDifference(Regions(fog), brush, x, y);
    CappedPoints(SubtractAll(Regions(fog), brush), x, y);
  }

  // -------------------------------------------------------------- runs of edits

  datatype FogOp =
    | RevealOp(rect: FogRect, newId: string)
    | EraseOp(brush: FogRect)
    | DeleteOp(regionId: string)
    | MoveOp(movedId: string, dx: real, dy: real)

  function Apply(fog: Option<FogState>, op: FogOp): FogState {
    match op
    case RevealOp(rect, newId) => AppendFogReveal(fog, rect, newId)
    case EraseOp(brush) => Erase(fog, brush)
    case DeleteOp(id) => DeleteFogRegion(fog, id)
    case MoveOp(id, dx, dy) => MoveFogRegion(fog, id, dx, dy)
  }

  function Run(fog: Option<FogState>, ops: seq<FogOp>): Option<FogState>
    decreases ops
  {
    if ops == [] then fog else Run(Some(Apply(fog, ops[0])), ops[1..])
  }

  /** The edit's own rectangles: those it reveals are in the schema, those it erases have a size. */
  predicate WellFormed(op: FogOp) {
    (op.RevealOp? ==> InSchema(op.rect)) && (op.EraseOp? ==> Brush(op.brush))
  }

  /** The edit puts a rectangle over the point: a reveal, or a region moved there. */
  predicate BringsLight(fog: Option<FogState>, op: FogOp, x: real, y: real) {
    match op
    case RevealOp(rect, _) => Covers(rect, x, y)
    case MoveOp(id, dx, dy) =>
      exists i :: 0 <= i < |Regions(fog)| && Regions(fog)[i].id == Some(id) && Covers(MoveRect(Regions(fog)[i], dx, dy), x, y)
    case _ => false
  }

  lemma {:induction false} WithoutIdPoints(regions: seq<FogRect>, id: string, x: real, y: real)
    ensures Covered(WithoutId(regions, id), x, y) ==> Covered(regions, x, y)
    ensures AllInSchema(regions) ==> AllInSchema(WithoutId(regions, id))
  {
    if regions != [] {
      WithoutIdPoints(regions[1..], id, x, y);
      var kept := if regions[0].id != Some(id) then [regions[0]] else [];
      CoveredConcat(kept, WithoutId(regions[1..], id), x, y);
      assert regions == [regions[0]] + regions[1..];
      CoveredConcat([regions[0]], regions[1..], x, y);
    }
  }

  lemma MoveRectInSchema(r: FogRect, dx: real, dy: real)
    requires InSchema(r)
    ensures InSchema(MoveRect(r, dx, dy))
  {}

  lemma {:induction false} MoveAllAt(regions: seq<FogRect>, id: string, dx: real, dy: real)
    ensures |MoveAll(regions, id, dx, dy)| == |regions|
    ensures forall i :: 0 <= i < |regions| ==>
      MoveAll(regions, id, dx, dy)[i] == if regions[i].id == Some(id) then MoveRect(regions[i], dx, dy) else regions[i]
  {
    if regions != [] { MoveAllAt(regions[1..], id, dx, dy); }
  }

  lemma MovePoints(regions: seq<FogRect>, id: string, dx: real, dy: real, x: real, y: real)
    requires AllInSchema(regions)
    ensures AllInSchema(MoveAll(regions, id, dx, dy))
    ensures Covered(MoveAll(regions, id, dx, dy), x, y) && !Covered(regions, x, y) ==>
      exists i :: 0 <= i < |regions| && regions[i].id == Some(id) && Covers(MoveRect(regions[i], dx, dy), x, y)
  {
    var moved := MoveAll(regions, id, dx, dy);
    MoveAllAt(regions, id, dx, dy);
    forall i | 0 <= i < |moved| ensures InSchema(moved[i]) { MoveRectInSchema(regions[i], dx, dy); }
    if Covered(moved, x, y) {
      var i :| 0 <= i < |moved| && Covers(moved[i], x, y);
      if regions[i].id != Some(id) { assert Covers(regions[i], x, y); }
    }
  }

  lemma RevealPoints(fog: Option<FogState>, rect: FogRect, newId: string, x: real, y: real)
    requires AllInSchema(Regions(fog)) && InSchema(rect)
    ensures AllInSchema(AppendFogReveal(fog, rect, newId).revealed)
    ensures Covered(AppendFogReveal(fog, rect, newId).revealed, x, y) ==> Covered(Regions(fog), x, y) || Covers(rect, x, y)
  {
    var withId := if rect.id.Some? then rect else rect.(id := Some(newId));
    CappedPoints(Regions(fog) + [withId], x, y);
    CoveredConcat(Regions(fog), [withId], x, y);
  }

  /** An edit reveals a point only by bringing light to it. */
  lemma EditRevealsOnlyItsOwn(fog: Option<FogState>, op: FogOp, x: real, y: real)
    requires StoredInSchema(fog) && WellFormed(op) && OnTheBoard(x, y)
    ensures StoredInSchema(Some(Apply(fog, op)))
    ensures Revealed(Some(Apply(fog, op)), x, y) ==> Revealed(fog, x, y) || BringsLight(fog, op, x, y)
  {
    EnsureIdsKeepsPoints(if fog.Some? then fog.value.revealed else [], x, y);
    match op
    case EraseOp(brush) => EraseIsDifference(fog, brush, x, y);
    case RevealOp(rect, newId) => RevealPoints(fog, rect, newId, x, y);
    case DeleteOp(id) => WithoutIdPoints(Regions(fog), id, x, y);
    case MoveOp(id, dx, dy) => MovePoints(Regions(fog), id, dx, dy, x, y);
  }

  /** No edit of the run brings light to the point. */
  ghost predicate StaysDark(fog: Option<FogState>, ops: seq<FogOp>, x: real, y: real)
    decreases ops
  {
    ops == [] || (!BringsLight(fog, ops[0], x, y) && StaysDark(Some(Apply(fog, ops[0])), ops[1..], x, y))
  }

  lemma {:induction false} DarkRun(fog: Option<FogState>, ops: seq<FogOp>, x: real, y: real)
    requires StoredInSchema(fog) && OnTheBoard(x, y) && (forall op <- ops :: WellFormed(op))
    requires !Revealed(fog, x, y) && StaysDark(fog, ops, x, y)
    ensures !Revealed(Run(fog, ops), x, y)
    decreases ops
  {
    if ops != [] {
      assert ops[0] in ops;
      EditRevealsOnlyItsOwn(fog, ops[0], x, y);
      DarkRun(Some(Apply(fog, ops[0])), ops[1..], x, y);
    }
  }

  /** A point strictly inside an erased brush stays concealed over every later run of edits, until
      one of them reveals it or moves a region over it. */
  lemma ErasedStaysConcealed(fog: Option<FogState>, brush: FogRect, ops: seq<FogOp>, x: real, y: real)
    requires StoredInSchema(fog) && Brush(brush) && OnTheBoard(x, y) && (forall op <- ops :: WellFormed(op))
    requires StrictlyInside(brush, x, y) && StaysDark(Some(Erase(fog, brush)), ops, x, y)
    ensures !Revealed(Run(Some(Erase(fog, brush)), ops), x, y)
  {
    EraseIsDifference(fog, brush, x, y);
    DarkRun(Some(Erase(fog, brush)), ops, x, y);
  }

  // ------------------------------------------------------------------ raw pixels

  /** Enabled fog that is said to conceal nothing reveals every point of the board. */
  lemma UnconcealedIsRevealed(fog: Option<FogState>, x: real, y: real)
    requires fog.Some? && fog.value.enabled && !FogConcealsPixels(fog) && OnTheBoard(x, y)
    ensures Revealed(fog, x, y)
  {
    var i :| 0 <= i < |fog.value.revealed| &&
      var r := fog.value.revealed[i];
      r.x <= 0.0 && r.y <= 0.0 && r.x + r.w >= 100.0 && r.y + r.h >= 100.0;
    assert Covers(fog.value.revealed[i], x, y);
  }

  /** An erase whose inside meets the board makes the fog conceal pixels. */
  lemma ErasingConceals(fog: Option<FogState>, brush: FogRect, x: real, y: real)
    requires StoredInSchema(fog) && Brush(brush) && OnTheBoard(x, y) && StrictlyInside(brush, x, y)
    ensures FogConcealsPixels(Some(Erase(fog, brush)))
  {
    EraseIsDifference(fog, brush, x, y);
    if !FogConcealsPixels(Some(Erase(fog, brush))) { UnconcealedIsRevealed(Some(Erase(fog, brush)), x, y); }
  }
}
