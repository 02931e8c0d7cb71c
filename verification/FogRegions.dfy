/** Erasing keeps a list of regions that do not overlap without overlap. */
module FogRegions {
  import opened Text
  import opened Fog
  import opened FogGeometry

  predicate Inside(p: FogRect, r: FogRect) {
    r.x <= p.x && p.x + p.w <= r.x + r.w && r.y <= p.y && p.y + p.h <= r.y + r.h
  }

  predicate AllInside(ps: seq<FogRect>, r: FogRect) { forall i :: 0 <= i < |ps| ==> Inside(ps[i], r) }

  lemma StripInside(rect: FogRect, sub: FogRect, k: nat)
    requires InSchema(rect) && Brush(sub) && RectsIntersect(rect, sub) && k < 4 && Kept(Strips(rect, sub)[k])
    ensures Inside(ClampRect(Strips(rect, sub)[k]).value, rect)
  {}

  lemma PieceInside(rect: FogRect, sub: FogRect, k: nat, wanted: bool)
    requires InSchema(rect) && Brush(sub) && RectsIntersect(rect, sub) && k < 4
    ensures AllInside(Piece(wanted, Strips(rect, sub)[k]), rect)
  {
    if Kept(Strips(rect, sub)[k]) { StripInside(rect, sub, k); }
  }

  lemma JoinInside(a: seq<FogRect>, b: seq<FogRect>, r: FogRect)
    requires AllInside(a, r) && AllInside(b, r)
    ensures AllInside(a + b, r)
  {}

  /** The pieces of a rectangle lie in it. */
  lemma PiecesInside(rect: FogRect, sub: FogRect)
    requires InSchema(rect) && Brush(sub)
    ensures AllInside(Subtract(rect, sub), rect)
  {
    if RectsIntersect(rect, sub) {
      var mid := MidHeight(rect, sub) >= FOG_RECT_MIN_SIZE;
      var p, q := rect.y < sub.y, rect.y + rect.h > sub.y + sub.h;
      var s, t := mid && rect.x < sub.x, mid && rect.x + rect.w > sub.x + sub.w;
      var a, b := Piece(p, Strips(rect, sub)[0]), Piece(q, Strips(rect, sub)[1]);
      var l, r := Piece(s, Strips(rect, sub)[2]), Piece(t, Strips(rect, sub)[3]);
      PieceInside(rect, sub, 0, p); PieceInside(rect, sub, 1, q);
      PieceInside(rect, sub, 2, s); PieceInside(rect, sub, 3, t);
      JoinInside(a, b, rect);
      JoinInside(a + b, l, rect);
      JoinInside(a + b + l, r, rect);
    }
  }

  lemma InsideApart(ps: seq<FogRect>, r: FogRect, qs: seq<FogRect>, s: FogRect)
    requires AllInside(ps, r) && AllInside(qs, s) && Apart(r, s)
    ensures AllApart(ps, qs)
  {}

  lemma ApartJoin(ps: seq<FogRect>, a: seq<FogRect>, b: seq<FogRect>)
    requires AllApart(ps, a) && AllApart(ps, b)
    ensures AllApart(ps, a + b)
  {}

  lemma {:induction false} PiecesApartFrom(ps: seq<FogRect>, r: FogRect, rest: seq<FogRect>, brush: FogRect)
    requires AllInside(ps, r) && AllInSchema(rest) && Brush(brush) && AllApart([r], rest)
    ensures AllApart(ps, SubtractAll(rest, brush))
  {
    if rest != [] {
      assert Apart([r][0], rest[0]);
      PiecesInside(rest[0], brush);
      InsideApart(ps, r, Subtract(rest[0], brush), rest[0]);
      PiecesApartFrom(ps, r, rest[1..], brush);
      ApartJoin(ps, Subtract(rest[0], brush), SubtractAll(rest[1..], brush));
    }
  }

  lemma {:induction false} SubtractAllApart(regions: seq<FogRect>, brush: FogRect)
    requires AllInSchema(regions) && Brush(brush) && PairwiseApart(regions)
    ensures PairwiseApart(SubtractAll(regions, brush))
  {
    if regions != [] {
      var first, rest := regions[0], regions[1..];
      assert AllApart([first], rest);
      SubtractAllApart(rest, brush);
      SubtractIsApart(first, brush);
      PiecesInside(first, brush);
      PiecesApartFrom(Subtract(first, brush), first, rest, brush);
      ApartConcat(Subtract(first, brush), SubtractAll(rest, brush));
    }
  }

  /** Regions that do not overlap do not overlap after an erase either. */
  lemma EraseKeepsApart(fog: Option<FogState>, brush: FogRect)
    requires StoredInSchema(fog) && Brush(brush) && (fog.Some? ==> PairwiseApart(fog.value.revealed))
    ensures PairwiseApart(Erase(fog, brush).revealed)
  {
    EnsureIdsKeepsPoints(if fog.Some? then fog.value.revealed else [], 0.0, 0.0);
    SubtractAllApart(Regions(fog), brush);
  }
}
