/** What each edit does to the points of the board, and what a viewer is shown of the templates on it. */
module FogViewer {
  import opened Text
  import opened Sequences
  import opened Fog
  import opened FogGeometry

  // ------------------------------------------------------------- edits, point by point

  /** A reveal uncovers its rectangle and nothing else, and keeps what was uncovered but for regions over the cap. */
  lemma RevealIsUnion(fog: Option<FogState>, rect: FogRect, newId: string, x: real, y: real)
    ensures var after := AppendFogReveal(fog, rect, newId);
      && after.enabled && |after.revealed| <= FOG_REVEALED_MAX
      && (Covers(rect, x, y) ==> Revealed(Some(after), x, y))
      && (Revealed(Some(after), x, y) ==> Revealed(fog, x, y) || Covers(rect, x, y))
      && (Revealed(fog, x, y) ==> Revealed(Some(after), x, y) || Covered(OverCap(Regions(fog) + [rect]), x, y))
  {
    var regions := Regions(fog);
    var withId := if rect.id.Some? then rect else rect.(id := Some(newId));
    var after := Capped(regions + [withId]);
    EnsureIdsKeepsPoints(if fog.Some? then fog.value.revealed else [], x, y);
    assert after[|after| - 1] == withId;
    CappedPoints(regions + [withId], x, y);
    assert OverCap(regions + [withId]) == OverCap(regions + [rect]);
    CoveredConcat(regions, [withId], x, y);
    assert Covered([withId], x, y) <==> Covers(withId, x, y) by { assert [withId][0] == withId; }
  }

  /** Deleting a region leaves exactly the points of the regions with another id. */
  lemma {:induction false} WithoutIdIff(regions: seq<FogRect>, id: string, x: real, y: real)
    ensures Covered(WithoutId(regions, id), x, y) <==>
      exists i :: 0 <= i < |regions| && regions[i].id != Some(id) && Covers(regions[i], x, y)
  {
    if regions != [] {
      var kept, rest := if regions[0].id != Some(id) then [regions[0]] else [], regions[1..];
      WithoutIdIff(rest, id, x, y);
      CoveredConcat(kept, WithoutId(rest, id), x, y);
      assert Covered(kept, x, y) <==> regions[0].id != Some(id) && Covers(regions[0], x, y) by {
        if regions[0].id != Some(id) { assert kept[0] == regions[0]; }
      }
      assert forall i :: 0 <= i < |rest| ==> rest[i] == regions[i + 1];
      assert forall i :: 1 <= i < |regions| ==> regions[i] == rest[i - 1];
    }
  }

  lemma DeleteIsExact(fog: Option<FogState>, id: string, x: real, y: real)
    ensures Revealed(Some(DeleteFogRegion(fog, id)), x, y) <==>
      exists i :: 0 <= i < |Regions(fog)| && Regions(fog)[i].id != Some(id) && Covers(Regions(fog)[i], x, y)
  {
    WithoutIdIff(Regions(fog), id, x, y);
  }

  /** A region whose shifted rectangle starts on the board is moved by the shift and cut at the board's far edges. */
  lemma MovedPoints(r: FogRect, dx: real, dy: real, x: real, y: real)
    requires InSchema(r) && OnTheBoard(x, y) && r.x + dx >= 0.0 && r.y + dy >= 0.0
    ensures Covers(MoveRect(r, dx, dy), x, y) <==>
      if Kept(r.(x := r.x + dx, y := r.y + dy)) then Covers(r, x - dx, y - dy) else Covers(r, x, y)
  {
    var shifted := r.(x := r.x + dx, y := r.y + dy);
    if Kept(shifted) { ClampKeepsPoints(shifted, x, y); }
  }

  /** Moving a region leaves exactly the points of the others and of the region where it is now. */
  lemma MoveIsExact(fog: Option<FogState>, id: string, dx: real, dy: real, x: real, y: real)
    ensures Revealed(Some(MoveFogRegion(fog, id, dx, dy)), x, y) <==>
      exists i :: 0 <= i < |Regions(fog)| &&
        Covers(if Regions(fog)[i].id == Some(id) then MoveRect(Regions(fog)[i], dx, dy) else Regions(fog)[i], x, y)
  {
    MoveAllAt(Regions(fog), id, dx, dy);
    var moved := MoveFogRegion(fog, id, dx, dy).revealed;
    if Covered(moved, x, y) { var i :| 0 <= i < |moved| && Covers(moved[i], x, y); }
  }

  /** A region covers the point after its move: where it was moved to, or where it was when too little would remain. */
  predicate CoversShifted(r: FogRect, id: string, dx: real, dy: real, x: real, y: real) {
    if r.id == Some(id) && Kept(r.(x := r.x + dx, y := r.y + dy)) then Covers(r, x - dx, y - dy) else Covers(r, x, y)
  }

  lemma OneShifted(r: FogRect, id: string, dx: real, dy: real, x: real, y: real)
    requires InSchema(r) && OnTheBoard(x, y) && (r.id == Some(id) ==> r.x + dx >= 0.0 && r.y + dy >= 0.0)
    ensures Covers(if r.id == Some(id) then MoveRect(r, dx, dy) else r, x, y) <==> CoversShifted(r, id, dx, dy, x, y)
  {
    if r.id == Some(id) { MovedPoints(r, dx, dy, x, y); }
  }

  /** After a shift that leaves the region's corner on the board, its points are shifted, unless too little would remain. */
  lemma MoveShifts(fog: Option<FogState>, id: string, dx: real, dy: real, x: real, y: real)
    requires AllInSchema(Regions(fog)) && OnTheBoard(x, y)
    requires forall r <- Regions(fog) :: r.id == Some(id) ==> r.x + dx >= 0.0 && r.y + dy >= 0.0
    ensures Revealed(Some(MoveFogRegion(fog, id, dx, dy)), x, y) <==>
      exists i :: 0 <= i < |Regions(fog)| && CoversShifted(Regions(fog)[i], id, dx, dy, x, y)
  {
    MoveIsExact(fog, id, dx, dy, x, y);
    forall i | 0 <= i < |Regions(fog)|
      ensures Covers(if Regions(fog)[i].id == Some(id) then MoveRect(Regions(fog)[i], dx, dy) else Regions(fog)[i], x, y)
        <==> CoversShifted(Regions(fog)[i], id, dx, dy, x, y)
    {
      OneShifted(Regions(fog)[i], id, dx, dy, x, y);
    }
  }

  // ------------------------------------------------------------- what a viewer is shown

  /** An area template: its origin, and who declared it. */
  datatype Template = Template(name: string, x: real, y: real, declaredBy: Option<string>)

  predicate ShownTo(t: Template, fog: FogState, viewer: Option<string>) {
    (viewer.Some? && t.declaredBy == viewer) || PointInRevealedRegion(t.x, t.y, fog)
  }

  function Shown(aoe: seq<Template>, fog: FogState, viewer: Option<string>): seq<Template> {
    if aoe == [] then []
    else (if ShownTo(aoe[0], fog, viewer) then [aoe[0]] else []) + Shown(aoe[1..], fog, viewer)
  }

  function FilterAoeTemplatesForViewer(aoe: seq<Template>, fog: Option<FogState>, viewer: Option<string>): seq<Template> {
    if fog.None? || !fog.value.enabled then aoe else Shown(aoe, fog.value, viewer)
  }

  lemma {:induction false} ShownIff(aoe: seq<Template>, fog: FogState, viewer: Option<string>, t: Template)
    ensures t in Shown(aoe, fog, viewer) <==> t in aoe && ShownTo(t, fog, viewer)
  {
    if aoe != [] {
      ShownIff(aoe[1..], fog, viewer, t);
      assert aoe == [aoe[0]] + aoe[1..];
    }
  }

  /** A template is shown when the fog is off, to the one who declared it, and where a region holds its origin. */
  lemma FilterIff(aoe: seq<Template>, fog: Option<FogState>, viewer: Option<string>, t: Template)
    ensures t in FilterAoeTemplatesForViewer(aoe, fog, viewer) <==>
      t in aoe &&
      (fog.None? || !fog.value.enabled || (t.declaredBy.Some? && viewer == Some(t.declaredBy.value))
       || exists r :: r in fog.value.revealed && r.x <= t.x <= r.x + r.w && r.y <= t.y <= r.y + r.h)
  {
    if fog.Some? && fog.value.enabled {
      var rs := fog.value.revealed;
      ShownIff(aoe, fog.value, viewer, t);
      assert (exists r :: r in rs && r.x <= t.x <= r.x + r.w && r.y <= t.y <= r.y + r.h) <==>
        exists i :: 0 <= i < |rs| && Covers(rs[i], t.x, t.y);
    }
  }

  lemma {:induction false} ShownJoin(a: seq<Template>, b: seq<Template>, fog: FogState, viewer: Option<string>)
    ensures Shown(a + b, fog, viewer) == Shown(a, fog, viewer) + Shown(b, fog, viewer)
  {
    if a == [] {
      assert a + b == b;
    } else {
      ShownJoin(a[1..], b, fog, viewer);
      assert (a + b)[1..] == a[1..] + b;
      Assoc(if ShownTo(a[0], fog, viewer) then [a[0]] else [], Shown(a[1..], fog, viewer), Shown(b, fog, viewer));
    }
  }

  /** The templates shown keep their order. */
  lemma FilterJoin(a: seq<Template>, b: seq<Template>, fog: Option<FogState>, viewer: Option<string>)
    ensures FilterAoeTemplatesForViewer(a + b, fog, viewer) ==
      FilterAoeTemplatesForViewer(a, fog, viewer) + FilterAoeTemplatesForViewer(b, fog, viewer)
  {
    if fog.Some? { ShownJoin(a, b, fog.value, viewer); }
  }

  lemma {:induction false} RunStaysEnabled(fog: Option<FogState>, ops: seq<FogOp>)
    requires fog.Some? && fog.value.enabled
    ensures Run(fog, ops).Some? && Run(fog, ops).value.enabled
    decreases ops
  {
    if ops != [] { RunStaysEnabled(Some(Apply(fog, ops[0])), ops[1..]); }
  }

  /** After an erase, another's template strictly inside the brush is withheld over every later run of edits that
      brings no light to it, and the viewer's own template is shown throughout. */
  lemma ErasedTemplateWithheld(fog: Option<FogState>, brush: FogRect, ops: seq<FogOp>, aoe: seq<Template>,
      viewer: Option<string>, t: Template)
    requires StoredInSchema(fog) && Brush(brush) && OnTheBoard(t.x, t.y) && (forall op <- ops :: WellFormed(op))
    requires StrictlyInside(brush, t.x, t.y) && StaysDark(Some(Erase(fog, brush)), ops, t.x, t.y) && t in aoe
    ensures t in FilterAoeTemplatesForViewer(aoe, Run(Some(Erase(fog, brush)), ops), viewer) <==>
      viewer.Some? && t.declaredBy == viewer
  {
    var after := Run(Some(Erase(fog, brush)), ops);
    RunStaysEnabled(Some(Erase(fog, brush)), ops);
    ErasedStaysConcealed(fog, brush, ops, t.x, t.y);
    ShownIff(aoe, after.value, viewer, t);
  }

  /** Templates withheld show that the fog conceals pixels: what is shown without restriction conceals nothing. */
  lemma UnconcealedShowsAll(aoe: seq<Template>, fog: Option<FogState>, viewer: Option<string>, t: Template)
    requires !FogConcealsPixels(fog) && t in aoe && OnTheBoard(t.x, t.y)
    ensures t in FilterAoeTemplatesForViewer(aoe, fog, viewer)
  {
    if fog.Some? && fog.value.enabled {
      UnconcealedIsRevealed(fog, t.x, t.y);
      ShownIff(aoe, fog.value, viewer, t);
    }
  }
}
