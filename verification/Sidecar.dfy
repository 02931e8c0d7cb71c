/**
 The shared sidecar store of the image slots (design/claude-design/image-slot.js): one read of the
 sidecar, edits that race it, and serialized writes. Each callback of the source is one step.
 */
module Sidecar {
  import opened Text

  /** What a slot stores now: an image, empty for a framing without one, and its framing. */
  datatype Entry = Entry(u: string, s: real, x: real, y: real)

  /** A value of the sidecar: older files hold the bare image. */
  datatype SlotValue = Legacy(url: string) | Stored(entry: Entry)
  {
    predicate Truthy() { Legacy? ==> url != "" }

    function Image(): string { if Legacy? then url else entry.u }
  }

  type Slots = map<string, SlotValue>

  /** One call of `setSlot`: an entry, or `None` to clear the slot. */
  datatype Edit = Edit(id: string, val: Option<Entry>)

  function ApplyEdit(slots: Slots, e: Edit): Slots {
    if e.id == "" then slots
    else if e.val.Some? then slots[e.id := Stored(e.val.value)]
    else slots - {e.id}
  }

  function Lookup(slots: Slots, id: string): Option<SlotValue> {
    if id in slots then Some(slots[id]) else None
  }

  /** An entry without an image takes the one on disk. */
  function Inherit(v: SlotValue, onDisk: Option<SlotValue>): SlotValue {
    if v.Stored? && v.entry.u == "" && onDisk.Some? && onDisk.value.Truthy()
    then Stored(v.entry.(u := onDisk.value.Image()))
    else v
  }

  /** The merge of `load`: memory wins over the disk, and tombstones over both. */
  function Merge(disk: Slots, slots: Slots, tombstones: set<string>): Slots {
    (disk + map id | id in slots :: Inherit(slots[id], Lookup(disk, id))) - tombstones
  }

  // -------------------------------------------------------------------- the steps

  datatype Event =
    | SetSlot(edit: Edit)
    | StartLoad
    | ReadDone(file: Option<Slots>)   // the file's contents, or none when there is no file
    | ReadFailed
    | FinishLoad
    | DeferredSave                    // one `load().then(save)`
    | WriteDone
    | WriteFailed

  datatype State = State(
    slots: Slots, tombstones: set<string>, loading: bool, hydrated: bool, loaded: bool,
    saving: bool, saveDirty: bool,
    deferred: nat, inFlight: Slots, disk: Option<Slots>)
  {
    function Save(): State {
      if saving then this.(saveDirty := true) else this.(saving := true, inFlight := slots)
    }

    function Written(): State {
      var s := this.(saving := false, saveDirty := false);
      if saveDirty then s.Save() else s
    }

    function Step(ev: Event): State {
      match ev
      case SetSlot(e) =>
        if e.id == "" then this
        else
          var s := this.(slots := ApplyEdit(slots, e),
                         tombstones := if e.val.Some? then tombstones - {e.id}
                                       else if !loaded then tombstones + {e.id} else tombstones);
          if loaded then s.Save() else s.(loading := true, deferred := deferred + 1)
      case StartLoad => this.(loading := true)
      case ReadDone(file) =>
        this.(hydrated := true, tombstones := {},
              slots := if file.Some? then Merge(file.value, slots, tombstones) else slots)
      case ReadFailed => this.(hydrated := true)
      case FinishLoad => this.(loaded := true)
      case DeferredSave => if deferred == 0 then this else this.(deferred := deferred - 1).Save()
      case WriteDone => this.(disk := Some(inFlight)).Written()
      case WriteFailed => this.Written()
    }

    /** Which callback can run, and what a read returns: the file as it is on disk. */
    predicate Enabled(ev: Event) {
      match ev
      case SetSlot(_) => true
      case StartLoad => true
      case ReadDone(file) => loading && !hydrated && file == disk
      case ReadFailed => loading && !hydrated
      case FinishLoad => hydrated && !loaded
      case DeferredSave => loaded && deferred > 0
      case WriteDone => saving
      case WriteFailed => saving
    }

    /** Loaded, with no write under way and none deferred. */
    predicate Quiescent() { loaded && !saving && deferred == 0 }
  }

  predicate Succeeds(ev: Event) { !ev.ReadFailed? && !ev.WriteFailed? }

  function Init(disk: Option<Slots>): State {
    State(map[], {}, false, false, false, false, false, 0, map[], disk)
  }

  function Contents(disk: Option<Slots>): Slots { if disk.Some? then disk.value else map[] }

  /** The module state of the source, changed in place by its callbacks. */
  class Store {
    var slots: Slots
    var tombstones: set<string>
    var loading: bool
    var hydrated: bool
    var loaded: bool
    var saving: bool
    var saveDirty: bool
    var deferred: nat
    var inFlight: Slots
    var disk: Option<Slots>

    function Abs(): State reads this {
      State(slots, tombstones, loading, hydrated, loaded, saving, saveDirty, deferred, inFlight, disk)
    }

    constructor (file: Option<Slots>)
      ensures Abs() == Init(file)
    {
      slots, tombstones := map[], {};
      loading, hydrated, loaded, saving, saveDirty := false, false, false, false, false;
      deferred, inFlight, disk := 0, map[], file;
    }

    method Save()
      modifies this
      ensures Abs() == old(Abs()).Save()
    {
      if saving { saveDirty := true; return; }
      saving := true;
      inFlight := slots;
    }

    method Set(id: string, val: Option<Entry>)
      modifies this
      ensures Abs() == old(Abs()).Step(SetSlot(Edit(id, val)))
    {
      if id == "" { return; }
      if val.Some? {
        slots := slots[id := Stored(val.value)];
        tombstones := tombstones - {id};
      } else {
        slots := slots - {id};
        if !loaded { tombstones := tombstones + {id}; }
      }
      if loaded { Save(); } else { Load(); deferred := deferred + 1; }
    }

    method Load()
      modifies this
      ensures Abs() == old(Abs()).Step(StartLoad)
    {
      loading := true;
    }

    /** Hydrate from the sidecar; `None` when there is no file. */
    method Hydrate(file: Option<Slots>)
      modifies this
      ensures Abs() == old(Abs()).Step(ReadDone(file))
    {
      if file.Some? {
        var j := file.value;
        var merged := j + slots;
        var left := slots.Keys;
        while left != {}
          invariant left <= slots.Keys && merged.Keys == j.Keys + slots.Keys
          invariant forall k <- merged :: k !in slots ==> merged[k] == j[k]
          invariant forall k <- slots :: merged[k] == if k in left then slots[k] else Inherit(slots[k], Lookup(j, k))
          decreases left
        {
          var k :| k in left;
          merged := merged[k := Inherit(merged[k], Lookup(j, k))];
          left := left - {k};
        }
        merged := merged - tombstones;
        assert merged == Merge(j, slots, tombstones);
        slots := merged;
      }
      tombstones := {};
      hydrated := true;
    }

    method HydrationFailed()
      modifies this
      ensures Abs() == old(Abs()).Step(ReadFailed)
    {
      hydrated := true;
    }

    method LoadFinished()
      modifies this
      ensures Abs() == old(Abs()).Step(FinishLoad)
    {
      loaded := true;
    }

    method RunDeferredSave()
      modifies this
      ensures Abs() == old(Abs()).Step(DeferredSave)
    {
      if deferred == 0 { return; }
      deferred := deferred - 1;
      Save();
    }

    /** A write came back; a save requested meanwhile is made now. */
    method WriteCompleted(ok: bool)
      modifies this
      ensures Abs() == old(Abs()).Step(if ok then WriteDone else WriteFailed)
    {
      if ok { disk := Some(inFlight); }
      saving := false;
      if saveDirty {
        saveDirty := false;
        Save();
      }
    }

    /** Older values read as an unscaled, centred image. */
    function Get(id: string): (r: Option<Entry>)
      reads this
      ensures id !in slots ==> r == None
      ensures id in slots && slots[id] == Legacy("") ==> r == None
      ensures forall u :: u != "" && Lookup(slots, id) == Some(Legacy(u)) ==> r == Some(Entry(u, 1.0, 0.0, 0.0))
      ensures forall e :: Lookup(slots, id) == Some(Stored(e)) ==> r == Some(e)
    {
      if id !in slots || !slots[id].Truthy() then None
      else match slots[id]
        case Legacy(u) => Some(Entry(u, 1.0, 0.0, 0.0))
        case Stored(e) => Some(e)
    }
  }

  // ------------------------------------------------------------------------- runs

  predicate Legal(s: State, events: seq<Event>)
    decreases events
  {
    events == [] || (s.Enabled(events[0]) && Succeeds(events[0]) && Legal(s.Step(events[0]), events[1..]))
  }

  function Run(s: State, events: seq<Event>): State
    decreases events
  {
    if events == [] then s else Run(s.Step(events[0]), events[1..])
  }

  /** The edits of a run, split at hydration. */
  datatype Edits = Edits(before: seq<Edit>, after: seq<Edit>)
  {
    function Add(e: Edit, hydrated: bool): Edits {
      if hydrated then this.(after := after + [e]) else this.(before := before + [e])
    }
  }

  function EditsOf(s: State, events: seq<Event>, edits: Edits): Edits
    decreases events
  {
    if events == [] then edits
    else EditsOf(s.Step(events[0]), events[1..],
                 if events[0].SetSlot? then edits.Add(events[0].edit, s.hydrated) else edits)
  }

  function Replay(slots: Slots, edits: seq<Edit>): Slots {
    if edits == [] then slots else ApplyEdit(Replay(slots, edits[..|edits| - 1]), edits[|edits| - 1])
  }

  /** The last edit of each id: its entry, or `None` when it was cleared. */
  function Patch(edits: seq<Edit>): map<string, Option<Entry>> {
    if edits == [] then map[]
    else
      var e := edits[|edits| - 1];
      var p := Patch(edits[..|edits| - 1]);
      if e.id == "" then p else p[e.id := e.val]
  }

  /** What hydration makes of the disk and the edits before it. */
  function Hydrated(disk: Slots, edits: seq<Edit>): Slots {
    var p := Patch(edits);
    map id | id in disk.Keys + p.Keys && (id in p ==> p[id].Some?) ::
      if id in p then Inherit(Stored(p[id].value), Lookup(disk, id)) else disk[id]
  }

  /** The slots before hydration are the edits alone, and the tombstones the ids that they cleared. */
  ghost predicate PatchHolds(slots: Slots, tombstones: set<string>, p: map<string, Option<Entry>>) {
    && (forall id :: id in slots <==> id in p && p[id].Some?)
    && (forall id <- slots :: slots[id] == Stored(p[id].value))
    && (forall id :: id in tombstones <==> id in p && p[id].None?)
  }

  ghost predicate Inv(s: State, disk0: Option<Slots>, edits: Edits) {
    // The phases follow each other, and nothing is written before the last.
    && (s.loaded ==> s.hydrated)
    && (s.saveDirty ==> s.saving)
    && (!s.loaded ==> !s.saving && s.disk == disk0)
    // Memory: the edits alone, then the merged and replayed state.
    && (!s.hydrated ==> PatchHolds(s.slots, s.tombstones, Patch(edits.before)) && edits.after == [])
    && (s.hydrated ==> s.slots == Replay(Hydrated(Contents(disk0), edits.before), edits.after))
    // Disk: every difference is under way, dirty or deferred.
    && (!s.hydrated && s.deferred == 0 ==> Patch(edits.before) == map[])
    && (s.hydrated && s.deferred == 0 && !s.saving ==> Contents(s.disk) == s.slots)
    && (s.deferred == 0 && s.saving && !s.saveDirty ==> s.inFlight == s.slots)
  }

  lemma PatchOfOne(edits: seq<Edit>, e: Edit)
    ensures Patch(edits + [e]) == if e.id == "" then Patch(edits) else Patch(edits)[e.id := e.val]
  {
    assert (edits + [e])[..|edits|] == edits;
  }

  lemma ReplayOfOne(slots: Slots, edits: seq<Edit>, e: Edit)
    ensures Replay(slots, edits + [e]) == ApplyEdit(Replay(slots, edits), e)
  {
    assert (edits + [e])[..|edits|] == edits;
  }

  lemma MergeIsHydration(disk: Slots, slots: Slots, tombstones: set<string>, edits: seq<Edit>)
    requires PatchHolds(slots, tombstones, Patch(edits))
    ensures Merge(disk, slots, tombstones) == Hydrated(disk, edits)
  {
    var m, h := Merge(disk, slots, tombstones), Hydrated(disk, edits);
    assert forall id :: id in m <==> id in h;
    assert forall id <- m :: m[id] == h[id];
  }

  lemma EmptyDiskHydration(slots: Slots, tombstones: set<string>, edits: seq<Edit>)
    requires PatchHolds(slots, tombstones, Patch(edits))
    ensures slots == Hydrated(map[], edits)
  {
    var h := Hydrated(map[], edits);
    assert forall id :: id in slots <==> id in h;
    assert forall id <- slots :: slots[id] == h[id];
  }

  lemma NoEditsHydration(disk: Slots, edits: seq<Edit>)
    requires Patch(edits) == map[]
    ensures Hydrated(disk, edits) == disk
  {}

  lemma EditStep(s: State, disk0: Option<Slots>, edits: Edits, e: Edit)
    requires Inv(s, disk0, edits)
    ensures Inv(s.Step(SetSlot(e)), disk0, edits.Add(e, s.hydrated))
  {
    PatchOfOne(edits.before, e);
    ReplayOfOne(Hydrated(Contents(disk0), edits.before), edits.after, e);
  }

  lemma HydrateStep(s: State, disk0: Option<Slots>, edits: Edits, file: Option<Slots>)
    requires Inv(s, disk0, edits) && s.Enabled(ReadDone(file))
    ensures Inv(s.Step(ReadDone(file)), disk0, edits)
  {
    if file.Some? {
      MergeIsHydration(file.value, s.slots, s.tombstones, edits.before);
    } else {
      EmptyDiskHydration(s.slots, s.tombstones, edits.before);
    }
    if s.deferred == 0 { NoEditsHydration(Contents(file), edits.before); }
  }

  lemma {:induction false} RunKeepsInv(s: State, disk0: Option<Slots>, edits: Edits, events: seq<Event>)
    requires Inv(s, disk0, edits) && Legal(s, events)
    ensures Inv(Run(s, events), disk0, EditsOf(s, events, edits))
    decreases events
  {
    if events != [] {
      var ev := events[0];
      var edits' := if ev.SetSlot? then edits.Add(ev.edit, s.hydrated) else edits;
      match ev {
        case SetSlot(e) => EditStep(s, disk0, edits, e);
        case ReadDone(file) => HydrateStep(s, disk0, edits, file);
        case _ =>
      }
      RunKeepsInv(s.Step(ev), disk0, edits', events[1..]);
    }
  }

  /** In every interleaving, once nothing is pending the sidecar holds the slots in memory, which are
      the edits after hydration replayed over the hydrated state. */
  lemma QuiescentSidecarIsMemory(disk0: Option<Slots>, events: seq<Event>)
    requires Legal(Init(disk0), events) && Run(Init(disk0), events).Quiescent()
    ensures var s, edits := Run(Init(disk0), events), EditsOf(Init(disk0), events, Edits([], []));
      && Contents(s.disk) == s.slots
      && s.slots == Replay(Hydrated(Contents(disk0), edits.before), edits.after)
  {
    RunKeepsInv(Init(disk0), disk0, Edits([], []), events);
  }

  /** The edit clears the slot or brings its own image. */
  predicate CarriesImage(e: Edit) { e.val.Some? ==> e.val.value.u != "" }

  lemma {:induction false} PatchCarriesImages(edits: seq<Edit>)
    requires forall e <- edits :: CarriesImage(e)
    ensures forall id <- Patch(edits) :: Patch(edits)[id].Some? ==> Patch(edits)[id].value.u != ""
  {
    if edits != [] {
      PatchCarriesImages(edits[..|edits| - 1]);
      assert CarriesImage(edits[|edits| - 1]);
    }
  }

  lemma {:induction false} ReplayIsPatch(disk: Slots, edits: seq<Edit>)
    ensures forall id :: id in Replay(disk, edits) <==>
      if id in Patch(edits) then Patch(edits)[id].Some? else id in disk
    ensures forall id <- Replay(disk, edits) ::
      Replay(disk, edits)[id] == if id in Patch(edits) then Stored(Patch(edits)[id].value) else disk[id]
  {
    if edits != [] { ReplayIsPatch(disk, edits[..|edits| - 1]); }
  }

  /** Edits made before hydration end up as if hydration had come first. */
  lemma HydrationIsReplay(disk: Slots, edits: seq<Edit>)
    requires forall e <- edits :: CarriesImage(e)
    ensures Hydrated(disk, edits) == Replay(disk, edits)
  {
    PatchCarriesImages(edits);
    ReplayIsPatch(disk, edits);
    var h, r := Hydrated(disk, edits), Replay(disk, edits);
    assert forall id :: id in h <==> id in r;
    assert forall id <- h :: h[id] == r[id];
  }

  lemma {:induction false} ReplayConcat(slots: Slots, a: seq<Edit>, b: seq<Edit>)
    ensures Replay(slots, a + b) == Replay(Replay(slots, a), b)
  {
    if b == [] { assert a + b == a; }
    else {
      assert (a + b)[..|a + b| - 1] == a + b[..|b| - 1];
      ReplayConcat(slots, a, b[..|b| - 1]);
    }
  }

  /** When the edits before hydration carry images, the sidecar ends as the original file with all
      edits replayed in order. */
  lemma QuiescentSidecarIsReplay(disk0: Option<Slots>, events: seq<Event>)
    requires Legal(Init(disk0), events) && Run(Init(disk0), events).Quiescent()
    requires forall e <- EditsOf(Init(disk0), events, Edits([], [])).before :: CarriesImage(e)
    ensures var edits := EditsOf(Init(disk0), events, Edits([], []));
      Contents(Run(Init(disk0), events).disk) == Replay(Contents(disk0), edits.before + edits.after)
  {
    var edits := EditsOf(Init(disk0), events, Edits([], []));
    QuiescentSidecarIsMemory(disk0, events);
    HydrationIsReplay(Contents(disk0), edits.before);
    ReplayConcat(Contents(disk0), edits.before, edits.after);
  }

  lemma {:induction false} PatchConcat(a: seq<Edit>, b: seq<Edit>)
    ensures Patch(a + b) == Patch(a) + Patch(b)
  {
    if b == [] { assert a + b == a; }
    else {
      assert (a + b)[..|a + b| - 1] == a + b[..|b| - 1];
      PatchConcat(a, b[..|b| - 1]);
    }
  }

  /** Whatever the edits carry: an id cleared last is gone from the sidecar, one edited last has that
      framing, and one never edited is as it was. */
  lemma EachSlotSurvives(disk0: Option<Slots>, events: seq<Event>, id: string)
    requires Legal(Init(disk0), events) && Run(Init(disk0), events).Quiescent()
    ensures var edits := EditsOf(Init(disk0), events, Edits([], []));
      var p, end := Patch(edits.before + edits.after), Contents(Run(Init(disk0), events).disk);
      && (id !in p ==> Lookup(end, id) == Lookup(Contents(disk0), id))
      && (id in p && p[id].None? ==> id !in end)
      && (id in p && p[id].Some? ==>
            id in end && end[id].Stored? && end[id].entry.(u := "") == p[id].value.(u := "")
            && (p[id].value.u != "" ==> end[id].entry.u == p[id].value.u))
  {
    var edits := EditsOf(Init(disk0), events, Edits([], []));
    QuiescentSidecarIsMemory(disk0, events);
    ReplayIsPatch(Hydrated(Contents(disk0), edits.before), edits.after);
    PatchConcat(edits.before, edits.after);
  }

  /** What is still to be done: the read, the deferred saves, and the writes. */
  function Pending(s: State): nat {
    (if s.hydrated then 0 else 1) + (if s.loaded then 0 else 1)
    + 3 * s.deferred + (if s.saveDirty then 2 else 0) + (if s.saving then 1 else 0)
  }

  /** Without further edits every callback brings the store closer to rest, and until it rests one
      of them can run. */
  lemma StoreSettles(s: State, ev: Event)
    ensures s.Enabled(ev) && !ev.SetSlot? && !ev.StartLoad? ==> Pending(s.Step(ev)) < Pending(s)
    ensures s.loading && !s.Quiescent() ==>
      s.Enabled(ReadDone(s.disk)) || s.Enabled(FinishLoad) || s.Enabled(DeferredSave) || s.Enabled(WriteDone)
  {}
}
