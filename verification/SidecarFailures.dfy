/** What the sidecar holds when reads and writes may fail (design/claude-design/image-slot.js). */
module SidecarFailures {
  import opened Text
  import opened Sidecar

  // ------------------------------------------------------------------ runs with failures

  /** Each callback of the run can happen when it does; reads and writes may fail. */
  ghost predicate Possible(s: State, events: seq<Event>)
    decreases events
  {
    events == [] || (s.Enabled(events[0]) && Possible(s.Step(events[0]), events[1..]))
  }

  /** What is known of a run: how its read and its last write came out, and its edits before and after the read. */
  datatype Course = Course(read: Option<bool>, wrote: Option<bool>, edits: Edits)
  {
    function Add(ev: Event): Course {
      match ev
      case ReadDone(_) => this.(read := Some(true))
      case ReadFailed => this.(read := Some(false))
      case WriteDone => this.(wrote := Some(true))
      case WriteFailed => this.(wrote := Some(false))
      case SetSlot(e) => this.(edits := edits.Add(e, read.Some?))
      case _ => this
    }
  }

  function CourseOf(events: seq<Event>): Course {
    if events == [] then Course(None, None, Edits([], []))
    else CourseOf(events[..|events| - 1]).Add(events[|events| - 1])
  }

  /** What the read found: the file, or nothing when it failed. */
  function Found(disk0: Option<Slots>, c: Course): Slots { if c.read == Some(true) then Contents(disk0) else map[] }

  /** What the slots are after the read: the edits before it on what it found, and then the edits since. */
  function Memory(disk0: Option<Slots>, c: Course): Slots { Replay(Hydrated(Found(disk0, c), c.edits.before), c.edits.after) }

  ghost predicate Phases(s: State, disk0: Option<Slots>, c: Course) {
    && (s.hydrated <==> c.read.Some?) && (s.loaded ==> s.hydrated) && (s.saveDirty ==> s.saving)
    && (!s.loaded ==> !s.saving && s.disk == disk0 && c.wrote == None)
  }

  ghost predicate Holds(s: State, disk0: Option<Slots>, c: Course) {
    && (!s.hydrated ==> PatchHolds(s.slots, s.tombstones, Patch(c.edits.before)) && c.edits.after == [])
    && (s.hydrated ==> s.slots == Memory(disk0, c))
  }

  /** Every difference between the slots and the last write that came out is under way, dirty or deferred. */
  ghost predicate Chases(s: State, c: Course) {
    && (s.deferred == 0 && !s.saving && c.wrote == Some(true) ==> Contents(s.disk) == s.slots)
    && (s.deferred == 0 && s.saving && !s.saveDirty ==> s.inFlight == s.slots)
  }

  ghost predicate Kept(s: State, disk0: Option<Slots>, c: Course) {
    Phases(s, disk0, c) && Holds(s, disk0, c) && Chases(s, c)
  }

  /** One more edit before the read. */
  lemma PatchGrows(slots: Slots, tombstones: set<string>, p: map<string, Option<Entry>>, e: Edit)
    requires PatchHolds(slots, tombstones, p) && e.id != ""
    ensures PatchHolds(ApplyEdit(slots, e), if e.val.Some? then tombstones - {e.id} else tombstones + {e.id}, p[e.id := e.val])
  {}

  lemma EditBefore(s: State, c: Course, e: Edit)
    requires !s.loaded && PatchHolds(s.slots, s.tombstones, Patch(c.edits.before))
    ensures var t := s.Step(SetSlot(e)); PatchHolds(t.slots, t.tombstones, Patch(c.edits.before + [e]))
  {
    PatchOfOne(c.edits.before, e);
    if e.id != "" { PatchGrows(s.slots, s.tombstones, Patch(c.edits.before), e); }
  }

  lemma EditAfter(s: State, e: Edit)
    ensures s.Step(SetSlot(e)).slots == ApplyEdit(s.slots, e) && s.Step(SetSlot(e)).hydrated == s.hydrated
  {}

  lemma SetHolds(s: State, disk0: Option<Slots>, c: Course, e: Edit)
    requires Holds(s, disk0, c) && (s.hydrated <==> c.read.Some?) && (s.loaded ==> s.hydrated)
    ensures Holds(s.Step(SetSlot(e)), disk0, c.Add(SetSlot(e)))
  {
    EditAfter(s, e);
    if s.hydrated {
      ReplayOfOne(Hydrated(Found(disk0, c), c.edits.before), c.edits.after, e);
    } else {
      EditBefore(s, c, e);
    }
  }

  lemma SetChases(s: State, c: Course, e: Edit)
    requires Chases(s, c) && (s.saveDirty ==> s.saving)
    ensures Chases(s.Step(SetSlot(e)), c.Add(SetSlot(e)))
  {}

  lemma SetPhases(s: State, disk0: Option<Slots>, c: Course, e: Edit)
    requires Phases(s, disk0, c)
    ensures Phases(s.Step(SetSlot(e)), disk0, c.Add(SetSlot(e)))
  {}

  lemma SetKeeps(s: State, disk0: Option<Slots>, c: Course, e: Edit)
    requires Kept(s, disk0, c)
    ensures Kept(s.Step(SetSlot(e)), disk0, c.Add(SetSlot(e)))
  {
    SetPhases(s, disk0, c, e);
    SetHolds(s, disk0, c, e);
    SetChases(s, c, e);
  }

  lemma ReadKeeps(s: State, disk0: Option<Slots>, c: Course, ev: Event)
    requires Kept(s, disk0, c) && s.Enabled(ev) && (ev.ReadDone? || ev.ReadFailed?)
    ensures Kept(s.Step(ev), disk0, c.Add(ev))
  {
    if ev.ReadDone? && ev.file.Some? {
      MergeIsHydration(ev.file.value, s.slots, s.tombstones, c.edits.before);
    } else {
      EmptyDiskHydration(s.slots, s.tombstones, c.edits.before);
    }
  }

  lemma StepKeeps(s: State, disk0: Option<Slots>, c: Course, ev: Event)
    requires Kept(s, disk0, c) && s.Enabled(ev)
    ensures Kept(s.Step(ev), disk0, c.Add(ev))
  {
    match ev
    case SetSlot(e) => SetKeeps(s, disk0, c, e);
    case ReadDone(_) => ReadKeeps(s, disk0, c, ev);
    case ReadFailed => ReadKeeps(s, disk0, c, ev);
    case _ =>
  }

  lemma {:induction false} RunSplit(s: State, events: seq<Event>)
    requires events != [] && Possible(s, events)
    ensures var init, last := events[..|events| - 1], events[|events| - 1];
      Possible(s, init) && Run(s, init).Enabled(last) && Run(s, events) == Run(s, init).Step(last)
    decreases events
  {
    var init := events[..|events| - 1];
    if |events| > 1 {
      RunSplit(s.Step(events[0]), events[1..]);
      assert events[1..][..|events[1..]| - 1] == init[1..] && init[0] == events[0];
    } else {
      assert events[1..] == [] && init == [];
    }
  }

  lemma {:induction false} RunKeeps(disk0: Option<Slots>, events: seq<Event>)
    requires Possible(Init(disk0), events)
    ensures Kept(Run(Init(disk0), events), disk0, CourseOf(events))
    decreases |events|
  {
    if events != [] {
      var init := events[..|events| - 1];
      RunSplit(Init(disk0), events);
      RunKeeps(disk0, init);
      StepKeeps(Run(Init(disk0), init), disk0, CourseOf(init), events[|events| - 1]);
    }
  }

  /**
   * In every interleaving, failures included: at rest after a write that came out the sidecar is the slots in memory. They
   * are the edits on what the read found, which is nothing when it failed.
   */
  lemma LastWriteWins(disk0: Option<Slots>, events: seq<Event>)
    requires Possible(Init(disk0), events) && Run(Init(disk0), events).Quiescent()
    ensures var s, c := Run(Init(disk0), events), CourseOf(events);
      && s.slots == Memory(disk0, c)
      && (c.wrote == Some(true) ==> Contents(s.disk) == s.slots)
  {
    RunKeeps(disk0, events);
  }

  /** A failed write leaves the sidecar as it was, and a save requested meanwhile is made all the same. */
  lemma FailedWriteKeepsDisk(s: State)
    requires s.Enabled(WriteFailed)
    ensures s.Step(WriteFailed).disk == s.disk && s.Step(WriteFailed).slots == s.slots
    ensures s.saveDirty ==> s.Step(WriteFailed).saving && s.Step(WriteFailed).inFlight == s.slots
    ensures !s.saveDirty ==> !s.Step(WriteFailed).saving
  {}
}
