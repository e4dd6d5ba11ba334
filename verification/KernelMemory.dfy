/** Frames and page tables together, over whole runs: who owns which frame, and what every page
    translates to. */
module KernelMemory {
  import opened Machine
  import opened PageTables
  import Frames

  /** handed is the set of frames given to callers of frames::alloc and not freed since. */
  datatype State = State(phys: seq<u32>, owned: set<nat>, handed: set<nat>)

  datatype Event =
    | Alloc
    | Free(frame: nat)
    | Map(paddr: u32, vaddr: u32)
    | Unmap(vaddr: u32)
    | Write(frame: nat, index: nat, value: u32)

  ghost predicate SomeFree(owned: set<nat>) {
    exists f :: Frames.IsFree(owned, f)
  }

  lemma LowestExists(owned: set<nat>, f: nat)
    requires Frames.IsFree(owned, f)
    ensures exists g :: Frames.IsLowestFree(owned, g)
  {
    if !Frames.IsLowestFree(owned, f) {
      var g: nat :| g < f && g !in owned;
      LowestExists(owned, g);
    }
  }

  /** The frame frames::alloc returns next. */
  ghost function Lowest(owned: set<nat>): (f: nat)
    requires SomeFree(owned)
    ensures Frames.IsLowestFree(owned, f)
  {
    var g :| Frames.IsFree(owned, g);
    LowestExists(owned, g);
    var f :| Frames.IsLowestFree(owned, f);
    f
  }

  /** Slots that refer to one table: the boot code makes 0 and 768 share theirs. */
  predicate SameTable(i: nat, j: nat) {
    i == j || (i == 0 && j == 768) || (i == 768 && j == 0)
  }

  /** The ownership discipline; everything below limit belongs to the kernel image. */
  ghost predicate Safe(s: State, dir: nat, limit: nat) {
    && Physical(s.phys) && dir < PAGES && dir * 4096 < limit
    && (forall f :: f in s.owned ==> f < Frames.FRAMES)
    && (forall f: nat :: f * 4096 < limit ==> f in s.owned)
    && (forall f :: f in s.handed ==> f in s.owned && limit <= f * 4096)
    && (forall i :: 0 <= i < 1024 && HasTable(s.phys, dir, i) ==>
          TableOf(s.phys, dir, i) in s.owned && TableOf(s.phys, dir, i) !in s.handed && TableOf(s.phys, dir, i) != dir)
    && (forall i, j :: 0 <= i < 1024 && 0 <= j < 1024 && HasTable(s.phys, dir, i) && HasTable(s.phys, dir, j) ==>
          (TableOf(s.phys, dir, i) == TableOf(s.phys, dir, j) <==> SameTable(i, j)))
    && (HasTable(s.phys, dir, 0) && HasTable(s.phys, dir, 768))
    && (forall f :: Frames.IsFree(s.owned, f) ==> Zeroed(s.phys, f))
  }

  /** What callers owe: only handed-out frames are freed (cleared first) or written, and a frame is
      left when map_page needs a table, whose allocation it does not check. */
  ghost predicate Enabled(s: State, e: Event, dir: nat)
    requires Physical(s.phys) && dir < PAGES
  {
    match e
    case Alloc => true
    case Free(f) => f in s.handed && f < PAGES && Zeroed(s.phys, f)
    case Map(_, v) => HasTable(s.phys, dir, PdIndex(v)) || SomeFree(s.owned)
    case Unmap(_) => true
    case Write(f, i, _) => f in s.handed && f < PAGES && i < 1024
  }

  ghost function Spare(s: State): nat {
    if SomeFree(s.owned) then Lowest(s.owned) else 0
  }

  ghost function Next(s: State, e: Event, dir: nat): State
    requires Physical(s.phys) && dir < PAGES && Enabled(s, e, dir)
  {
    match e
    case Alloc =>
      if SomeFree(s.owned) then State(s.phys, s.owned + {Lowest(s.owned)}, s.handed + {Lowest(s.owned)}) else s
    case Free(f) => State(s.phys, s.owned - {f}, s.handed - {f})
    case Map(p, v) =>
      State(MapPage(s.phys, dir, Spare(s), p, v),
            if HasTable(s.phys, dir, PdIndex(v)) then s.owned else s.owned + {Lowest(s.owned)},
            s.handed)
    case Unmap(v) => State(UnmapPage(s.phys, dir, v), s.owned, s.handed)
    case Write(f, i, w) => State(s.phys[f * 1024 + i := w], s.owned, s.handed)
  }

  // ----- what one event does to translation -----

  /** The event concerns page p's table cell. */
  predicate Hits(e: Event, p: nat) {
    (e.Map? || e.Unmap?) && PtIndex(e.vaddr) == p % 1024 && SameTable(PdIndex(e.vaddr), p / 1024)
  }

  function Effect(e: Event, before: Option<nat>, p: nat): Option<nat> {
    if !Hits(e, p) then before else if e.Map? then Some(e.paddr / 4096) else None
  }

  lemma MapReady(s: State, dir: nat, limit: nat, p: u32, v: u32)
    requires Safe(s, dir, limit) && Enabled(s, Map(p, v), dir)
    ensures Ready(s.phys, dir, Spare(s), v) && Clean(s.phys, dir, Spare(s), v)
  {
    assert !Present(0);
    if !HasTable(s.phys, dir, PdIndex(v)) {
      assert Zeroed(s.phys, Spare(s));
      hide Safe, Present, PtIndex;
      forall k | 0 <= k < 1024 ensures Leftover(s.phys, Spare(s), k) == None {
        assert Cell(s.phys, Spare(s), k) == 0;
      }
    }
  }

  /** Sharing a table is exactly being the same slot or the boot pair, whenever one slot is present. */
  lemma SharesIsSameTable(s: State, dir: nat, limit: nat, i: nat, j: nat)
    requires Safe(s, dir, limit) && i < 1024 && j < 1024
    ensures Shares(s.phys, dir, i, j) <==> SameTable(i, j)
  {
  }

  lemma WriteTranslates(s: State, dir: nat, limit: nat, f: nat, i: nat, w: u32, p: nat)
    requires Safe(s, dir, limit) && f in s.handed && f < PAGES && i < 1024 && p < PAGES
    ensures Lookup(s.phys[f * 1024 + i := w], dir, p) == Lookup(s.phys, dir, p)
  {
    hide FrameOf, Present;
    assert f != dir;
    assert HasTable(s.phys, dir, p / 1024) ==> TableOf(s.phys, dir, p / 1024) != f;
  }

  lemma StepTranslates(s: State, e: Event, dir: nat, limit: nat, p: nat)
    requires Safe(s, dir, limit) && Enabled(s, e, dir) && p < PAGES
    ensures Physical(Next(s, e, dir).phys)
    ensures Lookup(Next(s, e, dir).phys, dir, p) == Effect(e, Lookup(s.phys, dir, p), p)
  {
    hide MapPage, UnmapPage, PtIndex, FrameOf, Present;
    match e
    case Alloc =>
    case Free(_) =>
    case Map(paddr, v) =>
      MapReady(s, dir, limit, paddr, v);
      MapTranslates(s.phys, dir, Spare(s), paddr, v, p);
      SharesIsSameTable(s, dir, limit, p / 1024, PdIndex(v));
    case Unmap(v) =>
      UnmapSlots(s.phys, dir, v, 0);
      UnmapTranslates(s.phys, dir, v, p);
      SharesIsSameTable(s, dir, limit, p / 1024, PdIndex(v));
    case Write(f, i, w) =>
      WriteTranslates(s, dir, limit, f, i, w, p);
  }

  // ----- every event keeps the discipline -----

  lemma MapZeroed(s: State, p: u32, v: u32, dir: nat, limit: nat, f: nat)
    requires Safe(s, dir, limit) && Enabled(s, Map(p, v), dir) && Frames.IsFree(Next(s, Map(p, v), dir).owned, f)
    ensures Physical(Next(s, Map(p, v), dir).phys) && Zeroed(Next(s, Map(p, v), dir).phys, f)
  {
    hide MapPage, PdIndex, PtIndex, HasTable, TableOf;
    MapReady(s, dir, limit, p, v);
    var t := Next(s, Map(p, v), dir);
    MapSlots(s.phys, dir, Spare(s), p, v, 0);
    forall k | 0 <= k < 1024 ensures Cell(t.phys, f, k) == 0 {
      MapCells(s.phys, dir, Spare(s), p, v, f, k);
      assert Zeroed(s.phys, f);
    }
  }

  lemma MapSafe(s: State, p: u32, v: u32, dir: nat, limit: nat)
    requires Safe(s, dir, limit) && Enabled(s, Map(p, v), dir)
    ensures Safe(Next(s, Map(p, v), dir), dir, limit)
  {
    hide MapPage, PdIndex, PtIndex, Zeroed;
    MapReady(s, dir, limit, p, v);
    var t := Next(s, Map(p, v), dir);
    MapSlots(s.phys, dir, Spare(s), p, v, 0);
    forall j | 0 <= j < 1024
      ensures if j == PdIndex(v) && !HasTable(s.phys, dir, j)
              then HasTable(t.phys, dir, j) && TableOf(t.phys, dir, j) == Spare(s)
              else
                && HasTable(t.phys, dir, j) == HasTable(s.phys, dir, j)
                && TableOf(t.phys, dir, j) == TableOf(s.phys, dir, j)
    {
      MapSlots(s.phys, dir, Spare(s), p, v, j);
    }
    hide HasTable, TableOf;
    forall f | Frames.IsFree(t.owned, f) ensures Zeroed(t.phys, f) {
      MapZeroed(s, p, v, dir, limit, f);
    }
  }

  lemma AllocSafe(s: State, dir: nat, limit: nat)
    requires Safe(s, dir, limit)
    ensures Safe(Next(s, Alloc, dir), dir, limit)
  {
    hide Zeroed, HasTable, TableOf;
  }

  lemma FreeSafe(s: State, f: nat, dir: nat, limit: nat)
    requires Safe(s, dir, limit) && Enabled(s, Free(f), dir)
    ensures Safe(Next(s, Free(f), dir), dir, limit)
  {
    hide Zeroed, HasTable, TableOf;
  }

  lemma UnmapSafe(s: State, v: u32, dir: nat, limit: nat)
    requires Safe(s, dir, limit)
    ensures Safe(Next(s, Unmap(v), dir), dir, limit)
  {
    var t := Next(s, Unmap(v), dir);
    UnmapSlots(s.phys, dir, v, 0);
    forall j | 0 <= j < 1024
      ensures HasTable(t.phys, dir, j) == HasTable(s.phys, dir, j) && TableOf(t.phys, dir, j) == TableOf(s.phys, dir, j)
    {
      UnmapSlots(s.phys, dir, v, j);
    }
    forall f | Frames.IsFree(t.owned, f) ensures Zeroed(t.phys, f) {
      assert Zeroed(s.phys, f);
      forall k | 0 <= k < 1024 ensures Cell(t.phys, f, k) == 0 {
        assert Cell(s.phys, f, k) == 0;
      }
    }
  }

  lemma WriteSafe(s: State, f: nat, i: nat, w: u32, dir: nat, limit: nat)
    requires Safe(s, dir, limit) && Enabled(s, Write(f, i, w), dir)
    ensures Safe(Next(s, Write(f, i, w), dir), dir, limit)
  {
    var t := Next(s, Write(f, i, w), dir);
    assert f != dir;
    forall j | 0 <= j < 1024
      ensures HasTable(t.phys, dir, j) == HasTable(s.phys, dir, j) && TableOf(t.phys, dir, j) == TableOf(s.phys, dir, j)
    {
      assert Slot(t.phys, dir, j) == Slot(s.phys, dir, j);
    }
    forall g | Frames.IsFree(t.owned, g) ensures Zeroed(t.phys, g) {
      assert Zeroed(s.phys, g);
      forall k | 0 <= k < 1024 ensures Cell(t.phys, g, k) == 0 {
        assert Cell(s.phys, g, k) == 0;
      }
    }
  }

  lemma StepSafe(s: State, e: Event, dir: nat, limit: nat)
    requires Safe(s, dir, limit) && Enabled(s, e, dir)
    ensures Safe(Next(s, e, dir), dir, limit)
  {
    match e
    case Alloc => AllocSafe(s, dir, limit);
    case Free(f) => FreeSafe(s, f, dir, limit);
    case Map(p, v) => MapSafe(s, p, v, dir, limit);
    case Unmap(v) => UnmapSafe(s, v, dir, limit);
    case Write(f, i, w) => WriteSafe(s, f, i, w, dir, limit);
  }

  /** A frame just handed out belongs to nobody else: it is no table, not the kernel's, and not
      among the frames other callers hold. */
  lemma AllocIsExclusive(s: State, dir: nat, limit: nat)
    requires Safe(s, dir, limit) && SomeFree(s.owned)
    ensures Lowest(s.owned) !in s.handed && limit <= Lowest(s.owned) * 4096
    ensures forall i :: 0 <= i < 1024 && HasTable(s.phys, dir, i) ==> TableOf(s.phys, dir, i) != Lowest(s.owned)
    ensures Zeroed(s.phys, Lowest(s.owned))
  {
  }

  // ----- whole runs -----

  ghost predicate ValidRun(s: State, es: seq<Event>, dir: nat)
    decreases |es|
  {
    Physical(s.phys) && dir < PAGES &&
    (es == [] || (Enabled(s, es[0], dir) && ValidRun(Next(s, es[0], dir), es[1..], dir)))
  }

  ghost function Run(s: State, es: seq<Event>, dir: nat): State
    requires ValidRun(s, es, dir)
    decreases |es|
  {
    if es == [] then s else Run(Next(s, es[0], dir), es[1..], dir)
  }

  /** What a run leaves page p translating to, told from the events alone. */
  function Outcome(es: seq<Event>, before: Option<nat>, p: nat): Option<nat>
    decreases |es|
  {
    if es == [] then before else Outcome(es[1..], Effect(es[0], before, p), p)
  }

  lemma {:induction false} RunSafe(s: State, es: seq<Event>, dir: nat, limit: nat)
    requires Safe(s, dir, limit) && ValidRun(s, es, dir)
    ensures Safe(Run(s, es, dir), dir, limit)
    decreases |es|
  {
    hide Safe, Enabled, Next;
    if es != [] {
      StepSafe(s, es[0], dir, limit);
      RunSafe(Next(s, es[0], dir), es[1..], dir, limit);
    }
  }

  /** The page tables refine a map from pages to frames: over any run, translation is decided by the
      map and unmap events that hit the page, and by nothing else. */
  lemma {:induction false} RunTranslates(s: State, es: seq<Event>, dir: nat, limit: nat, p: nat)
    requires Safe(s, dir, limit) && ValidRun(s, es, dir) && p < PAGES
    ensures Physical(s.phys) && Physical(Run(s, es, dir).phys)
    ensures Lookup(Run(s, es, dir).phys, dir, p) == Outcome(es, Lookup(s.phys, dir, p), p)
    decreases |es|
  {
    hide Safe, Enabled, Next, Lookup, Effect;
    if es != [] {
      StepSafe(s, es[0], dir, limit);
      StepTranslates(s, es[0], dir, limit, p);
      RunTranslates(Next(s, es[0], dir), es[1..], dir, limit, p);
    }
  }
}
