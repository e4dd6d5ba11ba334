/** map_page, unmap_page and the lookups on real page tables; the boot tables; the framebuffer window. */
module Paging {
  import opened Machine
  import opened PageTables
  import opened KernelMemory
  import Frames

  /** The frames nobody owns. */
  ghost function FreeFrames(owned: set<nat>): set<nat> {
    set f: nat | f < Frames.FRAMES && f !in owned
  }

  lemma LowestIsUnique(owned: set<nat>, f: nat)
    requires SomeFree(owned) && Frames.IsLowestFree(owned, f)
    ensures f == Lowest(owned)
  {
    var g := Lowest(owned);
    assert f < g ==> f in owned;
    assert g < f ==> g in owned;
  }

  lemma TakingOneFrame(owned: set<nat>, f: nat)
    requires Frames.IsFree(owned, f)
    ensures |FreeFrames(owned + {f})| == |FreeFrames(owned)| - 1
  {
    assert FreeFrames(owned) == FreeFrames(owned + {f}) + {f};
  }

  /** How many pages the loop of video::init maps; the last one may lie past the framebuffer. */
  function WindowPages(h: nat, bpp: nat, pitch: nat): nat {
    pitch * h * (bpp / 8) / 4096 + 1
  }

  /** They are just enough to reach every byte of the framebuffer, and the one behind the last. */
  lemma WindowCovers(h: nat, bpp: nat, pitch: nat)
    ensures var n := WindowPages(h, bpp, pitch); (n - 1) * 4096 <= pitch * h * (bpp / 8) < n * 4096
  {
    var x := pitch * h * (bpp / 8);
    assert x == x / 4096 * 4096 + x % 4096;
  }

  /** Page p after mapping the first n pages of the window. */
  function InWindow(before: Option<nat>, fb: nat, n: nat, p: nat): Option<nat> {
    if 0xE_0000 <= p < 0xE_0000 + n then Some(fb / 4096 + (p - 0xE_0000)) else before
  }

  /** Progress of the loop: what is mapped, and how many free frames the tables have used. */
  ghost predicate WindowState(s0: State, s: State, dir: nat, fb: nat, i: nat)
    requires Physical(s0.phys) && Physical(s.phys) && dir < PAGES
  {
    && i <= 0x2_0000
    && (forall p: nat :: p < PAGES ==> Lookup(s.phys, dir, p) == InWindow(Lookup(s0.phys, dir, p), fb, i, p))
    && (i > 0 ==> HasTable(s.phys, dir, 896 + (i - 1) / 1024))
    && |FreeFrames(s.owned)| + (i + 1023) / 1024 >= |FreeFrames(s0.owned)|
  }

  /** map_page of window page i finds a table, or a frame to make one. */
  lemma WindowEnabled(s0: State, s: State, dir: nat, fb: nat, i: nat, n: nat, v: u32)
    requires Physical(s0.phys) && Physical(s.phys) && dir < PAGES
    requires WindowState(s0, s, dir, fb, i) && i < n <= 0x2_0000 && v == 0xE000_0000 + i * 4096
    requires (n + 1023) / 1024 <= |FreeFrames(s0.owned)|
    ensures PdIndex(v) == 896 + i / 1024 && PtIndex(v) == i % 1024 && PageOf(v) == 0xE_0000 + i
    ensures HasTable(s.phys, dir, PdIndex(v)) || SomeFree(s.owned)
    ensures !HasTable(s.phys, dir, PdIndex(v)) ==> i % 1024 == 0
  {
    hide Lookup, HasTable;
    IndexOfPage(v);
    if i % 1024 != 0 {
      assert (i - 1) / 1024 == i / 1024;
    } else {
      assert (n + 1023) / 1024 >= (i + 1024) / 1024 == (i + 1023) / 1024 + 1;
      assert FreeFrames(s.owned) != {};
      var f :| f in FreeFrames(s.owned);
      assert Frames.IsFree(s.owned, f);
    }
  }

  /** A page other than v's is not hit by a mapping in the window: slots from 896 up share with nobody. */
  lemma WindowHits(v: u32, fb: u32, p: nat)
    requires v >= 0xE000_0000 && p < PAGES
    ensures Hits(Map(fb, v), p) <==> p == PageOf(v)
  {
    IndexOfPage(v);
  }

  lemma MappedHasTable(s: State, dir: nat, limit: nat, paddr: u32, v: u32)
    requires Safe(s, dir, limit) && Enabled(s, Map(paddr, v), dir)
    ensures var t := Next(s, Map(paddr, v), dir); Physical(t.phys) && HasTable(t.phys, dir, PdIndex(v))
  {
    hide MapPage, PdIndex;
    MapReady(s, dir, limit, paddr, v);
    MapSlots(s.phys, dir, Spare(s), paddr, v, PdIndex(v));
  }

  lemma SafeShape(s: State, dir: nat, limit: nat)
    requires Safe(s, dir, limit)
    ensures Physical(s.phys) && dir < PAGES
  {
  }

  lemma WindowStep(s0: State, s: State, dir: nat, limit: nat, fb: u32, i: nat, n: nat)
    requires Physical(s0.phys) && Safe(s, dir, limit) && fb % 4096 == 0
    requires WindowState(s0, s, dir, fb, i) && i < n <= 0x2_0000 && fb + n * 4096 <= 0x1_0000_0000
    requires (n + 1023) / 1024 <= |FreeFrames(s0.owned)|
    ensures var e := Map(fb + i * 4096, 0xE000_0000 + i * 4096);
      && Enabled(s, e, dir)
      && Physical(Next(s, e, dir).phys)
      && WindowState(s0, Next(s, e, dir), dir, fb, i + 1)
  {
    hide Lookup, MapPage, PdIndex, PtIndex, PageOf, Hits, Safe, HasTable;
    var v := 0xE000_0000 + i * 4096;
    var e := Map(fb + i * 4096, v);
    SafeShape(s, dir, limit);
    WindowEnabled(s0, s, dir, fb, i, n, v);
    MappedHasTable(s, dir, limit, fb + i * 4096, v);
    var t := Next(s, e, dir);
    assert (i + 1 - 1) / 1024 == i / 1024;
    if !HasTable(s.phys, dir, PdIndex(v)) {
      TakingOneFrame(s.owned, Lowest(s.owned));
    }
    forall p: nat | p < PAGES
      ensures Lookup(t.phys, dir, p) == InWindow(Lookup(s0.phys, dir, p), fb, i + 1, p)
    {
      StepTranslates(s, e, dir, limit, p);
      WindowHits(v, fb + i * 4096, p);
    }
  }

  /** After the loop every byte of the framebuffer is reached through the window. */
  lemma FramebufferReached(m0: seq<u32>, m: seq<u32>, dir: nat, fb: u32, h: u32, bpp: u32, pitch: u32, off: nat)
    requires Physical(m0) && Physical(m) && dir < PAGES && fb % 4096 == 0
    requires var n := WindowPages(h, bpp, pitch); n <= 0x2_0000 && fb + n * 4096 <= 0x1_0000_0000
    requires forall p: nat :: p < PAGES ==>
      Lookup(m, dir, p) == InWindow(Lookup(m0, dir, p), fb, WindowPages(h, bpp, pitch), p)
    requires off < pitch * h * (bpp / 8)
    ensures 0xE000_0000 + off < 0x1_0000_0000 && Translate(m, dir, 0xE000_0000 + off) == fb + off
  {
    hide Lookup;
    var n := WindowPages(h, bpp, pitch);
    assert off / 4096 < n;
    assert PageOf(0xE000_0000 + off) == 0xE_0000 + off / 4096;
    assert (0xE000_0000 + off) % 4096 == off % 4096;
  }

  class KernelPaging {
    const phys: array<u32>
    const frames: Frames.FrameAllocator
    /** The frame of current_page_dir. */
    var dir: nat
    /** The kernel image and its reserve end at this physical address. */
    ghost const limit: nat
    ghost var handed: set<nat>

    ghost function Abs(): State
      requires frames.Valid()
      reads this, phys, frames.bitmap
    {
      State(phys[..], frames.Owned(), handed)
    }

    ghost predicate Valid()
      reads this, phys, frames.bitmap
    {
      frames.Valid() && Safe(Abs(), dir, limit)
    }

    constructor (memory: array<u32>, allocator: Frames.FrameAllocator, directory: nat, ghost end: nat)
      requires allocator.Valid() && Safe(State(memory[..], allocator.Owned(), {}), directory, end)
      ensures Valid() && phys == memory && frames == allocator && dir == directory && limit == end && handed == {}
    {
      phys, frames, dir, limit, handed := memory, allocator, directory, end, {};
    }

    /** frames::alloc for a caller that is no page table: the frame is the caller's from now on. */
    method AllocFrame() returns (p: u32)
      requires Valid()
      modifies frames.bitmap, `handed
      ensures Valid() && Abs() == Next(old(Abs()), Alloc, dir)
      ensures p == if SomeFree(old(frames.Owned())) then Lowest(old(frames.Owned())) * 4096 else 0xffff_ffff
    {
      hide Safe, Frames.OwnedIn, Lowest;
      ghost var s := Abs();
      SafeShape(s, dir, limit);
      StepSafe(s, Alloc, dir, limit);
      p := frames.Alloc();
      if SomeFree(s.owned) {
        assert exists f :: Frames.IsFree(s.owned, f);
        LowestIsUnique(s.owned, p / 4096);
        handed := handed + {p / 4096};
      } else {
        assert !exists f :: Frames.IsFree(s.owned, f);
      }
    }

    method FreeFrame(p: u32)
      requires Valid() && Physical(phys[..]) && dir < PAGES && Enabled(Abs(), Free(p / 4096), dir)
      modifies frames.bitmap, `handed
      ensures Valid() && Abs() == Next(old(Abs()), Free(p / 4096), dir)
    {
      hide Frames.OwnedIn, Zeroed;
      StepSafe(Abs(), Free(p / 4096), dir, limit);
      frames.Free(p);
      handed := handed - {p / 4096};
    }

    /** The owner of a frame stores a dword in it, through the identity-mapped window. */
    method WriteWord(f: nat, i: nat, w: u32)
      requires Valid() && Physical(phys[..]) && dir < PAGES && Enabled(Abs(), Write(f, i, w), dir)
      modifies phys
      ensures Valid() && Abs() == Next(old(Abs()), Write(f, i, w), dir)
    {
      hide Frames.OwnedIn, Zeroed;
      StepSafe(Abs(), Write(f, i, w), dir, limit);
      phys[f * 1024 + i] := w;
    }

    /** The three bit-field assignments that fill a page table entry. */
    method FillEntry(k: nat, frame: nat)
      requires k < phys.Length && frame < PAGES
      modifies phys
      ensures phys[..] == old(phys[..])[k := Entry(old(phys[k]), frame)]
    {
      phys[k] := WithAddress(phys[k], frame);
      phys[k] := WithReadWrite(phys[k]);
      phys[k] := WithPresent(phys[k]);
    }

    method MapPage(paddr: u32, vaddr: u32) returns (r: u32)
      requires Valid() && Enabled(Abs(), Map(paddr, vaddr), dir)
      modifies phys, frames.bitmap
      ensures Valid() && r == vaddr
      ensures Abs() == Next(old(Abs()), Map(paddr, vaddr), dir)
    {
      hide Safe, Frames.OwnedIn, Entry, Lowest;
      ghost var s := Abs();
      SafeShape(s, dir, limit);
      StepSafe(s, Map(paddr, vaddr), dir, limit);
      var pd, pt := PdIndex(vaddr), PtIndex(vaddr);
      var table;
      if !Present(phys[dir * 1024 + pd]) {
        var frame := frames.Alloc();
        assert Frames.IsFree(s.owned, Lowest(s.owned));
        LowestIsUnique(s.owned, frame / 4096);
        FillEntry(dir * 1024 + pd, frame / 4096);
        table := frame / 4096;
      } else {
        table := FrameOf(phys[dir * 1024 + pd]);
      }
      FillEntry(table * 1024 + pt, paddr / 4096);
      r := vaddr;
    }

    method UnmapPage(vaddr: u32)
      requires Valid()
      modifies phys
      ensures Valid()
      ensures Abs() == Next(old(Abs()), Unmap(vaddr), dir)
    {
      StepSafe(Abs(), Unmap(vaddr), dir, limit);
      var slot := phys[dir * 1024 + PdIndex(vaddr)];
      if !Present(slot) {
        return;
      }
      phys[FrameOf(slot) * 1024 + PtIndex(vaddr)] := 0;
    }

    method PagePresent(vaddr: u32) returns (present: bool)
      requires Valid()
      ensures present <==> Lookup(phys[..], dir, PageOf(vaddr)).Some?
    {
      IndexOfPage(vaddr);
      var slot := phys[dir * 1024 + PdIndex(vaddr)];
      if !Present(slot) {
        return false;
      }
      return Present(phys[FrameOf(slot) * 1024 + PtIndex(vaddr)]);
    }

    method VaddrToPaddr(vaddr: u32) returns (paddr: u32)
      requires Valid()
      ensures paddr == Translate(phys[..], dir, vaddr)
    {
      IndexOfPage(vaddr);
      var slot := phys[dir * 1024 + PdIndex(vaddr)];
      if !Present(slot) {
        return 0;
      }
      var e := phys[FrameOf(slot) * 1024 + PtIndex(vaddr)];
      if !Present(e) {
        return 0;
      }
      paddr := FrameOf(e) * 4096 + vaddr % 4096;
    }

    /** The mapping loop of video::init: pages 0 to pitch * h * (bpp / 8) / 4096 of the window at
        0xE0000000 lead to the framebuffer, and no other page changes. One free frame is needed for
        each 4 MiB of window at most. */
    method MapFramebuffer(fb: u32, h: u32, bpp: u32, pitch: u32)
      requires Valid() && fb % 4096 == 0
      requires var n := WindowPages(h, bpp, pitch);
        && n <= 0x2_0000 && fb + n * 4096 <= 0x1_0000_0000
        && (n + 1023) / 1024 <= |FreeFrames(frames.Owned())|
      modifies phys, frames.bitmap
      ensures Valid()
      ensures forall p: nat :: p < PAGES ==>
        Lookup(phys[..], dir, p) == InWindow(old(Lookup(phys[..], dir, p)), fb, WindowPages(h, bpp, pitch), p)
    {
      hide Safe, Frames.OwnedIn, Next, Lookup, HasTable, Present, FreeFrames;
      ghost var s0 := Abs();
      SafeShape(s0, dir, limit);
      ghost var n := WindowPages(h, bpp, pitch);
      var pages := pitch * h * (bpp / 8) / 4096;
      var i := 0;
      while i <= pages
        invariant 0 <= i <= n
        invariant Valid() && Physical(phys[..])
        invariant WindowState(s0, Abs(), dir, fb, i)
      {
        ghost var s := Abs();
        WindowStep(s0, s, dir, limit, fb, i, n);
        var r := MapPage(fb + i * 4096, 0xE000_0000 + i * 4096);
        i := i + 1;
      }
    }
  }

  /** One event, performed on the real tables and the real bitmap. */
  method Perform(k: KernelPaging, e: Event)
    requires k.Valid() && Physical(k.phys[..]) && k.dir < PAGES && Enabled(k.Abs(), e, k.dir)
    modifies k.phys, k.frames.bitmap, k`handed
    ensures k.Valid() && Physical(k.phys[..])
    ensures k.Abs() == Next(old(k.Abs()), e, k.dir)
  {
    hide Safe, Frames.OwnedIn, Next, Zeroed;
    match e
    case Alloc =>
      var p := k.AllocFrame();
    case Free(f) =>
      assert f * 4096 / 4096 == f;
      k.FreeFrame(f * 4096);
    case Map(paddr, vaddr) =>
      var p := k.MapPage(paddr, vaddr);
    case Unmap(vaddr) =>
      k.UnmapPage(vaddr);
    case Write(f, i, w) =>
      k.WriteWord(f, i, w);
    SafeShape(k.Abs(), k.dir, k.limit);
  }

  /** Any valid run of events is what the kernel's own functions do. */
  method PerformAll(k: KernelPaging, events: seq<Event>)
    requires k.Valid() && ValidRun(k.Abs(), events, k.dir)
    modifies k.phys, k.frames.bitmap, k`handed
    ensures k.Valid()
    ensures k.Abs() == Run(old(k.Abs()), events, k.dir)
  {
    hide Safe, Frames.OwnedIn, Next, Enabled;
    SafeShape(k.Abs(), k.dir, k.limit);
    var i := 0;
    while i < |events|
      invariant 0 <= i <= |events| && k.Valid() && Physical(k.phys[..])
      invariant ValidRun(k.Abs(), events[i..], k.dir)
      invariant Run(k.Abs(), events[i..], k.dir) == Run(old(k.Abs()), events, k.dir)
    {
      assert events[i..][0] == events[i] && events[i..][1..] == events[i + 1..];
      Perform(k, events[i]);
      i := i + 1;
    }
  }
}
