/** The first page tables, built by entry.asm before paging is switched on. */
module Boot {
  import opened Machine
  import opened PageTables
  import Frames
  import KernelMemory

  /** One table of identity entries, its last page redirected to the VGA text buffer, behind
      directory slots 0 and 768. */
  ghost predicate BootTables(m: seq<u32>, directory: nat, table: nat) {
    && Physical(m) && directory < PAGES && table < PAGES && directory != table
    && (forall i :: 0 <= i < 1024 ==> Cell(m, table, i) == if i < 1023 then i * 4096 + 3 else 0xB_8003)
    && (forall i :: 0 <= i < 1024 ==> Slot(m, directory, i) == if i == 0 || i == 768 then table * 4096 + 3 else 0)
  }

  method BuildTables(phys: array<u32>, directory: nat, table: nat)
    requires phys.Length == DWORDS && directory < PAGES && table < PAGES && directory != table
    requires forall i :: 0 <= i < 1024 ==> Slot(phys[..], directory, i) == 0
    modifies phys
    ensures BootTables(phys[..], directory, table)
    ensures forall f: nat, i :: f < PAGES && f != directory && f != table && 0 <= i < 1024 ==>
      Cell(phys[..], f, i) == old(Cell(phys[..], f, i))
  {
    var edi, esi, ecx := table * 1024, 0, 1023;
    while ecx != 0
      invariant 0 <= ecx <= 1023 && esi == (1023 - ecx) * 4096 && edi == table * 1024 + (1023 - ecx)
      invariant forall k :: table * 1024 <= k < edi ==> phys[k] == (k - table * 1024) * 4096 + 3
      invariant forall k :: 0 <= k < phys.Length && !(table * 1024 <= k < table * 1024 + 1024) ==>
        phys[k] == old(phys[k])
    {
      phys[edi] := esi + 3;
      esi := esi + 4096;
      edi := edi + 1;
      ecx := ecx - 1;
    }
    phys[table * 1024 + 1023] := 0xB_8003;
    phys[directory * 1024] := table * 4096 + 3;
    phys[directory * 1024 + 768] := table * 4096 + 3;
    forall i | 0 <= i < 1024
      ensures Slot(phys[..], directory, i) == if i == 0 || i == 768 then table * 4096 + 3 else 0
    {
      assert old(Slot(phys[..], directory, i)) == 0;
    }
  }

  function BootLookup(p: nat): Option<nat> {
    if p / 1024 != 0 && p / 1024 != 768 then None
    else if p % 1024 == 1023 then Some(0xB8)
    else Some(p % 1024)
  }

  /** An address plus 3 is a present, writable entry; a zero word is absent. */
  lemma EntryWord(frame: nat)
    requires frame < PAGES
    ensures Present(frame * 4096 + 3) && FrameOf(frame * 4096 + 3) == frame && !Present(0)
  {
  }

  lemma BootTranslates(m: seq<u32>, directory: nat, table: nat, p: nat)
    requires BootTables(m, directory, table) && p < PAGES
    ensures Lookup(m, directory, p) == BootLookup(p)
  {
    hide Present, FrameOf;
    EntryWord(table);
    EntryWord(p % 1024);
    EntryWord(0xB8);
    assert Slot(m, directory, p / 1024) == if p / 1024 == 0 || p / 1024 == 768 then table * 4096 + 3 else 0;
    assert Cell(m, table, p % 1024) == if p % 1024 < 1023 then p % 1024 * 4096 + 3 else 0xB_8003;
  }

  /** v and v + 0xC0000000 both reach physical v below 0x3FF000. */
  lemma BootIdentity(m: seq<u32>, directory: nat, table: nat, v: u32)
    requires BootTables(m, directory, table) && v < 0x3F_F000
    ensures Translate(m, directory, v) == v && Translate(m, directory, v + 0xC000_0000) == v
  {
    var w := v + 0xC000_0000;
    assert PageOf(w) == 768 * 1024 + PageOf(v) && w % 4096 == v % 4096 && PageOf(v) < 1023;
    BootTranslates(m, directory, table, PageOf(v));
    BootTranslates(m, directory, table, PageOf(w));
  }

  /** The last page of both halves is the VGA text buffer; nothing else is mapped. */
  lemma BootVga(m: seq<u32>, directory: nat, table: nat, v: u32)
    requires BootTables(m, directory, table)
    ensures 0x3F_F000 <= v < 0x40_0000 ==>
      Translate(m, directory, v) == 0xB_8000 + v % 0x1000 == Translate(m, directory, v + 0xC000_0000)
    ensures 0x40_0000 <= v < 0xC000_0000 || v >= 0xC040_0000 ==> Lookup(m, directory, PageOf(v)) == None
  {
    BootTranslates(m, directory, table, PageOf(v));
    if v < 0x40_0000 {
      var w := v + 0xC000_0000;
      assert PageOf(w) == 768 * 1024 + PageOf(v) && w % 4096 == v % 4096;
      BootTranslates(m, directory, table, PageOf(w));
    }
  }

  lemma WritableWord(frame: nat)
    requires frame < PAGES
    ensures (frame * 4096 + 3) % 4 == 3 && (frame * 4096 + 3) / 4096 == frame
  {
    Remainder(frame * 4096 + 3, 1024 * frame, 3, 4);
  }

  /** Every page that is mapped is mapped writable: bits 0 and 1 are set in both entries of its walk. */
  lemma BootWritable(m: seq<u32>, directory: nat, table: nat, v: u32)
    requires BootTables(m, directory, table) && (v < 0x40_0000 || 0xC000_0000 <= v < 0xC040_0000)
    ensures directory * 1024 + v / 0x40_0000 < |m|
    ensures var pde := m[directory * 1024 + v / 0x40_0000];
      && pde % 4 == 3 && pde / 4096 * 1024 + v / 4096 % 1024 < |m|
      && m[pde / 4096 * 1024 + v / 4096 % 1024] % 4 == 3
  {
    IndexBounds(v);
    WritableWord(table);
    WritableWord(v / 4096 % 1024);
    assert Slot(m, directory, v / 0x40_0000) == table * 4096 + 3;
    assert Cell(m, table, v / 4096 % 1024) ==
      if v / 4096 % 1024 < 1023 then v / 4096 % 1024 * 4096 + 3 else 0xB_8003;
  }

  /** Once frames::init has reserved the kernel, boot leaves a safe state: the discipline starts
      here, with the shared pair of slots in place. */
  lemma BootIsSafe(m: seq<u32>, directory: nat, table: nat, owned: set<nat>, kernelEnd: u32)
    requires BootTables(m, directory, table) && kernelEnd + 0x1_0000 <= 4096 * Frames.FRAMES
    requires directory * 4096 < kernelEnd && table * 4096 < kernelEnd
    requires forall f: nat :: f in owned <==> f * 4096 < kernelEnd + 0x1_0000
    requires forall f :: Frames.IsFree(owned, f) ==> Zeroed(m, f)
    ensures KernelMemory.Safe(KernelMemory.State(m, owned, {}), directory, kernelEnd + 0x1_0000)
  {
    EntryWord(table);
    forall i | 0 <= i < 1024
      ensures HasTable(m, directory, i) <==> (i == 0 || i == 768)
      ensures HasTable(m, directory, i) ==> TableOf(m, directory, i) == table
    {
    }
    hide HasTable, TableOf, Zeroed;
  }
}
