/** Two-level 32-bit paging (section 4.3 of the Intel SDM, volume 3A) in physical memory, as a
    function from pages to frames. Physical memory is a sequence of 2^30 dwords; frame f occupies
    dwords 1024 * f to 1024 * f + 1023. */
module PageTables {
  import opened Machine

  const DWORDS: nat := 0x4000_0000
  const PAGES: nat := 0x10_0000

  datatype Option<T> = None | Some(value: T)

  ghost predicate Physical(m: seq<u32>) {
    |m| == DWORDS
  }

  // ----- entries: bit 0 present, bit 1 read/write, bits 12 to 31 the frame -----

  predicate Present(e: u32) {
    e % 2 == 1
  }

  function FrameOf(e: u32): (f: nat)
    ensures f < PAGES
  {
    e / 4096
  }

  /** The three bit-field assignments that fill an entry; all other flags stay. */
  function WithAddress(e: u32, frame: nat): u32
    requires frame < PAGES
  {
    frame * 4096 + e % 4096
  }

  function WithReadWrite(e: u32): u32 {
    if e / 2 % 2 == 1 then e else e + 2
  }

  function WithPresent(e: u32): u32 {
    if e % 2 == 1 then e else e + 1
  }

  function Entry(e: u32, frame: nat): u32
    requires frame < PAGES
  {
    WithPresent(WithReadWrite(WithAddress(e, frame)))
  }

  lemma LowBits(n: nat, r: nat)
    requires r < 4 && 4 * n + 3 < 0x1_0000_0000
    ensures WithReadWrite(4 * n + r) == 4 * n + (if r < 2 then r + 2 else r)
    ensures WithPresent(WithReadWrite(4 * n + r)) == 4 * n + 3
  {
    assert (4 * n + r) % 2 == r % 2 && (4 * n + r + 2) % 2 == r % 2;
    assert (4 * n + r) / 2 == 2 * n + r / 2;
    assert (2 * n + r / 2) % 2 == r / 2;
  }

  /** Only the two lowest bits change below the address. */
  lemma EntryValue(e: u32, frame: nat)
    requires frame < PAGES
    ensures Entry(e, frame) == 4 * (1024 * frame + e % 4096 / 4) + 3
  {
    hide WithReadWrite, WithPresent;
    LowBits(1024 * frame + e % 4096 / 4, e % 4096 % 4);
  }

  lemma EntryParts(frame: nat, r: nat)
    requires r < 1024
    ensures var v := 4 * (1024 * frame + r) + 3; v % 2 == 1 && v % 4 == 3 && v / 4096 == frame && v % 4096 / 4 == r
  {
    var v := 4096 * frame + (4 * r + 3);
    Remainder(v, frame, 4 * r + 3, 4096);
    Remainder(v, 2048 * frame + (2 * r + 1), 1, 2);
    Remainder(v, 1024 * frame + r, 3, 4);
  }

  lemma EntryFields(e: u32, frame: nat)
    requires frame < PAGES
    ensures Present(Entry(e, frame)) && FrameOf(Entry(e, frame)) == frame
    ensures Entry(e, frame) % 4096 / 4 == e % 4096 / 4
  {
    hide Entry;
    EntryValue(e, frame);
    EntryParts(frame, e % 4096 / 4);
  }

  function Slot(m: seq<u32>, dir: nat, i: nat): u32
    requires Physical(m) && dir < PAGES && i < 1024
  {
    m[dir * 1024 + i]
  }

  function Cell(m: seq<u32>, table: nat, i: nat): u32
    requires Physical(m) && table < PAGES && i < 1024
  {
    m[table * 1024 + i]
  }

  /** The frame behind directory slot i. */
  function TableOf(m: seq<u32>, dir: nat, i: nat): nat
    requires Physical(m) && dir < PAGES && i < 1024
  {
    FrameOf(Slot(m, dir, i))
  }

  predicate HasTable(m: seq<u32>, dir: nat, i: nat)
    requires Physical(m) && dir < PAGES && i < 1024
  {
    Present(Slot(m, dir, i))
  }

  // ----- virtual addresses -----

  function PageOf(v: u32): nat {
    v / 4096
  }

  /** The directory slot of an address: its top ten bits. */
  function PdIndex(v: u32): (i: nat)
    ensures i < 1024
  {
    v / 0x40_0000
  }

  /** Its index in the table: the ten bits below those. */
  function PtIndex(v: u32): (i: nat)
    ensures i < 1024
  {
    v % 0x40_0000 / 4096
  }

  lemma IndexOfPage(v: u32)
    ensures PdIndex(v) == PageOf(v) / 1024 < 1024
    ensures PtIndex(v) == PageOf(v) % 1024
  {
  }

  // ----- what the tables mean -----

  /** The frame page p is mapped to. */
  function Lookup(m: seq<u32>, dir: nat, p: nat): (r: Option<nat>)
    requires Physical(m) && dir < PAGES && p < PAGES
    ensures r.Some? ==> HasTable(m, dir, p / 1024) && r.value < PAGES
  {
    var slot := Slot(m, dir, p / 1024);
    if !Present(slot) then None
    else
      var e := Cell(m, FrameOf(slot), p % 1024);
      if Present(e) then Some(FrameOf(e)) else None
  }

  /** The physical address of v, the low 12 bits kept; 0 when v is not mapped. */
  function Translate(m: seq<u32>, dir: nat, v: u32): u32
    requires Physical(m) && dir < PAGES
  {
    match Lookup(m, dir, PageOf(v))
    case None => 0
    case Some(f) => f * 4096 + v % 4096
  }

  /** Slots i and j lead to the same table. */
  ghost predicate Shares(m: seq<u32>, dir: nat, i: nat, j: nat)
    requires Physical(m) && dir < PAGES && i < 1024 && j < 1024
  {
    i == j || (HasTable(m, dir, i) && HasTable(m, dir, j) && TableOf(m, dir, i) == TableOf(m, dir, j))
  }

  /** No table is the directory itself. */
  ghost predicate TablesApart(m: seq<u32>, dir: nat) {
    Physical(m) && dir < PAGES && forall i :: 0 <= i < 1024 && HasTable(m, dir, i) ==> TableOf(m, dir, i) != dir
  }

  ghost predicate Zeroed(m: seq<u32>, f: nat)
    requires Physical(m) && f < PAGES
  {
    forall i :: 0 <= i < 1024 ==> Cell(m, f, i) == 0
  }

  /** Frame f is neither a table yet nor the directory. */
  ghost predicate Usable(m: seq<u32>, dir: nat, f: nat)
    requires Physical(m) && dir < PAGES
  {
    && f < PAGES && f != dir
    && (forall i :: 0 <= i < 1024 && HasTable(m, dir, i) ==> TableOf(m, dir, i) != f)
  }

  // ----- the two operations on memory -----

  /** Directory slot i refers to frame table. */
  function Install(m: seq<u32>, dir: nat, i: nat, table: nat): seq<u32>
    requires Physical(m) && dir < PAGES && i < 1024 && table < PAGES
  {
    m[dir * 1024 + i := Entry(Slot(m, dir, i), table)]
  }

  function PutCell(m: seq<u32>, table: nat, i: nat, frame: nat): seq<u32>
    requires Physical(m) && table < PAGES && i < 1024 && frame < PAGES
  {
    m[table * 1024 + i := Entry(Cell(m, table, i), frame)]
  }

  /** spare is the frame handed out when v's slot is absent. */
  function MapPage(m: seq<u32>, dir: nat, spare: nat, paddr: u32, v: u32): seq<u32>
    requires Physical(m) && dir < PAGES && spare < PAGES
  {
    var slot := Slot(m, dir, PdIndex(v));
    if Present(slot) then PutCell(m, FrameOf(slot), PtIndex(v), paddr / 4096)
    else PutCell(Install(m, dir, PdIndex(v), spare), spare, PtIndex(v), paddr / 4096)
  }

  function UnmapPage(m: seq<u32>, dir: nat, v: u32): seq<u32>
    requires Physical(m) && dir < PAGES
  {
    var slot := Slot(m, dir, PdIndex(v));
    if Present(slot) then m[FrameOf(slot) * 1024 + PtIndex(v) := 0] else m
  }

  // ----- exactly which translations change -----

  ghost predicate Ready(m: seq<u32>, dir: nat, spare: nat, v: u32) {
    && TablesApart(m, dir) && spare < PAGES
    && (!HasTable(m, dir, PdIndex(v)) ==> Usable(m, dir, spare))
  }

  lemma InstallAt(m: seq<u32>, dir: nat, i: nat, table: nat, t: nat, k: nat)
    requires Physical(m) && dir < PAGES && i < 1024 && table < PAGES && t < PAGES && k < 1024
    ensures Physical(Install(m, dir, i, table))
    ensures Cell(Install(m, dir, i, table), t, k) ==
      if t == dir && k == i then Entry(Slot(m, dir, i), table) else Cell(m, t, k)
  {
    hide Entry;
  }

  lemma PutAt(m: seq<u32>, table: nat, i: nat, frame: nat, t: nat, k: nat)
    requires Physical(m) && table < PAGES && i < 1024 && frame < PAGES && t < PAGES && k < 1024
    ensures Physical(PutCell(m, table, i, frame))
    ensures Cell(PutCell(m, table, i, frame), t, k) ==
      if t == table && k == i then Entry(Cell(m, table, i), frame) else Cell(m, t, k)
  {
    hide Entry;
  }

  lemma InstallSlot(m: seq<u32>, dir: nat, i: nat, table: nat, j: nat)
    requires TablesApart(m, dir) && i < 1024 && !HasTable(m, dir, i) && Usable(m, dir, table) && j < 1024
    ensures Physical(Install(m, dir, i, table))
    ensures var slot := Slot(Install(m, dir, i, table), dir, j);
      && (j == i ==> Present(slot) && FrameOf(slot) == table)
      && (j != i ==> slot == Slot(m, dir, j) && (Present(slot) ==> FrameOf(slot) != table && FrameOf(slot) != dir))
  {
    InstallAt(m, dir, i, table, dir, j);
    assert HasTable(m, dir, j) ==> TableOf(m, dir, j) != dir && TableOf(m, dir, j) != table;
    EntryFields(Slot(m, dir, i), table);
    hide Entry, FrameOf, Present, Install;
  }

  lemma InstallSlots(m: seq<u32>, dir: nat, i: nat, table: nat)
    requires TablesApart(m, dir) && table < PAGES && table != dir && i < 1024
    requires !HasTable(m, dir, i) && Usable(m, dir, table)
    ensures TablesApart(Install(m, dir, i, table), dir)
    ensures Present(Slot(Install(m, dir, i, table), dir, i))
    ensures FrameOf(Slot(Install(m, dir, i, table), dir, i)) == table
    ensures forall j :: 0 <= j < 1024 ==> (Shares(Install(m, dir, i, table), dir, j, i) <==> Shares(m, dir, j, i))
  {
    hide Slot, FrameOf, Present, Install, Usable;
    InstallSlot(m, dir, i, table, i);
    forall j | 0 <= j < 1024
      ensures Shares(Install(m, dir, i, table), dir, j, i) <==> Shares(m, dir, j, i)
      ensures Present(Slot(Install(m, dir, i, table), dir, j)) ==>
        FrameOf(Slot(Install(m, dir, i, table), dir, j)) != dir
    {
      InstallSlot(m, dir, i, table, j);
    }
  }

  /** What cell k of a frame would translate to, if the frame were a table. */
  function Leftover(m: seq<u32>, frame: nat, k: nat): Option<nat>
    requires Physical(m) && frame < PAGES && k < 1024
  {
    var e := Cell(m, frame, k);
    if Present(e) then Some(FrameOf(e)) else None
  }

  /** A frame put behind an absent slot is not cleared: its pages translate to whatever it holds. */
  lemma InstallTranslates(m: seq<u32>, dir: nat, i: nat, table: nat, p: nat)
    requires TablesApart(m, dir) && i < 1024 && !HasTable(m, dir, i) && Usable(m, dir, table) && p < PAGES
    ensures Physical(Install(m, dir, i, table))
    ensures Lookup(Install(m, dir, i, table), dir, p) ==
      if p / 1024 == i then Leftover(m, table, p % 1024) else Lookup(m, dir, p)
  {
    hide Slot, Cell, Install, FrameOf;
    InstallSlot(m, dir, i, table, p / 1024);
    var slot := Slot(m, dir, p / 1024);
    if p / 1024 == i {
      InstallAt(m, dir, i, table, table, p % 1024);
    } else if Present(slot) {
      InstallAt(m, dir, i, table, FrameOf(slot), p % 1024);
    }
  }

  /** Writing one cell of slot i's table. */
  lemma PutTranslates(m: seq<u32>, dir: nat, i: nat, idx: nat, frame: nat, p: nat)
    requires TablesApart(m, dir) && i < 1024 && idx < 1024 && frame < PAGES && p < PAGES && HasTable(m, dir, i)
    ensures Physical(PutCell(m, TableOf(m, dir, i), idx, frame))
    ensures Lookup(PutCell(m, TableOf(m, dir, i), idx, frame), dir, p) ==
      if p % 1024 == idx && Shares(m, dir, p / 1024, i) then Some(frame) else Lookup(m, dir, p)
  {
    hide Entry, PutCell;
    var table, slot := TableOf(m, dir, i), Slot(m, dir, p / 1024);
    EntryFields(Cell(m, table, idx), frame);
    PutAt(m, table, idx, frame, dir, p / 1024);
    if Present(slot) {
      PutAt(m, table, idx, frame, FrameOf(slot), p % 1024);
    }
  }

  lemma UsableIsApart(m: seq<u32>, dir: nat, f: nat)
    requires Physical(m) && dir < PAGES && Usable(m, dir, f)
    ensures f != dir && f < PAGES
  {
  }

  /** map_page(.., v) is to change the translation of page p: v's table index in a slot sharing v's table. */
  ghost predicate Moved(m: seq<u32>, dir: nat, v: u32, p: nat)
    requires Physical(m) && dir < PAGES && p < PAGES
  {
    p % 1024 == PtIndex(v) && Shares(m, dir, p / 1024, PdIndex(v))
  }

  /** map_page redirects v's page, and the same-index page of every slot sharing v's table, to paddr's
      frame. When it had to take a frame for the table, the other pages of v's slot translate to
      whatever that frame holds; all the rest is as before. */
  lemma MapTranslatesAny(m: seq<u32>, dir: nat, spare: nat, paddr: u32, v: u32, p: nat)
    requires Ready(m, dir, spare, v) && p < PAGES
    ensures Physical(MapPage(m, dir, spare, paddr, v))
    ensures Lookup(MapPage(m, dir, spare, paddr, v), dir, p) ==
      if Moved(m, dir, v, p) then Some(paddr / 4096)
      else if p / 1024 == PdIndex(v) && !HasTable(m, dir, PdIndex(v)) then Leftover(m, spare, p % 1024)
      else Lookup(m, dir, p)
  {
    hide Entry, Usable, Shares, PutCell, Install, Lookup, Slot, Present, FrameOf, Leftover;
    var i := PdIndex(v);
    if HasTable(m, dir, i) {
      PutTranslates(m, dir, i, PtIndex(v), paddr / 4096, p);
    } else {
      UsableIsApart(m, dir, spare);
      InstallSlots(m, dir, i, spare);
      InstallTranslates(m, dir, i, spare, p);
      PutTranslates(Install(m, dir, i, spare), dir, i, PtIndex(v), paddr / 4096, p);
    }
  }

  /** No cell of the frame a new table would take is present, but perhaps the one map_page overwrites. */
  ghost predicate Clean(m: seq<u32>, dir: nat, spare: nat, v: u32)
    requires Physical(m) && dir < PAGES && spare < PAGES
  {
    HasTable(m, dir, PdIndex(v)) ||
    forall k :: 0 <= k < 1024 && k != PtIndex(v) ==> Leftover(m, spare, k) == None
  }

  lemma AbsentLooksUp(m: seq<u32>, dir: nat, p: nat)
    requires Physical(m) && dir < PAGES && p < PAGES && !HasTable(m, dir, p / 1024)
    ensures Lookup(m, dir, p) == None
  {
  }

  /** On a clean frame every page that is not to move translates as before. */
  lemma MapTranslates(m: seq<u32>, dir: nat, spare: nat, paddr: u32, v: u32, p: nat)
    requires Ready(m, dir, spare, v) && Clean(m, dir, spare, v) && p < PAGES
    ensures Physical(MapPage(m, dir, spare, paddr, v))
    ensures Lookup(MapPage(m, dir, spare, paddr, v), dir, p) ==
      if Moved(m, dir, v, p) then Some(paddr / 4096) else Lookup(m, dir, p)
  {
    hide MapPage, Lookup, Leftover, HasTable;
    MapTranslatesAny(m, dir, spare, paddr, v, p);
    if !HasTable(m, dir, p / 1024) {
      AbsentLooksUp(m, dir, p);
    }
  }

  /** Exactly on a clean frame does map_page leave all other pages alone. */
  lemma MapSparesOthersIff(m: seq<u32>, dir: nat, spare: nat, paddr: u32, v: u32)
    requires Ready(m, dir, spare, v)
    ensures Physical(MapPage(m, dir, spare, paddr, v))
    ensures Clean(m, dir, spare, v) <==>
      forall p: nat :: p < PAGES && !Moved(m, dir, v, p) ==>
        Lookup(MapPage(m, dir, spare, paddr, v), dir, p) == Lookup(m, dir, p)
  {
    hide MapPage, Lookup, Leftover, HasTable, Usable, PtIndex, PdIndex, Shares;
    MapTranslatesAny(m, dir, spare, paddr, v, 0);
    if Clean(m, dir, spare, v) {
      forall p: nat | p < PAGES && !Moved(m, dir, v, p)
        ensures Lookup(MapPage(m, dir, spare, paddr, v), dir, p) == Lookup(m, dir, p)
      {
        MapTranslates(m, dir, spare, paddr, v, p);
      }
    } else {
      var k: nat :| k < 1024 && k != PtIndex(v) && Leftover(m, spare, k) != None;
      var p := PdIndex(v) * 1024 + k;
      assert p % 1024 == k && p / 1024 == PdIndex(v);
      MapTranslatesAny(m, dir, spare, paddr, v, p);
      AbsentLooksUp(m, dir, p);
    }
  }

  lemma UnmapAt(m: seq<u32>, dir: nat, v: u32, t: nat, k: nat)
    requires Physical(m) && dir < PAGES && t < PAGES && k < 1024 && HasTable(m, dir, PdIndex(v))
    ensures Physical(UnmapPage(m, dir, v))
    ensures Cell(UnmapPage(m, dir, v), t, k) ==
      if t == TableOf(m, dir, PdIndex(v)) && k == PtIndex(v) then 0 else Cell(m, t, k)
  {
    hide FrameOf, PdIndex, PtIndex, Present;
  }

  /** unmap_page removes v's page and the same-index page of every slot sharing v's table. */
  lemma UnmapTranslates(m: seq<u32>, dir: nat, v: u32, p: nat)
    requires TablesApart(m, dir) && p < PAGES
    ensures Lookup(UnmapPage(m, dir, v), dir, p) ==
      if p % 1024 == PtIndex(v) && Shares(m, dir, p / 1024, PdIndex(v)) then None else Lookup(m, dir, p)
  {
    assert !Present(0);
    hide FrameOf, PdIndex, PtIndex;
    if HasTable(m, dir, PdIndex(v)) {
      hide UnmapPage;
      UnmapAt(m, dir, v, dir, p / 1024);
      assert TableOf(m, dir, PdIndex(v)) != dir;
      if HasTable(m, dir, p / 1024) {
        UnmapAt(m, dir, v, TableOf(m, dir, p / 1024), p % 1024);
      }
    }
  }

  // ----- the directory after each operation -----

  /** map_page changes at most v's own slot, from absent to the spare frame. */
  lemma MapSlots(m: seq<u32>, dir: nat, spare: nat, paddr: u32, v: u32, j: nat)
    requires Ready(m, dir, spare, v) && j < 1024
    ensures var m' := MapPage(m, dir, spare, paddr, v);
      && Physical(m')
      && (if j == PdIndex(v) && !HasTable(m, dir, j)
          then Present(Slot(m', dir, j)) && FrameOf(Slot(m', dir, j)) == spare
          else Slot(m', dir, j) == Slot(m, dir, j))
  {
    hide Entry, Usable, PutCell, Install, Present, FrameOf;
    var i := PdIndex(v);
    var slot := Slot(m, dir, i);
    if HasTable(m, dir, i) {
      assert TableOf(m, dir, i) != dir;
      PutAt(m, FrameOf(slot), PtIndex(v), paddr / 4096, dir, j);
    } else {
      UsableIsApart(m, dir, spare);
      InstallSlot(m, dir, i, spare, j);
      PutAt(Install(m, dir, i, spare), spare, PtIndex(v), paddr / 4096, dir, j);
    }
  }

  /** map_page writes only to the directory and to v's table. */
  lemma MapCells(m: seq<u32>, dir: nat, spare: nat, paddr: u32, v: u32, f: nat, k: nat)
    requires Ready(m, dir, spare, v) && f < PAGES && k < 1024 && f != dir
    requires f != (if HasTable(m, dir, PdIndex(v)) then TableOf(m, dir, PdIndex(v)) else spare)
    ensures Physical(MapPage(m, dir, spare, paddr, v))
    ensures Cell(MapPage(m, dir, spare, paddr, v), f, k) == Cell(m, f, k)
  {
    hide Entry, Usable, PutCell, Install, Present, FrameOf, Cell;
    var i := PdIndex(v);
    if HasTable(m, dir, i) {
      PutAt(m, TableOf(m, dir, i), PtIndex(v), paddr / 4096, f, k);
    } else {
      UsableIsApart(m, dir, spare);
      InstallAt(m, dir, i, spare, f, k);
      PutAt(Install(m, dir, i, spare), spare, PtIndex(v), paddr / 4096, f, k);
    }
  }

  lemma MapKeepsApart(m: seq<u32>, dir: nat, spare: nat, paddr: u32, v: u32)
    requires Ready(m, dir, spare, v)
    ensures TablesApart(MapPage(m, dir, spare, paddr, v), dir)
  {
    hide MapPage, Slot, Present, FrameOf;
    MapSlots(m, dir, spare, paddr, v, 0);
    var m' := MapPage(m, dir, spare, paddr, v);
    forall j | 0 <= j < 1024 && HasTable(m', dir, j) ensures TableOf(m', dir, j) != dir {
      MapSlots(m, dir, spare, paddr, v, j);
      assert HasTable(m, dir, j) ==> TableOf(m, dir, j) != dir;
    }
  }

  lemma UnmapSlots(m: seq<u32>, dir: nat, v: u32, j: nat)
    requires TablesApart(m, dir) && j < 1024
    ensures Physical(UnmapPage(m, dir, v)) && Slot(UnmapPage(m, dir, v), dir, j) == Slot(m, dir, j)
  {
    assert HasTable(m, dir, PdIndex(v)) ==> TableOf(m, dir, PdIndex(v)) != dir;
  }

  /** Mapping makes v's slot share with exactly the slots it shared with before. */
  lemma MapShares(m: seq<u32>, dir: nat, spare: nat, paddr: u32, v: u32, j: nat)
    requires Ready(m, dir, spare, v) && j < 1024
    ensures Physical(MapPage(m, dir, spare, paddr, v))
    ensures Shares(MapPage(m, dir, spare, paddr, v), dir, j, PdIndex(v)) <==> Shares(m, dir, j, PdIndex(v))
  {
    hide MapPage, Slot, FrameOf, Present, PdIndex;
    var i := PdIndex(v);
    MapSlots(m, dir, spare, paddr, v, j);
    MapSlots(m, dir, spare, paddr, v, i);
    if j != i && !HasTable(m, dir, i) && HasTable(m, dir, j) {
      assert Usable(m, dir, spare) && TableOf(m, dir, j) != spare;
    }
  }

  /** Unmapping right after mapping leaves v and the pages that moved with it absent and every
      other page as it was, so an absent page is fully restored. */
  lemma UnmapUndoesMap(m: seq<u32>, dir: nat, spare: nat, paddr: u32, v: u32, p: nat)
    requires Ready(m, dir, spare, v) && Clean(m, dir, spare, v) && p < PAGES
    ensures Physical(MapPage(m, dir, spare, paddr, v)) && Physical(UnmapPage(MapPage(m, dir, spare, paddr, v), dir, v))
    ensures Lookup(UnmapPage(MapPage(m, dir, spare, paddr, v), dir, v), dir, p) ==
      if p % 1024 == PtIndex(v) && Shares(m, dir, p / 1024, PdIndex(v)) then None else Lookup(m, dir, p)
  {
    hide MapPage, UnmapPage, Shares, Lookup, Usable;
    MapTranslates(m, dir, spare, paddr, v, p);
    MapKeepsApart(m, dir, spare, paddr, v);
    MapShares(m, dir, spare, paddr, v, p / 1024);
    UnmapSlots(MapPage(m, dir, spare, paddr, v), dir, v, 0);
    UnmapTranslates(MapPage(m, dir, spare, paddr, v), dir, v, p);
  }

  // ----- the same, in the dwords of the manual -----

  lemma IndexBounds(v: u32)
    ensures v / 0x40_0000 < 1024 && v / 4096 % 1024 < 1024
    ensures PdIndex(v) == v / 0x40_0000 && PtIndex(v) == v / 4096 % 1024
    ensures PageOf(v) / 1024 == v / 0x40_0000 && PageOf(v) % 1024 == v / 4096 % 1024
  {
  }

  /** The walk of section 4.3 of the Intel SDM, volume 3A, in dwords: the top ten bits of an address select a
      directory entry, the next ten an entry of the table at its bits 12 to 31; bit 0 says present; the
      page frame is in bits 12 to 31 of the second entry, and the low twelve bits are the offset. */
  lemma HardwareWalk(m: seq<u32>, dir: nat, v: u32)
    requires Physical(m) && dir < PAGES
    ensures dir * 1024 + v / 0x40_0000 < |m|
    ensures var pde := m[dir * 1024 + v / 0x40_0000];
      && pde / 4096 * 1024 + v / 4096 % 1024 < |m|
      && var pte := m[pde / 4096 * 1024 + v / 4096 % 1024];
         && (Lookup(m, dir, PageOf(v)) == None <==> pde % 2 == 0 || pte % 2 == 0)
         && Translate(m, dir, v) == if pde % 2 == 0 || pte % 2 == 0 then 0 else pte / 4096 * 4096 + v % 4096
  {
    IndexBounds(v);
    hide PdIndex, PtIndex;
  }

  lemma EntryBits(e: u32, frame: nat)
    requires frame < PAGES
    ensures var x := Entry(e, frame); x % 4 == 3 && x / 4096 == frame && x % 4096 / 4 == e % 4096 / 4
  {
    hide Entry;
    EntryValue(e, frame);
    EntryParts(frame, e % 4096 / 4);
  }

  /** The two dwords map_page leaves: v's directory entry is present, and the table entry holds paddr's
      frame, present and writable, its other flags as they were. */
  lemma MapInDwords(m: seq<u32>, dir: nat, spare: nat, paddr: u32, v: u32)
    requires Ready(m, dir, spare, v)
    ensures var m' := MapPage(m, dir, spare, paddr, v);
      && Physical(m') && dir * 1024 + v / 0x40_0000 < |m|
      && var before, pde := m[dir * 1024 + v / 0x40_0000], m'[dir * 1024 + v / 0x40_0000];
         && (if before % 2 == 1 then pde == before else pde % 4 == 3 && pde / 4096 == spare)
         && pde / 4096 * 1024 + v / 4096 % 1024 < |m|
         && var was, pte := m[pde / 4096 * 1024 + v / 4096 % 1024], m'[pde / 4096 * 1024 + v / 4096 % 1024];
            pte % 4 == 3 && pte / 4096 == paddr / 4096 && pte % 4096 / 4 == was % 4096 / 4
  {
    hide Entry, PdIndex, PtIndex, Shares;
    IndexBounds(v);
    var i, k := PdIndex(v), PtIndex(v);
    var slot := Slot(m, dir, i);
    if Present(slot) {
      assert TableOf(m, dir, i) != dir;
      EntryBits(Cell(m, FrameOf(slot), k), paddr / 4096);
    } else {
      EntryBits(slot, spare);
      EntryBits(Cell(m, spare, k), paddr / 4096);
    }
  }

  /** unmap_page clears the table entry when v has a table, and writes nothing otherwise. */
  lemma UnmapInDwords(m: seq<u32>, dir: nat, v: u32)
    requires Physical(m) && dir < PAGES
    ensures dir * 1024 + v / 0x40_0000 < |m|
    ensures var pde := m[dir * 1024 + v / 0x40_0000];
      && pde / 4096 * 1024 + v / 4096 % 1024 < |m|
      && UnmapPage(m, dir, v) == if pde % 2 == 1 then m[pde / 4096 * 1024 + v / 4096 % 1024 := 0] else m
  {
    IndexBounds(v);
    hide PdIndex, PtIndex;
  }
}
