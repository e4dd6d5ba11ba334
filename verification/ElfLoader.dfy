/** The ELF half of the loader: check the header of the loaded image, copy every segment to its
    physical address. */
module ElfLoader {
  import opened Machine
  import opened Loader
  import Strings

  /** The program header fields the loader uses. */
  datatype Segment = Segment(offset: u32, paddr: u32, filesz: u32)

  /** ELF magic, executable, Intel 386, current version. */
  predicate HeaderOk(m: seq<u8>)
    requires |m| >= KERNEL_IMAGE_ADDR + 52
  {
    var h := KERNEL_IMAGE_ADDR;
    && m[h] == 0x7f && m[h + 1] == 'E' as int && m[h + 2] == 'L' as int && m[h + 3] == 'F' as int
    && Get32(m, h + 20) == 1 && Get16(m, h + 18) == 3 && Get16(m, h + 16) == 2
  }

  /** Which images are accepted, byte by byte: magic, then type 2, machine 3 and version 1. */
  lemma HeaderOkIff(m: seq<u8>)
    requires |m| >= 0x4_0034
    ensures HeaderOk(m) <==>
      m[0x4_0000..0x4_0004] == [0x7f, 0x45, 0x4c, 0x46] && m[0x4_0010..0x4_0018] == [2, 0, 3, 0, 1, 0, 0, 0]
  {
    var a, b := m[0x4_0000..0x4_0004], m[0x4_0010..0x4_0018];
    assert a == [m[0x4_0000], m[0x4_0001], m[0x4_0002], m[0x4_0003]];
    assert b == [m[0x4_0010], m[0x4_0011], m[0x4_0012], m[0x4_0013],
                 m[0x4_0014], m[0x4_0015], m[0x4_0016], m[0x4_0017]];
  }

  function TableAt(m: seq<u8>): nat
    requires |m| >= KERNEL_IMAGE_ADDR + 52
  {
    KERNEL_IMAGE_ADDR + Get32(m, KERNEL_IMAGE_ADDR + 28)
  }

  function Count(m: seq<u8>): u16
    requires |m| >= KERNEL_IMAGE_ADDR + 52
  {
    Get16(m, KERNEL_IMAGE_ADDR + 44)
  }

  /** The program header at address a. */
  function HeaderAt(m: seq<u8>, a: nat): Segment
    requires a + 32 <= |m|
  {
    Segment(Get32(m, a + 4), Get32(m, a + 12), Get32(m, a + 16))
  }

  function SegmentAt(m: seq<u8>, table: nat, i: nat): Segment
    requires table + 32 * (i + 1) <= |m|
  {
    HeaderAt(m, table + 32 * i)
  }

  /** The first n program headers of the image. */
  function Segments(m: seq<u8>, table: nat, n: nat): (s: seq<Segment>)
    requires table + 32 * n <= |m|
    ensures |s| == n
  {
    if n == 0 then [] else Segments(m, table, n - 1) + [SegmentAt(m, table, n - 1)]
  }

  /** The segment's bytes lie in the image of the given size, its target in memory clear of the image. */
  predicate Placeable(s: Segment, size: nat, memory: nat) {
    && s.offset + s.filesz <= size && s.paddr + s.filesz <= memory
    && (s.paddr + s.filesz <= KERNEL_IMAGE_ADDR || KERNEL_IMAGE_ADDR + size <= s.paddr)
  }

  predicate AllPlaceable(segs: seq<Segment>, size: nat, memory: nat) {
    KERNEL_IMAGE_ADDR + size <= memory && forall i :: 0 <= i < |segs| ==> Placeable(segs[i], size, memory)
  }

  /** One copy, out of the image. */
  function Place(m: seq<u8>, s: Segment, size: nat): (r: seq<u8>)
    requires KERNEL_IMAGE_ADDR + size <= |m| && Placeable(s, size, |m|)
    ensures |r| == |m|
  {
    Strings.Overwrite(m, s.paddr, m, KERNEL_IMAGE_ADDR + s.offset, s.filesz)
  }

  function PlaceAll(m: seq<u8>, segs: seq<Segment>, size: nat): (r: seq<u8>)
    requires AllPlaceable(segs, size, |m|)
    ensures |r| == |m|
  {
    if segs == [] then m else Place(PlaceAll(m, segs[..|segs| - 1], size), segs[|segs| - 1], size)
  }

  predicate Covers(s: Segment, x: nat) {
    s.paddr <= x < s.paddr + s.filesz
  }

  /** The byte that ends up at x: the file byte of the last segment covering x, or what was there. */
  function Final(m: seq<u8>, segs: seq<Segment>, size: nat, x: nat): u8
    requires AllPlaceable(segs, size, |m|) && x < |m|
  {
    if segs == [] then m[x]
    else
      var s := segs[|segs| - 1];
      if Covers(s, x) then m[KERNEL_IMAGE_ADDR + s.offset + (x - s.paddr)] else Final(m, segs[..|segs| - 1], size, x)
  }

  lemma PlaceByte(m: seq<u8>, s: Segment, size: nat, x: nat)
    requires KERNEL_IMAGE_ADDR + size <= |m| && Placeable(s, size, |m|) && x < |m|
    ensures Place(m, s, size)[x] == if Covers(s, x) then m[KERNEL_IMAGE_ADDR + (s.offset + (x - s.paddr))] else m[x]
  {
  }

  /** Placing segments never disturbs the image they come from. */
  lemma {:induction false} ImageKept(m: seq<u8>, segs: seq<Segment>, size: nat, i: nat)
    requires AllPlaceable(segs, size, |m|) && i < size
    ensures PlaceAll(m, segs, size)[KERNEL_IMAGE_ADDR + i] == m[KERNEL_IMAGE_ADDR + i]
    decreases |segs|
  {
    if segs != [] {
      ImageKept(m, segs[..|segs| - 1], size, i);
    }
  }

  lemma {:induction false} OverlayByte(m: seq<u8>, segs: seq<Segment>, size: nat, x: nat)
    requires AllPlaceable(segs, size, |m|) && x < |m|
    ensures PlaceAll(m, segs, size)[x] == Final(m, segs, size, x)
    decreases |segs|
  {
    hide Place;
    if segs != [] {
      var s := segs[|segs| - 1];
      var before := segs[..|segs| - 1];
      PlaceByte(PlaceAll(m, before, size), s, size, x);
      if Covers(s, x) {
        ImageKept(m, before, size, s.offset + (x - s.paddr));
      } else {
        OverlayByte(m, before, size, x);
      }
    }
  }

  ghost predicate Separate(s: Segment, t: Segment) {
    s.paddr + s.filesz <= t.paddr || t.paddr + t.filesz <= s.paddr
  }

  lemma {:induction false} FinalOf(m: seq<u8>, segs: seq<Segment>, size: nat, k: nat, x: nat)
    requires AllPlaceable(segs, size, |m|) && k < |segs| && x < |m| && Covers(segs[k], x)
    requires forall a, b :: 0 <= a < b < |segs| ==> Separate(segs[a], segs[b])
    ensures Final(m, segs, size, x) == m[KERNEL_IMAGE_ADDR + segs[k].offset + (x - segs[k].paddr)]
    decreases |segs|
  {
    if k < |segs| - 1 {
      assert Separate(segs[k], segs[|segs| - 1]);
      FinalOf(m, segs[..|segs| - 1], size, k, x);
    }
  }

  /** When no two targets overlap, every segment holds its file bytes. */
  lemma SegmentsHold(m: seq<u8>, segs: seq<Segment>, size: nat, k: nat, i: nat)
    requires AllPlaceable(segs, size, |m|) && k < |segs| && i < segs[k].filesz
    requires forall a, b :: 0 <= a < b < |segs| ==> Separate(segs[a], segs[b])
    ensures PlaceAll(m, segs, size)[segs[k].paddr + i] == m[KERNEL_IMAGE_ADDR + segs[k].offset + i]
  {
    hide PlaceAll, Final, Separate;
    var x := segs[k].paddr + i;
    assert Placeable(segs[k], size, |m|);
    OverlayByte(m, segs, size, x);
    FinalOf(m, segs, size, k, x);
  }

  /** Bytes no segment covers keep their value. */
  lemma {:induction false} OutsideKept(m: seq<u8>, segs: seq<Segment>, size: nat, x: nat)
    requires AllPlaceable(segs, size, |m|) && x < |m|
    requires forall k :: 0 <= k < |segs| ==> !Covers(segs[k], x)
    ensures PlaceAll(m, segs, size)[x] == m[x]
    decreases |segs|
  {
    hide Place;
    if segs != [] {
      assert !Covers(segs[|segs| - 1], x);
      OutsideKept(m, segs[..|segs| - 1], size, x);
      PlaceByte(PlaceAll(m, segs[..|segs| - 1], size), segs[|segs| - 1], size, x);
    }
  }

  // ----- the loop -----

  /** What program header i asks for lies in memory. */
  predicate Reachable(m: seq<u8>, s: Segment) {
    KERNEL_IMAGE_ADDR + s.offset + s.filesz <= |m| && s.paddr + s.filesz <= |m|
  }

  /** One round: the header is read from memory as the earlier rounds left it, and so is the data. */
  function CopyIn(m: seq<u8>, s: Segment): (r: seq<u8>)
    requires Reachable(m, s)
    ensures |r| == |m|
  {
    Strings.Ascending(m, s.paddr, KERNEL_IMAGE_ADDR + s.offset, s.filesz)
  }

  /** From round i on, everything the loop reads and writes lies in memory. */
  ghost predicate LoopInside(m: seq<u8>, table: nat, i: nat)
    requires |m| >= KERNEL_IMAGE_ADDR + 52
    decreases 0x1_0000 - i
  {
    i >= Count(m) || (
      && table + 32 * (i + 1) <= |m|
      && Reachable(m, SegmentAt(m, table, i))
      && LoopInside(CopyIn(m, SegmentAt(m, table, i)), table, i + 1))
  }

  /** What the loop leaves, from round i on; the number of headers is read again in every round. */
  ghost function LoopResult(m: seq<u8>, table: nat, i: nat): (r: seq<u8>)
    requires |m| >= KERNEL_IMAGE_ADDR + 52 && LoopInside(m, table, i)
    ensures |r| == |m|
    decreases 0x1_0000 - i
  {
    if i >= Count(m) then m else LoopResult(CopyIn(m, SegmentAt(m, table, i)), table, i + 1)
  }

  method ReadCount(mem: array<u8>) returns (n: u16)
    requires mem.Length >= KERNEL_IMAGE_ADDR + 52
    ensures n == Count(mem[..])
  {
    n := Load16(mem, KERNEL_IMAGE_ADDR + 44);
  }

  method ReadSegment(mem: array<u8>, table: nat, i: nat) returns (s: Segment)
    requires table + 32 * (i + 1) <= mem.Length
    ensures s == SegmentAt(mem[..], table, i)
  {
    var offset := Load32(mem, table + 32 * i + 4);
    var paddr := Load32(mem, table + 32 * i + 12);
    var filesz := Load32(mem, table + 32 * i + 16);
    s := Segment(offset, paddr, filesz);
  }

  method CheckHeader(mem: array<u8>) returns (ok: bool)
    requires mem.Length >= KERNEL_IMAGE_ADDR + 52
    ensures ok <==> HeaderOk(mem[..])
  {
    var h := KERNEL_IMAGE_ADDR;
    var version := Load32(mem, h + 20);
    var machine := Load16(mem, h + 18);
    var kind := Load16(mem, h + 16);
    ok := mem[h] == 0x7f && mem[h + 1] == 'E' as int && mem[h + 2] == 'L' as int && mem[h + 3] == 'F' as int
          && version == 1 && machine == 3 && kind == 2;
  }

  /** The second half of the loader, on whatever lies at the image address. */
  method LoadElf(mem: array<u8>) returns (ok: bool)
    requires KERNEL_IMAGE_ADDR + 52 <= mem.Length < 0x1_0000_0000
    requires HeaderOk(mem[..]) ==> LoopInside(mem[..], TableAt(mem[..]), 0)
    modifies mem
    ensures ok <==> HeaderOk(old(mem[..]))
    ensures mem[..] == if ok then LoopResult(old(mem[..]), TableAt(old(mem[..])), 0) else old(mem[..])
  {
    hide HeaderOk, SegmentAt, Get32, Get16, Strings.Ascending;
    ok := CheckHeader(mem);
    if !ok {
      return;
    }
    var table := Load32(mem, KERNEL_IMAGE_ADDR + 28);
    ghost var result := LoopResult(mem[..], KERNEL_IMAGE_ADDR + table, 0);
    var i: nat := 0;
    var count := ReadCount(mem);
    while i < count
      invariant count == Count(mem[..])
      invariant LoopInside(mem[..], KERNEL_IMAGE_ADDR + table, i)
      invariant LoopResult(mem[..], KERNEL_IMAGE_ADDR + table, i) == result
      decreases 0x1_0000 - i
    {
      var s := ReadSegment(mem, KERNEL_IMAGE_ADDR + table, i);
      Strings.Memcpy(mem, s.paddr, mem, KERNEL_IMAGE_ADDR + s.offset, s.filesz);
      i := i + 1;
      count := ReadCount(mem);
    }
  }

  // ----- an image whose segments are clear of it -----

  lemma PrefixPlaceable(segs: seq<Segment>, size: nat, memory: nat, i: nat)
    requires AllPlaceable(segs, size, memory) && i <= |segs|
    ensures AllPlaceable(segs[..i], size, memory) && (i < |segs| ==> Placeable(segs[i], size, memory))
  {
    hide Placeable;
  }

  /** One more round of the loop. */
  lemma PlaceNext(m: seq<u8>, segs: seq<Segment>, size: nat, i: nat)
    requires AllPlaceable(segs, size, |m|) && i < |segs|
    ensures AllPlaceable(segs[..i], size, |m|) && AllPlaceable(segs[..i + 1], size, |m|)
    ensures Placeable(segs[i], size, |m|)
    ensures PlaceAll(m, segs[..i + 1], size) == Place(PlaceAll(m, segs[..i], size), segs[i], size)
  {
    PrefixPlaceable(segs, size, |m|, i);
    PrefixPlaceable(segs, size, |m|, i + 1);
    hide AllPlaceable, Placeable, Place;
    var upTo := segs[..i + 1];
    assert upTo[..|upTo| - 1] == segs[..i] && upTo[|upTo| - 1] == segs[i];
  }

  lemma {:induction false} SegmentIs(m: seq<u8>, table: nat, n: nat, i: nat)
    requires table + 32 * n <= |m| && i < n
    ensures Segments(m, table, n)[i] == SegmentAt(m, table, i)
  {
    if i < n - 1 {
      SegmentIs(m, table, n - 1, i);
    }
  }

  /** The i-th program header still reads the same after the first i segments have been placed. */
  lemma SegmentKept(m: seq<u8>, segs: seq<Segment>, size: nat, table: nat, i: nat)
    requires AllPlaceable(segs, size, |m|) && i < |segs|
    requires KERNEL_IMAGE_ADDR <= table && table + 32 * |segs| <= KERNEL_IMAGE_ADDR + size
    requires segs == Segments(m, table, |segs|)
    ensures SegmentAt(PlaceAll(m, segs[..i], size), table, i) == segs[i]
    ensures Placeable(segs[i], size, |m|) && table + 32 * (i + 1) <= |m|
  {
    hide Segments, PlaceAll, Strings.Overwrite;
    SegmentIs(m, table, |segs|, i);
    PrefixPlaceable(segs, size, |m|, i);
    forall k: nat | table <= k < table + 32 * |segs| ensures PlaceAll(m, segs[..i], size)[k] == m[k] {
      ImageKept(m, segs[..i], size, k - KERNEL_IMAGE_ADDR);
    }
  }

  /** The image is complete: headers and table lie in it, and so do all segments; every target is clear
      of it. */
  ghost predicate ImageComplete(m: seq<u8>, size: nat) {
    && 52 <= size && KERNEL_IMAGE_ADDR + size <= |m|
    && TableAt(m) + 32 * Count(m) <= KERNEL_IMAGE_ADDR + size
    && AllPlaceable(Segments(m, TableAt(m), Count(m)), size, |m|)
  }

  /** Round i copies the segment the untouched image describes. */
  lemma RoundPlaces(m: seq<u8>, size: nat, i: nat)
    requires ImageComplete(m, size) && i < Count(m)
    ensures var table, segs := TableAt(m), Segments(m, TableAt(m), Count(m));
      && AllPlaceable(segs[..i], size, |m|) && AllPlaceable(segs[..i + 1], size, |m|)
      && var now := PlaceAll(m, segs[..i], size);
         && table + 32 * (i + 1) <= |m| && Reachable(now, SegmentAt(now, table, i))
         && CopyIn(now, SegmentAt(now, table, i)) == PlaceAll(m, segs[..i + 1], size)
  {
    hide PlaceAll, Segments, SegmentAt, AllPlaceable, Count, Strings.Ascending, Strings.Overwrite, Get32;
    var table, segs := TableAt(m), Segments(m, TableAt(m), Count(m));
    SegmentKept(m, segs, size, table, i);
    PlaceNext(m, segs, size, i);
    var now, s := PlaceAll(m, segs[..i], size), segs[i];
    Strings.AscendingIsTrue(now, s.paddr, KERNEL_IMAGE_ADDR + s.offset, s.filesz);
  }

  lemma SizeFits(segs: seq<Segment>, size: nat, memory: nat)
    requires AllPlaceable(segs, size, memory)
    ensures KERNEL_IMAGE_ADDR + size <= memory
  {
  }

  lemma CountKept(m: seq<u8>, size: nat, i: nat)
    requires ImageComplete(m, size) && i <= Count(m)
    ensures var segs := Segments(m, TableAt(m), Count(m));
      AllPlaceable(segs[..i], size, |m|) && Count(PlaceAll(m, segs[..i], size)) == Count(m)
  {
    hide PlaceAll, Segments, AllPlaceable, TableAt;
    var segs := Segments(m, TableAt(m), Count(m));
    PrefixPlaceable(segs, size, |m|, i);
    SizeFits(segs[..i], size, |m|);
    ImageKept(m, segs[..i], size, 44);
    ImageKept(m, segs[..i], size, 45);
  }

  /** The loop on a complete image is the ordered overlay of all its segments. */
  lemma {:induction false} LoopPlacesAll(m: seq<u8>, size: nat, i: nat)
    requires ImageComplete(m, size) && i <= Count(m)
    ensures var table, segs := TableAt(m), Segments(m, TableAt(m), Count(m));
      && AllPlaceable(segs[..i], size, |m|)
      && var now := PlaceAll(m, segs[..i], size);
         LoopInside(now, table, i) && LoopResult(now, table, i) == PlaceAll(m, segs, size)
    decreases Count(m) - i
  {
    hide PlaceAll, Segments, SegmentAt, AllPlaceable, Reachable, CopyIn, TableAt;
    var segs := Segments(m, TableAt(m), Count(m));
    CountKept(m, size, i);
    if i == Count(m) {
      assert segs[..i] == segs;
    } else {
      RoundPlaces(m, size, i);
      LoopPlacesAll(m, size, i + 1);
    }
  }

  /** So the whole second half of the loader, from the memory it finds, is that overlay. */
  lemma CompleteImageLoads(m: seq<u8>, size: nat)
    requires ImageComplete(m, size)
    ensures LoopInside(m, TableAt(m), 0)
    ensures LoopResult(m, TableAt(m), 0) == PlaceAll(m, Segments(m, TableAt(m), Count(m)), size)
  {
    hide Segments, LoopInside, LoopResult, TableAt;
    assert Segments(m, TableAt(m), Count(m))[..0] == [];
    LoopPlacesAll(m, size, 0);
  }

  // ----- an image that overwrites its own headers -----

  lemma SliceHeader(m: seq<u8>, a: nat)
    requires a + 32 <= |m|
    ensures HeaderAt(m, a) == HeaderAt(m[a..a + 32], 0)
  {
    var b := m[a..a + 32];
    assert b[4] == m[a + 4] && b[5] == m[a + 4 + 1] && b[6] == m[a + 4 + 2] && b[7] == m[a + 4 + 3];
    assert b[12] == m[a + 12] && b[13] == m[a + 12 + 1] && b[14] == m[a + 12 + 2] && b[15] == m[a + 12 + 3];
    assert b[16] == m[a + 16] && b[17] == m[a + 16 + 1] && b[18] == m[a + 16 + 2] && b[19] == m[a + 16 + 3];
  }

  lemma CopiedSlice(m: seq<u8>, d: nat, s: nat, n: nat, a: nat)
    requires d + n <= |m| && s + n <= |m| && d <= a && a + 32 <= d + n
    ensures Strings.Overwrite(m, d, m, s, n)[a..a + 32] == m[s + (a - d)..s + (a - d) + 32]
  {
    hide Strings.Overwrite;
    var r := Strings.Overwrite(m, d, m, s, n);
    var x, y := r[a..a + 32], m[s + (a - d)..s + (a - d) + 32];
    forall k | 0 <= k < 32 ensures x[k] == y[k] {
      assert x[k] == r[a + k] && y[k] == m[s + (a - d) + k];
    }
  }

  /** A program header that an earlier segment's target covers is read from the bytes copied there. */
  lemma HeaderReplaced(m: seq<u8>, table: nat, i: nat, j: nat)
    requires table + 32 * (i + 1) <= |m| && Reachable(m, SegmentAt(m, table, i))
    requires var s, a := SegmentAt(m, table, i), table + 32 * j;
      && s.paddr <= a && a + 32 <= s.paddr + s.filesz
      && (s.paddr <= KERNEL_IMAGE_ADDR + s.offset || KERNEL_IMAGE_ADDR + s.offset + s.filesz <= s.paddr)
    ensures var s, source := SegmentAt(m, table, i), KERNEL_IMAGE_ADDR + SegmentAt(m, table, i).offset
                + (table + 32 * j - SegmentAt(m, table, i).paddr);
      && table + 32 * (j + 1) <= |m| && source + 32 <= |m|
      && SegmentAt(CopyIn(m, s), table, j) == HeaderAt(m, source)
  {
    hide HeaderAt, Strings.Ascending, Strings.Overwrite;
    var s, a := SegmentAt(m, table, i), table + 32 * j;
    var from := KERNEL_IMAGE_ADDR + s.offset;
    Strings.AscendingIsTrue(m, s.paddr, from, s.filesz);
    CopiedSlice(m, s.paddr, from, s.filesz, a);
    SliceHeader(CopyIn(m, s), a);
    SliceHeader(m, from + (a - s.paddr));
  }

  /** A valid image with two program headers: segment 0 copies 32 bytes of the file over header 1, which was
      empty and becomes a segment of one byte. */
  function ExampleByte(i: nat): u8 {
    if i == 0 then 0x7f else if i == 1 then 'E' as int else if i == 2 then 'L' as int else if i == 3 then 'F' as int
    else if i == 16 then 2 else if i == 18 then 3 else if i == 20 then 1
    else if i == 28 then 52
    else if i == 44 then 2
    else if i == 56 then 200
    else if i == 64 then 84 else if i == 66 then 4
    else if i == 68 then 32
    else if i == 216 then 1
    else 0
  }

  function Example(): (m: seq<u8>)
    ensures |m| == KERNEL_IMAGE_ADDR + 256
    ensures forall i: nat :: i < 256 ==> m[KERNEL_IMAGE_ADDR + i] == ExampleByte(i)
    ensures m[0] == 0
  {
    seq(KERNEL_IMAGE_ADDR, _ => 0) + seq(256, i requires 0 <= i => ExampleByte(i))
  }

  lemma ExampleDword(o: nat)
    requires o + 4 <= 256
    ensures Get32(Example(), KERNEL_IMAGE_ADDR + o) ==
      ExampleByte(o) as int + 0x100 * (ExampleByte(o + 1) as int)
      + 0x1_0000 * (ExampleByte(o + 2) as int) + 0x100_0000 * (ExampleByte(o + 3) as int)
  {
    assert Example()[KERNEL_IMAGE_ADDR + (o + 1)] == ExampleByte(o + 1);
    assert Example()[KERNEL_IMAGE_ADDR + (o + 2)] == ExampleByte(o + 2);
    assert Example()[KERNEL_IMAGE_ADDR + (o + 3)] == ExampleByte(o + 3);
  }

  lemma ExampleValues()
    ensures ExampleByte(0) == 0x7f && ExampleByte(1) == 'E' as int
    ensures ExampleByte(2) == 'L' as int && ExampleByte(3) == 'F' as int
    ensures ExampleByte(16) == 2 && ExampleByte(17) == 0 && ExampleByte(18) == 3 && ExampleByte(19) == 0
    ensures ExampleByte(44) == 2 && ExampleByte(45) == 0
  {
  }

  lemma ExampleBytes()
    ensures Example()[KERNEL_IMAGE_ADDR] == 0x7f && Example()[KERNEL_IMAGE_ADDR + 1] == 'E' as int
    ensures Example()[KERNEL_IMAGE_ADDR + 2] == 'L' as int && Example()[KERNEL_IMAGE_ADDR + 3] == 'F' as int
    ensures Get16(Example(), KERNEL_IMAGE_ADDR + 16) == 2 && Get16(Example(), KERNEL_IMAGE_ADDR + 18) == 3
    ensures Count(Example()) == 2 && Example()[0] == 0
  {
    hide ExampleByte, Example;
    var m := Example();
    assert m[KERNEL_IMAGE_ADDR + 0] == ExampleByte(0) && m[KERNEL_IMAGE_ADDR + 1] == ExampleByte(1);
    assert m[KERNEL_IMAGE_ADDR + 2] == ExampleByte(2) && m[KERNEL_IMAGE_ADDR + 3] == ExampleByte(3);
    assert m[KERNEL_IMAGE_ADDR + 16] == ExampleByte(16) && m[KERNEL_IMAGE_ADDR + 17] == ExampleByte(17);
    assert m[KERNEL_IMAGE_ADDR + 18] == ExampleByte(18) && m[KERNEL_IMAGE_ADDR + 19] == ExampleByte(19);
    assert m[KERNEL_IMAGE_ADDR + 44] == ExampleByte(44) && m[KERNEL_IMAGE_ADDR + 45] == ExampleByte(45);
    ExampleValues();
  }

  lemma ExampleHeaders()
    ensures HeaderOk(Example()) && TableAt(Example()) == KERNEL_IMAGE_ADDR + 52
    ensures SegmentAt(Example(), KERNEL_IMAGE_ADDR + 52, 0) == Segment(200, KERNEL_IMAGE_ADDR + 84, 32)
    ensures SegmentAt(Example(), KERNEL_IMAGE_ADDR + 52, 1) == Segment(0, 0, 0)
    ensures HeaderAt(Example(), KERNEL_IMAGE_ADDR + 200) == Segment(0, 0, 1)
  {
    hide Get32, Get16, Example;
    ExampleBytes();
    ExampleDword(20);
    ExampleDword(28);
    ExampleDword(56);
    ExampleDword(64);
    ExampleDword(68);
    ExampleDword(88);
    ExampleDword(96);
    ExampleDword(100);
    ExampleDword(204);
    ExampleDword(212);
    ExampleDword(216);
  }

  lemma CopyElsewhere(m: seq<u8>, s: Segment, x: nat)
    requires Reachable(m, s) && x < |m| && !Covers(s, x)
    ensures CopyIn(m, s)[x] == m[x]
  {
    Strings.AscendingByte(m, s.paddr, KERNEL_IMAGE_ADDR + s.offset, s.filesz, x);
  }

  /** Copying the first byte of the image to address 0. */
  lemma OneByte(m: seq<u8>)
    requires |m| >= KERNEL_IMAGE_ADDR + 52
    ensures var r := CopyIn(m, Segment(0, 0, 1)); r[0] == m[KERNEL_IMAGE_ADDR] && Count(r) == Count(m)
  {
    Strings.AscendingByte(m, 0, KERNEL_IMAGE_ADDR, 1, 0);
    CopyElsewhere(m, Segment(0, 0, 1), KERNEL_IMAGE_ADDR + 44);
    CopyElsewhere(m, Segment(0, 0, 1), KERNEL_IMAGE_ADDR + 45);
  }

  /** The loop changes byte x although no program header of the untouched image covers it. */
  ghost predicate Strays(m: seq<u8>, x: nat)
    requires |m| >= KERNEL_IMAGE_ADDR + 52
  {
    var table := TableAt(m);
    && table + 32 * Count(m) <= |m| && x < |m|
    && (forall i: nat :: i < Count(m) ==> !Covers(SegmentAt(m, table, i), x))
    && LoopInside(m, table, 0) && LoopResult(m, table, 0)[x] != m[x]
  }

  /** On that image round 1 places the header copied over header 1, so the byte at physical address 0
      becomes the first byte of the image. */
  lemma ImageOverwritesHeaders()
    ensures HeaderOk(Example()) && Strays(Example(), 0)
  {
    hide HeaderAt, Strings.Ascending, Example, HeaderOk, TableAt;
    var m, table := Example(), KERNEL_IMAGE_ADDR + 52;
    ExampleBytes();
    ExampleHeaders();
    var m1 := CopyIn(m, SegmentAt(m, table, 0));
    HeaderReplaced(m, table, 0, 1);
    CopyElsewhere(m, SegmentAt(m, table, 0), KERNEL_IMAGE_ADDR);
    CopyElsewhere(m, SegmentAt(m, table, 0), KERNEL_IMAGE_ADDR + 44);
    CopyElsewhere(m, SegmentAt(m, table, 0), KERNEL_IMAGE_ADDR + 45);
    assert Count(m1) == 2 && SegmentAt(m1, table, 1) == Segment(0, 0, 1) && m1[KERNEL_IMAGE_ADDR] == 0x7f;
    var m2 := CopyIn(m1, Segment(0, 0, 1));
    OneByte(m1);
    assert LoopResult(m1, table, 1) == LoopResult(m2, table, 2) == m2;
  }

  // ----- the loader from end to end -----

  /** Both halves: find and load the image, then place its segments. */
  method LoadAndPlace(mem: array<u8>, disk: Disk, v: Volume, directory: array<u8>, entries: nat) returns (ok: bool)
    requires KERNEL_IMAGE_ADDR + 52 <= mem.Length < 0x1_0000_0000 && Sectors(disk, v) && mem != directory
    requires AllLoadable(mem[..], disk, v, directory[..], entries)
    requires var m := Loaded(mem[..], disk, v, directory[..], entries);
      HeaderOk(m) ==> LoopInside(m, TableAt(m), 0)
    modifies mem
    ensures var m := Loaded(old(mem[..]), disk, v, directory[..], entries);
      && (ok <==> HeaderOk(m))
      && mem[..] == if ok then LoopResult(m, TableAt(m), 0) else m
  {
    hide Loaded, HeaderOk, LoopInside, LoopResult, TableAt, AllLoadable, Sectors;
    LoadKernel(mem, disk, v, directory, entries);
    ok := LoadElf(mem);
  }

  /** No two of the image's segments overlap in memory. */
  ghost predicate SegmentsApart(m: seq<u8>, size: nat)
    requires ImageComplete(m, size)
  {
    var segs := Segments(m, TableAt(m), Count(m));
    forall a, b :: 0 <= a < b < |segs| ==> Separate(segs[a], segs[b])
  }

  lemma SegmentInImage(m: seq<u8>, size: nat, k: nat)
    requires ImageComplete(m, size) && k < Count(m)
    ensures Placeable(Segments(m, TableAt(m), Count(m))[k], size, |m|)
  {
    hide Segments, TableAt, Count, Placeable;
  }

  /** Byte i of segment k, in terms of the memory the loop started from. */
  lemma SegmentLoaded(m: seq<u8>, size: nat, k: nat, i: nat)
    requires ImageComplete(m, size) && SegmentsApart(m, size) && k < Count(m)
    requires i < Segments(m, TableAt(m), Count(m))[k].filesz
    ensures LoopInside(m, TableAt(m), 0)
    ensures var s := Segments(m, TableAt(m), Count(m))[k];
      && s.paddr + i < |m| && s.offset + i < size && KERNEL_IMAGE_ADDR + size <= |m|
      && LoopResult(m, TableAt(m), 0)[s.paddr + i] == m[KERNEL_IMAGE_ADDR + (s.offset + i)]
  {
    hide Segments, TableAt, Count, PlaceAll, LoopInside, LoopResult, Separate;
    CompleteImageLoads(m, size);
    SegmentInImage(m, size, k);
    SegmentsHold(m, Segments(m, TableAt(m), Count(m)), size, k, i);
  }

  /** From disk to physical addresses: with one kernel in the directory, a complete image and targets
      that do not overlap, byte i of segment k is the byte at the segment's file offset plus i in the
      chain's clusters laid end to end. */
  lemma KernelInPlace(m: seq<u8>, disk: Disk, v: Volume, directory: seq<u8>, n: nat, entry: nat, chain: seq<u16>,
                      k: nat, i: nat)
    requires entry < n && OnlyKernel(directory, n, entry) && AllLoadable(m, disk, v, directory, n)
    requires |m| >= KERNEL_IMAGE_ADDR && IsChain(m, FirstCluster(directory, entry), chain) && OnDisk(disk, v, chain)
    requires var m1, image := Loaded(m, disk, v, directory, n), Image(disk, v, chain);
      && ImageComplete(m1, |image|) && SegmentsApart(m1, |image|)
      && k < Count(m1) && i < Segments(m1, TableAt(m1), Count(m1))[k].filesz
    ensures var m1, image := Loaded(m, disk, v, directory, n), Image(disk, v, chain);
      && LoopInside(m1, TableAt(m1), 0)
      && var s := Segments(m1, TableAt(m1), Count(m1))[k];
         && s.paddr + i < |m1| && s.offset + i < |image|
         && LoopResult(m1, TableAt(m1), 0)[s.paddr + i] == image[s.offset + i]
  {
    hide Segments, TableAt, Count, LoopInside, LoopResult, SegmentsApart, ImageComplete;
    hide AllLoadable, OnlyKernel, Loaded, EntryImage, IsChain, OnDisk, Image;
    OneKernel(m, disk, v, directory, n, entry);
    assert EntryImage(m, disk, v, directory, n, entry) == Image(disk, v, chain);
    SegmentLoaded(Loaded(m, disk, v, directory, n), |Image(disk, v, chain)|, k, i);
  }

  /** The last link: byte i of segment k is byte o of the disk sector that holds that byte of the file. */
  lemma SegmentFromDisk(m: seq<u8>, disk: Disk, v: Volume, directory: seq<u8>, n: nat, entry: nat, chain: seq<u16>,
                        k: nat, i: nat, j: nat, s: nat, o: nat, sector: nat)
    requires KernelOnDisk(m, disk, v, directory, n, entry, chain) && AllLoadable(m, disk, v, directory, n)
    requires var m1, size := Loaded(m, disk, v, directory, n), |chain| * (v.sectorsPerCluster * v.bytesPerSector);
      && ImageComplete(m1, size) && SegmentsApart(m1, size) && k < Count(m1)
      && i < Segments(m1, TableAt(m1), Count(m1))[k].filesz
      && Segments(m1, TableAt(m1), Count(m1))[k].offset + i == (j * v.sectorsPerCluster + s) * v.bytesPerSector + o
    requires j < |chain| && s < v.sectorsPerCluster && o < v.bytesPerSector
    requires sector == v.firstData + (chain[j] - 2) * v.sectorsPerCluster + s
    ensures var m1 := Loaded(m, disk, v, directory, n);
      && LoopInside(m1, TableAt(m1), 0)
      && var x := Segments(m1, TableAt(m1), Count(m1))[k].paddr + i;
         && x < |m1| && sector < |disk| && o < |disk[sector]|
         && LoopResult(m1, TableAt(m1), 0)[x] == disk[sector][o]
  {
    hide Segments, TableAt, Count, LoopInside, LoopResult, SegmentsApart, ImageComplete, KernelOnDisk;
    hide AllLoadable, Loaded, IsChain, OnDisk, Image;
    var m1, size := Loaded(m, disk, v, directory, n), |chain| * (v.sectorsPerCluster * v.bytesPerSector);
    var at := (j * v.sectorsPerCluster + s) * v.bytesPerSector + o;
    KernelFromDisk(m, disk, v, directory, n, entry, chain, j, s, o, at, sector);
    SegmentLoaded(m1, size, k, i);
  }
}
