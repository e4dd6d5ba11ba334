/** The physical frame allocator: a bitmap that stands for the set of owned frames. */
module Frames {
  import opened Machine

  const FRAME_BITMAP_SIZE: nat := 0x1_0000
  const FRAMES: nat := 8 * FRAME_BITMAP_SIZE

  /** The byte with only bit k set. */
  function Mask(k: nat): bv8
    requires k < 8
  {
    (1 as bv8) << k
  }

  predicate Has(b: bv8, k: nat)
    requires k < 8
  {
    b & Mask(k) != 0
  }

  lemma MaskSets(b: bv8, j: nat, k: nat)
    requires j < 8 && k < 8
    ensures Has(b | Mask(j), k) <==> (j == k || Has(b, k))
  {
  }

  lemma MaskClears(b: bv8, j: nat, k: nat)
    requires j < 8 && k < 8
    ensures Has(b & !Mask(j), k) <==> (j != k && Has(b, k))
  {
  }

  predicate Bit(bitmap: seq<bv8>, i: nat)
    requires |bitmap| == FRAME_BITMAP_SIZE && i < FRAMES
  {
    Has(bitmap[i / 8], i % 8)
  }

  ghost function OwnedIn(bitmap: seq<bv8>): set<nat>
    requires |bitmap| == FRAME_BITMAP_SIZE
  {
    set i: nat | i < FRAMES && Bit(bitmap, i)
  }

  lemma SetBitAt(bitmap: seq<bv8>, i: nat, j: nat)
    requires |bitmap| == FRAME_BITMAP_SIZE && i < FRAMES && j < FRAMES
    ensures Bit(bitmap[i / 8 := bitmap[i / 8] | Mask(i % 8)], j) <==> (Bit(bitmap, j) || j == i)
  {
    hide Mask, Has;
    MaskSets(bitmap[i / 8], i % 8, j % 8);
  }

  lemma SetBit(bitmap: seq<bv8>, i: nat)
    requires |bitmap| == FRAME_BITMAP_SIZE && i < FRAMES
    ensures OwnedIn(bitmap[i / 8 := bitmap[i / 8] | Mask(i % 8)]) == OwnedIn(bitmap) + {i}
  {
    hide Mask, Bit;
    forall j: nat | j < FRAMES
      ensures Bit(bitmap[i / 8 := bitmap[i / 8] | Mask(i % 8)], j) <==> (Bit(bitmap, j) || j == i)
    {
      SetBitAt(bitmap, i, j);
    }
  }

  lemma ClearBitAt(bitmap: seq<bv8>, i: nat, j: nat)
    requires |bitmap| == FRAME_BITMAP_SIZE && i < FRAMES && j < FRAMES
    ensures Bit(bitmap[i / 8 := bitmap[i / 8] & !Mask(i % 8)], j) <==> (Bit(bitmap, j) && j != i)
  {
    hide Mask, Has;
    MaskClears(bitmap[i / 8], i % 8, j % 8);
  }

  lemma ClearBit(bitmap: seq<bv8>, i: nat)
    requires |bitmap| == FRAME_BITMAP_SIZE && i < FRAMES
    ensures OwnedIn(bitmap[i / 8 := bitmap[i / 8] & !Mask(i % 8)]) == OwnedIn(bitmap) - {i}
  {
    hide Mask, Bit;
    forall j: nat | j < FRAMES
      ensures Bit(bitmap[i / 8 := bitmap[i / 8] & !Mask(i % 8)], j) <==> (Bit(bitmap, j) && j != i)
    {
      ClearBitAt(bitmap, i, j);
    }
  }

  lemma LowestBit(b: bv8, k: nat)
    requires k < 8
    ensures Has(b, k) <==> (b >> k) & 1 == 1
  {
  }

  /** Frame i is owned when bit i % 8, counted from the lowest, of byte i / 8 is set; there are 2^19 frames. */
  lemma OwnedBit(bitmap: seq<bv8>, i: nat)
    requires |bitmap| == 0x1_0000
    ensures i in OwnedIn(bitmap) <==> i < 0x8_0000 && (bitmap[i / 8] >> (i % 8)) & 1 == 1
  {
    if i < 0x8_0000 {
      LowestBit(bitmap[i / 8], i % 8);
    }
  }

  /** A frame nobody owns. */
  ghost predicate IsFree(owned: set<nat>, f: nat) {
    f < FRAMES && f !in owned
  }

  /** f is the lowest frame nobody owns. */
  ghost predicate IsLowestFree(owned: set<nat>, f: nat) {
    IsFree(owned, f) && forall g: nat :: g < f ==> g in owned
  }

  class FrameAllocator {
    const bitmap: array<bv8>

    ghost predicate Valid() {
      bitmap.Length == FRAME_BITMAP_SIZE
    }

    ghost function Owned(): set<nat>
      requires Valid()
      reads bitmap
    {
      OwnedIn(bitmap[..])
    }

    /** The bitmap lies in zeroed storage before init. */
    constructor ()
      ensures Valid() && fresh(bitmap) && Owned() == {}
    {
      bitmap := new bv8[FRAME_BITMAP_SIZE](_ => 0);
    }

    method MarkAsOwned(i: nat)
      requires Valid() && i < FRAMES
      modifies bitmap
      ensures Owned() == old(Owned()) + {i}
    {
      SetBit(bitmap[..], i);
      bitmap[i / 8] := bitmap[i / 8] | Mask(i % 8);
    }

    method MarkAsFree(i: nat)
      requires Valid() && i < FRAMES
      modifies bitmap
      ensures Owned() == old(Owned()) - {i}
    {
      ClearBit(bitmap[..], i);
      bitmap[i / 8] := bitmap[i / 8] & !Mask(i % 8);
    }

    method Get(i: nat) returns (owned: bool)
      requires Valid() && i < FRAMES
      ensures owned <==> i in Owned()
    {
      owned := Has(bitmap[i / 8], i % 8);
    }

    /** Reserve everything below the end of the kernel image and 64 KiB beyond it. */
    method Init(kernelEnd: u32)
      requires Valid() && kernelEnd + 0x1_0000 <= 4096 * FRAMES
      modifies bitmap
      ensures forall f: nat :: f in Owned() <==> f in old(Owned()) || f * 4096 < kernelEnd + 0x1_0000
    {
      var i := 0;
      while i * 4096 < kernelEnd + 0x1_0000
        invariant 0 <= i && (i > 0 ==> (i - 1) * 4096 < kernelEnd + 0x1_0000)
        invariant forall f: nat :: f in Owned() <==> f in old(Owned()) || f < i
        decreases FRAMES - i
      {
        MarkAsOwned(i);
        i := i + 1;
      }
    }

    /** The lowest free frame becomes owned; -1 exactly when every frame is owned. */
    method Alloc() returns (p: u32)
      requires Valid()
      modifies bitmap
      ensures if exists f :: IsFree(old(Owned()), f)
              then IsLowestFree(old(Owned()), p / 4096) && p % 4096 == 0 && Owned() == old(Owned()) + {p / 4096}
              else p == 0xffff_ffff && Owned() == old(Owned())
      ensures if forall f: nat :: f < 0x8_0000 ==> f in old(Owned()) then p == 0xffff_ffff
              else p < 0x8000_0000 && p / 4096 !in old(Owned()) && forall g: nat :: g < p / 4096 ==> g in old(Owned())
    {
      var i := 0;
      while i < 8 * FRAME_BITMAP_SIZE
        invariant 0 <= i <= FRAMES
        invariant forall g: nat :: g < i ==> g in Owned()
        invariant Owned() == old(Owned())
      {
        var owned := Get(i);
        if !owned {
          MarkAsOwned(i);
          assert IsFree(old(Owned()), i);
          return i * 4096;
        }
        i := i + 1;
      }
      p := 0xffff_ffff;
    }

    method Free(p: u32)
      requires Valid() && p / 4096 < FRAMES
      modifies bitmap
      ensures Owned() == old(Owned()) - {p / 4096}
    {
      MarkAsFree(p / 4096);
    }
  }
}
