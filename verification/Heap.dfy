/** The kernel heap in byte memory: block headers stored in front of their payloads. */
module Heap {
  import opened Machine
  import opened HeapBlocks

  /** heap_block_header_t: is_allocated at offset 0, size at 4, next at 8, prev at 12. */
  datatype Header = Header(flag: u8, size: u32, next: u32, prev: u32)

  function HeaderIn(m: seq<u8>, a: nat): Header
    requires a + 16 <= |m|
  {
    Header(m[a], Get32(m, a + 4), Get32(m, a + 8), Get32(m, a + 12))
  }

  /** The address of block i, or the null pointer past either end. */
  function AddrAt(bs: seq<Block>, i: int): nat {
    if 0 <= i < |bs| then bs[i].addr else 0
  }

  /** Memory holds the header of block i: its own fields and the links to its neighbours. */
  ghost predicate LinkIn(m: seq<u8>, bs: seq<Block>, i: nat)
    requires i < |bs|
  {
    && bs[i].addr + 16 <= |m|
    && HeaderIn(m, bs[i].addr).flag == (if bs[i].live then 1 else 0)
    && HeaderIn(m, bs[i].addr).size == bs[i].size
    && HeaderIn(m, bs[i].addr).next == AddrAt(bs, i + 1)
    && HeaderIn(m, bs[i].addr).prev == AddrAt(bs, i - 1)
  }

  ghost predicate Links(m: seq<u8>, bs: seq<Block>) {
    forall i {:trigger LinkIn(m, bs, i)} :: 0 <= i < |bs| ==> LinkIn(m, bs, i)
  }

  /** Addresses have 32 bits, the range starts above the null pointer, and its size fits a size field; it
      may reach past the end of memory. */
  ghost predicate Placed(m: seq<u8>, lo: nat, hi: nat) {
    0 < lo && |m| < 0x1_0000_0000 && hi - lo < 0x1_0000_0010
  }

  /** Memory m stores the blocks bs in [lo, hi), perhaps with neighbours still to be merged. */
  ghost predicate Stored(m: seq<u8>, bs: seq<Block>, lo: nat, hi: nat) {
    Placed(m, lo, hi) && Tiles(bs, lo, hi) && Links(m, bs)
  }

  /** Every live block lies in memory, whatever the last free block does. */
  ghost predicate LiveInside(m: seq<u8>, bs: seq<Block>) {
    forall b :: b in Live(bs) ==> b.End() <= |m|
  }

  /** Memory m holds a well-formed heap with blocks bs in [lo, hi). */
  ghost predicate Holds(m: seq<u8>, bs: seq<Block>, lo: nat, hi: nat) {
    Stored(m, bs, lo, hi) && WellFormed(bs, lo, hi) && LiveInside(m, bs)
  }

  /** What kmalloc(n) is about to use of the block it finds lies in memory: the n bytes and the header
      behind them, or the whole block. Always so when the range does. */
  ghost predicate RoomFor(size: nat, bs: seq<Block>, n: nat) {
    CanMalloc(bs, n) ==>
      var b := bs[FirstFit(bs, n)];
      (if b.size > n + 16 then b.addr + 16 + n + 16 else b.End()) <= size
  }

  lemma RangeHasRoom(bs: seq<Block>, lo: nat, hi: nat, size: nat, n: nat)
    requires Tiles(bs, lo, hi) && hi <= size
    ensures RoomFor(size, bs, n)
  {
    AllInRange(bs, lo, hi);
  }

  /** Only headers and payloads of free blocks may differ: everything outside the heap and every
      payload byte of a live block is the same. */
  ghost predicate PayloadsKept(m: seq<u8>, m': seq<u8>, bs: seq<Block>, lo: nat, hi: nat) {
    && |m'| == |m|
    && (forall x :: 0 <= x < |m| && !(lo <= x < hi) ==> m'[x] == m[x])
    && (forall b, x :: b in Live(bs) && b.Payload() <= x < b.End() && x < |m| ==> m'[x] == m[x])
  }

  // ----- writing headers -----

  predicate Apart(a: nat, b: nat) {
    a + 16 <= b || b + 16 <= a
  }

  /** The header at a became h and no byte outside it changed. */
  ghost predicate Wrote(m: seq<u8>, m': seq<u8>, a: nat, h: Header) {
    && a + 16 <= |m| && |m'| == |m|
    && HeaderIn(m', a) == h
    && forall x :: 0 <= x < |m| && !(a <= x < a + 16) ==> m'[x] == m[x]
  }

  lemma HeaderKept(m: seq<u8>, m': seq<u8>, a: nat, h: Header, b: nat)
    requires Wrote(m, m', a, h) && b + 16 <= |m| && Apart(a, b)
    ensures HeaderIn(m', b) == HeaderIn(m, b)
  {
  }

  method SetFlag(mem: array<u8>, a: nat, v: u8)
    requires a + 16 <= mem.Length
    modifies mem
    ensures Wrote(old(mem[..]), mem[..], a, HeaderIn(old(mem[..]), a).(flag := v))
  {
    mem[a] := v;
  }

  method SetSize(mem: array<u8>, a: nat, v: u32)
    requires a + 16 <= mem.Length
    modifies mem
    ensures Wrote(old(mem[..]), mem[..], a, HeaderIn(old(mem[..]), a).(size := v))
  {
    Store32(mem, a + 4, v);
  }

  method SetNext(mem: array<u8>, a: nat, v: u32)
    requires a + 16 <= mem.Length
    modifies mem
    ensures Wrote(old(mem[..]), mem[..], a, HeaderIn(old(mem[..]), a).(next := v))
  {
    Store32(mem, a + 8, v);
  }

  method SetPrev(mem: array<u8>, a: nat, v: u32)
    requires a + 16 <= mem.Length
    modifies mem
    ensures Wrote(old(mem[..]), mem[..], a, HeaderIn(old(mem[..]), a).(prev := v))
  {
    Store32(mem, a + 12, v);
  }

  /** Read a block header. */
  method GetHeader(mem: array<u8>, a: nat) returns (h: Header)
    requires a + 16 <= mem.Length
    ensures h == HeaderIn(mem[..], a)
  {
    var size := Load32(mem, a + 4);
    var next := Load32(mem, a + 8);
    var prev := Load32(mem, a + 12);
    h := Header(mem[a], size, next, prev);
  }

  /** The four fields of a free block's header. */
  method PutFree(mem: array<u8>, a: nat, size: u32, next: u32, prev: u32) returns (h: Header)
    requires a + 16 <= mem.Length
    modifies mem
    ensures h == Header(0, size, next, prev)
    ensures Wrote(old(mem[..]), mem[..], a, h)
  {
    SetFlag(mem, a, 0);
    SetPrev(mem, a, prev);
    SetNext(mem, a, next);
    SetSize(mem, a, size);
    h := Header(0, size, next, prev);
  }

  lemma WroteTwice(m: seq<u8>, m1: seq<u8>, m2: seq<u8>, a: nat, h1: Header, h2: Header)
    requires Wrote(m, m1, a, h1) && Wrote(m1, m2, a, h2)
    ensures Wrote(m, m2, a, h2)
  {
  }

  // ----- split -----

  /** Where block i of the split list, and its neighbours, stood in the original list. */
  lemma SplitShape(bs: seq<Block>, k: nat, n: nat, i: nat)
    requires k < |bs| && bs[k].size > n + 16 && i <= |bs|
    ensures var cs, tmp := SplitAt(bs, k, n), bs[k].addr + 16 + n;
      && |cs| == |bs| + 1
      && (i < k ==> cs[i] == bs[i] && AddrAt(cs, i + 1) == AddrAt(bs, i + 1))
      && (i == k ==> cs[i] == Block(bs[k].addr, n, bs[k].live) && AddrAt(cs, i + 1) == tmp)
      && (i == k + 1 ==> cs[i] == Block(tmp, bs[k].size - n - 16, false) && AddrAt(cs, i + 1) == AddrAt(bs, i))
      && (i > k + 1 ==> cs[i] == bs[i - 1] && AddrAt(cs, i + 1) == AddrAt(bs, i))
      && AddrAt(cs, i - 1) == (if i <= k then AddrAt(bs, i - 1) else if i == k + 1 then bs[k].addr
                               else if i == k + 2 then tmp else AddrAt(bs, i - 2))
  {
  }

  /** The successor's prev field was redirected to a; nothing happened when there is no successor. */
  ghost predicate Redirected(m: seq<u8>, m': seq<u8>, q: nat, a: u32) {
    if q == 0 then m' == m else q + 16 <= |m| && Wrote(m, m', q, HeaderIn(m, q).(prev := a))
  }

  /** The block at q, if there is one, gets a new predecessor. */
  method Redirect(mem: array<u8>, q: u32, a: u32)
    requires q + 16 <= mem.Length
    modifies mem
    ensures Redirected(old(mem[..]), mem[..], q, a)
  {
    if q != 0 {
      SetPrev(mem, q, a);
    }
  }

  /** Block k was cut down to n bytes, a free block made of the rest was linked in behind it, and nothing
      else changed. */
  ghost predicate Divided(m: seq<u8>, m': seq<u8>, bs: seq<Block>, k: nat, n: nat)
    requires k < |bs| && bs[k].size > n + 16
  {
    var a, tmp, q := bs[k].addr, bs[k].addr + 16 + n, AddrAt(bs, k + 1);
    && |m'| == |m| < 0x1_0000_0000 && tmp + 16 <= |m| && q + 16 <= |m| && bs[k].size < 0x1_0000_0000
    && HeaderIn(m', a) == HeaderIn(m, a).(size := n, next := tmp)
    && HeaderIn(m', tmp) == Header(0, bs[k].size - n - 16, q, a)
    && (q != 0 ==> HeaderIn(m', q) == HeaderIn(m, q).(prev := tmp))
    && forall x :: 0 <= x < |m| && !(a <= x < a + 16) && !(tmp <= x < tmp + 16) && !(q != 0 && q <= x < q + 16) ==>
         m'[x] == m[x]
  }

  lemma HeaderUndivided(m: seq<u8>, m': seq<u8>, bs: seq<Block>, k: nat, n: nat, b: nat)
    requires k < |bs| && bs[k].size > n + 16 && Divided(m, m', bs, k, n) && b + 16 <= |m|
    requires Apart(bs[k].addr, b) && Apart(bs[k].addr + 16 + n, b)
    requires AddrAt(bs, k + 1) == 0 || Apart(AddrAt(bs, k + 1), b)
    ensures HeaderIn(m', b) == HeaderIn(m, b)
  {
  }

  lemma SplitLink(m: seq<u8>, m': seq<u8>, bs: seq<Block>, lo: nat, hi: nat, k: nat, n: nat, i: nat)
    requires Stored(m, bs, lo, hi)
    requires k < |bs| && bs[k].size > n + 16 && i <= |bs| && Divided(m, m', bs, k, n)
    ensures i < |SplitAt(bs, k, n)| && LinkIn(m', SplitAt(bs, k, n), i)
  {
    hide HeaderIn, Tiles, SplitAt;
    AllInRange(bs, lo, hi);
    SplitShape(bs, k, n, i);
    assert LinkIn(m, bs, if i <= k then i else i - 1);
    if i < k {
      Ordered(bs, lo, hi, i, k);
      if k + 1 < |bs| {
        Ordered(bs, lo, hi, i, k + 1);
      }
      HeaderUndivided(m, m', bs, k, n, bs[i].addr);
    } else if i > k + 2 {
      Ordered(bs, lo, hi, k, i - 1);
      Ordered(bs, lo, hi, k + 1, i - 1);
      HeaderUndivided(m, m', bs, k, n, bs[i - 1].addr);
    }
  }

  /** The writes of the split branch, in order, divide the block. */
  lemma SplitDivides(m: seq<u8>, m1: seq<u8>, m2: seq<u8>, m3: seq<u8>, m4: seq<u8>, bs: seq<Block>, lo: nat, hi: nat,
                     k: nat, size: u32, tmp: u32, rest: Header)
    requires Stored(m, bs, lo, hi)
    requires k < |bs| && bs[k].size > size + 16 && tmp == bs[k].addr + 16 + size && bs[k].size < 0x1_0000_0000
    requires rest.flag == 0 && rest.size == bs[k].size - size - 16
    requires rest.next == AddrAt(bs, k + 1) && rest.prev == bs[k].addr && Wrote(m, m1, tmp, rest)
    requires Redirected(m1, m2, AddrAt(bs, k + 1), tmp)
    requires bs[k].addr + 16 <= |m2| && Wrote(m2, m3, bs[k].addr, HeaderIn(m2, bs[k].addr).(next := tmp))
    requires Wrote(m3, m4, bs[k].addr, HeaderIn(m3, bs[k].addr).(size := size))
    ensures Divided(m, m4, bs, k, size)
  {
    hide HeaderIn, Tiles;
    var a, q := bs[k].addr, AddrAt(bs, k + 1);
    AllInRange(bs, lo, hi);
    assert k + 1 < |bs| ==> LinkIn(m, bs, k + 1);
    var h := HeaderIn(m2, a).(next := tmp, size := size);
    WroteTwice(m2, m3, m4, a, HeaderIn(m2, a).(next := tmp), h);
    HeaderKept(m, m1, tmp, rest, a);
    HeaderKept(m2, m4, a, h, tmp);
    if q != 0 {
      Ordered(bs, lo, hi, k, k + 1);
      HeaderKept(m1, m2, q, HeaderIn(m1, q).(prev := tmp), a);
      HeaderKept(m1, m2, q, HeaderIn(m1, q).(prev := tmp), tmp);
      HeaderKept(m, m1, tmp, rest, q);
      HeaderKept(m2, m4, a, h, q);
    }
  }

  /** No sum of the split branch wraps, and the remainder's header lies in memory. */
  lemma SplitFits(m: seq<u8>, bs: seq<Block>, lo: nat, hi: nat, k: nat, size: u32)
    requires Stored(m, bs, lo, hi) && k < |bs| && bs[k].size > size + 16 && bs[k].addr + 16 + size + 16 <= |m|
    ensures bs[k].addr + 16 <= |m| && bs[k].addr < 0x1_0000_0000 && HeaderIn(m, bs[k].addr).size == bs[k].size
    ensures Add32(Add32(bs[k].addr, 16), size) == bs[k].addr + 16 + size <= |m| - 16
    ensures Sub32(Sub32(HeaderIn(m, bs[k].addr).size, size), 16) == bs[k].size - size - 16
    ensures HeaderIn(m, bs[k].addr).next == AddrAt(bs, k + 1) && HeaderIn(m, bs[k].addr).next + 16 <= |m|
  {
    hide Tiles, Coalesced, HeaderIn;
    AllInRange(bs, lo, hi);
    assert LinkIn(m, bs, k);
    assert k + 1 < |bs| ==> LinkIn(m, bs, k + 1);
  }

  // ----- coalescing -----

  lemma MergeShape(bs: seq<Block>, j: nat, i: nat)
    requires j + 1 < |bs| && i < |bs| - 1
    ensures var cs := Merge(bs, j);
      && |cs| == |bs| - 1
      && cs[i] == (if i < j then bs[i]
                   else if i == j then Block(bs[j].addr, bs[j].size + bs[j + 1].size + 16, bs[j].live)
                   else bs[i + 1])
      && AddrAt(cs, i + 1) == (if i < j then AddrAt(bs, i + 1) else AddrAt(bs, i + 2))
      && AddrAt(cs, i - 1) == (if i <= j + 1 then AddrAt(bs, i - 1) else AddrAt(bs, i))
  {
  }

  /** Block j took over its successor's bytes and link; the block after that points back to j. */
  ghost predicate Absorbed(m: seq<u8>, m': seq<u8>, bs: seq<Block>, j: nat)
    requires j + 1 < |bs|
  {
    var a, q := bs[j].addr, AddrAt(bs, j + 2);
    && |m'| == |m| && a + 16 <= |m| && q + 16 <= |m|
    && HeaderIn(m', a).flag == HeaderIn(m, a).flag
    && HeaderIn(m', a).size == bs[j].size + bs[j + 1].size + 16
    && HeaderIn(m', a).next == q
    && HeaderIn(m', a).prev == HeaderIn(m, a).prev
    && (q != 0 ==> 0 <= a < 0x1_0000_0000 && HeaderIn(m', q) == HeaderIn(m, q).(prev := a))
    && forall x :: 0 <= x < |m| && !(a <= x < a + 16) && !(q != 0 && q <= x < q + 16) ==> m'[x] == m[x]
  }

  lemma HeaderSpared(m: seq<u8>, m': seq<u8>, bs: seq<Block>, j: nat, b: nat)
    requires j + 1 < |bs| && Absorbed(m, m', bs, j) && b + 16 <= |m|
    requires Apart(bs[j].addr, b) && (AddrAt(bs, j + 2) == 0 || Apart(AddrAt(bs, j + 2), b))
    ensures HeaderIn(m', b) == HeaderIn(m, b)
  {
  }

  lemma MergeLink(m: seq<u8>, m': seq<u8>, bs: seq<Block>, lo: nat, hi: nat, j: nat, i: nat)
    requires Stored(m, bs, lo, hi)
    requires j + 1 < |bs| && i < |bs| - 1 && Absorbed(m, m', bs, j)
    ensures i < |Merge(bs, j)| && LinkIn(m', Merge(bs, j), i)
  {
    hide Tiles, Merge, HeaderIn;
    AllInRange(bs, lo, hi);
    MergeShape(bs, j, i);
    assert LinkIn(m, bs, if i <= j then i else i + 1);
    if i < j {
      Ordered(bs, lo, hi, i, j);
      if j + 2 < |bs| {
        Ordered(bs, lo, hi, i, j + 2);
      }
      HeaderSpared(m, m', bs, j, bs[i].addr);
    } else if i > j + 1 {
      Ordered(bs, lo, hi, j, i + 1);
      Ordered(bs, lo, hi, j + 2, i + 1);
      HeaderSpared(m, m', bs, j, bs[i + 1].addr);
    }
  }

  // ----- which bytes a header write touches -----

  /** The 16 bytes at a are the header of some block, or lie inside a free block. */
  ghost predicate Available(bs: seq<Block>, a: nat) {
    exists i :: 0 <= i < |bs| && bs[i].addr <= a && (a == bs[i].addr || (!bs[i].live && a + 16 <= bs[i].End()))
  }

  lemma WriteKeepsPayloads(m: seq<u8>, m': seq<u8>, a: nat, h: Header, bs: seq<Block>, lo: nat, hi: nat)
    requires Wrote(m, m', a, h) && Tiles(bs, lo, hi) && Available(bs, a)
    ensures PayloadsKept(m, m', bs, lo, hi)
  {
    hide HeaderIn, Tiles;
    var i :| 0 <= i < |bs| && bs[i].addr <= a && (a == bs[i].addr || (!bs[i].live && a + 16 <= bs[i].End()));
    InRange(bs, lo, hi, i);
    forall b | b in Live(bs) ensures b.End() <= a || a + 16 <= b.Payload() {
      PayloadsSeparate(bs, lo, hi, b, bs[i]);
    }
  }

  lemma KeptTwice(m: seq<u8>, m1: seq<u8>, m2: seq<u8>, bs: seq<Block>, lo: nat, hi: nat)
    requires PayloadsKept(m, m1, bs, lo, hi) && PayloadsKept(m1, m2, bs, lo, hi)
    ensures PayloadsKept(m, m2, bs, lo, hi)
  {
  }

  lemma DivideKeepsPayloads(m: seq<u8>, m': seq<u8>, bs: seq<Block>, lo: nat, hi: nat, k: nat, n: nat)
    requires Stored(m, bs, lo, hi)
    requires k < |bs| && !bs[k].live && bs[k].size > n + 16 && Divided(m, m', bs, k, n)
    ensures PayloadsKept(m, m', bs, lo, hi)
  {
    hide Tiles, HeaderIn, Links;
    InRange(bs, lo, hi, k);
    if k + 1 < |bs| {
      InRange(bs, lo, hi, k + 1);
    }
    forall b | b in Live(bs) ensures b.End() <= bs[k].addr || bs[k].End() <= b.addr {
      PayloadsSeparate(bs, lo, hi, b, bs[k]);
    }
    if k + 1 < |bs| {
      forall b | b in Live(bs) ensures b.End() <= bs[k + 1].addr || bs[k + 1].addr + 16 <= b.Payload() {
        PayloadsSeparate(bs, lo, hi, b, bs[k + 1]);
      }
    }
  }

  lemma DivideStored(m: seq<u8>, m': seq<u8>, bs: seq<Block>, lo: nat, hi: nat, k: nat, n: nat)
    requires Stored(m, bs, lo, hi)
    requires k < |bs| && !bs[k].live && bs[k].size > n + 16 && Divided(m, m', bs, k, n)
    ensures Stored(m', SplitAt(bs, k, n), lo, hi)
    ensures PayloadsKept(m, m', bs, lo, hi)
  {
    SplitKeepsTiles(bs, lo, hi, k, n);
    assert |m'| == |m|;
    forall i | 0 <= i < |SplitAt(bs, k, n)| ensures LinkIn(m', SplitAt(bs, k, n), i) {
      SplitLink(m, m', bs, lo, hi, k, n, i);
    }
    DivideKeepsPayloads(m, m', bs, lo, hi, k, n);
  }

  lemma FlagTiles(bs: seq<Block>, lo: nat, hi: nat, k: nat, live: bool)
    requires Tiles(bs, lo, hi) && k < |bs|
    ensures Tiles(bs[k := Block(bs[k].addr, bs[k].size, live)], lo, hi)
  {
  }

  lemma LinkOf(m: seq<u8>, bs: seq<Block>, i: nat)
    requires Links(m, bs) && i < |bs|
    ensures LinkIn(m, bs, i)
  {
  }

  lemma FlagLink(m: seq<u8>, m': seq<u8>, bs: seq<Block>, lo: nat, hi: nat, k: nat, live: bool, i: nat)
    requires Stored(m, bs, lo, hi) && k < |bs| && bs[k].addr + 16 <= |m| && i < |bs|
    requires Wrote(m, m', bs[k].addr, HeaderIn(m, bs[k].addr).(flag := if live then 1 else 0))
    ensures LinkIn(m', bs[k := Block(bs[k].addr, bs[k].size, live)], i)
  {
    hide Tiles, HeaderIn, Links;
    var h := HeaderIn(m, bs[k].addr).(flag := if live then 1 else 0);
    assert LinkIn(m, bs, i) by {
      LinkOf(m, bs, i);
    }
    if i < k {
      Ordered(bs, lo, hi, i, k);
      HeaderKept(m, m', bs[k].addr, h, bs[i].addr);
    } else if k < i {
      Ordered(bs, lo, hi, k, i);
      HeaderKept(m, m', bs[k].addr, h, bs[i].addr);
    }
  }

  /** Setting or clearing the flag of block k. */
  lemma FlagStored(m: seq<u8>, m': seq<u8>, bs: seq<Block>, lo: nat, hi: nat, k: nat, live: bool)
    requires Stored(m, bs, lo, hi) && k < |bs| && bs[k].addr + 16 <= |m|
    requires Wrote(m, m', bs[k].addr, HeaderIn(m, bs[k].addr).(flag := if live then 1 else 0))
    ensures Stored(m', bs[k := Block(bs[k].addr, bs[k].size, live)], lo, hi)
    ensures PayloadsKept(m, m', bs, lo, hi)
  {
    var h := HeaderIn(m, bs[k].addr).(flag := if live then 1 else 0);
    var cs := bs[k := Block(bs[k].addr, bs[k].size, live)];
    assert |m'| == |m|;
    FlagTiles(bs, lo, hi, k, live);
    WriteKeepsPayloads(m, m', bs[k].addr, h, bs, lo, hi);
    forall i | 0 <= i < |cs| ensures LinkIn(m', cs, i) {
      FlagLink(m, m', bs, lo, hi, k, live, i);
    }
  }

  lemma AbsorbKeepsPayloads(m: seq<u8>, m': seq<u8>, bs: seq<Block>, lo: nat, hi: nat, j: nat)
    requires Stored(m, bs, lo, hi) && j + 1 < |bs| && Absorbed(m, m', bs, j)
    ensures PayloadsKept(m, m', bs, lo, hi)
  {
    hide Tiles, HeaderIn, Links;
    InRange(bs, lo, hi, j);
    if j + 2 < |bs| {
      InRange(bs, lo, hi, j + 2);
    }
    forall b | b in Live(bs) ensures b.End() <= bs[j].addr || bs[j].addr + 16 <= b.Payload() {
      PayloadsSeparate(bs, lo, hi, b, bs[j]);
    }
    if j + 2 < |bs| {
      forall b | b in Live(bs) ensures b.End() <= bs[j + 2].addr || bs[j + 2].addr + 16 <= b.Payload() {
        PayloadsSeparate(bs, lo, hi, b, bs[j + 2]);
      }
    }
  }

  lemma AbsorbStored(m: seq<u8>, m': seq<u8>, bs: seq<Block>, lo: nat, hi: nat, j: nat)
    requires Stored(m, bs, lo, hi) && j + 1 < |bs| && Absorbed(m, m', bs, j)
    ensures Stored(m', Merge(bs, j), lo, hi)
    ensures PayloadsKept(m, m', bs, lo, hi)
  {
    MergeKeepsTiles(bs, lo, hi, j);
    assert |m'| == |m|;
    forall i | 0 <= i < |Merge(bs, j)| ensures LinkIn(m', Merge(bs, j), i) {
      MergeLink(m, m', bs, lo, hi, j, i);
    }
    AbsorbKeepsPayloads(m, m', bs, lo, hi, j);
  }

  /** Merging into the predecessor: its next field, the back link, then its size. */
  lemma AbsorbedByPrev(m: seq<u8>, m1: seq<u8>, m2: seq<u8>, m3: seq<u8>, bs: seq<Block>, lo: nat, hi: nat,
                       j: nat, a: u32, q: u32, size: u32)
    requires Stored(m, bs, lo, hi) && j + 1 < |bs| && a == bs[j].addr && q == AddrAt(bs, j + 2)
    requires a + 16 <= |m| && q + 16 <= |m| && (q == 0 || Apart(a, q)) && size == bs[j].size + bs[j + 1].size + 16
    requires Wrote(m, m1, a, HeaderIn(m, a).(next := q)) && Redirected(m1, m2, q, a)
    requires a + 16 <= |m2| && Wrote(m2, m3, a, HeaderIn(m2, a).(size := size))
    ensures Absorbed(m, m3, bs, j)
  {
    hide Stored, Merge;
    if q != 0 {
      HeaderKept(m, m1, a, HeaderIn(m, a).(next := q), q);
      HeaderKept(m1, m2, q, HeaderIn(m1, q).(prev := a), a);
      HeaderKept(m2, m3, a, HeaderIn(m2, a).(size := size), q);
    }
  }

  /** Merging the successor in: the size, the next field, then the back link. */
  lemma AbsorbedByNext(m: seq<u8>, m1: seq<u8>, m2: seq<u8>, m3: seq<u8>, bs: seq<Block>, lo: nat, hi: nat,
                       j: nat, a: u32, q: u32, size: u32)
    requires Stored(m, bs, lo, hi) && j + 1 < |bs| && a == bs[j].addr && q == AddrAt(bs, j + 2)
    requires a + 16 <= |m| && q + 16 <= |m| && (q == 0 || Apart(a, q)) && size == bs[j].size + bs[j + 1].size + 16
    requires Wrote(m, m1, a, HeaderIn(m, a).(size := size))
    requires a + 16 <= |m1| && Wrote(m1, m2, a, HeaderIn(m1, a).(next := q)) && Redirected(m2, m3, q, a)
    ensures Absorbed(m, m3, bs, j)
  {
    hide Stored, Merge;
    if q != 0 {
      HeaderKept(m, m1, a, HeaderIn(m, a).(size := size), q);
      HeaderKept(m1, m2, a, HeaderIn(m1, a).(next := q), q);
      HeaderKept(m2, m3, q, HeaderIn(m2, q).(prev := a), a);
    }
  }

  lemma PrevSizeKept(m: seq<u8>, m1: seq<u8>, m2: seq<u8>, bs: seq<Block>, lo: nat, hi: nat, j: nat, a: u32, q: u32)
    requires Stored(m, bs, lo, hi) && j + 1 < |bs| && a == bs[j].addr && q == AddrAt(bs, j + 2)
    requires a + 16 <= |m| && q + 16 <= |m| && (q == 0 || Apart(a, q))
    requires Wrote(m, m1, a, HeaderIn(m, a).(next := q)) && Redirected(m1, m2, q, a)
    ensures a + 16 <= |m2| && HeaderIn(m2, a).size == HeaderIn(m, a).size
  {
    hide Stored;
    if q != 0 {
      HeaderKept(m1, m2, q, HeaderIn(m1, q).(prev := a), a);
    }
  }

  /** The neighbours of block j as kfree finds them. */
  lemma Neighbours(m: seq<u8>, bs: seq<Block>, lo: nat, hi: nat, j: nat)
    requires Stored(m, bs, lo, hi) && j < |bs|
    ensures bs[j].addr + 16 <= |m| && bs[j].addr < 0x1_0000_0000
    ensures var h := HeaderIn(m, bs[j].addr);
      && (h.prev == 0 <==> j == 0)
      && (j > 0 ==> h.prev == bs[j - 1].addr && h.prev + 16 <= |m|)
      && (j > 0 ==> (HeaderIn(m, h.prev).flag == 0 <==> !bs[j - 1].live))
      && (h.next == 0 <==> j + 1 == |bs|)
      && (j + 1 < |bs| ==>
            h.next == bs[j + 1].addr && h.next + 16 <= |m| && (HeaderIn(m, h.next).flag == 0 <==> !bs[j + 1].live))
  {
    hide HeaderIn, Coalesced;
    AllInRange(bs, lo, hi);
    assert LinkIn(m, bs, j);
    assert j > 0 ==> LinkIn(m, bs, j - 1);
    assert j + 1 < |bs| ==> LinkIn(m, bs, j + 1);
  }

  lemma KeptFewer(m: seq<u8>, m': seq<u8>, bs: seq<Block>, cs: seq<Block>, lo: nat, hi: nat)
    requires PayloadsKept(m, m', bs, lo, hi) && Live(cs) <= Live(bs)
    ensures PayloadsKept(m, m', cs, lo, hi)
  {
  }

  lemma FewerInside(m: seq<u8>, m': seq<u8>, bs: seq<Block>, cs: seq<Block>)
    requires LiveInside(m, bs) && |m'| == |m| && Live(cs) <= Live(bs)
    ensures LiveInside(m', cs)
  {
  }

  /** The three stages of kfree: clear the flag, merge backwards, merge forwards. */
  lemma FreeDone(m: seq<u8>, m1: seq<u8>, m2: seq<u8>, m3: seq<u8>, bs: seq<Block>,
                 lo: nat, hi: nat, k: nat, j: nat, mid: seq<Block>)
    requires Holds(m, bs, lo, hi) && k < |bs| && bs[k].live
    requires if PrevFree(bs, k) then j == k - 1 && mid == Merge(Kill(bs, k), k - 1) else j == k && mid == Kill(bs, k)
    requires PayloadsKept(m, m1, bs, lo, hi) && PayloadsKept(m1, m2, Kill(bs, k), lo, hi)
    requires PayloadsKept(m2, m3, mid, lo, hi) && Stored(m3, MergeNext(mid, j), lo, hi)
    requires |m| == |m3|
    ensures Holds(m3, FreeAt(bs, k), lo, hi)
    ensures PayloadsKept(m, m3, FreeAt(bs, k), lo, hi)
  {
    hide PayloadsKept, Stored, MergeNext, Merge, Tiles, Coalesced, Live;
    assert Stored(m, bs, lo, hi);
    assert Tiles(bs, lo, hi);
    FreeLive(bs, lo, hi, k);
    KillLive(bs, lo, hi, k);
    var dead := Kill(bs, k);
    assert Live(mid) == Live(dead) by {
      if PrevFree(bs, k) {
        MergeLive(dead, k - 1);
      }
    }
    KeptFewer(m, m1, bs, dead, lo, hi);
    KeptFewer(m2, m3, mid, dead, lo, hi);
    KeptTwice(m, m1, m2, dead, lo, hi);
    KeptTwice(m, m2, m3, dead, lo, hi);
    KeptFewer(m, m3, dead, FreeAt(bs, k), lo, hi);
    FewerInside(m, m3, bs, FreeAt(bs, k));
  }

  /** No sum of a merge wraps, and all three headers lie in memory. */
  lemma AbsorbFits(m: seq<u8>, bs: seq<Block>, lo: nat, hi: nat, j: nat)
    requires Stored(m, bs, lo, hi) && j + 1 < |bs|
    ensures bs[j].addr + 16 <= bs[j + 1].addr && bs[j + 1].addr + 16 <= |m| && bs[j + 1].addr < 0x1_0000_0000
    ensures HeaderIn(m, bs[j].addr).size == bs[j].size && HeaderIn(m, bs[j + 1].addr).size == bs[j + 1].size
    ensures HeaderIn(m, bs[j].addr).next == bs[j + 1].addr
    ensures HeaderIn(m, bs[j + 1].addr).next == AddrAt(bs, j + 2) && AddrAt(bs, j + 2) + 16 <= |m|
    ensures AddrAt(bs, j + 2) == 0 || Apart(bs[j].addr, AddrAt(bs, j + 2))
    ensures Add32(bs[j].size, Add32(bs[j + 1].size, 16)) == bs[j].size + bs[j + 1].size + 16
  {
    hide HeaderIn, Tiles;
    AllInRange(bs, lo, hi);
    Ordered(bs, lo, hi, j, j + 1);
    if j + 2 < |bs| {
      Ordered(bs, lo, hi, j, j + 2);
    }
    assert LinkIn(m, bs, j) && LinkIn(m, bs, j + 1);
    assert j + 2 < |bs| ==> LinkIn(m, bs, j + 2);
  }

  /** The address the search found, and what memory says about the block there. */
  lemma FoundFits(m: seq<u8>, bs: seq<Block>, lo: nat, hi: nat, size: u32)
    requires Holds(m, bs, lo, hi) && RoomFor(|m|, bs, size)
    ensures var k := FirstFit(bs, size);
      && (k == |bs| <==> AddrAt(bs, k) == 0)
      && (k < |bs| ==>
            && bs[k].addr + 16 <= |m| && !bs[k].live && HeaderIn(m, bs[k].addr).size == bs[k].size
            && Add32(size, 16) == size + 16 && bs[k].addr < 0x1_0000_0000 - 16
            && Granted(bs, size).Payload() == Add32(bs[k].addr, 16))
  {
    hide Tiles, Coalesced, HeaderIn;
    var k := FirstFit(bs, size);
    AllInRange(bs, lo, hi);
    if k < |bs| {
      assert LinkIn(m, bs, k);
    }
  }

  /** A split loses no live block. */
  lemma SplitLive(bs: seq<Block>, k: nat, n: nat)
    requires k < |bs| && !bs[k].live && bs[k].size > n + 16
    ensures Live(bs) <= Live(SplitAt(bs, k, n))
  {
    hide SplitAt;
    var cs := SplitAt(bs, k, n);
    SplitElement(bs, k, n, k);
    forall b | b in Live(bs) ensures b in cs {
      var i :| 0 <= i < |bs| && bs[i] == b;
      SplitElement(bs, k, n, if i < k then i else i + 1);
      assert cs[if i < k then i else i + 1] == b;
    }
  }

  /** Block k of a split list starts where it did and has n bytes. */
  lemma FlagSplit(bs: seq<Block>, k: nat, n: nat)
    requires k < |bs|
    ensures bs[k].size > n + 16 ==>
      |SplitAt(bs, k, n)| == |bs| + 1 && SplitAt(bs, k, n)[k] == Block(bs[k].addr, n, bs[k].live)
  {
  }

  lemma MoreInside(m: seq<u8>, m': seq<u8>, bs: seq<Block>, cs: seq<Block>, b: Block)
    requires LiveInside(m, bs) && |m'| == |m| && Live(cs) == Live(bs) + {b} && b.End() <= |m|
    ensures LiveInside(m', cs)
  {
    hide Live;
  }

  lemma MallocDone(m: seq<u8>, m1: seq<u8>, m2: seq<u8>, bs: seq<Block>, lo: nat, hi: nat, size: nat)
    requires Holds(m, bs, lo, hi) && CanMalloc(bs, size) && RoomFor(|m|, bs, size) && |m2| == |m|
    requires var b := bs[FirstFit(bs, size)];
      && b.addr + 16 <= |m1| && Wrote(m1, m2, b.addr, HeaderIn(m1, b.addr).(flag := 1))
      && if b.size > size + 16
         then Stored(m1, SplitAt(bs, FirstFit(bs, size), size), lo, hi) && PayloadsKept(m, m1, bs, lo, hi)
         else m1 == m
    ensures Holds(m2, AfterMalloc(bs, size), lo, hi)
    ensures PayloadsKept(m, m2, bs, lo, hi)
  {
    hide Tiles, HeaderIn, Links, Wrote, Coalesced, SplitAt, Live, PayloadsKept;
    var k := FirstFit(bs, size);
    var cs := if bs[k].size > size + 16 then SplitAt(bs, k, size) else bs;
    FlagSplit(bs, k, size);
    FlagStored(m1, m2, cs, lo, hi, k, true);
    MallocLive(bs, lo, hi, size);
    assert AfterMalloc(bs, size) == Mark(cs, k);
    MoreInside(m, m2, bs, AfterMalloc(bs, size), Granted(bs, size));
    if bs[k].size > size + 16 {
      SplitLive(bs, k, size);
      KeptFewer(m1, m2, cs, bs, lo, hi);
      KeptTwice(m, m1, m2, bs, lo, hi);
    }
  }

  lemma FoundMeans(m: seq<u8>, bs: seq<Block>, lo: nat, hi: nat, size: nat)
    requires Holds(m, bs, lo, hi)
    ensures AddrAt(bs, FirstFit(bs, size)) == 0 <==> forall b :: b in bs && !b.live ==> b.size <= size
    ensures AddrAt(bs, FirstFit(bs, size)) != 0 ==>
      exists b :: Chosen(bs, size, b) && AddrAt(bs, FirstFit(bs, size)) == b.addr
  {
    hide Links, LiveInside, Coalesced, Tiles;
    AllInRange(bs, lo, hi);
    FirstFitLowest(bs, lo, hi, size);
    if CanMalloc(bs, size) {
      FoundIsChosen(bs, lo, hi, size);
    }
  }

  lemma MallocMeans(m: seq<u8>, bs: seq<Block>, lo: nat, hi: nat, size: nat)
    requires Holds(m, bs, lo, hi)
    ensures CanMalloc(bs, size) <==> exists b :: b in bs && !b.live && b.size > size
    ensures CanMalloc(bs, size) ==>
      exists b :: Chosen(bs, size, b) && Granted(bs, size).Payload() == b.addr + 16
               && BlockSet(AfterMalloc(bs, size)) == BlockSet(bs) - {b} + Pieces(b, size)
  {
    hide Links, LiveInside, Coalesced, Tiles, AfterMalloc, Granted, BlockSet, Pieces;
    FirstFitLowest(bs, lo, hi, size);
    if CanMalloc(bs, size) {
      FoundIsChosen(bs, lo, hi, size);
      MallocExactly(bs, lo, hi, size, bs[FirstFit(bs, size)]);
    }
  }

  /** The layout of a heap in bytes: the flag at offset 0 of a block, its size at 4, the address of the next
      block at 8 and of the previous one at 12, null at either end. */
  lemma HeapInBytes(m: seq<u8>, bs: seq<Block>, lo: nat, hi: nat, i: nat)
    requires Holds(m, bs, lo, hi) && i < |bs|
    ensures var a := bs[i].addr;
      && a + 16 <= |m|
      && m[a] == (if bs[i].live then 1 else 0)
      && Get32(m, a + 4) == bs[i].size
      && Get32(m, a + 8) == (if i + 1 < |bs| then a + 16 + bs[i].size else 0)
      && Get32(m, a + 12) == (if i > 0 then bs[i - 1].addr else 0)
  {
    hide LiveInside, Coalesced;
    assert LinkIn(m, bs, i);
  }

  // ----- what each call does to memory -----

  /** kmalloc by way of m1: split when more than a header would be left over, then mark. */
  ghost predicate AllocatedVia(m: seq<u8>, m1: seq<u8>, m': seq<u8>, bs: seq<Block>, n: nat)
    requires CanMalloc(bs, n)
  {
    var k := FirstFit(bs, n);
    && (if bs[k].size > n + 16 then Divided(m, m1, bs, k, n) else m1 == m)
    && bs[k].addr + 16 <= |m1| && Wrote(m1, m', bs[k].addr, HeaderIn(m1, bs[k].addr).(flag := 1))
  }

  ghost predicate Allocated(m: seq<u8>, m': seq<u8>, bs: seq<Block>, n: nat) {
    if CanMalloc(bs, n) then exists m1 :: AllocatedVia(m, m1, m', bs, n) else m' == m
  }

  /** From the header writes alone: memory holds the list of kmalloc, and no live payload has changed. */
  lemma AllocatedHolds(m: seq<u8>, m': seq<u8>, bs: seq<Block>, lo: nat, hi: nat, n: nat)
    requires Holds(m, bs, lo, hi) && RoomFor(|m|, bs, n) && Allocated(m, m', bs, n)
    ensures Holds(m', if CanMalloc(bs, n) then AfterMalloc(bs, n) else bs, lo, hi)
    ensures PayloadsKept(m, m', bs, lo, hi)
  {
    if CanMalloc(bs, n) {
      var m1 :| AllocatedVia(m, m1, m', bs, n);
      var k := FirstFit(bs, n);
      if bs[k].size > n + 16 {
        DivideStored(m, m1, bs, lo, hi, k, n);
      }
      hide Divided, Stored, WellFormed, SplitAt, AfterMalloc, Live, RoomFor, Fits;
      MallocDone(m, m1, m', bs, lo, hi, n);
    }
  }

  ghost predicate Forwards(m: seq<u8>, m': seq<u8>, bs: seq<Block>, j: nat) {
    if j + 1 < |bs| && !bs[j + 1].live then Absorbed(m, m', bs, j) else m' == m
  }

  /** kfree of block k by way of m1 and m2: clear the flag, merge into a free predecessor, absorb a free
      successor. */
  ghost predicate ReleasedVia(m: seq<u8>, m1: seq<u8>, m2: seq<u8>, m': seq<u8>, bs: seq<Block>, k: nat)
    requires k < |bs|
  {
    var dead := Kill(bs, k);
    && bs[k].addr + 16 <= |m| && Wrote(m, m1, bs[k].addr, HeaderIn(m, bs[k].addr).(flag := 0))
    && (if PrevFree(bs, k) then Absorbed(m1, m2, dead, k - 1) else m2 == m1)
    && if PrevFree(bs, k) then Forwards(m2, m', Merge(dead, k - 1), k - 1) else Forwards(m2, m', dead, k)
  }

  ghost predicate Released(m: seq<u8>, m': seq<u8>, bs: seq<Block>, k: nat)
    requires k < |bs|
  {
    exists m1, m2 :: ReleasedVia(m, m1, m2, m', bs, k)
  }

  lemma ForwardsStored(m: seq<u8>, m': seq<u8>, bs: seq<Block>, lo: nat, hi: nat, j: nat)
    requires Stored(m, bs, lo, hi) && j < |bs| && Forwards(m, m', bs, j)
    ensures Stored(m', MergeNext(bs, j), lo, hi)
    ensures PayloadsKept(m, m', bs, lo, hi)
  {
    if j + 1 < |bs| && !bs[j + 1].live {
      AbsorbStored(m, m', bs, lo, hi, j);
    }
  }

  /** From the header writes alone: memory holds the list of kfree, and no remaining payload has changed. */
  lemma ReleasedHolds(m: seq<u8>, m': seq<u8>, bs: seq<Block>, lo: nat, hi: nat, k: nat)
    requires Holds(m, bs, lo, hi) && k < |bs| && bs[k].live && Released(m, m', bs, k)
    ensures Holds(m', FreeAt(bs, k), lo, hi)
    ensures PayloadsKept(m, m', FreeAt(bs, k), lo, hi)
  {
    hide Stored, WellFormed, HeaderIn, Wrote, Merge, MergeNext, FreeAt, Absorbed, Forwards, LiveInside;
    var m1, m2 :| ReleasedVia(m, m1, m2, m', bs, k);
    var dead := Kill(bs, k);
    FlagStored(m, m1, bs, lo, hi, k, false);
    if PrevFree(bs, k) {
      MergeShape(dead, k - 1, k - 1);
      AbsorbStored(m1, m2, dead, lo, hi, k - 1);
      ForwardsStored(m2, m', Merge(dead, k - 1), lo, hi, k - 1);
      FreeDone(m, m1, m2, m', bs, lo, hi, k, k - 1, Merge(dead, k - 1));
    } else {
      ForwardsStored(m2, m', dead, lo, hi, k);
      FreeDone(m, m1, m2, m', bs, lo, hi, k, k, dead);
    }
  }

  // ----- steps -----

  datatype State = State(mem: seq<u8>, blocks: seq<Block>)

  datatype Event = Allocate(n: u32) | Release(b: Block) | Store(owner: Block, offset: nat, v: u8)

  /** What the callers owe: the memory they ask for exists, they free and write only blocks they hold. */
  ghost predicate Enabled(size: nat, bs: seq<Block>, e: Event) {
    match e
    case Allocate(n) => RoomFor(size, bs, n)
    case Release(b) => b in Live(bs)
    case Store(owner, offset, v) => owner in Live(bs) && offset < owner.size && owner.End() <= size
  }

  ghost function NextBlocks(size: nat, bs: seq<Block>, e: Event): seq<Block>
    requires Enabled(size, bs, e)
  {
    match e
    case Allocate(n) => if CanMalloc(bs, n) then AfterMalloc(bs, n) else bs
    case Release(b) => AfterFree(bs, b)
    case Store(_, _, _) => bs
  }

  /** One step of the heap and its users, told by the bytes it writes: Kmalloc and Kfree ensure theirs,
      a store is made by the owner of a live block into its payload. */
  ghost predicate Step(s: State, e: Event, t: State) {
    && Enabled(|s.mem|, s.blocks, e)
    && t.blocks == NextBlocks(|s.mem|, s.blocks, e)
    && match e
       case Allocate(n) => Allocated(s.mem, t.mem, s.blocks, n)
       case Release(b) => Released(s.mem, t.mem, s.blocks, IndexOf(s.blocks, b))
       case Store(owner, offset, v) => t.mem == s.mem[owner.Payload() + offset := v]
  }

  // ----- the allocator -----

  class KernelHeap {
    const mem: array<u8>
    var heapTop: u32
    ghost var blocks: seq<Block>
    ghost var lo: nat
    ghost var hi: nat

    ghost predicate Valid()
      reads this, mem
    {
      heapTop == lo && Holds(mem[..], blocks, lo, hi)
    }

    ghost function Abs(): State
      reads this, mem
    {
      State(mem[..], blocks)
    }

    /** heap_allocator_init, on a range whose link fields already hold null. The size may reach past the
        end of memory, as the one the kernel passes does. */
    constructor (memory: array<u8>, base: u32, size: u32)
      requires 0 < base && base + 16 <= memory.Length < 0x1_0000_0000
      requires HeaderIn(memory[..], base).next == 0 && HeaderIn(memory[..], base).prev == 0
      modifies memory
      ensures mem == memory && Valid() && lo == base && hi == base + 16 + size
      ensures blocks == Initial(base, size)
      ensures forall x :: 0 <= x < mem.Length && !(base <= x < base + 16) ==> mem[x] == old(memory[x])
    {
      mem := memory;
      heapTop := base;
      blocks, lo, hi := Initial(base, size), base, base + 16 + size;
      new;
      SetFlag(mem, heapTop, 0);
      SetSize(mem, heapTop, size);
    }

    /** The search loop: the first free block strictly larger than size, or null. */
    method FindFit(size: u32) returns (result: u32)
      requires Valid()
      ensures result == AddrAt(blocks, FirstFit(blocks, size))
      ensures result == 0 <==> forall b :: b in blocks && !b.live ==> b.size <= size
      ensures result != 0 ==> exists b :: Chosen(blocks, size, b) && result == b.addr
    {
      FoundMeans(mem[..], blocks, lo, hi, size);
      AllInRange(blocks, lo, hi);
      hide Tiles, Coalesced, Live, HeaderIn;
      result := 0;
      var chunk := heapTop;
      ghost var i := 0;
      while chunk != 0 && result == 0
        invariant 0 <= i <= |blocks| && chunk == AddrAt(blocks, i)
        invariant result == 0 ==> i <= FirstFit(blocks, size)
        invariant result != 0 ==> i == FirstFit(blocks, size) + 1 && result == AddrAt(blocks, i - 1)
        decreases |blocks| - i
      {
        assert LinkIn(mem[..], blocks, i);
        var h := GetHeader(mem, chunk);
        if h.size > size && h.flag == 0 {
          result := chunk;
        }
        chunk := h.next;
        i := i + 1;
      }
    }

    /** The split branch: a free remainder behind the first size bytes of block k. */
    method Split(result: u32, size: u32, ghost k: nat)
      requires Stored(mem[..], blocks, lo, hi) && k < |blocks| && result == blocks[k].addr
      requires !blocks[k].live && blocks[k].size > size + 16 && result + 16 + size + 16 <= mem.Length
      modifies mem
      ensures Divided(old(mem[..]), mem[..], blocks, k, size)
    {
      hide *;
      ghost var m := mem[..];
      SplitFits(m, blocks, lo, hi, k, size);
      var h := GetHeader(mem, result);
      var tmp := Add32(Add32(result, 16), size);
      var rest := PutFree(mem, tmp, Sub32(Sub32(h.size, size), 16), h.next, result);
      ghost var m1 := mem[..];
      Redirect(mem, rest.next, tmp);
      ghost var m2 := mem[..];
      SetNext(mem, result, tmp);
      ghost var m3 := mem[..];
      SetSize(mem, result, size);
      SplitDivides(m, m1, m2, m3, mem[..], blocks, lo, hi, k, size, tmp, rest);
    }

    method Kmalloc(size: u32) returns (p: u32)
      requires Valid() && RoomFor(mem.Length, blocks, size)
      modifies mem, `blocks
      ensures Valid()
      ensures if CanMalloc(old(blocks), size)
              then blocks == AfterMalloc(old(blocks), size) && p == Granted(old(blocks), size).Payload()
              else blocks == old(blocks) && p == 0xffff_ffff && mem[..] == old(mem[..])
      ensures if exists b :: b in old(blocks) && !b.live && b.size > size
              then exists b :: Chosen(old(blocks), size, b) && p == b.addr + 16
                            && BlockSet(blocks) == BlockSet(old(blocks)) - {b} + Pieces(b, size)
              else blocks == old(blocks) && p == 0xffff_ffff && mem[..] == old(mem[..])
      ensures PayloadsKept(old(mem[..]), mem[..], old(blocks), lo, hi)
      ensures Step(old(Abs()), Allocate(size), Abs())
    {
      hide Stored, WellFormed, FirstFit, HeaderIn, Wrote, AfterMalloc, Granted, SplitAt, Live, Divided, LiveInside;
      hide Chosen, BlockSet, Pieces;
      MallocMeans(mem[..], blocks, lo, hi, size);
      var result := FindFit(size);
      FoundFits(mem[..], blocks, lo, hi, size);
      if result == 0 {
        return 0xffff_ffff;
      }
      ghost var k, m := FirstFit(blocks, size), mem[..];
      var h := GetHeader(mem, result);
      if h.size > Add32(size, 16) {
        Split(result, size, k);
      }
      ghost var m1 := mem[..];
      SetFlag(mem, result, 1);
      assert AllocatedVia(m, m1, mem[..], blocks, size);
      AllocatedHolds(m, mem[..], blocks, lo, hi, size);
      blocks := AfterMalloc(blocks, size);
      p := Add32(result, 16);
    }

    /** block->prev takes over block j + 1. */
    method AbsorbPrev(prev: u32, block: u32, ghost bs: seq<Block>, ghost j: nat)
      requires Stored(mem[..], bs, lo, hi) && j + 1 < |bs|
      requires prev == bs[j].addr && block == bs[j + 1].addr
      modifies mem
      ensures Absorbed(old(mem[..]), mem[..], bs, j)
    {
      hide *;
      ghost var m := mem[..];
      AbsorbFits(m, bs, lo, hi, j);
      var h := GetHeader(mem, block);
      SetNext(mem, prev, h.next);
      ghost var m1 := mem[..];
      Redirect(mem, h.next, prev);
      ghost var m2 := mem[..];
      var hp := GetHeader(mem, prev);
      PrevSizeKept(m, m1, m2, bs, lo, hi, j, prev, h.next);
      SetSize(mem, prev, Add32(hp.size, Add32(h.size, 16)));
      AbsorbedByPrev(m, m1, m2, mem[..], bs, lo, hi, j, prev, h.next, bs[j].size + bs[j + 1].size + 16);
    }

    /** block takes over block->next. */
    method AbsorbNext(block: u32, ghost bs: seq<Block>, ghost j: nat)
      requires Stored(mem[..], bs, lo, hi) && j + 1 < |bs| && block == bs[j].addr
      modifies mem
      ensures Absorbed(old(mem[..]), mem[..], bs, j)
    {
      hide *;
      ghost var m := mem[..];
      AbsorbFits(m, bs, lo, hi, j);
      var h := GetHeader(mem, block);
      var hn := GetHeader(mem, h.next);
      SetSize(mem, block, Add32(h.size, Add32(hn.size, 16)));
      ghost var m1 := mem[..];
      SetNext(mem, block, hn.next);
      ghost var m2 := mem[..];
      Redirect(mem, hn.next, block);
      AbsorbedByNext(m, m1, m2, mem[..], bs, lo, hi, j, block, hn.next, bs[j].size + bs[j + 1].size + 16);
    }

    /** Free a live block, given by its payload address. */
    method Kfree(ptr: u32, ghost b: Block)
      requires Valid() && b in Live(blocks) && ptr == b.Payload()
      modifies mem, `blocks
      ensures Valid() && blocks == AfterFree(old(blocks), b)
      ensures PayloadsKept(old(mem[..]), mem[..], blocks, lo, hi)
      ensures Step(old(Abs()), Release(b), Abs())
    {
      hide Stored, WellFormed, HeaderIn, Wrote, Merge, FreeAt, Absorbed, LiveInside;
      ghost var k, m := IndexOf(blocks, b), mem[..];
      Neighbours(m, blocks, lo, hi, k);
      var block := Sub32(ptr, 16);
      SetFlag(mem, block, 0);
      ghost var m1, bs, j := mem[..], Kill(blocks, k), k;
      FlagStored(m, m1, blocks, lo, hi, k, false);
      Neighbours(m1, bs, lo, hi, j);
      var h := GetHeader(mem, block);
      if h.prev != 0 {
        var hp := GetHeader(mem, h.prev);
        if hp.flag == 0 {
          AbsorbPrev(h.prev, block, bs, k - 1);
          AbsorbStored(m1, mem[..], bs, lo, hi, k - 1);
          block := h.prev;
          MergeShape(bs, k - 1, k - 1);
          bs, j := Merge(bs, k - 1), k - 1;
        }
      }
      ghost var m2 := mem[..];
      Neighbours(m2, bs, lo, hi, j);
      h := GetHeader(mem, block);
      if h.next != 0 {
        var hn := GetHeader(mem, h.next);
        if hn.flag == 0 {
          AbsorbNext(block, bs, j);
        }
      }
      assert ReleasedVia(m, m1, m2, mem[..], blocks, k);
      ReleasedHolds(m, mem[..], blocks, lo, hi, k);
      blocks := AfterFree(blocks, b);
    }
  }
}
