/** The block list of the kernel heap, as a value: what kmalloc and kfree do to it. */
module HeapBlocks {
  /** One block: a 16-byte header at addr followed by size payload bytes. */
  datatype Block = Block(addr: nat, size: nat, live: bool) {
    function Payload(): nat {
      addr + 16
    }

    function End(): nat {
      addr + 16 + size
    }
  }

  /** The blocks cover [lo, hi) exactly, each starting where its predecessor ends. */
  ghost predicate Tiles(bs: seq<Block>, lo: nat, hi: nat) {
    if bs == [] then lo == hi
    else
      && bs[0].addr == lo
      && bs[|bs| - 1].End() == hi
      && forall i :: 0 < i < |bs| ==> bs[i].addr == bs[i - 1].End()
  }

  ghost predicate Coalesced(bs: seq<Block>) {
    forall i :: 0 < i < |bs| ==> bs[i].live || bs[i - 1].live
  }

  /** What every reachable heap satisfies. */
  ghost predicate WellFormed(bs: seq<Block>, lo: nat, hi: nat) {
    bs != [] && Tiles(bs, lo, hi) && Coalesced(bs)
  }

  ghost function Live(bs: seq<Block>): set<Block> {
    set b | b in bs && b.live
  }

  // ----- kmalloc -----

  /** The fit test is strict: a block of exactly n bytes is never used. */
  predicate Fits(b: Block, n: nat) {
    b.size > n && !b.live
  }

  function FirstFit(bs: seq<Block>, n: nat): (k: nat)
    ensures k <= |bs|
    ensures forall j :: 0 <= j < k ==> !Fits(bs[j], n)
    ensures k < |bs| ==> Fits(bs[k], n)
  {
    if bs == [] || Fits(bs[0], n) then 0 else 1 + FirstFit(bs[1..], n)
  }

  predicate CanMalloc(bs: seq<Block>, n: nat) {
    FirstFit(bs, n) < |bs|
  }

  /** Block k shortened to n bytes, with a free remainder behind it. */
  function SplitAt(bs: seq<Block>, k: nat, n: nat): seq<Block>
    requires k < |bs| && bs[k].size > n + 16
  {
    var b := bs[k];
    bs[..k] + [Block(b.addr, n, b.live), Block(b.addr + 16 + n, b.size - n - 16, false)] + bs[k + 1..]
  }

  function Mark(bs: seq<Block>, k: nat): seq<Block>
    requires k < |bs|
  {
    bs[k := Block(bs[k].addr, bs[k].size, true)]
  }

  /** Mark block k, splitting off the rest when more than a header would remain. */
  function Carve(bs: seq<Block>, k: nat, n: nat): seq<Block>
    requires k < |bs| && Fits(bs[k], n)
  {
    if bs[k].size > n + 16 then Mark(SplitAt(bs, k, n), k) else Mark(bs, k)
  }

  function AfterMalloc(bs: seq<Block>, n: nat): seq<Block>
    requires CanMalloc(bs, n)
  {
    Carve(bs, FirstFit(bs, n), n)
  }

  /** The block that kmalloc(n) hands out. */
  function Granted(bs: seq<Block>, n: nat): Block
    requires CanMalloc(bs, n)
  {
    var b := bs[FirstFit(bs, n)];
    Block(b.addr, if b.size > n + 16 then n else b.size, true)
  }

  // ----- kfree -----

  /** Block k absorbs its successor. */
  function Merge(bs: seq<Block>, k: nat): seq<Block>
    requires k + 1 < |bs|
  {
    bs[..k] + [Block(bs[k].addr, bs[k].size + bs[k + 1].size + 16, bs[k].live)] + bs[k + 2..]
  }

  function MergeNext(bs: seq<Block>, k: nat): seq<Block>
    requires k < |bs|
  {
    if k + 1 < |bs| && !bs[k + 1].live then Merge(bs, k) else bs
  }

  function Kill(bs: seq<Block>, k: nat): seq<Block>
    requires k < |bs|
  {
    bs[k := Block(bs[k].addr, bs[k].size, false)]
  }

  /** Block k has a free predecessor to merge into. */
  predicate PrevFree(bs: seq<Block>, k: nat)
    requires k < |bs|
  {
    k > 0 && !bs[k - 1].live
  }

  function FreeAt(bs: seq<Block>, k: nat): seq<Block>
    requires k < |bs|
  {
    if PrevFree(bs, k) then MergeNext(Merge(Kill(bs, k), k - 1), k - 1) else MergeNext(Kill(bs, k), k)
  }

  ghost function IndexOf(bs: seq<Block>, b: Block): (k: nat)
    requires b in bs
    ensures k < |bs| && bs[k] == b
  {
    var k :| 0 <= k < |bs| && bs[k] == b;
    k
  }

  /** kfree of a live block, found by its position in the list. */
  ghost function AfterFree(bs: seq<Block>, b: Block): seq<Block>
    requires b in Live(bs)
  {
    FreeAt(bs, IndexOf(bs, b))
  }

  // ----- order -----

  lemma {:induction false} Ordered(bs: seq<Block>, lo: nat, hi: nat, i: nat, j: nat)
    requires Tiles(bs, lo, hi) && i < j < |bs|
    ensures bs[i].End() <= bs[j].addr
  {
    if i + 1 < j {
      Ordered(bs, lo, hi, i, j - 1);
    }
  }

  lemma InRange(bs: seq<Block>, lo: nat, hi: nat, i: nat)
    requires Tiles(bs, lo, hi) && i < |bs|
    ensures lo <= bs[i].addr && bs[i].End() <= hi
  {
    if i > 0 {
      Ordered(bs, lo, hi, 0, i);
    }
    if i < |bs| - 1 {
      Ordered(bs, lo, hi, i, |bs| - 1);
    }
  }

  lemma AllInRange(bs: seq<Block>, lo: nat, hi: nat)
    requires Tiles(bs, lo, hi)
    ensures forall i :: 0 <= i < |bs| ==> lo <= bs[i].addr && bs[i].End() <= hi
  {
    forall i | 0 <= i < |bs| ensures lo <= bs[i].addr && bs[i].End() <= hi {
      InRange(bs, lo, hi, i);
    }
  }

  /** Live payloads are pairwise disjoint and clear of every header. */
  lemma PayloadsSeparate(bs: seq<Block>, lo: nat, hi: nat, b: Block, c: Block)
    requires Tiles(bs, lo, hi) && b in bs && c in bs
    ensures b != c ==> b.End() <= c.addr || c.End() <= b.addr
    ensures b.End() <= c.addr || c.Payload() <= b.Payload()
  {
    var i :| 0 <= i < |bs| && bs[i] == b;
    var j :| 0 <= j < |bs| && bs[j] == c;
    if i < j {
      Ordered(bs, lo, hi, i, j);
    } else if j < i {
      Ordered(bs, lo, hi, j, i);
    }
  }

  lemma AddrsDistinct(bs: seq<Block>, lo: nat, hi: nat, i: nat, j: nat)
    requires Tiles(bs, lo, hi) && i < |bs| && j < |bs| && bs[i].addr == bs[j].addr
    ensures i == j
  {
    if i < j {
      Ordered(bs, lo, hi, i, j);
    } else if j < i {
      Ordered(bs, lo, hi, j, i);
    }
  }

  // ----- each operation keeps the heap well formed and changes one live block -----

  lemma SplitKeepsTiles(bs: seq<Block>, lo: nat, hi: nat, k: nat, n: nat)
    requires Tiles(bs, lo, hi) && k < |bs| && bs[k].size > n + 16
    ensures Tiles(SplitAt(bs, k, n), lo, hi)
  {
  }

  /** The elements of a split list. */
  lemma SplitElement(bs: seq<Block>, k: nat, n: nat, i: nat)
    requires k < |bs| && bs[k].size > n + 16 && i <= |bs|
    ensures |SplitAt(bs, k, n)| == |bs| + 1
    ensures SplitAt(bs, k, n)[i] ==
      if i < k then bs[i] else if i == k then Block(bs[k].addr, n, bs[k].live)
      else if i == k + 1 then Block(bs[k].addr + 16 + n, bs[k].size - n - 16, false) else bs[i - 1]
  {
  }

  lemma MarkKeepsTiles(bs: seq<Block>, lo: nat, hi: nat, k: nat)
    requires Tiles(bs, lo, hi) && k < |bs|
    ensures Tiles(Mark(bs, k), lo, hi)
  {
  }

  lemma CarveKeeps(bs: seq<Block>, lo: nat, hi: nat, k: nat, n: nat)
    requires WellFormed(bs, lo, hi) && k < |bs| && Fits(bs[k], n)
    ensures WellFormed(Carve(bs, k, n), lo, hi)
  {
    hide Tiles, SplitAt;
    var cs := Carve(bs, k, n);
    if bs[k].size > n + 16 {
      SplitKeepsTiles(bs, lo, hi, k, n);
      SplitElement(bs, k, n, k);
      MarkKeepsTiles(SplitAt(bs, k, n), lo, hi, k);
      forall i | 0 < i < |cs| ensures cs[i].live || cs[i - 1].live {
        SplitElement(bs, k, n, i);
        SplitElement(bs, k, n, i - 1);
        assert i == k + 2 ==> bs[k + 1].live;
      }
    } else {
      MarkKeepsTiles(bs, lo, hi, k);
    }
  }

  lemma MallocLive(bs: seq<Block>, lo: nat, hi: nat, n: nat)
    requires WellFormed(bs, lo, hi) && CanMalloc(bs, n)
    ensures WellFormed(AfterMalloc(bs, n), lo, hi)
    ensures Live(AfterMalloc(bs, n)) == Live(bs) + {Granted(bs, n)}
    ensures forall b :: b in Live(bs) ==> b.addr != Granted(bs, n).addr
  {
    var k := FirstFit(bs, n);
    var b := bs[k];
    var cs := AfterMalloc(bs, n);
    CarveKeeps(bs, lo, hi, k, n);
    forall c | c in Live(bs) ensures c in cs && c.addr != b.addr {
      var i :| 0 <= i < |bs| && bs[i] == c;
      if c.addr == b.addr {
        AddrsDistinct(bs, lo, hi, i, k);
      }
      assert cs[if i < k then i else if b.size > n + 16 then i + 1 else i] == c;
    }
    assert cs[k] == Granted(bs, n);
    forall c | c in Live(cs) ensures c in Live(bs) || c == Granted(bs, n) {
      var i :| 0 <= i < |cs| && cs[i] == c;
    }
  }

  lemma MergeKeepsTiles(bs: seq<Block>, lo: nat, hi: nat, k: nat)
    requires Tiles(bs, lo, hi) && k + 1 < |bs|
    ensures Tiles(Merge(bs, k), lo, hi)
    ensures |Merge(bs, k)| == |bs| - 1
    ensures forall i :: 0 <= i < |bs| - 1 ==> 
      Merge(bs, k)[i] == (if i < k then bs[i]
                          else if i == k then Block(bs[k].addr, bs[k].size + bs[k + 1].size + 16, bs[k].live)
                          else bs[i + 1])
  {
  }

  lemma MergeLive(bs: seq<Block>, k: nat)
    requires k + 1 < |bs| && !bs[k].live && !bs[k + 1].live
    ensures Live(Merge(bs, k)) == Live(bs)
  {
    var cs := Merge(bs, k);
    forall c | c in Live(bs) ensures c in cs {
      var i :| 0 <= i < |bs| && bs[i] == c;
      assert cs[if i < k then i else i - 1] == c;
    }
  }

  lemma KillLive(bs: seq<Block>, lo: nat, hi: nat, k: nat)
    requires Tiles(bs, lo, hi) && k < |bs| && bs[k].live
    ensures Tiles(Kill(bs, k), lo, hi)
    ensures Live(Kill(bs, k)) == Live(bs) - {bs[k]}
  {
    var dead := Kill(bs, k);
    forall c | c in Live(bs) && c != bs[k] ensures c in dead {
      var i :| 0 <= i < |bs| && bs[i] == c;
      assert dead[i] == c;
    }
    forall c | c in Live(dead) ensures c != bs[k] && c in bs {
      var i :| 0 <= i < |dead| && dead[i] == c;
      if c == bs[k] {
        AddrsDistinct(bs, lo, hi, i, k);
      }
    }
  }

  /** Absorbing a free successor repairs coalescing when block j is the only place it can fail. */
  lemma MergeNextKeeps(bs: seq<Block>, lo: nat, hi: nat, j: nat)
    requires Tiles(bs, lo, hi) && j < |bs| && !bs[j].live
    requires forall i :: 0 < i < |bs| && i != j + 1 ==> bs[i].live || bs[i - 1].live
    requires j + 2 < |bs| && !bs[j + 1].live ==> bs[j + 2].live
    ensures WellFormed(MergeNext(bs, j), lo, hi)
    ensures Live(MergeNext(bs, j)) == Live(bs)
  {
    if j + 1 < |bs| && !bs[j + 1].live {
      MergeKeepsTiles(bs, lo, hi, j);
      MergeLive(bs, j);
    }
  }

  lemma FreeLive(bs: seq<Block>, lo: nat, hi: nat, k: nat)
    requires WellFormed(bs, lo, hi) && k < |bs| && bs[k].live
    ensures WellFormed(FreeAt(bs, k), lo, hi)
    ensures Live(FreeAt(bs, k)) == Live(bs) - {bs[k]}
  {
    var dead := Kill(bs, k);
    KillLive(bs, lo, hi, k);
    if PrevFree(bs, k) {
      MergeKeepsTiles(dead, lo, hi, k - 1);
      MergeLive(dead, k - 1);
      MergeNextKeeps(Merge(dead, k - 1), lo, hi, k - 1);
    } else {
      MergeNextKeeps(dead, lo, hi, k);
    }
  }

  // ----- the block list is a function of the live blocks -----

  lemma TailLive(bs: seq<Block>, lo: nat, hi: nat)
    requires bs != [] && Tiles(bs, lo, hi)
    ensures Tiles(bs[1..], bs[0].End(), hi)
    ensures Live(bs[1..]) == Live(bs) - {bs[0]}
  {
    forall i | 0 < i < |bs| ensures bs[i] != bs[0] {
      Ordered(bs, lo, hi, 0, i);
    }
    forall c | c in Live(bs) - {bs[0]} ensures c in bs[1..] {
      var i :| 0 <= i < |bs| && bs[i] == c;
      assert bs[1..][i - 1] == c;
    }
  }

  /** A free head block is no longer than the other list's: otherwise a live block would start inside it. */
  lemma FreeHeadFits(xs: seq<Block>, ys: seq<Block>, lo: nat, hi: nat)
    requires xs != [] && ys != [] && Tiles(xs, lo, hi) && Tiles(ys, lo, hi)
    requires Coalesced(xs) && Live(xs) <= Live(ys)
    requires !xs[0].live
    ensures xs[0].size >= ys[0].size
  {
    if xs[0].size < ys[0].size {
      InRange(ys, lo, hi, 0);
      assert |xs| > 1;
      assert xs[1] in Live(ys);
      var j :| 0 <= j < |ys| && ys[j] == xs[1];
      if j > 0 {
        Ordered(ys, lo, hi, 0, j);
      }
    }
  }

  lemma HeadsAgree(xs: seq<Block>, ys: seq<Block>, lo: nat, hi: nat)
    requires xs != [] && ys != []
    requires Tiles(xs, lo, hi) && Tiles(ys, lo, hi) && Coalesced(xs) && Coalesced(ys)
    requires Live(xs) == Live(ys)
    ensures xs[0] == ys[0]
  {
    if xs[0].live {
      assert xs[0] in Live(ys);
      var j :| 0 <= j < |ys| && ys[j] == xs[0];
      AddrsDistinct(ys, lo, hi, j, 0);
    } else if ys[0].live {
      assert ys[0] in Live(xs);
      var j :| 0 <= j < |xs| && xs[j] == ys[0];
      AddrsDistinct(xs, lo, hi, j, 0);
    } else {
      FreeHeadFits(xs, ys, lo, hi);
      FreeHeadFits(ys, xs, lo, hi);
    }
  }

  lemma {:induction false} Canonical(xs: seq<Block>, ys: seq<Block>, lo: nat, hi: nat)
    requires Tiles(xs, lo, hi) && Tiles(ys, lo, hi) && Coalesced(xs) && Coalesced(ys)
    requires Live(xs) == Live(ys)
    ensures xs == ys
  {
    if xs == [] {
      if ys != [] {
        InRange(ys, lo, hi, 0);
      }
    } else if ys == [] {
      InRange(xs, lo, hi, 0);
    } else {
      HeadsAgree(xs, ys, lo, hi);
      TailLive(xs, lo, hi);
      TailLive(ys, lo, hi);
      Canonical(xs[1..], ys[1..], xs[0].End(), hi);
      assert xs == [xs[0]] + xs[1..];
      assert ys == [ys[0]] + ys[1..];
    }
  }

  // ----- consequences for callers -----

  lemma FreeBlock(bs: seq<Block>, lo: nat, hi: nat, b: Block)
    requires WellFormed(bs, lo, hi) && b in Live(bs)
    ensures WellFormed(AfterFree(bs, b), lo, hi)
    ensures Live(AfterFree(bs, b)) == Live(bs) - {b}
  {
    FreeLive(bs, lo, hi, IndexOf(bs, b));
  }

  /** The block kmalloc(n) has to use: the lowest free one that is strictly larger than n. */
  ghost predicate Chosen(bs: seq<Block>, n: nat, b: Block) {
    && b in bs && !b.live && b.size > n
    && forall c :: c in bs && !c.live && c.size > n ==> b.addr <= c.addr
  }

  lemma FoundIsChosen(bs: seq<Block>, lo: nat, hi: nat, n: nat)
    requires Tiles(bs, lo, hi) && CanMalloc(bs, n)
    ensures Chosen(bs, n, bs[FirstFit(bs, n)])
  {
    var k := FirstFit(bs, n);
    forall c | c in bs && !c.live && c.size > n ensures bs[k].addr <= c.addr {
      var i :| 0 <= i < |bs| && bs[i] == c;
      if k < i {
        Ordered(bs, lo, hi, k, i);
      }
    }
  }

  lemma ChosenIsFound(bs: seq<Block>, lo: nat, hi: nat, n: nat, b: Block)
    requires Tiles(bs, lo, hi) && Chosen(bs, n, b)
    ensures CanMalloc(bs, n) && bs[FirstFit(bs, n)] == b
  {
    var i :| 0 <= i < |bs| && bs[i] == b;
    var k := FirstFit(bs, n);
    if k < i {
      Ordered(bs, lo, hi, k, i);
    }
  }

  /** kmalloc(n) fails exactly when no free block is strictly larger than n; otherwise it uses the lowest
      such block and grants between n and n + 16 bytes of it. */
  lemma FirstFitLowest(bs: seq<Block>, lo: nat, hi: nat, n: nat)
    requires WellFormed(bs, lo, hi)
    ensures CanMalloc(bs, n) <==> exists b :: b in bs && !b.live && b.size > n
    ensures CanMalloc(bs, n) ==>
      var g := Granted(bs, n);
      n <= g.size <= n + 16 && exists b :: Chosen(bs, n, b) && g.addr == b.addr && g.size <= b.size
  {
    if CanMalloc(bs, n) {
      assert bs[FirstFit(bs, n)] in bs;
      FoundIsChosen(bs, lo, hi, n);
    }
  }

  ghost function BlockSet(bs: seq<Block>): set<Block> {
    set b | b in bs
  }

  /** What becomes of the chosen block: its first n bytes and a free remainder when more than a header is
      left over, the whole of it otherwise. */
  function Pieces(b: Block, n: nat): set<Block>
    requires b.size > n
  {
    if b.size > n + 16 then {Block(b.addr, n, true), Block(b.addr + 16 + n, b.size - n - 16, false)}
    else {Block(b.addr, b.size, true)}
  }

  lemma OthersStay(bs: seq<Block>, k: nat, n: nat, c: Block)
    requires k < |bs| && Fits(bs[k], n) && c in bs && c != bs[k]
    ensures c in Carve(bs, k, n)
  {
    var i :| 0 <= i < |bs| && bs[i] == c;
    assert Carve(bs, k, n)[if i < k || bs[k].size <= n + 16 then i else i + 1] == c;
  }

  lemma NothingElse(bs: seq<Block>, lo: nat, hi: nat, k: nat, n: nat, c: Block)
    requires Tiles(bs, lo, hi) && k < |bs| && Fits(bs[k], n) && c in Carve(bs, k, n)
    ensures c in Pieces(bs[k], n) || (c in bs && c != bs[k])
  {
    var cs, split := Carve(bs, k, n), bs[k].size > n + 16;
    var i :| 0 <= i < |cs| && cs[i] == c;
    if i != k && !(split && i == k + 1) {
      var j := if i < k || !split then i else i - 1;
      assert c == bs[j];
      if c == bs[k] {
        AddrsDistinct(bs, lo, hi, j, k);
      }
    }
  }

  lemma PiecesThere(bs: seq<Block>, k: nat, n: nat)
    requires k < |bs| && Fits(bs[k], n)
    ensures forall c :: c in Pieces(bs[k], n) ==> c in Carve(bs, k, n)
    ensures var b := bs[k]; Block(b.addr, if b.size > n + 16 then n else b.size, true) in Pieces(b, n)
  {
    var b, cs, split := bs[k], Carve(bs, k, n), bs[k].size > n + 16;
    assert cs[k] == Block(b.addr, if split then n else b.size, true);
    assert split ==> cs[k + 1] == Block(b.addr + 16 + n, b.size - n - 16, false);
  }

  /** kmalloc replaces the chosen block by its pieces, touches no other block, and hands out the first
      piece. */
  lemma MallocExactly(bs: seq<Block>, lo: nat, hi: nat, n: nat, b: Block)
    requires WellFormed(bs, lo, hi) && Chosen(bs, n, b)
    ensures CanMalloc(bs, n)
    ensures BlockSet(AfterMalloc(bs, n)) == BlockSet(bs) - {b} + Pieces(b, n)
    ensures Granted(bs, n) in Pieces(b, n) && Granted(bs, n).live && Granted(bs, n).Payload() == b.addr + 16
  {
    ChosenIsFound(bs, lo, hi, n, b);
    var k, cs := FirstFit(bs, n), AfterMalloc(bs, n);
    forall c | c in BlockSet(bs) - {b} ensures c in cs {
      OthersStay(bs, k, n, c);
    }
    forall c | c in cs ensures c in BlockSet(bs) - {b} + Pieces(b, n) {
      NothingElse(bs, lo, hi, k, n, c);
    }
    PiecesThere(bs, k, n);
    hide Carve, Pieces, Tiles, Coalesced;
  }

  /** A free block of exactly the requested size is passed over. */
  lemma ExactSizeUnused(a: nat, n: nat)
    ensures !CanMalloc([Block(a, n, false)], n) && CanMalloc([Block(a, n + 1, false)], n)
  {
    var x, y := [Block(a, n, false)], [Block(a, n + 1, false)];
    FirstFitLowest(x, a, a + 16 + n, n);
    FirstFitLowest(y, a, a + 17 + n, n);
    assert Block(a, n + 1, false) in y;
  }

  lemma FreesCommute(bs: seq<Block>, lo: nat, hi: nat, b: Block, c: Block)
    requires WellFormed(bs, lo, hi) && b in Live(bs) && c in Live(bs) && b != c
    ensures c in Live(AfterFree(bs, b)) && b in Live(AfterFree(bs, c))
    ensures AfterFree(AfterFree(bs, b), c) == AfterFree(AfterFree(bs, c), b)
  {
    FreeBlock(bs, lo, hi, b);
    FreeBlock(bs, lo, hi, c);
    var x, y := AfterFree(bs, b), AfterFree(bs, c);
    FreeBlock(x, lo, hi, c);
    FreeBlock(y, lo, hi, b);
    Canonical(AfterFree(x, c), AfterFree(y, b), lo, hi);
  }

  /** kfree(kmalloc(n)) puts the list back exactly, split or not. */
  lemma FreeUndoesMalloc(bs: seq<Block>, lo: nat, hi: nat, n: nat)
    requires WellFormed(bs, lo, hi) && CanMalloc(bs, n)
    ensures Granted(bs, n) in Live(AfterMalloc(bs, n))
    ensures AfterFree(AfterMalloc(bs, n), Granted(bs, n)) == bs
  {
    var g, cs := Granted(bs, n), AfterMalloc(bs, n);
    MallocLive(bs, lo, hi, n);
    FreeBlock(cs, lo, hi, g);
    assert g !in Live(bs);
    assert Live(AfterFree(cs, g)) == Live(bs);
    Canonical(AfterFree(cs, g), bs, lo, hi);
  }

  datatype Outcome = Failed | Blocks(bs: seq<Block>)

  /** Nested new[]/delete[] pairs, outermost size first; None when some allocation fails. */
  ghost function Nested(bs: seq<Block>, sizes: seq<nat>): (r: Outcome)
    decreases |sizes|
  {
    if sizes == [] then Blocks(bs)
    else if !CanMalloc(bs, sizes[0]) then Failed
    else
      match Nested(AfterMalloc(bs, sizes[0]), sizes[1..])
      case Failed => Failed
      case Blocks(cs) =>
        if Granted(bs, sizes[0]) in Live(cs) then Blocks(AfterFree(cs, Granted(bs, sizes[0]))) else Failed
  }

  /** The allocations of one UDP send: datagram, IP packet, Ethernet frame. */
  function SendSizes(size: nat): seq<nat> {
    [size + 8, size + 28, size + 42]
  }

  /** All three allocations of the chain succeed. */
  ghost predicate AllSucceed(bs: seq<Block>, sizes: seq<nat>)
    decreases |sizes|
  {
    sizes == [] || (CanMalloc(bs, sizes[0]) && AllSucceed(AfterMalloc(bs, sizes[0]), sizes[1..]))
  }

  lemma {:induction false} NestedRestores(bs: seq<Block>, lo: nat, hi: nat, sizes: seq<nat>)
    requires WellFormed(bs, lo, hi)
    ensures Nested(bs, sizes) == if AllSucceed(bs, sizes) then Blocks(bs) else Failed
    decreases |sizes|
  {
    if sizes != [] && CanMalloc(bs, sizes[0]) {
      MallocLive(bs, lo, hi, sizes[0]);
      NestedRestores(AfterMalloc(bs, sizes[0]), lo, hi, sizes[1..]);
      FreeUndoesMalloc(bs, lo, hi, sizes[0]);
    }
  }

  /** One UDP send leaves the heap exactly as it found it. */
  lemma SendRestoresHeap(bs: seq<Block>, lo: nat, hi: nat, size: nat)
    requires WellFormed(bs, lo, hi) && AllSucceed(bs, SendSizes(size))
    ensures Nested(bs, SendSizes(size)) == Blocks(bs)
  {
    NestedRestores(bs, lo, hi, SendSizes(size));
  }

  // ----- whole runs -----

  datatype Request = Malloc(n: nat) | Free(b: Block)

  /** A failing kmalloc leaves the list alone. */
  ghost function Serve(bs: seq<Block>, r: Request): seq<Block>
    requires r.Free? ==> r.b in Live(bs)
  {
    match r
    case Malloc(n) => if CanMalloc(bs, n) then AfterMalloc(bs, n) else bs
    case Free(b) => AfterFree(bs, b)
  }

  /** Every free in the run is of a block live at that moment. */
  ghost predicate ValidRun(bs: seq<Block>, rs: seq<Request>)
    decreases |rs|
  {
    rs == [] || ((rs[0].Free? ==> rs[0].b in Live(bs)) && ValidRun(Serve(bs, rs[0]), rs[1..]))
  }

  ghost function Run(bs: seq<Block>, rs: seq<Request>): seq<Block>
    requires ValidRun(bs, rs)
    decreases |rs|
  {
    if rs == [] then bs else Run(Serve(bs, rs[0]), rs[1..])
  }

  lemma ServeKeeps(bs: seq<Block>, lo: nat, hi: nat, r: Request)
    requires WellFormed(bs, lo, hi) && (r.Free? ==> r.b in Live(bs))
    ensures WellFormed(Serve(bs, r), lo, hi)
  {
    match r
    case Malloc(n) =>
      if CanMalloc(bs, n) {
        MallocLive(bs, lo, hi, n);
      }
    case Free(b) => FreeBlock(bs, lo, hi, b);
  }

  lemma {:induction false} RunKeeps(bs: seq<Block>, lo: nat, hi: nat, rs: seq<Request>)
    requires WellFormed(bs, lo, hi) && ValidRun(bs, rs)
    ensures WellFormed(Run(bs, rs), lo, hi)
    decreases |rs|
  {
    if rs != [] {
      ServeKeeps(bs, lo, hi, rs[0]);
      RunKeeps(Serve(bs, rs[0]), lo, hi, rs[1..]);
    }
  }

  /** The heap that heap_allocator_init sets up. */
  function Initial(base: nat, size: nat): seq<Block> {
    [Block(base, size, false)]
  }

  /** However it got there, the heap is determined by what is live. */
  lemma RunsConverge(base: nat, size: nat, rs: seq<Request>, qs: seq<Request>)
    requires ValidRun(Initial(base, size), rs) && ValidRun(Initial(base, size), qs)
    requires Live(Run(Initial(base, size), rs)) == Live(Run(Initial(base, size), qs))
    ensures Run(Initial(base, size), rs) == Run(Initial(base, size), qs)
  {
    RunKeeps(Initial(base, size), base, base + 16 + size, rs);
    RunKeeps(Initial(base, size), base, base + 16 + size, qs);
    Canonical(Run(Initial(base, size), rs), Run(Initial(base, size), qs), base, base + 16 + size);
  }

  /** Freeing everything, in any order and after any run, leaves the single initial block. */
  lemma NothingLiveIsInitial(base: nat, size: nat, rs: seq<Request>)
    requires ValidRun(Initial(base, size), rs)
    requires Live(Run(Initial(base, size), rs)) == {}
    ensures Run(Initial(base, size), rs) == Initial(base, size)
  {
    RunsConverge(base, size, rs, []);
  }

  ghost function Frees(order: seq<Block>): seq<Request> {
    seq(|order|, i requires 0 <= i < |order| => Free(order[i]))
  }

  /** order lists the blocks of s, each once. */
  ghost predicate Lists(order: seq<Block>, s: set<Block>) {
    && (forall b :: b in order <==> b in s)
    && (forall i, j :: 0 <= i < j < |order| ==> order[i] != order[j])
  }

  lemma TailLists(order: seq<Block>, s: set<Block>)
    requires Lists(order, s) && order != []
    ensures order[0] in s && Lists(order[1..], s - {order[0]})
  {
    forall b | b in s - {order[0]} ensures b in order[1..] {
      var i :| 0 <= i < |order| && order[i] == b;
      assert order[1..][i - 1] == b;
    }
  }

  lemma NothingLeft(bs: seq<Block>, base: nat, size: nat)
    requires WellFormed(bs, base, base + 16 + size) && Lists([], Live(bs))
    ensures bs == Initial(base, size)
  {
    Canonical(bs, Initial(base, size), base, base + 16 + size);
  }

  /** Any duplicate-free listing of the live blocks is a valid order to free them in. */
  lemma {:induction false} FreeAllInAnyOrder(bs: seq<Block>, base: nat, size: nat, order: seq<Block>)
    requires WellFormed(bs, base, base + 16 + size)
    requires Lists(order, Live(bs))
    ensures ValidRun(bs, Frees(order))
    ensures Run(bs, Frees(order)) == Initial(base, size)
    decreases |order|
  {
    hide Tiles, Coalesced, Live, Lists, FreeAt;
    if order == [] {
      NothingLeft(bs, base, size);
    } else {
      TailLists(order, Live(bs));
      FreeBlock(bs, base, base + 16 + size, order[0]);
      FreeAllInAnyOrder(AfterFree(bs, order[0]), base, size, order[1..]);
      assert Frees(order)[1..] == Frees(order[1..]);
    }
  }

  function Total(bs: seq<Block>): nat {
    if bs == [] then 0 else bs[0].size + 16 + Total(bs[1..])
  }

  /** Tiling conserves bytes: headers and payloads always add up to the initial range. */
  lemma {:induction false} TotalConserved(bs: seq<Block>, lo: nat, hi: nat)
    requires Tiles(bs, lo, hi)
    ensures lo + Total(bs) == hi
  {
    if bs != [] {
      TailLive(bs, lo, hi);
      TotalConserved(bs[1..], bs[0].End(), hi);
    }
  }
}
