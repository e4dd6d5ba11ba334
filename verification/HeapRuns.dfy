/** Whole runs of the heap in byte memory: kmalloc, kfree and callers storing into their own blocks. */
module HeapRuns {
  import opened Machine
  import opened HeapBlocks
  import opened Heap

  /** A run: events[i] leads from states[i] to states[i + 1]. */
  ghost predicate IsRun(states: seq<State>, events: seq<Event>) {
    && |states| == |events| + 1
    && forall i :: 0 <= i < |events| ==> Step(states[i], events[i], states[i + 1])
  }

  lemma StoreKeepsHeaders(s: State, owner: Block, offset: nat, v: u8, lo: nat, hi: nat)
    requires Holds(s.mem, s.blocks, lo, hi) && owner in Live(s.blocks) && offset < owner.size && owner.End() <= |s.mem|
    ensures Holds(s.mem[owner.Payload() + offset := v], s.blocks, lo, hi)
  {
    hide Tiles, Coalesced;
    var m := s.mem[owner.Payload() + offset := v];
    forall i | 0 <= i < |s.blocks| ensures LinkIn(m, s.blocks, i) {
      assert LinkIn(s.mem, s.blocks, i);
      PayloadsSeparate(s.blocks, lo, hi, owner, s.blocks[i]);
    }
  }

  /** The bytes a step writes leave a well-formed heap behind and spare every payload but the one its
      owner stores into. */
  lemma StepHolds(s: State, e: Event, t: State, lo: nat, hi: nat)
    requires Holds(s.mem, s.blocks, lo, hi) && Step(s, e, t)
    ensures Holds(t.mem, t.blocks, lo, hi)
    ensures e.Allocate? ==> PayloadsKept(s.mem, t.mem, s.blocks, lo, hi)
    ensures e.Release? ==> PayloadsKept(s.mem, t.mem, t.blocks, lo, hi)
  {
    hide Holds, Allocated, Released, PayloadsKept, RoomFor, FreeAt, AfterMalloc;
    match e
    case Allocate(n) => AllocatedHolds(s.mem, t.mem, s.blocks, lo, hi, n);
    case Release(b) => ReleasedHolds(s.mem, t.mem, s.blocks, lo, hi, IndexOf(s.blocks, b));
    case Store(owner, offset, v) => StoreKeepsHeaders(s, owner, offset, v, lo, hi);
  }

  lemma LiveInMemory(s: State, b: Block, lo: nat, hi: nat)
    requires Holds(s.mem, s.blocks, lo, hi) && b in Live(s.blocks)
    ensures b.End() <= |s.mem|
  {
  }

  /** Which blocks are live after a step. */
  lemma StepLive(s: State, e: Event, t: State, lo: nat, hi: nat)
    requires Holds(s.mem, s.blocks, lo, hi) && Step(s, e, t)
    ensures e.Allocate? ==> Live(s.blocks) <= Live(t.blocks)
    ensures e.Release? ==> Live(t.blocks) == Live(s.blocks) - {e.b}
    ensures e.Store? ==> t.blocks == s.blocks
  {
    hide Live, AfterMalloc, AfterFree, Allocated, Released, RoomFor, Tiles, Coalesced, Links;
    match e
    case Allocate(n) =>
      if CanMalloc(s.blocks, n) {
        MallocLive(s.blocks, lo, hi, n);
      }
    case Release(c) =>
      FreeBlock(s.blocks, lo, hi, c);
    case Store(_, _, _) =>
  }

  lemma PayloadSame(m: seq<u8>, m': seq<u8>, bs: seq<Block>, b: Block, lo: nat, hi: nat)
    requires PayloadsKept(m, m', bs, lo, hi) && b in Live(bs) && b.End() <= |m|
    ensures |m'| == |m| && m'[b.Payload()..b.End()] == m[b.Payload()..b.End()]
  {
    hide Live;
  }

  /** A store into one block spares every other. */
  lemma StoreSpares(s: State, owner: Block, offset: nat, v: u8, b: Block, lo: nat, hi: nat)
    requires Holds(s.mem, s.blocks, lo, hi) && owner in Live(s.blocks) && offset < owner.size && owner.End() <= |s.mem|
    requires b in Live(s.blocks) && b != owner && b.End() <= |s.mem|
    ensures s.mem[owner.Payload() + offset := v][b.Payload()..b.End()] == s.mem[b.Payload()..b.End()]
  {
    hide Tiles;
    PayloadsSeparate(s.blocks, lo, hi, owner, b);
  }

  /** A step other than freeing b or storing into b leaves b live with the same bytes. */
  lemma StepSpares(s: State, e: Event, t: State, b: Block, lo: nat, hi: nat)
    requires Holds(s.mem, s.blocks, lo, hi) && Step(s, e, t)
    requires b in Live(s.blocks) && e != Release(b) && !(e.Store? && e.owner == b)
    ensures b in Live(t.blocks)
    ensures b.End() <= |s.mem| == |t.mem| && t.mem[b.Payload()..b.End()] == s.mem[b.Payload()..b.End()]
  {
    hide Live, Holds, Allocated, Released, AfterMalloc, AfterFree, RoomFor, CanMalloc, PayloadsKept;
    StepHolds(s, e, t, lo, hi);
    StepLive(s, e, t, lo, hi);
    LiveInMemory(s, b, lo, hi);
    match e
    case Allocate(_) => PayloadSame(s.mem, t.mem, s.blocks, b, lo, hi);
    case Release(_) => PayloadSame(s.mem, t.mem, t.blocks, b, lo, hi);
    case Store(owner, offset, v) => StoreSpares(s, owner, offset, v, b, lo, hi);
  }

  /** Every state of a run that starts from a well-formed heap holds a well-formed heap. */
  lemma {:induction false} RunHolds(states: seq<State>, events: seq<Event>, lo: nat, hi: nat, i: nat)
    requires IsRun(states, events) && i < |states|
    requires Holds(states[0].mem, states[0].blocks, lo, hi)
    ensures Holds(states[i].mem, states[i].blocks, lo, hi)
  {
    hide Holds, Step;
    if i > 0 {
      RunHolds(states, events, lo, hi, i - 1);
      StepHolds(states[i - 1], events[i - 1], states[i], lo, hi);
    }
  }

  /** As long as b is neither freed nor written by its owner, no run changes its bytes. */
  lemma {:induction false} PayloadSurvives(states: seq<State>, events: seq<Event>, lo: nat, hi: nat, b: Block, i: nat)
    requires IsRun(states, events) && i < |states|
    requires Holds(states[0].mem, states[0].blocks, lo, hi) && b in Live(states[0].blocks)
    requires forall j :: 0 <= j < i ==> events[j] != Release(b) && !(events[j].Store? && events[j].owner == b)
    ensures b in Live(states[i].blocks)
    ensures b.End() <= |states[0].mem| == |states[i].mem|
    ensures states[i].mem[b.Payload()..b.End()] == states[0].mem[b.Payload()..b.End()]
  {
    hide Holds, Step, Live;
    if i > 0 {
      PayloadSurvives(states, events, lo, hi, b, i - 1);
      RunHolds(states, events, lo, hi, i - 1);
      assert Step(states[i - 1], events[i - 1], states[i]);
      StepSpares(states[i - 1], events[i - 1], states[i], b, lo, hi);
    } else {
      LiveInMemory(states[0], b, lo, hi);
    }
  }

  // ----- the allocator produces such runs -----

  /** Each event is enabled when its turn comes. */
  ghost predicate AllEnabled(size: nat, bs: seq<Block>, events: seq<Event>)
    decreases |events|
  {
    events == [] || (
      && Enabled(size, bs, events[0])
      && AllEnabled(size, NextBlocks(size, bs, events[0]), events[1..]))
  }

  lemma PayloadAddress(m: seq<u8>, bs: seq<Block>, lo: nat, hi: nat, b: Block)
    requires Holds(m, bs, lo, hi) && b in Live(bs)
    ensures b.Payload() < 0x1_0000_0000
  {
  }

  /** One event, performed by the allocator or by the owner of a block. */
  method Perform(heap: KernelHeap, e: Event)
    requires heap.Valid() && Enabled(heap.mem.Length, heap.blocks, e)
    modifies heap`blocks, heap.mem
    ensures heap.Valid()
    ensures Step(old(heap.Abs()), e, heap.Abs())
  {
    hide Holds, Live, Allocated, Released;
    ghost var s := heap.Abs();
    match e
    case Allocate(n) =>
      var p := heap.Kmalloc(n);
    case Release(b) =>
      PayloadAddress(s.mem, s.blocks, heap.lo, heap.hi, b);
      heap.Kfree(b.Payload(), b);
    case Store(owner, offset, v) =>
      StoreKeepsHeaders(s, owner, offset, v, heap.lo, heap.hi);
      heap.mem[owner.Payload() + offset] := v;
  }

  lemma RunOn(states: seq<State>, events: seq<Event>, e: Event, t: State)
    requires IsRun(states, events) && Step(states[|events|], e, t)
    ensures IsRun(states + [t], events + [e])
  {
    hide Step;
    var ss, es := states + [t], events + [e];
    forall i | 0 <= i < |es| ensures Step(ss[i], es[i], ss[i + 1]) {
      if i < |events| {
        assert Step(states[i], events[i], states[i + 1]);
      }
    }
  }

  lemma StepBlocks(s: State, e: Event, t: State)
    requires Step(s, e, t)
    ensures Enabled(|s.mem|, s.blocks, e) && t.blocks == NextBlocks(|s.mem|, s.blocks, e)
  {
  }

  /** Any list of events whose callers keep to the rules is a run of the real allocator. */
  method PerformAll(heap: KernelHeap, events: seq<Event>) returns (ghost states: seq<State>)
    requires heap.Valid() && AllEnabled(heap.mem.Length, heap.blocks, events)
    modifies heap`blocks, heap.mem
    ensures heap.Valid()
    ensures IsRun(states, events) && states[0] == old(heap.Abs()) && states[|events|] == heap.Abs()
  {
    hide Step, Enabled, NextBlocks, KernelHeap.Valid;
    states := [heap.Abs()];
    var i := 0;
    while i < |events|
      invariant 0 <= i <= |events| && heap.Valid()
      invariant AllEnabled(heap.mem.Length, heap.blocks, events[i..])
      invariant IsRun(states, events[..i]) && states[0] == old(heap.Abs()) && states[i] == heap.Abs()
    {
      assert events[i..][0] == events[i] && events[i..][1..] == events[i + 1..];
      Perform(heap, events[i]);
      StepBlocks(states[i], events[i], heap.Abs());
      RunOn(states, events[..i], events[i], heap.Abs());
      assert events[..i] + [events[i]] == events[..i + 1];
      states := states + [heap.Abs()];
      i := i + 1;
    }
    assert events[..i] == events;
  }
}
