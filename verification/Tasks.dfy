/** Round-robin tasks: the circular list of contexts, and the switch that saves one task's
    registers on its own stack and restores the next one's. */
module Tasks {
  import opened Machine

  datatype Registers = Registers(eax: u32, ebx: u32, ecx: u32, edx: u32, esi: u32, edi: u32, ebp: u32)

  /** Where a suspended task continues, with what registers, on what stack pointer. */
  datatype Snapshot = Snapshot(regs: Registers, eip: u32, esp: nat)

  const ZERO: Registers := Registers(0, 0, 0, 0, 0, 0, 0)

  /** A task: its context record at ctx (esp at offset 0, next at offset 12), the addresses [lo, hi)
      of its stack, and what it was doing when last switched out. */
  datatype Task = Task(ctx: nat, lo: nat, hi: nat, saved: Snapshot)

  // ----- layout -----

  predicate Disjoint(a: nat, b: nat, c: nat, d: nat) {
    b <= c || d <= a
  }

  /** Context records and stacks lie in memory and overlap nowhere. */
  ghost predicate Separate(tasks: seq<Task>, size: nat) {
    && size < 0x1_0000_0000
    && (forall i :: 0 <= i < |tasks| ==> tasks[i].ctx + 16 <= size && tasks[i].lo <= tasks[i].hi <= size)
    && (forall i, j :: 0 <= i < |tasks| && 0 <= j < |tasks| ==>
          Disjoint(tasks[i].ctx, tasks[i].ctx + 16, tasks[j].lo, tasks[j].hi))
    && (forall i, j :: 0 <= i < |tasks| && 0 <= j < |tasks| && i != j ==>
          && Disjoint(tasks[i].ctx, tasks[i].ctx + 16, tasks[j].ctx, tasks[j].ctx + 16)
          && Disjoint(tasks[i].lo, tasks[i].hi, tasks[j].lo, tasks[j].hi))
  }

  function Succ(i: nat, n: nat): nat
    requires i < n
  {
    if i + 1 == n then 0 else i + 1
  }

  /** context i is followed by context i + 1, the last by the first. */
  ghost predicate LinkOk(m: seq<u8>, tasks: seq<Task>, i: nat)
    requires i < |tasks|
  {
    tasks[i].ctx + 16 <= |m| && Get32(m, tasks[i].ctx + 12) == tasks[Succ(i, |tasks|)].ctx
  }

  /** The dwords from sp upwards are ws. */
  ghost predicate Words(m: seq<u8>, sp: nat, ws: seq<u32>) {
    sp + 4 * |ws| <= |m| && forall k :: 0 <= k < |ws| ==> Get32(m, sp + 4 * k) == ws[k]
  }

  /** What switch_context leaves on the stack: ebp lowest, the return address highest. */
  function FrameWords(s: Snapshot): seq<u32> {
    [s.regs.ebp, s.regs.edi, s.regs.esi, s.regs.edx, s.regs.ecx, s.regs.ebx, s.regs.eax, s.eip]
  }

  ghost predicate FrameAt(m: seq<u8>, sp: nat, s: Snapshot) {
    Words(m, sp, FrameWords(s))
  }

  /** Context t holds a stack pointer into its own stack, where its snapshot is stored. */
  ghost predicate SavedOk(m: seq<u8>, t: Task) {
    && t.ctx + 16 <= |m|
    && t.lo <= Get32(m, t.ctx) && Get32(m, t.ctx) + 32 == t.saved.esp <= t.hi
    && FrameAt(m, Get32(m, t.ctx), t.saved)
  }

  /** The ring is closed and every task but the current one is properly suspended. */
  ghost predicate RingOk(m: seq<u8>, tasks: seq<Task>, cur: nat) {
    && cur < |tasks| && Separate(tasks, |m|)
    && (forall i {:trigger LinkOk(m, tasks, i)} :: 0 <= i < |tasks| ==> LinkOk(m, tasks, i))
    && (forall i {:trigger SavedOk(m, tasks[i])} :: 0 <= i < |tasks| && i != cur ==> SavedOk(m, tasks[i]))
  }

  // ----- memory changes that leave a suspended task alone -----

  lemma WordsKept(m: seq<u8>, m': seq<u8>, lo: nat, hi: nat, sp: nat, ws: seq<u32>)
    requires OnlyWithin(m, m', lo, hi) && Words(m, sp, ws) && Disjoint(lo, hi, sp, sp + 4 * |ws|)
    ensures Words(m', sp, ws)
  {
    assert |m'| == |m|;
    hide Get32, OnlyWithin;
    forall k | 0 <= k < |ws| ensures Get32(m', sp + 4 * k) == ws[k] {
      WordKept(m, m', lo, hi, sp + 4 * k);
    }
  }

  lemma FrameKept(m: seq<u8>, m': seq<u8>, lo: nat, hi: nat, sp: nat, s: Snapshot)
    requires OnlyWithin(m, m', lo, hi) && FrameAt(m, sp, s) && Disjoint(lo, hi, sp, sp + 32)
    ensures FrameAt(m', sp, s)
  {
    WordsKept(m, m', lo, hi, sp, FrameWords(s));
  }

  /** Storing just below the words prepends to them. */
  lemma WordsPushed(m: seq<u8>, m': seq<u8>, sp: nat, ws: seq<u32>, v: u32)
    requires Words(m, sp, ws) && 4 <= sp && Stored32(m, m', sp - 4, v)
    ensures Words(m', sp - 4, [v] + ws)
  {
    WordsKept(m, m', sp - 4, sp, sp, ws);
    hide Get32;
    forall k | 0 <= k < |[v] + ws| ensures Get32(m', sp - 4 + 4 * k) == ([v] + ws)[k] {
      if k > 0 {
        assert Get32(m', sp + 4 * (k - 1)) == ws[k - 1];
      }
    }
  }

  lemma SavedKept(m: seq<u8>, m': seq<u8>, lo: nat, hi: nat, t: Task)
    requires OnlyWithin(m, m', lo, hi) && SavedOk(m, t) && t.hi <= |m|
    requires Disjoint(lo, hi, t.ctx, t.ctx + 16) && Disjoint(lo, hi, t.lo, t.hi)
    ensures SavedOk(m', t)
  {
    hide Get32, OnlyWithin, FrameAt;
    WordKept(m, m', lo, hi, t.ctx);
    FrameKept(m, m', lo, hi, Get32(m, t.ctx), t.saved);
  }

  lemma LinkKept(m: seq<u8>, m': seq<u8>, lo: nat, hi: nat, tasks: seq<Task>, i: nat)
    requires OnlyWithin(m, m', lo, hi) && i < |tasks| && LinkOk(m, tasks, i)
    requires Disjoint(lo, hi, tasks[i].ctx + 12, tasks[i].ctx + 16)
    ensures LinkOk(m', tasks, i)
  {
    hide Get32, OnlyWithin;
    WordKept(m, m', lo, hi, tasks[i].ctx + 12);
  }

  /** Whatever the current task does on its own stack, the ring and the suspended tasks stay as they were. */
  lemma StackWritesKeepRing(m: seq<u8>, m': seq<u8>, tasks: seq<Task>, cur: nat)
    requires RingOk(m, tasks, cur) && OnlyWithin(m, m', tasks[cur].lo, tasks[cur].hi)
    ensures RingOk(m', tasks, cur)
  {
    assert |m'| == |m|;
    hide LinkOk, SavedOk, OnlyWithin;
    forall i | 0 <= i < |tasks| ensures LinkOk(m', tasks, i) {
      LinkKept(m, m', tasks[cur].lo, tasks[cur].hi, tasks, i);
    }
    forall i | 0 <= i < |tasks| && i != cur ensures SavedOk(m', tasks[i]) {
      SavedKept(m, m', tasks[cur].lo, tasks[cur].hi, tasks[i]);
    }
  }

  ghost function Suspend(tasks: seq<Task>, cur: nat, s: Snapshot): seq<Task>
    requires cur < |tasks|
  {
    tasks[cur := tasks[cur].(saved := s)]
  }

  lemma SameLink(m: seq<u8>, ts: seq<Task>, us: seq<Task>, i: nat)
    requires |us| == |ts| && i < |ts| && LinkOk(m, ts, i)
    requires forall k :: 0 <= k < |ts| ==> us[k].ctx == ts[k].ctx
    ensures LinkOk(m, us, i)
  {
  }

  lemma SameLayout(ts: seq<Task>, us: seq<Task>, size: nat)
    requires Separate(ts, size) && |us| == |ts|
    requires forall k :: 0 <= k < |ts| ==> us[k].ctx == ts[k].ctx && us[k].lo == ts[k].lo && us[k].hi == ts[k].hi
    ensures Separate(us, size)
  {
  }

  /** Frame pushed, then esp stored in the context: now every task is suspended, the current one too. */
  lemma SwitchedOut(m: seq<u8>, m1: seq<u8>, m2: seq<u8>, tasks: seq<Task>, cur: nat, sp: u32, s: Snapshot, next: nat)
    requires RingOk(m, tasks, cur) && tasks[cur].lo <= sp && sp + 32 == s.esp <= tasks[cur].hi
    requires OnlyWithin(m, m1, tasks[cur].lo, tasks[cur].hi) && FrameAt(m1, sp, s)
    requires Stored32(m1, m2, tasks[cur].ctx, sp) && next < |tasks|
    ensures RingOk(m2, Suspend(tasks, cur, s), next)
    ensures SavedOk(m2, Suspend(tasks, cur, s)[next])
  {
    StackWritesKeepRing(m, m1, tasks, cur);
    var c := tasks[cur].ctx;
    var ts := Suspend(tasks, cur, s);
    assert OnlyWithin(m1, m2, c, c + 4) && |m2| == |m| && Get32(m2, c) == sp;
    hide LinkOk, OnlyWithin, Get32, FrameAt, Stored32;
    forall i | 0 <= i < |ts| ensures LinkOk(m2, ts, i) {
      LinkKept(m1, m2, c, c + 4, tasks, i);
      SameLink(m2, tasks, ts, i);
    }
    FrameKept(m1, m2, c, c + 4, sp, s);
    forall i | 0 <= i < |ts| ensures SavedOk(m2, ts[i]) {
      if i != cur {
        SavedKept(m1, m2, c, c + 4, tasks[i]);
      }
    }
    SameLayout(tasks, ts, |m|);
  }

  lemma Within(m: seq<u8>, m': seq<u8>, lo: nat, hi: nat, lo': nat, hi': nat)
    requires OnlyWithin(m, m', lo, hi) && lo' <= lo && hi <= hi'
    ensures OnlyWithin(m, m', lo', hi')
  {
  }

  lemma CurrentFits(m: seq<u8>, tasks: seq<Task>, cur: nat, esp: u32)
    requires RingOk(m, tasks, cur) && tasks[cur].lo + 28 <= esp && esp + 4 <= tasks[cur].hi
    ensures cur < |tasks| && tasks[cur].hi <= |m| < 0x1_0000_0000 && tasks[cur].ctx + 16 <= |m|
  {
  }

  /** The next field of the current context leads to the next task's context. */
  lemma NextContext(m: seq<u8>, tasks: seq<Task>, cur: nat)
    requires RingOk(m, tasks, cur)
    ensures tasks[cur].ctx + 16 <= |m| && Get32(m, tasks[cur].ctx + 12) == tasks[Succ(cur, |tasks|)].ctx
    ensures tasks[Succ(cur, |tasks|)].ctx + 16 <= |m|
  {
    assert LinkOk(m, tasks, cur);
  }

  lemma SavedFits(m: seq<u8>, tasks: seq<Task>, i: nat)
    requires RingOk(m, tasks, i) && SavedOk(m, tasks[i])
    ensures i < |tasks| && tasks[i].ctx + 16 <= |m| && FrameAt(m, Get32(m, tasks[i].ctx), tasks[i].saved)
    ensures tasks[i].lo <= Get32(m, tasks[i].ctx)
    ensures Get32(m, tasks[i].ctx) + 32 == tasks[i].saved.esp <= tasks[i].hi <= |m|
    ensures |m| < 0x1_0000_0000
  {
  }

  lemma WordsStart(m: seq<u8>, sp: nat)
    requires sp + 4 <= |m|
    ensures Words(m, sp, [Get32(m, sp)]) && OnlyWithin(m, m, sp, sp)
  {
  }

  /** Only the next field of the last context, the new context and the new first frame changed. */
  ghost predicate SpliceBytesOnly(m: seq<u8>, m': seq<u8>, last: nat, ctx: nat, stack: nat) {
    |m'| == |m| &&
    forall x ::
      0 <= x < |m| && !(last + 12 <= x < last + 16) && !(ctx <= x < ctx + 16) &&
      !(stack + 16352 <= x < stack + 16388) ==>
      m'[x] == m[x]
  }

  lemma SpliceBytes(m: seq<u8>, m1: seq<u8>, m2: seq<u8>, m3: seq<u8>, m4: seq<u8>,
                    last: nat, ctx: u32, stack: nat, start: u32, sp: u32)
    requires Stored32(m, m1, last + 12, ctx) && Stored32(m1, m2, ctx + 12, start)
    requires OnlyWithin(m2, m3, stack + 16352, stack + 16388) && Stored32(m3, m4, ctx, sp)
    ensures SpliceBytesOnly(m, m4, last, ctx, stack)
  {
    hide Get32;
  }

  /** Only the stack of t and the esp field of its context changed. */
  ghost predicate OwnBytesOnly(m: seq<u8>, m': seq<u8>, t: Task) {
    |m'| == |m| &&
    forall x :: 0 <= x < |m| && !(t.lo <= x < t.hi) && !(t.ctx <= x < t.ctx + 4) ==> m'[x] == m[x]
  }

  lemma OwnBytes(m: seq<u8>, m1: seq<u8>, m2: seq<u8>, t: Task, sp: u32)
    requires OnlyWithin(m, m1, t.lo, t.hi) && Stored32(m1, m2, t.ctx, sp)
    ensures OwnBytesOnly(m, m2, t)
  {
  }

  lemma FrameFields(m: seq<u8>, sp: nat, s: Snapshot)
    requires FrameAt(m, sp, s)
    ensures sp + 32 <= |m|
    ensures Get32(m, sp) == s.regs.ebp && Get32(m, sp + 4) == s.regs.edi && Get32(m, sp + 8) == s.regs.esi
    ensures Get32(m, sp + 12) == s.regs.edx && Get32(m, sp + 16) == s.regs.ecx && Get32(m, sp + 20) == s.regs.ebx
    ensures Get32(m, sp + 24) == s.regs.eax && Get32(m, sp + 28) == s.eip
  {
    hide Get32;
    var ws := FrameWords(s);
    assert Get32(m, sp + 4 * 0) == ws[0] && Get32(m, sp + 4 * 1) == ws[1] && Get32(m, sp + 4 * 2) == ws[2];
    assert Get32(m, sp + 4 * 3) == ws[3] && Get32(m, sp + 4 * 4) == ws[4] && Get32(m, sp + 4 * 5) == ws[5];
    assert Get32(m, sp + 4 * 6) == ws[6] && Get32(m, sp + 4 * 7) == ws[7];
  }

  /** Store v just below sp. The words from sp up were ws, in a memory that differs from m0 only in
      [sp, top). */
  method PushWord(mem: array<u8>, sp: u32, v: u32, ghost ws: seq<u32>, ghost m0: seq<u8>, ghost top: nat)
    returns (below: u32)
    requires 4 <= sp <= top && sp <= mem.Length
    requires Words(mem[..], sp, ws) && OnlyWithin(m0, mem[..], sp, top)
    modifies mem
    ensures below == sp - 4
    ensures Words(mem[..], below, [v] + ws) && OnlyWithin(m0, mem[..], below, top)
  {
    ghost var m := mem[..];
    below := Sub32(sp, 4);
    Store32(mem, below, v);
    WordsPushed(m, mem[..], sp, ws, v);
  }

  /** What Separate says about two tasks. */
  lemma Pair(ts: seq<Task>, size: nat, i: nat, j: nat)
    requires Separate(ts, size) && i < |ts| && j < |ts|
    ensures ts[i].ctx + 16 <= size && ts[i].lo <= ts[i].hi <= size
    ensures Disjoint(ts[i].ctx, ts[i].ctx + 16, ts[j].lo, ts[j].hi)
    ensures Disjoint(ts[j].ctx, ts[j].ctx + 16, ts[i].lo, ts[i].hi)
    ensures i != j ==> Disjoint(ts[i].ctx, ts[i].ctx + 16, ts[j].ctx, ts[j].ctx + 16)
    ensures i != j ==> Disjoint(ts[i].lo, ts[i].hi, ts[j].lo, ts[j].hi)
  {
  }

  lemma StoredIsWithin(m: seq<u8>, m': seq<u8>, a: nat, v: u32)
    requires Stored32(m, m', a, v)
    ensures OnlyWithin(m, m', a, a + 4) && Get32(m', a) == v && |m'| == |m|
  {
  }

  lemma CreatedLink(m: seq<u8>, m1: seq<u8>, m2: seq<u8>, m3: seq<u8>, m4: seq<u8>,
                    tasks: seq<Task>, cur: nat, t: Task, sp: u32, i: nat)
    requires RingOk(m, tasks, cur) && Separate(tasks + [t], |m|) && i <= |tasks|
    requires t.ctx < 0x1_0000_0000 && tasks[0].ctx < 0x1_0000_0000
    requires Stored32(m, m1, tasks[|tasks| - 1].ctx + 12, t.ctx) && Stored32(m1, m2, t.ctx + 12, tasks[0].ctx)
    requires OnlyWithin(m2, m3, sp, t.hi) && t.lo <= sp && Stored32(m3, m4, t.ctx, sp)
    ensures LinkOk(m4, tasks + [t], i)
  {
    hide Separate, Get32, OnlyWithin, Stored32;
    var ts, n := tasks + [t], |tasks|;
    assert ts[n] == t && (i < n ==> ts[i] == tasks[i]) && ts[n - 1] == tasks[n - 1] && ts[0] == tasks[0];
    Pair(ts, |m|, i, n);
    Pair(ts, |m|, i, n - 1);
    Pair(ts, |m|, n, n);
    var last, a := tasks[n - 1].ctx + 12, ts[i].ctx + 12;
    StoredIsWithin(m, m1, last, t.ctx);
    StoredIsWithin(m1, m2, t.ctx + 12, tasks[0].ctx);
    StoredIsWithin(m3, m4, t.ctx, sp);
    if i < n - 1 {
      assert LinkOk(m, tasks, i);
      WordKept(m, m1, last, last + 4, a);
    }
    if i < n {
      WordKept(m1, m2, t.ctx + 12, t.ctx + 16, a);
    }
    assert Disjoint(ts[i].ctx, ts[i].ctx + 16, ts[n].lo, ts[n].hi);
    WordKept(m2, m3, sp, t.hi, a);
    WordKept(m3, m4, t.ctx, t.ctx + 4, a);
  }

  /** Rewriting the next field of context k does not disturb task i, even when they are the same. */
  lemma SavedThroughStore(m: seq<u8>, m': seq<u8>, a: nat, ts: seq<Task>, k: nat, i: nat)
    requires k < |ts| && i < |ts| && a == ts[k].ctx + 12 && Separate(ts, |m|)
    requires OnlyWithin(m, m', a, a + 4) && SavedOk(m, ts[i])
    ensures SavedOk(m', ts[i])
  {
    hide Get32, OnlyWithin, FrameAt;
    var t := ts[i];
    WordKept(m, m', a, a + 4, t.ctx);
    assert Disjoint(ts[k].ctx, ts[k].ctx + 16, ts[i].lo, ts[i].hi);
    FrameKept(m, m', a, a + 4, Get32(m, t.ctx), t.saved);
  }

  lemma CreatedSaved(m: seq<u8>, m1: seq<u8>, m2: seq<u8>, m3: seq<u8>, m4: seq<u8>,
                     tasks: seq<Task>, cur: nat, t: Task, sp: u32, i: nat)
    requires RingOk(m, tasks, cur) && Separate(tasks + [t], |m|) && i <= |tasks| && i != cur
    requires t.ctx < 0x1_0000_0000 && tasks[0].ctx < 0x1_0000_0000
    requires Stored32(m, m1, tasks[|tasks| - 1].ctx + 12, t.ctx) && Stored32(m1, m2, t.ctx + 12, tasks[0].ctx)
    requires OnlyWithin(m2, m3, sp, t.hi) && t.lo <= sp && sp + 32 == t.saved.esp <= t.hi && FrameAt(m3, sp, t.saved)
    requires Stored32(m3, m4, t.ctx, sp) && |m3| == |m2|
    ensures SavedOk(m4, (tasks + [t])[i])
  {
    hide Separate, Get32, OnlyWithin, Stored32, FrameAt;
    var ts, n := tasks + [t], |tasks|;
    assert ts[n] == t && (i < n ==> ts[i] == tasks[i]) && ts[n - 1] == tasks[n - 1];
    Pair(ts, |m|, i, n);
    Pair(ts, |m|, i, n - 1);
    Pair(ts, |m|, n, n);
    var last := tasks[n - 1].ctx + 12;
    StoredIsWithin(m, m1, last, t.ctx);
    StoredIsWithin(m1, m2, t.ctx + 12, tasks[0].ctx);
    StoredIsWithin(m3, m4, t.ctx, sp);
    if i < n {
      SavedThroughStore(m, m1, last, ts, n - 1, i);
      SavedThroughStore(m1, m2, t.ctx + 12, ts, n, i);
      SavedKept(m2, m3, sp, t.hi, ts[i]);
      SavedKept(m3, m4, t.ctx, t.ctx + 4, ts[i]);
    } else {
      FrameKept(m3, m4, t.ctx, t.ctx + 4, sp, t.saved);
    }
  }

  /** A task that has not run yet: all registers zero, about to return to its entry point. The
      code starts its stack 4096 words past the block it allocated. */
  function NewTask(entry: u32, stack: u32, ctx: nat, lo: nat): Task {
    Task(ctx, lo, stack + 16388, Snapshot(ZERO, entry, stack + 16384))
  }

  lemma StackStart(m: seq<u8>, m': seq<u8>, top: nat, v: u32)
    requires Stored32(m, m', top, v)
    ensures Words(m', top, [v]) && OnlyWithin(m, m', top, top + 4)
  {
  }

  /** A frame with the word 0x08 behind it, the way create leaves one. */
  ghost predicate NewFrameAt(m: seq<u8>, sp: nat, s: Snapshot) {
    Words(m, sp, FrameWords(s) + [0x08])
  }

  lemma NewFrameIsFrame(m: seq<u8>, sp: nat, s: Snapshot)
    requires NewFrameAt(m, sp, s)
    ensures FrameAt(m, sp, s) && sp + 36 <= |m| && Get32(m, sp + 32) == 0x08
  {
    hide Get32;
    var ws := FrameWords(s) + [0x08];
    assert Get32(m, sp + 4 * 8) == ws[8];
    forall k | 0 <= k < 8 ensures Get32(m, sp + 4 * k) == FrameWords(s)[k] {
      assert Get32(m, sp + 4 * k) == ws[k];
    }
  }

  /** The hand-built stack of a new task: 0x08, the entry point, seven zeros, from the top down. */
  method BuildStack(mem: array<u8>, top: u32, entry: u32) returns (sp: u32)
    requires 32 <= top && top + 4 <= mem.Length && top + 4 < 0x1_0000_0000
    modifies mem
    ensures sp == top - 32 && NewFrameAt(mem[..], sp, Snapshot(ZERO, entry, top))
    ensures OnlyWithin(old(mem[..]), mem[..], sp, top + 4)
  {
    hide Words, OnlyWithin, Get32, Stored32;
    ghost var m0, end, ws := mem[..], top + 4, [0x08];
    Store32(mem, top, 0x08);
    StackStart(m0, mem[..], top, 0x08);
    sp := PushWord(mem, top, entry, ws, m0, end);
    ws := [entry] + ws;
    sp := PushWord(mem, sp, 0, ws, m0, end);
    ws := [0] + ws;
    sp := PushWord(mem, sp, 0, ws, m0, end);
    ws := [0] + ws;
    sp := PushWord(mem, sp, 0, ws, m0, end);
    ws := [0] + ws;
    sp := PushWord(mem, sp, 0, ws, m0, end);
    ws := [0] + ws;
    sp := PushWord(mem, sp, 0, ws, m0, end);
    ws := [0] + ws;
    sp := PushWord(mem, sp, 0, ws, m0, end);
    ws := [0] + ws;
    sp := PushWord(mem, sp, 0, ws, m0, end);
    assert [0] + ws == FrameWords(Snapshot(ZERO, entry, top)) + [0x08];
  }

  lemma StoredLength(m: seq<u8>, m': seq<u8>, a: nat, v: u32)
    requires Stored32(m, m', a, v)
    ensures |m'| == |m|
  {
  }

  lemma CreateFits(m: seq<u8>, tasks: seq<Task>, cur: nat, t: Task, end: nat)
    requires RingOk(m, tasks, cur) && end == tasks[|tasks| - 1].ctx && Separate(tasks + [t], |m|)
    ensures cur < |tasks| && end + 16 <= |m| < 0x1_0000_0000 && t.ctx + 16 <= |m| && t.hi <= |m|
  {
    assert (tasks + [t])[|tasks|] == t;
  }

  /** The new context is spliced in behind the last one, with its frame in place. */
  lemma Created(m: seq<u8>, m1: seq<u8>, m2: seq<u8>, m3: seq<u8>, m4: seq<u8>,
                tasks: seq<Task>, cur: nat, t: Task, sp: u32)
    requires RingOk(m, tasks, cur) && Separate(tasks + [t], |m|) && tasks != []
    requires t.ctx < 0x1_0000_0000 && tasks[0].ctx < 0x1_0000_0000
    requires Stored32(m, m1, tasks[|tasks| - 1].ctx + 12, t.ctx) && Stored32(m1, m2, t.ctx + 12, tasks[0].ctx)
    requires OnlyWithin(m2, m3, sp, t.hi) && t.lo <= sp && sp + 32 == t.saved.esp <= t.hi && FrameAt(m3, sp, t.saved)
    requires Stored32(m3, m4, t.ctx, sp)
    ensures RingOk(m4, tasks + [t], cur)
  {
    var ts := tasks + [t];
    assert |m4| == |m|;
    forall i | 0 <= i < |ts| ensures LinkOk(m4, ts, i) {
      CreatedLink(m, m1, m2, m3, m4, tasks, cur, t, sp, i);
    }
    forall i | 0 <= i < |ts| && i != cur ensures SavedOk(m4, ts[i]) {
      CreatedSaved(m, m1, m2, m3, m4, tasks, cur, t, sp, i);
    }
  }

  // ----- steps -----

  datatype State = State(mem: seq<u8>, regs: Registers, esp: nat, eip: u32, tasks: seq<Task>, cur: nat)

  datatype Event = Work | Switch | Create(entry: u32, stack: u32, ctx: u32, lo: nat)

  ghost predicate Good(s: State) {
    RingOk(s.mem, s.tasks, s.cur) && s.tasks[s.cur].lo <= s.esp <= s.tasks[s.cur].hi
  }

  /** The bytes task t needs to be resumed: its context record and its stack. */
  ghost predicate Spared(m: seq<u8>, m': seq<u8>, t: Task) {
    && |m'| == |m|
    && (forall x :: t.ctx <= x < t.ctx + 16 && x < |m| ==> m'[x] == m[x])
    && (forall x :: t.lo <= x < t.hi && x < |m| ==> m'[x] == m[x])
  }

  /** The current task may write anywhere but to context records and other tasks' stacks. */
  ghost predicate Polite(m: seq<u8>, m': seq<u8>, tasks: seq<Task>, cur: nat) {
    && |m'| == |m|
    && (forall i {:trigger Spared(m, m', tasks[i])} :: 0 <= i < |tasks| && i != cur ==> Spared(m, m', tasks[i]))
    && (cur < |tasks| ==> forall x :: tasks[cur].ctx <= x < tasks[cur].ctx + 16 && x < |m| ==> m'[x] == m[x])
  }

  /** The current state of the running task when it calls switch_context. */
  ghost function Captured(s: State): Snapshot
    requires s.esp + 4 <= |s.mem|
  {
    Snapshot(s.regs, Get32(s.mem, s.esp), s.esp + 4)
  }

  /** The bytes a switch writes, by way of m1: the frame of s on the stack of task t below its old top,
      then the stack pointer in its context. */
  ghost predicate SavedVia(m: seq<u8>, m1: seq<u8>, m': seq<u8>, t: Task, s: Snapshot) {
    && t.lo + 32 <= s.esp <= t.hi && s.esp < 0x1_0000_0000
    && OnlyWithin(m, m1, t.lo, t.hi) && FrameAt(m1, s.esp - 32, s)
    && Stored32(m1, m', t.ctx, s.esp - 32)
  }

  ghost predicate Saved(m: seq<u8>, m': seq<u8>, t: Task, s: Snapshot) {
    exists m1 :: SavedVia(m, m1, m', t, s)
  }

  /** The processor holds what memory keeps for the task with context ctx: its stack pointer is in the
      context, the rest lies on that stack. */
  ghost predicate Restored(m: seq<u8>, ctx: nat, now: Snapshot) {
    ctx + 16 <= |m| && now.esp == Get32(m, ctx) + 32 && FrameAt(m, Get32(m, ctx), now)
  }

  /** The bytes create writes: the two links of the ring, the frame built from the top of the new stack
      down to sp, the stack pointer in the new context. */
  ghost predicate SplicedVia(m: seq<u8>, m1: seq<u8>, m2: seq<u8>, m3: seq<u8>, m': seq<u8>,
                             last: nat, first: nat, t: Task) {
    && t.ctx < 0x1_0000_0000 && first < 0x1_0000_0000 && 32 <= t.saved.esp < 0x1_0000_0000
    && Stored32(m, m1, last + 12, t.ctx) && Stored32(m1, m2, t.ctx + 12, first)
    && OnlyWithin(m2, m3, t.saved.esp - 32, t.hi) && NewFrameAt(m3, t.saved.esp - 32, t.saved)
    && Stored32(m3, m', t.ctx, t.saved.esp - 32)
  }

  ghost predicate Spliced(m: seq<u8>, m': seq<u8>, last: nat, first: nat, t: Task) {
    exists m1, m2, m3 :: SplicedVia(m, m1, m2, m3, m', last, first, t)
  }

  /** One step of the system, told by the bytes it writes and the registers it loads: SwitchContext and
      Create ensure theirs, anything polite may happen in between. */
  ghost predicate Step(s: State, e: Event, t: State) {
    s.cur < |s.tasks| &&
    match e
    case Work =>
      && t.tasks == s.tasks && t.cur == s.cur
      && Polite(s.mem, t.mem, s.tasks, s.cur)
      && s.tasks[s.cur].lo <= t.esp <= s.tasks[s.cur].hi
    case Switch =>
      && s.tasks[s.cur].lo + 28 <= s.esp && s.esp + 4 <= s.tasks[s.cur].hi && s.esp + 4 <= |s.mem|
      && Saved(s.mem, t.mem, s.tasks[s.cur], Captured(s))
      && t.tasks == Suspend(s.tasks, s.cur, Captured(s)) && t.cur < |t.tasks|
      && s.tasks[s.cur].ctx + 16 <= |s.mem| && t.tasks[t.cur].ctx == Get32(s.mem, s.tasks[s.cur].ctx + 12)
      && Restored(t.mem, t.tasks[t.cur].ctx, Snapshot(t.regs, t.eip, t.esp))
    case Create(entry, stack, ctx, lo) =>
      && Separate(s.tasks + [NewTask(entry, stack, ctx, lo)], |s.mem|) && lo <= stack + 16352
      && Spliced(s.mem, t.mem, s.tasks[|s.tasks| - 1].ctx, s.tasks[0].ctx, NewTask(entry, stack, ctx, lo))
      && t.tasks == s.tasks + [NewTask(entry, stack, ctx, lo)]
      && t.cur == s.cur && t.regs == s.regs && t.esp == s.esp && t.eip == s.eip
  }

  // ----- what the bytes mean -----

  lemma ContextsDiffer(tasks: seq<Task>, size: nat, i: nat, j: nat)
    requires Separate(tasks, size) && i < |tasks| && j < |tasks| && tasks[i].ctx == tasks[j].ctx
    ensures i == j
  {
  }

  /** A frame determines what was saved in it. */
  lemma SameFrame(m: seq<u8>, sp: nat, s: Snapshot, now: Snapshot)
    requires FrameAt(m, sp, s) && FrameAt(m, sp, now) && s.esp == now.esp
    ensures s == now
  {
    hide Get32, FrameAt;
    FrameFields(m, sp, s);
    FrameFields(m, sp, now);
  }

  lemma SavedSuspends(m: seq<u8>, m': seq<u8>, tasks: seq<Task>, cur: nat, s: Snapshot, next: nat)
    requires RingOk(m, tasks, cur) && next < |tasks| && Saved(m, m', tasks[cur], s)
    ensures RingOk(m', Suspend(tasks, cur, s), next)
    ensures SavedOk(m', Suspend(tasks, cur, s)[next])
  {
    var m1 :| SavedVia(m, m1, m', tasks[cur], s);
    hide RingOk, FrameAt, OnlyWithin, Stored32, SavedOk, Suspend;
    SwitchedOut(m, m1, m', tasks, cur, s.esp - 32, s, next);
  }

  /** From the bytes alone: a switch suspends the current task with what it was doing and continues the
      next task in the ring with what it was doing when it was suspended. */
  lemma SwitchMeans(s: State, t: State)
    requires Good(s) && Step(s, Switch, t)
    ensures t.cur == Succ(s.cur, |s.tasks|)
    ensures Snapshot(t.regs, t.eip, t.esp) == t.tasks[t.cur].saved
    ensures Good(t)
  {
    hide Saved, FrameAt, LinkOk, Get32;
    assert LinkOk(s.mem, s.tasks, s.cur);
    NextContext(s.mem, s.tasks, s.cur);
    ContextsDiffer(s.tasks, |s.mem|, t.cur, Succ(s.cur, |s.tasks|));
    SavedSuspends(s.mem, t.mem, s.tasks, s.cur, Captured(s), t.cur);
    SavedFits(t.mem, t.tasks, t.cur);
    SameFrame(t.mem, Get32(t.mem, t.tasks[t.cur].ctx), t.tasks[t.cur].saved, Snapshot(t.regs, t.eip, t.esp));
  }

  lemma NewFrameKept(m: seq<u8>, m': seq<u8>, a: nat, sp: u32, s: Snapshot)
    requires NewFrameAt(m, sp, s) && Stored32(m, m', a, sp) && Disjoint(a, a + 4, sp, sp + 36)
    ensures NewFrameAt(m', sp, s)
  {
    hide Get32;
    WordsKept(m, m', a, a + 4, sp, FrameWords(s) + [0x08]);
  }

  lemma CreateMeans(s: State, e: Event, t: State)
    requires Good(s) && e.Create? && Step(s, e, t)
    ensures Good(t)
  {
    hide FrameAt, OnlyWithin, Stored32, LinkOk, SavedOk, Separate;
    var n := NewTask(e.entry, e.stack, e.ctx, e.lo);
    var m1, m2, m3 :| SplicedVia(s.mem, m1, m2, m3, t.mem, s.tasks[|s.tasks| - 1].ctx, s.tasks[0].ctx, n);
    NewFrameIsFrame(m3, n.saved.esp - 32, n.saved);
    Created(s.mem, m1, m2, m3, t.mem, s.tasks, s.cur, n, n.saved.esp - 32);
  }

  /** The dwords create leaves: 0x08 at the top of the new stack, 16384 bytes above its base, below it the
      entry point, seven zeros below that; the lowest of them in the esp field of the new context; and the
      last, the new and the first context linked in that order. */
  lemma CreateInDwords(s: State, t: State, entry: u32, stack: u32, ctx: u32, lo: nat)
    requires Good(s) && Step(s, Event.Create(entry, stack, ctx, lo), t)
    ensures stack + 16388 <= |t.mem| && ctx + 16 <= |t.mem|
    ensures Get32(t.mem, stack + 16384) == 0x08 && Get32(t.mem, stack + 16380) == entry
    ensures forall k :: 0 <= k < 7 ==> Get32(t.mem, stack + 16352 + 4 * k) == 0
    ensures Get32(t.mem, ctx) == stack + 16352 && Get32(t.mem, ctx + 12) == s.tasks[0].ctx
    ensures s.tasks[|s.tasks| - 1].ctx + 16 <= |t.mem| && Get32(t.mem, s.tasks[|s.tasks| - 1].ctx + 12) == ctx
    ensures t.tasks[..|s.tasks|] == s.tasks && |t.tasks| == |s.tasks| + 1 && t.tasks[|s.tasks|].ctx == ctx
  {
    hide FrameAt, NewFrameAt, OnlyWithin, Stored32, SavedOk, Separate, Get32;
    var n := NewTask(entry, stack, ctx, lo);
    var last, first := s.tasks[|s.tasks| - 1].ctx, s.tasks[0].ctx;
    var m1, m2, m3 :| SplicedVia(s.mem, m1, m2, m3, t.mem, last, first, n);
    CreateMeans(s, Event.Create(entry, stack, ctx, lo), t);
    assert LinkOk(t.mem, t.tasks, |s.tasks| - 1) && LinkOk(t.mem, t.tasks, |s.tasks|);
    Pair(t.tasks, |t.mem|, |s.tasks|, |s.tasks|);
    NewFrameKept(m3, t.mem, ctx, stack + 16352, n.saved);
    StoredIsWithin(m3, t.mem, ctx, stack + 16352);
    NewFrameIsFrame(t.mem, stack + 16352, n.saved);
    FrameFields(t.mem, stack + 16352, n.saved);
    var sp := stack + 16352;
    forall k | 0 <= k < 7 ensures Get32(t.mem, stack + 16352 + 4 * k) == 0 {
      assert k == 0 || k == 1 || k == 2 || k == 3 || k == 4 || k == 5 || k == 6;
    }
  }

  // ----- the processor -----

  class Cpu {
    const mem: array<u8>
    var eax: u32
    var ebx: u32
    var ecx: u32
    var edx: u32
    var esi: u32
    var edi: u32
    var ebp: u32
    var esp: u32
    /** Where control goes when switch_context returns. */
    var eip: u32
    var currentTask: u32
    var tasksStart: u32
    var tasksEnd: u32
    ghost var tasks: seq<Task>
    ghost var cur: nat

    ghost predicate Valid()
      reads this, mem
    {
      && RingOk(mem[..], tasks, cur)
      && currentTask == tasks[cur].ctx && tasksStart == tasks[0].ctx && tasksEnd == tasks[|tasks| - 1].ctx
      && tasks[cur].lo <= esp <= tasks[cur].hi
    }

    /** tasks::init: the code already running becomes the only task, followed by itself. */
    constructor (memory: array<u8>, ctx: u32, ghost lo: nat, ghost hi: nat, sp: u32)
      requires Separate([Task(ctx, lo, hi, Snapshot(ZERO, 0, 0))], memory.Length) && lo <= sp <= hi
      modifies memory
      ensures Valid() && mem == memory && cur == 0 && esp == sp
      ensures tasks == [Task(ctx, lo, hi, Snapshot(ZERO, 0, 0))]
    {
      mem := memory;
      eax, ebx, ecx, edx, esi, edi, ebp, esp, eip := 0, 0, 0, 0, 0, 0, 0, sp, 0;
      tasksStart, tasksEnd, currentTask := ctx, ctx, ctx;
      tasks, cur := [Task(ctx, lo, hi, Snapshot(ZERO, 0, 0))], 0;
      new;
      assert tasks[0].ctx == ctx;
      Store32(mem, tasksStart + 12, ctx);
    }

    function Regs(): Registers
      reads this
    {
      Registers(eax, ebx, ecx, edx, esi, edi, ebp)
    }

    ghost function Abs(): State
      reads this, mem
    {
      State(mem[..], Regs(), esp, eip, tasks, cur)
    }

    /** switch_context has just been called: the return address is on the stack, with room below it
        for seven registers. */
    ghost predicate AtSwitch()
      requires Valid()
      reads this, mem
    {
      tasks[cur].lo + 28 <= esp && esp + 4 <= tasks[cur].hi
    }

    method Pop() returns (v: u32)
      requires esp + 4 <= mem.Length && esp + 4 < 0x1_0000_0000
      modifies `esp
      ensures v == Get32(mem[..], old(esp)) && esp == old(esp) + 4
    {
      v := Load32(mem, esp);
      esp := Add32(esp, 4);
    }

    method PushRegisters()
      requires 28 <= esp && esp + 4 <= mem.Length
      modifies mem, `esp
      ensures esp == old(esp) - 28
      ensures FrameAt(mem[..], esp, Snapshot(Regs(), old(Get32(mem[..], esp)), old(esp) + 4))
      ensures OnlyWithin(old(mem[..]), mem[..], esp, old(esp))
    {
      hide Words, OnlyWithin, Get32;
      ghost var ws, m0, top := [Get32(mem[..], esp)], mem[..], esp;
      WordsStart(m0, top);
      esp := PushWord(mem, esp, eax, ws, m0, top);
      ws := [eax] + ws;
      esp := PushWord(mem, esp, ebx, ws, m0, top);
      ws := [ebx] + ws;
      esp := PushWord(mem, esp, ecx, ws, m0, top);
      ws := [ecx] + ws;
      esp := PushWord(mem, esp, edx, ws, m0, top);
      ws := [edx] + ws;
      esp := PushWord(mem, esp, esi, ws, m0, top);
      ws := [esi] + ws;
      esp := PushWord(mem, esp, edi, ws, m0, top);
      ws := [edi] + ws;
      esp := PushWord(mem, esp, ebp, ws, m0, top);
      ws := [ebp] + ws;
      assert ws == FrameWords(Snapshot(Regs(), old(Get32(mem[..], esp)), old(esp) + 4));
    }

    /** Pop the seven registers and return. */
    method Resume(ghost s: Snapshot)
      requires FrameAt(mem[..], esp, s) && esp + 32 < 0x1_0000_0000
      modifies `eax, `ebx, `ecx, `edx, `esi, `edi, `ebp, `esp, `eip
      ensures Regs() == s.regs && eip == s.eip && esp == old(esp) + 32
    {
      hide FrameAt, FrameWords, Words, Get32;
      FrameFields(mem[..], esp, s);
      ebp := Pop();
      edi := Pop();
      esi := Pop();
      edx := Pop();
      ecx := Pop();
      ebx := Pop();
      eax := Pop();
      eip := Pop();
    }

    /** The first half of switch_context: registers pushed, esp stored in the current context. */
    method SaveCurrent()
      requires Valid() && AtSwitch()
      modifies mem, `esp, `esi, `edi, `eax
      ensures var s := Snapshot(old(Regs()), old(Get32(mem[..], esp)), old(esp) + 4);
        var next := Succ(cur, |tasks|);
        && Saved(old(mem[..]), mem[..], tasks[cur], s)
        && RingOk(mem[..], Suspend(tasks, cur, s), next) && SavedOk(mem[..], Suspend(tasks, cur, s)[next])
        && edi == tasks[next].ctx
      ensures OwnBytesOnly(old(mem[..]), mem[..], tasks[cur])
    {
      hide OwnBytesOnly, Separate, LinkOk, SavedOk, FrameAt, FrameWords, Words, Get32, OnlyWithin, Stored32;
      ghost var m := mem[..];
      CurrentFits(m, tasks, cur, esp);
      ghost var s := Snapshot(Regs(), Get32(mem[..], esp), esp + 4);
      PushRegisters();
      ghost var m1 := mem[..];
      Within(m, m1, esp, s.esp - 4, tasks[cur].lo, tasks[cur].hi);
      StackWritesKeepRing(m, m1, tasks, cur);
      NextContext(m1, tasks, cur);
      esi := currentTask;
      edi := Load32(mem, esi + 12);
      eax := esp;
      Store32(mem, esi, eax);
      SwitchedOut(m, m1, mem[..], tasks, cur, esp, s, Succ(cur, |tasks|));
      assert SavedVia(m, m1, mem[..], tasks[cur], s);
      OwnBytes(m, m1, mem[..], tasks[cur], esp);
    }

    /** The second half: take the next task's stack, make it current, restore and return. */
    method Activate(ghost next: nat)
      requires RingOk(mem[..], tasks, next) && SavedOk(mem[..], tasks[next]) && edi == tasks[next].ctx
      modifies `eax, `ebx, `ecx, `edx, `esi, `edi, `ebp, `esp, `eip, `currentTask
      ensures Snapshot(Regs(), eip, esp) == tasks[next].saved && currentTask == tasks[next].ctx
      ensures tasks[next].lo <= esp <= tasks[next].hi
      ensures Restored(mem[..], tasks[next].ctx, Snapshot(Regs(), eip, esp))
    {
      hide RingOk, SavedOk, FrameAt, FrameWords, Words, Get32;
      SavedFits(mem[..], tasks, next);
      eax := Load32(mem, edi);
      esp := eax;
      currentTask := edi;
      eax := 0x20;
      Resume(tasks[next].saved);
    }

    /** Save the current task on its own stack and continue the next one in the ring. */
    method SwitchContext()
      requires Valid() && AtSwitch()
      modifies this, mem
      ensures Valid()
      ensures Step(old(Abs()), Switch, Abs())
      ensures OwnBytesOnly(old(mem[..]), mem[..], old(tasks[cur]))
      ensures tasksStart == old(tasksStart) && tasksEnd == old(tasksEnd)
    {
      hide OwnBytesOnly, RingOk, SavedOk, Get32, Saved, Restored;
      CurrentFits(mem[..], tasks, cur, esp);
      NextContext(mem[..], tasks, cur);
      ghost var s, next := Captured(Abs()), Succ(cur, |tasks|);
      SaveCurrent();
      tasks := Suspend(tasks, cur, s);
      Activate(next);
      cur := next;
    }

    /** tasks::create. The stack and the context come from kmalloc; lo is the lowest address the
        new task may use as its stack. */
    method Create(entry: u32, stack: u32, ctx: u32, ghost lo: nat)
      requires Valid() && stack + 16388 < 0x1_0000_0000 && lo <= stack + 16352
      requires Separate(tasks + [NewTask(entry, stack, ctx, lo)], mem.Length)
      modifies mem, `tasks, `tasksEnd
      ensures Valid()
      ensures Step(old(Abs()), Event.Create(entry, stack, ctx, lo), Abs())
      ensures SpliceBytesOnly(old(mem[..]), mem[..], old(tasksEnd), ctx, stack)
    {
      hide Separate, LinkOk, SavedOk, FrameAt, FrameWords, Words, Get32, OnlyWithin, Stored32, RingOk;
      hide SpliceBytesOnly, NewFrameAt;
      ghost var m, t := mem[..], NewTask(entry, stack, ctx, lo);
      CreateFits(m, tasks, cur, t, tasksEnd);
      ghost var last := tasksEnd;
      Store32(mem, tasksEnd + 12, ctx);
      ghost var m1 := mem[..];
      StoredLength(m, m1, tasksEnd + 12, ctx);
      tasksEnd := ctx;
      Store32(mem, ctx + 12, tasksStart);
      ghost var m2 := mem[..];
      var sp := BuildStack(mem, Add32(stack, 16384), entry);
      ghost var m3 := mem[..];
      NewFrameIsFrame(m3, sp, t.saved);
      Store32(mem, ctx, sp);
      Created(m, m1, m2, m3, mem[..], tasks, cur, t, sp);
      assert SplicedVia(m, m1, m2, m3, mem[..], last, tasksStart, t);
      SpliceBytes(m, m1, m2, m3, mem[..], last, ctx, stack, tasksStart, sp);
      tasks := tasks + [t];
    }
  }
}
