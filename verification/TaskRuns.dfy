/** Whole runs of the task system: running, switching and creating in any order. */
module TaskRuns {
  import opened Machine
  import opened Tasks
  import HeapBlocks

  ghost predicate IsRun(states: seq<State>, events: seq<Event>) {
    && |states| == |events| + 1
    && Good(states[0])
    && forall i :: 0 <= i < |events| ==> Step(states[i], events[i], states[i + 1])
  }

  lemma SavedSpared(m: seq<u8>, m': seq<u8>, t: Task)
    requires SavedOk(m, t) && t.hi <= |m| && |m'| == |m| && Spared(m, m', t)
    ensures SavedOk(m', t)
  {
    var sp: nat := Get32(m, t.ctx);
    assert Get32(m', t.ctx) == sp;
    forall k | 0 <= k < 8 ensures Get32(m', sp + 4 * k) == FrameWords(t.saved)[k] {
      assert Get32(m, sp + 4 * k) == FrameWords(t.saved)[k];
    }
  }

  lemma LinkSpared(m: seq<u8>, m': seq<u8>, tasks: seq<Task>, cur: nat, i: nat)
    requires i < |tasks| && cur < |tasks| && LinkOk(m, tasks, i) && Polite(m, m', tasks, cur)
    ensures LinkOk(m', tasks, i)
  {
    assert i != cur ==> Spared(m, m', tasks[i]);
  }

  lemma WorkKeepsRing(m: seq<u8>, m': seq<u8>, tasks: seq<Task>, cur: nat)
    requires RingOk(m, tasks, cur) && Polite(m, m', tasks, cur)
    ensures RingOk(m', tasks, cur)
  {
    hide SavedOk, Spared;
    forall i | 0 <= i < |tasks| ensures LinkOk(m', tasks, i) {
      assert LinkOk(m, tasks, i);
      LinkSpared(m, m', tasks, cur, i);
    }
    forall i | 0 <= i < |tasks| && i != cur ensures SavedOk(m', tasks[i]) {
      assert SavedOk(m, tasks[i]) && Spared(m, m', tasks[i]);
      SavedSpared(m, m', tasks[i]);
    }
  }

  /** What a step does, told in tasks: the current one works, the next one in the ring continues with
      what it was doing when suspended, or a new one joins at the end. */
  ghost predicate Moves(s: State, e: Event, t: State) {
    s.cur < |s.tasks| && t.cur < |t.tasks| &&
    match e
    case Work => t.tasks == s.tasks && t.cur == s.cur
    case Switch =>
      && s.esp + 4 <= |s.mem|
      && t.cur == Succ(s.cur, |s.tasks|)
      && t.tasks == Suspend(s.tasks, s.cur, Captured(s))
      && Snapshot(t.regs, t.eip, t.esp) == t.tasks[t.cur].saved
    case Create(entry, stack, ctx, lo) =>
      t.tasks == s.tasks + [NewTask(entry, stack, ctx, lo)] && t.cur == s.cur
  }

  /** The bytes a step writes and the registers it loads leave a good state, and mean this. */
  lemma StepGood(s: State, e: Event, t: State)
    requires Good(s) && Step(s, e, t)
    ensures Good(t) && Moves(s, e, t)
  {
    hide Saved, Restored, Spliced, SavedOk, LinkOk, Separate;
    match e
    case Work => WorkKeepsRing(s.mem, t.mem, s.tasks, s.cur);
    case Switch => SwitchMeans(s, t);
    case Create(_, _, _, _) => CreateMeans(s, e, t);
  }

  /** Every reachable state has a closed ring with every task but the current one resumable. */
  lemma {:induction false} RunGood(states: seq<State>, events: seq<Event>, i: nat)
    requires IsRun(states, events) && i < |states|
    ensures Good(states[i])
  {
    hide Step, Good;
    if i > 0 {
      RunGood(states, events, i - 1);
      StepGood(states[i - 1], events[i - 1], states[i]);
    }
  }

  lemma RunMoves(states: seq<State>, events: seq<Event>, i: nat)
    requires IsRun(states, events) && i < |events|
    ensures Moves(states[i], events[i], states[i + 1])
  {
    hide Good, Step, Moves;
    RunGood(states, events, i);
    assert Step(states[i], events[i], states[i + 1]);
    StepGood(states[i], events[i], states[i + 1]);
  }

  // ----- resumption -----

  /** Task k is not current in states i + 1 to j. */
  ghost predicate Waits(states: seq<State>, k: nat, i: nat, j: nat) {
    i <= j < |states| && forall t :: i < t <= j ==> states[t].cur != k
  }

  /** What a waiting task will resume with does not change while it waits. */
  lemma {:induction false} SavedStays(states: seq<State>, events: seq<Event>, k: nat, i: nat, j: nat)
    requires IsRun(states, events) && Waits(states, k, i, j) && i < j
    requires k < |states[i + 1].tasks|
    ensures k < |states[j].tasks| && states[j].tasks[k] == states[i + 1].tasks[k]
  {
    hide Good, Step;
    if i + 1 < j {
      SavedStays(states, events, k, i, j - 1);
      RunMoves(states, events, j - 1);
      assert states[j - 1].cur != k;
    }
  }

  /** A task switched out at step i and next switched in at step j continues with exactly the seven
      registers, the return address and the stack it had, whatever the others did in between. */
  lemma ResumesExactly(states: seq<State>, events: seq<Event>, k: nat, i: nat, j: nat)
    requires IsRun(states, events) && j < |events| && Waits(states, k, i, j)
    requires events[i] == Switch && states[i].cur == k
    requires events[j] == Switch && states[j + 1].cur == k
    ensures states[i].esp + 4 <= |states[i].mem|
    ensures states[j + 1].regs == states[i].regs
    ensures states[j + 1].eip == Get32(states[i].mem, states[i].esp) && states[j + 1].esp == states[i].esp + 4
  {
    hide Good, Step;
    RunMoves(states, events, i);
    RunMoves(states, events, j);
    if i < j {
      SavedStays(states, events, k, i, j);
    }
  }

  /** A new task first runs at its entry point with all seven registers zero. */
  lemma FirstRun(states: seq<State>, events: seq<Event>, k: nat, i: nat, j: nat)
    requires IsRun(states, events) && i < j < |events| && Waits(states, k, i, j)
    requires events[i].Create? && k == |states[i].tasks|
    requires events[j] == Switch && states[j + 1].cur == k
    ensures states[j + 1].regs == ZERO && states[j + 1].eip == events[i].entry
  {
    hide Good, Step;
    RunMoves(states, events, i);
    RunMoves(states, events, j);
    SavedStays(states, events, k, i, j);
  }

  // ----- the ring and its order -----

  function Creates(events: seq<Event>, i: nat, j: nat): nat
    requires i <= j <= |events|
    decreases j
  {
    if i == j then 0 else Creates(events, i, j - 1) + if events[j - 1].Create? then 1 else 0
  }

  /** Tasks stay in creation order: none is lost, moved or duplicated. */
  lemma {:induction false} OrderKept(states: seq<State>, events: seq<Event>, i: nat, j: nat)
    requires IsRun(states, events) && i <= j < |states|
    ensures |states[i].tasks| <= |states[j].tasks|
    ensures forall k :: 0 <= k < |states[i].tasks| ==> states[j].tasks[k].ctx == states[i].tasks[k].ctx
    ensures |states[j].tasks| == |states[i].tasks| + Creates(events, i, j)
  {
    hide Good, Step;
    if i < j {
      OrderKept(states, events, i, j - 1);
      RunMoves(states, events, j - 1);
    }
  }

  function Switches(events: seq<Event>, i: nat, j: nat): nat
    requires i <= j <= |events|
    decreases j
  {
    if i == j then 0 else Switches(events, i, j - 1) + if events[j - 1] == Switch then 1 else 0
  }

  /** How many switches away task k is. */
  function Distance(k: nat, cur: nat, n: nat): nat
    requires k < n && cur < n
  {
    if cur <= k then k - cur else k + n - cur
  }

  /** It is the number of places from cur on to k, counted round the ring. */
  lemma DistanceCounts(k: nat, cur: nat, n: nat)
    requires k < n && cur < n
    ensures Distance(k, cur, n) < n && (cur + Distance(k, cur, n)) % n == k
  {
    Remainder(cur + Distance(k, cur, n), if cur <= k then 0 else 1, k, n);
  }

  lemma StepDistance(s: State, e: Event, t: State, k: nat)
    requires Moves(s, e, t) && k < |s.tasks| && k != s.cur
    ensures k < |t.tasks|
    ensures Distance(k, t.cur, |t.tasks|) <= Distance(k, s.cur, |s.tasks|)
      + (if e.Create? then 1 else 0) - (if e == Switch then 1 else 0)
  {
    hide Good, Step;
  }

  lemma GoodCur(s: State)
    requires Good(s)
    ensures s.cur < |s.tasks|
  {
  }

  lemma Apart(k: nat, cur: nat, n: nat)
    requires k < n && cur < n && k != cur
    ensures Distance(k, cur, n) > 0
  {
  }

  /** No starvation: while task k has not run, the switches so far number less than its distance
      plus the tasks created meanwhile. */
  lemma {:induction false} RunsSoon(states: seq<State>, events: seq<Event>, k: nat, i: nat, j: nat)
    requires IsRun(states, events) && i <= j < |states|
    requires states[i].cur < |states[i].tasks| && k < |states[i].tasks|
    requires forall t :: i <= t <= j ==> states[t].cur != k
    ensures states[j].cur < |states[j].tasks| && k < |states[j].tasks|
    ensures Distance(k, states[j].cur, |states[j].tasks|) + Switches(events, i, j)
         <= Distance(k, states[i].cur, |states[i].tasks|) + Creates(events, i, j)
    ensures Switches(events, i, j) < Distance(k, states[i].cur, |states[i].tasks|) + Creates(events, i, j)
  {
    hide Good, Step, Distance, Moves;
    RunGood(states, events, j);
    GoodCur(states[j]);
    if i < j {
      RunsSoon(states, events, k, i, j - 1);
      RunMoves(states, events, j - 1);
      StepDistance(states[j - 1], events[j - 1], states[j], k);
    }
    Apart(k, states[j].cur, |states[j].tasks|);
  }

  lemma Advance(c: nat, m: nat, n: nat)
    requires n > 0
    ensures (c + m + 1) % n == Succ((c + m) % n, n)
  {
    var q, r := (c + m) / n, (c + m) % n;
    if r + 1 == n {
      assert (q + 1) * n == q * n + n;
      Remainder(c + m + 1, q + 1, 0, n);
    } else {
      Remainder(c + m + 1, q, r + 1, n);
    }
  }

  /** With no creates, m switches advance the ring by m places. */
  lemma {:induction false} RoundRobin(states: seq<State>, events: seq<Event>, i: nat, j: nat)
    requires IsRun(states, events) && i <= j < |states| && states[i].cur < |states[i].tasks|
    requires Creates(events, i, j) == 0
    ensures |states[j].tasks| == |states[i].tasks|
    ensures states[j].cur == (states[i].cur + Switches(events, i, j)) % |states[i].tasks|
  {
    hide Good, Step;
    if i < j {
      RoundRobin(states, events, i, j - 1);
      RunMoves(states, events, j - 1);
      Advance(states[i].cur, Switches(events, i, j - 1), |states[i].tasks|);
    }
  }

  lemma {:induction false} CountsAdd(events: seq<Event>, i: nat, t: nat, j: nat)
    requires i <= t <= j <= |events|
    ensures Creates(events, i, j) == Creates(events, i, t) + Creates(events, t, j)
    ensures Switches(events, i, j) == Switches(events, i, t) + Switches(events, t, j)
  {
    if t < j {
      CountsAdd(events, i, t, j - 1);
    }
  }

  lemma SameCount(states: seq<State>, events: seq<Event>, i: nat, t: nat, j: nat)
    requires IsRun(states, events) && i <= t <= j < |states| && states[i].cur < |states[i].tasks|
    requires Creates(events, i, j) == 0
    ensures |states[t].tasks| == |states[i].tasks|
  {
    CountsAdd(events, i, t, j);
    RoundRobin(states, events, i, t);
  }

  /** The step at which the m-th switch has just happened. */
  lemma {:induction false} FindSwitch(events: seq<Event>, i: nat, j: nat, m: nat) returns (t: nat)
    requires i <= j <= |events| && 0 < m <= Switches(events, i, j)
    ensures i < t <= j && events[t - 1] == Switch && Switches(events, i, t) == m
  {
    if events[j - 1] == Switch && Switches(events, i, j) == m {
      t := j;
    } else {
      t := FindSwitch(events, i, j - 1, m);
    }
  }

  /** Step t is a switch to task k. */
  ghost predicate SwitchedTo(states: seq<State>, events: seq<Event>, t: nat, k: nat) {
    0 < t < |states| && t <= |events| && events[t - 1] == Switch && states[t].cur == k
  }

  /** Between two switches to task k the whole ring has been gone round. */
  lemma RoundBetween(states: seq<State>, events: seq<Event>, t: nat, u: nat, k: nat)
    requires IsRun(states, events) && t < u && SwitchedTo(states, events, t, k) && SwitchedTo(states, events, u, k)
    requires k < |states[t].tasks| && Creates(events, t, u) == 0
    ensures Switches(events, t, u) >= |states[t].tasks|
  {
    hide IsRun;
    var n, s := |states[t].tasks|, Switches(events, t, u);
    RoundRobin(states, events, t, u);
    if s < n {
      if k + s < n {
        Remainder(k + s, 0, k + s, n);
      } else {
        Remainder(k + s, 1, k + s - n, n);
      }
    }
  }

  lemma SwitchCounts(states: seq<State>, events: seq<Event>, i: nat, t: nat, k: nat)
    requires SwitchedTo(states, events, t, k) && i < t
    ensures Switches(events, i, t) > 0
  {
  }

  lemma NotTwice(states: seq<State>, events: seq<Event>, i: nat, j: nat, t: nat, u: nat, k: nat)
    requires IsRun(states, events) && i < t < u <= j < |states| && k < |states[t].tasks|
    requires Creates(events, i, j) == 0 && Switches(events, i, j) <= |states[t].tasks|
    requires SwitchedTo(states, events, t, k)
    ensures !SwitchedTo(states, events, u, k)
  {
    CountsAdd(events, i, t, j);
    CountsAdd(events, t, u, j);
    hide IsRun, SwitchedTo;
    if SwitchedTo(states, events, u, k) {
      RoundBetween(states, events, t, u, k);
      SwitchCounts(states, events, i, t, k);
    }
  }

  /** As many switches as there are tasks, and no creates, run every task exactly once. */
  lemma EachRunsOnce(states: seq<State>, events: seq<Event>, i: nat, j: nat, k: nat)
    requires IsRun(states, events) && i <= j < |states| && states[i].cur < |states[i].tasks| && k < |states[i].tasks|
    requires Creates(events, i, j) == 0 && Switches(events, i, j) == |states[i].tasks|
    ensures exists t :: i < t <= j && SwitchedTo(states, events, t, k)
    ensures forall t, u ::
      i < t <= j && i < u <= j && SwitchedTo(states, events, t, k) && SwitchedTo(states, events, u, k) ==> t == u
  {
    hide Step, Good;
    var n, c := |states[i].tasks|, states[i].cur;
    var m := if c < k then k - c else k + n - c;
    var t := FindSwitch(events, i, j, m);
    CountsAdd(events, i, t, j);
    RoundRobin(states, events, i, t);
    Remainder(c + m, if c < k then 0 else 1, k, n);
    assert SwitchedTo(states, events, t, k);
    forall t: nat, u: nat | i < t < u <= j && SwitchedTo(states, events, t, k)
      ensures !SwitchedTo(states, events, u, k)
    {
      SameCount(states, events, i, t, j);
      NotTwice(states, events, i, j, t, u, k);
    }
  }

  // ----- the processor produces such runs -----

  /** What the current task can do between two switches, and the two calls. */
  datatype Action =
    | Store(a: nat, v: u8)
    | Compute(regs: Registers)
    | Adjust(sp: u32)
    | CallSwitch
    | CallCreate(entry: u32, stack: u32, ctx: u32, lo: nat)
  {
    function Kind(): Event {
      match this
      case CallSwitch => Switch
      case CallCreate(entry, stack, ctx, lo) => Event.Create(entry, stack, ctx, lo)
      case _ => Work
    }
  }

  /** A task stores into its own stack only, calls switch_context with its return address and room for
      seven registers on it, and creates tasks in memory nobody uses. */
  ghost predicate Allowed(s: State, a: Action)
    requires Good(s)
  {
    match a
    case Store(x, _) => s.tasks[s.cur].lo <= x < s.tasks[s.cur].hi
    case Compute(_) => true
    case Adjust(sp) => s.tasks[s.cur].lo <= sp <= s.tasks[s.cur].hi
    case CallSwitch => s.tasks[s.cur].lo + 28 <= s.esp && s.esp + 4 <= s.tasks[s.cur].hi
    case CallCreate(entry, stack, ctx, lo) =>
      && stack + 16388 < 0x1_0000_0000 && lo <= stack + 16352
      && Separate(s.tasks + [NewTask(entry, stack, ctx, lo)], |s.mem|)
  }

  /** The result of an action: a step, and for the task's own work just what it asked for. */
  ghost predicate Act(s: State, a: Action, t: State) {
    && Step(s, a.Kind(), t)
    && match a
       case Store(x, v) => x < |s.mem| && t == s.(mem := s.mem[x := v])
       case Compute(regs) => t == s.(regs := regs)
       case Adjust(sp) => t == s.(esp := sp)
       case _ => true
  }

  /** Every action is allowed when its turn comes. */
  ghost predicate AllAllowed(s: State, actions: seq<Action>)
    decreases |actions|
  {
    actions == [] || (
      && Good(s) && Allowed(s, actions[0])
      && forall t :: Act(s, actions[0], t) && Good(t) ==> AllAllowed(t, actions[1..]))
  }

  lemma StoreIsWork(s: State, x: nat, v: u8)
    requires Good(s) && Allowed(s, Store(x, v))
    ensures x < |s.mem| && Act(s, Store(x, v), s.(mem := s.mem[x := v])) && Good(s.(mem := s.mem[x := v]))
  {
    hide LinkOk, SavedOk;
    var m := s.mem[x := v];
    StackWritesKeepRing(s.mem, m, s.tasks, s.cur);
    forall i | 0 <= i < |s.tasks| && i != s.cur ensures Spared(s.mem, m, s.tasks[i]) {
      Pair(s.tasks, |s.mem|, i, s.cur);
    }
    Pair(s.tasks, |s.mem|, s.cur, s.cur);
  }

  lemma ValidIsGood(cpu: Cpu)
    requires cpu.Valid()
    ensures Good(cpu.Abs())
  {
  }

  /** Registers alone. */
  lemma ComputeIsWork(s: State, a: Action, t: State)
    requires Good(s) && Allowed(s, a) && (a.Compute? || a.Adjust?)
    requires t == if a.Compute? then s.(regs := a.regs) else s.(esp := a.sp)
    ensures Good(t) && Act(s, a, t)
  {
    hide LinkOk, SavedOk, Separate;
  }

  method Perform(cpu: Cpu, a: Action)
    requires cpu.Valid() && Allowed(cpu.Abs(), a)
    modifies cpu, cpu.mem
    ensures cpu.Valid() && Good(cpu.Abs())
    ensures Act(old(cpu.Abs()), a, cpu.Abs())
  {
    hide RingOk, Separate, Saved, Restored, Spliced, Polite;
    ghost var s := cpu.Abs();
    ValidIsGood(cpu);
    match a
    case Store(x, v) =>
      StoreIsWork(s, x, v);
      cpu.mem[x] := v;
    case Compute(regs) =>
      cpu.eax, cpu.ebx, cpu.ecx, cpu.edx := regs.eax, regs.ebx, regs.ecx, regs.edx;
      cpu.esi, cpu.edi, cpu.ebp := regs.esi, regs.edi, regs.ebp;
      ComputeIsWork(s, a, cpu.Abs());
    case Adjust(sp) =>
      cpu.esp := sp;
      ComputeIsWork(s, a, cpu.Abs());
    case CallSwitch =>
      cpu.SwitchContext();
    case CallCreate(entry, stack, ctx, lo) =>
      cpu.Create(entry, stack, ctx, lo);
  }

  function Kinds(actions: seq<Action>): seq<Event> {
    seq(|actions|, i requires 0 <= i < |actions| => actions[i].Kind())
  }

  lemma RunOn(states: seq<State>, events: seq<Event>, e: Event, t: State)
    requires IsRun(states, events) && Step(states[|events|], e, t)
    ensures IsRun(states + [t], events + [e])
  {
    hide Step, Good;
    var ss, es := states + [t], events + [e];
    forall i | 0 <= i < |es| ensures Step(ss[i], es[i], ss[i + 1]) {
      if i < |events| {
        assert Step(states[i], events[i], states[i + 1]);
      }
    }
  }

  /** Any list of allowed actions is a run of the real switch and the real create. */
  method PerformAll(cpu: Cpu, actions: seq<Action>) returns (ghost states: seq<State>)
    requires cpu.Valid() && AllAllowed(cpu.Abs(), actions)
    modifies cpu, cpu.mem
    ensures cpu.Valid()
    ensures IsRun(states, Kinds(actions)) && states[0] == old(cpu.Abs()) && states[|actions|] == cpu.Abs()
  {
    hide Step, Allowed, Cpu.Valid, RingOk;
    states := [cpu.Abs()];
    ValidIsGood(cpu);
    var i := 0;
    while i < |actions|
      invariant 0 <= i <= |actions| && cpu.Valid() && Good(cpu.Abs())
      invariant AllAllowed(cpu.Abs(), actions[i..])
      invariant IsRun(states, Kinds(actions[..i])) && states[0] == old(cpu.Abs()) && states[i] == cpu.Abs()
    {
      assert actions[i..][0] == actions[i] && actions[i..][1..] == actions[i + 1..];
      Perform(cpu, actions[i]);
      RunOn(states, Kinds(actions[..i]), actions[i].Kind(), cpu.Abs());
      assert Kinds(actions[..i]) + [actions[i].Kind()] == Kinds(actions[..i + 1]);
      states := states + [cpu.Abs()];
      i := i + 1;
    }
    assert actions[..i] == actions;
  }

  // ----- where a new task's first frame lies -----

  /** create() asks the heap for 4096 bytes but builds the frame 4096 words past the block's start, so
      in every heap the frame [p + 16352, p + 16388) lies wholly outside the block it was given. */
  lemma FrameOutsideBlock(bs: seq<HeapBlocks.Block>, lo: nat, hi: nat, entry: u32, stack: u32, ctx: nat, low: nat)
    requires HeapBlocks.WellFormed(bs, lo, hi) && HeapBlocks.CanMalloc(bs, 4096)
    requires stack == HeapBlocks.Granted(bs, 4096).Payload()
    ensures HeapBlocks.Granted(bs, 4096).End() <= stack + 16352 == NewTask(entry, stack, ctx, low).saved.esp - 32
  {
    HeapBlocks.FirstFitLowest(bs, lo, hi, 4096);
  }
}
