/** The kernel's own tables: pid and shell masks, one current pid per terminal, process control
    blocks with parent links, the task state segment and page-directory entry 32.  Every
    operation is proved to do to Machines.Machine what that operation means there. */
module Kernels {
  import opened Prelude
  import opened Machines
  import opened Scheduling

  /** The fields of pcb_block_t that `execute`, `halt` and `schedule` use. */
  datatype Pcb = Pcb(
    parent: int,
    prevEsp0: int, prevCtx: Context, prevEip: int,
    programEsp0: int, programCtx: Context)

  /** A snapshot of the tables. */
  datatype View = View(pidMask: seq<bool>, shellMask: seq<bool>, typing: seq<bool>, pidArr: seq<int>, pcbs: seq<Pcb>,
                       page: int, esp0: int)

  /** Top of process p's kernel stack. */
  function Esp0(p: int): int { 0x800000 - 0x2000 * p - 4 }

  /** Where `create_pcb` puts process p's control block: at the bottom of an 8 KB block below 8 MB. */
  function ControlBlock(p: int): int { 0x800000 - 0x2000 * (p + 1) }

  predicate InBlock(address: int, p: int) {
    ControlBlock(p) <= address < ControlBlock(p) + 0x2000
  }

  /** The kernel stack of a process is the rest of its block, and the blocks are disjoint and all in the
      kernel's own page, the 4 MB below 8 MB. */
  lemma KernelStacksApart(p: int, q: int)
    requires 0 <= p < q < PROCESSES
    ensures ControlBlock(p) < Esp0(p) && Esp0(p) + 4 == ControlBlock(p) + 0x2000 <= 0x800000
    ensures 0x400000 < ControlBlock(q) < Esp0(q) && Esp0(q) + 4 <= ControlBlock(p) && Esp0(q) + 0x2000 <= Esp0(p)
    ensures forall address :: !(InBlock(address, p) && InBlock(address, q))
  {
  }

  // ---------- the coupling between tables and machine ----------

  ghost predicate Sized(v: View) {
    |v.pidMask| == |v.shellMask| == |v.pcbs| == PROCESSES && |v.pidArr| == |v.typing| == TERMINALS
  }

  ghost predicate FrameStored(v: View, m: Machine, t: int, i: int)
    requires Sized(v) && 0 <= t < |m.stacks| && 0 <= i < |m.stacks[t]|
  {
    var f := m.stacks[t][i];
    && 0 <= f.pid < PROCESSES
    && v.pcbs[f.pid].parent == (if i == 0 then f.pid else m.stacks[t][i - 1].pid)
    && v.pcbs[f.pid].prevCtx == f.ret && v.pcbs[f.pid].prevEip == f.program.entry
    && v.shellMask[f.pid] == f.program.isShell
  }

  /** The masks hold exactly the pids on the stacks, `pidArr` their tops, and the parent links
      their order. */
  ghost predicate Coupled(v: View, m: Machine) {
    && Sized(v) && Stacked(m) && v.typing == m.typing
    && (forall p :: 0 <= p < PROCESSES ==> (v.pidMask[p] <==> Live(m, p)))
    && (forall p :: 0 <= p < PROCESSES && !v.pidMask[p] ==> !v.shellMask[p])
    && (forall t :: 0 <= t < TERMINALS ==>
          v.pidArr[t] == if m.stacks[t] == [] then -1 else Top(m.stacks[t]).pid)
    && (forall t, i :: 0 <= t < TERMINALS && 0 <= i < |m.stacks[t]| ==> FrameStored(v, m, t, i))
  }

  ghost predicate NestedAt(v: View, m: Machine, t: int, i: int)
    requires Sized(v) && 0 <= t < |m.stacks| && 0 < i < |m.stacks[t]|
  {
    var p := m.stacks[t][i].pid;
    0 <= p < PROCESSES && v.pcbs[p].prevEsp0 == Esp0(m.stacks[t][i - 1].pid)
  }

  /** A nested program remembers its parent's kernel stack. */
  ghost predicate Nested(v: View, m: Machine)
    requires Coupled(v, m)
  {
    forall t, i :: 0 <= t < TERMINALS && 0 < i < |m.stacks[t]| ==> NestedAt(v, m, t, i)
  }

  ghost predicate SuspendedAt(v: View, m: Machine, t: int)
    requires Sized(v) && |m.saved| == TERMINALS && 0 <= t < TERMINALS
  {
    var p := v.pidArr[t];
    0 <= p < PROCESSES && v.pcbs[p].programCtx == m.saved[t] && v.pcbs[p].programEsp0 == Esp0(p)
  }

  /** A terminal that is not running holds the context it was switched out with. */
  ghost predicate Suspended(v: View, m: Machine)
    requires Coupled(v, m)
  {
    forall t :: 0 <= t < TERMINALS && t != m.running && m.stacks[t] != [] ==> SuspendedAt(v, m, t)
  }

  /** The mapped program page and kernel stack are those of the scheduled terminal's program. */
  ghost predicate Current(v: View, m: Machine)
    requires Coupled(v, m)
  {
    m.running >= 0 ==> v.page == 2 + v.pidArr[m.running] && v.esp0 == Esp0(v.pidArr[m.running])
  }

  ghost predicate Synced(v: View, m: Machine)
    requires Coupled(v, m)
  {
    Nested(v, m) && Suspended(v, m) && Current(v, m)
  }

  /** So while page and stack registers agree with the machine, system calls of the scheduled program run
      on its own kernel stack and on nobody else's, and it sees its own page, which is none of the
      kernel's. */
  lemma StackAndPageAreOwn(v: View, m: Machine, q: int)
    requires Coupled(v, m) && WellFormed(m) && Synced(v, m) && m.running >= 0 && 0 <= q < PROCESSES
    ensures InBlock(v.esp0, q) <==> q == Top(m.stacks[m.running]).pid
    ensures v.page == 2 + q <==> q == Top(m.stacks[m.running]).pid
    ensures 0x400000 < v.esp0 < 0x800000 <= v.page * 0x400000
  {
    var p := v.pidArr[m.running];
    assert Holds(m, p, m.running, |m.stacks[m.running]| - 1);
    if p < q { KernelStacksApart(p, q); }
    if q < p { KernelStacksApart(q, p); }
  }

  /** The registers are a matter of what is scheduled. */
  lemma SameTopSameRegisters(v: View, m: Machine, v': View, m': Machine)
    requires Coupled(v, m) && Current(v, m) && Coupled(v', m') && Current(v', m')
    requires 0 <= m.running == m'.running && m'.stacks[m.running] == m.stacks[m.running]
    ensures v'.page == v.page && v'.esp0 == v.esp0
  {
  }

  /** What a nested program remembers for its end lies on its parent's kernel stack and on no other. */
  lemma RememberedStackIsTheParents(v: View, m: Machine, t: int, i: int, q: int)
    requires Coupled(v, m) && Nested(v, m) && 0 <= t < TERMINALS && 0 < i < |m.stacks[t]| && 0 <= q < PROCESSES
    ensures 0 <= m.stacks[t][i].pid < PROCESSES
    ensures InBlock(v.pcbs[m.stacks[t][i].pid].prevEsp0, q) <==> q == m.stacks[t][i - 1].pid
  {
    var p := m.stacks[t][i - 1].pid;
    assert NestedAt(v, m, t, i) && Holds(m, p, t, i - 1);
    if p < q { KernelStacksApart(p, q); }
    if q < p { KernelStacksApart(q, p); }
  }

  // ---------- the parent links are acyclic ----------

  function Ancestor(v: View, p: int, n: nat): int
    requires Sized(v)
    decreases n
  {
    if n == 0 || !(0 <= p < PROCESSES) then p else Ancestor(v, v.pcbs[p].parent, n - 1)
  }

  lemma {:induction false} AncestorsAreTheStack(v: View, m: Machine, t: int, i: nat, n: nat)
    requires Coupled(v, m) && 0 <= t < TERMINALS && n <= i < |m.stacks[t]|
    ensures Ancestor(v, m.stacks[t][i].pid, n) == m.stacks[t][i - n].pid
  {
    assert FrameStored(v, m, t, i);
    if n > 0 { AncestorsAreTheStack(v, m, t, i - 1, n - 1); }
  }

  /** Every live process reaches its terminal's base shell through its parents, and no process
      below the base shell is its own ancestor; pid order plays no part in it. */
  lemma ParentLinksAreAcyclic(v: View, m: Machine, p: int)
    requires Coupled(v, m) && 0 <= p < PROCESSES && v.pidMask[p]
    ensures exists t, i :: Holds(m, p, t, i) && Ancestor(v, p, i) == t && t < TERMINALS
                           && forall n :: 0 < n <= i ==> Ancestor(v, p, n) != p
  {
    var t, i :| Holds(m, p, t, i);
    AncestorsAreTheStack(v, m, t, i, i);
    BaseShell(m, t);
    forall n | 0 < n <= i ensures Ancestor(v, p, n) != p {
      AncestorsAreTheStack(v, m, t, i, n);
      if m.stacks[t][i - n].pid == p { assert Holds(m, p, t, i - n); }
    }
  }

  lemma EmptyTables(v: View, saved: seq<Context>)
    requires Sized(v) && |saved| == TERMINALS && v.typing == [true, true, true]
    requires forall p :: 0 <= p < PROCESSES ==> !v.pidMask[p] && !v.shellMask[p]
    requires forall t :: 0 <= t < TERMINALS ==> v.pidArr[t] == -1
    ensures Coupled(v, Initial(saved)) && Synced(v, Initial(saved)) && WellFormed(Initial(saved))
  {
    assert forall p, t, i :: !Holds(Initial(saved), p, t, i);
  }

  // ---------- one table update per machine step ----------

  lemma PushKeepsCoupled(v: View, m: Machine, v': View, p: int, program: Program, ctx: Context)
    requires Coupled(v, m) && 0 <= p < PROCESSES && !Live(m, p)
    requires forall k :: 0 <= k < p ==> Live(m, k)
    requires Sized(v')
    requires v'.pidMask == v.pidMask[p := true]
    requires v'.shellMask == v.shellMask[p := program.isShell]
    requires v'.typing == v.typing[m.shown := program.typing]
    requires v'.pidArr == v.pidArr[Home(m, p) := p]
    requires v'.pcbs == v.pcbs[p := v'.pcbs[p]]
    requires v'.pcbs[p].parent == if p < TERMINALS then p else v.pidArr[m.shown]
    requires v'.pcbs[p].prevCtx == ctx && v'.pcbs[p].prevEip == program.entry
    ensures Coupled(v', Push(m, p, program, ctx))
  {
    var r := Push(m, p, program, ctx);
    var h := Home(m, p);
    PushKeepsStacked(m, p, program, ctx);
    forall q | 0 <= q < PROCESSES ensures v'.pidMask[q] <==> Live(r, q) {
      if q == p { assert Holds(r, p, h, |m.stacks[h]|); }
    }
    forall t, i | 0 <= t < TERMINALS && 0 <= i < |r.stacks[t]| ensures FrameStored(v', r, t, i) {
      if t != h || i < |m.stacks[t]| {
        assert FrameStored(v, m, t, i);
        assert Holds(m, m.stacks[t][i].pid, t, i);
      }
    }
  }

  lemma PushKeepsOthers(v: View, m: Machine, v': View, p: int, program: Program, ctx: Context)
    requires Coupled(v, m) && 0 <= p < PROCESSES && !Live(m, p) && m.running >= 0
    requires forall k :: 0 <= k < p ==> Live(m, k)
    requires Coupled(v', Push(m, p, program, ctx))
    requires v'.pcbs == v.pcbs[p := v'.pcbs[p]] && v'.pidArr == v.pidArr[Home(m, p) := p]
    requires v'.pcbs[p].prevEsp0 == v.esp0
    requires Nested(v, m) && Suspended(v, m) && (p >= TERMINALS ==> Current(v, m))
    requires Home(m, p) == m.running
    ensures Nested(v', Push(m, p, program, ctx)) && Suspended(v', Push(m, p, program, ctx))
  {
    var r := Push(m, p, program, ctx);
    var h := Home(m, p);
    PushKeepsStacked(m, p, program, ctx);
    forall t, i | 0 <= t < TERMINALS && 0 < i < |r.stacks[t]| ensures NestedAt(v', r, t, i) {
      if t != h || i < |m.stacks[t]| {
        assert NestedAt(v, m, t, i);
        assert Holds(m, m.stacks[t][i].pid, t, i);
      }
    }
    forall t | 0 <= t < TERMINALS && t != r.running && r.stacks[t] != [] ensures SuspendedAt(v', r, t) {
      assert SuspendedAt(v, m, t);
      assert Holds(m, v.pidArr[t], t, |m.stacks[t]| - 1);
    }
  }

  /** The heart of the design: after a successful `execute` page, kernel stack and saved contexts
      agree with the machine exactly when the new program joined the scheduled terminal. */
  lemma PushSyncedIff(v: View, m: Machine, v': View, p: int, program: Program, ctx: Context)
    requires Coupled(v, m) && 0 <= p < PROCESSES && !Live(m, p) && m.running >= 0
    requires forall k :: 0 <= k < p ==> Live(m, k)
    requires Coupled(v', Push(m, p, program, ctx))
    requires v'.pcbs == v.pcbs[p := v'.pcbs[p]] && v'.pidArr == v.pidArr[Home(m, p) := p]
    requires v'.pcbs[p].prevEsp0 == v.esp0 && v'.page == 2 + p && v'.esp0 == Esp0(p)
    requires Nested(v, m) && Suspended(v, m) && (p >= TERMINALS ==> Current(v, m))
    ensures Synced(v', Push(m, p, program, ctx)) <==> Home(m, p) == m.running
  {
    if Home(m, p) == m.running {
      PushKeepsOthers(v, m, v', p, program, ctx);
    } else if m.stacks[m.running] != [] {
      assert Holds(m, v.pidArr[m.running], m.running, |m.stacks[m.running]| - 1);
    }
  }

  /** `halt` takes away the top of the scheduled stack and nothing else. */
  lemma PopKeepsCoupled(v: View, m: Machine, v': View)
    requires Coupled(v, m) && WellFormed(m) && m.running >= 0 && |m.stacks[m.running]| > 1
    requires Popped(v, m, v')
    ensures Coupled(v', DoHalt(m))
  {
    var r := DoHalt(m);
    var s := m.stacks[m.running];
    var p := Top(s).pid;
    assert FrameStored(v, m, m.running, |s| - 1);
    assert Holds(m, p, m.running, |s| - 1);
    StepKeepsWellFormed(m, Halt);
    forall q, t, i | Holds(r, q, t, i) ensures Holds(m, q, t, i) && q != p {
      assert Holds(m, q, t, i);
    }
    forall q | 0 <= q < PROCESSES && q != p && Live(m, q) ensures Live(r, q) {
      var t, i :| Holds(m, q, t, i);
      assert Holds(r, q, t, i);
    }
    forall t, i | 0 <= t < TERMINALS && 0 <= i < |r.stacks[t]| ensures FrameStored(v', r, t, i) {
      assert FrameStored(v, m, t, i);
      assert Holds(r, r.stacks[t][i].pid, t, i);
    }
  }

  ghost predicate Popped(v: View, m: Machine, v': View)
    requires Sized(v) && 0 <= m.running < TERMINALS
  {
    var p := v.pidArr[m.running];
    && 0 <= p < PROCESSES
    && v'.pidMask == v.pidMask[p := false] && v'.shellMask == v.shellMask[p := false]
    && v'.typing == v.typing[m.running := true]
    && v'.pidArr == v.pidArr[m.running := v.pcbs[p].parent] && v'.pcbs == v.pcbs
    && v'.page == 2 + v.pcbs[p].parent && v'.esp0 == v.pcbs[p].prevEsp0
  }

  lemma PopKeepsSynced(v: View, m: Machine, v': View)
    requires Coupled(v, m) && WellFormed(m) && m.running >= 0 && |m.stacks[m.running]| > 1
    requires Popped(v, m, v') && Coupled(v', DoHalt(m)) && Synced(v, m)
    ensures Synced(v', DoHalt(m))
  {
    var r := DoHalt(m);
    var s := m.stacks[m.running];
    assert FrameStored(v, m, m.running, |s| - 1) && NestedAt(v, m, m.running, |s| - 1);
    forall t, i | 0 <= t < TERMINALS && 0 < i < |r.stacks[t]| ensures NestedAt(v', r, t, i) {
      assert NestedAt(v, m, t, i);
    }
    forall t | 0 <= t < TERMINALS && t != r.running && r.stacks[t] != [] ensures SuspendedAt(v', r, t) {
      assert SuspendedAt(v, m, t);
    }
  }

  ghost predicate SwitchedOut(v: View, m: Machine, v': View, ctx: Context)
    requires Sized(v) && -1 <= m.running < TERMINALS
  {
    if m.running == -1 then v' == v else
      var p := v.pidArr[m.running];
      0 <= p < PROCESSES && v' == v.(pcbs := v.pcbs[p := v.pcbs[p].(programCtx := ctx, programEsp0 := v.esp0)])
  }

  lemma SuspendKeepsCoupled(v: View, m: Machine, v': View, c: int, ctx: Context)
    requires Coupled(v, m) && WellFormed(m) && 0 <= c < TERMINALS && c != m.running
    requires SwitchedOut(v, m, v', ctx)
    ensures Coupled(v', Suspend(m, ctx).(running := c))
  {
    var m' := Suspend(m, ctx).(running := c);
    assert forall q, t, i :: Holds(m', q, t, i) <==> Holds(m, q, t, i);
    assert forall q :: Live(m', q) <==> Live(m, q);
    forall t, i | 0 <= t < TERMINALS && 0 <= i < |m'.stacks[t]| ensures FrameStored(v', m', t, i) {
      assert FrameStored(v, m, t, i);
    }
  }

  lemma SuspendKeepsOthers(v: View, m: Machine, v': View, c: int, ctx: Context)
    requires Coupled(v, m) && WellFormed(m) && 0 <= c < TERMINALS && c != m.running
    requires SwitchedOut(v, m, v', ctx) && Synced(v, m)
    requires Coupled(v', Suspend(m, ctx).(running := c))
    ensures Nested(v', Suspend(m, ctx).(running := c)) && Suspended(v', Suspend(m, ctx).(running := c))
    ensures m.stacks[c] != [] ==> SuspendedAt(v', Suspend(m, ctx).(running := c), c)
  {
    var m' := Suspend(m, ctx).(running := c);
    forall t | 0 <= t < TERMINALS && m.stacks[t] != [] ensures SuspendedAt(v', m', t) {
      assert Holds(m, v.pidArr[t], t, |m.stacks[t]| - 1);
      if m.running >= 0 {
        assert Holds(m, v.pidArr[m.running], m.running, |m.stacks[m.running]| - 1);
      }
      if t != m.running { assert SuspendedAt(v, m, t); }
    }
    forall t, i | 0 <= t < TERMINALS && 0 < i < |m'.stacks[t]| ensures NestedAt(v', m', t, i) {
      assert NestedAt(v, m, t, i);
    }
  }

  /** A tick that hands on the processor saves a context and, if need be, executes a base shell. */
  lemma TickIsSwitchAndStart(m: Machine, ctx: Context, shell: Program, call: Context)
    requires WellFormed(m) && Choose(m) != m.running
    ensures 0 <= Choose(m) < TERMINALS
    ensures var c := Choose(m); var m1 := Suspend(m, ctx).(running := c);
            && Stacked(m1) && m1.stacks == m.stacks
            && (m.stacks[c] == [] ==> LowestFree(m1) == Home(m1, c) == c)
            && Step(m, Tick(ctx, shell, call)) == if m.stacks[c] == [] then DoExecute(m1, Some(shell), call) else m1
  {
    ChosenTerminal(m);
    var m1 := Suspend(m, ctx).(running := Choose(m));
    SameStacksSameFree(m, m1);
    assert forall p, t, i :: Holds(m1, p, t, i) <==> Holds(m, p, t, i);
  }

  /** Page and stack registers are no part of the coupling. */
  lemma SamePcbs(v: View, v': View, m: Machine)
    requires Coupled(v, m) && v' == v.(page := v'.page, esp0 := v'.esp0)
    ensures Coupled(v', m)
    ensures Nested(v', m) <==> Nested(v, m)
    ensures Suspended(v', m) <==> Suspended(v, m)
  {
    forall t, i | 0 <= t < TERMINALS && 0 <= i < |m.stacks[t]| ensures FrameStored(v', m, t, i) {
      assert FrameStored(v, m, t, i);
    }
    assert forall t, i :: 0 <= t < TERMINALS && 0 < i < |m.stacks[t]| ==> NestedAt(v, m, t, i) == NestedAt(v', m, t, i);
    assert forall t :: 0 <= t < TERMINALS ==> SuspendedAt(v, m, t) == SuspendedAt(v', m, t);
  }

  /** The guard a caller can check is exactly the condition under which a new program joins the
      scheduled terminal. */
  lemma GuardMeansScheduledTerminal(m: Machine)
    requires WellFormed(m) && m.running >= 0 && LowestFree(m) != -1
    ensures Home(m, LowestFree(m)) == m.running <==> Booted(m) && m.shown == m.running
  {
    BaseShell(m, m.running);
    forall t | 0 <= t < TERMINALS ensures m.stacks[t] != [] <==> Live(m, t) {
      if m.stacks[t] != [] {
        BaseShell(m, t);
      } else {
        assert forall u, i :: !Holds(m, t, u, i);
      }
    }
  }

  /** The guard is needed: boot three shells, and let the last one, which is not displayed, call
      `execute`. */
  lemma UnguardedExecuteIsReachable(saved: seq<Context>, shell: Program, program: Program, ctx: Context)
      returns (es: seq<Event>, e: Event)
    requires |saved| == TERMINALS
    ensures WellFormed(Initial(saved)) && Guarded(Initial(saved), es) && Booted(Run(Initial(saved), es))
    ensures !GuardedStep(Run(Initial(saved), es), e)
  {
    var tick := Tick(ctx, shell, ctx);
    es, e := [tick, tick, tick], Execute(Some(program), ctx);
    NothingBooted(saved, tick);
    Boot(Initial(saved), tick, 0, es);
    TicksAreGuarded(Initial(saved), es);
    var m := Run(Initial(saved), es);
    assert forall t, i :: !Holds(m, 3, t, i);
    assert !Live(m, 3);
  }

  lemma NextEvent(m: Machine, es: seq<Event>, i: nat)
    requires WellFormed(m) && i < |es|
    ensures Run(m, es[i..]) == Run(Step(m, es[i]), es[i + 1..])
    ensures Guarded(m, es[i..]) <==> GuardedStep(m, es[i]) && Guarded(Step(m, es[i]), es[i + 1..])
  {
    assert es[i..][0] == es[i] && es[i..][1..] == es[i + 1..];
  }

  // ---------- who may type ----------

  function TopTyping(s: seq<Frame>): bool { s == [] || Top(s).program.typing }

  /** A terminal's typing flag is that of its top program. */
  ghost predicate TypingRight(m: Machine)
    requires WellFormed(m)
  {
    forall t :: 0 <= t < TERMINALS ==> m.typing[t] == TopTyping(m.stacks[t])
  }

  /** Starting a program: the flag always goes to the displayed terminal, so a base shell that is
      started elsewhere has to let one type, and so has the program that is displayed. */
  ghost predicate StartKeepsTyping(m: Machine, p: int, program: Program)
    requires WellFormed(m)
  {
    Home(m, p) == m.shown || (program.typing && TopTyping(m.stacks[m.shown]))
  }

  /** Ending one always turns typing on, so the program that comes back has to let one type. */
  ghost predicate TypingStep(m: Machine, e: Event)
    requires WellFormed(m)
  {
    match e
    case Execute(image, _) =>
      m.running >= 0 && LowestFree(m) != -1 && image.Some? ==> StartKeepsTyping(m, LowestFree(m), image.value)
    case Halt =>
      m.running >= 0 && |m.stacks[m.running]| > 1 ==>
        m.stacks[m.running][|m.stacks[m.running]| - 2].program.typing
    case Show(_) => true
    case Tick(_, shell, _) =>
      0 <= Choose(m) < TERMINALS && m.stacks[Choose(m)] == [] ==> StartKeepsTyping(m, Choose(m), shell)
  }

  lemma PushTypingIff(m: Machine, n: Machine, p: int, program: Program, ctx: Context)
    requires WellFormed(m) && TypingRight(m) && 0 <= p && (p < TERMINALS ==> m.stacks[p] == [])
    requires Stacked(n) && n.stacks == m.stacks && n.typing == m.typing && n.shown == m.shown
    requires var r := Push(n, p, program, ctx); WellFormed(r)
    ensures TypingRight(Push(n, p, program, ctx)) <==> StartKeepsTyping(m, p, program)
  {
    var r, h := Push(n, p, program, ctx), Home(m, p);
    assert r.stacks[h] == m.stacks[h] + [Frame(p, program, ctx)];
    if h != m.shown {
      assert r.typing[h] == m.typing[h] && r.stacks[m.shown] == m.stacks[m.shown];
    }
    forall t | 0 <= t < TERMINALS && t != h && t != m.shown ensures r.typing[t] == TopTyping(r.stacks[t]) {
    }
  }

  lemma HaltTypingIff(m: Machine)
    requires WellFormed(m) && TypingRight(m)
    ensures TypingRight(Step(m, Halt)) <==> TypingStep(m, Halt)
  {
    if m.running >= 0 && |m.stacks[m.running]| > 1 {
      var s, r := m.stacks[m.running], Step(m, Halt);
      assert r.typing[m.running] && Top(r.stacks[m.running]) == s[|s| - 2];
    }
  }

  /** One step keeps the flags right exactly under that condition. */
  lemma StepTypingIff(m: Machine, e: Event)
    requires WellFormed(m) && TypingRight(m)
    ensures TypingRight(Step(m, e)) <==> TypingStep(m, e)
  {
    match e
    case Execute(image, ctx) =>
      var p := LowestFree(m);
      if m.running >= 0 && p != -1 && image.Some? {
        PushKeepsStacked(m, p, image.value, ctx);
        PushTypingIff(m, m, p, image.value, ctx);
      }
    case Halt => HaltTypingIff(m);
    case Show(_) =>
    case Tick(ctx, shell, call) =>
      ChosenTerminal(m);
      if Choose(m) != m.running {
        TickIsSwitchAndStart(m, ctx, shell, call);
        var n := Suspend(m, ctx).(running := Choose(m));
        if m.stacks[Choose(m)] == [] { PushTypingIff(m, n, Choose(m), shell, call); }
      }
  }

  ghost predicate TypingGuarded(m: Machine, es: seq<Event>)
    requires WellFormed(m)
    decreases |es|
  {
    es != [] ==> TypingStep(m, es[0]) && TypingGuarded(Step(m, es[0]), es[1..])
  }

  /** Over every such run a terminal's keyboard is on exactly while its top program lets one type. */
  lemma {:induction false} TypingFollowsTop(m: Machine, es: seq<Event>)
    requires WellFormed(m) && TypingRight(m) && TypingGuarded(m, es)
    ensures TypingRight(Run(m, es))
    decreases |es|
  {
    if es != [] {
      StepTypingIff(m, es[0]);
      TypingFollowsTop(Step(m, es[0]), es[1..]);
    }
  }

  lemma {:induction false} BootKeepsTypingRight(m: Machine, e: Event, k: int, es: seq<Event>)
    requires BootedTo(m, e, k) && TypingRight(m) && e.shell.typing && 0 <= k && k + |es| <= TERMINALS
    requires forall i :: 0 <= i < |es| ==> es[i] == e
    ensures TypingRight(Run(m, es))
    decreases |es|
  {
    if es != [] {
      BootTick(m, e, k);
      StepTypingIff(m, e);
      BootKeepsTypingRight(Step(m, e), e, k + 1, es[1..]);
    }
  }

  /** Two programs on top of terminal 2's shell. */
  lemma TwoOnTop(m: Machine, e: Event, first: Program, second: Program, ctx: Context)
    requires BootedTo(m, e, TERMINALS)
    ensures var es := [Show(2), Execute(Some(first), ctx), Execute(Some(second), ctx)];
            && Guarded(m, es)
            && Run(m, es).running == Run(m, es).shown == 2
            && |Run(m, es).stacks[2]| == 3 && Run(m, es).stacks[2][1].program == first
            && (TypingRight(m) ==> TypingRight(Run(m, es)))
  {
    var x, y, z := Show(2), Execute(Some(first), ctx), Execute(Some(second), ctx);
    var a := Step(m, x);
    BootedIsFilled(m, e, first, ctx);
    NextSlotIsFree(m, e, first, ctx, 0);
    SameStacksSameFree(m, a);
    var b := Step(a, y);
    assert b.stacks[2] == [Frame(2, e.shell, e.call)] + [Frame(3, first, ctx)];
    assert forall t, i :: !Holds(b, 5, t, i);
    assert !Live(b, 5);
    GuardMeansScheduledTerminal(b);
    assert Step(b, z).stacks[2] == b.stacks[2] + [Frame(LowestFree(b), second, ctx)];
    RunThree(m, x, y, z);
    if TypingRight(m) {
      StepTypingIff(m, x);
      StepTypingIff(a, y);
      StepTypingIff(b, z);
    }
  }

  /** The condition can fail: boot, let terminal 2's shell execute a program that forbids typing, let
      that one execute another, which then ends. */
  lemma TypingCanBeLost(saved: seq<Context>, shell: Program, fish: Program, child: Program, ctx: Context)
      returns (es: seq<Event>)
    requires |saved| == TERMINALS && shell.typing && !fish.typing
    ensures WellFormed(Initial(saved)) && Guarded(Initial(saved), es)
    ensures var m := Run(Initial(saved), es); TypingRight(m) && !TypingRight(Step(m, Halt))
  {
    var m, tick := Initial(saved), Tick(ctx, shell, ctx);
    var boot, calls := [tick, tick, tick], [Show(2), Execute(Some(fish), ctx), Execute(Some(child), ctx)];
    NothingBooted(saved, tick);
    Boot(m, tick, 0, boot);
    BootKeepsTypingRight(m, tick, 0, boot);
    TicksAreGuarded(m, boot);
    TwoOnTop(Run(m, boot), tick, fish, child, ctx);
    RunAppend(m, boot, calls);
    es := boot + calls;
    StepTypingIff(Run(m, es), Halt);
  }

  lemma EligibleByTables(v: View, m: Machine, t: int)
    requires Coupled(v, m) && 0 <= t < TERMINALS
    ensures v.pidArr[t] == -1 <==> m.stacks[t] == []
    ensures v.pidArr[t] != -1 ==> 0 <= v.pidArr[t] < PROCESSES
    ensures Eligible(m, t) <==> v.pidArr[t] == -1 || !v.shellMask[v.pidArr[t]] || t == m.shown
  {
    if m.stacks[t] != [] {
      assert FrameStored(v, m, t, |m.stacks[t]| - 1);
    }
  }

  lemma OneFurther(m: Machine, k: int)
    requires -1 <= m.running < TERMINALS && 1 <= k < TERMINALS
    ensures (After(m, k) + 1) % TERMINALS == After(m, k + 1)
    ensures After(m, k) != m.running
  {
  }

  // ---------- the kernel itself ----------

  class Kernel {
    const pidMask: array<bool>
    const shellMask: array<bool>
    const typing: array<bool>    // typing_mask
    const pidArr: array<int>
    const pcbs: array<Pcb>
    var running: int  // terminal_process_index
    var shown: int    // cur_terminal
    var page: int     // physical 4 MB page behind page-directory entry 32
    var esp0: int     // tss.esp0
    ghost var m: Machine

    ghost function V(): View
      reads this, pidMask, shellMask, typing, pidArr, pcbs
    {
      View(pidMask[..], shellMask[..], typing[..], pidArr[..], pcbs[..], page, esp0)
    }

    /** The tables represent the machine; the scheduled terminal may still have to be started. */
    ghost predicate Represents()
      reads this, pidMask, shellMask, typing, pidArr, pcbs
    {
      && pidMask != shellMask && pidMask != typing && shellMask != typing
      && Coupled(V(), m) && m.running == running && m.shown == shown
    }

    ghost predicate Valid()
      reads this, pidMask, shellMask, typing, pidArr, pcbs
    {
      Represents() && WellFormed(m)
    }

    ghost predicate InSync()
      reads this, pidMask, shellMask, typing, pidArr, pcbs
      requires Represents()
    {
      Synced(V(), m)
    }

    constructor (blank: Pcb, initialEsp0: int)
      ensures Valid() && InSync()
      ensures m == Initial(m.saved)
      ensures fresh(pidMask) && fresh(shellMask) && fresh(typing) && fresh(pidArr) && fresh(pcbs)
    {
      pidMask := new bool[PROCESSES](_ => false);
      shellMask := new bool[PROCESSES](_ => false);
      typing := new bool[TERMINALS](_ => true);
      pidArr := new int[TERMINALS](_ => -1);
      pcbs := new Pcb[PROCESSES](_ => blank);
      running, shown, page, esp0 := -1, 0, 0, initialEsp0;
      m := Initial([blank.programCtx, blank.programCtx, blank.programCtx]);
      new;
      EmptyTables(V(), m.saved);
    }

    /** Fills in slot p's control block, leaving the scheduler's saved context alone. */
    method CreatePcb(p: int)
      requires pidArr.Length == TERMINALS && 0 <= shown < TERMINALS && 0 <= p < pcbs.Length
      modifies pcbs
      ensures pcbs[..] == old(pcbs[..])[p := old(pcbs[p]).(parent := if p < TERMINALS then p else pidArr[shown],
                                                           prevEsp0 := 0, prevCtx := Context(0, 0))]
    {
      pcbs[p] := pcbs[p].(parent := if p < TERMINALS then p else pidArr[shown],
                          prevEsp0 := 0, prevCtx := Context(0, 0));
    }

    method MapProgramMem(p: int) returns (r: int)
      modifies this`page
      ensures r == (if p < 0 then -1 else 0) && page == (if p < 0 then old(page) else 2 + p)
    {
      if p < 0 { return -1; }
      page := 2 + p;
      return 0;
    }

    /** The lowest clear entry of the pid mask, or -1. */
    method FindSlot() returns (p: int)
      requires Represents()
      ensures p == LowestFree(m)
      ensures p == -1 ==> forall q :: 0 <= q < 6 ==> V().pidMask[q]
      ensures p != -1 ==> 0 <= p < 6 && !V().pidMask[p] && forall q :: 0 <= q < p ==> V().pidMask[q]
    {
      p := -1;
      var i := 0;
      while i < PROCESSES
        invariant 0 <= i <= PROCESSES && p == -1
        invariant FreeFrom(m, 0) == FreeFrom(m, i)
        invariant forall q :: 0 <= q < i ==> V().pidMask[q]
      {
        assert V().pidMask[i] == pidMask[i];
        if !pidMask[i] {
          p := i;
          break;
        }
        i := i + 1;
      }
    }

    /** The part of `execute` after the image checks: every table entry of slot p. */
    method StartProcess(p: int, program: Program, ctx: Context)
      requires Represents() && 0 <= p < PROCESSES && !shellMask[p]
      modifies this`page, this`esp0, pidMask, shellMask, typing, pidArr, pcbs
      ensures var v, v' := old(V()), V();
              && v'.pidMask == v.pidMask[p := true]
              && v'.shellMask == v.shellMask[p := program.isShell]
              && v'.typing == v.typing[shown := program.typing]
              && v'.pidArr == v.pidArr[Home(m, p) := p]
              && v'.pcbs == v.pcbs[p := v'.pcbs[p]]
              && v'.pcbs[p] == Pcb(if p < TERMINALS then p else v.pidArr[shown], v.esp0, ctx, program.entry,
                                   v.pcbs[p].programEsp0, v.pcbs[p].programCtx)
              && v'.page == 2 + p && v'.esp0 == Esp0(p)
    {
      CreatePcb(p);
      var mapped := MapProgramMem(p);
      pcbs[p] := pcbs[p].(prevCtx := ctx);
      pcbs[p] := pcbs[p].(prevEsp0 := esp0);
      esp0 := Esp0(p);
      pcbs[p] := pcbs[p].(prevEip := program.entry);
      if program.isShell { shellMask[p] := true; }
      typing[shown] := program.typing;
      pidMask[p] := true;
      if p < TERMINALS { pidArr[p] := p; } else { pidArr[shown] := p; }
    }

    /** `image` is what lookup and the ELF checks found; `ctx` is where the caller stands.  The
        last clause is the exact condition for the processor to stay with the scheduled terminal. */
    method Execute(image: Option<Program>, ctx: Context) returns (r: Control)
      requires Represents() && running >= 0
      modifies this`page, this`esp0, this`m, pidMask, shellMask, typing, pidArr, pcbs
      ensures Represents() && m == DoExecute(old(m), image, ctx)
      ensures var p := LowestFree(old(m));
              if p == -1 || image.None? then r == Fail && V() == old(V())
              else r == Enter(p, image.value.entry)
      ensures (old(Ready(LowestFree(m))) && r.Enter?) ==>
                (InSync() <==> Home(old(m), LowestFree(old(m))) == running)
    {
      var p := FindSlot();
      if p == -1 || image.None? { return Fail; }
      ghost var v, m0 := V(), m;
      assert !v.pidMask[p] && !v.shellMask[p];
      StartProcess(p, image.value, ctx);
      m := Push(m, p, image.value, ctx);
      PushKeepsCoupled(v, m0, V(), p, image.value, ctx);
      if Nested(v, m0) && Suspended(v, m0) && (p >= TERMINALS ==> Current(v, m0)) {
        PushSyncedIff(v, m0, V(), p, image.value, ctx);
      }
      return Enter(p, image.value.entry);
    }

    /** Contexts are in order for starting process p; a base shell has no parent stack to respect. */
    ghost predicate Ready(p: int)
      reads this, pidMask, shellMask, typing, pidArr, pcbs
      requires Represents()
    {
      Nested(V(), m) && Suspended(V(), m) && (p >= TERMINALS ==> Current(V(), m))
    }

    /** `execute` called by the scheduled program: the guard decides whether the processor stays in
        agreement with the tables. */
    method UserExecute(image: Option<Program>, ctx: Context) returns (r: Control)
      requires Valid() && running >= 0
      modifies this`page, this`esp0, this`m, pidMask, shellMask, typing, pidArr, pcbs
      ensures Valid() && m == Step(old(m), Event.Execute(image, ctx))
      ensures var p := LowestFree(old(m));
              if p == -1 || image.None? then r == Fail && V() == old(V())
              else r == Enter(p, image.value.entry)
      ensures old(InSync()) ==> (InSync() <==> GuardedStep(old(m), Event.Execute(image, ctx)))
    {
      StepKeepsWellFormed(m, Event.Execute(image, ctx));
      if LowestFree(m) != -1 { GuardMeansScheduledTerminal(m); }
      r := Execute(image, ctx);
    }

    /** The part of `halt` after the base-shell check: back to the parent's page, kernel stack and
        table entries. */
    method StopProcess(p: int)
      requires Represents() && 0 <= running && p == pidArr[running] && 0 <= p < PROCESSES && pcbs[p].parent >= 0
      modifies this`page, this`esp0, pidMask, shellMask, typing, pidArr
      ensures Popped(old(V()), m, V())
    {
      var parent := pcbs[p].parent;
      var mapped := MapProgramMem(parent);
      if shellMask[p] { shellMask[p] := false; }
      esp0 := pcbs[p].prevEsp0;
      pidMask[p] := false;
      typing[running] := true;
      pidArr[running] := parent;
    }

    /** The end of any other program: its parent goes on where it had called `execute`. */
    method ResumeParent(p: int) returns (r: Control)
      requires Valid() && running >= 0 && p == pidArr[running] && |m.stacks[running]| > 1
      modifies this, pidMask, shellMask, typing, pidArr
      ensures Valid() && m == Step(old(m), Event.Halt) && r == Resume(Top(old(m).stacks[running]).ret)
      ensures old(InSync()) ==> InSync()
    {
      ghost var v, m0, s := V(), m, m.stacks[running];
      assert FrameStored(v, m, running, |s| - 1) && FrameStored(v, m, running, |s| - 2);
      StopProcess(p);
      m := DoHalt(m);
      PopKeepsCoupled(v, m0, V());
      if Synced(v, m0) { PopKeepsSynced(v, m0, V()); }
      StepKeepsWellFormed(m0, Event.Halt);
      return Resume(pcbs[p].prevCtx);
    }

    /** Ends the scheduled terminal's program; a base shell starts over instead. */
    method Halt() returns (r: Control)
      requires Valid() && running >= 0
      modifies this, pidMask, shellMask, typing, pidArr
      ensures Valid() && m == Step(old(m), Event.Halt)
      ensures var s := old(m).stacks[running];
              if |s| == 1 then r == Enter(running, s[0].program.entry) && V() == old(V())
              else r == Resume(Top(s).ret)
      ensures old(InSync()) ==> InSync()
    {
      var p := pidArr[running];
      assert FrameStored(V(), m, running, |m.stacks[running]| - 1);
      assert Holds(m, p, running, |m.stacks[running]| - 1);
      BaseShell(m, running);
      if p < TERMINALS { return Enter(p, pcbs[p].prevEip); }
      r := ResumeParent(p);
    }

    method Show(t: int)
      requires Valid() && 0 <= t < TERMINALS
      modifies this`shown, this`m
      ensures Valid() && m == Step(old(m), Event.Show(t)) && V() == old(V())
      ensures old(InSync()) ==> InSync()
    {
      ghost var v, m0 := V(), m;
      shown, m := t, m.(shown := t);
      StepKeepsWellFormed(m0, Event.Show(t));
      assert forall q :: Live(m, q) <==> Live(m0, q) by {
        assert forall q, u, i :: Holds(m, q, u, i) <==> Holds(m0, q, u, i);
      }
      forall u, i | 0 <= u < TERMINALS && 0 <= i < |m.stacks[u]| ensures FrameStored(v, m, u, i) {
        assert FrameStored(v, m0, u, i);
      }
      if Synced(v, m0) {
        assert forall u :: 0 <= u < TERMINALS ==> SuspendedAt(v, m, u) == SuspendedAt(v, m0, u);
        assert forall u, i :: 0 <= u < TERMINALS && 0 < i < |m.stacks[u]| ==>
                 NestedAt(v, m, u, i) == NestedAt(v, m0, u, i);
      }
    }

    /** The scan of the timer interrupt: one round over the terminals, by the tables. */
    method NextTerminal() returns (next: int)
      requires Valid()
      ensures next == Choose(m)
    {
      var start := running;
      next := (running + 1) % TERMINALS;
      ghost var k := 1;
      while next != start
        invariant 1 <= k <= TERMINALS && next == After(m, k) && start == m.running
        invariant ChooseFrom(m, 1) == ChooseFrom(m, k)
        invariant start >= 0 || k == 1
        decreases TERMINALS - k
      {
        EligibleByTables(V(), m, next);
        if !(pidArr[next] != -1 && shellMask[pidArr[next]] && shown != next) { return; }
        OneFurther(m, k);
        next := (next + 1) % TERMINALS;
        k := k + 1;
      }
    }

    /** The timer interrupt: scan for the next terminal, then switch to it. */
    method PitHandler(ctx: Context, shell: Program, call: Context) returns (r: Control)
      requires Valid()
      modifies this, pidMask, shellMask, typing, pidArr, pcbs
      ensures Valid() && m == Step(old(m), Tick(ctx, shell, call))
      ensures var c := Choose(old(m));
              && (c == old(running) ==> r == Stay && V() == old(V()))
              && (c != old(running) && old(m).stacks[c] == [] ==> r == Enter(c, shell.entry))
              && (c != old(running) && old(m).stacks[c] != [] && old(InSync()) ==> r == Resume(old(m).saved[c]))
      ensures old(InSync()) ==> InSync()
    {
      var next := NextTerminal();
      if next == running { return Stay; }
      r := Schedule(next, ctx, shell, call);
    }

    /** First half of `schedule`: keep the outgoing program's context in its control block. */
    method SwitchOut(ctx: Context, next: int)
      requires Valid() && 0 <= next < TERMINALS && next != running
      modifies this`running, this`m, pcbs
      ensures Represents() && m == Suspend(old(m), ctx).(running := next)
      ensures V().page == old(page) && V().esp0 == old(esp0)
      ensures old(InSync()) ==> Nested(V(), m) && Suspended(V(), m)
      ensures old(InSync()) && m.stacks[next] != [] ==> SuspendedAt(V(), m, next)
    {
      ghost var v, m0 := V(), m;
      if running != -1 {
        assert FrameStored(v, m, running, |m.stacks[running]| - 1);
        var p := pidArr[running];
        pcbs[p] := pcbs[p].(programCtx := ctx, programEsp0 := esp0);
      }
      running := next;
      m := Suspend(m, ctx).(running := next);
      SuspendKeepsCoupled(v, m0, V(), next, ctx);
      if Synced(v, m0) { SuspendKeepsOthers(v, m0, V(), next, ctx); }
    }

    /** Second half: map the scheduled terminal's program and pick up the context it saved. */
    method SwitchIn() returns (r: Control)
      requires Represents() && running >= 0 && m.stacks[running] != []
      modifies this`page, this`esp0
      ensures Represents()
      ensures 0 <= pidArr[running] < PROCESSES && r == Resume(pcbs[pidArr[running]].programCtx)
      ensures old(Nested(V(), m) && Suspended(V(), m)) ==> InSync()
    {
      EligibleByTables(V(), m, running);
      ghost var v := V();
      var p := pidArr[running];
      var mapped := MapProgramMem(p);
      esp0 := Esp0(p);
      SamePcbs(v, V(), m);
      r := Resume(pcbs[p].programCtx);
    }

    method Schedule(next: int, ctx: Context, shell: Program, call: Context) returns (r: Control)
      requires Valid() && next == Choose(m) && next != running
      modifies this, pidMask, shellMask, typing, pidArr, pcbs
      ensures Valid() && m == Step(old(m), Tick(ctx, shell, call))
      ensures old(m).stacks[next] == [] ==> r == Enter(next, shell.entry)
      ensures old(m).stacks[next] != [] && old(InSync()) ==> r == Resume(old(m).saved[next])
      ensures old(InSync()) ==> InSync()
    {
      TickIsSwitchAndStart(m, ctx, shell, call);
      SwitchOut(ctx, next);
      EligibleByTables(V(), m, next);
      if pidArr[next] == -1 {
        r := Execute(Some(shell), call);
      } else {
        r := SwitchIn();
      }
    }

    /** One event.  From a state in sync, a user's `execute` stays in sync exactly under the guard;
        everything else always does. */
    method Dispatch(e: Event)
      requires Valid()
      modifies this, pidMask, shellMask, typing, pidArr, pcbs
      ensures Valid() && m == Step(old(m), e)
      ensures old(InSync()) ==> (InSync() <==> GuardedStep(old(m), e))
    {
      StepKeepsWellFormed(m, e);
      match e {
        case Execute(image, ctx) =>
          if running >= 0 { var r := UserExecute(image, ctx); }
        case Halt => if running >= 0 { var r := Halt(); }
        case Show(t) => if 0 <= t < TERMINALS { Show(t); }
        case Tick(ctx, shell, call) => var r := PitHandler(ctx, shell, call);
      }
    }

    /** Every run of system calls, terminal switches and timer interrupts, from any valid state. */
    method RunAll(es: seq<Event>)
      requires Valid()
      modifies this, pidMask, shellMask, typing, pidArr, pcbs
      ensures Valid() && m == Run(old(m), es)
      ensures old(InSync()) && Guarded(old(m), es) ==> InSync()
    {
      ghost var m0 := m;
      var i := 0;
      while i < |es|
        invariant 0 <= i <= |es| && Valid()
        invariant Run(m, es[i..]) == Run(m0, es)
        invariant old(InSync()) && Guarded(m0, es) ==> InSync() && Guarded(m, es[i..])
      {
        NextEvent(m, es, i);
        Dispatch(es[i]);
        i := i + 1;
      }
    }

    /** Events that never schedule terminal t, then a tick that does. */
    method ComeBack(es: seq<Event>, again: Event, ghost t: int) returns (r: Control)
      requires Valid() && InSync() && 0 <= t < TERMINALS && m.stacks[t] != [] && again.Tick?
      requires Guarded(m, es) && NotScheduled(m, es, t) && Choose(Run(m, es)) == t
      modifies this, pidMask, shellMask, typing, pidArr, pcbs
      ensures Valid() && InSync() && m.running == t && m.stacks[t] == old(m.stacks[t])
      ensures r == Resume(old(m.saved[t]))
    {
      WaitingIsLeftAlone(m, es, t);
      NotScheduledAtTheEnd(m, es, t);
      RunAll(es);
      r := PitHandler(again.ctx, again.shell, again.call);
    }

    /** A tick preempts the scheduled program; then anything that never schedules its terminal, and at
        last a tick that does: it goes on where it was interrupted, on the page and kernel stack it had. */
    method PreemptAndReturn(ctx: Context, shell: Program, call: Context, es: seq<Event>, again: Event)
        returns (r: Control)
      requires Valid() && InSync() && running >= 0 && Choose(m) != running && again.Tick?
      requires var m1 := Step(m, Tick(ctx, shell, call));
               Guarded(m1, es) && NotScheduled(m1, es, running) && Choose(Run(m1, es)) == running
      modifies this, pidMask, shellMask, typing, pidArr, pcbs
      ensures Valid() && InSync() && running == old(running) && m.stacks[running] == old(m.stacks[running])
      ensures r == Resume(ctx) && page == old(page) && esp0 == old(esp0)
    {
      ghost var v, m0, t := V(), m, running;
      TickPreempts(m, ctx, shell, call);
      var away := PitHandler(ctx, shell, call);
      r := ComeBack(es, again, t);
      SameTopSameRegisters(v, m0, V(), m);
    }

    /** Events after which terminal t is scheduled with one more program than before, then its halt. */
    method RunToHalt(es: seq<Event>, ghost t: int, ghost s: seq<Frame>, ghost f: Frame) returns (r: Control)
      requires Valid() && InSync() && Guarded(m, es) && s != []
      requires 0 <= t == Run(m, es).running && Run(m, es).stacks[t] == s + [f]
      modifies this, pidMask, shellMask, typing, pidArr, pcbs
      ensures Valid() && InSync() && m.running == t && m.stacks[t] == s && r == Resume(f.ret)
    {
      RunAll(es);
      r := Halt();
    }

    /** The scheduled program executes another; then anything that leaves the new program on its stack,
        and at last its halt: the caller goes on where it had called, on its own page and stack. */
    method CallAndReturn(program: Program, ctx: Context, es: seq<Event>) returns (r: Control)
      requires Valid() && InSync() && running >= 0 && running == shown && Booted(m) && LowestFree(m) != -1
      requires var m1, d := Step(m, Event.Execute(Some(program), ctx)), |m.stacks[running]| + 1;
               && Guarded(m1, es) && KeepsHeight(m1, es, running, d)
               && |Run(m1, es).stacks[running]| == d && Run(m1, es).running == running
      modifies this, pidMask, shellMask, typing, pidArr, pcbs
      ensures Valid() && InSync() && running == old(running) && m.stacks[running] == old(m.stacks[running])
      ensures r == Resume(ctx) && page == old(page) && esp0 == old(esp0)
    {
      ghost var v, m0, t, s := V(), m, running, m.stacks[running];
      ghost var f := Frame(LowestFree(m), program, ctx);
      CallIsOnTop(m, program, ctx, es, running);
      var entered := UserExecute(Some(program), ctx);
      r := RunToHalt(es, t, s, f);
      SameTopSameRegisters(v, m0, V(), m);
    }
  }
}
