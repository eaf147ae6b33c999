/** What the process system is meant to be: per terminal a stack of nested calls to `execute`,
    and a cyclic scheduler over the terminals.  No tables, masks or parent links here; class
    Kernels.Kernel implements this machine with those. */
module Machines {
  import opened Prelude

  /** A saved ESP/EBP pair, kept opaque: nothing below looks inside one. */
  datatype Context = Context(esp: int, ebp: int)

  /** What `execute` learns from name and image: is it a shell, may one type while it runs, and
      where does it start. */
  datatype Program = Program(isShell: bool, typing: bool, entry: int)

  /** One running program; `ret` is the point at which the `execute` that started it returns. */
  datatype Frame = Frame(pid: int, program: Program, ret: Context)

  /** `stacks[t]` lists terminal t's programs, base shell first.  `saved[t]` is the context t had
      when it was last switched out; `typing[t]` tells whether its keyboard is on.  `running` is
      the scheduled terminal (-1 before the first tick), `shown` the displayed one. */
  datatype Machine = Machine(stacks: seq<seq<Frame>>, saved: seq<Context>, typing: seq<bool>, running: int, shown: int)

  /** Where the processor continues after a step. */
  datatype Control = Stay | Fail | Enter(pid: int, entry: int) | Resume(ctx: Context)

  datatype Event =
    | Execute(image: Option<Program>, ctx: Context)
    | Halt
    | Show(terminal: int)
    | Tick(ctx: Context, shell: Program, call: Context)

  // ---------- well-formed machines ----------

  ghost predicate Holds(m: Machine, p: int, t: int, i: int) {
    0 <= t < |m.stacks| && 0 <= i < |m.stacks[t]| && m.stacks[t][i].pid == p
  }

  ghost predicate Live(m: Machine, p: int) {
    exists t, i :: Holds(m, p, t, i)
  }

  /** Each pid is in at most one place, and the pids below TERMINALS are the base shells. */
  ghost predicate Stacked(m: Machine) {
    && |m.stacks| == |m.saved| == |m.typing| == TERMINALS
    && -1 <= m.running < TERMINALS && 0 <= m.shown < TERMINALS
    && (forall p, t, i, u, j :: Holds(m, p, t, i) && Holds(m, p, u, j) ==> t == u && i == j)
    && (forall p, t, i :: Holds(m, p, t, i) ==>
          0 <= p < PROCESSES && (i == 0 ==> p == t) && (i > 0 ==> p >= TERMINALS))
    && (forall t :: 0 < t < TERMINALS && m.stacks[t] != [] ==> m.stacks[t - 1] != [])
  }

  /** What every step keeps: before the first tick nothing exists, after it the scheduled terminal
      always has a program to run. */
  ghost predicate WellFormed(m: Machine) {
    && Stacked(m)
    && (m.running == -1 ==> m.stacks[0] == [])
    && (m.running >= 0 ==> m.stacks[m.running] != [])
  }

  ghost predicate Booted(m: Machine)
    requires |m.stacks| == TERMINALS
  {
    forall t :: 0 <= t < TERMINALS ==> m.stacks[t] != []
  }

  function Top(s: seq<Frame>): (f: Frame)
    requires s != []
  {
    s[|s| - 1]
  }

  function Initial(saved: seq<Context>): Machine {
    Machine([[], [], []], saved, [true, true, true], -1, 0)
  }

  // ---------- the steps ----------

  /** The least pid from p on that no stack holds, or -1. */
  ghost function FreeFrom(m: Machine, p: int): (q: int)
    requires 0 <= p <= PROCESSES
    ensures q == -1 || (p <= q < PROCESSES && !Live(m, q))
    ensures forall k :: p <= k < (if q == -1 then PROCESSES else q) ==> Live(m, k)
    decreases PROCESSES - p
  {
    if p == PROCESSES then -1 else if !Live(m, p) then p else FreeFrom(m, p + 1)
  }

  ghost function LowestFree(m: Machine): int { FreeFrom(m, 0) }

  /** Base shells found their own terminal; everything else joins the displayed one. */
  function Home(m: Machine, p: int): int {
    if p < TERMINALS then p else m.shown
  }

  /** The new program's typing flag goes to the displayed terminal, whatever its home is. */
  ghost function Push(m: Machine, p: int, program: Program, ctx: Context): Machine
    requires |m.stacks| == |m.typing| == TERMINALS && 0 <= p && 0 <= m.shown < TERMINALS
  {
    var t := Home(m, p);
    m.(stacks := m.stacks[t := m.stacks[t] + [Frame(p, program, ctx)]], typing := m.typing[m.shown := program.typing])
  }

  ghost function DoExecute(m: Machine, image: Option<Program>, ctx: Context): Machine
    requires Stacked(m)
  {
    var p := LowestFree(m);
    if p == -1 || image.None? then m else Push(m, p, image.value, ctx)
  }

  ghost function DoHalt(m: Machine): Machine
    requires WellFormed(m)
  {
    if m.running == -1 then m else
      var s := m.stacks[m.running];
      if |s| == 1 then m
      else m.(stacks := m.stacks[m.running := s[..|s| - 1]], typing := m.typing[m.running := true])
  }

  /** May a tick hand the processor to terminal t? */
  predicate Eligible(m: Machine, t: int)
    requires |m.stacks| == TERMINALS && 0 <= t < TERMINALS
  {
    m.stacks[t] == [] || !Top(m.stacks[t]).program.isShell || t == m.shown
  }

  /** The k-th terminal after the running one, in cyclic order. */
  function After(m: Machine, k: int): (t: int)
    requires -1 <= m.running && 1 <= k
    ensures 0 <= t < TERMINALS
  {
    (m.running + k) % TERMINALS
  }

  function ChooseFrom(m: Machine, k: int): int
    requires |m.stacks| == TERMINALS && -1 <= m.running && 1 <= k <= TERMINALS
    decreases TERMINALS - k
  {
    if k == TERMINALS then m.running
    else if Eligible(m, After(m, k)) then After(m, k)
    else ChooseFrom(m, k + 1)
  }

  /** The first eligible terminal in cyclic order after the running one, else the running one. */
  function Choose(m: Machine): int
    requires |m.stacks| == TERMINALS && -1 <= m.running
  {
    ChooseFrom(m, 1)
  }

  function Suspend(m: Machine, ctx: Context): Machine
    requires |m.saved| == TERMINALS && -1 <= m.running < TERMINALS
  {
    if m.running == -1 then m else m.(saved := m.saved[m.running := ctx])
  }

  /** `ctx` is where the interrupted program continues; `call` is where the kernel's own call of
      `execute` would return if a base shell has to be started. */
  ghost function DoTick(m: Machine, ctx: Context, shell: Program, call: Context): Machine
    requires WellFormed(m)
  {
    var c := Choose(m);
    if c == m.running then m else
      ChosenTerminal(m);
      var m1 := Suspend(m, ctx).(running := c);
      if m.stacks[c] == [] then Push(m1, c, shell, call) else m1
  }

  ghost function Step(m: Machine, e: Event): (r: Machine)
    requires WellFormed(m)
    ensures WellFormed(r)
  {
    StepKeepsWellFormed(m, e);
    match e
    case Execute(image, ctx) => if m.running == -1 then m else DoExecute(m, image, ctx)
    case Halt => DoHalt(m)
    case Show(t) => if 0 <= t < TERMINALS then m.(shown := t) else m
    case Tick(ctx, shell, call) => DoTick(m, ctx, shell, call)
  }

  ghost function Run(m: Machine, es: seq<Event>): (r: Machine)
    requires WellFormed(m)
    ensures WellFormed(r)
    decreases |es|
  {
    if es == [] then m else Run(Step(m, es[0]), es[1..])
  }

  // ---------- every step keeps the stacks apart ----------

  lemma BaseShell(m: Machine, t: int)
    requires Stacked(m) && 0 <= t < TERMINALS && m.stacks[t] != []
    ensures m.stacks[t][0].pid == t && Live(m, t)
  {
    assert Holds(m, m.stacks[t][0].pid, t, 0);
  }

  /** The scheduler never lands on an unstarted terminal out of turn: it is always the one whose
      base shell gets the lowest free pid. */
  lemma ChosenTerminal(m: Machine)
    requires WellFormed(m)
    ensures 0 <= Choose(m) < TERMINALS
    ensures m.stacks[Choose(m)] == [] ==> LowestFree(m) == Choose(m)
    ensures m.stacks[Choose(m)] == [] ==> Choose(m) != m.running
  {
    var c := Choose(m);
    if m.running == -1 {
      assert After(m, 1) == 0;
      assert Eligible(m, 0);
    }
    assert 0 <= c < TERMINALS;
    if m.stacks[c] == [] {
      assert !Live(m, c);
      forall p | 0 <= p < c ensures Live(m, p) {
        BaseShell(m, p);
      }
    }
  }

  lemma PushKeepsStacked(m: Machine, p: int, program: Program, ctx: Context)
    requires Stacked(m)
    requires 0 <= p < PROCESSES && !Live(m, p)
    requires forall k :: 0 <= k < p ==> Live(m, k)
    ensures Stacked(Push(m, p, program, ctx))
    ensures m.stacks[Home(m, p)] == [] <==> p < TERMINALS
    ensures forall q, t, i :: Holds(m, q, t, i) ==> Holds(Push(m, p, program, ctx), q, t, i)
    ensures forall q, t, i :: Holds(Push(m, p, program, ctx), q, t, i) ==>
              Holds(m, q, t, i) || (q == p && t == Home(m, p) && i == |m.stacks[t]|)
  {
    var h := Home(m, p);
    var r := Push(m, p, program, ctx);
    if p < TERMINALS {
      if m.stacks[p] != [] { BaseShell(m, p); }
    } else {
      assert Live(m, h);
      var t, i :| Holds(m, h, t, i);
    }
    assert forall t :: 0 <= t < TERMINALS && t != h ==> r.stacks[t] == m.stacks[t];
    forall q, t, i | Holds(r, q, t, i)
      ensures Holds(m, q, t, i) || (q == p && t == h && i == |m.stacks[t]|)
    {
    }
    assert forall q, t, i :: Holds(m, q, t, i) ==> q != p;
    forall t | 0 < t < TERMINALS && r.stacks[t] != [] ensures r.stacks[t - 1] != [] {
      if m.stacks[t] == [] {
        assert t == p && Live(m, p - 1);
        var u, j :| Holds(m, p - 1, u, j);
        assert u == p - 1;
      }
    }
  }

  lemma StepKeepsWellFormed(m: Machine, e: Event)
    requires WellFormed(m)
    ensures e.Execute? ==> WellFormed(if m.running == -1 then m else DoExecute(m, e.image, e.ctx))
    ensures e.Halt? ==> WellFormed(DoHalt(m))
    ensures e.Show? ==> WellFormed(if 0 <= e.terminal < TERMINALS then m.(shown := e.terminal) else m)
    ensures e.Tick? ==> WellFormed(DoTick(m, e.ctx, e.shell, e.call))
  {
    match e
    case Execute(image, ctx) =>
      var p := LowestFree(m);
      if p != -1 && image.Some? { PushKeepsStacked(m, p, image.value, ctx); }
    case Halt =>
      var r := DoHalt(m);
      assert forall p, t, i :: Holds(r, p, t, i) ==> Holds(m, p, t, i);
    case Show(t) =>
      var r := m.(shown := t);
      assert forall p, t, i :: Holds(r, p, t, i) <==> Holds(m, p, t, i);
    case Tick(ctx, shell, call) =>
      ChosenTerminal(m);
      var c := Choose(m);
      if c != m.running {
        var m1 := Suspend(m, ctx).(running := c);
        assert forall p, t, i :: Holds(m1, p, t, i) <==> Holds(m, p, t, i);
        assert forall p :: Live(m1, p) <==> Live(m, p);
        if m.stacks[c] == [] { PushKeepsStacked(m1, c, shell, call); }
      }
  }

  // ---------- only the stacks matter for free slots ----------

  lemma {:induction false} SameFree(m: Machine, m': Machine, p: int)
    requires 0 <= p <= PROCESSES && forall q :: Live(m, q) <==> Live(m', q)
    ensures FreeFrom(m, p) == FreeFrom(m', p)
    decreases PROCESSES - p
  {
    if p < PROCESSES && Live(m, p) { SameFree(m, m', p + 1); }
  }

  lemma SameStacksSameFree(m: Machine, m': Machine)
    requires m.stacks == m'.stacks
    ensures LowestFree(m) == LowestFree(m')
  {
    forall q ensures Live(m, q) <==> Live(m', q) {
      assert forall t, i :: Holds(m, q, t, i) <==> Holds(m', q, t, i);
    }
    SameFree(m, m', 0);
  }
}
