/** What holds over whole runs of the abstract machine: calls nest, base shells live for ever,
    and the scheduler is fair. */
module Scheduling {
  import opened Prelude
  import opened Machines

  // ---------- calls to execute nest like procedure calls ----------

  /** Terminal t's stack has at least d frames now and after each of the events. */
  ghost predicate KeepsHeight(m: Machine, es: seq<Event>, t: int, d: nat)
    requires WellFormed(m) && 0 <= t < TERMINALS
    decreases |es|
  {
    |m.stacks[t]| >= d && (es != [] ==> KeepsHeight(Step(m, es[0]), es[1..], t, d))
  }

  lemma StepTouchesTopOnly(m: Machine, e: Event, t: int)
    requires WellFormed(m) && 0 <= t < TERMINALS
    ensures var s, r := m.stacks[t], Step(m, e).stacks[t];
            r == s || (|r| == |s| + 1 && r[..|s|] == s) || (|s| > 1 && r == s[..|s| - 1])
  {
    if e.Tick? { ChosenTerminal(m); }
  }

  /** Frames below the height a run keeps are exactly what they were: pid, program and the place
      to return to. */
  lemma {:induction false} LowerFramesUntouched(m: Machine, es: seq<Event>, t: int, d: nat)
    requires WellFormed(m) && 0 <= t < TERMINALS
    requires KeepsHeight(m, es, t, d)
    ensures |Run(m, es).stacks[t]| >= d
    ensures Run(m, es).stacks[t][..d] == m.stacks[t][..d]
    decreases |es|
  {
    if es != [] {
      StepTouchesTopOnly(m, es[0], t);
      LowerFramesUntouched(Step(m, es[0]), es[1..], t, d);
      var s, r := m.stacks[t], Step(m, es[0]).stacks[t];
      assert KeepsHeight(Step(m, es[0]), es[1..], t, d);
      assert |r| >= d;
      if |r| == |s| + 1 && r[..|s|] == s { assert r[..d] == r[..|s|][..d]; }
    }
  }

  /** The new program stays on top of its caller's stack as long as the run keeps that height. */
  lemma {:induction false} CallIsOnTop(m: Machine, program: Program, ctx: Context, es: seq<Event>, t: int)
    requires WellFormed(m) && Booted(m) && m.running == m.shown == t
    requires LowestFree(m) != -1
    requires var m1 := Step(m, Execute(Some(program), ctx));
             KeepsHeight(m1, es, t, |m.stacks[t]| + 1) && |Run(m1, es).stacks[t]| == |m.stacks[t]| + 1
    ensures Run(Step(m, Execute(Some(program), ctx)), es).stacks[t]
            == m.stacks[t] + [Frame(LowestFree(m), program, ctx)]
  {
    var p := LowestFree(m);
    if p < TERMINALS { BaseShell(m, p); }
    var m1 := Step(m, Execute(Some(program), ctx));
    assert m1.stacks[t] == m.stacks[t] + [Frame(p, program, ctx)];
    LowerFramesUntouched(m1, es, t, |m.stacks[t]| + 1);
    var m2 := Run(m1, es);
    assert m2.stacks[t] == m2.stacks[t][..|m.stacks[t]| + 1] == m1.stacks[t];
  }

  /** Whatever all terminals do between a call of `execute` and the matching `halt`, the call
      comes back at the very context that made it, with the caller's stack as it was. */
  lemma {:induction false} CallReturnsToItsCaller(m: Machine, program: Program, ctx: Context, es: seq<Event>, t: int)
    requires WellFormed(m) && Booted(m) && m.running == m.shown == t
    requires LowestFree(m) != -1
    requires var m1 := Step(m, Execute(Some(program), ctx));
             KeepsHeight(m1, es, t, |m.stacks[t]| + 1)
             && |Run(m1, es).stacks[t]| == |m.stacks[t]| + 1
             && Run(m1, es).running == t
    ensures var m2 := Run(Step(m, Execute(Some(program), ctx)), es);
            && Top(m2.stacks[t]) == Frame(LowestFree(m), program, ctx)
            && Step(m2, Halt).stacks[t] == m.stacks[t]
  {
    CallIsOnTop(m, program, ctx, es, t);
  }

  /** Once started, a base shell is at the bottom of its terminal's stack for ever. */
  lemma {:induction false} BaseShellsNeverDie(m: Machine, es: seq<Event>, t: int)
    requires WellFormed(m) && 0 <= t < TERMINALS && m.stacks[t] != []
    ensures Run(m, es).stacks[t] != []
    ensures Run(m, es).stacks[t][0] == m.stacks[t][0]
    ensures Run(m, es).stacks[t][0].pid == t
    decreases |es|
  {
    BaseShell(m, t);
    if es != [] {
      StepTouchesTopOnly(m, es[0], t);
      var s, r := m.stacks[t], Step(m, es[0]).stacks[t];
      if |r| == |s| + 1 && r[..|s|] == s { assert r[0] == r[..|s|][0]; }
      BaseShellsNeverDie(Step(m, es[0]), es[1..], t);
    }
  }

  // ---------- runs that respect the guard ----------

  ghost predicate GuardedStep(m: Machine, e: Event)
    requires WellFormed(m)
  {
    e.Execute? && m.running >= 0 && LowestFree(m) != -1 && e.image.Some? ==> Booted(m) && m.shown == m.running
  }

  /** No user program calls `execute` before all base shells run or from a terminal that is
      not displayed. */
  ghost predicate Guarded(m: Machine, es: seq<Event>)
    requires WellFormed(m)
    decreases |es|
  {
    es != [] ==>
      && GuardedStep(m, es[0])
      && Guarded(Step(m, es[0]), es[1..])
  }

  lemma {:induction false} TicksAreGuarded(m: Machine, es: seq<Event>)
    requires WellFormed(m) && forall i :: 0 <= i < |es| ==> es[i].Tick?
    ensures Guarded(m, es)
    decreases |es|
  {
    if es != [] { TicksAreGuarded(Step(m, es[0]), es[1..]); }
  }

  lemma {:induction false} RunAppend(m: Machine, a: seq<Event>, b: seq<Event>)
    requires WellFormed(m)
    ensures Run(m, a + b) == Run(Run(m, a), b)
    ensures Guarded(m, a) && Guarded(Run(m, a), b) ==> Guarded(m, a + b)
    decreases |a|
  {
    if a == [] {
      assert a + b == b;
    } else {
      assert (a + b)[0] == a[0] && (a + b)[1..] == a[1..] + b;
      RunAppend(Step(m, a[0]), a[1..], b);
    }
  }

  lemma RunOneMore(m: Machine, es: seq<Event>, e: Event)
    requires WellFormed(m)
    ensures Run(m, es + [e]) == Step(Run(m, es), e)
    ensures Guarded(m, es) && GuardedStep(Run(m, es), e) ==> Guarded(m, es + [e])
  {
    var n := Run(m, es);
    assert [e][1..] == [] && Run(n, [e]) == Run(Step(n, e), []);
    assert Guarded(n, [e]) <==> GuardedStep(n, e) && Guarded(Step(n, e), []);
    RunAppend(m, es, [e]);
  }

  // ---------- the scheduler ----------

  /** The choice is the first eligible terminal in cyclic order, or nobody else was eligible. */
  lemma ChoiceIsFirstEligible(m: Machine)
    requires WellFormed(m)
    ensures var c := Choose(m);
            || (c == m.running && forall k :: 1 <= k < TERMINALS ==> !Eligible(m, After(m, k)))
            || (exists k :: 1 <= k < TERMINALS && c == After(m, k) && Eligible(m, c)
                            && forall j :: 1 <= j < k ==> !Eligible(m, After(m, j)))
  {
    if Eligible(m, After(m, 1)) {
      assert Choose(m) == After(m, 1);
    } else if Eligible(m, After(m, 2)) {
      assert Choose(m) == After(m, 2);
    }
  }

  ghost predicate BackgroundShell(m: Machine)
    requires WellFormed(m)
  {
    m.running >= 0 && Top(m.stacks[m.running]).program.isShell && m.running != m.shown
  }

  /** Cyclic distance from the running terminal to t, in 1..TERMINALS. */
  function Distance(m: Machine, t: int): (d: int)
    requires -1 <= m.running < TERMINALS && 0 <= t < TERMINALS
    ensures 1 <= d <= TERMINALS && After(m, d) == t
  {
    if t > m.running then t - m.running else t - m.running + TERMINALS
  }

  /** Terminal u is the next to be started, and the scan meets no eligible terminal before it. */
  ghost predicate StartsNext(m: Machine, u: int)
    requires WellFormed(m) && 0 <= u < TERMINALS
  {
    && m.stacks[u] == [] && (forall v :: 0 <= v < u ==> m.stacks[v] != [])
    && forall k :: 1 <= k < Distance(m, u) ==> !Eligible(m, After(m, k))
  }

  lemma ChoiceStartsNext(m: Machine, u: int)
    requires WellFormed(m) && 0 <= u < TERMINALS
    ensures StartsNext(m, u) <==> Choose(m) == u && m.stacks[u] == []
  {
    ChosenTerminal(m);
  }

  /** A tick leaves a background shell scheduled exactly when it starts one on a terminal that is not
      displayed. */
  lemma BackgroundShellIff(m: Machine, ctx: Context, shell: Program, call: Context)
    requires WellFormed(m) && shell.isShell
    ensures BackgroundShell(Step(m, Tick(ctx, shell, call)))
       <==> exists u :: 0 <= u < TERMINALS && u != m.shown && StartsNext(m, u)
  {
    ChosenTerminal(m);
    forall u | 0 <= u < TERMINALS ensures StartsNext(m, u) <==> Choose(m) == u && m.stacks[u] == [] {
      ChoiceStartsNext(m, u);
    }
  }

  ghost predicate NoTick(es: seq<Event>) {
    forall i :: 0 <= i < |es| ==> !es[i].Tick?
  }

  lemma {:induction false} OnlyTicksReschedule(m: Machine, es: seq<Event>)
    requires WellFormed(m) && NoTick(es)
    ensures Run(m, es).running == m.running
    decreases |es|
  {
    if es != [] { OnlyTicksReschedule(Step(m, es[0]), es[1..]); }
  }

  /** The first k base shells run, each started by tick e. */
  ghost predicate BootedTo(m: Machine, e: Event, k: int) {
    && e.Tick? && WellFormed(m) && m.running == k - 1 && m.shown == 0
    && forall t :: 0 <= t < TERMINALS ==> m.stacks[t] == if t < k then [Frame(t, e.shell, e.call)] else []
  }

  lemma BootTick(m: Machine, e: Event, k: int)
    requires BootedTo(m, e, k) && 0 <= k < TERMINALS
    ensures Choose(m) == k && BootedTo(Step(m, e), e, k + 1)
  {
    ChosenTerminal(m);
    assert Choose(m) == After(m, 1) == k;
    assert [] + [Frame(k, e.shell, e.call)] == [Frame(k, e.shell, e.call)];
  }

  lemma {:induction false} Boot(m: Machine, e: Event, k: int, es: seq<Event>)
    requires BootedTo(m, e, k) && 0 <= k && k + |es| <= TERMINALS && forall i :: 0 <= i < |es| ==> es[i] == e
    ensures BootedTo(Run(m, es), e, k + |es|)
    decreases |es|
  {
    if es != [] {
      BootTick(m, e, k);
      Boot(Step(m, e), e, k + 1, es[1..]);
    }
  }

  lemma NothingBooted(saved: seq<Context>, e: Event)
    requires |saved| == TERMINALS && e.Tick?
    ensures BootedTo(Initial(saved), e, 0)
  {
  }

  /** The second tick of an undisturbed boot does leave one: terminal 1's base shell, terminal 0 displayed. */
  lemma BootLeavesBackgroundShell(saved: seq<Context>, ctx: Context, shell: Program, call: Context)
    requires |saved| == TERMINALS && shell.isShell
    ensures WellFormed(Initial(saved))
    ensures BackgroundShell(Run(Initial(saved), [Tick(ctx, shell, call), Tick(ctx, shell, call)]))
  {
    var e := Tick(ctx, shell, call);
    NothingBooted(saved, e);
    Boot(Initial(saved), e, 0, [e, e]);
  }

  // ---------- a preempted program goes on where it was interrupted ----------

  /** Terminal t is not the scheduled one now, nor after any of the events. */
  ghost predicate NotScheduled(m: Machine, es: seq<Event>, t: int)
    requires WellFormed(m)
    decreases |es|
  {
    m.running != t && (es != [] ==> NotScheduled(Step(m, es[0]), es[1..], t))
  }

  /** A step leaves the context of a terminal that is not scheduled alone, and under the guard its
      programs, too. */
  lemma StepLeavesWaiting(m: Machine, e: Event, t: int)
    requires WellFormed(m) && 0 <= t < TERMINALS && m.running != t
    ensures Step(m, e).saved[t] == m.saved[t]
    ensures GuardedStep(m, e) && m.stacks[t] != [] ==> Step(m, e).stacks[t] == m.stacks[t]
  {
    if e.Tick? { ChosenTerminal(m); }
    if e.Execute? && m.running >= 0 && LowestFree(m) != -1 && LowestFree(m) < TERMINALS {
      FreeSlotIsNoStartedTerminal(m);
    }
  }

  lemma FreeSlotIsNoStartedTerminal(m: Machine)
    requires WellFormed(m) && 0 <= LowestFree(m) < TERMINALS
    ensures m.stacks[LowestFree(m)] == []
  {
    if m.stacks[LowestFree(m)] != [] { BaseShell(m, LowestFree(m)); }
  }

  lemma {:induction false} WaitingIsLeftAlone(m: Machine, es: seq<Event>, t: int)
    requires WellFormed(m) && 0 <= t < TERMINALS && NotScheduled(m, es, t)
    ensures Run(m, es).saved[t] == m.saved[t]
    ensures Guarded(m, es) && m.stacks[t] != [] ==> Run(m, es).stacks[t] == m.stacks[t]
    decreases |es|
  {
    if es != [] {
      StepLeavesWaiting(m, es[0], t);
      WaitingIsLeftAlone(Step(m, es[0]), es[1..], t);
    }
  }

  lemma {:induction false} NotScheduledAtTheEnd(m: Machine, es: seq<Event>, t: int)
    requires WellFormed(m) && NotScheduled(m, es, t)
    ensures Run(m, es).running != t
    decreases |es|
  {
    if es != [] { NotScheduledAtTheEnd(Step(m, es[0]), es[1..], t); }
  }

  /** A tick that hands on the processor saves the interrupted context and takes no program away. */
  lemma TickPreempts(m: Machine, ctx: Context, shell: Program, call: Context)
    requires WellFormed(m) && m.running >= 0 && Choose(m) != m.running
    ensures var r := Step(m, Tick(ctx, shell, call));
            r.running != m.running && r.saved[m.running] == ctx && r.stacks[m.running] == m.stacks[m.running]
  {
    ChosenTerminal(m);
  }

  /** The processor does not come back during the events: the interrupted context is still the one to go
      on with, and the programs are still there. */
  lemma PreemptedContextIsKept(m: Machine, ctx: Context, shell: Program, call: Context, es: seq<Event>, t: int)
    requires WellFormed(m) && 0 <= t == m.running && Choose(m) != t
    requires NotScheduled(Step(m, Tick(ctx, shell, call)), es, t)
    ensures Run(Step(m, Tick(ctx, shell, call)), es).saved[t] == ctx
    ensures Guarded(Step(m, Tick(ctx, shell, call)), es) ==>
              Run(Step(m, Tick(ctx, shell, call)), es).stacks[t] == m.stacks[t]
  {
    TickPreempts(m, ctx, shell, call);
    WaitingIsLeftAlone(Step(m, Tick(ctx, shell, call)), es, t);
  }

  // ---------- how long a terminal waits ----------

  /** A tick and what happens until the next one. */
  datatype Round = Round(ctx: Context, shell: Program, call: Context, between: seq<Event>)

  ghost function AfterTick(m: Machine, r: Round): (n: Machine)
    requires WellFormed(m)
    ensures WellFormed(n)
  {
    Step(m, Tick(r.ctx, r.shell, r.call))
  }

  ghost predicate EligibleAtEachTick(m: Machine, rs: seq<Round>, t: int)
    requires WellFormed(m) && 0 <= t < TERMINALS
    decreases |rs|
  {
    rs != [] ==> Eligible(m, t) && EligibleAtEachTick(Run(AfterTick(m, rs[0]), rs[0].between), rs[1..], t)
  }

  /** One of the ticks leaves the processor with terminal t. */
  ghost predicate GetsScheduled(m: Machine, rs: seq<Round>, t: int)
    requires WellFormed(m)
    decreases |rs|
  {
    rs != [] &&
    (AfterTick(m, rs[0]).running == t || GetsScheduled(Run(AfterTick(m, rs[0]), rs[0].between), rs[1..], t))
  }

  /** One tick schedules an eligible terminal or comes strictly closer to it. */
  lemma TickMovesTowards(m: Machine, t: int, ctx: Context, shell: Program, call: Context)
    requires WellFormed(m) && 0 <= t < TERMINALS && Eligible(m, t)
    ensures var r := Step(m, Tick(ctx, shell, call));
            r.running == t || Distance(r, t) < Distance(m, t)
  {
    ChosenTerminal(m);
  }

  /** An eligible terminal waits for no more ticks than its distance, whatever switches, executes
      and halts come between them. */
  lemma {:induction false} WaitsAtMostItsDistance(m: Machine, rs: seq<Round>, t: int)
    requires WellFormed(m) && 0 <= t < TERMINALS
    requires forall i :: 0 <= i < |rs| ==> NoTick(rs[i].between)
    requires EligibleAtEachTick(m, rs, t) && |rs| >= Distance(m, t)
    ensures GetsScheduled(m, rs, t)
    decreases |rs|
  {
    var r := rs[0];
    var n := AfterTick(m, r);
    TickMovesTowards(m, t, r.ctx, r.shell, r.call);
    if n.running != t {
      OnlyTicksReschedule(n, r.between);
      WaitsAtMostItsDistance(Run(n, r.between), rs[1..], t);
    }
  }

  /** So two ticks are enough for a terminal that is waiting while another one runs, and three
      always. */
  lemma BoundedWaiting(m: Machine, rs: seq<Round>, t: int)
    requires WellFormed(m) && 0 <= t < TERMINALS
    requires forall i :: 0 <= i < |rs| ==> NoTick(rs[i].between)
    requires EligibleAtEachTick(m, rs, t)
    requires |rs| == if 0 <= m.running && m.running != t then 2 else 3
    ensures GetsScheduled(m, rs, t)
  {
    WaitsAtMostItsDistance(m, rs, t);
  }

  // ---------- no fewer ticks are enough ----------

  /** All base shells run and every terminal has another program on top: all are eligible. */
  ghost predicate Busy(m: Machine)
    requires WellFormed(m)
  {
    Booted(m) && forall t :: 0 <= t < TERMINALS ==> !Top(m.stacks[t]).program.isShell
  }

  /** Then the terminals take turns. */
  lemma BusyTick(m: Machine, r: Round)
    requires WellFormed(m) && Busy(m)
    ensures AfterTick(m, r).running == After(m, 1) && Busy(AfterTick(m, r))
    ensures AfterTick(m, r).stacks == m.stacks && AfterTick(m, r).shown == m.shown
  {
    ChosenTerminal(m);
    assert Eligible(m, After(m, 1));
  }

  ghost predicate Quiet(rs: seq<Round>) {
    forall i :: 0 <= i < |rs| ==> rs[i].between == []
  }

  /** With all terminals busy a terminal waits for exactly as many ticks as its distance. */
  lemma {:induction false} BusyWaitsItsDistance(m: Machine, rs: seq<Round>, t: int)
    requires WellFormed(m) && Busy(m) && 0 <= t < TERMINALS && Quiet(rs)
    ensures EligibleAtEachTick(m, rs, t)
    ensures GetsScheduled(m, rs, t) <==> |rs| >= Distance(m, t)
    decreases |rs|
  {
    if rs != [] {
      var n := AfterTick(m, rs[0]);
      BusyTick(m, rs[0]);
      assert Eligible(m, t) && Run(n, rs[0].between) == n;
      assert if n.running == t then Distance(m, t) == 1 else Distance(n, t) == Distance(m, t) - 1;
      BusyWaitsItsDistance(n, rs[1..], t);
    }
  }

  /** The first k base shells have been started, the others not yet. */
  ghost predicate Booting(m: Machine, k: int) {
    WellFormed(m) && m.running == k - 1 && forall t :: k <= t < TERMINALS ==> m.stacks[t] == []
  }

  lemma BootingTick(m: Machine, k: int, r: Round)
    requires Booting(m, k) && 0 <= k < TERMINALS
    ensures AfterTick(m, r).running == k && Booting(AfterTick(m, r), k + 1)
  {
    ChosenTerminal(m);
    assert Choose(m) == After(m, 1) == k;
  }

  /** While the system boots each tick starts the next terminal, so an unstarted one waits for exactly
      as many ticks as its distance, too. */
  lemma {:induction false} BootingWaitsItsDistance(m: Machine, k: int, rs: seq<Round>, t: int)
    requires Booting(m, k) && 0 <= k <= t < TERMINALS && Quiet(rs) && |rs| <= Distance(m, t)
    ensures EligibleAtEachTick(m, rs, t)
    ensures GetsScheduled(m, rs, t) <==> |rs| == Distance(m, t)
    decreases |rs|
  {
    if rs != [] {
      var n := AfterTick(m, rs[0]);
      BootingTick(m, k, rs[0]);
      assert Run(n, rs[0].between) == n;
      if k < t {
        BootingWaitsItsDistance(n, k + 1, rs[1..], t);
      } else {
        assert rs[1..] == [];
      }
    }
  }

  // ---------- and that on machines the kernel reaches ----------

  /** All base shells run, and the first k terminals run a program each besides. */
  ghost predicate Filled(m: Machine, e: Event, program: Program, ctx: Context, k: int) {
    && e.Tick? && WellFormed(m) && 0 <= k <= TERMINALS && After(m, 1) == k % TERMINALS && 0 <= m.running
    && forall t :: 0 <= t < TERMINALS ==>
         m.stacks[t] == [Frame(t, e.shell, e.call)] + if t < k then [Frame(TERMINALS + t, program, ctx)] else []
  }

  lemma NextSlotIsFree(m: Machine, e: Event, program: Program, ctx: Context, k: int)
    requires Filled(m, e, program, ctx, k) && k < TERMINALS
    ensures LowestFree(m) == TERMINALS + k
  {
    forall p, t, i | Holds(m, p, t, i) ensures p < TERMINALS + k {
      assert i == 0 || m.stacks[t][i].pid == TERMINALS + t;
    }
    forall p | 0 <= p < TERMINALS + k ensures Live(m, p) {
      assert Holds(m, p, if p < TERMINALS then p else p - TERMINALS, if p < TERMINALS then 0 else 1);
    }
  }

  /** The user turns to terminal k, the next tick schedules it, and its shell executes the program. */
  function FillNext(k: int, e: Event, program: Program, ctx: Context): seq<Event> {
    [Show(k), e, Execute(Some(program), ctx)]
  }

  lemma FillSwitches(m: Machine, e: Event, program: Program, ctx: Context, k: int)
    requires Filled(m, e, program, ctx, k) && k < TERMINALS
    ensures var b := Step(Step(m, Show(k)), e);
            b.running == b.shown == k && b.stacks == m.stacks && LowestFree(b) == TERMINALS + k
  {
    var a := Step(m, Show(k));
    ChosenTerminal(a);
    assert After(a, 1) == k && Eligible(a, k);
    NextSlotIsFree(m, e, program, ctx, k);
    SameStacksSameFree(m, Step(a, e));
  }

  lemma FillExecutes(m: Machine, b: Machine, e: Event, program: Program, ctx: Context, k: int)
    requires Filled(m, e, program, ctx, k) && k < TERMINALS && WellFormed(b)
    requires b.running == b.shown == k && b.stacks == m.stacks && LowestFree(b) == TERMINALS + k
    ensures GuardedStep(b, Execute(Some(program), ctx))
    ensures Filled(Step(b, Execute(Some(program), ctx)), e, program, ctx, k + 1)
  {
    var c, f := Step(b, Execute(Some(program), ctx)), Frame(TERMINALS + k, program, ctx);
    assert c.stacks == b.stacks[k := b.stacks[k] + [f]];
    assert [Frame(k, e.shell, e.call)] + [] + [f] == [Frame(k, e.shell, e.call)] + [f];
  }

  lemma RunThree(m: Machine, x: Event, y: Event, z: Event)
    requires WellFormed(m)
    ensures Run(m, [x, y, z]) == Step(Step(Step(m, x), y), z)
    ensures Guarded(m, [x, y, z]) <==>
              GuardedStep(m, x) && GuardedStep(Step(m, x), y) && GuardedStep(Step(Step(m, x), y), z)
  {
    var a, b := Step(m, x), Step(Step(m, x), y);
    assert [x, y, z][1..] == [y, z] && [y, z][1..] == [z] && [z][1..] == [];
    assert Run(b, [z]) == Run(Step(b, z), []) && Run(a, [y, z]) == Run(b, [z]);
    assert Guarded(b, [z]) <==> GuardedStep(b, z) && Guarded(Step(b, z), []);
    assert Guarded(a, [y, z]) <==> GuardedStep(a, y) && Guarded(b, [z]);
  }

  lemma FillsNext(m: Machine, e: Event, program: Program, ctx: Context, k: int)
    requires Filled(m, e, program, ctx, k) && k < TERMINALS
    ensures Filled(Run(m, FillNext(k, e, program, ctx)), e, program, ctx, k + 1)
    ensures Guarded(m, FillNext(k, e, program, ctx))
  {
    FillSwitches(m, e, program, ctx, k);
    FillExecutes(m, Step(Step(m, Show(k)), e), e, program, ctx, k);
    RunThree(m, Show(k), e, Execute(Some(program), ctx));
  }

  /** Three boot ticks and three fills. */
  lemma BusyRun(saved: seq<Context>, e: Event, program: Program, ctx: Context) returns (es: seq<Event>)
    requires |saved| == TERMINALS && e.Tick? && !program.isShell
    ensures WellFormed(Initial(saved)) && Guarded(Initial(saved), es)
    ensures var m := Run(Initial(saved), es); Busy(m) && m.running == TERMINALS - 1
  {
    var m := Initial(saved);
    es := [e, e, e];
    NothingBooted(saved, e);
    Boot(m, e, 0, es);
    TicksAreGuarded(m, es);
    BootedIsFilled(Run(m, es), e, program, ctx);
    var k := 0;
    while k < TERMINALS
      invariant 0 <= k <= TERMINALS && Guarded(m, es) && Filled(Run(m, es), e, program, ctx, k)
    {
      var next := FillNext(k, e, program, ctx);
      FillsNext(Run(m, es), e, program, ctx, k);
      RunAppend(m, es, next);
      es, k := es + next, k + 1;
    }
    FilledIsBusy(Run(m, es), e, program, ctx);
  }

  lemma BootedIsFilled(m: Machine, e: Event, program: Program, ctx: Context)
    requires BootedTo(m, e, TERMINALS)
    ensures Filled(m, e, program, ctx, 0)
  {
  }

  lemma FilledIsBusy(m: Machine, e: Event, program: Program, ctx: Context)
    requires Filled(m, e, program, ctx, TERMINALS) && !program.isShell
    ensures Busy(m) && m.running == TERMINALS - 1
  {
  }

  /** One more tick on a busy machine n, which es leads to. */
  lemma BusyStep(m: Machine, es: seq<Event>, n: Machine, e: Event)
    requires WellFormed(m) && Guarded(m, es) && n == Run(m, es) && Busy(n) && e.Tick?
    ensures Guarded(m, es + [e]) && Run(m, es + [e]) == Step(n, e)
    ensures Busy(Step(n, e)) && Step(n, e).running == After(n, 1)
  {
    BusyTick(n, Round(e.ctx, e.shell, e.call, []));
    RunOneMore(m, es, e);
  }

  /** Further ticks bring any terminal to run. */
  lemma BusyRunTo(saved: seq<Context>, running: int, e: Event, program: Program, ctx: Context) returns (es: seq<Event>)
    requires |saved| == TERMINALS && e.Tick? && !program.isShell && 0 <= running < TERMINALS
    ensures WellFormed(Initial(saved)) && Guarded(Initial(saved), es)
    ensures var m := Run(Initial(saved), es); Busy(m) && m.running == running
  {
    es := BusyRun(saved, e, program, ctx);
    var m := Initial(saved);
    var n := Run(m, es);
    if running != 2 {
      BusyStep(m, es, n, e);
      es, n := es + [e], Step(n, e);
      if running != 0 {
        BusyStep(m, es, n, e);
        es, n := es + [e], Step(n, e);
      }
    }
  }

  /** The bounds of BoundedWaiting are exact, whichever terminal is scheduled and whatever shells the
      ticks start: the kernel reaches a machine on which, with fewer ticks than the distance, terminal
      t is eligible at each of them and passed by. */
  lemma FewerTicksAreNotEnough(saved: seq<Context>, running: int, t: int, rs: seq<Round>, e: Event, program: Program)
      returns (es: seq<Event>)
    requires |saved| == TERMINALS && e.Tick? && !program.isShell
    requires -1 <= running < TERMINALS && 0 <= t < TERMINALS && Quiet(rs)
    requires |rs| < if t > running then t - running else t - running + TERMINALS
    ensures WellFormed(Initial(saved)) && Guarded(Initial(saved), es)
    ensures var m := Run(Initial(saved), es);
            m.running == running && EligibleAtEachTick(m, rs, t) && !GetsScheduled(m, rs, t)
  {
    if running == -1 {
      es := [];
      NothingBooted(saved, e);
      BootingWaitsItsDistance(Initial(saved), 0, rs, t);
    } else {
      es := BusyRunTo(saved, running, e, program, e.call);
      BusyWaitsItsDistance(Run(Initial(saved), es), rs, t);
    }
  }
}
