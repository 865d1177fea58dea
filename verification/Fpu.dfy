/**
 Lazy FPU switching and signal frames on i386 (arch/i386/fpu.c,
 arch/i386/signal.c, arch/i386/task_switch.c).

 One set of FPU registers is shared by all tasks and only changes hands when a
 task that does not own it uses it. Seen through `Abs` this is a machine in
 which every task has registers of its own and a signal handler's return
 restores all it interrupted.
 */
module Fpu {
  import opened Options

  type TaskId = nat

  /** The 512 bytes of fxsave, reduced to the control word and the registers. */
  datatype FpuState = FpuState(control: int, regs: seq<int>)

  /** What i386_init_fpu loads. */
  const INIT := FpuState(0x37F, [])

  /** The part of a task's context that signal return takes from the frame. */
  datatype UserRegs = UserRegs(eip: int, esp: int, regs: seq<int>, eflags: int, intr: seq<int>, tssEsp: int)

  /** The parts of the context that signal return does not take from user memory. */
  datatype Trusted = Trusted(kernEsp: int, cs: int, ds: int, ss: int)

  /** struct i386_task_context. */
  datatype Context = Context(user: UserRegs, trusted: Trusted, fpu: FpuState, fpuUsed: bool)

  /** i386_sigrest_t on the user stack: the context, the mask, and whether the alternate stack was taken. */
  datatype Frame = Frame(ctx: Context, mask: set<nat>, tookAlt: bool)

  /** struct sigaction: the flags, the mask and the handler. */
  datatype Action = Action(onStack: bool, noDefer: bool, resetHand: bool, mask: set<nat>, handler: int)

  const SIG_DFL := 0xFFFF_FFFE
  const SIG_IGN := 0xFFFF_FFFC

  /**
   A task. `frames` are the signal frames on its stack, innermost last; `actions`
   are those of its process, which has this task only.
   */
  datatype Task = Task(ctx: Context, mask: set<nat>, altDisabled: bool, altTop: int, onStack: bool,
                       actions: seq<Action>, frames: seq<Frame>)

  /** What scheduler_do_spawn pushes onto a new kernel stack: four words and a csstack_t. */
  const SPAWN_FRAME := 52

  const SIGKILL := 9
  const SIGSTOP := 23

  /** The two signals that can be neither caught nor blocked. */
  predicate Special(sig: nat) {
    sig == SIGKILL || sig == SIGSTOP
  }

  /** What sigprocmask does with the set it is given. */
  datatype How = Block | SetMask | Unblock

  function Masked(mask: set<nat>, how: How, signals: set<nat>): (r: set<nat>)
    ensures forall sig :: sig in r ==> !Special(sig)
  {
    (match how
     case Block => mask + signals
     case SetMask => signals
     case Unblock => mask - signals) - {SIGKILL, SIGSTOP}
  }

  /** The signal has a handler to run. */
  predicate Handled(actions: seq<Action>, sig: nat) {
    sig < |actions| && actions[sig].handler != SIG_DFL && actions[sig].handler != SIG_IGN
  }

  /** The actions after a delivery: SA_RESETHAND takes the handler away. */
  function Consumed(actions: seq<Action>, sig: nat): seq<Action>
    requires sig < |actions|
  {
    if actions[sig].resetHand then actions[sig := actions[sig].(handler := SIG_DFL)] else actions
  }

  /** The mask a handler runs with. */
  function Blocking(mask: set<nat>, act: Action, sig: nat): set<nat> {
    mask + (if act.resetHand || act.noDefer then {} else {sig}) + act.mask
  }

  // ---------- the eager machine ----------

  /** What a signal handler interrupts and its return has to bring back. */
  datatype Moment = Moment(fpu: FpuState, user: UserRegs, mask: set<nat>)

  /** A moment that a handler interrupted, and whether the handler went onto the alternate stack. */
  datatype Interrupt = Interrupt(moment: Moment, tookAlt: bool)

  /** A task with its own FPU registers; `onStack` is its SS_ONSTACK flag. */
  datatype Eager = Eager(now: Moment, onStack: bool, trusted: Trusted, altDisabled: bool, altTop: int,
                         actions: seq<Action>, interrupted: seq<Interrupt>)

  type Machine = map<TaskId, Eager>

  function EagerUse(m: Machine, t: TaskId, fpu: FpuState): Machine
    requires t in m
  {
    m[t := m[t].(now := m[t].now.(fpu := fpu))]
  }

  /** Running in user mode changes everything but the two kernel stack pointers. */
  function EagerRun(m: Machine, t: TaskId, user: UserRegs, cs: int, ds: int, ss: int): Machine
    requires t in m
  {
    m[t := m[t].(now := m[t].now.(user := user.(tssEsp := m[t].now.user.tssEsp)),
                 trusted := m[t].trusted.(cs := cs, ds := ds, ss := ss))]
  }

  /** A task that is switched away from remembers where its kernel stack ends. */
  function EagerSwitch(m: Machine, from: TaskId, to: TaskId, kernEsp: int): Machine
    requires from in m
  {
    if from == to then m else m[from := m[from].(trusted := m[from].trusted.(kernEsp := kernEsp))]
  }

  /**
   The child is a copy of its parent on a kernel stack of its own. The parent loses
   its signal mask and its alternate stack, even when there is no memory for a child.
   */
  function EagerFork(m: Machine, parent: TaskId, child: TaskId, top: int, memory: bool): Machine
    requires parent in m && child != parent
  {
    var e := m[parent];
    var m' := m[parent := e.(now := e.now.(mask := {}), altDisabled := true, onStack := false)];
    if !memory then m'
    else m'[child := e.(now := e.now.(user := e.now.user.(tssEsp := top)),
                        trusted := e.trusted.(kernEsp := top - SPAWN_FRAME))]
  }

  /** A handler of the signal would go onto the alternate stack. */
  predicate Takes(e: Eager, sig: nat)
    requires sig < |e.actions|
  {
    e.actions[sig].onStack && !e.altDisabled && !e.onStack
  }

  /** A delivery up to its last push. */
  function Begun(e: Eager, sig: nat, pushed: nat): Eager
    requires sig < |e.actions|
  {
    var alt := Takes(e, sig);
    var user := e.now.user.(esp := (if alt then e.altTop else e.now.user.esp) - pushed);
    e.(now := Moment(e.now.fpu, user, Blocking(e.now.mask, e.actions[sig], sig)),
       onStack := e.onStack || alt, actions := Consumed(e.actions, sig))
  }

  /** Entering a handler: remember the moment, then mask signals and maybe change stacks. */
  function EagerEnter(m: Machine, t: TaskId, sig: nat, pushed: nat): Machine
    requires t in m && sig < |m[t].actions|
  {
    var e := Begun(m[t], sig, pushed);
    m[t := e.(now := e.now.(user := e.now.user.(eip := m[t].actions[sig].handler)),
              interrupted := e.interrupted + [Interrupt(m[t].now, Takes(m[t], sig))])]
  }

  /** A handler whose frame does not fit: everything has changed and no moment is remembered. */
  function EagerFail(m: Machine, t: TaskId, sig: nat, pushed: nat): Machine
    requires t in m && sig < |m[t].actions|
  {
    m[t := Begun(m[t], sig, pushed)]
  }

  /** Leaving it: the moment comes back, and the alternate stack is released by the handler that took it. */
  function EagerExit(m: Machine, t: TaskId): Machine
    requires t in m && m[t].interrupted != []
  {
    var e := m[t];
    var n := |e.interrupted| - 1;
    m[t := e.(now := e.interrupted[n].moment, onStack := !e.interrupted[n].tookAlt && e.onStack,
              interrupted := e.interrupted[..n])]
  }

  /** sigaction, which is refused for a signal that cannot be caught. */
  function EagerAction(m: Machine, t: TaskId, sig: nat, act: Action): Machine
    requires t in m
  {
    if sig < |m[t].actions| && !Special(sig) then m[t := m[t].(actions := m[t].actions[sig := act])] else m
  }

  function EagerMask(m: Machine, t: TaskId, how: How, signals: set<nat>): Machine
    requires t in m
  {
    m[t := m[t].(now := m[t].now.(mask := Masked(m[t].now.mask, how, signals)))]
  }

  /** sigaltstack, which is refused while the stack is in use. */
  function EagerAlt(m: Machine, t: TaskId, top: int, disabled: bool): Machine
    requires t in m
  {
    if m[t].onStack then m else m[t := m[t].(altTop := top, altDisabled := disabled)]
  }

  datatype Event =
    | UseEv(f: FpuState -> FpuState)
    | RunEv(user: UserRegs, cs: int, ds: int, ss: int)
    | SwitchEv(t: TaskId, kernEsp: int)
    | ForkEv(child: TaskId, top: int, memory: bool)
    | ReapEv(t: TaskId)
    | EnterEv(sig: nat, pushed: nat)
    | FailEv(sig: nat, pushed: nat)
    | ExitEv
    | ActionEv(sig: nat, act: Action)
    | MaskEv(how: How, signals: set<nat>)
    | AltEv(top: int, disabled: bool)

  /** The machine and the running task. */
  datatype World = World(m: Machine, current: TaskId)

  predicate Possible(w: World, ev: Event) {
    w.current in w.m &&
    match ev
    case SwitchEv(t, _) => t in w.m
    case ForkEv(child, _, _) => child !in w.m
    case ReapEv(t) => t in w.m && t != w.current
    case EnterEv(sig, _) => Handled(w.m[w.current].actions, sig)
    case FailEv(sig, _) => Handled(w.m[w.current].actions, sig)
    case ExitEv => w.m[w.current].interrupted != []
    case _ => true
  }

  function EagerStep(w: World, ev: Event): (w': World)
    requires Possible(w, ev)
    ensures w'.current in w'.m
  {
    var c := w.current;
    match ev
    case UseEv(f) => World(EagerUse(w.m, c, f(w.m[c].now.fpu)), c)
    case RunEv(user, cs, ds, ss) => World(EagerRun(w.m, c, user, cs, ds, ss), c)
    case SwitchEv(t, k) => World(EagerSwitch(w.m, c, t, k), t)
    case ForkEv(child, top, memory) => World(EagerFork(w.m, c, child, top, memory), c)
    case ReapEv(t) => World(w.m - {t}, c)
    case EnterEv(sig, pushed) => World(EagerEnter(w.m, c, sig, pushed), c)
    case FailEv(sig, pushed) => World(EagerFail(w.m, c, sig, pushed), c)
    case ExitEv => World(EagerExit(w.m, c), c)
    case ActionEv(sig, act) => World(EagerAction(w.m, c, sig, act), c)
    case MaskEv(how, signals) => World(EagerMask(w.m, c, how, signals), c)
    case AltEv(top, disabled) => World(EagerAlt(w.m, c, top, disabled), c)
  }

  /** A run of the eager machine: the worlds it goes through. */
  ghost predicate EagerTrace(ws: seq<World>, evs: seq<Event>) {
    && |ws| == |evs| + 1
    && forall i :: 0 <= i < |evs| ==> Possible(ws[i], evs[i]) && ws[i + 1] == EagerStep(ws[i], evs[i])
  }

  /** The part of a run between its first event and event `k`. */
  lemma TraceTail(ws: seq<World>, evs: seq<Event>, k: nat)
    requires EagerTrace(ws, evs) && 0 < k < |evs|
    ensures EagerTrace(ws[1..k + 1], evs[1..k])
  {
    forall i | 0 <= i < k - 1
      ensures Possible(ws[1..k + 1][i], evs[1..k][i])
      ensures ws[1..k + 1][i + 1] == EagerStep(ws[1..k + 1][i], evs[1..k][i])
    {
      assert Possible(ws[i + 1], evs[i + 1]) && ws[i + 2] == EagerStep(ws[i + 1], evs[i + 1]);
    }
  }

  /** Task `t` lives through the run, inside at least `n` handlers. */
  ghost predicate Inside(ws: seq<World>, t: TaskId, n: nat) {
    forall i :: 0 <= i < |ws| ==> t in ws[i].m && |ws[i].m[t].interrupted| >= n
  }

  /** As long as task `t` lives and stays inside `n` handlers, what they interrupted is not touched. */
  lemma {:induction false} Nested(ws: seq<World>, evs: seq<Event>, t: TaskId, n: nat)
    requires EagerTrace(ws, evs) && Inside(ws, t, n)
    ensures ws[|evs|].m[t].interrupted[..n] == ws[0].m[t].interrupted[..n]
    decreases |evs|
  {
    if evs != [] {
      var k := |evs| - 1;
      Nested(ws[..k + 1], evs[..k], t, n);
      assert ws[k + 1] == EagerStep(ws[k], evs[k]);
    }
  }

  /** A run from the entry of a handler of task `t`, its `n`-th, to its return. */
  ghost predicate Handling(ws: seq<World>, evs: seq<Event>, t: TaskId, n: nat) {
    && EagerTrace(ws, evs) && |evs| >= 2
    && ws[0].current == t && evs[0].EnterEv? && |ws[0].m[t].interrupted| == n
    && Inside(ws[1..|evs|], t, n + 1)
    && var k := |evs| - 1;
       ws[k].current == t && evs[k].ExitEv? && |ws[k].m[t].interrupted| == n + 1
  }

  /**
   A handler that returns gives back the moment it interrupted, whatever ran in
   between: other tasks, other uses of the FPU, forks, and other handlers of this
   task. The alternate stack is marked as it was, if the handler itself took it or
   its task neither forked nor failed to start a handler there.
   */
  lemma HandlerRestores(ws: seq<World>, evs: seq<Event>, t: TaskId, n: nat)
    requires Handling(ws, evs, t, n)
    ensures t in ws[|evs|].m && ws[|evs|].m[t].now == ws[0].m[t].now
    ensures ws[|evs|].m[t].interrupted == ws[0].m[t].interrupted
    ensures Takes(ws[0].m[t], evs[0].sig) || (!Forks(ws, evs, t) && !Strands(ws, evs, t)) ==>
      ws[|evs|].m[t].onStack == ws[0].m[t].onStack
  {
    var ws', evs' := Middle(ws, evs, t, n);
    Nested(ws', evs', t, n + 1);
    var e, e' := ws[1].m[t], ws[|evs| - 1].m[t];
    assert e.interrupted[n] == e.interrupted[..n + 1][n] && e'.interrupted[n] == e'.interrupted[..n + 1][n];
    assert e'.interrupted[..n] == e'.interrupted[..n + 1][..n] && e.interrupted[..n] == e.interrupted[..n + 1][..n];
    StackInside(ws', evs', t, n + 1, e.onStack);
  }

  /** What lies between entry and return. */
  lemma Middle(ws: seq<World>, evs: seq<Event>, t: TaskId, n: nat) returns (ws': seq<World>, evs': seq<Event>)
    requires Handling(ws, evs, t, n)
    ensures ws' == ws[1..|evs|] && evs' == evs[1..|evs| - 1] && EagerTrace(ws', evs') && Inside(ws', t, n + 1)
    ensures ws'[0] == ws[1] == EagerStep(ws[0], evs[0]) && ws'[|evs'|] == ws[|evs| - 1]
    ensures ws[|evs|] == EagerStep(ws[|evs| - 1], evs[|evs| - 1])
    ensures Forks(ws, evs, t) <==> Forks(ws', evs', t)
    ensures Strands(ws, evs, t) <==> Strands(ws', evs', t)
    ensures Asks(ws, evs, t) <==> Asks(ws', evs', t)
  {
    hide EagerStep, Possible, Forks, Strands, Asks;
    var k := |evs| - 1;
    ws', evs' := ws[1..|evs|], evs[1..k];
    TraceTail(ws, evs, k);
    SameMiddle(ws, evs, t);
    assert ws[0 + 1] == EagerStep(ws[0], evs[0]) && ws[k + 1] == EagerStep(ws[k], evs[k]);
  }

  lemma SameMiddle(ws: seq<World>, evs: seq<Event>, t: TaskId)
    requires |ws| == |evs| + 1 && |evs| >= 2 && evs[0].EnterEv? && evs[|evs| - 1].ExitEv?
    ensures var ws', evs' := ws[1..|evs|], evs[1..|evs| - 1];
      && (Forks(ws, evs, t) <==> Forks(ws', evs', t))
      && (Strands(ws, evs, t) <==> Strands(ws', evs', t))
      && (Asks(ws, evs, t) <==> Asks(ws', evs', t))
  {
    hide StrandsNow;
    var ws', evs' := ws[1..|evs|], evs[1..|evs| - 1];
    assert forall i :: 0 <= i < |evs'| ==> evs'[i] == evs[i + 1] && ws'[i] == ws[i + 1];
    if i :| 0 <= i < |evs| && evs[i].ForkEv? && ws[i].current == t {
      assert evs'[i - 1].ForkEv? && ws'[i - 1].current == t;
    }
    if i :| 0 <= i < |evs| && evs[i].AltEv? && ws[i].current == t {
      assert evs'[i - 1].AltEv? && ws'[i - 1].current == t;
    }
    if i :| 0 <= i < |evs| && StrandsNow(ws[i], evs[i], t) {
      OnlyFails(ws[i], evs[i], t);
      assert StrandsNow(ws'[i - 1], evs'[i - 1], t);
    }
  }

  lemma OnlyFails(w: World, ev: Event, t: TaskId)
    ensures StrandsNow(w, ev, t) ==> ev.FailEv?
  {
  }

  // ---------- the alternate stack ----------

  /** Task `t` forks. */
  ghost predicate Forks(ws: seq<World>, evs: seq<Event>, t: TaskId)
    requires |ws| > |evs|
  {
    exists i :: 0 <= i < |evs| && evs[i].ForkEv? && ws[i].current == t
  }

  predicate StrandsNow(w: World, ev: Event, t: TaskId) {
    ev.FailEv? && w.current == t && t in w.m && ev.sig < |w.m[t].actions| && Takes(w.m[t], ev.sig)
  }

  /** A handler of task `t` fails to start after it has marked the alternate stack. */
  ghost predicate Strands(ws: seq<World>, evs: seq<Event>, t: TaskId)
    requires |ws| > |evs|
  {
    exists i :: 0 <= i < |evs| && StrandsNow(ws[i], evs[i], t)
  }

  /** Task `t` calls sigaltstack. */
  ghost predicate Asks(ws: seq<World>, evs: seq<Event>, t: TaskId)
    requires |ws| > |evs|
  {
    exists i :: 0 <= i < |evs| && evs[i].AltEv? && ws[i].current == t
  }

  /** The flag is set by what happened before the `n`-th handler, or by the one later handler that took the stack. */
  ghost predicate Flagged(e: Eager, n: nat, before: bool) {
    && n <= |e.interrupted|
    && (e.onStack <==> before || exists k :: n <= k < |e.interrupted| && e.interrupted[k].tookAlt)
    && (forall k :: n <= k < |e.interrupted| && e.interrupted[k].tookAlt ==> !before)
    && (forall k, l :: n <= k < l < |e.interrupted| ==> !(e.interrupted[k].tookAlt && e.interrupted[l].tookAlt))
  }

  lemma FlagStep(w: World, ev: Event, t: TaskId, n: nat, before: bool)
    requires Possible(w, ev) && t in w.m && Flagged(w.m[t], n, before) && !(ev.ForkEv? && w.current == t)
    requires var w' := EagerStep(w, ev); t in w'.m && |w'.m[t].interrupted| >= n
    ensures Flagged(EagerStep(w, ev).m[t], n, before || StrandsNow(w, ev, t))
  {
    hide Flagged;
    var e, e' := w.m[t], EagerStep(w, ev).m[t];
    if ev.EnterEv? && w.current == t {
      FlagEnter(e, e', n, before, Takes(e, ev.sig));
    } else if ev.ExitEv? && w.current == t {
      FlagExit(e, e', n, before);
    } else {
      FlagSame(e, e', n, before, StrandsNow(w, ev, t));
    }
  }

  lemma FlagEnter(e: Eager, e': Eager, n: nat, before: bool, alt: bool)
    requires Flagged(e, n, before) && (alt ==> !e.onStack) && e'.onStack == (e.onStack || alt)
    requires |e'.interrupted| == |e.interrupted| + 1 && e'.interrupted[..|e.interrupted|] == e.interrupted
    requires e'.interrupted[|e.interrupted|].tookAlt == alt
    ensures Flagged(e', n, before)
  {
    assert forall k :: 0 <= k < |e.interrupted| ==> e'.interrupted[k] == e.interrupted[k];
  }

  lemma FlagExit(e: Eager, e': Eager, n: nat, before: bool)
    requires Flagged(e, n, before) && |e.interrupted| > n && e'.interrupted == e.interrupted[..|e.interrupted| - 1]
    requires e'.onStack == (!e.interrupted[|e.interrupted| - 1].tookAlt && e.onStack)
    ensures Flagged(e', n, before)
  {
    assert forall k :: 0 <= k < |e'.interrupted| ==> e'.interrupted[k] == e.interrupted[k];
  }

  lemma FlagSame(e: Eager, e': Eager, n: nat, before: bool, raised: bool)
    requires Flagged(e, n, before) && e'.interrupted == e.interrupted && (raised ==> !e.onStack)
    requires e'.onStack == (e.onStack || raised)
    ensures Flagged(e', n, before || raised)
  {
  }

  /** The flag inside a handler: while its owner does not fork, and after it has. */
  lemma {:induction false} StackInside(ws: seq<World>, evs: seq<Event>, t: TaskId, n: nat, before: bool)
    requires EagerTrace(ws, evs) && Inside(ws, t, n) && Flagged(ws[0].m[t], n, before)
    ensures !Forks(ws, evs, t) ==> Flagged(ws[|evs|].m[t], n, before || Strands(ws, evs, t))
    ensures Forks(ws, evs, t) && !Asks(ws, evs, t) ==> ws[|evs|].m[t].altDisabled && !ws[|evs|].m[t].onStack
    decreases |evs|
  {
    if evs != [] {
      var k := |evs| - 1;
      var ws', evs' := ws[..k + 1], evs[..k];
      StackInside(ws', evs', t, n, before);
      assert ws[k + 1] == EagerStep(ws[k], evs[k]);
      LastOne(ws, evs, t);
      if !Forks(ws, evs, t) {
        FlagStep(ws[k], evs[k], t, n, before || Strands(ws', evs', t));
      }
    }
  }

  lemma LastOne(ws: seq<World>, evs: seq<Event>, t: TaskId)
    requires |ws| == |evs| + 1 && evs != []
    ensures var k := |evs| - 1;
      && (Forks(ws, evs, t) <==> Forks(ws[..k + 1], evs[..k], t) || (evs[k].ForkEv? && ws[k].current == t))
      && (Strands(ws, evs, t) <==> Strands(ws[..k + 1], evs[..k], t) || StrandsNow(ws[k], evs[k], t))
      && (Asks(ws, evs, t) <==> Asks(ws[..k + 1], evs[..k], t) || (evs[k].AltEv? && ws[k].current == t))
  {
    var k := |evs| - 1;
    assert forall i :: 0 <= i < k ==> evs[..k][i] == evs[i] && ws[..k + 1][i] == ws[i];
  }

  /**
   Exactly when the alternate stack is marked after a handler has returned, for a
   task that does not call sigaltstack in it: a fork clears the mark for good, and a
   handler that failed to start leaves it set.
   */
  lemma StackFlagExactly(ws: seq<World>, evs: seq<Event>, t: TaskId, n: nat)
    requires Handling(ws, evs, t, n) && !Asks(ws, evs, t)
    ensures t in ws[|evs|].m
    ensures ws[|evs|].m[t].onStack <==>
      !Takes(ws[0].m[t], evs[0].sig) && !Forks(ws, evs, t) && (ws[0].m[t].onStack || Strands(ws, evs, t))
  {
    var ws', evs' := Middle(ws, evs, t, n);
    Nested(ws', evs', t, n + 1);
    var e, e' := ws[1].m[t], ws[|evs| - 1].m[t];
    assert e.interrupted[n] == e.interrupted[..n + 1][n] && e'.interrupted[n] == e'.interrupted[..n + 1][n];
    StackInside(ws', evs', t, n + 1, e.onStack);
  }

  /** A fork inside a handler that runs on the alternate stack of another: all comes back but the mark. */
  lemma ForkLosesStack(w: World, sig: nat, pushed: nat, child: TaskId, top: int, memory: bool)
    requires Possible(w, EnterEv(sig, pushed)) && w.m[w.current].onStack && child !in w.m
    ensures var w1 := EagerStep(w, EnterEv(sig, pushed));
      && Possible(w1, ForkEv(child, top, memory))
      && var w2 := EagerStep(w1, ForkEv(child, top, memory));
         && Possible(w2, ExitEv) && w2.m[w.current].now.mask == {}
         && var e := EagerStep(w2, ExitEv).m[w.current];
            e.now == w.m[w.current].now && !e.onStack && e.altDisabled
  {
  }

  /** The stack is marked as taken, and no return of a handler will change that. */
  ghost predicate AltTaken(e: Eager) {
    e.onStack && forall k :: 0 <= k < |e.interrupted| ==> !e.interrupted[k].tookAlt
  }

  /**
   A handler's frame that does not fit on the alternate stack loses that stack: it
   stays marked as taken, and sigaltstack is refused, until its owner forks. The
   task is one whose mark and frames agree, as they do until it forks on that stack.
   */
  lemma {:induction false} AltStackLost(ws: seq<World>, evs: seq<Event>, t: TaskId)
    requires EagerTrace(ws, evs) && evs != [] && StrandsNow(ws[0], evs[0], t) && Flagged(ws[0].m[t], 0, false)
    requires Inside(ws, t, 0) && !Forks(ws, evs, t)
    ensures AltTaken(ws[|evs|].m[t])
    decreases |evs|
  {
    var k := |evs| - 1;
    assert ws[k + 1] == EagerStep(ws[k], evs[k]);
    LastOne(ws, evs, t);
    if k > 0 {
      AltStackLost(ws[..k + 1], evs[..k], t);
    }
  }

  /** Mark and frames agree in every run of a task without handlers, up to its first fork. */
  lemma FlagsAgree(ws: seq<World>, evs: seq<Event>, t: TaskId)
    requires EagerTrace(ws, evs) && Inside(ws, t, 0) && !Forks(ws, evs, t) && !Strands(ws, evs, t)
    requires ws[0].m[t].interrupted == [] && !ws[0].m[t].onStack
    ensures Flagged(ws[|evs|].m[t], 0, false)
  {
    StackInside(ws, evs, t, 0, false);
  }

  /** A handler with SA_RESETHAND is started once, or fails to start once, until one is installed again. */
  lemma {:induction false} OneShot(ws: seq<World>, evs: seq<Event>, t: TaskId, sig: nat)
    requires EagerTrace(ws, evs) && evs != [] && ws[0].current == t && (evs[0].EnterEv? || evs[0].FailEv?)
    requires evs[0].sig == sig && sig < |ws[0].m[t].actions| && ws[0].m[t].actions[sig].resetHand
    requires Inside(ws, t, 0)
    requires forall i :: 0 <= i < |evs| && evs[i].ActionEv? && evs[i].sig == sig ==> ws[i].current != t
    ensures sig < |ws[|evs|].m[t].actions| && !Handled(ws[|evs|].m[t].actions, sig)
    ensures ws[|evs|].m[t].actions[sig].handler == SIG_DFL
    decreases |evs|
  {
    var k := |evs| - 1;
    assert ws[k + 1] == EagerStep(ws[k], evs[k]);
    if k > 0 {
      OneShot(ws[..k + 1], evs[..k], t, sig);
    }
  }

  // ---------- what a handler runs with ----------

  /**
   Entering a handler, field by field: what is blocked, where it starts and on which stack, what becomes of the
   action, and what is remembered. Everything else stays. A handler that fails to start leaves all of this but
   the start and the memory.
   */
  lemma EntryMeans(w: World, sig: nat, pushed: nat)
    requires Possible(w, EnterEv(sig, pushed))
    ensures var e, e' := w.m[w.current], EagerStep(w, EnterEv(sig, pushed)).m[w.current]; var act := e.actions[sig];
      && (forall x :: x in e'.now.mask <==>
           x in e.now.mask || x in act.mask || (x == sig && !act.noDefer && !act.resetHand))
      && e'.now.user == e.now.user.(eip := act.handler, esp := e'.now.user.esp) && e'.now.fpu == e.now.fpu
      && (if act.onStack && !e.altDisabled && !e.onStack then e'.onStack && e'.now.user.esp == e.altTop - pushed
          else e'.onStack == e.onStack && e'.now.user.esp == e.now.user.esp - pushed)
      && |e'.actions| == |e.actions| && e'.actions[sig].handler == (if act.resetHand then SIG_DFL else act.handler)
      && e'.actions[sig] == act.(handler := e'.actions[sig].handler)
      && (forall x :: 0 <= x < |e.actions| && x != sig ==> e'.actions[x] == e.actions[x])
      && e'.trusted == e.trusted && e'.altDisabled == e.altDisabled && e'.altTop == e.altTop
      && e'.interrupted == e.interrupted + [Interrupt(e.now, e'.onStack && !e.onStack)]
      && Possible(w, FailEv(sig, pushed))
      && EagerStep(w, FailEv(sig, pushed)).m[w.current] ==
         e'.(now := e'.now.(user := e'.now.user.(eip := e.now.user.eip)), interrupted := e.interrupted)
  {
  }

  /** Task `t` calls sigprocmask. */
  ghost predicate Remasks(ws: seq<World>, evs: seq<Event>, t: TaskId)
    requires |ws| > |evs|
  {
    exists i :: 0 <= i < |evs| && evs[i].MaskEv? && ws[i].current == t
  }

  /** These signals are blocked, now and in all handlers from the `n`-th on. */
  ghost predicate Blocked(e: Eager, n: nat, signals: set<nat>) {
    && signals <= e.now.mask && n <= |e.interrupted|
    && forall k :: n <= k < |e.interrupted| ==> signals <= e.interrupted[k].moment.mask
  }

  lemma BlockedStep(w: World, ev: Event, t: TaskId, n: nat, signals: set<nat>)
    requires Possible(w, ev) && t in w.m && Blocked(w.m[t], n, signals)
    requires w.current == t ==> !ev.ForkEv? && !ev.MaskEv?
    requires var w' := EagerStep(w, ev); t in w'.m && |w'.m[t].interrupted| >= n
    ensures Blocked(EagerStep(w, ev).m[t], n, signals)
  {
  }

  lemma {:induction false} BlockedKept(ws: seq<World>, evs: seq<Event>, t: TaskId, n: nat, signals: set<nat>)
    requires EagerTrace(ws, evs) && Inside(ws, t, n) && Blocked(ws[0].m[t], n, signals)
    requires !Forks(ws, evs, t) && !Remasks(ws, evs, t)
    ensures Blocked(ws[|evs|].m[t], n, signals)
    decreases |evs|
  {
    if evs != [] {
      var k := |evs| - 1;
      BlockedKept(ws[..k + 1], evs[..k], t, n, signals);
      assert ws[k + 1] == EagerStep(ws[k], evs[k]);
      BlockedStep(ws[k], evs[k], t, n, signals);
    }
  }

  /**
   From the entry of a handler, until its task returns from it, forks or calls sigprocmask, everything that was
   blocked before stays blocked, and so does all of sa_mask and, without SA_NODEFER and SA_RESETHAND, the signal
   itself. Handlers that interrupt it do not matter.
   */
  lemma HandlerBlocks(ws: seq<World>, evs: seq<Event>, t: TaskId, n: nat)
    requires EagerTrace(ws, evs) && evs != [] && ws[0].current == t && evs[0].EnterEv?
    requires |ws[0].m[t].interrupted| == n && Inside(ws[1..], t, n + 1)
    requires !Forks(ws, evs, t) && !Remasks(ws, evs, t)
    ensures var act := ws[0].m[t].actions[evs[0].sig]; var mask := ws[|evs|].m[t].now.mask;
      && ws[0].m[t].now.mask <= mask && act.mask <= mask
      && (!act.noDefer && !act.resetHand ==> evs[0].sig in mask)
  {
    var e := ws[0].m[t];
    var act := e.actions[evs[0].sig];
    assert ws[0 + 1] == EagerStep(ws[0], evs[0]);
    EntryMeans(ws[0], evs[0].sig, evs[0].pushed);
    var ws', evs' := ws[1..], evs[1..];
    forall i | 0 <= i < |evs'|
      ensures Possible(ws'[i], evs'[i]) && ws'[i + 1] == EagerStep(ws'[i], evs'[i])
    {
      assert Possible(ws[i + 1], evs[i + 1]) && ws[i + 2] == EagerStep(ws[i + 1], evs[i + 1]);
    }
    BlockedKept(ws', evs', t, n + 1, ws[1].m[t].now.mask);
  }

  /** sigprocmask, signal by signal. */
  lemma MaskMeans(w: World, how: How, signals: set<nat>, sig: nat)
    requires Possible(w, MaskEv(how, signals))
    ensures sig in EagerStep(w, MaskEv(how, signals)).m[w.current].now.mask <==>
      && sig != 9 && sig != 23
      && match how
         case Block => sig in w.m[w.current].now.mask || sig in signals
         case SetMask => sig in signals
         case Unblock => sig in w.m[w.current].now.mask && sig !in signals
  {
  }

  /** Task `t` replaces the action of the signal, or uses it up. */
  predicate Replaces(w: World, ev: Event, t: TaskId, sig: nat) {
    && w.current == t && t in w.m && sig < |w.m[t].actions|
    && ((ev.ActionEv? && ev.sig == sig) ||
        ((ev.EnterEv? || ev.FailEv?) && ev.sig == sig && w.m[t].actions[sig].resetHand))
  }

  /** The action that sigaction installs stays until it is replaced or used up: deliveries find it. */
  lemma {:induction false} ActionKept(ws: seq<World>, evs: seq<Event>, t: TaskId, sig: nat)
    requires EagerTrace(ws, evs) && Inside(ws, t, 0) && evs != []
    requires ws[0].current == t && evs[0].ActionEv? && evs[0].sig == sig < |ws[0].m[t].actions| && sig != 9 && sig != 23
    requires forall i :: 0 < i < |evs| ==> !Replaces(ws[i], evs[i], t, sig)
    ensures sig < |ws[|evs|].m[t].actions| && ws[|evs|].m[t].actions[sig] == evs[0].act
    decreases |evs|
  {
    var k := |evs| - 1;
    assert ws[k + 1] == EagerStep(ws[k], evs[k]);
    if k > 0 {
      ActionKept(ws[..k + 1], evs[..k], t, sig);
    }
  }

  /** The stack that sigaltstack installs stays until the next such call or a fork. */
  lemma {:induction false} AltKept(ws: seq<World>, evs: seq<Event>, t: TaskId)
    requires EagerTrace(ws, evs) && Inside(ws, t, 0) && evs != []
    requires ws[0].current == t && evs[0].AltEv? && !ws[0].m[t].onStack && !Forks(ws, evs, t)
    requires forall i :: 0 < i < |evs| && evs[i].AltEv? ==> ws[i].current != t
    ensures ws[|evs|].m[t].altTop == evs[0].top && ws[|evs|].m[t].altDisabled == evs[0].disabled
    decreases |evs|
  {
    var k := |evs| - 1;
    assert ws[k + 1] == EagerStep(ws[k], evs[k]);
    LastOne(ws, evs, t);
    if k > 0 {
      AltKept(ws[..k + 1], evs[..k], t);
    }
  }

  // ---------- every task has a machine of its own ----------

  /** A task that does not run is left alone, as long as it lives. */
  lemma {:induction false} LeftAlone(ws: seq<World>, evs: seq<Event>, t: TaskId)
    requires EagerTrace(ws, evs) && Inside(ws, t, 0)
    requires forall i :: 0 <= i < |evs| ==> ws[i].current != t
    ensures ws[|evs|].m[t] == ws[0].m[t]
    decreases |evs|
  {
    if evs != [] {
      var k := |evs| - 1;
      LeftAlone(ws[..k + 1], evs[..k], t);
      assert ws[k + 1] == EagerStep(ws[k], evs[k]);
    }
  }

  /** It comes back with all it had, on the kernel stack it was switched away from. */
  lemma SwitchedBack(ws: seq<World>, evs: seq<Event>, t: TaskId)
    requires EagerTrace(ws, evs) && Inside(ws, t, 0) && evs != []
    requires ws[0].current == t && evs[0].SwitchEv? && forall i :: 0 < i < |evs| ==> ws[i].current != t
    requires evs[0].t != t
    ensures ws[|evs|].m[t] == ws[0].m[t].(trusted := ws[0].m[t].trusted.(kernEsp := evs[0].kernEsp))
  {
    assert ws[0 + 1] == EagerStep(ws[0], evs[0]);
    var ws', evs' := ws[1..], evs[1..];
    forall i | 0 <= i < |evs'|
      ensures Possible(ws'[i], evs'[i]) && ws'[i + 1] == EagerStep(ws'[i], evs'[i]) && ws'[i].current != t
    {
      assert Possible(ws[i + 1], evs[i + 1]) && ws[i + 2] == EagerStep(ws[i + 1], evs[i + 1]);
    }
    LeftAlone(ws', evs', t);
  }

  /** The FPU instructions of task `t`, one after the other. */
  ghost function Computed(ws: seq<World>, evs: seq<Event>, t: TaskId, fpu: FpuState): FpuState
    requires |ws| > |evs|
  {
    if evs == [] then fpu else
      var k := |evs| - 1;
      var before := Computed(ws[..k + 1], evs[..k], t, fpu);
      if evs[k].UseEv? && ws[k].current == t then evs[k].f(before) else before
  }

  /**
   The registers a task sees are those it computed itself: its own instructions applied one after the other,
   whatever other tasks compute in between. A return from a handler, which brings older ones back, is shut out.
   */
  lemma {:induction false} OwnRegisters(ws: seq<World>, evs: seq<Event>, t: TaskId)
    requires EagerTrace(ws, evs) && Inside(ws, t, 0)
    requires forall i :: 0 <= i < |evs| && evs[i].ExitEv? ==> ws[i].current != t
    ensures ws[|evs|].m[t].now.fpu == Computed(ws, evs, t, ws[0].m[t].now.fpu)
    decreases |evs|
  {
    if evs != [] {
      var k := |evs| - 1;
      OwnRegisters(ws[..k + 1], evs[..k], t);
      assert ws[k + 1] == EagerStep(ws[k], evs[k]);
    }
  }

  /** What is not to be taken from user memory only changes when their task enters the kernel or is switched away. */
  lemma {:induction false} TrustedKept(ws: seq<World>, evs: seq<Event>, t: TaskId)
    requires EagerTrace(ws, evs) && Inside(ws, t, 0)
    requires forall i :: 0 <= i < |evs| && (evs[i].RunEv? || evs[i].SwitchEv?) ==> ws[i].current != t
    ensures ws[|evs|].m[t].trusted == ws[0].m[t].trusted
    decreases |evs|
  {
    if evs != [] {
      var k := |evs| - 1;
      TrustedKept(ws[..k + 1], evs[..k], t);
      assert ws[k + 1] == EagerStep(ws[k], evs[k]);
    }
  }

  /** A child starts as its parent was, on a kernel stack of its own; the parent goes on with an empty mask. */
  lemma ForkMeans(w: World, child: TaskId, top: int)
    requires Possible(w, ForkEv(child, top, true))
    ensures var e := w.m[w.current]; var w' := EagerStep(w, ForkEv(child, top, true));
      && child in w'.m && w'.current == w.current
      && var c, e' := w'.m[child], w'.m[w.current];
         && c.now.fpu == e.now.fpu && c.now.mask == e.now.mask && c.now.user == e.now.user.(tssEsp := top)
         && c.trusted == e.trusted.(kernEsp := top - 52) && c.actions == e.actions && c.interrupted == e.interrupted
         && c.onStack == e.onStack && c.altDisabled == e.altDisabled && c.altTop == e.altTop
         && e'.now == e.now.(mask := {}) && e'.trusted == e.trusted && e'.actions == e.actions
         && e'.interrupted == e.interrupted && e'.altDisabled && !e'.onStack && e'.altTop == e.altTop
  {
  }

  // ---------- the kernel stack ----------

  /** A task and its handlers from the `n`-th on enter the kernel on stack `top`. */
  ghost predicate OnKernelStack(e: Eager, n: nat, top: int) {
    && e.now.user.tssEsp == top && n <= |e.interrupted|
    && forall k :: n <= k < |e.interrupted| ==> e.interrupted[k].moment.user.tssEsp == top
  }

  lemma KernelStackStep(w: World, ev: Event, t: TaskId, n: nat, top: int)
    requires Possible(w, ev) && t in w.m && OnKernelStack(w.m[t], n, top)
    requires var w' := EagerStep(w, ev); t in w'.m && |w'.m[t].interrupted| >= n
    ensures OnKernelStack(EagerStep(w, ev).m[t], n, top)
  {
  }

  /** A task keeps its kernel stack as long as it does not return from a handler it inherited when it was forked. */
  lemma {:induction false} KernelStackKept(ws: seq<World>, evs: seq<Event>, t: TaskId, n: nat, top: int)
    requires EagerTrace(ws, evs) && Inside(ws, t, n) && OnKernelStack(ws[0].m[t], n, top)
    ensures OnKernelStack(ws[|evs|].m[t], n, top)
    decreases |evs|
  {
    if evs != [] {
      var k := |evs| - 1;
      assert ws[k + 1] == EagerStep(ws[k], evs[k]);
      KernelStackKept(ws[..k + 1], evs[..k], t, n, top);
      KernelStackStep(ws[k], evs[k], t, n, top);
    }
  }

  /** The first such return moves it onto the kernel stack of its parent. */
  lemma InheritedStack(ws: seq<World>, evs: seq<Event>, child: TaskId, n: nat)
    requires EagerTrace(ws, evs) && |evs| >= 2 && evs[0].ForkEv? && evs[0].child == child && evs[0].memory
    requires |ws[0].m[ws[0].current].interrupted| == n > 0 && Inside(ws[1..|evs|], child, n)
    requires var k := |evs| - 1; ws[k].current == child && evs[k].ExitEv? && |ws[k].m[child].interrupted| == n
    ensures OnKernelStack(ws[1].m[child], n, evs[0].top) && OnKernelStack(ws[|evs| - 1].m[child], n, evs[0].top)
    ensures child in ws[|evs|].m
    ensures ws[|evs|].m[child].now.user.tssEsp == ws[0].m[ws[0].current].interrupted[n - 1].moment.user.tssEsp
  {
    var k := |evs| - 1;
    var ws', evs' := ws[1..|evs|], evs[1..k];
    assert ws[1] == EagerStep(ws[0], evs[0]);
    TraceTail(ws, evs, k);
    Nested(ws', evs', child, n);
    KernelStackKept(ws', evs', child, n, evs[0].top);
    assert ws'[|evs'|] == ws[k] && ws'[0] == ws[1];
    assert ws[k + 1] == EagerStep(ws[k], evs[k]);
    var e, e' := ws[1].m[child], ws[k].m[child];
    assert e.interrupted[n - 1] == e.interrupted[..n][n - 1] && e'.interrupted[n - 1] == e'.interrupted[..n][n - 1];
  }

  // ---------- the abstraction ----------

  /** The registers a saved context stands for. */
  function Saved(ctx: Context): FpuState {
    if ctx.fpuUsed then ctx.fpu else INIT
  }

  /** What a stack of frames stands for. */
  function Interrupts(frames: seq<Frame>): seq<Interrupt> {
    seq(|frames|, i requires 0 <= i < |frames| =>
      Interrupt(Moment(Saved(frames[i].ctx), frames[i].ctx.user, frames[i].mask), frames[i].tookAlt))
  }

  /** The FPU registers task `t` would see. */
  function View(t: TaskId, task: Task, owner: Option<TaskId>, hw: FpuState): FpuState {
    if owner == Some(t) then hw else Saved(task.ctx)
  }

  function AbsTask(t: TaskId, task: Task, owner: Option<TaskId>, hw: FpuState): Eager {
    Eager(Moment(View(t, task, owner, hw), task.ctx.user, task.mask), task.onStack, task.ctx.trusted,
          task.altDisabled, task.altTop, task.actions, Interrupts(task.frames))
  }

  function AbsAll(tasks: map<TaskId, Task>, owner: Option<TaskId>, hw: FpuState): Machine {
    map t | t in tasks :: AbsTask(t, tasks[t], owner, hw)
  }

  /** The registers are enabled only for their owner, who has used them before. */
  ghost predicate Lazy(tasks: map<TaskId, Task>, current: TaskId, owner: Option<TaskId>, ts: bool) {
    && current in tasks
    && (owner.Some? ==> owner.value in tasks && tasks[owner.value].ctx.fpuUsed)
    && (!ts ==> owner == Some(current))
  }

  /** Taking the registers away from their owner: what they held is in its context now. */
  lemma Release(tasks: map<TaskId, Task>, o: TaskId, hw: FpuState, hw': FpuState)
    requires o in tasks && tasks[o].ctx.fpuUsed
    ensures AbsAll(tasks[o := tasks[o].(ctx := tasks[o].ctx.(fpu := hw))], None, hw') == AbsAll(tasks, Some(o), hw)
  {
  }

  /** Giving them to a task, loaded with what its context stands for. */
  lemma Acquire(tasks: map<TaskId, Task>, c: TaskId, hw: FpuState)
    requires c in tasks
    ensures AbsAll(tasks[c := tasks[c].(ctx := tasks[c].ctx.(fpuUsed := true))], Some(c), Saved(tasks[c].ctx))
         == AbsAll(tasks, None, hw)
  {
  }

  /** Changing one task, or the registers it owns, changes one task of the abstract machine. */
  lemma AbsChange(tasks: map<TaskId, Task>, owner: Option<TaskId>, hw: FpuState, t: TaskId, task: Task, hw': FpuState)
    requires t in tasks && (hw' == hw || owner == Some(t))
    ensures AbsAll(tasks[t := task], owner, hw') == AbsAll(tasks, owner, hw)[t := AbsTask(t, task, owner, hw')]
  {
  }

  /** Saving the registers a task owns is invisible. */
  lemma SaveAbs(t: TaskId, task: Task, owner: Option<TaskId>, hw: FpuState)
    ensures owner == Some(t) ==>
      AbsTask(t, task.(ctx := task.ctx.(fpu := hw)), owner, hw) == AbsTask(t, task, owner, hw)
  {
  }

  /** What scheduler_spawn makes of the tasks, when the forking task's registers are saved. */
  function Spawned(tasks: map<TaskId, Task>, t: TaskId, child: TaskId, top: int, memory: bool): map<TaskId, Task>
    requires t in tasks
  {
    var task := tasks[t];
    var tasks' := tasks[t := task.(mask := {}, altDisabled := true, onStack := false)];
    if !memory then tasks'
    else tasks'[child := task.(ctx := task.ctx.(user := task.ctx.user.(tssEsp := top),
                                                trusted := task.ctx.trusted.(kernEsp := top - SPAWN_FRAME)))]
  }

  lemma ForkAbs(tasks: map<TaskId, Task>, owner: Option<TaskId>, hw: FpuState, t: TaskId, child: TaskId, top: int,
                memory: bool)
    requires t in tasks && child !in tasks && owner != Some(child)
    requires Saved(tasks[t].ctx) == View(t, tasks[t], owner, hw)
    ensures t in AbsAll(tasks, owner, hw)
    ensures AbsAll(Spawned(tasks, t, child, top, memory), owner, hw)
         == EagerFork(AbsAll(tasks, owner, hw), t, child, top, memory)
  {
  }

  lemma Unforked(tasks: map<TaskId, Task>, owner: Option<TaskId>, hw: FpuState, t: TaskId, child: TaskId, top: int)
    requires t in tasks && child !in tasks
    ensures t in AbsAll(tasks, owner, hw)
    ensures AbsAll(Spawned(tasks, t, child, top, false), owner, hw)
         == EagerFork(AbsAll(tasks, owner, hw), t, child, top, false)
  {
  }

  /** What invoke_signal_handler makes of a task whose stack is too small. */
  function Failed(task: Task, sig: nat, pushed: nat): Task
    requires sig < |task.actions|
  {
    var act := task.actions[sig];
    var alt := act.onStack && !task.altDisabled && !task.onStack;
    var esp := (if alt then task.altTop else task.ctx.user.esp) - pushed;
    Task(task.ctx.(user := task.ctx.user.(esp := esp)), Blocking(task.mask, act, sig), task.altDisabled, task.altTop,
         task.onStack || alt, Consumed(task.actions, sig), task.frames)
  }

  /** What it makes of one whose stack has room. */
  function Entered(task: Task, sig: nat, pushed: nat): Task
    requires sig < |task.actions|
  {
    var act, f := task.actions[sig], Failed(task, sig, pushed);
    f.(ctx := f.ctx.(user := f.ctx.user.(eip := act.handler)),
       frames := task.frames + [Frame(task.ctx, task.mask, act.onStack && !task.altDisabled && !task.onStack)])
  }

  lemma FailAbs(m: Machine, t: TaskId, task: Task, owner: Option<TaskId>, hw: FpuState, sig: nat, pushed: nat)
    requires t in m && m[t] == AbsTask(t, task, owner, hw) && sig < |task.actions|
    ensures sig < |m[t].actions|
    ensures EagerFail(m, t, sig, pushed) == m[t := AbsTask(t, Failed(task, sig, pushed), owner, hw)]
  {
  }

  lemma EnterAbs(m: Machine, t: TaskId, task: Task, owner: Option<TaskId>, hw: FpuState, sig: nat, pushed: nat)
    requires t in m && m[t] == AbsTask(t, task, owner, hw) && Saved(task.ctx) == View(t, task, owner, hw)
    requires sig < |task.actions|
    ensures sig < |m[t].actions|
    ensures EagerEnter(m, t, sig, pushed) == m[t := AbsTask(t, Entered(task, sig, pushed), owner, hw)]
  {
    assert Interrupts(Entered(task, sig, pushed).frames)
        == Interrupts(task.frames) + [Interrupt(m[t].now, Takes(m[t], sig))];
  }

  /** The steps of invoke_signal_handler after the registers are saved. */
  method Deliver(task: Task, sig: nat, pushed: nat, fits: bool) returns (task': Task)
    requires sig < |task.actions|
    ensures task' == if fits then Entered(task, sig, pushed) else Failed(task, sig, pushed)
    ensures var act := task.actions[sig]; forall x :: x in task'.mask <==>
      x in task.mask || x in act.mask || (x == sig && !act.noDefer && !act.resetHand)
  {
    var act := task.actions[sig];
    var frame := Frame(task.ctx, task.mask, false);
    var mask, actions := task.mask, task.actions;
    if !(act.resetHand || act.noDefer) {
      mask := mask + {sig};
    }
    if act.resetHand {
      actions := actions[sig := act.(handler := SIG_DFL)];
    }
    mask := mask + act.mask;
    assert mask == Blocking(task.mask, act, sig);
    var esp, onStack := task.ctx.user.esp, task.onStack;
    if act.onStack && !task.altDisabled && !task.onStack {
      esp, onStack := task.altTop, true;
      frame := frame.(tookAlt := true);
    }
    var user, frames := task.ctx.user.(esp := esp - pushed), task.frames;
    if fits {
      user, frames := user.(eip := act.handler), frames + [frame];
    }
    task' := Task(task.ctx.(user := user), mask, task.altDisabled, task.altTop, onStack, actions, frames);
  }

  lemma AbsAt(tasks: map<TaskId, Task>, owner: Option<TaskId>, hw: FpuState, t: TaskId)
    requires t in tasks
    ensures t in AbsAll(tasks, owner, hw) && AbsAll(tasks, owner, hw)[t] == AbsTask(t, tasks[t], owner, hw)
  {
  }

  lemma AbsKeys(tasks: map<TaskId, Task>, owner: Option<TaskId>, hw: FpuState)
    ensures AbsAll(tasks, owner, hw).Keys == tasks.Keys
  {
  }

  lemma TraceMore(ws: seq<World>, evs: seq<Event>, k: nat, w: World)
    requires k < |evs| && EagerTrace(ws, evs[..k]) && Possible(ws[k], evs[k]) && w == EagerStep(ws[k], evs[k])
    ensures EagerTrace(ws + [w], evs[..k + 1])
  {
  }

  // ---------- the kernel ----------

  class Kernel {
    /** scheduler_current_task. */
    var current: TaskId
    /** i386_fpu_thread. */
    var owner: Option<TaskId>
    /** The task-switched flag of CR0: FPU instructions trap while it is set. */
    var ts: bool
    /** The FPU registers. */
    var hw: FpuState
    var tasks: map<TaskId, Task>

    ghost predicate Valid()
      reads this
    {
      Lazy(tasks, current, owner, ts)
    }

    ghost function Abs(): Machine
      reads this
    {
      AbsAll(tasks, owner, hw)
    }

    constructor (current: TaskId, task: Task, hw: FpuState)
      requires !task.ctx.fpuUsed && task.frames == []
      ensures Valid() && this.current == current && owner == None && tasks == map[current := task]
      ensures Abs() == map[current := AbsTask(current, task, None, hw)]
    {
      this.current, owner, ts, this.hw := current, None, true, hw;
      tasks := map[current := task];
    }

    /** i386_fpu_save into a task's context. */
    method Save(t: TaskId)
      requires t in tasks
      modifies this`tasks
      ensures tasks == old(tasks)[t := old(tasks[t]).(ctx := old(tasks[t].ctx).(fpu := hw))]
    {
      tasks := tasks[t := tasks[t].(ctx := tasks[t].ctx.(fpu := hw))];
    }

    /** i386_fpu_fork and i386_fpu_sigenter: the registers are saved if the current task owns them. */
    method SaveOwned()
      requires Valid()
      modifies this`tasks
      ensures Valid() && Abs() == old(Abs()) && tasks.Keys == old(tasks.Keys)
      ensures Saved(tasks[current].ctx) == View(current, tasks[current], owner, hw)
      ensures tasks[current] == old(tasks[current]).(ctx := old(tasks[current].ctx).(fpu := tasks[current].ctx.fpu))
      ensures owner != Some(current) ==> tasks == old(tasks)
    {
      hide AbsAll, AbsTask;
      AbsAt(tasks, owner, hw, current);
      if owner == Some(current) {
        SaveAbs(current, tasks[current], owner, hw);
        AbsChange(tasks, owner, hw, current, tasks[current].(ctx := tasks[current].ctx.(fpu := hw)), hw);
        Save(current);
      }
    }

    /** i386_fpu_handle_ill: give the registers to the current task. */
    method HandleIll()
      requires Valid()
      modifies this`ts, this`owner, this`hw, this`tasks
      ensures Valid() && !ts && owner == Some(current) && Abs() == old(Abs())
      ensures tasks[current].frames == old(tasks[current].frames)
    {
      hide AbsAll;
      ts := false;
      if owner == Some(current) {
        return;
      }
      if owner.Some? {
        Release(tasks, owner.value, hw, hw);
        Save(owner.value);
      }
      Acquire(tasks, current, hw);
      assert tasks[current].ctx.fpuUsed ==>
        tasks == tasks[current := tasks[current].(ctx := tasks[current].ctx.(fpuUsed := true))];
      owner := Some(current);
      if !tasks[current].ctx.fpuUsed {
        hw := INIT;
        tasks := tasks[current := tasks[current].(ctx := tasks[current].ctx.(fpuUsed := true))];
      } else {
        hw := tasks[current].ctx.fpu;
      }
    }

    /** An FPU instruction of the current task, after the trap if there is one. */
    method Use(f: FpuState -> FpuState)
      requires Valid()
      modifies this`ts, this`owner, this`hw, this`tasks
      ensures Valid() && Abs() == EagerUse(old(Abs()), current, f(old(Abs())[current].now.fpu))
    {
      if ts {
        HandleIll();
      }
      AbsChange(tasks, owner, hw, current, tasks[current], f(hw));
      assert tasks == tasks[current := tasks[current]];
      hw := f(hw);
    }

    /** scheduler_switch_task, with i386_fpu_on_cs; `kernEsp` is where the old task's kernel stack ends. */
    method Switch(t: TaskId, kernEsp: int)
      requires Valid() && t in tasks
      modifies this`current, this`ts, this`tasks
      ensures Valid() && current == t && Abs() == EagerSwitch(old(Abs()), old(current), t, kernEsp)
    {
      hide AbsAll;
      if t != current {
        var c := tasks[current].ctx;
        var task := tasks[current].(ctx := c.(trusted := c.trusted.(kernEsp := kernEsp)));
        AbsAt(tasks, owner, hw, current);
        AbsChange(tasks, owner, hw, current, task, hw);
        tasks := tasks[current := task];
        current := t;
        ts := true;
      }
    }

    /**
     scheduler_spawn, with signal_init_task, the context step of scheduler_do_spawn
     and i386_fpu_fork. Without memory for a kernel stack there is no child.
     */
    method Fork(child: TaskId, top: int, memory: bool)
      requires Valid() && child !in tasks
      modifies this`tasks
      ensures Valid() && Abs() == EagerFork(old(Abs()), current, child, top, memory)
    {
      hide AbsAll, AbsTask, EagerFork;
      var altDisabled, onStack, mask := tasks[current].altDisabled, tasks[current].onStack, tasks[current].mask;
      if !memory {
        Unforked(tasks, owner, hw, current, child, top);
        tasks := tasks[current := tasks[current].(mask := {}, altDisabled := true, onStack := false)];
        return;
      }
      SaveOwned();
      ForkAbs(tasks, owner, hw, current, child, top, true);
      tasks := tasks[current := tasks[current].(mask := {}, altDisabled := true, onStack := false)];
      var c := tasks[current].ctx;
      c := c.(trusted := c.trusted.(kernEsp := top));
      c := c.(user := c.user.(tssEsp := c.trusted.kernEsp));
      c := c.(trusted := c.trusted.(kernEsp := c.trusted.kernEsp - SPAWN_FRAME));
      var task := tasks[current].(ctx := c, altDisabled := altDisabled, onStack := onStack, mask := mask);
      tasks := tasks[child := task];
    }

    /** scheduler_free_task of a task that is not running, with i386_fpu_del_task. */
    method Reap(t: TaskId)
      requires Valid() && t in tasks && t != current
      modifies this`owner, this`tasks
      ensures Valid() && t !in tasks && Abs() == old(Abs()) - {t}
    {
      if owner == Some(t) {
        owner := None;
      }
      tasks := tasks - {t};
    }

    /**
     invoke_signal_handler of the current task, whose stack has room for all it
     pushes, or for `pushed` bytes of it; the caller ignores which.
     */
    method SigEnter(sig: nat, pushed: nat, fits: bool)
      requires Valid() && sig < |tasks[current].actions|
      modifies this`tasks
      ensures Valid() && old(current in Abs() && sig < |Abs()[current].actions|)
      ensures Abs() == if fits then EagerEnter(old(Abs()), current, sig, pushed)
                       else EagerFail(old(Abs()), current, sig, pushed)
      ensures var act := old(tasks[current].actions[sig]); forall x :: x in tasks[current].mask <==>
        x in old(tasks[current].mask) || x in act.mask || (x == sig && !act.noDefer && !act.resetHand)
      ensures |tasks[current].frames| == |old(tasks[current].frames)| + (if fits then 1 else 0)
      ensures fits ==> var frame := tasks[current].frames[|old(tasks[current].frames)|];
        && frame.ctx.fpuUsed == old(tasks[current].ctx.fpuUsed)
        && (owner != Some(current) ==> frame.ctx == old(tasks[current].ctx))
    {
      hide AbsAll, AbsTask, View, EagerEnter, EagerFail;
      SaveOwned();
      AbsAt(tasks, owner, hw, current);
      if fits {
        EnterAbs(Abs(), current, tasks[current], owner, hw, sig, pushed);
      } else {
        FailAbs(Abs(), current, tasks[current], owner, hw, sig, pushed);
      }
      var task' := Deliver(tasks[current], sig, pushed, fits);
      AbsChange(tasks, owner, hw, current, task', hw);
      tasks := tasks[current := task'];
    }

    /** exit_signal_handler with the innermost frame. */
    method SigExit()
      requires Valid() && tasks[current].frames != []
      modifies this`tasks, this`hw
      ensures Lazy(tasks, current, None, true)
      ensures old(Restores()) ==> Abs() == EagerExit(old(Abs()), current)
      ensures old(KeepsOwner()) ==> Valid()
      ensures Abs() == EagerExit(old(Abs()), current) ==> old(Restores())
    {
      hide AbsAll;
      var task := tasks[current];
      var n := |task.frames| - 1;
      var f := task.frames[n];
      assert Interrupts(task.frames[..n]) == Interrupts(task.frames)[..n];
      var onStack := task.onStack;
      if f.tookAlt {
        onStack := false;
      }
      var ctx := f.ctx.(trusted := task.ctx.trusted);
      var task' := Task(ctx, f.mask, task.altDisabled, task.altTop, onStack, task.actions, task.frames[..n]);
      AbsChange(tasks, owner, hw, current, task', if owner == Some(current) then ctx.fpu else hw);
      AbsAt(tasks, owner, hw, current);
      tasks := tasks[current := task'];
      if owner == Some(current) {
        hw := ctx.fpu;
      }
      AbsAt(tasks, owner, hw, current);
    }

    /**
     The innermost frame brings the FPU registers back: the handler's task had used them, or does
     not own them now.
     */
    ghost predicate Restores()
      requires current in tasks && tasks[current].frames != []
      reads this
    {
      var f := tasks[current].frames[|tasks[current].frames| - 1];
      f.ctx.fpuUsed || owner != Some(current) || f.ctx.fpu == INIT
    }

    ghost predicate KeepsOwner()
      requires current in tasks && tasks[current].frames != []
      reads this
    {
      tasks[current].frames[|tasks[current].frames| - 1].ctx.fpuUsed || owner != Some(current)
    }

    /** i386_user_enter: the user registers as they are on kernel entry. */
    method UserEnter(user: UserRegs, cs: int, ds: int, ss: int)
      requires Valid()
      modifies this`tasks
      ensures Valid() && Abs() == EagerRun(old(Abs()), current, user, cs, ds, ss)
      ensures var c, c' := old(tasks[current].ctx), tasks[current].ctx;
        && c'.user == user.(tssEsp := c.user.tssEsp) && c'.trusted == Trusted(c.trusted.kernEsp, cs, ds, ss)
        && c'.fpu == c.fpu && c'.fpuUsed == c.fpuUsed
    {
      hide AbsAll;
      var c := tasks[current].ctx;
      c := c.(user := user.(tssEsp := c.user.tssEsp), trusted := c.trusted.(cs := cs, ds := ds, ss := ss));
      var task' := tasks[current].(ctx := c);
      AbsChange(tasks, owner, hw, current, task', hw);
      AbsAt(tasks, owner, hw, current);
      tasks := tasks[current := task'];
    }

    /** A change of the current task that its FPU registers and context have no part in. */
    method Adjust(task: Task)
      requires Valid() && task.ctx == tasks[current].ctx && task.frames == tasks[current].frames
      modifies this`tasks
      ensures Valid() && current in old(Abs())
      ensures var e := old(Abs())[current]; Abs() == old(Abs())[current :=
        e.(now := e.now.(mask := task.mask), onStack := task.onStack, altDisabled := task.altDisabled,
           altTop := task.altTop, actions := task.actions)]
    {
      hide AbsAll;
      AbsAt(tasks, owner, hw, current);
      AbsChange(tasks, owner, hw, current, task, hw);
      tasks := tasks[current := task];
    }

    /** _sys_sigaction, with EINVAL for a signal that cannot be caught. */
    method SetAction(sig: nat, act: Action) returns (refused: bool)
      requires Valid()
      modifies this`tasks
      ensures Valid() && Possible(World(old(Abs()), current), ActionEv(sig, act))
      ensures World(Abs(), current) == EagerStep(World(old(Abs()), current), ActionEv(sig, act))
      ensures refused <==> old(sig >= |tasks[current].actions|) || Special(sig)
    {
      hide AbsAll;
      AbsAt(tasks, owner, hw, current);
      refused := sig >= |tasks[current].actions| || Special(sig);
      if !refused {
        Adjust(tasks[current].(actions := tasks[current].actions[sig := act]));
      }
    }

    /** _sys_sigprocmask. */
    method SetMask(how: How, signals: set<nat>)
      requires Valid()
      modifies this`tasks
      ensures Valid() && Possible(World(old(Abs()), current), MaskEv(how, signals))
      ensures World(Abs(), current) == EagerStep(World(old(Abs()), current), MaskEv(how, signals))
    {
      hide AbsAll;
      AbsAt(tasks, owner, hw, current);
      var mask := tasks[current].mask;
      match how {
        case Block => mask := mask + signals;
        case SetMask => mask := signals;
        case Unblock => mask := mask - signals;
      }
      mask := mask - {SIGKILL};
      mask := mask - {SIGSTOP};
      assert mask == Masked(tasks[current].mask, how, signals);
      Adjust(tasks[current].(mask := mask));
    }

    /** _sys_sigaltstack, with EPERM while the stack is in use. */
    method SetAltStack(top: int, disabled: bool) returns (refused: bool)
      requires Valid()
      modifies this`tasks
      ensures Valid() && Possible(World(old(Abs()), current), AltEv(top, disabled))
      ensures World(Abs(), current) == EagerStep(World(old(Abs()), current), AltEv(top, disabled))
      ensures refused <==> old(tasks[current].onStack)
    {
      hide AbsAll;
      AbsAt(tasks, owner, hw, current);
      refused := tasks[current].onStack;
      if !refused {
        Adjust(tasks[current].(altTop := top, altDisabled := disabled));
      }
    }

    /** The next event can happen here, and a handler that returns is one that brings its registers back. */
    predicate Legal(ev: Event)
      reads this
    {
      current in tasks &&
      match ev
      case SwitchEv(t, _) => t in tasks
      case ForkEv(child, _, _) => child !in tasks
      case ReapEv(t) => t in tasks && t != current
      case EnterEv(sig, _) => Handled(tasks[current].actions, sig)
      case FailEv(sig, _) => Handled(tasks[current].actions, sig)
      case ExitEv =>
        var fs := tasks[current].frames;
        fs != [] && (fs[|fs| - 1].ctx.fpuUsed || owner != Some(current))
      case _ => true
    }

    method Step(ev: Event)
      requires Valid() && Legal(ev)
      modifies this
      ensures Valid()
      ensures Possible(World(old(Abs()), old(current)), ev)
      ensures World(Abs(), current) == EagerStep(World(old(Abs()), old(current)), ev)
    {
      hide AbsAll;
      AbsAt(tasks, owner, hw, current);
      AbsKeys(tasks, owner, hw);
      match ev
      case UseEv(f) => Use(f);
      case RunEv(user, cs, ds, ss) => UserEnter(user, cs, ds, ss);
      case SwitchEv(t, k) => Switch(t, k);
      case ForkEv(child, top, memory) => Fork(child, top, memory);
      case ReapEv(t) => Reap(t);
      case EnterEv(sig, pushed) => SigEnter(sig, pushed, true);
      case FailEv(sig, pushed) => SigEnter(sig, pushed, false);
      case ExitEv => SigExit();
      case ActionEv(sig, act) => var refused := SetAction(sig, act);
      case MaskEv(how, signals) => SetMask(how, signals);
      case AltEv(top, disabled) => var refused := SetAltStack(top, disabled);
    }

    /** Any run of legal events is a run of the eager machine. */
    method Run(evs: seq<Event>) returns (done: nat, ghost ws: seq<World>)
      requires Valid()
      modifies this
      ensures Valid() && done <= |evs| && (done < |evs| ==> !Legal(evs[done]))
      ensures EagerTrace(ws, evs[..done])
      ensures ws[0] == World(old(Abs()), old(current)) && ws[done] == World(Abs(), current)
    {
      hide AbsAll, Lazy;
      done, ws := 0, [World(Abs(), current)];
      while done < |evs|
        invariant done <= |evs| && Valid()
        invariant EagerTrace(ws, evs[..done])
        invariant ws[0] == World(old(Abs()), old(current)) && ws[done] == World(Abs(), current)
      {
        if !Legal(evs[done]) {
          return;
        }
        Step(evs[done]);
        TraceMore(ws, evs, done, World(Abs(), current));
        ws := ws + [World(Abs(), current)];
        done := done + 1;
      }
    }
  }

  /**
   A task whose first use of the FPU is in a signal handler does not get fresh
   registers back when the handler returns, but whatever its unused context holds.
   */
  method FirstUseInHandler(task: Task, sig: nat, hw: FpuState) returns (k: Kernel, ghost before: Machine)
    requires !task.ctx.fpuUsed && task.frames == [] && task.ctx.fpu != INIT && Handled(task.actions, sig)
    ensures k.current in before && before[k.current].interrupted != []
    ensures before[k.current].interrupted[0].moment.fpu == INIT
    ensures k.Abs() != EagerExit(before, k.current)
  {
    hide AbsAll, AbsTask, EagerEnter, EagerExit;
    k := new Kernel(0, task, hw);
    EnteredOnce(task, hw, sig);
    k.SigEnter(sig, 0, true);
    before := k.Abs();
    k.HandleIll();
    assert !k.Restores();
    k.SigExit();
  }

  lemma EnteredOnce(task: Task, hw: FpuState, sig: nat)
    requires !task.ctx.fpuUsed && task.frames == [] && sig < |task.actions|
    ensures var m: Machine := map[0 := AbsTask(0, task, None, hw)];
      && sig < |m[0].actions|
      && var m' := EagerEnter(m, 0, sig, 0);
         0 in m' && |m'[0].interrupted| == 1 && m'[0].interrupted[0].moment.fpu == INIT
  {
  }
}
