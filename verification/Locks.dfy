/** `Spinlock` on one processor, at the grain of its single instructions: tasks, system calls and interrupt handlers
    interleave between any two of them, as the interrupt flag allows. */
module Locks {

  /** Where an activation (a task's code, a system call or an interrupt handler) stands in lock code, by lines of
      lock.cpp. `before` is the interrupt flag that its `acquire` found, `stamp` numbers its execution of line 7. */
  datatype Pc =
    | Free
    | AtCli(l: nat, before: bool, stamp: nat)
    | AtTest(l: nat, before: bool, stamp: nat)
    | AtRestore(l: nat, before: bool, stamp: nat)

  datatype Hold = Hold(l: nat, before: bool, stamp: nat)

  /** An activation: where it stands, the locks it holds in the order it took them, and the interrupt flag that ending
      it brings back. */
  datatype Frame = Frame(pc: Pc, held: seq<Hold>, ret: bool)

  /** A task that is not running: its activations, and the interrupt flag among its saved registers. */
  datatype Suspended = Suspended(frames: seq<Frame>, flag: bool)

  /** A lock; `saves` counts how often line 7 has stored into it. */
  datatype Lock = Lock(locked: bool, restore: bool, saves: nat)

  datatype Cpu = Cpu(iflag: bool, stack: seq<Frame>, locks: map<nat, Lock>, running: nat, others: map<nat, Suspended>)

  datatype Act =
    | SaveFlag(l: nat)     // line 7
    | Cli                  // line 11
    | TestAndSet           // line 13
    | Unlock               // line 19
    | RestoreFlag          // lines 22 to 24
    | Toggle(v: bool)      // other code sets the flag
    | Irq                  // an interrupt request is taken
    | SoftInt              // a system call or a yield
    | Iret
    | Switch(t: nat)       // schedule, in a handler
    | Spawn(t: nat, v: bool)
    | Discard              // the lock taken last is destroyed with the object it is in, unreleased

  function Top(s: Cpu): Frame
    requires s.stack != []
  {
    s.stack[|s.stack| - 1]
  }

  predicate HoldsLock(f: Frame, l: nat)
  {
    exists i :: 0 <= i < |f.held| && f.held[i].l == l
  }

  /** An activation in no critical section. */
  predicate Outside(f: Frame)
  {
    f.pc.Free? && f.held == []
  }

  /** No activation among these is inside `acquire` of l. */
  predicate NotInside(frames: seq<Frame>, l: nat)
  {
    forall i :: 0 <= i < |frames| ==> !(frames[i].pc.AtCli? && frames[i].pc.l == l)
  }

  /** When an action can happen. The rules for code that uses locks are here: no activation takes a lock it holds,
      releases any but the lock it took last, or makes a system call, yields, ends, lets `schedule` switch or touches
      the flag while it holds one that still exists; and no lock is destroyed while another activation is about to
      take it. `~AddressSpace` takes the lock of the space and never releases it: the lock goes with the space. */
  predicate Possible(s: Cpu, a: Act)
  {
    s.stack != [] &&
    match a
    case SaveFlag(l) => Top(s).pc.Free? && l in s.locks && !HoldsLock(Top(s), l)
    case Cli => Top(s).pc.AtCli?
    case TestAndSet => Top(s).pc.AtTest? && Top(s).pc.l in s.locks
    case Unlock => Top(s).pc.Free? && Top(s).held != [] && Top(s).held[|Top(s).held| - 1].l in s.locks
    case RestoreFlag => Top(s).pc.AtRestore? && Top(s).pc.l in s.locks
    case Toggle(_) => Outside(Top(s))
    case Irq => s.iflag
    case SoftInt => Outside(Top(s))
    case Iret => |s.stack| >= 2 && Outside(Top(s))
    case Switch(t) => |s.stack| >= 2 && Outside(Top(s)) && t in s.others
    case Spawn(t, _) => t !in s.others && t != s.running
    case Discard =>
      Top(s).pc.Free? && Top(s).held != [] &&
      var l := Top(s).held[|Top(s).held| - 1].l;
      l in s.locks && NotInside(s.stack, l) && forall t :: t in s.others ==> NotInside(s.others[t].frames, l)
  }

  function WithTop(s: Cpu, f: Frame): Cpu
    requires s.stack != []
  {
    s.(stack := s.stack[..|s.stack| - 1] + [f])
  }

  function Step(s: Cpu, a: Act): Cpu
    requires Possible(s, a)
  {
    var top := Top(s);
    var n := |s.stack| - 1;
    match a
    case SaveFlag(l) =>
      var k := s.locks[l];
      WithTop(s, top.(pc := AtCli(l, s.iflag, k.saves + 1)))
      .(locks := s.locks[l := Lock(k.locked, s.iflag, k.saves + 1)])
    case Cli =>
      WithTop(s, top.(pc := AtTest(top.pc.l, top.pc.before, top.pc.stamp))).(iflag := false)
    case TestAndSet =>
      if s.locks[top.pc.l].locked then s
      else WithTop(s, top.(pc := Free, held := top.held + [Hold(top.pc.l, top.pc.before, top.pc.stamp)]))
             .(locks := s.locks[top.pc.l := s.locks[top.pc.l].(locked := true)])
    case Unlock =>
      var h := top.held[|top.held| - 1];
      WithTop(s, top.(pc := AtRestore(h.l, h.before, h.stamp), held := top.held[..|top.held| - 1]))
        .(locks := s.locks[h.l := s.locks[h.l].(locked := false)])
    case RestoreFlag =>
      WithTop(s, top.(pc := Free)).(iflag := s.iflag || s.locks[top.pc.l].restore)
    case Toggle(v) => s.(iflag := v)
    case Irq => s.(stack := s.stack + [Frame(Free, [], s.iflag)], iflag := false)
    case SoftInt => s.(stack := s.stack + [Frame(Free, [], s.iflag)], iflag := false)
    case Iret => s.(stack := s.stack[..n], iflag := top.ret)
    case Switch(t) =>
      s.(stack := s.others[t].frames + [top.(ret := s.others[t].flag)], running := t,
         others := (s.others - {t})[s.running := Suspended(s.stack[..n], top.ret)])
    case Spawn(t, v) => s.(others := s.others[t := Suspended([Frame(Free, [], true)], v)])
    case Discard =>
      var m := |top.held| - 1;
      WithTop(s, top.(held := top.held[..m])).(locks := s.locks - {top.held[m].l})
  }

  // ---- What every step keeps

  /** The flag saved for an acquire: never on when its own line 7 found it off; and what that line stored, unless
      line 7 has run for the same lock since. */
  ghost predicate Trace(locks: map<nat, Lock>, l: nat, before: bool, stamp: nat)
  {
    && l in locks && stamp <= locks[l].saves
    && (locks[l].restore ==> before)
    && (stamp == locks[l].saves ==> locks[l].restore == before)
  }

  /** An activation that something else runs on top of, or in place of: it holds nothing, and if it is inside
      `acquire` it is between lines 7 and 11, interrupted with the flag on, which `flag` will bring back. */
  ghost predicate Buried(f: Frame, flag: bool, locks: map<nat, Lock>)
  {
    && f.held == []
    && (f.pc.Free? || (f.pc.AtCli? && f.pc.before && flag && Trace(locks, f.pc.l, true, f.pc.stamp)))
  }

  ghost predicate AllBuried(frames: seq<Frame>, flag: bool, locks: map<nat, Lock>)
  {
    && frames != []
    && forall i :: 0 <= i < |frames| ==> BuriedAt(frames, i, flag, locks)
  }

  ghost predicate BuriedAt(frames: seq<Frame>, i: nat, flag: bool, locks: map<nat, Lock>)
    requires i < |frames|
  {
    Buried(frames[i], if i + 1 < |frames| then frames[i + 1].ret else flag, locks)
  }

  ghost predicate HoldOk(f: Frame, i: nat, locks: map<nat, Lock>)
    requires i < |f.held|
  {
    && Trace(locks, f.held[i].l, f.held[i].before, f.held[i].stamp) && locks[f.held[i].l].locked
    && (i > 0 ==> !f.held[i].before)
    && (forall j :: 0 <= j < i ==> f.held[j].l != f.held[i].l)
  }

  /** The activation that runs. */
  ghost predicate TopOk(f: Frame, iflag: bool, locks: map<nat, Lock>)
  {
    && (forall i :: 0 <= i < |f.held| ==> HoldOk(f, i, locks))
    && (f.held != [] || f.pc.AtTest? || f.pc.AtRestore? ==> !iflag)
    && (!f.pc.Free? ==> Trace(locks, f.pc.l, f.pc.before, f.pc.stamp) && !HoldsLock(f, f.pc.l)
                        && (f.held != [] ==> !f.pc.before))
    && (f.pc.AtCli? ==> f.pc.before == iflag)
  }

  /** Only the running activation holds locks, and with interrupts off. */
  ghost predicate CpuOk(s: Cpu)
  {
    && s.stack != [] && s.running !in s.others
    && TopOk(Top(s), s.iflag, s.locks)
    && (|s.stack| >= 2 ==> AllBuried(s.stack[..|s.stack| - 1], Top(s).ret, s.locks))
    && (forall t :: t in s.others ==> AllBuried(s.others[t].frames, s.others[t].flag, s.locks))
    && (forall l :: l in s.locks ==> (s.locks[l].locked <==> HoldsLock(Top(s), l)))
  }

  /** Whatever lock code does to a lock other than storing a saved flag leaves buried activations as they were; a new
      store only makes theirs out of date. */
  ghost predicate LocksMoveOn(was: map<nat, Lock>, now: map<nat, Lock>)
  {
    was.Keys == now.Keys && forall l :: l in was ==> MovesOn(was[l], now[l])
  }

  predicate MovesOn(was: Lock, now: Lock)
  {
    was.saves < now.saves || (was.saves == now.saves && was.restore == now.restore)
  }

  lemma StayBuried(frames: seq<Frame>, flag: bool, was: map<nat, Lock>, now: map<nat, Lock>)
    requires AllBuried(frames, flag, was) && LocksMoveOn(was, now)
    ensures AllBuried(frames, flag, now)
  {
    forall i: nat | i < |frames| ensures BuriedAt(frames, i, flag, now) {
      var before := BuriedAt(frames, i, flag, was);
      if frames[i].pc.AtCli? { var moved := MovesOn(was[frames[i].pc.l], now[frames[i].pc.l]); }
    }
  }

  /** A step of the running activation that leaves the rest of the stack alone. */
  lemma TopStep(s: Cpu, n: Cpu, f: Frame)
    requires CpuOk(s) && n.stack == WithTop(s, f).stack && f.ret == Top(s).ret
    requires n.running == s.running && n.others == s.others
    requires LocksMoveOn(s.locks, n.locks) && TopOk(f, n.iflag, n.locks)
    requires forall l :: l in n.locks ==> (n.locks[l].locked <==> HoldsLock(f, l))
    ensures CpuOk(n)
  {
    hide AllBuried, TopOk, HoldsLock, LocksMoveOn;
    assert Top(n) == f;
    assert n.stack[..|n.stack| - 1] == s.stack[..|s.stack| - 1];
    if |s.stack| >= 2 { StayBuried(s.stack[..|s.stack| - 1], Top(s).ret, s.locks, n.locks); }
    forall t | t in n.others ensures AllBuried(n.others[t].frames, n.others[t].flag, n.locks) {
      StayBuried(s.others[t].frames, s.others[t].flag, s.locks, n.locks);
    }
  }

  lemma SaveFlagKeeps(s: Cpu, l: nat)
    requires CpuOk(s) && Possible(s, SaveFlag(l))
    ensures CpuOk(Step(s, SaveFlag(l)))
  {
    var n := Step(s, SaveFlag(l));
    forall i: nat | i < |Top(n).held| ensures HoldOk(Top(n), i, n.locks) { var was := HoldOk(Top(s), i, s.locks); }
    forall k | k in n.locks ensures n.locks[k].locked <==> HoldsLock(Top(n), k) {}
    TopStep(s, n, Top(n));
  }

  lemma CliKeeps(s: Cpu)
    requires CpuOk(s) && Possible(s, Cli)
    ensures CpuOk(Step(s, Cli))
  {
    var n := Step(s, Cli);
    forall i: nat | i < |Top(n).held| ensures HoldOk(Top(n), i, n.locks) { var was := HoldOk(Top(s), i, s.locks); }
    forall k | k in n.locks ensures n.locks[k].locked <==> HoldsLock(Top(n), k) {}
    TopStep(s, n, Top(n));
  }

  lemma TestAndSetKeeps(s: Cpu)
    requires CpuOk(s) && Possible(s, TestAndSet)
    ensures CpuOk(Step(s, TestAndSet))
  {
    var n, top, l := Step(s, TestAndSet), Top(s), Top(s).pc.l;
    var m := |top.held|;
    assert Top(n).held[m].l == l;
    forall i: nat | i < m + 1 ensures HoldOk(Top(n), i, n.locks) {
      var was := i < m && HoldOk(top, i, s.locks);
      assert i < m ==> top.held[i].l != l;
    }
    forall k | k in n.locks ensures n.locks[k].locked <==> HoldsLock(Top(n), k) {
      if HoldsLock(top, k) { var i :| 0 <= i < m && top.held[i].l == k; assert Top(n).held[i].l == k; }
    }
    TopStep(s, n, Top(n));
  }

  lemma UnlockKeeps(s: Cpu)
    requires CpuOk(s) && Possible(s, Unlock)
    ensures CpuOk(Step(s, Unlock))
  {
    var n, top := Step(s, Unlock), Top(s);
    var m := |top.held| - 1;
    var h := top.held[m];
    var last := HoldOk(top, m, s.locks);
    forall i: nat | i < m ensures HoldOk(Top(n), i, n.locks) { var was := HoldOk(top, i, s.locks); }
    forall k | k in n.locks ensures n.locks[k].locked <==> HoldsLock(Top(n), k) {
      if HoldsLock(top, k) && k != h.l {
        var i :| 0 <= i < |top.held| && top.held[i].l == k;
        assert i < m && Top(n).held[i].l == k;
      }
    }
    TopStep(s, n, Top(n));
  }

  lemma RestoreFlagKeeps(s: Cpu)
    requires CpuOk(s) && Possible(s, RestoreFlag)
    ensures CpuOk(Step(s, RestoreFlag))
  {
    var n := Step(s, RestoreFlag);
    forall i: nat | i < |Top(n).held| ensures HoldOk(Top(n), i, n.locks) { var was := HoldOk(Top(s), i, s.locks); }
    forall k | k in n.locks ensures n.locks[k].locked <==> HoldsLock(Top(n), k) {}
    TopStep(s, n, Top(n));
  }

  lemma StayBuriedWithout(frames: seq<Frame>, flag: bool, was: map<nat, Lock>, l: nat)
    requires AllBuried(frames, flag, was) && NotInside(frames, l)
    ensures AllBuried(frames, flag, was - {l})
  {
    forall i: nat | i < |frames| ensures BuriedAt(frames, i, flag, was - {l}) {
      var before := BuriedAt(frames, i, flag, was);
    }
  }

  lemma DiscardTop(s: Cpu)
    requires CpuOk(s) && Possible(s, Discard)
    ensures var n := Step(s, Discard);
            && n.stack != [] && n.stack[..|n.stack| - 1] == s.stack[..|s.stack| - 1] && Top(n).ret == Top(s).ret
            && TopOk(Top(n), n.iflag, n.locks)
            && forall k :: k in n.locks ==> (n.locks[k].locked <==> HoldsLock(Top(n), k))
  {
    var n, top := Step(s, Discard), Top(s);
    var m := |top.held| - 1;
    var h := top.held[m];
    var last := HoldOk(top, m, s.locks);
    forall i: nat | i < m ensures HoldOk(Top(n), i, n.locks) { var was := HoldOk(top, i, s.locks); }
    forall k | k in n.locks ensures n.locks[k].locked <==> HoldsLock(Top(n), k) {
      if HoldsLock(top, k) {
        var i :| 0 <= i < |top.held| && top.held[i].l == k;
        assert i < m && Top(n).held[i].l == k;
      }
    }
  }

  lemma DiscardKeeps(s: Cpu)
    requires CpuOk(s) && Possible(s, Discard)
    ensures CpuOk(Step(s, Discard))
  {
    hide AllBuried, TopOk, HoldsLock, NotInside;
    var n, l := Step(s, Discard), Top(s).held[|Top(s).held| - 1].l;
    DiscardTop(s);
    if |s.stack| >= 2 {
      NotInsideBelow(s.stack, l);
      StayBuriedWithout(s.stack[..|s.stack| - 1], Top(s).ret, s.locks, l);
    }
    forall t | t in n.others ensures AllBuried(n.others[t].frames, n.others[t].flag, n.locks) {
      StayBuriedWithout(s.others[t].frames, s.others[t].flag, s.locks, l);
    }
  }

  lemma NotInsideBelow(frames: seq<Frame>, l: nat)
    requires frames != [] && NotInside(frames, l)
    ensures NotInside(frames[..|frames| - 1], l)
  {}

  /** An activation that can be interrupted or calls away is fit to be buried. */
  lemma CanBeBuried(s: Cpu)
    requires CpuOk(s) && (s.iflag || Outside(Top(s)))
    ensures AllBuried(s.stack, s.iflag, s.locks)
  {
    var m := |s.stack| - 1;
    forall i: nat | i < |s.stack| ensures BuriedAt(s.stack, i, s.iflag, s.locks) {
      if i < m { var was := BuriedAt(s.stack[..m], i, Top(s).ret, s.locks); }
    }
  }

  lemma PushKeeps(s: Cpu)
    requires CpuOk(s) && (s.iflag || Outside(Top(s)))
    ensures CpuOk(s.(stack := s.stack + [Frame(Free, [], s.iflag)], iflag := false))
    ensures forall l :: l in s.locks ==> !s.locks[l].locked
  {
    var n := s.(stack := s.stack + [Frame(Free, [], s.iflag)], iflag := false);
    CanBeBuried(s);
    assert n.stack[..|n.stack| - 1] == s.stack;
  }

  lemma IretKeeps(s: Cpu)
    requires CpuOk(s) && Possible(s, Iret)
    ensures CpuOk(Step(s, Iret))
  {
    var n := Step(s, Iret);
    var below := s.stack[..|s.stack| - 1];
    var k := |below| - 1;
    var top := BuriedAt(below, k, Top(s).ret, s.locks);
    if |n.stack| >= 2 {
      var rest := n.stack[..k];
      forall i: nat | i < |rest| ensures BuriedAt(rest, i, Top(n).ret, n.locks) {
        var was := BuriedAt(below, i, Top(s).ret, s.locks);
      }
    }
  }

  lemma SwitchKeeps(s: Cpu, t: nat)
    requires CpuOk(s) && Possible(s, Switch(t))
    ensures CpuOk(Step(s, Switch(t)))
  {
    var n := Step(s, Switch(t));
    assert n.stack[..|n.stack| - 1] == s.others[t].frames;
  }

  /** A lock that is held is held by the activation that runs, and interrupts are off: in every state that any
      interleaving of tasks, system calls, handlers and switches reaches. */
  lemma StepKeepsCpu(s: Cpu, a: Act)
    requires CpuOk(s) && Possible(s, a)
    ensures CpuOk(Step(s, a))
  {
    match a {
      case SaveFlag(l) => SaveFlagKeeps(s, l);
      case Cli => CliKeeps(s);
      case TestAndSet => TestAndSetKeeps(s);
      case Unlock => UnlockKeeps(s);
      case RestoreFlag => RestoreFlagKeeps(s);
      case Irq => PushKeeps(s);
      case SoftInt => PushKeeps(s);
      case Iret => IretKeeps(s);
      case Switch(t) => SwitchKeeps(s, t);
      case Discard => DiscardKeeps(s);
      case Toggle(v) =>
      case Spawn(t, v) =>
        var n := Step(s, a);
        assert BuriedAt(n.others[t].frames, 0, v, n.locks);
    }
  }

  // ---- What follows in every state

  predicate NoneLocked(s: Cpu)
  {
    forall l :: l in s.locks ==> !s.locks[l].locked
  }

  /** `acquire` never spins: the first test-and-set finds the lock free. */
  lemma NeverSpins(s: Cpu)
    requires CpuOk(s) && Possible(s, TestAndSet)
    ensures !s.locks[Top(s).pc.l].locked && Step(s, TestAndSet) != s
  {
    assert Top(Step(s, TestAndSet)).pc.Free?;
  }

  /** A held lock is held by the activation that runs, with interrupts off. */
  lemma HeldMeansOff(s: Cpu, l: nat)
    requires CpuOk(s) && l in s.locks && s.locks[l].locked
    ensures !s.iflag && HoldsLock(Top(s), l)
  {}

  /** No handler is entered or left, no system call or yield made, and no task switched, while any lock is held. */
  lemma NothingHeldAcross(s: Cpu, a: Act)
    requires CpuOk(s) && Possible(s, a) && (a.Irq? || a.SoftInt? || a.Iret? || a.Switch? || a.Toggle?)
    ensures NoneLocked(s)
  {
    forall l | l in s.locks ensures !s.locks[l].locked { var who := HoldsLock(Top(s), l); }
  }

  /** The running activation is between line 11 of an `acquire` of l and line 22 of its `release`. */
  predicate Busy(s: Cpu, l: nat)
    requires s.stack != []
  {
    var f := Top(s);
    HoldsLock(f, l) || (f.pc.AtTest? && f.pc.l == l) || (f.pc.AtRestore? && f.pc.l == l)
  }

  /** From line 11 on nothing else gets in: no other activation runs, and what was saved in the lock stays. */
  lemma CriticalSectionIsClosed(s: Cpu, a: Act, l: nat)
    requires CpuOk(s) && Possible(s, a) && l in s.locks && Busy(s, l)
    ensures !a.Irq? && !a.SoftInt? && !a.Iret? && !a.Switch? && a != SaveFlag(l)
    ensures l !in Step(s, a).locks ==> a.Discard? && Top(s).held[|Top(s).held| - 1].l == l
    ensures l in Step(s, a).locks ==>
              Step(s, a).locks[l].restore == s.locks[l].restore && Step(s, a).locks[l].saves == s.locks[l].saves
    ensures Step(s, a).stack != []
    ensures l in Step(s, a).locks && !(a.RestoreFlag? && Top(s).pc.l == l) ==> Busy(Step(s, a), l)
  {
    var n, f := Step(s, a), Top(s);
    if HoldsLock(f, l) {
      var i :| 0 <= i < |f.held| && f.held[i].l == l;
      if a.TestAndSet? { assert Top(n).held[i].l == l; }
      if (a.Unlock? || a.Discard?) && i < |f.held| - 1 { assert Top(n).held[i].l == l; }
    } else if a.TestAndSet? {
      assert Top(n).held[|f.held|].l == l;
    }
  }

  /** Line 22 brings back what is saved in the lock: never interrupts that were off at line 7, and exactly the flag of
      line 7 unless line 7 has run again for the lock since. */
  lemma ReleaseRestores(s: Cpu)
    requires CpuOk(s) && Possible(s, RestoreFlag)
    ensures var pc, n := Top(s).pc, Step(s, RestoreFlag);
            && n.iflag == s.locks[pc.l].restore && (n.iflag ==> pc.before)
            && (pc.stamp == s.locks[pc.l].saves ==> n.iflag == pc.before)
  {}

  // ---- Runs

  /** ss are the states that the actions lead through. */
  ghost predicate Chain(ss: seq<Cpu>, acts: seq<Act>)
  {
    |ss| == |acts| + 1 && forall n :: 0 <= n < |acts| ==> Leads(ss[n], acts[n], ss[n + 1])
  }

  ghost predicate IsRun(ss: seq<Cpu>, acts: seq<Act>)
  {
    Chain(ss, acts) && CpuOk(ss[0])
  }

  ghost predicate Leads(s: Cpu, a: Act, n: Cpu)
  {
    Possible(s, a) && n == Step(s, a)
  }

  lemma StepKeepsKeys(s: Cpu, a: Act)
    requires Possible(s, a)
    ensures Step(s, a).locks.Keys <= s.locks.Keys
  {}

  /** The action is the last one of a `release` of l. */
  predicate Releases(s: Cpu, a: Act, l: nat)
  {
    a == RestoreFlag && s.stack != [] && Top(s).pc.AtRestore? && Top(s).pc.l == l
  }

  lemma {:induction false} RunKeepsCpu(ss: seq<Cpu>, acts: seq<Act>, m: nat)
    requires IsRun(ss, acts) && m <= |acts|
    ensures CpuOk(ss[m])
  {
    hide CpuOk, Possible, Step;
    if m > 0 {
      RunKeepsCpu(ss, acts, m - 1);
      assert Leads(ss[m - 1], acts[m - 1], ss[m - 1 + 1]);
      StepKeepsCpu(ss[m - 1], acts[m - 1]);
    }
  }

  /** The last execution of line 7 for l among the first m actions, or -1. */
  function LastSave(acts: seq<Act>, l: nat, m: nat): (k: int)
    requires m <= |acts|
    ensures -1 <= k < m && (k >= 0 ==> acts[k] == SaveFlag(l))
    ensures forall j :: k < j < m ==> acts[j] != SaveFlag(l)
  {
    if m == 0 then -1 else if acts[m - 1] == SaveFlag(l) then m - 1 else LastSave(acts, l, m - 1)
  }

  lemma LastSaveAt(acts: seq<Act>, l: nat, m: nat)
    requires m <= |acts| && LastSave(acts, l, m) >= 0
    ensures m > 0 && LastSave(acts, l, m) == if acts[m - 1] == SaveFlag(l) then m - 1 else LastSave(acts, l, m - 1)
  {}

  /** Only line 7 writes the saved flag, and writes what it found. */
  lemma SavedFlag(s: Cpu, a: Act, l: nat)
    requires Possible(s, a) && l in Step(s, a).locks
    ensures l in s.locks
    ensures Step(s, a).locks[l].restore == if a == SaveFlag(l) then s.iflag else s.locks[l].restore
  {}

  lemma {:induction false} LastSaveIsKept(ss: seq<Cpu>, acts: seq<Act>, l: nat, m: nat)
    requires IsRun(ss, acts) && m <= |acts| && l in ss[m].locks && LastSave(acts, l, m) >= 0
    ensures ss[m].locks[l].restore == ss[LastSave(acts, l, m)].iflag
  {
    hide CpuOk, LastSave, Possible, Step;
    LastSaveAt(acts, l, m);
    assert Leads(ss[m - 1], acts[m - 1], ss[m - 1 + 1]);
    RunKeepsCpu(ss, acts, m - 1);
    SavedFlag(ss[m - 1], acts[m - 1], l);
    if acts[m - 1] != SaveFlag(l) {
      LastSaveIsKept(ss, acts, l, m - 1);
    }
  }

  /** Over every interleaving: a `release` of l leaves interrupts as the last execution of line 7 for l found them,
      whichever activation that was. So it brings back what its own `acquire` found if and only if that was off, or
      the last execution of line 7 found them on. */
  lemma RestoredExactly(ss: seq<Cpu>, acts: seq<Act>, l: nat, m: nat)
    requires IsRun(ss, acts) && m < |acts|
    requires Releases(ss[m], acts[m], l) && LastSave(acts, l, m) >= 0
    ensures ss[m + 1].iflag == ss[LastSave(acts, l, m)].iflag
    ensures ss[m + 1].iflag == Top(ss[m]).pc.before <==> (Top(ss[m]).pc.before ==> ss[LastSave(acts, l, m)].iflag)
  {
    hide CpuOk, Step;
    RunKeepsCpu(ss, acts, m);
    assert Leads(ss[m], acts[m], ss[m + 1]);
    LastSaveIsKept(ss, acts, l, m);
    ReleaseRestores(ss[m]);
  }

  lemma BusyHasStack(s: Cpu)
    requires CpuOk(s)
    ensures s.stack != []
  {}

  lemma NotReleasing(s: Cpu, a: Act, l: nat)
    requires Possible(s, a) && !Releases(s, a, l)
    ensures !(a.RestoreFlag? && Top(s).pc.l == l)
  {}

  lemma CliMakesBusy(s: Cpu, l: nat, n: Cpu, p: Cpu)
    requires Leads(s, SaveFlag(l), n) && Leads(n, Cli, p)
    ensures p.stack != [] && Busy(p, l)
  {}

  /** Between line 11 of an `acquire` and the end of its `release`, line 7 runs for no one else on that lock. */
  lemma {:induction false} StaysBusy(ss: seq<Cpu>, acts: seq<Act>, l: nat, i: nat, m: nat)
    requires IsRun(ss, acts) && i <= m <= |acts| && l in ss[m].locks && CpuOk(ss[i]) && ss[i].stack != []
             && Busy(ss[i], l)
    requires forall j :: i <= j < m ==> !Releases(ss[j], acts[j], l)
    ensures CpuOk(ss[m]) && ss[m].stack != [] && Busy(ss[m], l)
    ensures forall j :: i <= j < m ==> acts[j] != SaveFlag(l)
  {
    hide CpuOk, Step, Possible, Busy, Releases;
    if i < m {
      assert Leads(ss[m - 1], acts[m - 1], ss[m - 1 + 1]);
      StepKeepsKeys(ss[m - 1], acts[m - 1]);
      StaysBusy(ss, acts, l, i, m - 1);
      RunKeepsCpu(ss, acts, m - 1);
      RunKeepsCpu(ss, acts, m);
      BusyHasStack(ss[m - 1]);
      CriticalSectionIsClosed(ss[m - 1], acts[m - 1], l);
      NotReleasing(ss[m - 1], acts[m - 1], l);
    }
  }

  lemma ReleaseHasLock(s: Cpu, a: Act, n: Cpu, l: nat)
    requires Leads(s, a, n) && Releases(s, a, l)
    ensures l in s.locks
  {}

  /** Interrupts come back exactly as `acquire` found them when nothing lands between its lines 7 and 11. */
  lemma UninterruptedAcquireRestores(ss: seq<Cpu>, acts: seq<Act>, l: nat, i: nat, m: nat)
    requires IsRun(ss, acts) && i + 1 < m < |acts|
    requires acts[i] == SaveFlag(l) && acts[i + 1] == Cli
    requires Releases(ss[m], acts[m], l)
    requires forall j :: i + 2 <= j < m ==> !Releases(ss[j], acts[j], l)
    ensures ss[m + 1].iflag == ss[i].iflag
  {
    hide CpuOk, Step, Possible, Busy, Releases, Leads;
    assert Leads(ss[i], acts[i], ss[i + 1]);
    assert Leads(ss[i + 1], acts[i + 1], ss[i + 1 + 1]);
    CliMakesBusy(ss[i], l, ss[i + 1], ss[i + 2]);
    RunKeepsCpu(ss, acts, i + 2);
    assert Leads(ss[m], acts[m], ss[m + 1]);
    ReleaseHasLock(ss[m], acts[m], ss[m + 1], l);
    StaysBusy(ss, acts, l, i + 2, m);
    RestoredExactly(ss, acts, l, m);
  }

  // ---- Calls that nothing interrupts

  lemma SaveThenCli(s: Cpu, l: nat) returns (a: Cpu, b: Cpu)
    requires Possible(s, SaveFlag(l))
    ensures Leads(s, SaveFlag(l), a) && Leads(a, Cli, b)
    ensures b.stack != [] && Top(b) == Top(s).(pc := AtTest(l, s.iflag, s.locks[l].saves + 1)) && !b.iflag
    ensures b.locks == s.locks[l := Lock(s.locks[l].locked, s.iflag, s.locks[l].saves + 1)]
  {
    a := Step(s, SaveFlag(l));
    b := Step(a, Cli);
  }

  lemma TakesFree(s: Cpu)
    requires Possible(s, TestAndSet) && !s.locks[Top(s).pc.l].locked
    ensures var l, n := Top(s).pc.l, Step(s, TestAndSet);
            n.stack != [] && HoldsLock(Top(n), l) && n.iflag == s.iflag
            && n.locks == s.locks[l := s.locks[l].(locked := true)]
  {
    assert Top(Step(s, TestAndSet)).held[|Top(s).held|].l == Top(s).pc.l;
  }

  /** `acquire` from its first line to its last, run in one go: it takes the lock at the first try. */
  lemma AcquireInOneGo(s: Cpu, l: nat) returns (a: Cpu, b: Cpu, n: Cpu)
    requires CpuOk(s) && Possible(s, SaveFlag(l))
    ensures Leads(s, SaveFlag(l), a) && Leads(a, Cli, b) && Leads(b, TestAndSet, n)
    ensures !s.locks[l].locked && n.locks[l].locked && n.locks[l].restore == s.iflag && !n.iflag
    ensures n.stack != [] && HoldsLock(Top(n), l)
    ensures forall k :: k in s.locks && k != l ==> k in n.locks && n.locks[k] == s.locks[k]
  {
    hide CpuOk, Step;
    a, b := SaveThenCli(s, l);
    StepKeepsCpu(s, SaveFlag(l));
    StepKeepsCpu(a, Cli);
    NeverSpins(b);
    TakesFree(b);
    n := Step(b, TestAndSet);
  }

  lemma Unlocks(s: Cpu)
    requires CpuOk(s) && Possible(s, Unlock)
    ensures var h, n := Top(s).held[|Top(s).held| - 1], Step(s, Unlock);
            && n.stack != [] && Top(n).pc == AtRestore(h.l, h.before, h.stamp) && !n.iflag && !HoldsLock(Top(n), h.l)
            && n.locks == s.locks[h.l := s.locks[h.l].(locked := false)]
  {
    var last := HoldOk(Top(s), |Top(s).held| - 1, s.locks);
  }

  /** `release` of the lock taken last. */
  lemma ReleaseInOneGo(s: Cpu, l: nat) returns (a: Cpu, n: Cpu)
    requires CpuOk(s) && Possible(s, Unlock) && Top(s).held[|Top(s).held| - 1].l == l
    ensures Leads(s, Unlock, a) && Leads(a, RestoreFlag, n)
    ensures !n.locks[l].locked && n.iflag == s.locks[l].restore && n.stack != [] && !HoldsLock(Top(n), l)
    ensures forall k :: k in s.locks && k != l ==> k in n.locks && n.locks[k] == s.locks[k]
  {
    hide CpuOk;
    Unlocks(s);
    a := Step(s, Unlock);
    n := Step(a, RestoreFlag);
  }

  class Processor {
    var interrupts: bool

    constructor ()
      ensures !interrupts
    {
      interrupts := false;
    }
  }

  class Spinlock {
    var locked: bool
    var restoreInterrupts: bool

    constructor ()
      ensures !locked
    {
      locked := false;
      restoreInterrupts := false;
    }

    /** `acquire` as AcquireInOneGo describes it; the lock is free by NeverSpins, so one test-and-set is enough. */
    method Acquire(cpu: Processor)
      requires !locked
      modifies this, cpu
      ensures locked && restoreInterrupts == old(cpu.interrupts) && !cpu.interrupts
    {
      restoreInterrupts := cpu.interrupts;
      cpu.interrupts := false;
      var was := TestAndSet();
      assert !was;
    }

    method TestAndSet() returns (was: bool)
      modifies this`locked
      ensures was == old(locked) && locked
    {
      was := locked;
      locked := true;
    }

    /** `release` as ReleaseInOneGo describes it. */
    method Release(cpu: Processor)
      requires locked && !cpu.interrupts
      modifies this`locked, cpu
      ensures !locked && cpu.interrupts == restoreInterrupts
    {
      locked := false;
      if restoreInterrupts {
        cpu.interrupts := true;
      }
    }
  }

  // ---- The window between lines 7 and 11

  /** A processor with one lock and no other task, activation f running on top of base. */
  function One(base: seq<Frame>, f: Frame, iflag: bool, k: Lock): Cpu
  {
    Cpu(iflag, base + [f], map[0 := k], 0, map[])
  }

  lemma OneLock(k: Lock, k': Lock)
    ensures map[0 := k][0 := k'] == map[0 := k']
  {}

  lemma TestStep(base: seq<Frame>, ret: bool, before: bool, stamp: nat, k: Lock, s: Cpu, n: Cpu)
    requires s == One(base, Frame(AtTest(0, before, stamp), [], ret), false, k) && !k.locked
    requires n == One(base, Frame(Free, [Hold(0, before, stamp)], ret), false, k.(locked := true))
    ensures Leads(s, TestAndSet, n)
  {
    OneLock(k, k.(locked := true));
    assert [] + [Hold(0, before, stamp)] == [Hold(0, before, stamp)];
  }

  lemma UnlockStep(base: seq<Frame>, ret: bool, before: bool, stamp: nat, k: Lock, s: Cpu, n: Cpu)
    requires s == One(base, Frame(Free, [Hold(0, before, stamp)], ret), false, k.(locked := true)) && !k.locked
    requires n == One(base, Frame(AtRestore(0, before, stamp), [], ret), false, k)
    ensures Leads(s, Unlock, n)
  {
    OneLock(k.(locked := true), k);
    assert [Hold(0, before, stamp)][..0] == [];
  }

  /** The steps of `acquire` from line 11 and of the `release` that follows. */
  lemma SectionSteps(base: seq<Frame>, ret: bool, iflag: bool, before: bool, stamp: nat, k: Lock,
                     s1: Cpu, s2: Cpu, s3: Cpu, s4: Cpu, s5: Cpu)
    requires s1 == One(base, Frame(AtCli(0, before, stamp), [], ret), iflag, k) && !k.locked
    requires s2 == One(base, Frame(AtTest(0, before, stamp), [], ret), false, k)
    requires s3 == One(base, Frame(Free, [Hold(0, before, stamp)], ret), false, k.(locked := true))
    requires s4 == One(base, Frame(AtRestore(0, before, stamp), [], ret), false, k)
    requires s5 == One(base, Frame(Free, [], ret), k.restore, k)
    ensures Leads(s1, Cli, s2) && Leads(s2, TestAndSet, s3) && Leads(s3, Unlock, s4) && Leads(s4, RestoreFlag, s5)
  {
    TestStep(base, ret, before, stamp, k, s2, s3);
    UnlockStep(base, ret, before, stamp, k, s3, s4);
  }

  lemma IrqSteps(base: seq<Frame>, f: Frame, k: Lock, k': Lock)
    ensures Leads(One(base, f, true, k), Irq, One(base + [f], Frame(Free, [], true), false, k))
    ensures Leads(One(base + [f], Frame(Free, [], true), false, k'), Iret, One(base, f, true, k'))
  {}

  lemma SaveStep(base: seq<Frame>, ret: bool, iflag: bool, k: Lock, s: Cpu, n: Cpu)
    requires s == One(base, Frame(Free, [], ret), iflag, k)
    requires n == One(base, Frame(AtCli(0, iflag, k.saves + 1), [], ret), iflag, Lock(k.locked, iflag, k.saves + 1))
    ensures Leads(s, SaveFlag(0), n)
  {}

  lemma StartOk(s: Cpu, k: Lock)
    requires s == One([], Frame(Free, [], true), true, k) && !k.locked
    ensures CpuOk(s) && s.iflag
  {}

  lemma LastOk(s: Cpu, k: Lock)
    requires s == One([], Frame(AtRestore(0, true, 1), [], true), false, k)
    ensures Releases(s, RestoreFlag, 0) && Top(s).pc.before
    ensures !One([], Frame(Free, [], true), false, k).iflag
  {}

  lemma Joined(ss: seq<Cpu>, acts: seq<Act>, ss': seq<Cpu>, acts': seq<Act>)
    requires Chain(ss, acts) && Chain(ss', acts') && ss[|acts|] == ss'[0]
    ensures Chain(ss[..|acts|] + ss', acts + acts')
  {
    hide Leads;
    var tt, bb, m := ss[..|acts|] + ss', acts + acts', |acts|;
    forall n | 0 <= n < |bb| ensures Leads(tt[n], bb[n], tt[n + 1]) {
      if n < m {
        assert tt[n] == ss[n] && tt[n + 1] == ss[n + 1] && bb[n] == acts[n];
      } else {
        assert Leads(ss'[n - m], acts'[n - m], ss'[n - m + 1]);
      }
    }
  }

  /** The steps of SectionSteps, from its first state to its last. */
  lemma Section(base: seq<Frame>, ret: bool, iflag: bool, before: bool, stamp: nat, k: Lock)
      returns (ss: seq<Cpu>, acts: seq<Act>)
    requires !k.locked
    ensures Chain(ss, acts) && acts == [Cli, TestAndSet, Unlock, RestoreFlag]
    ensures ss[0] == One(base, Frame(AtCli(0, before, stamp), [], ret), iflag, k)
    ensures ss[3] == One(base, Frame(AtRestore(0, before, stamp), [], ret), false, k)
    ensures ss[4] == One(base, Frame(Free, [], ret), k.restore, k)
  {
    hide Leads, One;
    var s1 := One(base, Frame(AtCli(0, before, stamp), [], ret), iflag, k);
    var s2 := One(base, Frame(AtTest(0, before, stamp), [], ret), false, k);
    var s3 := One(base, Frame(Free, [Hold(0, before, stamp)], ret), false, k.(locked := true));
    var s4 := One(base, Frame(AtRestore(0, before, stamp), [], ret), false, k);
    var s5 := One(base, Frame(Free, [], ret), k.restore, k);
    SectionSteps(base, ret, iflag, before, stamp, k, s1, s2, s3, s4, s5);
    ss, acts := [s1, s2, s3, s4, s5], [Cli, TestAndSet, Unlock, RestoreFlag];
  }

  /** The task's line 7, then the handler on top of it up to its own line 7. */
  lemma Interrupted(task: Frame, k0: Lock, k1: Lock, k2: Lock) returns (ss: seq<Cpu>, acts: seq<Act>)
    requires task == Frame(AtCli(0, true, 1), [], true)
    requires k0 == Lock(false, false, 0) && k1 == Lock(false, true, 1) && k2 == Lock(false, false, 2)
    ensures Chain(ss, acts) && acts == [SaveFlag(0), Irq, SaveFlag(0)]
    ensures ss[0] == One([], Frame(Free, [], true), true, k0)
    ensures ss[3] == One([task], Frame(AtCli(0, false, 2), [], true), false, k2)
  {
    hide Leads, One;
    var s0, s1 := One([], Frame(Free, [], true), true, k0), One([], task, true, k1);
    var s2 := One([task], Frame(Free, [], true), false, k1);
    var s3 := One([task], Frame(AtCli(0, false, 2), [], true), false, k2);
    SaveStep([], true, true, k0, s0, s1);
    IrqSteps([], task, k1, k2);
    assert [] + [task] == [task];
    SaveStep([task], true, false, k1, s2, s3);
    ss, acts := [s0, s1, s2, s3], [SaveFlag(0), Irq, SaveFlag(0)];
  }

  /** One lock, one task, one handler that uses the lock too, taken between lines 7 and 11 of the task's `acquire`:
      the task's `release` leaves interrupts off, though its `acquire` found them on. */
  lemma InterruptsLost() returns (ss: seq<Cpu>, acts: seq<Act>)
    ensures IsRun(ss, acts) && |acts| == 12 && acts[0] == SaveFlag(0) && acts[1] == Irq
    ensures Releases(ss[11], acts[11], 0) && Top(ss[11]).pc.before == ss[0].iflag == true && ss[12].iflag == false
  {
    hide Leads, One;
    var k0, k1, k2 := Lock(false, false, 0), Lock(false, true, 1), Lock(false, false, 2);
    var task := Frame(AtCli(0, true, 1), [], true);
    var s1, a1 := Interrupted(task, k0, k1, k2);
    var s2, a2 := Section([task], true, false, false, 2, k2);
    Joined(s1, a1, s2, a2);
    ss, acts := s1[..3] + s2, a1 + a2;
    IrqSteps([], task, k1, k2);
    assert [] + [task] == [task];
    var s3 := [One([task], Frame(Free, [], true), false, k2), One([], task, true, k2)];
    Joined(ss, acts, s3, [Iret]);
    ss, acts := ss[..7] + s3, acts + [Iret];
    var s4, a4 := Section([], true, true, true, 1, k2);
    Joined(ss, acts, s4, a4);
    ss, acts := ss[..8] + s4, acts + a4;
    StartOk(ss[0], k0);
    LastOk(ss[11], k2);
  }
}
