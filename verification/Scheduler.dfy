/** The scheduler's code: `schedule`, `kill_and_yield`, `add_task`, `sleep`, `await_io`, `wake_io`, `wake_net`, and the
    loop of `Tty::read` between two blockings, each against the state machine of SchedSpec and Blocking. */
module Schedulers {
  import opened NextFit
  import opened TaskLists
  import opened SchedSpec
  import opened SchedRuns
  import opened Ringbuffers
  import opened Blocking

  class Task {
    var status: Status
    var tscSleep: nat
    var context: Registers
    /** What the task's event ring holds, oldest first (Ringbuffers.Ringbuffer with Size 5). */
    var events: seq<KeyEvent>

    constructor (context: Registers)
      ensures View() == Info(Status.Ready, 0, context, [])
    {
      status := Status.Ready;
      tscSleep := 0;
      this.context := context;
      events := [];
    }

    ghost function View(): Info
      reads this
    {
      Info(status, tscSleep, context, events)
    }

    /** The body of the loop of `wake_net`. */
    method Wake()
      modifies this`status
      ensures View() == Woken(old(View()))
    {
      if status == WaitingIo {
        status := Running;
      }
    }

    /** The body of the loop of `wake_io`. */
    method Deliver(key: KeyEvent)
      requires |events| <= EVENTS
      modifies this`events, this`status
      ensures View() == KeyedInfo(old(View()), key)
    {
      events := Push(events, key, EVENTS);
      Wake();
    }
  }

  /** The task at place i can run from time `deadline` on, or is the only one queued. */
  ghost predicate IsTarget(s: Sched<Task>, i: nat, deadline: nat)
  {
    && i < |s.ring.items| && s.ring.items[i] in s.info
    && var f := s.info[s.ring.items[i]];
       if f.status == WaitingIo then |s.ring.items| == 1 && deadline == 0
       else deadline == if f.status == Sleeping then f.deadline else 0
  }

  function TimeLeft(deadline: nat, now: nat): nat
  {
    if deadline > now then deadline - now else 0
  }

  /** A queued task that the search cannot pass over for ever, and the time from which it is eligible. */
  ghost function Target(s: Sched<Task>): (r: (nat, nat))
    requires forall t :: t in s.ring.items ==> t in s.info
    requires CanSchedule(s) && s.ring.items != []
    ensures IsTarget(s, r.0, r.1)
  {
    var i :| 0 <= i < |s.ring.items| && (|s.ring.items| == 1 || s.info[s.ring.items[i]].status != WaitingIo);
    (i, if s.info[s.ring.items[i]].status == Sleeping then s.info[s.ring.items[i]].deadline else 0)
  }

  /** The same statuses and deadlines. */
  ghost predicate SameFitness(s: Sched<Task>, v: Sched<Task>)
  {
    s.info.Keys == v.info.Keys
    && forall t :: t in s.info ==> v.info[t].status == s.info[t].status && v.info[t].deadline == s.info[t].deadline
  }

  /** Where the search stands after k calls of `next_task`. */
  ghost predicate Searching(s: Sched<Task>, lo: nat, current: Task, k: nat, idle: bool)
  {
    && RingOk(s.ring) && s.ring.items != [] && k > 0 && current in s.info
    && (forall t :: t in s.ring.items ==> t in s.info)
    && if idle then
         && current == s.idle && |s.ring.items| == 1 && !Eligible(s.info[s.ring.items[0]], lo)
         && (s.info[current].status == Ready || s.info[current].status == Running)
       else
         current == Current(AdvancedBy(s.ring, k)) && forall j :: 0 < j < k ==> Skipped(s, j, lo)
  }

  lemma SearchStarts(s: Sched<Task>, lo: nat)
    requires Schedulable(s) && s.ring.items != []
    ensures AdvancedBy(s.ring, 1) == Advanced(s.ring)
    ensures Searching(s, lo, Current(AdvancedBy(s.ring, 1)), 1, false)
  {
    CurrentInItems(s.ring, 1);
    assert AdvancedBy(s.ring, 0) == s.ring;
  }

  lemma SearchSkips(s: Sched<Task>, lo: nat, current: Task, k: nat)
    requires Schedulable(s) && Searching(s, lo, current, k, false) && !Eligible(s.info[current], lo)
    ensures AdvancedBy(s.ring, k + 1) == Advanced(AdvancedBy(s.ring, k))
    ensures var next := Current(AdvancedBy(s.ring, k + 1));
            if next == current then Searching(s, lo, s.idle, k + 1, true) else Searching(s, lo, next, k + 1, false)
  {
    CurrentInItems(s.ring, k + 1);
    var next := Current(AdvancedBy(s.ring, k + 1));
    if next != current {
      forall j | 0 < j < k + 1 ensures Skipped(s, j, lo) { assert j == k ==> Skipped(s, j, lo); }
    }
  }

  /** The loop of `schedule` does not end when two or more tasks are queued and all wait for input: after any number k
      of calls of `next_task` it stands at another task that cannot run, whatever the counter reads. */
  lemma {:induction false} SearchNeverEnds(s: Sched<Task>, lo: nat, k: nat, now: nat)
    requires Schedulable(s) && |s.ring.items| >= 2 && k > 0
    requires forall t :: t in s.ring.items ==> s.info[t].status == WaitingIo
    ensures var t := Current(AdvancedBy(s.ring, k)); Searching(s, lo, t, k, false) && !Eligible(s.info[t], now)
  {
    CurrentInItems(s.ring, k);
    if k == 1 {
      SearchStarts(s, lo);
    } else {
      SearchNeverEnds(s, lo, k - 1, now);
      var t := Current(AdvancedBy(s.ring, k - 1));
      CurrentInItems(s.ring, k - 1);
      SearchSkips(s, lo, t, k - 1);
    }
  }

  lemma SearchEnds(s: Sched<Task>, lo: nat, hi: nat, current: Task, k: nat, idle: bool)
    requires Searching(s, lo, current, k, idle) && lo <= hi
    requires !idle ==> Eligible(s.info[current], hi)
    ensures var p := if idle then Idle else After(k); MayPick(s, p, lo, hi) && current == Picked(s, p)
    ensures idle ==> AdvancedBy(s.ring, k) == s.ring
  {
    if idle { OneTaskRing(s.ring, k); }
  }

  lemma {:induction false} OneTaskRing(r: Ring<Task>, k: nat)
    requires RingOk(r) && |r.items| == 1
    ensures AdvancedBy(r, k) == r
  {
    if k > 0 { OneTaskRing(r, k - 1); }
  }

  /** A task that cannot run now could not at the start either, and is not the idle task; one step takes the search
      nearer to its target, or on to it. */
  lemma NotRunnable(s: Sched<Task>, lo: nat, now: nat, current: Task, k: nat, idle: bool, i: nat, deadline: nat)
    requires Searching(s, lo, current, k, idle) && lo <= now && !Eligible(s.info[current], now) && i < |s.ring.items|
    ensures !idle && !Eligible(s.info[current], lo) && AdvancedBy(s.ring, k + 1) == Advanced(AdvancedBy(s.ring, k))
    ensures var r, n := AdvancedBy(s.ring, k), AdvancedBy(s.ring, k + 1);
            if n.pos == i then Current(n) == s.ring.items[i] else Distance(n, i) == Distance(r, i) - 1
    ensures |s.ring.items| == 1 ==> Current(AdvancedBy(s.ring, k + 1)) == current
  {}

  lemma IdleKnown(s: Sched<Task>)
    requires Schedulable(s)
    ensures s.idle in s.info && s.current in s.info && RingOk(s.ring)
    ensures s.info[s.idle].status == Ready || s.info[s.idle].status == Running
  {}

  lemma SavedSameFitness(s: Sched<Task>, ctx: Registers)
    requires s.current in s.info
    ensures SameFitness(s, Saved(s, ctx))
  {}

  lemma EmptyQueuePick(s: Sched<Task>, now: nat, readings: seq<nat>)
    requires Schedulable(s) && s.ring.items == []
    ensures MayPick(s, Idle, now, now) && PickedReading(s, Idle, readings, readings, now, now)
  {
    assert readings == readings + [];
    assert PickedBy(s, Idle, []);
  }

  /** The search made the pick that the readings decide which it took, one after the other between times lo and hi,
      from the time stamp counter. */
  ghost predicate PickedReading(s: Sched<Task>, p: Pick, before: seq<nat>, after: seq<nat>, lo: nat, hi: nat)
  {
    before <= after && PickedBy(s, p, after[|before|..]) && Ascending(after[|before|..], lo, hi)
  }

  /** The search has come to the k-th task after the cursor, or to idle, with readings r, and is about to look at it. */
  ghost predicate ToLook(s: Sched<Task>, k: nat, idle: bool, r: seq<nat>, lo: nat, now: nat)
    requires s.ring.items != [] && RingOk(s.ring)
  {
    && Ascending(r, lo, now)
    && if idle then |s.ring.items| == 1 && Passed(s, 1, r)
       else 0 < k && Passed(s, k - 1, r) && (|s.ring.items| == 1 ==> k == 1)
  }

  /** It has looked. */
  ghost predicate LookedAt(s: Sched<Task>, k: nat, idle: bool, runnable: bool, r: seq<nat>, lo: nat, now: nat)
    requires s.ring.items != [] && RingOk(s.ring)
  {
    && Ascending(r, lo, now)
    && if idle then |s.ring.items| == 1 && Passed(s, 1, r)
       else if runnable then PickedBy(s, After(k), r)
       else 0 < k && Passed(s, k, r) && (|s.ring.items| == 1 ==> k == 1)
  }

  lemma Looks(s: Sched<Task>, k: nat, idle: bool, current: Task, r: seq<nat>, lo: nat, was: nat, now: nat, r': seq<nat>)
    requires s.ring.items != [] && RingOk(s.ring) && ToLook(s, k, idle, r, lo, was) && was <= now && current in s.info
    requires if idle then s.info[current].status != Sleeping else current == Current(AdvancedBy(s.ring, k))
    requires r' == if s.info[current].status == Sleeping then r + [now] else r
    ensures LookedAt(s, k, idle, Eligible(s.info[current], now), r', lo, now)
  {
    hide Ascending, AdvancedBy, Passed, PickedBy, Eligible;
    ReadingAdded(r, lo, was, now);
    if !idle { OneLook(s, k, current, r, now, r'); }
  }

  lemma OneLook(s: Sched<Task>, k: nat, current: Task, r: seq<nat>, now: nat, r': seq<nat>)
    requires s.ring.items != [] && RingOk(s.ring) && 0 < k && Passed(s, k - 1, r) && (|s.ring.items| == 1 ==> k == 1)
    requires current in s.info && current == Current(AdvancedBy(s.ring, k))
    requires r' == if s.info[current].status == Sleeping then r + [now] else r
    ensures if Eligible(s.info[current], now) then PickedBy(s, After(k), r') else Passed(s, k, r')
  {
    hide AdvancedBy;
    assert (r + [now])[..|r + [now]| - 1] == r;
  }

  lemma ReadingAdded(r: seq<nat>, lo: nat, was: nat, now: nat)
    requires Ascending(r, lo, was) && was <= now
    ensures Ascending(r, lo, now) && Ascending(r + [now], lo, now)
  {}

  lemma FirstLook(s: Sched<Task>, now: nat)
    requires s.ring.items != [] && RingOk(s.ring)
    ensures ToLook(s, 1, false, [], now, now)
  {}

  lemma LooksOn(s: Sched<Task>, k: nat, r: seq<nat>, lo: nat, now: nat, idle: bool)
    requires s.ring.items != [] && RingOk(s.ring) && LookedAt(s, k, false, false, r, lo, now)
    requires idle <==> |s.ring.items| == 1
    ensures ToLook(s, k + 1, idle, r, lo, now)
  {}

  lemma LooksDone(s: Sched<Task>, k: nat, idle: bool, r: seq<nat>, lo: nat, now: nat, before: seq<nat>, after: seq<nat>)
    requires s.ring.items != [] && RingOk(s.ring) && LookedAt(s, k, idle, true, r, lo, now) && after == before + r
    ensures PickedReading(s, if idle then Idle else After(k), before, after, lo, now)
  {
    assert after[|before|..] == r;
  }

  lemma ScheduledIs(s: Sched<Task>, ctx: Registers, p: Pick, lo: nat, hi: nat, n: Sched<Task>)
    requires s.current in s.info && s.idle in s.info && MayPick(s, p, lo, hi)
    requires n.current == Picked(s, p) && n.current in s.info && n.idle == s.idle
    requires n.ring == if p.After? then AdvancedBy(s.ring, p.k) else s.ring
    requires n.info == WithStatus(Saved(s, ctx), n.current, Running).info
    ensures n == ScheduledBy(s, ctx, p, lo, hi)
  {}

  /** The deadline that `sleep` sets. */
  function WakeTime(now: nat, ms: nat, cyclesPerMs: nat): nat
  {
    (now + cyclesPerMs * ms % 0x1_0000_0000_0000_0000) % 0x1_0000_0000_0000_0000
  }

  /** The deadline is the time asked for if and only if that fits 64 bits; else it is earlier, by a multiple of 2^64. */
  lemma WakeTimeExactly(now: nat, ms: nat, cyclesPerMs: nat)
    ensures WakeTime(now, ms, cyclesPerMs) == now + cyclesPerMs * ms <==>
            now + cyclesPerMs * ms < 0x1_0000_0000_0000_0000
    ensures WakeTime(now, ms, cyclesPerMs) <= now + cyclesPerMs * ms
    ensures WakeTime(now, ms, cyclesPerMs) < 0x1_0000_0000_0000_0000
    ensures (now + cyclesPerMs * ms - WakeTime(now, ms, cyclesPerMs)) % 0x1_0000_0000_0000_0000 == 0
  {
    WrappedTwice(now, cyclesPerMs * ms);
  }

  lemma WrappedTwice(a: nat, b: nat)
    ensures (a + b % 0x1_0000_0000_0000_0000) % 0x1_0000_0000_0000_0000 == (a + b) % 0x1_0000_0000_0000_0000
    ensures (a + b - (a + b) % 0x1_0000_0000_0000_0000) % 0x1_0000_0000_0000_0000 == 0
  {
    var q := b / 0x1_0000_0000_0000_0000;
    var c := a + b % 0x1_0000_0000_0000_0000;
    assert a + b == 0x1_0000_0000_0000_0000 * q + c;
    AddedLimits(c, q);
    var x := a + b;
    assert x - x % 0x1_0000_0000_0000_0000 == 0x1_0000_0000_0000_0000 * (x / 0x1_0000_0000_0000_0000);
  }

  lemma AddedLimits(c: nat, q: nat)
    ensures (0x1_0000_0000_0000_0000 * q + c) % 0x1_0000_0000_0000_0000 == c % 0x1_0000_0000_0000_0000
  {}

  /** At two million cycles a millisecond, a sleep of 9223372036855 of them ends after 448384 cycles. */
  lemma SleepTooLong()
    ensures WakeTime(5, 9223372036855, 2000000) == 5 + 448384
  {}

  lemma RemovedKnown(r: Ring<Task>)
    requires RingOk(r)
    ensures forall t :: t in Removed(r).items ==> t in r.items
  {}

  lemma ScheduledItems(s: Sched<Task>, ctx: Registers, p: Pick, lo: nat, hi: nat)
    requires s.current in s.info && s.idle in s.info && MayPick(s, p, lo, hi)
    ensures ScheduledBy(s, ctx, p, lo, hi).ring.items == s.ring.items
  {}

  /** A queued sleeper will be eligible in time. */
  lemma SleeperCanWake(s: Sched<Task>)
    requires Schedulable(s) && s.current in s.ring.items && s.info[s.current].status == Sleeping
    ensures CanSchedule(s)
  {}

  /** A search that began later than lo could have begun at lo. */
  lemma PickFromEarlier(s: Sched<Task>, p: Pick, lo: nat, mid: nat, hi: nat)
    requires MayPick(s, p, mid, hi) && lo <= mid
    ensures MayPick(s, p, lo, hi)
  {
    if p.After? {
      forall j: nat | 0 < j < p.k ensures Skipped(s, j, lo) { var m := Skipped(s, j, mid); }
    }
  }

  /** If the next stretch of a read blocks, `schedule` will find something to run. */
  ghost predicate CanBlock(s: Sched<Task>, want: nat, got: seq<char>)
    requires SchedOk(s)
  {
    var st := ReadStretch(s.info[s.current].events, want, got);
    !st.done ==> CanSchedule(WithStatus(WithEvents(s, s.current, st.rest), s.current, WaitingIo))
  }

  lemma KeyboardStepIs(s: Sched<Task>, key: KeyEvent, n: Sched<Task>)
    requires SchedOk(s) && n == s.(info := n.info) && n.info.Keys == s.info.Keys
    requires forall t :: t in s.info ==> n.info[t] == if t in s.ring.items then KeyedInfo(s.info[t], key) else s.info[t]
    ensures n == Stepped(s, Keyboard(key), 0, 0)
  {}

  lemma NetworkStepIs(s: Sched<Task>, n: Sched<Task>)
    requires SchedOk(s) && n == s.(info := n.info) && n.info.Keys == s.info.Keys
    requires forall t :: t in s.info ==> n.info[t] == if t in s.ring.items then Woken(s.info[t]) else s.info[t]
    ensures n == Stepped(s, Network, 0, 0)
  {}

  lemma ReaderIs(y: System<Task>, t: Task)
    requires SystemOk(y) && t == y.sched.current
    ensures SchedOk(y.sched) && t in y.sched.info
  {}

  /** A stretch of a read, and what follows it, is a move. */
  lemma ReadMoves(y: System<Task>, want: nat, got: seq<char>, ctx: Registers, pick: Pick, lo: nat, hi: nat,
                  st: Stretch, after: Sched<Task>, left: map<Task, Reader>)
    requires SystemOk(y) && y.sched.current in y.sched.ring.items && |got| <= want
    requires var t := y.sched.current; if t in y.readers then y.readers[t] == Reader(want, got) else got == []
    requires SchedOk(y.sched) && st == RunningStretch(y, want, got)
    requires SchedOk(WithEvents(y.sched, y.sched.current, st.rest))
    requires var t, s := y.sched.current, WithEvents(y.sched, y.sched.current, st.rest);
             if st.done then after == s && left == y.readers - {t}
             else Possible(s, Await(ctx, pick), lo, hi) && after == Stepped(s, Await(ctx, pick), lo, hi)
                  && left == y.readers[t := Reader(want, st.got)]
    ensures var act := if y.sched.current in y.readers then Resume(ctx, pick) else Read(want, ctx, pick);
            Moves(y, act, lo, hi, System(after, left))
  {
    hide SchedOk, Possible, Stepped, ReadStretch;
  }

  /** One turn of the loop of `Tty::read`. */
  lemma StretchGoesOn(events: seq<KeyEvent>, want: nat, got: seq<char>)
    ensures |got| == want ==> ReadStretch(events, want, got) == Stretch(events, got, true)
    ensures |got| != want && events == [] ==> ReadStretch(events, want, got) == Stretch([], got, false)
    ensures |got| != want && events != [] ==>
              ReadStretch(events, want, got) ==
              if !events[0].pressed then ReadStretch(events[1..], want, got)
              else if events[0].ascii == '\n' then Stretch(events[1..], got + [events[0].ascii], true)
              else ReadStretch(events[1..], want, got + [events[0].ascii])
  {}

  lemma NextInPrefix(nodes: seq<Node<Task>>, i: nat)
    requires i < |nodes| && Distinct(Tasks(nodes))
    ensures nodes[i].task !in Tasks(nodes)[..i] && nodes[i].task in Tasks(nodes)
    ensures forall t :: t in Tasks(nodes)[..i + 1] <==> t in Tasks(nodes)[..i] || t == nodes[i].task
  {
    assert Tasks(nodes)[..i + 1] == Tasks(nodes)[..i] + [nodes[i].task];
  }

  class Scheduler {
    const queue: TaskList<Task>
    const idleTask: Task
    var currentTask: Task
    /** The time stamp counter: read again, it always reads more. */
    var tsc: nat
    /** Every value of it that was read, in order. */
    ghost var readings: seq<nat>
    ghost var known: set<Task>

    ghost predicate Valid()
      reads this, queue, queue.nodes, known
    {
      && queue.Valid()
      && idleTask in known && currentTask in known
      && (forall t :: t in queue.View().items ==> t in known)
      && (forall t :: t in known ==> |t.events| <= EVENTS)
    }

    ghost function View(): Sched<Task>
      reads this, queue, queue.nodes, known
      requires Valid()
    {
      Sched(queue.View(), map t | t in known :: t.View(), currentTask, idleTask)
    }

    /** `Scheduler::init`. */
    constructor (context: Registers)
      ensures Valid() && SchedOk(View()) && View().ring.items == [] && fresh(known)
      ensures fresh(queue) && queue.nodes == []
    {
      var idle := new Task(context);
      var list := new TaskList<Task>();
      idleTask := idle;
      currentTask := idle;
      queue := list;
      tsc := 0;
      readings := [];
      known := {idle};
    }

    method Rdtsc() returns (now: nat)
      modifies this`tsc, this`readings
      ensures now == tsc > old(tsc) && readings == old(readings) + [now]
    {
      var more: nat :| true;
      tsc := tsc + more + 1;
      readings := readings + [tsc];
      now := tsc;
    }

    /** `schedule`: saves the interrupted task's registers, makes the first eligible task after the cursor current,
        and loads its registers. The search ends whenever it can end at all (see NoPickWhenAllWait). */
    method Schedule(context: Registers) returns (next: Registers, ghost pick: Pick)
      requires Valid() && Schedulable(View()) && CanSchedule(View())
      modifies this`currentTask, this`tsc, this`readings, queue`current, queue`pos, known
      ensures Valid() && tsc >= old(tsc) && unchanged(`known)
      ensures MayPick(old(View()), pick, old(tsc), tsc)
              && View() == ScheduledBy(old(View()), context, pick, old(tsc), tsc)
      ensures next == View().info[View().current].context
      ensures PickedReading(old(View()), pick, old(readings), readings, old(tsc), tsc)
    {
      hide Schedulable, Distinct, TaskList.Valid, TaskList.View, AdvancedBy, CanSchedule, MayPick, ScheduledBy, Saved;
      hide InfoIs, PickedReading;
      ghost var s := View();
      IdleKnown(s);
      var empty := SaveContext(context);
      ghost var v := Saved(s, context);
      SavedSameFitness(s, context);
      if !empty {
        pick := SearchQueue(s, v);
      } else {
        pick := Idle;
        EmptyQueuePick(s, tsc, readings);
        StartIdle(v);
      }
      next := currentTask.context;
      ghost var after := WithStatus(v, currentTask, Running).info;
      InfoIsView(after);
      ScheduledIs(s, context, pick, old(tsc), tsc, View());
    }

    lemma InfoIsView(info: map<Task, Info>)
      requires Valid() && InfoIs(info)
      ensures View().info == info && currentTask.context == info[currentTask].context
    {
      hide TaskList.Valid, TaskList.View;
    }

    /** The first branches of `schedule`: idle when nothing is queued; else the interrupted task's registers are
        saved, unless it was never started. */
    method SaveContext(context: Registers) returns (empty: bool)
      requires Valid() && Schedulable(View())
      modifies this`currentTask, known`context
      ensures Valid() && queue.View() == old(queue.View())
      ensures empty <==> queue.View().items == []
      ensures currentTask == if empty then idleTask else old(currentTask)
      ensures InfoIs(Saved(old(View()), context).info)
    {
      hide Schedulable, Distinct, TaskList.Valid, TaskList.View;
      empty := queue.IsEmpty();
      if empty {
        currentTask := idleTask;
      } else if currentTask.status != Ready {
        currentTask.context := context;
      }
    }

    /** The loop of `schedule` with the idle task current. */
    method StartIdle(ghost v: Sched<Task>)
      requires Valid() && InfoIs(v.info) && currentTask == idleTask
      requires currentTask.status == Ready || currentTask.status == Running
      modifies known`status
      ensures Valid() && InfoIs(WithStatus(v, currentTask, Running).info)
    {
      hide TaskList.Valid, TaskList.View;
      if currentTask.status == Ready {
        currentTask.status := Running;
      }
    }

    /** Every known task is as the map says. */
    ghost predicate InfoIs(info: map<Task, Info>)
      reads this, known
    {
      info.Keys == known && forall t :: t in known ==> t.View() == info[t]
    }

    /** The loop of `schedule` over a queue that is not empty. s is the state at entry, v the state with the registers
        saved. */
    method SearchQueue(ghost s: Sched<Task>, ghost v: Sched<Task>) returns (ghost pick: Pick)
      requires Valid() && Schedulable(s) && CanSchedule(s) && s.ring.items != []
      requires queue.View() == s.ring && s.idle == idleTask && s.info.Keys == known && InfoIs(v.info)
      requires SameFitness(s, v)
      modifies this`currentTask, this`tsc, this`readings, queue`current, queue`pos, known`status
      ensures Valid() && tsc >= old(tsc) && unchanged(`known)
      ensures MayPick(s, pick, old(tsc), tsc) && currentTask == Picked(s, pick)
      ensures queue.View() == if pick.After? then AdvancedBy(s.ring, pick.k) else s.ring
      ensures InfoIs(WithStatus(v, currentTask, Running).info)
      ensures PickedReading(s, pick, old(readings), readings, old(tsc), tsc)
    {
      hide Schedulable, Distinct, TaskList.Valid, TaskList.View, AdvancedBy, CanSchedule, MayPick, RingOk;
      hide PickedReading;
      ghost var k, idle := FindTask(s);
      currentTask.status := Running;
      pick := if idle then Idle else After(k);
    }

    /** The search itself. It changes only the cursor and the current task. */
    method FindTask(ghost s: Sched<Task>) returns (ghost k: nat, ghost idle: bool)
      requires Valid() && Schedulable(s) && CanSchedule(s) && s.ring.items != []
      requires queue.View() == s.ring && s.idle == idleTask && FitAs(s)
      modifies this`currentTask, this`tsc, this`readings, queue`current, queue`pos
      ensures Valid() && tsc >= old(tsc)
      ensures var p := if idle then Idle else After(k);
              && MayPick(s, p, old(tsc), tsc) && currentTask == Picked(s, p)
              && queue.View() == (if idle then s.ring else AdvancedBy(s.ring, k))
              && PickedReading(s, p, old(readings), readings, old(tsc), tsc)
    {
      hide Schedulable, Distinct, Searching, Linked, TaskList.Valid, TaskList.View, Tasks, AdvancedBy, Advanced;
      hide CanSchedule, MayPick, ToLook, LookedAt, PickedReading;
      ghost var lo, before, r := tsc, readings, [];
      ghost var (i, deadline) := Target(s);
      SearchStarts(s, lo);
      FirstLook(s, lo);
      currentTask := queue.NextTask();
      k, idle := 1, false;
      var runnable;
      runnable, r := Look(s, lo, k, idle, before, r);
      while !runnable
        invariant queue.Valid() && tsc >= lo && queue.View() == AdvancedBy(s.ring, k)
        invariant currentTask in known && FitAs(s) && Searching(s, lo, currentTask, k, idle)
        invariant runnable <==> Eligible(s.info[currentTask], tsc)
        invariant readings == before + r && LookedAt(s, k, idle, runnable, r, lo, tsc)
        decreases if runnable then 0 else 1, TimeLeft(deadline, tsc), Distance(queue.View(), i)
      {
        k, idle, runnable, r := PassOn(s, lo, k, idle, before, r, i, deadline);
      }
      SearchEnds(s, lo, tsc, currentTask, k, idle);
      LooksDone(s, k, idle, r, lo, tsc, before, readings);
    }

    /** One turn of the loop: the task that cannot run is passed over, and the next one looked at. */
    method PassOn(ghost s: Sched<Task>, ghost lo: nat, ghost k: nat, ghost idle: bool, ghost before: seq<nat>,
                  ghost r: seq<nat>, ghost i: nat, ghost deadline: nat)
      returns (ghost k': nat, ghost idle': bool, runnable: bool, ghost r': seq<nat>)
      requires queue.Valid() && Schedulable(s) && s.ring.items != [] && RingOk(s.ring) && s.idle == idleTask && FitAs(s)
      requires currentTask in known && IsTarget(s, i, deadline)
      requires queue.View() == AdvancedBy(s.ring, k) && lo <= tsc && Searching(s, lo, currentTask, k, idle)
      requires !Eligible(s.info[currentTask], tsc)
      requires readings == before + r && LookedAt(s, k, idle, false, r, lo, tsc)
      modifies this`currentTask, this`tsc, this`readings, queue`current, queue`pos
      ensures queue.Valid() && tsc >= old(tsc) && queue.View() == AdvancedBy(s.ring, k')
      ensures currentTask in known && FitAs(s) && Searching(s, lo, currentTask, k', idle')
      ensures runnable <==> Eligible(s.info[currentTask], tsc)
      ensures readings == before + r' && LookedAt(s, k', idle', runnable, r', lo, tsc)
      ensures !runnable ==>
                || TimeLeft(deadline, tsc) < old(TimeLeft(deadline, tsc))
                || (TimeLeft(deadline, tsc) == old(TimeLeft(deadline, tsc))
                    && Distance(queue.View(), i) < old(Distance(queue.View(), i)))
    {
      hide Schedulable, Distinct, Searching, Linked, TaskList.Valid, TaskList.View, Tasks, AdvancedBy, Advanced;
      hide CanSchedule, MayPick, ToLook, LookedAt;
      NotRunnable(s, lo, tsc, currentTask, k, idle, i, deadline);
      k', idle' := MoveOn(s, lo, k);
      LooksOn(s, k, r, lo, tsc, idle');
      runnable, r' := Look(s, lo, k', idle', before, r);
    }

    /** One turn of the `switch`; r are the readings of the search so far. */
    method Look(ghost s: Sched<Task>, ghost lo: nat, ghost k: nat, ghost idle: bool, ghost before: seq<nat>,
                ghost r: seq<nat>) returns (runnable: bool, ghost r': seq<nat>)
      requires s.ring.items != [] && RingOk(s.ring) && currentTask in known && FitAs(s)
      requires Searching(s, lo, currentTask, k, idle)
      requires readings == before + r && ToLook(s, k, idle, r, lo, tsc)
      modifies this`tsc, this`readings
      ensures runnable <==> Eligible(s.info[currentTask], tsc)
      ensures if s.info[currentTask].status == Sleeping then tsc > old(tsc) else tsc == old(tsc)
      ensures readings == before + r' && LookedAt(s, k, idle, runnable, r', lo, tsc)
    {
      hide ToLook, LookedAt, AdvancedBy;
      runnable := Runnable();
      r' := if s.info[currentTask].status == Sleeping then r + [tsc] else r;
      Looks(s, k, idle, currentTask, r, lo, old(tsc), tsc, r');
    }

    /** Status and deadline of every known task are those in s. */
    ghost predicate FitAs(s: Sched<Task>)
      reads this, known
    {
      s.info.Keys == known
      && forall t :: t in known ==> t.status == s.info[t].status && t.tscSleep == s.info[t].deadline
    }

    /** The cases of the `switch` in `schedule`: whether the current task can run. The counter is read for a sleeper. */
    method Runnable() returns (yes: bool)
      modifies this`tsc, this`readings
      ensures yes <==> Eligible(currentTask.View(), tsc)
      ensures if currentTask.status == Sleeping then tsc > old(tsc) && readings == old(readings) + [tsc]
              else tsc == old(tsc) && readings == old(readings)
    {
      match currentTask.status {
        case Running => yes := true;
        case Ready => yes := true;
        case Sleeping =>
          var now := Rdtsc();
          yes := now >= currentTask.tscSleep;
        case WaitingIo => yes := false;
      }
    }

    /** The two lines that pass over a task that cannot run: the next task, or idle when there is no other. */
    method MoveOn(ghost s: Sched<Task>, ghost lo: nat, ghost k: nat) returns (ghost k': nat, ghost idle: bool)
      requires queue.Valid() && s.ring.items != [] && Schedulable(s) && s.idle == idleTask && s.info.Keys == known
      requires queue.View() == AdvancedBy(s.ring, k) && Searching(s, lo, currentTask, k, false)
      requires !Eligible(s.info[currentTask], lo)
      modifies this`currentTask, queue`current, queue`pos
      ensures queue.Valid() && queue.View() == AdvancedBy(s.ring, k')
      ensures Searching(s, lo, currentTask, k', idle) && currentTask in known
      ensures k' == k + 1 && (idle || currentTask == Current(queue.View()))
      ensures Current(queue.View()) == old(currentTask) ==> idle
      ensures idle ==>
                |s.ring.items| == 1 && (s.info[currentTask].status == Ready || s.info[currentTask].status == Running)
    {
      SearchSkips(s, lo, currentTask, k);
      var other := queue.NextTask();
      k' := k + 1;
      idle := other == currentTask;
      if other != currentTask {
        currentTask := queue.GetCurrent();
      } else {
        currentTask := idleTask;
      }
    }

    // ---- Calls and interrupts

    /** `add_task`, of a task just created. */
    method AddTask(task: Task)
      requires Valid() && SchedOk(View()) && task !in known && task.View() == Info(Status.Ready, 0, task.context, [])
      modifies this`known, queue, queue.nodes
      ensures Valid() && View() == Stepped(old(View()), Event.AddTask(task, task.context), 0, 0)
      ensures known == old(known) + {task} && exists node :: fresh(node) && queue.nodes == [node] + old(queue.nodes)
    {
      hide SchedOk, TaskList.Valid, TaskList.View;
      queue.AddTask(task);
      known := known + {task};
      assert View().info == old(View().info)[task := task.View()];
    }

    /** `kill_and_yield`: unlinks the running task, whose node the cursor is on, and schedules. With nothing queued it
        does nothing. */
    method KillAndYield(context: Registers) returns (switched: bool, next: Registers, ghost pick: Pick)
      requires Valid() && SchedOk(View()) && (currentTask in queue.View().items || queue.View().items == [])
      requires queue.View().items != [] ==> CanSchedule(Unlinked(View()))
      modifies this`currentTask, this`tsc, this`readings, queue, queue.nodes, known
      ensures Valid() && unchanged(`known) && tsc >= old(tsc) && switched == (old(queue.View().items) != [])
      ensures !switched ==> View() == old(View())
      ensures switched ==> Possible(old(View()), Kill(context, pick), old(tsc), tsc)
                           && View() == Stepped(old(View()), Kill(context, pick), old(tsc), tsc)
                           && next == View().info[View().current].context
                           && old(currentTask) !in queue.View().items
      ensures forall n :: n in queue.nodes ==> n in old(queue.nodes)
    {
      hide SchedOk, Schedulable, CanSchedule, TaskList.Valid, TaskList.View, MayPick, Scheduled;
      pick, next := Idle, [];
      var empty := queue.IsEmpty();
      if empty {
        return false, next, pick;
      }
      ghost var s := View();
      BeforeSchedulable(s, Kill(context, pick));
      RemovedKnown(s.ring);
      queue.RemoveCurrent();
      assert View() == Unlinked(s);
      next, pick := Schedule(context);
      ScheduledItems(Unlinked(s), context, pick, old(tsc), tsc);
      switched := true;
    }

    /** `sleep`: with the counter read as `now`, the deadline is `now` and the cycles of `ms` milliseconds, in 64-bit
        arithmetic. */
    method Sleep(ms: nat, cyclesPerMs: nat, context: Registers)
        returns (next: Registers, ghost now: nat, ghost pick: Pick)
      requires Valid() && SchedOk(View()) && currentTask in queue.View().items
      modifies this`currentTask, this`tsc, this`readings, queue`current, queue`pos, known
      ensures Valid() && unchanged(`known) && old(tsc) < now <= tsc
      ensures var e := Event.Sleep(WakeTime(now, ms, cyclesPerMs), context, pick);
              && Possible(old(View()), e, old(tsc), tsc) && View() == Stepped(old(View()), e, old(tsc), tsc)
      ensures next == View().info[View().current].context
      ensures AsleepUntil(old(currentTask), now + cyclesPerMs * ms)
    {
      hide SchedOk, Schedulable, CanSchedule, TaskList.Valid, TaskList.View, MayPick, Scheduled, WakeTime;
      hide AsleepUntil;
      ghost var s := View();
      currentTask.status := Sleeping;
      var time := Rdtsc();
      now := time;
      currentTask.tscSleep := WakeTime(time, ms, cyclesPerMs);
      ghost var e := Event.Sleep(currentTask.tscSleep, context, Idle);
      BeforeSchedulable(s, e);
      assert View().info == Before(s, e).info;
      SleeperCanWake(View());
      next, pick := Schedule(context);
      PickFromEarlier(Before(s, e), pick, old(tsc), now, tsc);
      IsAsleep(s, now, ms, cyclesPerMs, context, pick, old(tsc));
    }

    lemma IsAsleep(s: Sched<Task>, now: nat, ms: nat, cyclesPerMs: nat, ctx: Registers, pick: Pick, lo: nat)
      requires Valid() && SchedOk(s)
      requires var e := Event.Sleep(WakeTime(now, ms, cyclesPerMs), ctx, pick);
               Possible(s, e, lo, tsc) && View() == Stepped(s, e, lo, tsc)
      ensures s.current in known && AsleepUntil(s.current, now + cyclesPerMs * ms)
    {
      hide TaskList.Valid, TaskList.View, WakeTime, Possible, Stepped, SchedOk;
      FallsAsleep(s, WakeTime(now, ms, cyclesPerMs), ctx, pick, lo, tsc);
      WakeTimeExactly(now, ms, cyclesPerMs);
      assert s.current.View() == View().info[s.current];
    }

    /** Task t has been put to sleep until `time`, in 64 bits: it can be run from then on and not before. */
    ghost predicate AsleepUntil(t: Task, time: nat)
      reads this, t
    {
      && (if time < 0x1_0000_0000_0000_0000 then t.tscSleep == time
          else t.tscSleep < 0x1_0000_0000_0000_0000 && (time - t.tscSleep) % 0x1_0000_0000_0000_0000 == 0)
      && if currentTask == t then t.tscSleep <= tsc
         else t.status == Sleeping && forall at :: Eligible(t.View(), at) <==> t.tscSleep <= at
    }

    /** `await_io`. It needs another queued task that is not waiting, or no other task at all. */
    method AwaitIo(context: Registers) returns (next: Registers, ghost pick: Pick)
      requires Valid() && SchedOk(View()) && currentTask in queue.View().items
      requires CanSchedule(WithStatus(View(), currentTask, WaitingIo))
      modifies this`currentTask, this`tsc, this`readings, queue`current, queue`pos, known
      ensures Valid() && unchanged(`known) && tsc >= old(tsc)
      ensures Possible(old(View()), Await(context, pick), old(tsc), tsc)
      ensures View() == Stepped(old(View()), Await(context, pick), old(tsc), tsc)
      ensures next == View().info[View().current].context
    {
      hide SchedOk, Schedulable, CanSchedule, TaskList.Valid, TaskList.View, MayPick, Scheduled;
      ghost var s := View();
      currentTask.status := WaitingIo;
      BeforeSchedulable(s, Await(context, Idle));
      assert View().info == Before(s, Await(context, Idle)).info;
      next, pick := Schedule(context);
    }

    /** `wake_io`: every queued task is given the key event, and woken if it waits. */
    method WakeIo(key: KeyEvent)
      requires Valid() && SchedOk(View())
      modifies known`events, known`status
      ensures Valid() && View() == Stepped(old(View()), Keyboard(key), 0, 0)
    {
      hide SchedOk, TaskList.Valid, TaskList.View, Tasks, Ringbuffers.Push, KeyedInfo, Woken, Stepped;
      ghost var nodes, i := queue.nodes, 0;
      QueueNodes();
      var current := queue.front;
      while current != null
        invariant i <= |nodes| && current == (if i < |nodes| then nodes[i] else null)
        invariant queue.Valid() && queue.View() == old(queue.View())
        invariant forall t :: t in known ==>
                    t.View() == if t in Tasks(nodes)[..i] then KeyedInfo(old(t.View()), key) else old(t.View())
        decreases |nodes| - i
      {
        var was := Linked(nodes, i);
        NextInPrefix(nodes, i);
        current.task.Deliver(key);
        current := current.next;
        i := i + 1;
      }
      assert Tasks(nodes)[..i] == Tasks(nodes);
      forall t | t in known ensures |t.events| <= EVENTS { assert |t.View().events| <= EVENTS; }
      KeyboardStepIs(old(View()), key, View());
    }

    /** `wake_net`: every queued task that waits is woken. */
    method WakeNet()
      requires Valid() && SchedOk(View())
      modifies known`status
      ensures Valid() && View() == Stepped(old(View()), Network, 0, 0)
    {
      hide SchedOk, TaskList.Valid, TaskList.View, Tasks, Woken, Stepped;
      ghost var nodes, i := queue.nodes, 0;
      QueueNodes();
      var current := queue.front;
      while current != null
        invariant i <= |nodes| && current == (if i < |nodes| then nodes[i] else null)
        invariant queue.Valid() && queue.View() == old(queue.View())
        invariant forall t :: t in known ==>
                    t.View() == if t in Tasks(nodes)[..i] then Woken(old(t.View())) else old(t.View())
        decreases |nodes| - i
      {
        var was := Linked(nodes, i);
        NextInPrefix(nodes, i);
        current.task.Wake();
        current := current.next;
        i := i + 1;
      }
      assert Tasks(nodes)[..i] == Tasks(nodes);
      NetworkStepIs(old(View()), View());
    }

    lemma QueueNodes()
      requires Valid() && SchedOk(View())
      ensures queue.front == (if queue.nodes == [] then null else queue.nodes[0])
      ensures forall i: nat :: i < |queue.nodes| ==> Linked(queue.nodes, i)
      ensures Tasks(queue.nodes) == View().ring.items && Distinct(Tasks(queue.nodes))
      ensures forall t :: t in Tasks(queue.nodes) ==> t in known
    {}

    // ---- Tty::read

    /** The loop of `Tty::read` from where it stands, `read` characters in, to its return or its next `await_io`. */
    method ReadStretchOf(buffer: array<char>, length: nat, from: nat) returns (read: nat, done: bool)
      requires Valid() && from <= length <= buffer.Length
      modifies buffer, currentTask`events
      ensures Valid() && read <= length
      ensures ReadStretch(old(currentTask.events), length, old(buffer[..from])) ==
                Stretch(currentTask.events, buffer[..read], done)
      ensures buffer[read..] == old(buffer[read..])
      ensures View() == WithEvents(old(View()), currentTask, currentTask.events)
    {
      hide TaskList.Valid, TaskList.View, ReadStretch;
      read := from;
      done := false;
      ghost var all := ReadStretch(currentTask.events, length, buffer[..from]);
      while !done
        invariant read <= length && Valid() && |currentTask.events| <= old(|currentTask.events|)
        invariant all == if done then Stretch(currentTask.events, buffer[..read], true)
                         else ReadStretch(currentTask.events, length, buffer[..read])
        invariant forall k :: read <= k < buffer.Length ==> buffer[k] == old(buffer[k])
        decreases if done then 0 else 1, |currentTask.events|
      {
        StretchGoesOn(currentTask.events, length, buffer[..read]);
        if read == length {
          done := true;
        } else if currentTask.events == [] {
          return;
        } else {
          var event := currentTask.events[0];
          currentTask.events := currentTask.events[1..];
          if event.pressed {
            buffer[read] := event.ascii;
            assert buffer[..read + 1] == buffer[..read] + [event.ascii];
            read := read + 1;
            done := event.ascii == '\n';
          }
        }
      }
    }

    /** `Tty::read` entered, or resumed where it was blocked with `from` characters: its next stretch and, when more
        must be waited for, the `await_io` it blocks in. It is a step of the interleaving that Blocking describes. */
    method ReadOn(buffer: array<char>, length: nat, from: nat, context: Registers, ghost readers: map<Task, Reader>)
      returns (read: nat, done: bool, next: Registers, ghost pick: Pick, ghost left: map<Task, Reader>)
      requires Valid() && SystemOk(System(View(), readers)) && currentTask in queue.View().items
      requires from <= length <= buffer.Length
      requires if currentTask in readers then readers[currentTask] == Reader(length, buffer[..from]) else from == 0
      requires CanBlock(View(), length, buffer[..from])
      modifies buffer, this`currentTask, this`tsc, this`readings, queue`current, queue`pos, known
      ensures Valid() && tsc >= old(tsc) && read <= length
      ensures var act := if old(currentTask) in readers then Resume(context, pick) else Read(length, context, pick);
              Moves(System(old(View()), readers), act, old(tsc), tsc, System(View(), left))
      ensures if done then old(currentTask) !in left
              else old(currentTask) in left && left[old(currentTask)] == Reader(length, buffer[..read])
      ensures done ==> read == length || (read > 0 && buffer[read - 1] == '\n')
      ensures buffer[read..] == old(buffer[read..])
    {
      hide SchedOk, Schedulable, CanSchedule, TaskList.Valid, TaskList.View, MayPick, ReadStretch, Moves, Possible;
      hide Stepped;
      ghost var y, t, got := System(View(), readers), currentTask, buffer[..from];
      ReaderIs(y, t);
      ghost var consumed := StretchReads(y.sched.info[t].events, length, got);
      StretchKeepsSched(y.sched, length, got);
      read, done := ReadStretchOf(buffer, length, from);
      ghost var st := Stretch(currentTask.events, buffer[..read], done);
      next, pick := [], Idle;
      left := if done then readers - {t} else readers[t := Reader(length, buffer[..read])];
      if !done { next, pick := AwaitIo(context); }
      ReadMoves(y, length, got, context, pick, old(tsc), tsc, st, View(), left);
    }
  }
}
