/** The scheduler as a state machine on values: what each call and interrupt does to the queue and the tasks, and what
    holds in every state they can lead to. */
module SchedSpec {
  import opened TaskLists
  import Ringbuffers

  datatype Status = Ready | Running | Sleeping | WaitingIo

  /** The register image that an interrupt pushes. */
  type Registers = seq<nat>

  datatype KeyEvent = KeyEvent(code: nat, ascii: char, pressed: bool)

  /** Items a task's event ring keeps: its `Ringbuffer<KeyboardEvent, 5>` holds four. */
  const EVENTS: nat := 4

  datatype Info = Info(status: Status, deadline: nat, context: Registers, events: seq<KeyEvent>)

  /** The queue, what is known of each task, the task whose code runs, the idle task. */
  datatype Sched<T> = Sched(ring: Ring<T>, info: map<T, Info>, current: T, idle: T)

  ghost predicate SchedOk<T>(s: Sched<T>)
  {
    && RingOk(s.ring) && Distinct(s.ring.items)
    && s.idle in s.info && s.idle !in s.ring.items && s.current in s.info
    && (forall t :: t in s.ring.items ==> t in s.info)
    && (forall t :: t in s.info ==> |s.info[t].events| <= EVENTS)
    && (s.info[s.idle].status == Ready || s.info[s.idle].status == Running)
    // while a queued task is current the cursor is on its node, and it has been started
    && (s.current in s.ring.items ==> s.current == Current(s.ring) && s.info[s.current].status != Ready)
  }

  /** Fit to run at time `now`. */
  predicate Eligible(i: Info, now: nat)
  {
    i.status == Ready || i.status == Running || (i.status == Sleeping && i.deadline <= now)
  }

  function WithStatus<T>(s: Sched<T>, t: T, st: Status): Sched<T>
    requires t in s.info
  {
    s.(info := s.info[t := s.info[t].(status := st)])
  }

  /** The first part of `schedule`: the registers of the interrupted task are saved, unless nothing is queued or the
      task was never started. */
  function Saved<T>(s: Sched<T>, ctx: Registers): Sched<T>
    requires s.current in s.info
  {
    if s.ring.items == [] || s.info[s.current].status == Ready then s
    else s.(info := s.info[s.current := s.info[s.current].(context := ctx)])
  }

  /** What the search of `schedule` ends at: the task k places after the cursor, or the idle task. */
  datatype Pick = After(k: nat) | Idle

  function Picked<T>(s: Sched<T>, p: Pick): T
    requires p.After? ==> s.ring.items != [] && RingOk(s.ring)
  {
    match p
    case After(k) => Current(AdvancedBy(s.ring, k))
    case Idle => s.idle
  }

  /** Which picks the search can make when the time stamp counter reads `lo` at its start and `hi` at its end: the
      first task after the cursor, in cyclic order, that is eligible; idle when nothing is queued, or when the one
      task queued is not eligible. */
  ghost predicate MayPick<T>(s: Sched<T>, p: Pick, lo: nat, hi: nat)
  {
    && lo <= hi && RingOk(s.ring)
    && (forall t :: t in s.ring.items ==> t in s.info)
    && match p
       case After(k) =>
         && 0 < k && s.ring.items != []
         && Eligible(s.info[Current(AdvancedBy(s.ring, k))], hi)
         && (forall j :: 0 < j < k ==> Skipped(s, j, lo))
       case Idle =>
         s.ring.items == [] || (|s.ring.items| == 1 && !Eligible(s.info[s.ring.items[0]], lo))
  }

  ghost predicate Skipped<T>(s: Sched<T>, j: nat, lo: nat)
    requires s.ring.items != [] && RingOk(s.ring)
  {
    Current(AdvancedBy(s.ring, j)) in s.info && !Eligible(s.info[Current(AdvancedBy(s.ring, j))], lo)
  }

  /** The state after `schedule` interrupted the current task with registers `ctx` and made pick p. */
  function Scheduled<T>(s: Sched<T>, ctx: Registers, p: Pick): Sched<T>
    requires s.current in s.info && s.idle in s.info && RingOk(s.ring)
    requires p.After? ==> s.ring.items != [] && Picked(s, p) in s.info
  {
    var v := Saved(s, ctx);
    var t := Picked(s, p);
    var ring := if p.After? then AdvancedBy(s.ring, p.k) else s.ring;
    WithStatus(v, t, Running).(ring := ring, current := t)
  }

  /** The search ends, whatever the sleepers' deadlines, exactly when it can: nothing or one task queued, or some
      queued task not waiting for input. */
  ghost predicate CanSchedule<T>(s: Sched<T>)
    requires forall t :: t in s.ring.items ==> t in s.info
  {
    |s.ring.items| <= 1 || exists t :: t in s.ring.items && s.info[t].status != WaitingIo
  }

  // ---- The search

  lemma CurrentInItems<T>(r: Ring<T>, k: nat)
    requires r.items != [] && RingOk(r)
    ensures Current(AdvancedBy(r, k)) in r.items
  {}

  /** With the counter standing still the pick is determined: two searches from the same state agree. */
  lemma PickUnique<T>(s: Sched<T>, p: Pick, q: Pick, now: nat)
    requires MayPick(s, p, now, now) && MayPick(s, q, now, now) && Distinct(s.ring.items)
    ensures p == q
  {
    if p.After? && q.After? {
      var here := Skipped(s, if p.k < q.k then p.k else q.k, now);
    }
    if p.After? { CurrentInItems(s.ring, p.k); }
    if q.After? { CurrentInItems(s.ring, q.k); }
  }

  /** A task that was eligible all along bounds the search: the pick is at or before it. */
  lemma PickNotPast<T>(s: Sched<T>, p: Pick, lo: nat, hi: nat, i: nat, d: nat)
    requires MayPick(s, p, lo, hi) && i < |s.ring.items| && Eligible(s.info[s.ring.items[i]], lo)
    requires 0 < d <= |s.ring.items| && StandsAt(s.ring, d, i)
    ensures p.After? && p.k <= d
  {
    var there := Skipped(s, d, lo);
  }

  // ---- The search, reading by reading

  /** The search has looked at the j tasks after the cursor and passed over each; r are the readings of the time stamp
      counter it made, one for each sleeper. */
  ghost predicate Passed<T>(s: Sched<T>, j: nat, r: seq<nat>)
    requires s.ring.items != [] && RingOk(s.ring)
  {
    if j == 0 then r == []
    else
      var t := Current(AdvancedBy(s.ring, j));
      t in s.info &&
      match s.info[t].status
      case Sleeping => r != [] && r[|r| - 1] < s.info[t].deadline && Passed(s, j - 1, r[..|r| - 1])
      case WaitingIo => Passed(s, j - 1, r)
      case _ => false
  }

  /** What the search picks, given the readings it makes: a sleeper if the counter, read when the search comes to it,
      has reached its deadline. */
  ghost predicate PickedBy<T>(s: Sched<T>, p: Pick, r: seq<nat>)
  {
    RingOk(s.ring) &&
    match p
    case Idle =>
      if s.ring.items == [] then r == [] else |s.ring.items| == 1 && Passed(s, 1, r)
    case After(k) =>
      && 0 < k && s.ring.items != []
      && var t := Current(AdvancedBy(s.ring, k));
         t in s.info && (|s.ring.items| == 1 ==> k == 1) &&
         match s.info[t].status
         case Sleeping => r != [] && s.info[t].deadline <= r[|r| - 1] && Passed(s, k - 1, r[..|r| - 1])
         case WaitingIo => false
         case _ => Passed(s, k - 1, r)
  }

  /** The readings are made one after the other, between times lo and hi. */
  ghost predicate Ascending(r: seq<nat>, lo: nat, hi: nat)
  {
    && lo <= hi
    && (forall i :: 0 <= i < |r| ==> lo <= r[i] <= hi)
    && (forall i, j :: 0 <= i < j < |r| ==> r[i] <= r[j])
  }

  lemma {:induction false} PassedIsSkipped<T>(s: Sched<T>, j: nat, r: seq<nat>, lo: nat, hi: nat, i: nat)
    requires s.ring.items != [] && RingOk(s.ring) && Passed(s, j, r) && Ascending(r, lo, hi) && 0 < i <= j
    ensures Skipped(s, i, lo)
    decreases j
  {
    if i < j {
      var t := Current(AdvancedBy(s.ring, j));
      PassedIsSkipped(s, j - 1, if s.info[t].status == Sleeping then r[..|r| - 1] else r, lo, hi, i);
    }
  }

  /** The readings fix the pick, and it is the first task that could run, as MayPick has it. */
  lemma PickedByMayPick<T>(s: Sched<T>, p: Pick, r: seq<nat>, lo: nat, hi: nat)
    requires PickedBy(s, p, r) && Ascending(r, lo, hi) && forall t :: t in s.ring.items ==> t in s.info
    ensures MayPick(s, p, lo, hi)
  {
    match p {
      case Idle =>
        if s.ring.items != [] {
          PassedIsSkipped(s, 1, r, lo, hi, 1);
          CurrentInItems(s.ring, 1);
          assert Current(AdvancedBy(s.ring, 1)) == s.ring.items[0];
        }
      case After(k) =>
        var t := Current(AdvancedBy(s.ring, k));
        var before := if s.info[t].status == Sleeping then r[..|r| - 1] else r;
        forall j: nat | 0 < j < k ensures Skipped(s, j, lo) { PassedIsSkipped(s, k - 1, before, lo, hi, j); }
    }
  }

  lemma {:induction false} PassedPrefix<T>(s: Sched<T>, j: nat, r: seq<nat>, k: nat) returns (q: seq<nat>)
    requires s.ring.items != [] && RingOk(s.ring) && Passed(s, j, r) && k <= j
    ensures Passed(s, k, q) && q <= r
    decreases j
  {
    if k == j {
      return r;
    }
    var t := Current(AdvancedBy(s.ring, j));
    q := PassedPrefix(s, j - 1, if s.info[t].status == Sleeping then r[..|r| - 1] else r, k);
  }

  lemma {:induction false} PassedUnique<T>(s: Sched<T>, j: nat, q: seq<nat>, r: seq<nat>)
    requires s.ring.items != [] && RingOk(s.ring) && Passed(s, j, q) && Passed(s, j, r)
    ensures |q| == |r|
    decreases j
  {
    if j > 0 {
      var sleeps := s.info[Current(AdvancedBy(s.ring, j))].status == Sleeping;
      PassedUnique(s, j - 1, if sleeps then q[..|q| - 1] else q, if sleeps then r[..|r| - 1] else r);
    }
  }

  /** Two picks that the same readings lead to are the same. */
  lemma ReadingsDecide<T>(s: Sched<T>, p: Pick, q: Pick, r: seq<nat>)
    requires PickedBy(s, p, r) && PickedBy(s, q, r)
    ensures p == q
  {
    if p.After? && q.After? {
      if p.k < q.k { NotPassedPicked(s, p.k, q.k, r); }
      if q.k < p.k { NotPassedPicked(s, q.k, p.k, r); }
    }
  }

  lemma NotPassedPicked<T>(s: Sched<T>, k: nat, m: nat, r: seq<nat>)
    requires PickedBy(s, After(k), r) && PickedBy(s, After(m), r)
    ensures m <= k
  {
    if k < m {
      var t, u := Current(AdvancedBy(s.ring, k)), Current(AdvancedBy(s.ring, m));
      var q := PassedPrefix(s, m - 1, if s.info[u].status == Sleeping then r[..|r| - 1] else r, k);
      if s.info[t].status == Sleeping {
        PassedUnique(s, k - 1, q[..|q| - 1], r[..|r| - 1]);
      }
    }
  }

  /** Steps from the cursor to place i, counting a full round for the cursor's own place. */
  function Distance<T>(r: Ring<T>, i: nat): (d: nat)
    requires RingOk(r) && i < |r.items|
    ensures 0 < d <= |r.items|
  {
    if i > r.pos then i - r.pos else i + |r.items| - r.pos
  }

  lemma DistanceStands<T>(r: Ring<T>, i: nat)
    requires RingOk(r) && i < |r.items|
    ensures StandsAt(r, Distance(r, i), i)
  {
    AdvancedByPlace(r, Distance(r, i));
  }

  /** A series of searches over an unchanging queue, the task at place i eligible at the start of each: s[n] is the
      state the n-th search finds, p[n] its pick, and the cursor stays where a search left it. */
  ghost predicate SearchSeries<T>(s: seq<Sched<T>>, p: seq<Pick>, lo: seq<nat>, hi: seq<nat>, i: nat)
  {
    && |s| == |p| == |lo| == |hi|
    && forall n :: 0 <= n < |s| ==> SearchAt(s, p, lo, hi, i, n)
  }

  ghost predicate SearchAt<T>(s: seq<Sched<T>>, p: seq<Pick>, lo: seq<nat>, hi: seq<nat>, i: nat, n: nat)
    requires |s| == |p| == |lo| == |hi| && n < |s|
  {
    && i < |s[n].ring.items| && MayPick(s[n], p[n], lo[n], hi[n]) && Eligible(s[n].info[s[n].ring.items[i]], lo[n])
    && (n + 1 < |s| && p[n].After? ==> s[n + 1].ring == AdvancedBy(s[n].ring, p[n].k))
  }

  ghost predicate ChosenIn<T>(s: seq<Sched<T>>, p: seq<Pick>, i: nat, n: nat)
    requires |s| == |p|
  {
    n < |s| && s[n].ring.items != [] && RingOk(s[n].ring) && p[n].After? && StandsAt(s[n].ring, p[n].k, i)
  }

  /** No starvation: a task that stays eligible is chosen within as many `schedule` calls as there are tasks. */
  lemma {:induction false} Fair<T>(s: seq<Sched<T>>, p: seq<Pick>, lo: seq<nat>, hi: seq<nat>, i: nat, from: nat)
      returns (n: nat)
    requires SearchSeries(s, p, lo, hi, i) && from < |s|
    requires i < |s[from].ring.items| && RingOk(s[from].ring) && from + Distance(s[from].ring, i) <= |s|
    ensures from <= n < from + Distance(s[from].ring, i) && ChosenIn(s, p, i, n)
    decreases |s| - from
  {
    assert SearchAt(s, p, lo, hi, i, from);
    var r, k := s[from].ring, p[from].k;
    var d := Distance(r, i);
    DistanceStands(r, i);
    PickNotPast(s[from], p[from], lo[from], hi[from], i, d);
    if k == d {
      return from;
    }
    AdvancedByPlace(r, k);
    assert from + 1 < |s|;
    n := Fair(s, p, lo, hi, i, from + 1);
  }

  /** The search of `schedule` cannot end otherwise: with two or more tasks queued, all waiting for input, no step of
      it finds a task to run, however long it goes on and whatever the counter reads. */
  lemma NoPickWhenAllWait<T>(s: Sched<T>, p: Pick, lo: nat, hi: nat)
    requires RingOk(s.ring) && |s.ring.items| >= 2
    requires forall t :: t in s.ring.items ==> t in s.info && s.info[t].status == WaitingIo
    ensures !MayPick(s, p, lo, hi)
  {
    if p.After? { CurrentInItems(s.ring, p.k); }
  }

  lemma {:induction false} FirstFit<T>(s: Sched<T>, lo: nat, hi: nat, k: nat, d: nat) returns (p: Pick)
    requires RingOk(s.ring) && s.ring.items != [] && lo <= hi && 0 < k <= d
    requires forall t :: t in s.ring.items ==> t in s.info
    requires Current(AdvancedBy(s.ring, d)) in s.info && Eligible(s.info[Current(AdvancedBy(s.ring, d))], hi)
    requires forall j: nat :: 0 < j < k ==> Skipped(s, j, hi)
    ensures MayPick(s, p, lo, hi)
    decreases d - k
  {
    CurrentInItems(s.ring, k);
    if Eligible(s.info[Current(AdvancedBy(s.ring, k))], hi) {
      forall j: nat | 0 < j < k ensures Skipped(s, j, lo) { var later := Skipped(s, j, hi); }
      return After(k);
    }
    forall j: nat | 0 < j < k + 1 ensures Skipped(s, j, hi) { var same := j < k ==> Skipped(s, j, hi); }
    p := FirstFit(s, lo, hi, k + 1, d);
  }

  /** The search, begun at any time, can end if and only if at most one task is queued or some queued task is not
      waiting for input. */
  lemma SearchCanEndIff<T>(s: Sched<T>, lo: nat)
    requires RingOk(s.ring) && forall t :: t in s.ring.items ==> t in s.info
    ensures CanSchedule(s) <==> exists p: Pick, hi: nat :: MayPick(s, p, lo, hi)
  {
    if !CanSchedule(s) {
      forall p: Pick, hi: nat ensures !MayPick(s, p, lo, hi) { NoPickWhenAllWait(s, p, lo, hi); }
    } else if |s.ring.items| == 0 || (|s.ring.items| == 1 && s.info[s.ring.items[0]].status == WaitingIo) {
      assert MayPick(s, Idle, lo, lo);
    } else {
      var t :| t in s.ring.items && s.info[t].status != WaitingIo;
      var i: nat :| i < |s.ring.items| && s.ring.items[i] == t;
      DistanceStands(s.ring, i);
      var hi := if s.info[t].status == Sleeping && s.info[t].deadline > lo then s.info[t].deadline else lo;
      var p := FirstFit(s, lo, hi, 1, Distance(s.ring, i));
    }
  }

  // ---- Steps

  /** What happens to the scheduler: a task is preempted, is queued, ends, sleeps or waits for input (the last three
      followed at once by `schedule`), or a keyboard or network interrupt wakes the waiting tasks. */
  datatype Event<T> =
    | Preempt(ctx: Registers, pick: Pick)
    | AddTask(task: T, context: Registers)
    | Kill(ctx: Registers, pick: Pick)
    | Sleep(deadline: nat, ctx: Registers, pick: Pick)
    | Await(ctx: Registers, pick: Pick)
    | Keyboard(key: KeyEvent)
    | Network

  /** A waiting task becomes runnable. */
  function Woken(i: Info): Info
  {
    if i.status == WaitingIo then i.(status := Running) else i
  }

  /** `wake_io` at one task: the event goes into its ring, and it is woken if it waits. */
  function KeyedInfo(i: Info, key: KeyEvent): (n: Info)
    requires |i.events| <= EVENTS
    ensures |n.events| <= EVENTS
  {
    Woken(i.(events := Ringbuffers.Push(i.events, key, EVENTS)))
  }

  function WakeIo<T>(s: Sched<T>, key: KeyEvent): Sched<T>
    requires forall t :: t in s.info ==> |s.info[t].events| <= EVENTS
  {
    s.(info := map t | t in s.info :: if t in s.ring.items then KeyedInfo(s.info[t], key) else s.info[t])
  }

  function WakeNet<T>(s: Sched<T>): Sched<T>
  {
    s.(info := map t | t in s.info :: if t in s.ring.items then Woken(s.info[t]) else s.info[t])
  }

  /** `kill_and_yield` up to its `yield`: the cursor's task is unlinked, unless nothing is queued. */
  function Unlinked<T>(s: Sched<T>): Sched<T>
    requires RingOk(s.ring)
  {
    s.(ring := Removed(s.ring))
  }

  /** The state just before the `schedule` that an event ends in. */
  function Before<T>(s: Sched<T>, e: Event<T>): Sched<T>
    requires SchedOk(s)
  {
    match e
    case Kill(_, _) => Unlinked(s)
    case Sleep(d, _, _) => s.(info := s.info[s.current := s.info[s.current].(status := Sleeping, deadline := d)])
    case Await(_, _) => WithStatus(s, s.current, WaitingIo)
    case _ => s
  }

  /** When an event can happen. Calls are made by a queued task; a new task is not yet known. */
  ghost predicate Possible<T>(s: Sched<T>, e: Event<T>, lo: nat, hi: nat)
    requires SchedOk(s)
  {
    match e
    case Preempt(_, p) => MayPick(s, p, lo, hi)
    case AddTask(t, _) => t !in s.info
    case Kill(_, p) => s.current in s.ring.items && MayPick(Before(s, e), p, lo, hi)
    case Sleep(_, _, p) => s.current in s.ring.items && MayPick(Before(s, e), p, lo, hi)
    case Await(_, p) => s.current in s.ring.items && MayPick(Before(s, e), p, lo, hi)
    case Keyboard(_) => true
    case Network => true
  }

  function Stepped<T>(s: Sched<T>, e: Event<T>, ghost lo: nat, ghost hi: nat): Sched<T>
    requires SchedOk(s) && Possible(s, e, lo, hi)
  {
    match e
    case Preempt(ctx, p) => ScheduledBy(s, ctx, p, lo, hi)
    case AddTask(t, ctx) => s.(ring := Added(s.ring, t), info := s.info[t := Info(Ready, 0, ctx, [])])
    case Kill(ctx, p) => ScheduledBy(Before(s, e), ctx, p, lo, hi)
    case Sleep(_, ctx, p) => ScheduledBy(Before(s, e), ctx, p, lo, hi)
    case Await(ctx, p) => ScheduledBy(Before(s, e), ctx, p, lo, hi)
    case Keyboard(key) => WakeIo(s, key)
    case Network => WakeNet(s)
  }

  function ScheduledBy<T>(s: Sched<T>, ctx: Registers, p: Pick, ghost lo: nat, ghost hi: nat): Sched<T>
    requires s.current in s.info && s.idle in s.info && MayPick(s, p, lo, hi)
  {
    PickKnown(s, p, lo, hi);
    Scheduled(s, ctx, p)
  }

  lemma PickKnown<T>(s: Sched<T>, p: Pick, lo: nat, hi: nat)
    requires s.idle in s.info && MayPick(s, p, lo, hi)
    ensures Picked(s, p) in s.info
  {
    if p.After? { CurrentInItems(s.ring, p.k); }
  }

  /** What a state must be for `schedule` to run in it; the cursor may have been moved off the current task. */
  ghost predicate Schedulable<T>(s: Sched<T>)
  {
    && RingOk(s.ring) && Distinct(s.ring.items)
    && s.idle in s.info && s.idle !in s.ring.items && s.current in s.info
    && (forall t :: t in s.ring.items ==> t in s.info)
    && (forall t :: t in s.info ==> |s.info[t].events| <= EVENTS)
    && (s.info[s.idle].status == Ready || s.info[s.idle].status == Running)
    && (s.current in s.ring.items ==> s.info[s.current].status != Ready)
  }

  lemma ScheduledOk<T>(s: Sched<T>, ctx: Registers, p: Pick, lo: nat, hi: nat)
    requires Schedulable(s) && MayPick(s, p, lo, hi)
    ensures SchedOk(ScheduledBy(s, ctx, p, lo, hi))
  {
    PickKnown(s, p, lo, hi);
    if p.After? { CurrentInItems(s.ring, p.k); }
  }

  lemma BeforeSchedulable<T>(s: Sched<T>, e: Event<T>)
    requires SchedOk(s) && s.current in s.ring.items
    ensures e.Kill? || e.Sleep? || e.Await? ==> Schedulable(Before(s, e))
    ensures e.Kill? ==> Before(s, e).ring == Removed(s.ring) && s.current !in Before(s, e).ring.items
  {
    if e.Kill? { StepKeepsDistinct(s.ring, Remove); }
  }

  /** Every step keeps the cursor on the current task's node, the queue free of duplicates and the idle task out of
      it; so `kill_and_yield` always unlinks exactly the task that ends. */
  lemma StepKeepsSched<T>(s: Sched<T>, e: Event<T>, lo: nat, hi: nat)
    requires SchedOk(s) && Possible(s, e, lo, hi)
    ensures SchedOk(Stepped(s, e, lo, hi))
  {
    match e {
      case Preempt(ctx, p) => ScheduledOk(s, ctx, p, lo, hi);
      case AddTask(t, ctx) => StepKeepsDistinct(s.ring, Add(t));
      case Kill(ctx, p) => BeforeSchedulable(s, e); ScheduledOk(Before(s, e), ctx, p, lo, hi);
      case Sleep(_, ctx, p) => BeforeSchedulable(s, e); ScheduledOk(Before(s, e), ctx, p, lo, hi);
      case Await(ctx, p) => BeforeSchedulable(s, e); ScheduledOk(Before(s, e), ctx, p, lo, hi);
      case Keyboard(key) =>
      case Network =>
    }
  }

  // ---- Saved registers

  /** What each task's registers were when it last stopped running, or what it was created with. */
  function Recorded<T>(saved: map<T, Registers>, s: Sched<T>, e: Event<T>): map<T, Registers>
  {
    match e
    case Preempt(ctx, _) => if s.current in s.ring.items then saved[s.current := ctx] else saved
    case AddTask(t, ctx) => saved[t := ctx]
    case Kill(_, _) => saved
    case Sleep(_, ctx, _) => saved[s.current := ctx]
    case Await(ctx, _) => saved[s.current := ctx]
    case _ => saved
  }

  /** Every queued task that is not running holds the registers it will be resumed with: those it last ran with. */
  ghost predicate ContextsOk<T>(s: Sched<T>, saved: map<T, Registers>)
  {
    forall t :: t in s.ring.items && t in s.info && t != s.current ==> t in saved && s.info[t].context == saved[t]
  }

  lemma StepKeepsContexts<T>(s: Sched<T>, saved: map<T, Registers>, e: Event<T>, lo: nat, hi: nat)
    requires SchedOk(s) && Possible(s, e, lo, hi) && ContextsOk(s, saved)
    ensures ContextsOk(Stepped(s, e, lo, hi), Recorded(saved, s, e))
  {
    hide Distinct, MayPick;
    if e.Kill? {
      StepKeepsDistinct(s.ring, Remove);
    }
  }

  /** A task that is picked resumes with the registers it last ran with. */
  lemma ResumesWithSaved<T>(s: Sched<T>, saved: map<T, Registers>, ctx: Registers, p: Pick, lo: nat, hi: nat)
    requires SchedOk(s) && ContextsOk(s, saved) && MayPick(s, p, lo, hi) && p.After?
    ensures var n := ScheduledBy(s, ctx, p, lo, hi); var t := n.current;
            n.info[t].context == if t == s.current then ctx else if t in saved then saved[t] else []
    ensures var n := ScheduledBy(s, ctx, p, lo, hi); n.current in s.ring.items && n.info[n.current].status == Running
  {
    PickKnown(s, p, lo, hi);
    CurrentInItems(s.ring, p.k);
  }

  // ---- Runs

  /** ss are the states that the events es lead through, one after the other; event n happens between the counter
      readings lo[n] and hi[n]. */
  ghost predicate IsRun<T>(ss: seq<Sched<T>>, es: seq<Event<T>>, lo: seq<nat>, hi: seq<nat>)
  {
    && |ss| == |es| + 1 && |lo| == |hi| == |es|
    && SchedOk(ss[0])
    && forall n :: 0 <= n < |es| ==> Leads(ss[n], es[n], lo[n], hi[n], ss[n + 1])
  }

  ghost predicate Leads<T>(s: Sched<T>, e: Event<T>, lo: nat, hi: nat, next: Sched<T>)
  {
    SchedOk(s) ==> Possible(s, e, lo, hi) && next == Stepped(s, e, lo, hi)
  }

  function RecordedOver<T>(saved: map<T, Registers>, ss: seq<Sched<T>>, es: seq<Event<T>>, n: nat): map<T, Registers>
    requires n <= |es| && |ss| == |es| + 1
  {
    if n == 0 then saved else Recorded(RecordedOver(saved, ss, es, n - 1), ss[n - 1], es[n - 1])
  }

  /** In every state of every run the cursor is on the running task's node, and every queued task that is not running
      holds the registers of its last preemption, or its initial ones. */
  lemma {:induction false} RunKeepsIntegrity<T>(ss: seq<Sched<T>>, es: seq<Event<T>>, lo: seq<nat>, hi: seq<nat>,
                                                saved: map<T, Registers>, n: nat)
    requires IsRun(ss, es, lo, hi) && ContextsOk(ss[0], saved) && n <= |es|
    ensures SchedOk(ss[n]) && ContextsOk(ss[n], RecordedOver(saved, ss, es, n))
  {
    hide SchedOk, ContextsOk, Possible, Stepped, Recorded;
    if n > 0 {
      RunKeepsIntegrity(ss, es, lo, hi, saved, n - 1);
      assert Leads(ss[n - 1], es[n - 1], lo[n - 1], hi[n - 1], ss[n - 1 + 1]);
      StepKeepsSched(ss[n - 1], es[n - 1], lo[n - 1], hi[n - 1]);
      StepKeepsContexts(ss[n - 1], RecordedOver(saved, ss, es, n - 1), es[n - 1], lo[n - 1], hi[n - 1]);
    }
  }

  // ---- No starvation, over runs

  /** Events that end in a `schedule` and leave the same tasks queued. */
  predicate Reschedules<T>(e: Event<T>)
  {
    e.Preempt? || e.Sleep? || e.Await?
  }

  predicate KeepsMembers<T>(e: Event<T>)
  {
    Reschedules(e) || e.Keyboard? || e.Network?
  }

  function ScheduleCalls<T>(es: seq<Event<T>>, from: nat): nat
    requires from <= |es|
    decreases |es| - from
  {
    if from == |es| then 0 else (if Reschedules(es[from]) then 1 else 0) + ScheduleCalls(es, from + 1)
  }

  /** If event n ends in a `schedule`, task t can run when that begins. */
  ghost predicate FitAt<T>(ss: seq<Sched<T>>, es: seq<Event<T>>, lo: seq<nat>, t: T, n: nat)
    requires n < |es| == |lo| && |ss| == |es| + 1
  {
    SchedOk(ss[n]) && Reschedules(es[n]) ==>
      t in Before(ss[n], es[n]).info && Eligible(Before(ss[n], es[n]).info[t], lo[n])
  }

  /** One event: the ring is where the pick left it, and the pick is not past a task that can run. */
  lemma EventOnRing<T>(s: Sched<T>, e: Event<T>, lo: nat, hi: nat, i: nat)
    requires SchedOk(s) && Possible(s, e, lo, hi) && KeepsMembers(e) && i < |s.ring.items|
    requires Reschedules(e) ==> s.ring.items[i] in Before(s, e).info && Eligible(Before(s, e).info[s.ring.items[i]], lo)
    ensures var n := Stepped(s, e, lo, hi); var d := Distance(s.ring, i);
            if Reschedules(e) then
              e.pick.After? && 0 < e.pick.k <= d && n.ring == AdvancedBy(s.ring, e.pick.k)
              && n.current == Current(n.ring) && (e.pick.k == d ==> n.current == s.ring.items[i])
            else n.ring == s.ring
  {
    if Reschedules(e) {
      DistanceStands(s.ring, i);
      PickNotPast(Before(s, e), e.pick, lo, hi, i, Distance(s.ring, i));
    }
  }

  /** Over every run that leaves the membership as it is: a task that can run whenever `schedule` is called is made
      current within as many such calls as it is places from the cursor, so at most as many as there are tasks. */
  lemma {:induction false} FairOverRun<T>(ss: seq<Sched<T>>, es: seq<Event<T>>, lo: seq<nat>, hi: seq<nat>, i: nat,
                                          from: nat)
    returns (n: nat)
    requires IsRun(ss, es, lo, hi) && from <= |es| && SchedOk(ss[from]) && i < |ss[from].ring.items|
    requires forall m :: from <= m < |es| ==> KeepsMembers(es[m]) && FitAt(ss, es, lo, ss[from].ring.items[i], m)
    requires ScheduleCalls(es, from) >= Distance(ss[from].ring, i)
    ensures from <= n < |es| && Reschedules(es[n]) && ss[n + 1].current == ss[from].ring.items[i]
    ensures ScheduleCalls(es, from) - ScheduleCalls(es, n) < Distance(ss[from].ring, i)
    decreases |es| - from
  {
    hide SchedOk, Possible, Stepped, Before, Eligible, AdvancedBy;
    RingOkOf(ss[from]);
    var s, e, d := ss[from], es[from], Distance(ss[from].ring, i);
    assert Leads(s, e, lo[from], hi[from], ss[from + 1]);
    assert FitAt(ss, es, lo, s.ring.items[i], from);
    EventOnRing(s, e, lo[from], hi[from], i);
    StepKeepsSched(s, e, lo[from], hi[from]);
    if Reschedules(e) {
      if e.pick.k == d {
        return from;
      }
      AdvancedByPlace(s.ring, e.pick.k);
    }
    RingOkOf(ss[from + 1]);
    n := FairOverRun(ss, es, lo, hi, i, from + 1);
  }

  lemma RingOkOf<T>(s: Sched<T>)
    requires SchedOk(s)
    ensures RingOk(s.ring)
  {}

  // ---- When schedule can always go on

  /** A queued task that is not waiting, and does not itself wait or end, stays queued and not waiting. */
  lemma StaysAwake<T>(s: Sched<T>, e: Event<T>, lo: nat, hi: nat, t: T)
    requires SchedOk(s) && Possible(s, e, lo, hi)
    requires t in s.ring.items && s.info[t].status != WaitingIo && (e.Await? || e.Kill? ==> s.current != t)
    ensures var n := Stepped(s, e, lo, hi); t in n.ring.items && t in n.info && n.info[t].status != WaitingIo
    ensures t in Before(s, e).ring.items && t in Before(s, e).info && Before(s, e).info[t].status != WaitingIo
  {
    hide Distinct, MayPick;
    match e {
      case Kill(_, _) => StepKeepsDistinct(s.ring, Remove);
      case AddTask(x, _) => assert t in [x] + s.ring.items;
      case _ =>
    }
  }

  /** As long as one queued task, such as the kernel's own, never waits for input and never ends, every search that
      `schedule` makes in a run can end. */
  lemma {:induction false} SearchesEndOverRun<T>(ss: seq<Sched<T>>, es: seq<Event<T>>, lo: seq<nat>, hi: seq<nat>, t: T,
                                                 n: nat)
    requires IsRun(ss, es, lo, hi) && n <= |es|
    requires t in ss[0].ring.items && ss[0].info[t].status != WaitingIo
    requires forall m :: 0 <= m < |es| && ss[m].current == t ==> !es[m].Await? && !es[m].Kill?
    ensures SchedOk(ss[n]) && t in ss[n].ring.items && ss[n].info[t].status != WaitingIo && CanSchedule(ss[n])
    ensures n < |es| ==> CanScheduleIn(Before(ss[n], es[n]))
  {
    hide SchedOk, Possible, Stepped, Before;
    if n > 0 {
      SearchesEndOverRun(ss, es, lo, hi, t, n - 1);
      assert Leads(ss[n - 1], es[n - 1], lo[n - 1], hi[n - 1], ss[n - 1 + 1]);
      StepKeepsSched(ss[n - 1], es[n - 1], lo[n - 1], hi[n - 1]);
      StaysAwake(ss[n - 1], es[n - 1], lo[n - 1], hi[n - 1], t);
    }
    RingKnown(ss[n]);
    if n < |es| {
      assert Leads(ss[n], es[n], lo[n], hi[n], ss[n + 1]);
      StaysAwake(ss[n], es[n], lo[n], hi[n], t);
      BeforeKnown(ss[n], es[n]);
    }
  }

  /** CanSchedule, and every queued task is known. */
  ghost predicate CanScheduleIn<T>(s: Sched<T>)
  {
    (forall t :: t in s.ring.items ==> t in s.info) && CanSchedule(s)
  }

  lemma RingKnown<T>(s: Sched<T>)
    requires SchedOk(s)
    ensures forall t :: t in s.ring.items ==> t in s.info
  {}

  lemma BeforeKnown<T>(s: Sched<T>, e: Event<T>)
    requires SchedOk(s)
    ensures forall t :: t in Before(s, e).ring.items ==> t in Before(s, e).info
  {}

  // ---- The task that ends

  /** `schedule` saves registers into the task that `kill_and_yield` has just deleted. No harm is done if and only if
      nothing else is queued, or the registers are those already there. */
  lemma SavesIntoEndedTask<T>(s: Sched<T>, ctx: Registers)
    requires SchedOk(s) && s.current in s.ring.items
    ensures Saved(Unlinked(s), ctx) == Unlinked(s) <==> |s.ring.items| == 1 || s.info[s.current].context == ctx
  {
    var u := Unlinked(s);
    if s.info[s.current].context == ctx {
      assert s.info[s.current := s.info[s.current].(context := ctx)] == s.info;
    } else if |s.ring.items| > 1 {
      assert Saved(u, ctx).info[s.current].context == ctx;
    }
  }

  /** Two tasks, of which the running one ends: its registers are overwritten after its deletion. */
  lemma EndedTaskWritten() returns (s: Sched<nat>, ctx: Registers)
    ensures SchedOk(s) && s.current in s.ring.items
    ensures Saved(Unlinked(s), ctx).info[s.current].context == ctx != s.info[s.current].context
  {
    var i := Info(Running, 0, [], []);
    s, ctx := Sched(Ring([1, 2], 0), map[0 := i, 1 := i, 2 := i], 1, 0), [7];
    SavesIntoEndedTask(s, ctx);
  }
}
