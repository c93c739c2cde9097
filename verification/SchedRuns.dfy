/** What the scheduler keeps for single tasks: a sleeper's deadline, the idle task's registers, unread key events. */
module SchedRuns {
  import opened SchedSpec
  import opened TaskLists
  import opened Ringbuffers

  // ---- Sleeping

  /** The task that calls `sleep` with deadline d: unless the search comes back to it, and then not before d, it is
      asleep, and fit to run again exactly from d on. */
  lemma FallsAsleep<T>(s: Sched<T>, d: nat, ctx: Registers, pick: Pick, lo: nat, hi: nat)
    requires SchedOk(s) && Possible(s, Event.Sleep(d, ctx, pick), lo, hi)
    ensures var n := Stepped(s, Event.Sleep(d, ctx, pick), lo, hi); var t := s.current;
            && t in n.ring.items && t in n.info && n.info[t].deadline == d
            && (n.current == t ==> d <= hi)
            && (n.current != t ==> n.info[t].status == Sleeping && forall at :: Eligible(n.info[t], at) <==> d <= at)
  {
    hide Distinct;
    var e := Event.Sleep(d, ctx, pick);
    PickKnown(Before(s, e), pick, lo, hi);
    if pick.After? { CurrentInItems(s.ring, pick.k); }
  }

  /** One event: nothing but a search that reads a time at or past its deadline wakes a sleeper. */
  lemma SleepsOn<T>(s: Sched<T>, e: Event<T>, lo: nat, hi: nat, t: T)
    requires SchedOk(s) && Possible(s, e, lo, hi)
    requires t in s.ring.items && t != s.current && s.info[t].status == Sleeping
    ensures var n := Stepped(s, e, lo, hi);
            && t in n.ring.items && t in n.info && n.info[t].deadline == s.info[t].deadline
            && if n.current == t then s.info[t].deadline <= hi else n.info[t].status == Sleeping
  {
    hide Distinct, ScheduledBy;
    match e {
      case Preempt(ctx, p) => SearchWakes(s, ctx, p, lo, hi, t);
      case Kill(ctx, p) => StepKeepsDistinct(s.ring, Remove); SearchWakes(Unlinked(s), ctx, p, lo, hi, t);
      case Sleep(_, ctx, p) => SearchWakes(Before(s, e), ctx, p, lo, hi, t);
      case Await(ctx, p) => SearchWakes(Before(s, e), ctx, p, lo, hi, t);
      case AddTask(x, _) => assert t in [x] + s.ring.items;
      case _ =>
    }
  }

  lemma SearchWakes<T>(s: Sched<T>, ctx: Registers, p: Pick, lo: nat, hi: nat, t: T)
    requires s.current in s.info && s.idle in s.info && s.idle !in s.ring.items && MayPick(s, p, lo, hi)
    requires t in s.ring.items && t != s.current && s.info[t].status == Sleeping
    ensures var n := ScheduledBy(s, ctx, p, lo, hi);
            && t in n.ring.items && t in n.info && n.info[t].deadline == s.info[t].deadline
            && if n.current == t then s.info[t].deadline <= hi else n.info[t].status == Sleeping
  {
    PickEligible(s, p, lo, hi);
  }

  lemma PickEligible<T>(s: Sched<T>, p: Pick, lo: nat, hi: nat)
    requires s.idle in s.info && MayPick(s, p, lo, hi)
    ensures Picked(s, p) in s.info
    ensures p.After? ==> Picked(s, p) in s.ring.items && Eligible(s.info[Picked(s, p)], hi)
  {
    PickKnown(s, p, lo, hi);
    if p.After? { CurrentInItems(s.ring, p.k); }
  }

  /** Over every run: a sleeper that runs again was made current by a search that ended at its deadline or later. */
  lemma {:induction false} NotBeforeDeadline<T>(ss: seq<Sched<T>>, es: seq<Event<T>>, lo: seq<nat>, hi: seq<nat>,
                                                t: T, i: nat, n: nat) returns (m: nat)
    requires IsRun(ss, es, lo, hi) && i < n <= |es| && SchedOk(ss[i])
    requires t in ss[i].ring.items && t != ss[i].current && ss[i].info[t].status == Sleeping && ss[n].current == t
    ensures i <= m < n && ss[m].current != t && ss[m + 1].current == t && ss[i].info[t].deadline <= hi[m]
    decreases n - i
  {
    hide SchedOk, Possible, Stepped;
    assert Leads(ss[i], es[i], lo[i], hi[i], ss[i + 1]);
    StepKeepsSched(ss[i], es[i], lo[i], hi[i]);
    SleepsOn(ss[i], es[i], lo[i], hi[i], t);
    if ss[i + 1].current == t {
      return i;
    }
    m := NotBeforeDeadline(ss, es, lo, hi, t, i + 1, n);
  }

  // ---- The idle task's registers

  /** The registers the idle task last ran with, if it has ever run; those it was created with before. */
  function IdleRecorded<T>(w: Registers, s: Sched<T>, e: Event<T>): Registers
    requires s.idle in s.info
  {
    if e.Preempt? && s.current == s.idle && s.info[s.idle].status == Running then e.ctx else w
  }

  /** One event: the idle task's registers stay those it last ran with if and only if it is not interrupted, with
      others than it was resumed with, while nothing is queued. */
  lemma IdleKept<T>(s: Sched<T>, w: Registers, e: Event<T>, lo: nat, hi: nat)
    requires SchedOk(s) && Possible(s, e, lo, hi) && s.info[s.idle].context == w
    ensures var n := Stepped(s, e, lo, hi);
            && n.idle == s.idle && n.idle in n.info
            && (n.info[n.idle].context == IdleRecorded(w, s, e) <==>
                s.ring.items != [] || IdleRecorded(w, s, e) == w)
  {
    hide Distinct;
    match e {
      case Preempt(_, p) => PickEligible(s, p, lo, hi);
      case Kill(_, p) => StepKeepsDistinct(s.ring, Remove); PickEligible(Unlinked(s), p, lo, hi);
      case Sleep(_, _, p) => PickEligible(Before(s, e), p, lo, hi);
      case Await(_, p) => PickEligible(Before(s, e), p, lo, hi);
      case _ =>
    }
  }

  /** With nothing queued the idle task, interrupted with registers [2], is resumed with the older [1]. */
  lemma IdleLosesRegisters() returns (s: Sched<nat>, e: Event<nat>)
    ensures SchedOk(s) && Possible(s, e, 0, 0) && s.current == s.idle && e.Preempt?
    ensures Stepped(s, e, 0, 0).current == s.idle && Stepped(s, e, 0, 0).info[s.idle].context == [1] != e.ctx == [2]
  {
    s, e := Sched(Ring([], 0), map[0 := Info(Running, 0, [1], [])], 0, 0), Preempt([2], Idle);
  }

  function IdleRecordedOver<T>(w: Registers, ss: seq<Sched<T>>, es: seq<Event<T>>, n: nat): Registers
    requires n <= |es| && |ss| == |es| + 1 && forall m :: 0 <= m < n ==> ss[m].idle in ss[m].info
  {
    if n == 0 then w else IdleRecorded(IdleRecordedOver(w, ss, es, n - 1), ss[n - 1], es[n - 1])
  }

  /** Over every run in which the queue is never empty the idle task holds the registers it last ran with, so that it
      resumes with them whenever it is picked. */
  lemma {:induction false} IdleResumesOverRun<T>(ss: seq<Sched<T>>, es: seq<Event<T>>, lo: seq<nat>, hi: seq<nat>,
                                                 n: nat)
    requires IsRun(ss, es, lo, hi) && n <= |es| && forall m :: 0 <= m < n ==> ss[m].ring.items != []
    ensures SchedOk(ss[n]) && ss[n].idle == ss[0].idle && forall m :: 0 <= m <= n ==> ss[m].idle in ss[m].info
    ensures ss[n].info[ss[n].idle].context == IdleRecordedOver(ss[0].info[ss[0].idle].context, ss, es, n)
  {
    hide Possible, Stepped;
    if n > 0 {
      IdleResumesOverRun(ss, es, lo, hi, n - 1);
      assert Leads(ss[n - 1], es[n - 1], lo[n - 1], hi[n - 1], ss[n - 1 + 1]);
      StepKeepsSched(ss[n - 1], es[n - 1], lo[n - 1], hi[n - 1]);
      IdleKept(ss[n - 1], ss[n - 1].info[ss[n - 1].idle].context, es[n - 1], lo[n - 1], hi[n - 1]);
    }
  }

  // ---- Unread key events

  /** The last four of some events; all of them if they are no more. */
  function NewestFour(events: seq<KeyEvent>): seq<KeyEvent>
  {
    if |events| <= 4 then events else events[|events| - 4..]
  }

  /** Keyboard interrupts one after the other, with no read in between. */
  function KeysPressed<T>(s: Sched<T>, keys: seq<KeyEvent>): (n: Sched<T>)
    requires forall t :: t in s.info ==> |s.info[t].events| <= EVENTS
    ensures n.ring == s.ring && n.info.Keys == s.info.Keys
    decreases |keys|
  {
    if keys == [] then s else KeysPressed(WakeIo(s, keys[0]), keys[1..])
  }

  /** Of the events that come in between reads, up to four are kept, the newest, for every queued task. */
  lemma {:induction false} FourAreKept<T>(s: Sched<T>, keys: seq<KeyEvent>, t: T)
    requires (forall u :: u in s.info ==> |s.info[u].events| <= EVENTS) && t in s.ring.items && t in s.info
    ensures KeysPressed(s, keys).info[t].events == NewestFour(s.info[t].events + keys)
    decreases |keys|
  {
    var unread := s.info[t].events;
    if keys == [] {
      assert unread + keys == unread;
    } else {
      var n := WakeIo(s, keys[0]);
      assert n.info[t].events == Push(unread, keys[0], EVENTS);
      FourAreKept(n, keys[1..], t);
      NewestAfterPush(unread, keys[0], keys[1..]);
      assert [keys[0]] + keys[1..] == keys;
    }
  }

  lemma NewestAfterPush(q: seq<KeyEvent>, key: KeyEvent, more: seq<KeyEvent>)
    requires |q| <= EVENTS
    ensures NewestFour(Push(q, key, EVENTS) + more) == NewestFour(q + ([key] + more))
  {
    assert q + ([key] + more) == (q + [key]) + more;
    if |q| == 4 { assert q + [key] == [q[0]] + (q[1..] + [key]); }
  }

  /** What `wake_io` does to the task's `Ringbuffer<KeyboardEvent, 5>`. */
  method WriteEvent(ring: Ringbuffer<KeyEvent>, key: KeyEvent, ghost i: Info)
    requires ring.Valid() && ring.data.Length == 5 && ring.Contents() == i.events
    modifies ring`head, ring`tail, ring.data
    ensures ring.Valid() && |i.events| <= EVENTS && ring.Contents() == KeyedInfo(i, key).events
    ensures ring.Contents() == NewestFour(i.events + [key])
  {
    hide Window, Push, NewestFour;
    ring.Write(key);
    PushKeepsNewest(i.events, key);
  }

  lemma PushKeepsNewest(q: seq<KeyEvent>, key: KeyEvent)
    requires |q| <= EVENTS
    ensures Push(q, key, EVENTS) == NewestFour(q + [key])
  {
    if |q| == 4 { assert q + [key] == [q[0]] + (q[1..] + [key]); }
  }
}
