/** `Tty::read` through `block_on`, interleaved with the timer, keyboard and network interrupts: no key press is slept
    through. A system call runs with interrupts off from its entry to its next `yield`, so each stretch of the read
    between two yields is one step. */
module Blocking {
  import opened SchedSpec
  import opened TaskLists
  import Ringbuffers

  /** Where a read that was blocked goes on: it wants `want` characters and has `got`. */
  datatype Reader = Reader(want: nat, got: seq<char>)

  /** One stretch of the loop of `Tty::read`: events are taken off the ring, releases ignored, until enough
      characters are there, a newline has been read, or the ring is empty and the task must wait. */
  datatype Stretch = Stretch(rest: seq<KeyEvent>, got: seq<char>, done: bool)

  function ReadStretch(events: seq<KeyEvent>, want: nat, got: seq<char>): Stretch
    decreases |events|
  {
    if |got| == want then Stretch(events, got, true)
    else if events == [] then Stretch([], got, false)
    else if !events[0].pressed then ReadStretch(events[1..], want, got)
    else if events[0].ascii == '\n' then Stretch(events[1..], got + ['\n'], true)
    else ReadStretch(events[1..], want, got + [events[0].ascii])
  }

  /** The characters of the key presses among some events. */
  function Typed(events: seq<KeyEvent>): seq<char>
  {
    if events == [] then []
    else (if events[0].pressed then [events[0].ascii] else []) + Typed(events[1..])
  }

  /** A stretch consumes a prefix of the ring and gets exactly the characters typed in it; it stops short of `want`
      only at a newline, which is then the last character got, or to wait, and then only with the ring empty. */
  lemma {:induction false} StretchReads(events: seq<KeyEvent>, want: nat, got: seq<char>)
      returns (consumed: seq<KeyEvent>)
    requires |got| <= want
    ensures var s := ReadStretch(events, want, got);
            && events == consumed + s.rest && s.got == got + Typed(consumed) && |s.got| <= want
            && (s.done ==> |s.got| == want || (s.got != [] && s.got[|s.got| - 1] == '\n'))
            && (!s.done ==> s.rest == [] && |s.got| < want)
    decreases |events|
  {
    if |got| == want || events == [] {
      return [];
    }
    var e := events[0];
    if e.pressed && e.ascii == '\n' {
      assert Typed([e]) == ['\n'];
      return [e];
    }
    var more := StretchReads(events[1..], want, if e.pressed then got + [e.ascii] else got);
    consumed := [e] + more;
    assert consumed[1..] == more;
    var g := if e.pressed then got + [e.ascii] else got;
    assert g + Typed(more) == got + Typed(consumed);
  }

  datatype System<T> = System(sched: Sched<T>, readers: map<T, Reader>)

  /** A system event: a scheduler event outside any read, a read call of the running task, or the running task going
      on with the read it was blocked in. */
  datatype Act<T> =
    | Other(e: Event<T>)
    | Read(want: nat, ctx: Registers, pick: Pick)
    | Resume(ctx: Registers, pick: Pick)

  ghost predicate SystemOk<T>(y: System<T>)
  {
    && SchedOk(y.sched)
    && (forall t :: t in y.readers ==> t in y.sched.ring.items && t in y.sched.info)
    && (forall t :: t in y.readers ==> |y.readers[t].got| < y.readers[t].want)
    && (forall t :: t in y.readers ==> NotAsleepOverKeys(y, t))
  }

  /** A reader waits only while its event ring is empty. */
  predicate NotAsleepOverKeys<T(==)>(y: System<T>, t: T)
  {
    t in y.sched.info && y.sched.info[t].status == WaitingIo ==> y.sched.info[t].events == []
  }

  /** The running task's ring after a stretch. */
  function WithEvents<T>(s: Sched<T>, t: T, events: seq<KeyEvent>): Sched<T>
    requires t in s.info
  {
    s.(info := s.info[t := s.info[t].(events := events)])
  }

  function RunningStretch<T>(y: System<T>, want: nat, got: seq<char>): Stretch
    requires y.sched.current in y.sched.info
  {
    ReadStretch(y.sched.info[y.sched.current].events, want, got)
  }

  lemma StretchKeepsSched<T>(s: Sched<T>, want: nat, got: seq<char>)
    requires SchedOk(s) && |got| <= want
    ensures SchedOk(WithEvents(s, s.current, ReadStretch(s.info[s.current].events, want, got).rest))
  {
    var consumed := StretchReads(s.info[s.current].events, want, got);
  }

  /** The state after the running task, with `got` so far, went through a stretch of its read. */
  ghost predicate Continues<T>(y: System<T>, want: nat, got: seq<char>, ctx: Registers, pick: Pick, lo: nat, hi: nat,
                               z: System<T>)
    requires SchedOk(y.sched) && |got| <= want
  {
    var t := y.sched.current;
    var st := RunningStretch(y, want, got);
    var s := WithEvents(y.sched, t, st.rest);
    StretchKeepsSched(y.sched, want, got);
    if st.done then z == System(s, y.readers - {t})
    else Possible(s, Await(ctx, pick), lo, hi)
         && z == System(Stepped(s, Await(ctx, pick), lo, hi), y.readers[t := Reader(want, st.got)])
  }

  /** How the system moves. While the running task is inside a read, interrupts are off and nothing but its own next
      stretch can happen; a task inside a read cannot be the one that ends, sleeps or calls anything. */
  ghost predicate Moves<T>(y: System<T>, a: Act<T>, lo: nat, hi: nat, z: System<T>)
    requires SystemOk(y)
  {
    match a
    case Other(e) =>
      && y.sched.current !in y.readers && Possible(y.sched, e, lo, hi)
      && z == System(Stepped(y.sched, e, lo, hi), y.readers)
    case Read(want, ctx, pick) =>
      && y.sched.current !in y.readers && y.sched.current in y.sched.ring.items
      && Continues(y, want, [], ctx, pick, lo, hi, z)
    case Resume(ctx, pick) =>
      && y.sched.current in y.readers
      && Continues(y, y.readers[y.sched.current].want, y.readers[y.sched.current].got, ctx, pick, lo, hi, z)
  }

  /** A step by the running task, or an interrupt, puts no other queued task to sleep and takes nothing out of its
      event ring; a key press or a packet leaves no queued task waiting. */
  lemma StepOnOthers<T>(s: Sched<T>, e: Event<T>, lo: nat, hi: nat, t: T)
    requires SchedOk(s) && Possible(s, e, lo, hi) && t in s.ring.items && t != s.current
    ensures var n := Stepped(s, e, lo, hi);
            && t in n.ring.items && t in n.info
            && (n.info[t].status == WaitingIo ==> s.info[t].status == WaitingIo && n.info[t].events == s.info[t].events)
            && (e.Keyboard? || e.Network? ==> n.info[t].status != WaitingIo)
  {
    hide Distinct, MayPick;
    match e {
      case Kill(_, _) => StepKeepsDistinct(s.ring, Remove); assert Before(s, e).info == s.info;
      case AddTask(x, _) => assert t in [x] + s.ring.items;
      case _ =>
    }
  }

  /** Only the keyboard writes to an event ring, and only a task's end takes it off the queue. */
  lemma StepOnEvents<T>(s: Sched<T>, e: Event<T>, lo: nat, hi: nat, t: T)
    requires SchedOk(s) && Possible(s, e, lo, hi) && t in s.ring.items
    ensures var n := Stepped(s, e, lo, hi);
            && t in n.info && (!e.Kill? ==> t in n.ring.items)
            && n.info[t].events ==
               if e.Keyboard? then Ringbuffers.Push(s.info[t].events, e.key, EVENTS) else s.info[t].events
  {
    hide Distinct, MayPick;
    if e.AddTask? { assert t in [e.task] + s.ring.items; }
  }

  lemma OtherStepKeepsReaders<T>(y: System<T>, e: Event<T>, lo: nat, hi: nat)
    requires SystemOk(y) && y.sched.current !in y.readers && Possible(y.sched, e, lo, hi)
    ensures SystemOk(System(Stepped(y.sched, e, lo, hi), y.readers))
  {
    hide Stepped, Possible, SchedOk;
    var s := Stepped(y.sched, e, lo, hi);
    StepKeepsSched(y.sched, e, lo, hi);
    forall t | t in y.readers
      ensures t in s.ring.items && t in s.info && NotAsleepOverKeys(System(s, y.readers), t)
    {
      var before := NotAsleepOverKeys(y, t);
      StepOnOthers(y.sched, e, lo, hi, t);
    }
  }

  lemma StretchStepKeepsReaders<T>(y: System<T>, want: nat, got: seq<char>, ctx: Registers, pick: Pick, lo: nat,
                                   hi: nat, z: System<T>)
    requires SystemOk(y) && |got| <= want && y.sched.current in y.sched.ring.items
    requires Continues(y, want, got, ctx, pick, lo, hi, z)
    ensures SystemOk(z)
  {
    hide Distinct, MayPick, Possible, ReadStretch, Stepped;
    var t := y.sched.current;
    var st := RunningStretch(y, want, got);
    var s := WithEvents(y.sched, t, st.rest);
    var consumed := StretchReads(y.sched.info[t].events, want, got);
    StretchKeepsSched(y.sched, want, got);
    if !st.done { StepKeepsSched(s, Await(ctx, pick), lo, hi); }
    hide SchedOk;
    forall u | u in z.readers ensures u in z.sched.ring.items && u in z.sched.info && NotAsleepOverKeys(z, u) {
      var before := u != t ==> NotAsleepOverKeys(y, u);
      if !st.done {
        StepOnEvents(s, Await(ctx, pick), lo, hi, u);
        if u != t { StepOnOthers(s, Await(ctx, pick), lo, hi, u); }
      }
    }
  }

  /** No lost wake-up: whatever happens, a task blocked in `Tty::read` waits only while its event ring is empty. */
  lemma MoveKeepsSystem<T>(y: System<T>, a: Act<T>, lo: nat, hi: nat, z: System<T>)
    requires SystemOk(y) && Moves(y, a, lo, hi, z)
    ensures SystemOk(z)
  {
    match a {
      case Other(e) => OtherStepKeepsReaders(y, e, lo, hi);
      case Read(want, ctx, pick) => StretchStepKeepsReaders(y, want, [], ctx, pick, lo, hi, z);
      case Resume(ctx, pick) =>
        var r := y.readers[y.sched.current];
        StretchStepKeepsReaders(y, r.want, r.got, ctx, pick, lo, hi, z);
    }
  }

  /** A key press wakes every blocked reader and leaves it something to read. */
  lemma KeyWakesReaders<T>(y: System<T>, key: KeyEvent, t: T)
    requires SystemOk(y) && t in y.readers
    ensures var s := WakeIo(y.sched, key);
            t in s.info && s.info[t].status != WaitingIo && s.info[t].events != []
            && s.info[t].events[|s.info[t].events| - 1] == key
  {}

  /** `block_on` does not return while its condition is false: a blocked read that a spurious network wake-up has made
      runnable finds its ring empty and waits again, having got nothing. */
  lemma SpuriousWakeWaitsAgain<T>(y: System<T>, ctx: Registers, pick: Pick, lo: nat, hi: nat, z: System<T>)
    requires SystemOk(y) && Moves(y, Resume(ctx, pick), lo, hi, z)
    requires y.sched.info[y.sched.current].events == []
    ensures var t := y.sched.current; t in z.readers && z.readers[t] == y.readers[t]
    ensures var t := y.sched.current; z.sched.current != t ==> z.sched.info[t].status == WaitingIo
  {
    var t, r := y.sched.current, y.readers[y.sched.current];
    assert RunningStretch(y, r.want, r.got) == Stretch([], r.got, false);
    assert WithEvents(y.sched, t, []).info == y.sched.info;
  }

  ghost predicate IsSystemRun<T>(ys: seq<System<T>>, acts: seq<Act<T>>, lo: seq<nat>, hi: seq<nat>)
  {
    && |ys| == |acts| + 1 && |lo| == |hi| == |acts| && SystemOk(ys[0])
    && forall n :: 0 <= n < |acts| ==> MovesTo(ys[n], acts[n], lo[n], hi[n], ys[n + 1])
  }

  ghost predicate MovesTo<T>(y: System<T>, a: Act<T>, lo: nat, hi: nat, z: System<T>)
  {
    SystemOk(y) ==> Moves(y, a, lo, hi, z)
  }

  /** Over every interleaving of reads, other calls and interrupts. */
  lemma {:induction false} NoLostWakeUp<T>(ys: seq<System<T>>, acts: seq<Act<T>>, lo: seq<nat>, hi: seq<nat>, n: nat)
    requires IsSystemRun(ys, acts, lo, hi) && n <= |acts|
    ensures SystemOk(ys[n])
    ensures forall t :: t in ys[n].readers && t in ys[n].sched.info && ys[n].sched.info[t].status == WaitingIo ==>
              ys[n].sched.info[t].events == []
  {
    if n > 0 {
      NoLostWakeUp(ys, acts, lo, hi, n - 1);
      assert MovesTo(ys[n - 1], acts[n - 1], lo[n - 1], hi[n - 1], ys[n - 1 + 1]);
      MoveKeepsSystem(ys[n - 1], acts[n - 1], lo[n - 1], hi[n - 1], ys[n]);
    }
    forall t | t in ys[n].readers ensures NotAsleepOverKeys(ys[n], t) {}
  }
}
