/** What a `Tty::read` that was blocked any number of times gets, whatever happened in between: every key event is
    accounted for. */
module ReadRuns {
  import opened SchedSpec
  import opened TaskLists
  import opened Blocking
  import opened Ringbuffers

  function KeyOf<T>(a: Act<T>): seq<KeyEvent>
  {
    if a.Other? && a.e.Keyboard? then [a.e.key] else []
  }

  /** The keyboard's events from the i-th move up to the n-th. */
  function Keys<T>(acts: seq<Act<T>>, i: nat, n: nat): seq<KeyEvent>
    requires i <= n <= |acts|
  {
    if i == n then [] else Keys(acts, i, n - 1) + KeyOf(acts[n - 1])
  }

  /** Task t called `read` in move i and has not returned from it before move n. */
  predicate InRead<T(==)>(ys: seq<System<T>>, acts: seq<Act<T>>, t: T, i: nat, n: nat)
  {
    && i <= n <= |acts| && i < |acts| && |ys| == |acts| + 1
    && acts[i].Read? && ys[i].sched.current == t
    && forall m :: i < m <= n ==> t in ys[m].readers
  }

  /** What the read has got at that point. */
  function SoFar<T>(ys: seq<System<T>>, acts: seq<Act<T>>, t: T, i: nat, n: nat): Reader
    requires InRead(ys, acts, t, i, n)
  {
    if n == i then Reader(acts[i].want, []) else ys[n].readers[t]
  }

  /** A task's event ring; empty if there is no such task. */
  function EventsOf<T>(y: System<T>, t: T): seq<KeyEvent>
  {
    if t in y.sched.info then y.sched.info[t].events else []
  }

  /** Whenever a key came in, the task's ring had room for it. */
  predicate HadRoom<T>(ys: seq<System<T>>, acts: seq<Act<T>>, t: T, i: nat, n: nat)
    requires i <= n <= |acts| < |ys|
  {
    forall m :: i <= m < n && KeyOf(acts[m]) != [] ==> |EventsOf(ys[m], t)| < EVENTS
  }

  predicate AllTaken(gone: seq<Gone<KeyEvent>>)
  {
    forall k :: 0 <= k < |gone| ==> gone[k].read
  }

  /** The events a task's ring held and those that came in are those that have left it, in order, and those in it. */
  predicate Accounted(before: seq<KeyEvent>, keys: seq<KeyEvent>, gone: seq<Gone<KeyEvent>>, after: seq<KeyEvent>)
  {
    before + keys == Items(gone) + after
  }

  /** The events that were read rather than overwritten. */
  function TypedIn(gone: seq<Gone<KeyEvent>>): seq<char>
  {
    Typed(Reads(gone))
  }

  // ---- One move

  lemma {:induction false} TypedAppend(a: seq<KeyEvent>, b: seq<KeyEvent>)
    ensures Typed(a + b) == Typed(a) + Typed(b)
  {
    if a == [] {
      assert a + b == b;
    } else {
      TypedAppend(a[1..], b);
      var first := if a[0].pressed then [a[0].ascii] else [];
      assert (a + b)[0] == a[0] && (a + b)[1..] == a[1..] + b;
      assert first + (Typed(a[1..]) + Typed(b)) == (first + Typed(a[1..])) + Typed(b);
    }
  }

  lemma {:induction false} ReadsAppend(g: seq<Gone<KeyEvent>>, h: seq<Gone<KeyEvent>>)
    ensures Reads(g + h) == Reads(g) + Reads(h)
  {
    if h == [] {
      assert g + h == g;
    } else {
      ReadsAppend(g, h[..|h| - 1]);
      assert (g + h)[..|g + h| - 1] == g + h[..|h| - 1];
    }
  }

  lemma GoneAppend(before: seq<KeyEvent>, keys: seq<KeyEvent>, gone: seq<Gone<KeyEvent>>, mid: seq<KeyEvent>,
                   more: seq<KeyEvent>, left: seq<Gone<KeyEvent>>, after: seq<KeyEvent>)
    requires Accounted(before, keys, gone, mid) && Accounted(mid, more, left, after)
    ensures Accounted(before, keys + more, gone + left, after)
    ensures TypedIn(gone + left) == TypedIn(gone) + TypedIn(left)
    ensures AllTaken(gone) && AllTaken(left) ==> AllTaken(gone + left)
  {
    ReadsAppend(gone, left);
    TypedAppend(Reads(gone), Reads(left));
    assert Items(gone + left) == Items(gone) + Items(left);
    assert before + (keys + more) == (before + keys) + more;
    assert Items(gone + left) + after == Items(gone) + (Items(left) + after);
    assert (Items(gone) + mid) + more == Items(gone) + (mid + more);
  }

  lemma {:induction false} TakenIsRead(events: seq<KeyEvent>) returns (gone: seq<Gone<KeyEvent>>)
    ensures Items(gone) == events && Reads(gone) == events && AllTaken(gone)
  {
    gone := [];
    if events != [] {
      var e := events[|events| - 1];
      gone := TakenIsRead(events[..|events| - 1]);
      gone := gone + [Gone(e, true)];
      assert gone[..|gone| - 1] + [Gone(e, true)] == gone;
    }
  }

  /** A newline ends the read: there is none but in the last place. */
  lemma {:induction false} StretchLine(events: seq<KeyEvent>, want: nat, got: seq<char>)
    requires '\n' !in got && |got| <= want
    ensures var s := ReadStretch(events, want, got);
            && got <= s.got && (!s.done ==> '\n' !in s.got)
            && forall k :: 0 <= k < |s.got| - 1 ==> s.got[k] != '\n'
    decreases |events|
  {
    if |got| != want && events != [] && !(events[0].pressed && events[0].ascii == '\n') {
      StretchLine(events[1..], want, if events[0].pressed then got + [events[0].ascii] else got);
    }
  }

  /** The reading task's own stretch. */
  lemma StretchOnRing<T>(y: System<T>, r: Reader, ctx: Registers, pick: Pick, lo: nat, hi: nat, z: System<T>)
      returns (left: seq<Gone<KeyEvent>>)
    requires SystemOk(y) && |r.got| <= r.want && y.sched.current in y.sched.ring.items
    requires Continues(y, r.want, r.got, ctx, pick, lo, hi, z)
    ensures var t := y.sched.current;
            var st := RunningStretch(y, r.want, r.got);
            && Accounted(EventsOf(y, t), [], left, EventsOf(z, t)) && AllTaken(left)
            && st.got == r.got + TypedIn(left)
            && if st.done then t !in z.readers else t in z.readers && z.readers[t] == Reader(r.want, st.got)
  {
    hide Distinct, MayPick, ReadStretch;
    var t := y.sched.current;
    var consumed := StretchReads(EventsOf(y, t), r.want, r.got);
    left := TakenIsRead(consumed);
    StretchKeepsSched(y.sched, r.want, r.got);
    assert EventsOf(z, t) == RunningStretch(y, r.want, r.got).rest;
  }

  lemma OthersEvents<T>(y: System<T>, a: Act<T>, lo: nat, hi: nat, z: System<T>, t: T)
    requires SystemOk(y) && Moves(y, a, lo, hi, z) && t in y.readers && y.sched.current != t
    ensures EventsOf(z, t) ==
            if KeyOf(a) == [] then EventsOf(y, t) else Push(EventsOf(y, t), KeyOf(a)[0], EVENTS)
    ensures t in z.readers && z.readers[t] == y.readers[t]
  {
    hide Distinct, MayPick, ReadStretch, Possible, Stepped;
    if a.Other? {
      StepOnEvents(y.sched, a.e, lo, hi, t);
    } else {
      var r := if a.Read? then Reader(a.want, []) else y.readers[y.sched.current];
      var st := RunningStretch(y, r.want, r.got);
      StretchKeepsSched(y.sched, r.want, r.got);
      if !st.done {
        StepOnEvents(WithEvents(y.sched, y.sched.current, st.rest), Await(a.ctx, a.pick), lo, hi, t);
      }
    }
  }

  /** A move that is not the reader's own. */
  lemma OthersOnRing<T>(y: System<T>, a: Act<T>, lo: nat, hi: nat, z: System<T>, t: T)
      returns (left: seq<Gone<KeyEvent>>)
    requires SystemOk(y) && Moves(y, a, lo, hi, z) && t in y.readers && y.sched.current != t
    ensures Accounted(EventsOf(y, t), KeyOf(a), left, EventsOf(z, t)) && Reads(left) == []
    ensures t in z.readers && z.readers[t] == y.readers[t]
    ensures left != [] ==> KeyOf(a) != [] && |EventsOf(y, t)| >= EVENTS
  {
    OthersEvents(y, a, lo, hi, z, t);
    hide Moves, SchedOk;
    left := [];
    var before := EventsOf(y, t);
    if KeyOf(a) != [] && |before| >= EVENTS {
      left := [Gone(before[0], false)];
      assert before == [before[0]] + before[1..];
    }
  }

  // ---- Runs

  /** While a read goes on, what it has got is what was typed among the events it took off its ring; with the events
      that a full ring dropped and those still in it, these are all the events since the call, in order. */
  lemma {:induction false} GetsWhatIsTyped<T>(ys: seq<System<T>>, acts: seq<Act<T>>, lo: seq<nat>, hi: seq<nat>, t: T,
                                              i: nat, n: nat) returns (gone: seq<Gone<KeyEvent>>)
    requires IsSystemRun(ys, acts, lo, hi) && InRead(ys, acts, t, i, n)
    ensures Accounted(EventsOf(ys[i], t), Keys(acts, i, n), gone, EventsOf(ys[n], t))
    ensures var r := SoFar(ys, acts, t, i, n);
            r.got == TypedIn(gone) && r.want == acts[i].want && |r.got| <= r.want && '\n' !in r.got
    ensures HadRoom(ys, acts, t, i, n) ==> AllTaken(gone)
    decreases n
  {
    gone := [];
    if n > i {
      gone := GetsWhatIsTyped(ys, acts, lo, hi, t, i, n - 1);
      var left := ReadMove(ys, acts, lo, hi, t, i, n - 1);
      GoneAppend(EventsOf(ys[i], t), Keys(acts, i, n - 1), gone, EventsOf(ys[n - 1], t), KeyOf(acts[n - 1]), left,
                 EventsOf(ys[n], t));
      gone := gone + left;
    }
  }

  /** One move while the read goes on. */
  lemma ReadMove<T>(ys: seq<System<T>>, acts: seq<Act<T>>, lo: seq<nat>, hi: seq<nat>, t: T, i: nat, n: nat)
      returns (left: seq<Gone<KeyEvent>>)
    requires IsSystemRun(ys, acts, lo, hi) && InRead(ys, acts, t, i, n) && n < |acts|
    requires var r := SoFar(ys, acts, t, i, n); |r.got| <= r.want && '\n' !in r.got
    ensures Accounted(EventsOf(ys[n], t), KeyOf(acts[n]), left, EventsOf(ys[n + 1], t))
    ensures ys[n].sched.current in ys[n].sched.info
    ensures var r := SoFar(ys, acts, t, i, n);
            if ys[n].sched.current == t then
              var st := RunningStretch(ys[n], r.want, r.got);
              && st.got == r.got + TypedIn(left) && |st.got| <= r.want
              && (forall k :: 0 <= k < |st.got| - 1 ==> st.got[k] != '\n')
              && (st.done ==> |st.got| == r.want || (st.got != [] && st.got[|st.got| - 1] == '\n'))
              && if st.done then t !in ys[n + 1].readers
                 else t in ys[n + 1].readers && ys[n + 1].readers[t] == Reader(r.want, st.got) && '\n' !in st.got
            else t in ys[n + 1].readers && ys[n + 1].readers[t] == r && TypedIn(left) == []
    ensures ys[n].sched.current == t || KeyOf(acts[n]) == [] || |EventsOf(ys[n], t)| < EVENTS ==> AllTaken(left)
  {
    hide Distinct, Continues, ReadStretch, Possible, Stepped;
    var y, z, r := ys[n], ys[n + 1], SoFar(ys, acts, t, i, n);
    NoLostWakeUp(ys, acts, lo, hi, n);
    assert MovesTo(y, acts[n], lo[n], hi[n], ys[n + 1]);
    if y.sched.current == t {
      var ctx, pick := acts[n].ctx, acts[n].pick;
      left := StretchOnRing(y, r, ctx, pick, lo[n], hi[n], z);
      var consumed := StretchReads(y.sched.info[t].events, r.want, r.got);
      StretchLine(y.sched.info[t].events, r.want, r.got);
    } else {
      left := OthersOnRing(y, acts[n], lo[n], hi[n], z, t);
    }
  }

  /** What `read` returns, however often it was blocked in between: exactly what was typed among the events it took,
      which are all that came in since the call or were there, in order, but for those a full ring dropped and those
      left for the next read. It is the first `length` characters, or fewer that end with the first newline. */
  lemma ReadReturns<T>(ys: seq<System<T>>, acts: seq<Act<T>>, lo: seq<nat>, hi: seq<nat>, t: T, i: nat, n: nat)
      returns (gone: seq<Gone<KeyEvent>>, got: seq<char>)
    requires IsSystemRun(ys, acts, lo, hi) && InRead(ys, acts, t, i, n) && n < |acts| && t !in ys[n + 1].readers
    ensures ys[n].sched.current == t && t in ys[n].sched.info
    ensures var r := SoFar(ys, acts, t, i, n); got == RunningStretch(ys[n], r.want, r.got).got
    ensures Accounted(EventsOf(ys[i], t), Keys(acts, i, n + 1), gone, EventsOf(ys[n + 1], t))
    ensures got == TypedIn(gone) && (HadRoom(ys, acts, t, i, n) ==> AllTaken(gone))
    ensures |got| <= acts[i].want && forall k :: 0 <= k < |got| - 1 ==> got[k] != '\n'
    ensures |got| == acts[i].want || (got != [] && got[|got| - 1] == '\n')
  {
    hide ReadStretch, SystemOk, Possible, Stepped;
    gone := GetsWhatIsTyped(ys, acts, lo, hi, t, i, n);
    var left := ReadMove(ys, acts, lo, hi, t, i, n);
    GoneAppend(EventsOf(ys[i], t), Keys(acts, i, n), gone, EventsOf(ys[n], t), KeyOf(acts[n]), left,
               EventsOf(ys[n + 1], t));
    gone := gone + left;
    var r := SoFar(ys, acts, t, i, n);
    got := RunningStretch(ys[n], r.want, r.got).got;
  }
}
