/** `Ringbuffer<T, Size>`: a bounded queue of Size - 1 items that drops its oldest item when it overflows. */
module Ringbuffers {
  import opened NextFit

  /** Writing to a bounded queue. */
  function Push<T>(q: seq<T>, x: T, cap: nat): (r: seq<T>)
    requires 0 < cap && |q| <= cap
    ensures |r| <= cap && r != [] && r[|r| - 1] == x
  {
    if |q| < cap then q + [x] else q[1..] + [x]
  }

  lemma Wraps(i: nat, n: nat)
    requires i < n
    ensures (i + 1) % n == if i + 1 == n then 0 else i + 1
  {
    if i + 1 < n { Remainder(i + 1, n); }
  }

  lemma Remainder(i: nat, n: nat)
    requires i < n
    ensures i % n == i
  {}

  /** The items between the two indices of a circular array. */
  function Window<T>(d: seq<T>, tail: nat, head: nat): (q: seq<T>)
    requires tail < |d| && head < |d|
    ensures |q| == if tail <= head then head - tail else |d| - tail + head
    ensures forall k :: 0 <= k < |q| ==> q[k] == if tail + k < |d| then d[tail + k] else d[tail + k - |d|]
  {
    if tail <= head then d[tail..head] else d[tail..] + d[..head]
  }

  function Next(i: nat, n: nat): nat { if i + 1 == n then 0 else i + 1 }

  lemma WindowDrops<T>(d: seq<T>, tail: nat, head: nat)
    requires tail < |d| && head < |d| && tail != head
    ensures Window(d, Next(tail, |d|), head) == Window(d, tail, head)[1..]
  {}

  lemma WindowGrows<T>(d: seq<T>, tail: nat, head: nat, x: T)
    requires tail < |d| && head < |d| && Next(head, |d|) != tail
    ensures Window(d[head := x], tail, Next(head, |d|)) == Window(d, tail, head) + [x]
  {}

  class Ringbuffer<T(0)> {
    const data: array<T>
    var head: nat
    var tail: nat

    ghost predicate Valid()
      reads this
    {
      2 <= data.Length && head < data.Length && tail < data.Length
    }

    /** The items kept, oldest first. */
    ghost function Contents(): (q: seq<T>)
      reads this, data
      requires Valid()
      ensures |q| < data.Length
    {
      Window(data[..], tail, head)
    }

    constructor (size: nat)
      requires 2 <= size
      ensures Valid() && fresh(data) && data.Length == size && Contents() == []
    {
      data := new T[size];
      head, tail := 0, 0;
    }

    /** `(i + 1) % Size` */
    method After(i: nat) returns (j: nat)
      requires i < data.Length
      ensures j == Next(i, data.Length)
    {
      Wraps(i, data.Length);
      j := (i + 1) % data.Length;
    }

    method Write(item: T)
      requires Valid()
      modifies this`head, this`tail, data
      ensures Valid() && Contents() == Push(old(Contents()), item, data.Length - 1)
    {
      ghost var d := data[..];
      hide Window;
      var next := After(head);
      if next == tail {
        WindowDrops(d, tail, head);
        tail := After(tail);
      }
      WindowGrows(d, tail, head, item);
      data[head] := item;
      assert data[..] == d[head := item];
      head := next;
    }

    method Read() returns (r: Option<T>)
      requires Valid()
      modifies this`tail
      ensures Valid()
      ensures match r
              case None => old(Contents()) == [] && Contents() == []
              case Some(x) => old(Contents()) == [x] + Contents()
    {
      if head == tail {
        return None;
      }
      WindowDrops(data[..], tail, head);
      var item := data[tail];
      tail := After(tail);
      return Some(item);
    }

    method IsEmpty() returns (b: bool)
      requires Valid()
      ensures b <==> Contents() == []
    {
      b := head == tail;
    }
  }

  // ---- Runs

  datatype Op<T> = WriteOp(x: T) | ReadOp

  /** An item that has left the queue, by being read or by being overwritten. */
  datatype Gone<T> = Gone(item: T, read: bool)

  /** A queue and its history: everything written so far, and everything that left, in order. */
  datatype History<T> = History(contents: seq<T>, written: seq<T>, gone: seq<Gone<T>>)

  function Step<T>(h: History<T>, op: Op<T>, cap: nat): (r: History<T>)
    requires 0 < cap && |h.contents| <= cap
    ensures |r.contents| <= cap
  {
    match op
    case WriteOp(x) =>
      History(Push(h.contents, x, cap), h.written + [x],
              if |h.contents| < cap then h.gone else h.gone + [Gone(h.contents[0], false)])
    case ReadOp =>
      if h.contents == [] then h
      else History(h.contents[1..], h.written, h.gone + [Gone(h.contents[0], true)])
  }

  function Run<T>(h: History<T>, ops: seq<Op<T>>, cap: nat): (r: History<T>)
    requires 0 < cap && |h.contents| <= cap
    ensures |r.contents| <= cap
    decreases |ops|
  {
    if ops == [] then h else Run(Step(h, ops[0], cap), ops[1..], cap)
  }

  function Items<T>(g: seq<Gone<T>>): (s: seq<T>)
    ensures |s| == |g| && forall i :: 0 <= i < |g| ==> s[i] == g[i].item
  {
    seq(|g|, i requires 0 <= i < |g| => g[i].item)
  }

  /** The items that were read, in the order they were. */
  function Reads<T>(g: seq<Gone<T>>): seq<T>
  {
    if g == [] then [] else Reads(g[..|g| - 1]) + (if g[|g| - 1].read then [g[|g| - 1].item] else [])
  }

  /** s can be had from t by leaving items out. */
  predicate Subsequence<T(==)>(s: seq<T>, t: seq<T>)
  {
    if s == [] then true else if t == [] then false
    else if s[|s| - 1] == t[|t| - 1] then Subsequence(s[..|s| - 1], t[..|t| - 1])
    else Subsequence(s, t[..|t| - 1])
  }

  ghost predicate Sound<T>(h: History<T>)
  {
    h.written == Items(h.gone) + h.contents
  }

  /** Over every run: what is kept is the newest part of what was written, and all the rest has left in the order it
      was written, so that nothing is duplicated, reordered or lost from the middle. */
  lemma {:induction false} RunIsFifo<T>(h: History<T>, ops: seq<Op<T>>, cap: nat)
    requires 0 < cap && |h.contents| <= cap && Sound(h)
    ensures Sound(Run(h, ops, cap))
    decreases |ops|
  {
    if ops != [] {
      var n := Step(h, ops[0], cap);
      assert n.written == Items(n.gone) + n.contents;
      RunIsFifo(n, ops[1..], cap);
    }
  }

  lemma {:induction false} ReadsAreItems<T>(g: seq<Gone<T>>)
    ensures Subsequence(Reads(g), Items(g))
  {
    if g != [] {
      var rest := g[..|g| - 1];
      ReadsAreItems(rest);
      assert Items(g) == Items(rest) + [g[|g| - 1].item];
      if g[|g| - 1].read {
        assert Reads(g)[..|Reads(g)| - 1] == Reads(rest);
        assert Items(g)[..|g| - 1] == Items(rest);
      } else {
        assert Reads(g) == Reads(rest);
        DropLast(Reads(rest), Items(rest), g[|g| - 1].item);
      }
    }
  }

  /** A subsequence stays one when the other sequence grows. */
  lemma {:induction false} DropLast<T>(s: seq<T>, t: seq<T>, x: T)
    requires Subsequence(s, t)
    ensures Subsequence(s, t + [x])
    decreases |t|
  {
    assert (t + [x])[..|t|] == t;
    if s != [] && s[|s| - 1] == x {
      if s[|s| - 1] == t[|t| - 1] {
        var t' := t[..|t| - 1];
        DropLast(s[..|s| - 1], t', t[|t| - 1]);
        assert t' + [t[|t| - 1]] == t;
      } else {
        ShorterSubsequence(s, t[..|t| - 1]);
        DropLast(s[..|s| - 1], t[..|t| - 1], t[|t| - 1]);
        assert t[..|t| - 1] + [t[|t| - 1]] == t;
      }
    }
  }

  lemma {:induction false} ShorterSubsequence<T>(s: seq<T>, t: seq<T>)
    requires s != [] && Subsequence(s, t)
    ensures Subsequence(s[..|s| - 1], t)
    decreases |t|
  {
    var t' := t[..|t| - 1];
    assert t == t' + [t[|t| - 1]];
    if s[|s| - 1] != t[|t| - 1] {
      ShorterSubsequence(s, t');
    }
    DropLast(s[..|s| - 1], t', t[|t| - 1]);
  }

  /** What has been read is a subsequence of what has been written; if nothing was overwritten it is all of it but
      what is still kept. */
  lemma ReadsFollowWrites<T>(ops: seq<Op<T>>, cap: nat)
    requires 0 < cap
    ensures var e := Run(History([], [], []), ops, cap);
            && Subsequence(Reads(e.gone), e.written)
            && ((forall i :: 0 <= i < |e.gone| ==> e.gone[i].read) ==> Reads(e.gone) + e.contents == e.written)
  {
    var start: History<T> := History([], [], []);
    assert Sound(start);
    RunIsFifo(start, ops, cap);
    var e := Run(start, ops, cap);
    ReadsAreItems(e.gone);
    Appended(Reads(e.gone), Items(e.gone), e.contents);
    if forall i :: 0 <= i < |e.gone| ==> e.gone[i].read { AllRead(e.gone); }
  }

  lemma {:induction false} Appended<T>(s: seq<T>, t: seq<T>, u: seq<T>)
    requires Subsequence(s, t)
    ensures Subsequence(s, t + u)
    decreases |u|
  {
    if u == [] {
      assert t + u == t;
    } else {
      Appended(s, t, u[..|u| - 1]);
      DropLast(s, t + u[..|u| - 1], u[|u| - 1]);
      assert t + u[..|u| - 1] + [u[|u| - 1]] == t + u;
    }
  }

  lemma {:induction false} AllRead<T>(g: seq<Gone<T>>)
    requires forall i :: 0 <= i < |g| ==> g[i].read
    ensures Reads(g) == Items(g)
  {
    if g != [] {
      AllRead(g[..|g| - 1]);
      assert Items(g) == Items(g[..|g| - 1]) + [g[|g| - 1].item];
    }
  }
}
