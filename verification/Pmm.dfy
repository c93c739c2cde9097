/** The physical page allocator: `Pmm::init`, `inner_alloc`, `alloc`, `calloc`, `free`. */
module Pmms {
  import opened NextFit
  import opened PhysMem
  import Bitmaps

  predicate InRun(s: nat, n: nat, i: nat)
  {
    s <= i < s + n
  }

  /** The n pages from s on. */
  function Run(s: nat, n: nat): (r: set<nat>)
    ensures forall i :: i in r <==> s <= i < s + n
  {
    set i: nat | s <= i < s + n && InRun(s, n, i)
  }

  lemma {:induction false} RunSize(s: nat, n: nat)
    ensures |Run(s, n)| == n
    decreases n
  {
    if n > 0 {
      RunSize(s, n - 1);
      assert Run(s, n) == Run(s, n - 1) + {s + n - 1};
    } else {
      assert Run(s, n) == {};
    }
  }

  /** The pages whose bit is clear. */
  function FreePages(used: seq<bool>): set<nat>
  {
    set i: nat | i < |used| && !used[i]
  }

  /** `used` with the n bits from s on set to v. */
  function Marked(used: seq<bool>, s: nat, n: nat, v: bool): (r: seq<bool>)
    ensures |r| == |used|
    ensures forall i :: 0 <= i < |used| ==> r[i] == if s <= i < s + n then v else used[i]
  {
    seq(|used|, i requires 0 <= i < |used| => if s <= i < s + n then v else used[i])
  }

  /** Marking a free run used takes exactly n pages from the free set; clearing a used run gives exactly n back. */
  lemma MarkedCount(used: seq<bool>, s: nat, n: nat, v: bool)
    requires s + n <= |used| && forall i :: s <= i < s + n ==> used[i] != v
    ensures v ==> FreePages(Marked(used, s, n, v)) == FreePages(used) - Run(s, n) && Run(s, n) <= FreePages(used)
    ensures !v ==> FreePages(Marked(used, s, n, v)) == FreePages(used) + Run(s, n) && Run(s, n) !! FreePages(used)
    ensures |FreePages(Marked(used, s, n, v))| == if v then |FreePages(used)| - n else |FreePages(used)| + n
  {
    RunSize(s, n);
    var after := FreePages(Marked(used, s, n, v));
    if v {
      assert after == FreePages(used) - Run(s, n);
      assert FreePages(used) == after + Run(s, n);
    } else {
      assert after == FreePages(used) + Run(s, n);
    }
  }

  /** Who holds which page: `live` gives each live run its length, `owner` gives each allocated page the run it is
      in, `usable` are the pages the memory map offered. */
  datatype Ledger = Ledger(usable: set<nat>, live: map<nat, nat>, owner: map<nat, nat>)

  /** Every page of s .. s+n is owned by the run at s. */
  ghost predicate Holds(owner: map<nat, nat>, s: nat, n: nat)
  {
    forall i :: s <= i < s + n ==> i in owner && owner[i] == s
  }

  /** Live runs cover exactly the owned pages, each page once, and lie in usable memory. */
  ghost predicate LedgerOk(l: Ledger)
  {
    && 0 !in l.usable
    && (forall s :: s in l.live ==> 0 < l.live[s] && Holds(l.owner, s, l.live[s]))
    && (forall i :: i in l.owner ==> l.owner[i] in l.live && l.owner[i] <= i < l.owner[i] + l.live[l.owner[i]])
    && (forall i :: i in l.owner ==> i in l.usable)
  }

  /** A bit is set exactly when its page is reserved or in a live run. */
  ghost predicate BitsOk(l: Ledger, used: seq<bool>)
  {
    && (forall i :: i in l.usable ==> i < |used|)
    && (forall i :: 0 <= i < |used| ==> (used[i] <==> i !in l.usable || i in l.owner))
  }

  function Granted(l: Ledger, s: nat, n: nat): (g: Ledger)
    ensures g.usable == l.usable && g.live == l.live[s := n]
    ensures forall i :: i in g.owner <==> i in l.owner || s <= i < s + n
    ensures forall i :: i in g.owner ==> g.owner[i] == if s <= i < s + n then s else l.owner[i]
  {
    l.(live := l.live[s := n],
       owner := map i | i in l.owner.Keys + Run(s, n) :: if s <= i < s + n then s else l.owner[i])
  }

  /** Leaving one more page out of account after handing it out. */
  lemma GrantedBeyond(live0: map<nat, nat>, l: Ledger, s: set<nat>, n: nat)
    requires l.live - s == live0 && n !in l.live
    ensures Granted(l, n, 1).live - (s + {n}) == live0
  {
    forall p ensures p in Granted(l, n, 1).live - (s + {n}) <==> p in live0 { assert p in l.live - s <==> p in live0; }
    forall p | p in live0 ensures Granted(l, n, 1).live[p] == live0[p] { assert p in l.live - s; }
  }

  function Returned(l: Ledger, s: nat, n: nat): (r: Ledger)
    ensures r.usable == l.usable && r.live == l.live - {s}
    ensures forall i :: i in r.owner <==> i in l.owner && !(s <= i < s + n)
    ensures forall i :: i in r.owner ==> r.owner[i] == l.owner[i]
  {
    l.(live := l.live - {s}, owner := l.owner - Run(s, n))
  }

  /** No page of the run is in anyone's hands. */
  ghost predicate Unclaimed(l: Ledger, s: nat, n: nat)
  {
    forall i :: s <= i < s + n ==> i !in l.owner && i in l.usable
  }

  lemma FreeRunUnclaimed(l: Ledger, used: seq<bool>, s: nat, n: nat)
    requires BitsOk(l, used) && FreeRun(used, s, n)
    ensures Unclaimed(l, s, n)
  {
    forall i | s <= i < s + n ensures i !in l.owner && i in l.usable { assert !used[i]; }
  }

  lemma ClaimKeepsLedger(l: Ledger, s: nat, n: nat, g: Ledger)
    requires LedgerOk(l) && 0 < n && Unclaimed(l, s, n)
    requires g.usable == l.usable && g.live == l.live[s := n]
    requires forall i :: i in g.owner <==> i in l.owner || s <= i < s + n
    requires forall i :: i in g.owner ==> g.owner[i] == if s <= i < s + n then s else l.owner[i]
    ensures LedgerOk(g) && s !in l.live && 0 < s
  {
    assert s in l.usable && s !in l.owner;
    assert Holds(l.owner, s, if s in l.live then l.live[s] else 0);
    forall t | t in l.live ensures t != s && Holds(g.owner, t, l.live[t]) {
      assert Holds(l.owner, t, l.live[t]);
      forall i | t <= i < t + l.live[t] ensures i in g.owner && g.owner[i] == t { assert l.owner[i] == t; }
    }
  }

  /** Handing out a free run keeps the ledger sound and in step with the bits. */
  lemma GrantedOk(l: Ledger, used: seq<bool>, s: nat, n: nat)
    requires LedgerOk(l) && BitsOk(l, used) && 0 < n && FreeRun(used, s, n)
    ensures LedgerOk(Granted(l, s, n)) && BitsOk(Granted(l, s, n), Marked(used, s, n, true))
    ensures s !in l.live && 0 < s
  {
    FreeRunUnclaimed(l, used, s, n);
    ClaimKeepsLedger(l, s, n, Granted(l, s, n));
  }

  lemma ReleaseKeepsLedger(l: Ledger, s: nat, n: nat, r: Ledger)
    requires LedgerOk(l) && s in l.live && l.live[s] == n
    requires r.usable == l.usable && r.live == l.live - {s}
    requires forall i :: i in r.owner <==> i in l.owner && !(s <= i < s + n)
    requires forall i :: i in r.owner ==> r.owner[i] == l.owner[i]
    ensures LedgerOk(r)
  {
    assert Holds(l.owner, s, n);
    forall t | t in r.live ensures Holds(r.owner, t, l.live[t]) {
      assert Holds(l.owner, t, l.live[t]);
      forall i | t <= i < t + l.live[t] ensures i in r.owner && r.owner[i] == t { assert l.owner[i] == t; }
    }
  }

  /** Taking a live run back keeps the ledger sound and in step with the bits. */
  lemma ReturnedOk(l: Ledger, used: seq<bool>, s: nat, n: nat)
    requires LedgerOk(l) && BitsOk(l, used) && s in l.live && l.live[s] == n
    ensures LedgerOk(Returned(l, s, n)) && BitsOk(Returned(l, s, n), Marked(used, s, n, false))
    ensures s + n <= |used| && forall i :: s <= i < s + n ==> used[i]
  {
    ReleaseKeepsLedger(l, s, n, Returned(l, s, n));
    forall i | s <= i < s + n ensures i in l.owner && i in l.usable && i < |used| {}
    assert s + n - 1 in l.owner;
  }

  /** Two live runs share no page. */
  lemma LiveRunsDisjoint(l: Ledger, s: nat, t: nat)
    requires LedgerOk(l) && s in l.live && t in l.live && s != t
    ensures s + l.live[s] <= t || t + l.live[t] <= s
  {
    assert Holds(l.owner, s, l.live[s]) && Holds(l.owner, t, l.live[t]);
    var i := if s < t then t else s;
    var holder := if i in l.owner then l.owner[i] else 0;
  }

  /** Giving a run back undoes its allocation: the ledger and every bit are as before. */
  lemma ReturnUndoesGrant(l: Ledger, used: seq<bool>, s: nat, n: nat)
    requires LedgerOk(l) && BitsOk(l, used) && 0 < n && FreeRun(used, s, n)
    ensures Returned(Granted(l, s, n), s, n) == l
    ensures Marked(Marked(used, s, n, true), s, n, false) == used
  {
    assert s !in l.live by { GrantedOk(l, used, s, n); }
    assert Unclaimed(l, s, n) by { FreeRunUnclaimed(l, used, s, n); }
    UndoOwner(l, s, n);
    assert Returned(Granted(l, s, n), s, n).live == l.live;
  }

  lemma UndoOwner(l: Ledger, s: nat, n: nat)
    requires Unclaimed(l, s, n)
    ensures Returned(Granted(l, s, n), s, n).owner == l.owner
  {}

  /** The ledger's list of live runs fixes which pages are owned. */
  lemma LiveFixesOwner(l: Ledger, m: Ledger)
    requires LedgerOk(l) && LedgerOk(m) && l.live == m.live
    ensures l.owner == m.owner
  {
    OwnerIncluded(l, m);
    OwnerIncluded(m, l);
  }

  lemma OwnerIncluded(l: Ledger, m: Ledger)
    requires LedgerOk(l) && LedgerOk(m) && l.live == m.live
    ensures forall i :: i in l.owner ==> i in m.owner && m.owner[i] == l.owner[i]
  {
    forall i | i in l.owner ensures i in m.owner && m.owner[i] == l.owner[i] {
      var s := l.owner[i];
      assert Holds(m.owner, s, m.live[s]);
    }
  }

  /** Same live runs over the same usable memory: the same pages are free. */
  lemma LiveFixesFree(l: Ledger, m: Ledger, used: seq<bool>, used': seq<bool>)
    requires LedgerOk(l) && LedgerOk(m) && BitsOk(l, used) && BitsOk(m, used')
    requires l.live == m.live && l.usable == m.usable && |used| == |used'|
    ensures FreePages(used) == FreePages(used')
  {
    LiveFixesOwner(l, m);
  }

  /** A run that was handed out soundly was in nobody's hands. */
  lemma GrantedWasUnclaimed(l: Ledger, s: nat, n: nat)
    requires LedgerOk(l) && LedgerOk(Granted(l, s, n)) && s !in l.live
    ensures Unclaimed(l, s, n)
  {
    var g := Granted(l, s, n);
    forall t | t in l.live ensures Holds(g.owner, t, l.live[t]) { assert g.live[t] == l.live[t]; }
    forall i | s <= i < s + n ensures i !in l.owner && i in l.usable {
      assert i in l.owner ==> Holds(g.owner, l.owner[i], l.live[l.owner[i]]);
      assert i in g.owner && i in g.usable;
    }
  }

  /** Handing out a run takes exactly its pages off the free ones. */
  lemma GrantTakesFree(l: Ledger, used: seq<bool>, s: nat, n: nat, used': seq<bool>)
    requires LedgerOk(l) && LedgerOk(Granted(l, s, n)) && s !in l.live && |used| == |used'|
    requires BitsOk(l, used) && BitsOk(Granted(l, s, n), used')
    ensures Run(s, n) <= FreePages(used) && FreePages(used') == FreePages(used) - Run(s, n)
  {
    GrantedWasUnclaimed(l, s, n);
  }

  datatype State = State(used: seq<bool>, cursor: nat, ledger: Ledger)

  ghost predicate StateOk(st: State)
  {
    LedgerOk(st.ledger) && BitsOk(st.ledger, st.used) && st.cursor <= |st.used|
  }

  /** The run that `alloc(n)` hands out, if any. */
  function ChosenRun(st: State, n: nat): Option<nat>
  {
    if n == 0 then None else Search(st.used, st.cursor, n)
  }

  /** The address that stands for it; 0 is failure. */
  function AddressOf(r: Option<nat>): nat
  {
    if r.Some? then 4096 * r.value else 0
  }

  function AllocStep(st: State, n: nat): State
  {
    if n == 0 then st else
    match ChosenRun(st, n)
    case None => st.(cursor := |st.used|)
    case Some(s) => State(Marked(st.used, s, n, true), s + n, Granted(st.ledger, s, n))
  }

  /** How a caller reads the answer: not 0 is a fresh run the ledger now holds, 0 means the ledger is as it was. */
  ghost predicate AllocAnswer(before: Ledger, after: Ledger, n: nat, addr: nat)
  {
    && addr % 4096 == 0
    && (addr != 0 ==>
          && 0 < n && addr / 4096 !in before.live && addr / 4096 !in before.owner
          && after == Granted(before, addr / 4096, n))
    && (addr == 0 ==> after == before)
  }

  lemma AllocStepAnswers(st: State, n: nat)
    requires StateOk(st)
    ensures StateOk(AllocStep(st, n)) && |AllocStep(st, n).used| == |st.used|
    ensures AllocAnswer(st.ledger, AllocStep(st, n).ledger, n, AddressOf(ChosenRun(st, n)))
    ensures AddressOf(ChosenRun(st, n)) == 0 <==> ChosenRun(st, n).None?
  {
    hide LedgerOk, BitsOk;
    StepKeepsState(st, AllocOp(n));
    if ChosenRun(st, n).Some? { ChosenRunFresh(st, n); }
  }

  lemma ChosenRunFresh(st: State, n: nat)
    requires StateOk(st) && ChosenRun(st, n).Some?
    ensures 0 < ChosenRun(st, n).value && ChosenRun(st, n).value !in st.ledger.live
    ensures ChosenRun(st, n).value !in st.ledger.owner
  {
    SearchComplete(st.used, st.cursor, n);
    assert !st.used[ChosenRun(st, n).value];
    GrantedOk(st.ledger, st.used, ChosenRun(st, n).value, n);
  }

  lemma AllocStepUsable(st: State, n: nat)
    ensures AllocStep(st, n).ledger.usable == st.ledger.usable
  {}

  lemma PageZeroUsed(st: State)
    requires StateOk(st)
    ensures |st.used| > 0 ==> st.used[0]
  {}

  /** An allocation only takes pages off the free set, and exactly as many as it was asked for. */
  lemma AllocTakes(st: State, n: nat)
    ensures FreePages(AllocStep(st, n).used) <= FreePages(st.used)
    ensures ChosenRun(st, n).Some? ==> |FreePages(AllocStep(st, n).used)| == |FreePages(st.used)| - n
  {
    if ChosenRun(st, n).Some? {
      SearchComplete(st.used, st.cursor, n);
      MarkedCount(st.used, ChosenRun(st, n).value, n, true);
    }
  }

  /** When not even one page can be had, none is free. */
  lemma NoRunMeansNoPage(st: State)
    ensures ChosenRun(st, 1).None? ==> FreePages(st.used) == {} && FreePages(AllocStep(st, 1).used) == {}
  {
    if i :| i in FreePages(st.used) { OnePageSearch(st.used, st.cursor, i); }
  }

  function FreeStep(st: State, s: nat, n: nat): State
  {
    State(Marked(st.used, s, n, false), st.cursor, Returned(st.ledger, s, n))
  }

  /** One call of the allocator; a free names a run that is live. */
  datatype Op = AllocOp(n: nat) | FreeOp(s: nat)

  function Step(st: State, op: Op): State
  {
    match op
    case AllocOp(n) => AllocStep(st, n)
    case FreeOp(s) => if s in st.ledger.live then FreeStep(st, s, st.ledger.live[s]) else st
  }

  function Steps(st: State, ops: seq<Op>): State
    decreases |ops|
  {
    if ops == [] then st else Steps(Step(st, ops[0]), ops[1..])
  }

  lemma StepKeepsState(st: State, op: Op)
    requires StateOk(st)
    ensures StateOk(Step(st, op)) && Step(st, op).ledger.usable == st.ledger.usable && |Step(st, op).used| == |st.used|
  {
    match op {
      case AllocOp(n) =>
        if n > 0 && Search(st.used, st.cursor, n).Some? {
          var s := Search(st.used, st.cursor, n).value;
          SearchComplete(st.used, st.cursor, n);
          GrantedOk(st.ledger, st.used, s, n);
        }
      case FreeOp(s) =>
        if s in st.ledger.live { ReturnedOk(st.ledger, st.used, s, st.ledger.live[s]); }
    }
  }

  /** Live runs are disjoint, and every usable page is either free or in exactly one live run. */
  ghost predicate Conserved(st: State)
  {
    && FreePages(st.used) + st.ledger.owner.Keys == st.ledger.usable
    && FreePages(st.used) !! st.ledger.owner.Keys
    && forall s, t :: s in st.ledger.live && t in st.ledger.live && s != t ==> Apart(st.ledger.live, s, t)
  }

  ghost predicate Apart(live: map<nat, nat>, s: nat, t: nat)
    requires s in live && t in live
  {
    s + live[s] <= t || t + live[t] <= s
  }

  lemma StateConserves(st: State)
    requires StateOk(st)
    ensures Conserved(st)
  {
    forall s, t | s in st.ledger.live && t in st.ledger.live && s != t ensures Apart(st.ledger.live, s, t) {
      LiveRunsDisjoint(st.ledger, s, t);
    }
    var free := FreePages(st.used);
    forall i: nat ensures i in free + st.ledger.owner.Keys <==> i in st.ledger.usable {}
  }

  /** In every state reachable by allocations and frees nothing is lost and nothing is handed out twice. */
  lemma {:induction false} RunsConserve(st: State, ops: seq<Op>)
    requires StateOk(st)
    ensures StateOk(Steps(st, ops)) && Steps(st, ops).ledger.usable == st.ledger.usable && Conserved(Steps(st, ops))
    decreases |ops|
  {
    if ops == [] {
      StateConserves(st);
    } else {
      StepKeepsState(st, ops[0]);
      RunsConserve(Step(st, ops[0]), ops[1..]);
    }
  }

  /** An allocation takes exactly the pages asked for off the free count, and its free puts them back. */
  lemma AllocThenFree(st: State, n: nat)
    requires StateOk(st) && ChosenRun(st, n).Some?
    ensures var s := ChosenRun(st, n).value; var mid := AllocStep(st, n);
            && |FreePages(mid.used)| == |FreePages(st.used)| - n
            && mid.ledger.live == st.ledger.live[s := n] && s !in st.ledger.live
            && FreeStep(mid, s, n) == st.(cursor := mid.cursor)
  {
    var s := ChosenRun(st, n).value;
    SearchComplete(st.used, st.cursor, n);
    GrantedOk(st.ledger, st.used, s, n);
    MarkedCount(st.used, s, n, true);
    ReturnUndoesGrant(st.ledger, st.used, s, n);
  }

  /** A run of m pages fits somewhere at or after page `from`. */
  ghost predicate FitsFrom(used: seq<bool>, from: nat, m: nat)
  {
    exists v: nat :: from <= v && FreeRun(used, v, m)
  }

  /** Next fit, over an allocation, a free of any live run and another allocation: the second run is the first that fits
      behind the first one, so that what was freed in front is not used again while anything fits behind; only when
      nothing does is it the first that fits at all. */
  lemma SecondRunIsBehind(st: State, n: nat, t: nat, m: nat)
    requires StateOk(st) && ChosenRun(st, n).Some? && 0 < m && t in AllocStep(st, n).ledger.live
    ensures var s := ChosenRun(st, n).value; var mid := AllocStep(st, n);
            var end := FreeStep(mid, t, mid.ledger.live[t]);
            var u := ChosenRun(end, m);
            && (u.Some? <==> FitsFrom(end.used, 0, m))
            && (u.Some? ==>
                  && FreeRun(end.used, u.value, m)
                  && (FitsFrom(end.used, s + n, m) ==> s + n <= u.value)
                  && forall v: nat :: FreeRun(end.used, v, m) && (s + n <= v || !FitsFrom(end.used, s + n, m)) ==>
                                      u.value <= v)
  {
    var mid := AllocStep(st, n);
    var end := FreeStep(mid, t, mid.ledger.live[t]);
    hide AllocStep, FreeStep, StateOk, Marked;
    SearchIsNextFit(end.used, ChosenRun(st, n).value + n, m);
  }

  lemma SearchIsNextFit(used: seq<bool>, cursor: nat, m: nat)
    ensures var u := Search(used, cursor, m);
            && (u.Some? <==> FitsFrom(used, 0, m))
            && (u.Some? ==>
                  && FreeRun(used, u.value, m)
                  && (FitsFrom(used, cursor, m) ==> cursor <= u.value)
                  && forall v: nat :: FreeRun(used, v, m) && (cursor <= v || !FitsFrom(used, cursor, m)) ==>
                                      u.value <= v)
  {
    var first, again := FirstRun(used, cursor, m), FirstRun(used, 0, m);
    SearchComplete(used, cursor, m);
  }

  /** One entry of the bootloader's memory map. */
  datatype Entry = Entry(base: nat, length: nat, usable: bool)

  function Highest(es: seq<Entry>): (h: nat)
    ensures forall e :: e in es && e.usable ==> e.base + e.length <= h
    ensures h == 0 || exists e :: e in es && e.usable && e.base + e.length == h
  {
    if es == [] then 0 else
    var rest := Highest(es[..|es| - 1]);
    var e := es[|es| - 1];
    assert es == es[..|es| - 1] + [e];
    if e.usable && rest < e.base + e.length then e.base + e.length else rest
  }

  function EntryPages(e: Entry): set<nat>
  {
    if e.usable then Run(e.base / 4096, e.length / 4096) else {}
  }

  function UsablePages(es: seq<Entry>): set<nat>
  {
    if es == [] then {} else UsablePages(es[..|es| - 1]) + EntryPages(es[|es| - 1])
  }

  /** Some usable entry contains page p, byte for byte of its address. */
  ghost predicate InUsable(es: seq<Entry>, p: nat)
  {
    exists k :: 0 <= k < |es| && InEntry(es[k], p)
  }

  predicate InEntry(e: Entry, p: nat)
  {
    e.usable && e.base <= 4096 * p < e.base + e.length
  }

  /** The usable pages are those that lie in some usable entry. */
  lemma {:induction false} UsableExactly(es: seq<Entry>, p: nat)
    requires forall k :: 0 <= k < |es| && es[k].usable ==> es[k].base % 4096 == 0 && es[k].length % 4096 == 0
    ensures p in UsablePages(es) <==> InUsable(es, p)
  {
    if es != [] {
      var rest, last := es[..|es| - 1], es[|es| - 1];
      UsableExactly(rest, p);
      InEntryPages(last, p);
      if InUsable(rest, p) {
        var k :| 0 <= k < |rest| && InEntry(rest[k], p);
        assert es[k] == rest[k];
      }
      if InUsable(es, p) && !InEntry(last, p) {
        var k :| 0 <= k < |es| && InEntry(es[k], p);
        assert rest[k] == es[k];
      }
    }
  }

  lemma InEntryPages(e: Entry, p: nat)
    requires e.usable ==> e.base % 4096 == 0 && e.length % 4096 == 0
    ensures p in EntryPages(e) <==> InEntry(e, p)
  {}

  function AlignUp(n: nat): (r: nat)
    ensures r % 4096 == 0 && n <= r < n + 4096
  {
    (n + 4096 - 1) / 4096 * 4096
  }

  /** Bytes of bitmap that `init` makes for a memory map. */
  function BitmapSize(es: seq<Entry>): nat
  {
    AlignUp(Highest(es) / 4096 / 8)
  }

  /** The bytes of an entry that `init` makes pages of all lie below `top`. */
  predicate EndsBelow(e: Entry, top: nat)
  {
    e.usable && e.length > 0 ==> e.base + e.length <= top
  }

  /** The map as `init` leaves it: the bitmap taken out of its entry. */
  function Remaining(es: seq<Entry>): (after: seq<Entry>)
    ensures |after| == |es|
  {
    var size := BitmapSize(es);
    var h := HomeEntry(es, size);
    if h < |es| then es[h := Shrunk(es[h], size)] else es
  }

  /** Every page that `init` clears the bit of has a bit. */
  ghost predicate Covered(es: seq<Entry>)
  {
    forall e :: e in Remaining(es) ==> EndsBelow(e, 8 * BitmapSize(es) * 4096)
  }

  /** What the bootloader guarantees of its map (usable entries are page-aligned and apart) and what the allocator
      needs of it: page 0 is not usable, the bitmap is large enough (see CoveredExactly), some usable entry has room
      for it. */
  ghost predicate GoodMap(es: seq<Entry>, pages: nat)
  {
    && (forall k :: 0 <= k < |es| && es[k].usable ==>
          es[k].base % 4096 == 0 && es[k].length % 4096 == 0 && 4096 <= es[k].base)
    && (forall j, k :: 0 <= j < k < |es| && es[j].usable && es[k].usable ==>
          es[j].base + es[j].length <= es[k].base || es[k].base + es[k].length <= es[j].base)
    && Covered(es)
    && Highest(es) <= 4096 * pages
    && (exists k :: 0 <= k < |es| && Fits(es[k], BitmapSize(es)))
  }

  predicate Fits(e: Entry, size: nat)
  {
    e.usable && size <= e.length
  }

  /** The entry `init` puts the bitmap in: the first that fits. */
  function HomeEntry(es: seq<Entry>, size: nat): (k: nat)
    ensures k <= |es| && (k < |es| ==> Fits(es[k], size))
    ensures forall j :: 0 <= j < k ==> !Fits(es[j], size)
  {
    if es == [] || Fits(es[0], size) then 0 else 1 + HomeEntry(es[1..], size)
  }

  function Shrunk(e: Entry, size: nat): Entry
    requires size <= e.length
  {
    Entry(e.base + size, e.length - size, e.usable)
  }

  lemma ShrunkEntryPages(e: Entry, size: nat)
    requires Fits(e, size) && e.base % 4096 == 0 && size % 4096 == 0
    ensures EntryPages(Shrunk(e, size)) == EntryPages(e) - Run(e.base / 4096, size / 4096)
  {}

  lemma EntriesApart(d: Entry, e: Entry, size: nat)
    requires d.usable && Fits(e, size) && d.base % 4096 == 0 && e.base % 4096 == 0
    requires d.base + d.length <= e.base || e.base + e.length <= d.base
    ensures EntryPages(d) !! Run(e.base / 4096, size / 4096)
  {}

  /** Taking the bitmap out of its entry takes exactly the bitmap's own pages out of the usable ones. */
  lemma ShrunkPages(es: seq<Entry>, h: nat, size: nat, pages: nat)
    requires GoodMap(es, pages) && size % 4096 == 0 && h < |es| && Fits(es[h], size)
    ensures UsablePages(es[h := Shrunk(es[h], size)]) == UsablePages(es) - Run(es[h].base / 4096, size / 4096)
  {
    var after := es[h := Shrunk(es[h], size)];
    var own := Run(es[h].base / 4096, size / 4096);
    forall k | 0 <= k < |es| ensures EntryPages(after[k]) == EntryPages(es[k]) - own {
      if k == h {
        ShrunkEntryPages(es[h], size);
      } else if es[k].usable {
        EntriesApart(es[k], es[h], size);
      }
    }
    ShrunkUnion(es, after, own);
  }

  lemma {:induction false} ShrunkUnion(es: seq<Entry>, after: seq<Entry>, own: set<nat>)
    requires |after| == |es| && forall k :: 0 <= k < |es| ==> EntryPages(after[k]) == EntryPages(es[k]) - own
    ensures UsablePages(after) == UsablePages(es) - own
  {
    if es != [] { ShrunkUnion(es[..|es| - 1], after[..|es| - 1], own); }
  }

  lemma {:induction false} UsablePagesBelow(es: seq<Entry>, top: nat)
    requires Clearable(es, top)
    ensures forall p :: p in UsablePages(es) ==> 0 < p < top / 4096
  {
    if es != [] {
      UsablePagesBelow(es[..|es| - 1], top);
      var e := es[|es| - 1];
      if e.usable { assert (e.base + e.length) / 4096 == e.base / 4096 + e.length / 4096; }
    }
  }

  /** Every usable entry is whole pages, above page 0 and below `top`. */
  ghost predicate Clearable(es: seq<Entry>, top: nat)
  {
    forall k :: 0 <= k < |es| && es[k].usable ==>
      es[k].base % 4096 == 0 && es[k].length % 4096 == 0 && 4096 <= es[k].base && EndsBelow(es[k], top)
  }

  lemma InitFacts(es: seq<Entry>, pages: nat, h: nat, size: nat, after: seq<Entry>)
    requires GoodMap(es, pages) && size == BitmapSize(es)
    requires h == HomeEntry(es, size) < |es| && after == es[h := Shrunk(es[h], size)]
    ensures Clearable(after, 8 * size * 4096)
    ensures UsablePages(after) == UsablePages(es) - Run(es[h].base / 4096, size / 4096)
    ensures forall p :: p in UsablePages(after) ==> 0 < p < 8 * size && p < pages
  {
    ShrunkPages(es, h, size, pages);
    ShrunkClearable(es, Highest(es), h, size, after);
    UsablePagesBelow(after, Highest(es));
    assert after == Remaining(es);
    forall k | 0 <= k < |after| ensures EndsBelow(after[k], 8 * size * 4096) { assert after[k] in Remaining(es); }
    assert Clearable(after, 8 * size * 4096);
    UsablePagesBelow(after, 8 * size * 4096);
  }

  lemma ShrunkClearable(es: seq<Entry>, top: nat, h: nat, size: nat, after: seq<Entry>)
    requires Clearable(es, top) && size % 4096 == 0
    requires h < |es| && Fits(es[h], size) && after == es[h := Shrunk(es[h], size)]
    ensures Clearable(after, top)
  {
    forall k | 0 <= k < |after| && after[k].usable
      ensures after[k].base % 4096 == 0 && after[k].length % 4096 == 0
      ensures 4096 <= after[k].base && EndsBelow(after[k], top)
    {
      assert es[k].usable && es[k].base % 4096 == 0 && es[k].length % 4096 == 0;
    }
  }

  /** When the bitmap has a bit for every page below the highest address: rounding the page count down to whole bytes
      costs pages only when there is a rest and the bytes fill whole pages. */
  lemma BitmapCovers(es: seq<Entry>)
    requires Highest(es) % 4096 == 0
    ensures var pages := Highest(es) / 4096;
            Highest(es) <= 8 * BitmapSize(es) * 4096 <==> pages % 8 == 0 || pages / 8 % 4096 != 0
  {
    var pages := Highest(es) / 4096;
    var bytes := pages / 8;
    assert AlignUp(bytes) == if bytes % 4096 == 0 then bytes else bytes / 4096 * 4096 + 4096;
  }

  /** The one thing above the last page that has a bit is the bitmap itself: every usable entry that ends there is the
      entry the bitmap is put in, and the bitmap fills it. */
  predicate OnlyBitmapAbove(es: seq<Entry>)
  {
    var size := BitmapSize(es);
    forall k :: 0 <= k < |es| && !EndsBelow(es[k], 8 * size * 4096) ==>
      k == HomeEntry(es, size) && es[k].length == size
  }

  /** `init` stays inside its bitmap if and only if the page count is a multiple of 8, or does not come to whole pages
      of bitmap, or all that lies past the last bit is the bitmap itself. */
  lemma CoveredExactly(es: seq<Entry>)
    requires Highest(es) % 4096 == 0 && HomeEntry(es, BitmapSize(es)) < |es|
    ensures var pages := Highest(es) / 4096;
            Covered(es) <==> pages % 8 == 0 || pages / 8 % 4096 != 0 || OnlyBitmapAbove(es)
  {
    BitmapCovers(es);
    CoveredWhen(es);
  }

  lemma CoveredWhen(es: seq<Entry>)
    requires HomeEntry(es, BitmapSize(es)) < |es|
    ensures Covered(es) <==> Highest(es) <= 8 * BitmapSize(es) * 4096 || OnlyBitmapAbove(es)
  {
    hide Highest, HomeEntry, BitmapSize, Remaining;
    var limit := 8 * BitmapSize(es) * 4096;
    var after := Remaining(es);
    if Covered(es) {
      forall k | 0 <= k < |es| && !EndsBelow(es[k], limit)
        ensures k == HomeEntry(es, BitmapSize(es)) && es[k].length == BitmapSize(es)
      {
        RemainingEnd(es, k);
        assert after[k] in after && EndsBelow(after[k], limit);
      }
    }
    if OnlyBitmapAbove(es) || Highest(es) <= limit {
      forall e | e in after ensures EndsBelow(e, limit) {
        var k :| 0 <= k < |after| && after[k] == e;
        RemainingEnd(es, k);
        var before := EndsBelow(es[k], limit);
      }
    }
  }

  /** Taking the bitmap out of its entry leaves every entry's end where it was, at or below the highest address. */
  lemma RemainingEnd(es: seq<Entry>, k: nat)
    requires HomeEntry(es, BitmapSize(es)) < |es| && k < |es|
    ensures var e := Remaining(es)[k];
            && e.usable == es[k].usable && e.base + e.length == es[k].base + es[k].length
            && e.length + (if k == HomeEntry(es, BitmapSize(es)) then BitmapSize(es) else 0) == es[k].length
            && (e.usable ==> e.base + e.length <= Highest(es))
  {
    hide BitmapSize;
    assert es[k] in es;
  }

  /** A map on which `init` writes past its bitmap: 32769 pages, for which it makes 32768 bits. */
  lemma BitmapTooSmall() returns (es: seq<Entry>)
    ensures Highest(es) == 0x800_1000 && 8 * BitmapSize(es) == 32768
    ensures 32768 in UsablePages(Remaining(es)) && !Covered(es)
  {
    var e := Entry(0x1000, 0x800_0000, true);
    es := [e];
    assert es[..0] == [] && Highest(es[..0]) == 0;
    assert Remaining(es) == [Shrunk(e, 4096)];
    assert Remaining(es)[..0] == [] && UsablePages([]) == {};
    assert Shrunk(e, 4096) in Remaining(es);
    assert !EndsBelow(Shrunk(e, 4096), 0x800_0000);
  }

  /** With the bitmap taken out of entry `home`, every usable page has a bit and a frame. */
  ghost predicate Placed(es: seq<Entry>, home: nat, size: nat, pages: nat)
    requires home < |es| && Fits(es[home], size)
  {
    var after := es[home := Shrunk(es[home], size)];
    && Clearable(after, 8 * size * 4096)
    && UsablePages(after) == UsablePages(es) - Run(es[home].base / 4096, size / 4096)
    && forall p :: p in UsablePages(after) ==> 0 < p < 8 * size && p < pages
  }

  lemma FreshLedgerOk(usable: set<nat>, used: seq<bool>)
    requires FreePages(used) == usable && 0 !in usable
    ensures LedgerOk(Ledger(usable, map[], map[])) && BitsOk(Ledger(usable, map[], map[]), used)
  {
    forall i | 0 <= i < |used| ensures used[i] <==> i !in usable { assert i in FreePages(used) <==> !used[i]; }
  }

  /** The first loop of `init`: the highest usable address. */
  method FindHighest(entries: array<Entry>) returns (highest: nat)
    ensures highest == Highest(entries[..])
    ensures forall e :: e in entries[..] && e.usable ==> e.base + e.length <= highest
    ensures highest == 0 || exists e :: e in entries[..] && e.usable && e.base + e.length == highest
  {
    highest := 0;
    for i := 0 to entries.Length
      invariant highest == Highest(entries[..i])
    {
      assert entries[..i + 1][..i] == entries[..i];
      if entries[i].usable && highest < entries[i].base + entries[i].length {
        highest := entries[i].base + entries[i].length;
      }
    }
    assert entries[..entries.Length] == entries[..];
  }

  /** The second loop of `init`: the first entry with room for the bitmap. */
  method FindHome(entries: array<Entry>, size: nat) returns (home: nat)
    requires exists k :: 0 <= k < entries.Length && Fits(entries[k], size)
    ensures home == HomeEntry(entries[..], size) && home < entries.Length
  {
    home := 0;
    ghost var k :| 0 <= k < entries.Length && Fits(entries[k], size);
    while !Fits(entries[home], size)
      invariant home <= k && forall j :: 0 <= j < home ==> !Fits(entries[j], size)
      decreases k - home
    {
      home := home + 1;
    }
    HomeEntryIs(entries[..], size, home);
  }

  /** What `init` works out before it writes anything: the bitmap's size in bytes and the entry to put it in. */
  method Plan(entries: array<Entry>, ghost pages: nat) returns (size: nat, home: nat)
    requires GoodMap(entries[..], pages)
    ensures size == BitmapSize(entries[..]) && home == HomeEntry(entries[..], size)
    ensures home < entries.Length && Fits(entries[home], size)
    ensures Placed(entries[..], home, size, pages)
  {
    hide GoodMap, Placed, UsablePages, Highest, AlignUp, HomeEntry;
    GoodPlace(entries[..], pages);
    var highest := FindHighest(entries);
    size := AlignUp(highest / 4096 / 8);
    home := FindHome(entries, size);
  }

  /** Usable pages less those of the bitmap, by address. */
  lemma FreeExactly(es: seq<Entry>, pages: nat, home: nat, size: nat, p: nat)
    requires GoodMap(es, pages) && size == BitmapSize(es) && home < |es| && Fits(es[home], size)
    ensures p in UsablePages(es) - Run(es[home].base / 4096, size / 4096) <==>
            InUsable(es, p) && !(es[home].base <= 4096 * p < es[home].base + size)
  {
    hide UsablePages, InUsable, Covered, Highest;
    UsableExactly(es, p);
    assert size % 4096 == 0;
  }

  lemma GoodPlace(es: seq<Entry>, pages: nat)
    requires GoodMap(es, pages)
    ensures var size := BitmapSize(es); var home := HomeEntry(es, size);
            home < |es| && Fits(es[home], size) && Placed(es, home, size, pages)
  {
    hide Covered, Clearable, UsablePages, Highest;
    var size := BitmapSize(es);
    var k :| 0 <= k < |es| && Fits(es[k], size);
    var home := HomeEntry(es, size);
    InitFacts(es, pages, home, size, es[home := Shrunk(es[home], size)]);
  }

  lemma HomeEntryIs(es: seq<Entry>, size: nat, k: nat)
    requires k < |es| && Fits(es[k], size) && forall j :: 0 <= j < k ==> !Fits(es[j], size)
    ensures HomeEntry(es, size) == k
  {
    var h := HomeEntry(es, size);
  }

  /** A run that was granted lies in memory if usable pages do. */
  lemma GrantedBelow(l: Ledger, g: Ledger, s: nat, n: nat, frames: nat)
    requires 0 < n && g == Granted(l, s, n) && LedgerOk(g) && forall i :: i in g.usable ==> i < frames
    ensures s + n <= frames
  {
    assert s + n - 1 in g.owner;
  }

  lemma NoPages(s: nat)
    ensures Run(s, 0) == {}
  {}

  lemma PageOf(base: nat, k: nat)
    requires base % 4096 == 0
    ensures (base + 4096 * k) / 4096 == base / 4096 + k
  {}

  lemma PageInEntry(e: Entry, k: nat, limit: nat)
    requires e.usable && e.base % 4096 == 0 && e.length % 4096 == 0 && EndsBelow(e, limit * 4096) && 4096 * k < e.length
    ensures (e.base + 4096 * k) / 4096 == e.base / 4096 + k < limit && 4096 * (k + 1) <= e.length
  {
    PageOf(e.base, k);
  }

  lemma OneMoreFree(used: seq<bool>, s: nat, k: nat)
    requires s + k < |used|
    ensures FreePages(used[s + k := false]) == FreePages(used) + {s + k}
    ensures Run(s, k + 1) == Run(s, k) + {s + k}
  {}

  class Pmm {
    const bitmap: Bitmaps.Bitmap
    const ram: Ram
    /** How many bits the searches may read. */
    const limit: nat
    var lastPageIdx: nat
    ghost var ledger: Ledger

    /** `Pmm::init`: afterwards the clear bits are exactly the usable pages less the bitmap's own, and nothing is
        allocated. */
    constructor (entries: array<Entry>, ram: Ram)
      requires GoodMap(entries[..], |ram.frames|)
      modifies entries
      ensures Valid() && fresh(bitmap) && fresh(bitmap.data) && this.ram == ram
      ensures ledger.live == map[] && Free() == ledger.usable
      ensures var es := old(entries[..]); var size := BitmapSize(es);
              Free() == UsablePages(es) - Run(es[HomeEntry(es, size)].base / 4096, size / 4096)
      ensures var es := old(entries[..]); var size := BitmapSize(es); var bitmapAt := es[HomeEntry(es, size)].base;
              forall p: nat :: p in Free() <==> InUsable(es, p) && !(bitmapAt <= 4096 * p < bitmapAt + size)
    {
      hide GoodMap, Covered, Placed, Fits, HomeEntry, LedgerOk, BitsOk, Clearable, UsablePages;
      ghost var es := entries[..];
      var size, home := Plan(entries, |ram.frames|);
      var b := new Bitmaps.Bitmap(size);
      this.bitmap := b;
      this.ram := ram;
      this.limit := 8 * size;
      this.lastPageIdx := 0;
      this.ledger := Ledger({}, map[], map[]);
      new;
      assert entries[..] == es;
      Populate(entries, home, size);
      forall p: nat
        ensures p in Free() <==> InUsable(es, p) && !(es[home].base <= 4096 * p < es[home].base + size)
      {
        FreeExactly(es, |ram.frames|, home, size, p);
      }
    }

    /** The rest of `init`: takes the bitmap out of its entry and clears the bits of the usable pages. */
    method Populate(entries: array<Entry>, home: nat, size: nat)
      requires home < entries.Length && Fits(entries[home], size) && Placed(entries[..], home, size, |ram.frames|)
      requires bitmap.data.Length == size && limit == 8 * size && lastPageIdx == 0
      requires (forall i :: 0 <= i < limit ==> bitmap.Bits()[i]) && entries as object != bitmap.data
      modifies this, entries, bitmap.data
      ensures Valid() && lastPageIdx == 0 && ledger.live == map[] && Free() == ledger.usable
      ensures Free() == UsablePages(old(entries[..])) - Run(old(entries[home].base) / 4096, size / 4096)
    {
      ghost var after := entries[..][home := Shrunk(entries[home], size)];
      entries[home] := Shrunk(entries[home], size);
      assert entries[..] == after;
      assert FreePages(bitmap.Bits()) == {};
      ClearEntries(entries);
      ledger := Ledger(UsablePages(after), map[], map[]);
      FreshLedgerOk(UsablePages(after), bitmap.Bits());
      assert bitmap.Bits()[..limit] == bitmap.Bits();
    }

    ghost predicate Valid()
      reads this, ram, bitmap, bitmap.data
    {
      && limit <= 8 * bitmap.data.Length
      && lastPageIdx <= limit
      && LedgerOk(ledger)
      && BitsOk(ledger, Used())
      && (forall i :: i in ledger.usable ==> i < |ram.frames|)
    }

    ghost function Used(): (u: seq<bool>)
      reads this, bitmap, bitmap.data
      requires limit <= 8 * bitmap.data.Length
    {
      bitmap.Bits()[..limit]
    }

    ghost function Free(): set<nat>
      reads this, bitmap, bitmap.data
      requires limit <= 8 * bitmap.data.Length
    {
      FreePages(Used())
    }

    /** One pass of the search, from the cursor up to `bound`. */
    method InnerAlloc(pages: nat, bound: nat) returns (addr: nat)
      requires limit <= 8 * bitmap.data.Length && lastPageIdx <= bound <= limit
      requires 0 < pages
      modifies this`lastPageIdx, bitmap.data
      ensures match FirstRun(old(Used())[..bound], old(lastPageIdx), pages)
              case None => addr == 0 && lastPageIdx == bound && Used() == old(Used())
              case Some(s) => addr == s * 4096 && lastPageIdx == s + pages && s + pages <= bound
                              && Used() == Marked(old(Used()), s, pages, true)
    {
      var acc := 0;
      ghost var start := lastPageIdx;
      ghost var used := Used()[..bound];
      while lastPageIdx < bound
        invariant start + acc <= lastPageIdx <= bound && acc < pages && Used() == old(Used())
        invariant forall k :: lastPageIdx - acc <= k < lastPageIdx ==> !used[k]
        invariant NoRun(used, start, lastPageIdx - acc, pages)
        decreases bound - lastPageIdx
      {
        var taken := bitmap.Get(lastPageIdx);
        assert taken == used[lastPageIdx];
        lastPageIdx := lastPageIdx + 1;
        if !taken {
          acc := acc + 1;
          if acc == pages {
            var page := lastPageIdx - pages;
            FirstRunIs(used, start, page, pages);
            Mark(page, pages, true);
            return page * 4096;
          }
        } else {
          NoRunAcross(used, start, lastPageIdx - 1, acc, pages);
          acc := 0;
        }
      }
      FirstRunNone(used, start, acc, pages);
      return 0;
    }

    /** The allocator's state as a value. */
    ghost function View(): State
      reads this, bitmap, bitmap.data
      requires limit <= 8 * bitmap.data.Length
    {
      State(Used(), lastPageIdx, ledger)
    }

    /** `Pmm::alloc`: fails exactly when no run of that many free pages exists (see SearchComplete). */
    method Alloc(pages: nat) returns (addr: nat)
      requires Valid()
      modifies this`lastPageIdx, this`ledger, bitmap.data
      ensures Valid() && View() == AllocStep(old(View()), pages)
      ensures addr == AddressOf(ChosenRun(old(View()), pages))
      ensures addr == 0 <==> ChosenRun(old(View()), pages).None?
      ensures AllocAnswer(old(ledger), ledger, pages, addr)
    {
      hide LedgerOk, BitsOk, AllocAnswer, FreePages, Marked, Granted;
      PageZeroUsed(View());
      AllocStepAnswers(View(), pages);
      AllocStepUsable(View(), pages);
      if pages == 0 { return 0; }
      ghost var after := AllocStep(View(), pages).ledger;
      addr := TwoPasses(pages);
      ledger := after;
    }

    /** The body of `alloc`: from the cursor on, and if that finds nothing again from page 0. */
    method TwoPasses(pages: nat) returns (addr: nat)
      requires limit <= 8 * bitmap.data.Length && lastPageIdx <= limit && 0 < pages
      requires limit > 0 ==> Used()[0]
      modifies this`lastPageIdx, bitmap.data
      ensures var st := AllocStep(old(View()), pages); Used() == st.used && lastPageIdx == st.cursor <= limit
      ensures addr == AddressOf(ChosenRun(old(View()), pages))
    {
      ghost var used := Used();
      assert used[..limit] == used;
      addr := InnerAlloc(pages, limit);
      if addr == 0 {
        FirstRunNotZero(used, old(lastPageIdx), pages);
        var last := lastPageIdx;
        lastPageIdx := 0;
        assert Used()[..last] == used;
        addr := InnerAlloc(pages, last);
      }
    }

    /** `Pmm::calloc`: as `alloc`, and the pages handed out read zero; no other page changes. */
    method Calloc(pages: nat) returns (addr: nat)
      requires Valid()
      modifies this`lastPageIdx, this`ledger, bitmap.data, ram
      ensures Valid() && View() == AllocStep(old(View()), pages)
      ensures addr == AddressOf(ChosenRun(old(View()), pages))
      ensures addr == 0 <==> ChosenRun(old(View()), pages).None?
      ensures AllocAnswer(old(ledger), ledger, pages, addr)
      ensures addr == 0 ==> ram.frames == old(ram.frames)
      ensures addr != 0 ==> addr / 4096 + pages <= |ram.frames|
                            && ram.frames == Zeroed(old(ram.frames), addr / 4096, pages)
    {
      hide LedgerOk, BitsOk, AllocStep, ChosenRun, FreePages;
      addr := Alloc(pages);
      if addr != 0 {
        GrantedBelow(old(ledger), ledger, addr / 4096, pages, |ram.frames|);
        ram.ClearPages(addr / 4096, pages);
      }
    }

    /** `Pmm::free` of a live run. */
    method FreeRunAt(addr: nat, pages: nat)
      requires Valid() && addr / 4096 in ledger.live && ledger.live[addr / 4096] == pages
      modifies this`ledger, bitmap.data
      ensures Valid() && View() == FreeStep(old(View()), addr / 4096, pages)
      ensures ledger == Returned(old(ledger), addr / 4096, pages)
    {
      var page := addr / 4096;
      ReturnedOk(ledger, Used(), page, pages);
      Mark(page, pages, false);
      ledger := Returned(ledger, page, pages);
    }

    /** The loops that set or clear the bits of a run. */
    method Mark(page: nat, pages: nat, value: bool)
      requires limit <= 8 * bitmap.data.Length && page + pages <= limit
      modifies bitmap.data
      ensures Used() == Marked(old(Used()), page, pages, value)
    {
      for i := page to page + pages
        invariant Used() == Marked(old(Used()), page, i - page, value)
      {
        bitmap.Set(i, value);
      }
    }

    /** The last loop of `init`: clears the bit of every page of every usable entry. */
    method ClearEntries(entries: array<Entry>)
      requires limit == 8 * bitmap.data.Length && FreePages(bitmap.Bits()) == {} && entries as object != bitmap.data
      requires Clearable(entries[..], limit * 4096)
      modifies bitmap.data
      ensures FreePages(bitmap.Bits()) == UsablePages(entries[..])
    {
      for i := 0 to entries.Length
        invariant entries[..] == old(entries[..]) && FreePages(bitmap.Bits()) == UsablePages(entries[..i])
      {
        assert entries[..i + 1][..i] == entries[..i];
        ClearEntry(entries[i]);
      }
      assert entries[..] == entries[..entries.Length];
    }

    method ClearEntry(entry: Entry)
      requires limit == 8 * bitmap.data.Length
      requires entry.usable ==>
                 entry.base % 4096 == 0 && entry.length % 4096 == 0 && EndsBelow(entry, limit * 4096)
      modifies bitmap.data
      ensures FreePages(bitmap.Bits()) == old(FreePages(bitmap.Bits())) + EntryPages(entry)
    {
      if !entry.usable { return; }
      hide FreePages, Run, EndsBelow;
      NoPages(entry.base / 4096);
      ghost var free, k := FreePages(bitmap.Bits()), 0;
      var j := 0;
      while j < entry.length
        invariant j == 4096 * k <= entry.length
        invariant FreePages(bitmap.Bits()) == free + Run(entry.base / 4096, k)
        decreases entry.length - j
      {
        PageInEntry(entry, k, limit);
        ghost var before := bitmap.Bits();
        bitmap.Set((entry.base + j) / 4096, false);
        OneMoreFree(before, entry.base / 4096, k);
        j := j + 4096;
        k := k + 1;
      }
    }
  }
}
