/** What each operation of the heap does to its state, and why the invariant survives it. */
module HeapSteps {
  import opened PhysMem
  import opened Pmms
  import opened HeapSpec

  /** Words of the allocations of h that are still live in g read as before. */
  ghost predicate UserKept(mem: Mem, m: Mem, h: Heap, g: Heap)
  {
    forall a, q: nat, i: nat :: a in g.live && UserWord(h, a, q, i) ==> At(m, q, i) == At(mem, q, i)
  }

  /** Only page p may read differently. */
  ghost predicate OnlyPage(mem: Mem, m: Mem, p: nat)
  {
    |m| == |mem| && forall q: nat, i: nat :: q != p ==> At(m, q, i) == At(mem, q, i)
  }

  /** A page with a live word is in the allocator's hands. */
  lemma UserPageOwned(mem: Mem, base: nat, h: Heap, l: Ledger, a: nat, q: nat, i: nat)
    requires HeapOk(mem, base, h) && HeapHeld(h, l) && LedgerOk(l) && UserWord(h, a, q, i)
    ensures q in l.owner
  {
    CellAt(mem, base, h, a);
    var s := h.live[a].loc.page;
    assert Holds(l.owner, s, l.live[s]);
  }

  /** Stores to headers, free blocks and pages nobody holds reach no live allocation. */
  lemma HeapStoresKeepUsers(mem: Mem, m: Mem, base: nat, h: Heap, l: Ledger, g: Heap)
    requires HeapOk(mem, base, h) && HeapHeld(h, l) && LedgerOk(l)
    requires forall q: nat, i: nat :: At(m, q, i) == At(mem, q, i) || HeapWord(h, q, i) || q !in l.owner
    ensures UserKept(mem, m, h, g)
  {
    forall a, q: nat, i: nat | a in g.live && UserWord(h, a, q, i) ensures At(m, q, i) == At(mem, q, i) {
      UserWordsClear(mem, base, h, l, a, q, i);
      UserPageOwned(mem, base, h, l, a, q, i);
    }
  }

  lemma BlockAddrInjective(base: nat, p: nat, c: nat, i: nat, q: nat, d: nat, j: nat)
    requires c < 7 && d < 7 && i < MaxBlocks(c) && j < MaxBlocks(d) && (p == q ==> c == d)
    requires Addr(base, p, Off(c, i)) == Addr(base, q, Off(d, j))
    ensures p == q && i == j
  {
    BlockInPage(c, i);
    BlockInPage(d, j);
    AddrReads(base, p, Off(c, i));
    AddrReads(base, q, Off(d, j));
    if i != j { BlocksApart(c, i, j); }
  }

  lemma FreeBlockAt(mem: Mem, base: nat, h: Heap, p: nat, k: nat)
    requires HeapOk(mem, base, h) && p in h.slabs && k < |h.slabs[p].free|
    ensures h.slabs[p].cls < 7 && h.slabs[p].free[k] < MaxBlocks(h.slabs[p].cls) && base % 4096 == 0
  {
    hide HeapOk;
    SlabAt(mem, base, h, p);
  }

  /** A block on a free list is nobody's. */
  lemma FreeBlockNotLive(mem: Mem, base: nat, h: Heap, p: nat, k: nat)
    requires HeapOk(mem, base, h) && p in h.slabs && k < |h.slabs[p].free|
    ensures h.slabs[p].cls < 7 && h.slabs[p].free[k] < MaxBlocks(h.slabs[p].cls)
    ensures Addr(base, p, Off(h.slabs[p].cls, h.slabs[p].free[k])) !in h.live
  {
    hide HeapOk, SlabOk, Addr, Off, Words, MaxBlocks;
    FreeBlockAt(mem, base, h, p, k);
    var c, j := h.slabs[p].cls, h.slabs[p].free[k];
    BlockInPage(c, j);
    OffsetNotAligned(base, p, Off(c, j));
    var a := Addr(base, p, Off(c, j));
    if a in h.live {
      CellAt(mem, base, h, a);
      if h.live[a].loc.Block? {
        var q := h.live[a].loc.page;
        BlockAddrInjective(base, p, c, j, q, h.slabs[q].cls, h.live[a].loc.idx);
      } else {
        RunAligned(base, h.live[a].loc.page);
      }
    }
  }

  lemma RunAligned(base: nat, p: nat)
    requires base % 4096 == 0
    ensures Addr(base, p + 1, 0) % 4096 == 0
  {}

  // ---- Taking a block

  function Popped(h: Heap, p: nat, a: nat, size: nat): Heap
    requires p in h.slabs && h.slabs[p].free != []
  {
    h.(slabs := h.slabs[p := h.slabs[p].(free := h.slabs[p].free[1..])],
       live := h.live[a := Cell(size, Block(p, h.slabs[p].free[0]))])
  }

  lemma ListPops(mem: Mem, base: nat, p: nat, c: nat, free: seq<nat>, m: Mem)
    requires c < 7 && free != [] && ListOk(mem, base, p, c, free) && p < |mem|
    requires m == Put(mem, p, 1, At(mem, p, Off(c, free[0])))
    ensures ListOk(m, base, p, c, free[1..])
  {
    forall k | 0 <= k < |free[1..]|
      ensures free[1..][k] < MaxBlocks(c) && At(m, p, Off(c, free[1..][k])) == Link(base, p, c, free[1..], k + 1)
    {
      assert free[1..][k] == free[k + 1];
      BlockInPage(c, free[k + 1]);
    }
    assert At(mem, p, Off(c, free[0])) == Link(base, p, c, free, 1);
  }

  lemma PopKeepsSlabs(mem: Mem, base: nat, h: Heap, p: nat, a: nat, size: nat, m: Mem)
    requires HeapOk(mem, base, h) && p in h.slabs && h.slabs[p].free != []
    requires h.slabs[p].cls < 7 && p < |mem| && m == Put(mem, p, 1, At(mem, p, Off(h.slabs[p].cls, h.slabs[p].free[0])))
    ensures var g := Popped(h, p, a, size);
            (forall q :: q in g.slabs ==> SlabOk(m, base, g, q)) && (forall c :: 0 <= c < 7 ==> ChainOk(g, c))
  {
    var g := Popped(h, p, a, size);
    assert SlabOk(mem, base, h, p);
    ListPops(mem, base, p, h.slabs[p].cls, h.slabs[p].free, m);
    forall q | q in g.slabs ensures SlabOk(m, base, g, q) { assert SlabOk(mem, base, h, q); }
    forall c | 0 <= c < 7 ensures ChainOk(g, c) { assert ChainOk(h, c); }
  }

  lemma PopKeepsLive(mem: Mem, base: nat, h: Heap, p: nat, a: nat, size: nat)
    requires HeapOk(mem, base, h) && p in h.slabs && h.slabs[p].free != [] && h.slabs[p].cls < 7
    requires a == Addr(base, p, Off(h.slabs[p].cls, h.slabs[p].free[0])) && size <= 8 * Words(h.slabs[p].cls)
    ensures var g := Popped(h, p, a, size);
            (forall q, j: nat :: q in g.slabs ==> g.slabs[q].cls < 7 && BlockOk(base, g, q, j))
            && (forall b :: b in g.live ==> CellOk(base, g, b)) && (forall q :: q in g.large ==> LargeLive(base, g, q))
  {
    var g := Popped(h, p, a, size);
    var free := h.slabs[p].free;
    FreeBlockNotLive(mem, base, h, p, 0);
    assert SlabOk(mem, base, h, p);
    assert free[0] !in free[1..];
    forall q, j: nat | q in g.slabs ensures g.slabs[q].cls < 7 && BlockOk(base, g, q, j) {
      assert SlabOk(mem, base, h, q) && BlockOk(base, h, q, j);
      assert q == p && j in free ==> j == free[0] || j in free[1..];
    }
    forall b | b in g.live ensures CellOk(base, g, b) {
      if b != a { assert CellOk(base, h, b); }
    }
    forall q | q in g.large ensures LargeLive(base, g, q) { assert LargeLive(base, h, q); }
  }

  /** Unlinking the first free block and handing it out keeps the invariant; the pointer was not live before. */
  lemma PopKeeps(mem: Mem, base: nat, h: Heap, p: nat, a: nat, size: nat, m: Mem)
    requires HeapOk(mem, base, h) && p in h.slabs && h.slabs[p].free != [] && h.slabs[p].cls < 7 && p < |mem|
    requires a == Addr(base, p, Off(h.slabs[p].cls, h.slabs[p].free[0])) && size <= 8 * Words(h.slabs[p].cls)
    requires m == Put(mem, p, 1, At(mem, p, Off(h.slabs[p].cls, h.slabs[p].free[0])))
    ensures HeapOk(m, base, Popped(h, p, a, size)) && a !in h.live
  {
    PopKeepsSlabs(mem, base, h, p, a, size, m);
    PopKeepsLive(mem, base, h, p, a, size);
    FreeBlockNotLive(mem, base, h, p, 0);
    var g := Popped(h, p, a, size);
    forall q | q in g.large ensures LargeOk(m, g, q) { assert LargeOk(mem, h, q); }
  }

  // ---- Giving a block back

  function Pushed(h: Heap, p: nat, j: nat, a: nat): Heap
    requires p in h.slabs
  {
    h.(slabs := h.slabs[p := h.slabs[p].(free := [j] + h.slabs[p].free)], live := h.live - {a})
  }

  /** The two stores of `Slab::free`. */
  function PushMem(mem: Mem, p: nat, w: nat, a: nat): Mem
    requires p < |mem| && 3 <= w < 512 && a < WORD_LIMIT
  {
    Put(Put(mem, p, w, At(mem, p, 1)), p, 1, a)
  }

  lemma ListPushes(mem: Mem, base: nat, p: nat, c: nat, free: seq<nat>, j: nat, m: Mem)
    requires c < 7 && ListOk(mem, base, p, c, free) && p < |mem| && j < MaxBlocks(c) && j !in free
    requires 3 <= Off(c, j) < 512 && Addr(base, p, Off(c, j)) < WORD_LIMIT
    requires m == PushMem(mem, p, Off(c, j), Addr(base, p, Off(c, j)))
    ensures ListOk(m, base, p, c, [j] + free)
  {
    var all := [j] + free;
    forall k | 0 <= k < |all|
      ensures all[k] < MaxBlocks(c) && At(m, p, Off(c, all[k])) == Link(base, p, c, all, k + 1)
    {
      if k > 0 {
        assert all[k] == free[k - 1];
        BlocksApart(c, j, all[k]);
        BlockInPage(c, all[k]);
      }
    }
  }

  lemma PushKeepsSlabs(mem: Mem, base: nat, h: Heap, p: nat, j: nat, a: nat, m: Mem)
    requires HeapOk(mem, base, h) && a in h.live && h.live[a].loc == Block(p, j)
    requires p in h.slabs && h.slabs[p].cls < 7 && p < |mem| && a < WORD_LIMIT && 3 <= Off(h.slabs[p].cls, j) < 512
    requires m == PushMem(mem, p, Off(h.slabs[p].cls, j), a)
    ensures var g := Pushed(h, p, j, a);
            (forall q :: q in g.slabs ==> SlabOk(m, base, g, q)) && (forall c :: 0 <= c < 7 ==> ChainOk(g, c))
  {
    var g := Pushed(h, p, j, a);
    assert CellOk(base, h, a) && SlabOk(mem, base, h, p);
    ListPushes(mem, base, p, h.slabs[p].cls, h.slabs[p].free, j, m);
    forall q | q in g.slabs ensures SlabOk(m, base, g, q) { assert SlabOk(mem, base, h, q); }
    forall c | 0 <= c < 7 ensures ChainOk(g, c) { assert ChainOk(h, c); }
  }

  lemma PushKeepsLive(mem: Mem, base: nat, h: Heap, p: nat, j: nat, a: nat)
    requires HeapOk(mem, base, h) && a in h.live && h.live[a].loc == Block(p, j) && p in h.slabs
    ensures var g := Pushed(h, p, j, a);
            (forall q, i: nat :: q in g.slabs ==> g.slabs[q].cls < 7 && BlockOk(base, g, q, i))
            && (forall b :: b in g.live ==> CellOk(base, g, b)) && (forall q :: q in g.large ==> LargeLive(base, g, q))
  {
    var g := Pushed(h, p, j, a);
    assert CellOk(base, h, a);
    forall q, i: nat | q in g.slabs ensures g.slabs[q].cls < 7 && BlockOk(base, g, q, i) {
      assert SlabOk(mem, base, h, q) && BlockOk(base, h, q, i);
      assert i in g.slabs[q].free || i !in h.slabs[q].free;
      if q == p { assert j in g.slabs[p].free; }
    }
    forall b | b in g.live ensures CellOk(base, g, b) {
      assert CellOk(base, h, b);
      if h.live[b].loc.Block? && h.live[b].loc.page == p { assert h.live[b].loc.idx != j; }
    }
    forall q | q in g.large ensures LargeLive(base, g, q) { assert LargeLive(base, h, q); }
  }

  /** Putting a live block at the head of its own slab's free list keeps the invariant. */
  lemma PushKeeps(mem: Mem, base: nat, h: Heap, p: nat, j: nat, a: nat, m: Mem)
    requires HeapOk(mem, base, h) && a in h.live && h.live[a].loc == Block(p, j)
    requires p in h.slabs && h.slabs[p].cls < 7 && p < |mem| && a < WORD_LIMIT && 3 <= Off(h.slabs[p].cls, j) < 512
    requires m == PushMem(mem, p, Off(h.slabs[p].cls, j), a)
    requires p !in h.large
    ensures HeapOk(m, base, Pushed(h, p, j, a))
  {
    PushKeepsSlabs(mem, base, h, p, j, a, m);
    PushKeepsLive(mem, base, h, p, j, a);
    var g := Pushed(h, p, j, a);
    forall q | q in g.large ensures LargeOk(m, g, q) { assert LargeOk(mem, h, q); }
  }

  /** The push writes only to the header and to the block that is being freed. */
  lemma PushKeepsUsers(mem: Mem, base: nat, h: Heap, l: Ledger, p: nat, j: nat, a: nat, m: Mem)
    requires HeapOk(mem, base, h) && HeapHeld(h, l) && LedgerOk(l) && a in h.live && h.live[a].loc == Block(p, j)
    requires p in h.slabs && h.slabs[p].cls < 7 && p < |mem| && a < WORD_LIMIT && 3 <= Off(h.slabs[p].cls, j) < 512
    requires m == PushMem(mem, p, Off(h.slabs[p].cls, j), a)
    ensures UserKept(mem, m, h, Pushed(h, p, j, a))
  {
    var g := Pushed(h, p, j, a);
    forall b, q: nat, i: nat | b in g.live && UserWord(h, b, q, i) ensures At(m, q, i) == At(mem, q, i) {
      UserWordsClear(mem, base, h, l, b, q, i);
      if q == p && i == Off(h.slabs[p].cls, j) {
        UserWordsApart(mem, base, h, l, a, b, q, i);
      }
    }
  }

  // ---- A new slab page

  function Iota(n: nat): (s: seq<nat>)
    ensures |s| == n && forall k :: 0 <= k < n ==> s[k] == k
  {
    seq(n, k requires 0 <= k < n => k)
  }

  function Extended(h: Heap, c: nat, n: nat): Heap
    requires c < 7 && |h.chains| == 7
  {
    h.(slabs := h.slabs[n := Slab(c, |h.chains[c]|, Iota(MaxBlocks(c)))], chains := h.chains[c := h.chains[c] + [n]])
  }

  /** Page n as `new_slab` leaves it: header set, all blocks on the free list in order. */
  ghost predicate FreshSlab(m: Mem, base: nat, n: nat, c: nat)
    requires c < 7
  {
    At(m, n, 0) == 8 * Words(c) && At(m, n, 2) == 0 && ListOk(m, base, n, c, Iota(MaxBlocks(c)))
  }

  /** m is mem with page n a fresh slab, linked from the last slab of chain c if there is one. */
  ghost predicate SlabAdded(mem: Mem, m: Mem, base: nat, h: Heap, c: nat, n: nat)
    requires c < 7 && |h.chains| == 7
  {
    && |m| == |mem| && FreshSlab(m, base, n, c)
    && forall q: nat, i: nat :: q != n ==>
         At(m, q, i) == if h.chains[c] != [] && q == h.chains[c][|h.chains[c]| - 1] && i == 2 then Addr(base, n, 0)
                        else At(mem, q, i)
  }

  lemma NewSlabKeepsSlabs(mem: Mem, base: nat, h: Heap, c: nat, n: nat, m: Mem)
    requires HeapOk(mem, base, h) && c < 7 && SlabAdded(mem, m, base, h, c, n)
    requires n !in h.slabs && 0 < n < |mem|
    ensures var g := Extended(h, c, n);
            (forall q :: q in g.slabs ==> SlabOk(m, base, g, q)) && (forall d :: 0 <= d < 7 ==> ChainOk(g, d))
  {
    hide ListOk, Iota;
    var g := Extended(h, c, n);
    assert ChainOk(h, c);
    forall q | q in g.slabs ensures SlabOk(m, base, g, q) {
      if q != n {
        assert SlabOk(mem, base, h, q);
        ListUndisturbed(mem, m, base, q, h.slabs[q].cls, h.slabs[q].free);
        if h.slabs[q].cls == c && h.slabs[q].pos + 1 == |h.chains[c]| { assert q == h.chains[c][|h.chains[c]| - 1]; }
      }
    }
    forall d | 0 <= d < 7 ensures ChainOk(g, d) { assert ChainOk(h, d); }
  }

  lemma ListUndisturbed(mem: Mem, m: Mem, base: nat, p: nat, c: nat, free: seq<nat>)
    requires c < 7 && ListOk(mem, base, p, c, free)
    requires forall i: nat :: i != 2 ==> At(m, p, i) == At(mem, p, i)
    ensures ListOk(m, base, p, c, free)
  {
    forall k | 0 <= k < |free| ensures At(m, p, Off(c, free[k])) == At(mem, p, Off(c, free[k])) {
      BlockInPage(c, free[k]);
    }
  }

  lemma NewSlabKeepsLive(mem: Mem, base: nat, h: Heap, c: nat, n: nat)
    requires HeapOk(mem, base, h) && c < 7 && n !in h.slabs
    ensures var g := Extended(h, c, n);
            (forall q, j: nat :: q in g.slabs ==> g.slabs[q].cls < 7 && BlockOk(base, g, q, j))
            && (forall b :: b in g.live ==> CellOk(base, g, b)) && (forall q :: q in g.large ==> LargeLive(base, g, q))
  {
    var g := Extended(h, c, n);
    forall q, j: nat | q in g.slabs ensures g.slabs[q].cls < 7 && BlockOk(base, g, q, j) {
      if q != n {
        assert SlabOk(mem, base, h, q) && BlockOk(base, h, q, j);
      } else if j < MaxBlocks(c) {
        assert Iota(MaxBlocks(c))[j] == j;
      }
    }
    forall b | b in g.live ensures CellOk(base, g, b) { assert CellOk(base, h, b); }
    forall q | q in g.large ensures LargeLive(base, g, q) { assert LargeLive(base, h, q); }
  }

  /** Linking a fresh slab page to the end of a chain keeps the invariant. */
  lemma NewSlabKeeps(mem: Mem, base: nat, h: Heap, c: nat, n: nat, m: Mem)
    requires HeapOk(mem, base, h) && c < 7 && SlabAdded(mem, m, base, h, c, n)
    requires n !in h.slabs && n !in h.large && 0 < n < |mem|
    ensures HeapOk(m, base, Extended(h, c, n))
  {
    NewSlabKeepsSlabs(mem, base, h, c, n, m);
    NewSlabKeepsLive(mem, base, h, c, n);
    var g := Extended(h, c, n);
    forall q | q in g.large ensures LargeOk(m, g, q) { assert LargeOk(mem, h, q); }
  }

  lemma NewSlabKeepsUsers(mem: Mem, base: nat, h: Heap, l: Ledger, c: nat, n: nat, m: Mem)
    requires HeapOk(mem, base, h) && HeapHeld(h, l) && LedgerOk(l) && c < 7 && SlabAdded(mem, m, base, h, c, n)
    requires n !in l.owner
    ensures UserKept(mem, m, h, Extended(h, c, n))
  {
    assert ChainOk(h, c);
    forall q: nat, i: nat ensures At(m, q, i) == At(mem, q, i) || HeapWord(h, q, i) || q !in l.owner {
      if q in h.slabs { assert SlabOk(mem, base, h, q); }
    }
    HeapStoresKeepUsers(mem, m, base, h, l, Extended(h, c, n));
  }

  // ---- Page runs

  function WithRun(h: Heap, s: nat, n: nat, a: nat, size: nat): Heap
  {
    h.(large := h.large[s := n], live := h.live[a := Cell(size, Pages(s))])
  }

  /** The header stores of the page-run path of `kmalloc`. */
  function RunMem(mem: Mem, s: nat, n: nat): Mem
    requires s < |mem| && n < WORD_LIMIT
  {
    Put(Put(Put(mem, s, 0, n), s, 1, 0), s, 2, 0)
  }

  lemma RunPointerFresh(mem: Mem, base: nat, h: Heap, s: nat)
    requires HeapOk(mem, base, h) && s !in h.large
    ensures Addr(base, s + 1, 0) !in h.live
  {
    hide HeapOk;
    var a := Addr(base, s + 1, 0);
    if a in h.live {
      AlignmentTells(mem, base, h, a);
      CellAt(mem, base, h, a);
      assert BaseOk(mem, base) by { BaseAt(mem, base, h); }
      RunAligned(base, s);
    }
  }

  lemma BaseAt(mem: Mem, base: nat, h: Heap)
    requires HeapOk(mem, base, h)
    ensures BaseOk(mem, base)
  {}

  lemma RunKeeps(mem: Mem, base: nat, h: Heap, s: nat, n: nat, size: nat)
    requires HeapOk(mem, base, h) && s !in h.slabs && s !in h.large
    requires 0 < s && 2 <= n && s + n <= |mem| && n < WORD_LIMIT && 512 < size <= 4096 * (n - 1)
    ensures HeapOk(RunMem(mem, s, n), base, WithRun(h, s, n, Addr(base, s + 1, 0), size))
    ensures Addr(base, s + 1, 0) !in h.live
  {
    var a, m := Addr(base, s + 1, 0), RunMem(mem, s, n);
    var g := WithRun(h, s, n, a, size);
    RunPointerFresh(mem, base, h, s);
    RunKeepsSlabs(mem, base, h, s, n, a, size);
    forall q | q in g.large ensures LargeOk(m, g, q) && LargeLive(base, g, q) {
      assert q != s ==> LargeOk(mem, h, q) && LargeLive(base, h, q);
    }
    forall b | b in g.live ensures CellOk(base, g, b) { assert b != a ==> CellOk(base, h, b); }
  }

  lemma RunKeepsSlabs(mem: Mem, base: nat, h: Heap, s: nat, n: nat, a: nat, size: nat)
    requires HeapOk(mem, base, h) && s !in h.slabs && a !in h.live && s < |mem| && n < WORD_LIMIT
    ensures var g := WithRun(h, s, n, a, size);
            (forall q :: q in g.slabs ==> SlabOk(RunMem(mem, s, n), base, g, q))
            && (forall c :: 0 <= c < 7 ==> ChainOk(g, c))
            && (forall q, j: nat :: q in g.slabs ==> g.slabs[q].cls < 7 && BlockOk(base, g, q, j))
  {
    var g, m := WithRun(h, s, n, a, size), RunMem(mem, s, n);
    forall q | q in g.slabs ensures SlabOk(m, base, g, q) { assert SlabOk(mem, base, h, q); }
    forall c | 0 <= c < 7 ensures ChainOk(g, c) { assert ChainOk(h, c); }
    forall q, j: nat | q in g.slabs ensures g.slabs[q].cls < 7 && BlockOk(base, g, q, j) {
      assert SlabOk(mem, base, h, q) && BlockOk(base, h, q, j);
    }
  }

  function WithoutRun(h: Heap, s: nat, a: nat): Heap
  {
    h.(large := h.large - {s}, live := h.live - {a})
  }

  lemma RunGoneKeeps(mem: Mem, base: nat, h: Heap, s: nat, a: nat)
    requires HeapOk(mem, base, h) && a in h.live && h.live[a].loc == Pages(s)
    ensures HeapOk(mem, base, WithoutRun(h, s, a))
  {
    var g := WithoutRun(h, s, a);
    assert CellOk(base, h, a);
    forall q | q in g.slabs ensures SlabOk(mem, base, g, q) { assert SlabOk(mem, base, h, q); }
    forall c | 0 <= c < 7 ensures ChainOk(g, c) { assert ChainOk(h, c); }
    forall q | q in g.large ensures LargeOk(mem, g, q) && LargeLive(base, g, q) {
      assert LargeOk(mem, h, q) && LargeLive(base, h, q);
    }
    forall q, j: nat | q in g.slabs ensures BlockOk(base, g, q, j) {
      assert SlabOk(mem, base, h, q) && BlockOk(base, h, q, j);
    }
    forall b | b in g.live ensures CellOk(base, g, b) {
      assert CellOk(base, h, b);
      assert h.live[b].loc == Pages(s) ==> b == a;
    }
  }

  // ---- Stores by the holders of pointers

  /** Whatever the holder of a pointer writes to its own words, the heap's invariant stands. */
  lemma UserStoreKeeps(mem: Mem, base: nat, h: Heap, l: Ledger, a: nat, q: nat, i: nat, w: Word)
    requires HeapOk(mem, base, h) && HeapHeld(h, l) && LedgerOk(l) && UserWord(h, a, q, i) && q < |mem|
    ensures HeapOk(Put(mem, q, i, w), base, h)
  {
    var m := Put(mem, q, i, w);
    UserWordsClear(mem, base, h, l, a, q, i);
    forall p | p in h.slabs ensures SlabOk(m, base, h, p) {
      assert SlabOk(mem, base, h, p);
      if p == q {
        var c, free := h.slabs[p].cls, h.slabs[p].free;
        forall k | 0 <= k < |free| ensures At(m, p, Off(c, free[k])) == At(mem, p, Off(c, free[k])) {
          assert !FreeBlockWord(h, q, k, i);
        }
      }
    }
    forall p | p in h.large ensures LargeOk(m, h, p) { assert LargeOk(mem, h, p) && p != q; }
  }
}
