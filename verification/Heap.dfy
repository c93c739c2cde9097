/** The kernel heap: `Heap::init`, `new_slab`, `Slab::alloc`, `Slab::free`, `kmalloc`, `kfree`. */
module KernelHeaps {
  import opened NextFit
  import opened PhysMem
  import opened Pmms
  import opened HeapSpec
  import opened HeapSteps

  /** The size class that `kmalloc` picks. */
  function ClassOf(size: nat): (c: nat)
    requires size <= 512
    ensures c < 7 && size <= 8 * Words(c)
    ensures c > 0 ==> 8 * Words(c - 1) < size
  {
    if size <= 8 then 0 else if size <= 16 then 1 else if size <= 32 then 2 else if size <= 64 then 3
    else if size <= 128 then 4 else if size <= 256 then 5 else 6
  }

  /** Pages of a run for a large request, its header page included. */
  function RunPages(size: Word): nat
  {
    (size + 4095) % 0x1_0000_0000_0000_0000 / 4096 + 1
  }

  /** The largest size that rounding up to pages does not take past 64 bits. */
  const MAX_SIZE: Word := 0xffff_ffff_ffff_f000

  /** A run has room for the size asked for, behind its header page, if and only if rounding the size does not wrap, and
      then no page more than that takes. If it does wrap, the run is its header page alone, and the page that the
      pointer is to is not part of it. */
  lemma RunHasRoom(size: Word, s: nat)
    ensures size <= 4096 * (RunPages(size) - 1) <==> size <= MAX_SIZE
    ensures s + 1 in Run(s, RunPages(size)) <==> 0 < size <= MAX_SIZE
    ensures size > MAX_SIZE ==> RunPages(size) == 1
    ensures 0 < size <= MAX_SIZE ==> 4096 * (RunPages(size) - 2) < size
  {
    if size > MAX_SIZE { assert (size + 4095) % 0x1_0000_0000_0000_0000 == size - MAX_SIZE - 1; }
  }

  /** The smallest request that `kmalloc` answers with a pointer to memory it does not own. */
  lemma RequestTooLarge(s: nat) returns (size: Word)
    ensures size == 0xffff_ffff_ffff_f001 && RunPages(size) == 1 && s + 1 !in Run(s, RunPages(size))
  {
    size := 0xffff_ffff_ffff_f001;
    RunHasRoom(size, s);
  }

  predicate NoneFree(h: Heap, p: nat)
  {
    p in h.slabs ==> h.slabs[p].free == []
  }

  /** The first slab of chain c, from place k on, that has a free block. */
  function RoomFrom(h: Heap, c: nat, k: nat): (r: Option<nat>)
    requires c < |h.chains|
    ensures r.Some? ==> k <= r.value < |h.chains[c]| && h.chains[c][r.value] in h.slabs
                        && h.slabs[h.chains[c][r.value]].free != []
    ensures forall j :: k <= j < (if r.Some? then r.value else |h.chains[c]|) ==> NoneFree(h, h.chains[c][j])
    decreases |h.chains[c]| - k
  {
    if k >= |h.chains[c]| then None
    else if h.chains[c][k] in h.slabs && h.slabs[h.chains[c][k]].free != [] then Some(k)
    else RoomFrom(h, c, k + 1)
  }

  /** How a slab request is served: from the first slab of the chain that has a free block, the page allocator not
      touched; only when every slab of the chain is full, from a fresh page linked to its end. */
  ghost predicate BlockTaken(base: nat, h: Heap, l: Ledger, g: Heap, l2: Ledger, c: nat, size: nat, a: nat)
    requires c < 7 && |h.chains| == 7
  {
    match RoomFrom(h, c, 0)
    case Some(k) =>
      var p := h.chains[c][k];
      l2 == l && h.slabs[p].cls == c && a == Addr(base, p, Off(c, h.slabs[p].free[0])) && g == Popped(h, p, a, size)
    case None =>
      && a in g.live && g.live[a].loc.Block?
      && var n := g.live[a].loc.page;
         n !in l.live && l2 == Granted(l, n, 1) && a == Addr(base, n, Off(c, 0))
         && g == Popped(Extended(h, c, n), n, a, size)
  }

  /** Block j of slab page p, of class c, is in somebody's hands. */
  predicate InUse(base: nat, h: Heap, c: nat, p: nat, j: nat)
    requires c < 7
  {
    Addr(base, p, Off(c, j)) in h.live && h.live[Addr(base, p, Off(c, j))].loc == Block(p, j)
  }

  /** So is every block of the slab. */
  predicate AllInUse(base: nat, h: Heap, c: nat, p: nat)
    requires c < 7
  {
    forall j: nat :: j < MaxBlocks(c) ==> InUse(base, h, c, p, j)
  }

  /** A slab with an empty free list is one whose blocks are all in use. */
  lemma NoneFreeExactly(mem: Mem, base: nat, h: Heap, c: nat, p: nat)
    requires HeapOk(mem, base, h) && c < 7 && p in h.slabs && h.slabs[p].cls == c
    ensures h.slabs[p].free == [] <==> AllInUse(base, h, c, p)
  {
    if h.slabs[p].free == [] {
      forall j: nat | j < MaxBlocks(c) ensures InUse(base, h, c, p, j) { assert BlockOk(base, h, p, j); }
    } else {
      hide HeapOk;
      FreeBlockNotLive(mem, base, h, p, 0);
      assert !InUse(base, h, c, p, h.slabs[p].free[0]);
    }
  }

  /** All blocks of all slabs in the chain of a class are in use. */
  predicate ClassFull(base: nat, h: Heap, c: nat)
    requires c < 7 && |h.chains| == 7
  {
    forall k :: 0 <= k < |h.chains[c]| ==> AllInUse(base, h, c, h.chains[c][k])
  }

  lemma RoomExactly(mem: Mem, base: nat, h: Heap, c: nat)
    requires HeapOk(mem, base, h) && c < 7
    ensures |h.chains| == 7 && (RoomFrom(h, c, 0).None? <==> ClassFull(base, h, c))
    ensures RoomFrom(h, c, 0).Some? ==>
              var k := RoomFrom(h, c, 0).value;
              k < |h.chains[c]| && !AllInUse(base, h, c, h.chains[c][k])
              && forall j :: 0 <= j < k ==> AllInUse(base, h, c, h.chains[c][j])
  {
    ChainsAt(mem, base, h, c);
    hide HeapOk, AllInUse;
    forall k | 0 <= k < |h.chains[c]|
      ensures NoneFree(h, h.chains[c][k]) <==> AllInUse(base, h, c, h.chains[c][k])
    {
      NoneFreeExactly(mem, base, h, c, h.chains[c][k]);
    }
  }

  /** What a small request means for the books and for where its block is: a page is taken if and only if no block of
      the class is left; otherwise the block is in the first slab that has one. */
  ghost predicate SmallServed(base: nat, h: Heap, l: Ledger, g: Heap, l2: Ledger, c: nat, a: nat)
    requires c < 7 && |h.chains| == 7
  {
    && a in g.live && g.live[a].loc.Block? && a == Addr(base, g.live[a].loc.page, Off(c, g.live[a].loc.idx))
    && (l2 != l <==> ClassFull(base, h, c))
    && (l2 != l ==> g.live[a].loc.page !in l.live && l2 == Granted(l, g.live[a].loc.page, 1))
    && (l2 == l ==> exists k :: 0 <= k < |h.chains[c]| && FirstWithRoom(base, h, c, k, g.live[a].loc.page))
  }

  predicate FirstWithRoom(base: nat, h: Heap, c: nat, k: nat, p: nat)
    requires c < 7 && |h.chains| == 7 && k < |h.chains[c]|
  {
    && h.chains[c][k] == p && !AllInUse(base, h, c, p)
    && forall j :: 0 <= j < k ==> AllInUse(base, h, c, h.chains[c][j])
  }

  lemma SmallIsServed(mem: Mem, base: nat, h: Heap, l: Ledger, g: Heap, l2: Ledger, c: nat, size: nat, a: nat)
    requires HeapOk(mem, base, h) && c < 7 && |h.chains| == 7 && BlockTaken(base, h, l, g, l2, c, size, a)
    ensures SmallServed(base, h, l, g, l2, c, a)
  {
    hide HeapOk, ClassFull, AllInUse;
    RoomExactly(mem, base, h, c);
    match RoomFrom(h, c, 0) {
      case Some(k) => assert FirstWithRoom(base, h, c, k, h.chains[c][k]);
      case None => assert g.live[a].loc.page in l2.live;
    }
  }

  /** The block freed last is the first to be handed out again, as long as the slabs before its own are in use. */
  lemma FreedIsReused(mem: Mem, base: nat, h: Heap, l: Ledger, a: nat, g: Heap, l2: Ledger, size: Word, b: nat,
                      g2: Heap, l3: Ledger)
    requires HeapOk(mem, base, h) && a in h.live && h.live[a].loc.Block? && h.live[a].loc.page in h.slabs
    requires GivenBack(h, l, g, l2, a) && size <= 512 && ClassOf(size) == h.slabs[h.live[a].loc.page].cls
    requires |g.chains| == 7 && Taken(base, g, l2, g2, l3, size, b)
    requires var c, pos := ClassOf(size), h.slabs[h.live[a].loc.page].pos;
             pos < |h.chains[c]| && forall j :: 0 <= j < pos ==> AllInUse(base, h, c, h.chains[c][j])
    ensures b == a && l3 == l
  {
    hide HeapOk, SlabOk, AllInUse, Addr, Off;
    var c, p := ClassOf(size), h.live[a].loc.page;
    CellAt(mem, base, h, a);
    ChainsAt(mem, base, h, c);
    SlabAt(mem, base, h, p);
    PlaceInChain(mem, base, h, p);
    forall k | 0 <= k < h.slabs[p].pos ensures NoneFree(g, g.chains[c][k]) {
      NoneFreeExactly(mem, base, h, c, h.chains[c][k]);
    }
    RoomIs(g, c, h.slabs[p].pos);
  }

  lemma PlaceInChain(mem: Mem, base: nat, h: Heap, p: nat)
    requires HeapOk(mem, base, h) && p in h.slabs
    ensures |h.chains| == 7 && h.slabs[p].cls < 7
    ensures h.slabs[p].pos < |h.chains[h.slabs[p].cls]| && h.chains[h.slabs[p].cls][h.slabs[p].pos] == p
  {
    hide HeapOk;
    SlabAt(mem, base, h, p);
  }

  lemma RoomIs(h: Heap, c: nat, k: nat)
    requires c < |h.chains| && k < |h.chains[c]| && !NoneFree(h, h.chains[c][k])
    requires forall j :: 0 <= j < k ==> NoneFree(h, h.chains[c][j])
    ensures RoomFrom(h, c, 0) == Some(k)
  {
    hide RoomFrom;
    var r := RoomFrom(h, c, 0);
  }

  /** What `kmalloc` does to heap and ledger. */
  ghost predicate Taken(base: nat, h: Heap, l: Ledger, g: Heap, l2: Ledger, size: Word, a: nat)
    requires |h.chains| == 7
  {
    if size <= 512 then BlockTaken(base, h, l, g, l2, ClassOf(size), size, a)
    else
      && a in g.live && g.live[a].loc.Pages?
      && var s := g.live[a].loc.page;
         s !in l.live && l2 == Granted(l, s, RunPages(size)) && a == Addr(base, s + 1, 0)
         && g == WithRun(h, s, RunPages(size), a, size)
  }

  /** What `kfree` does: a block rejoins its own slab's list, a run goes back to the page allocator whole. */
  ghost predicate GivenBack(h: Heap, l: Ledger, g: Heap, l2: Ledger, a: nat)
    requires a in h.live
  {
    match h.live[a].loc
    case Block(p, j) => p in h.slabs && g == Pushed(h, p, j, a) && l2 == l
    case Pages(s) => s in h.large && g == WithoutRun(h, s, a) && l2 == Returned(l, s, h.large[s])
  }

  /** Allocated pages that are not the heap's read as before. */
  ghost predicate OthersKept(mem: Mem, m: Mem, h: Heap, l: Ledger)
  {
    |m| == |mem| && forall q: nat, i: nat :: q in l.live && q !in h.slabs && q !in h.large ==>
      At(m, q, i) == At(mem, q, i)
  }

  /** How far `Slab::alloc` may still have to go down the chain. */
  function Ahead(h: Heap, c: nat, k: nat): nat
    requires c < |h.chains| && k < |h.chains[c]|
  {
    if RoomFrom(h, c, k) == Some(k) then 0 else 1 + |h.chains[c]| - k
  }

  /** What the header of the k-th slab of a chain says. */
  lemma ChainPlace(mem: Mem, base: nat, h: Heap, c: nat, k: nat)
    requires HeapOk(mem, base, h) && c < 7 && k < |h.chains[c]|
    ensures var p := h.chains[c][k];
            && |h.chains| == 7 && p in h.slabs && h.slabs[p].cls == c && 0 < p < |mem| && base % 4096 == 0
            && base + 4096 * |mem| < WORD_LIMIT
            && At(mem, p, 1) == Link(base, p, c, h.slabs[p].free, 0)
            && (At(mem, p, 1) == 0 <==> h.slabs[p].free == [])
            && At(mem, p, 2) == NextSlab(base, h.chains[c], k)
            && (At(mem, p, 2) == 0 <==> k + 1 == |h.chains[c]|)
  {
    assert ChainOk(h, c);
    assert SlabOk(mem, base, h, h.chains[c][k]);
    if k + 1 < |h.chains[c]| { assert SlabOk(mem, base, h, h.chains[c][k + 1]); }
  }

  /** Making the new slab and storing its address in the last header of the chain. */
  lemma SlabLinked(mem: Mem, mid: Mem, base: nat, h: Heap, c: nat, k: nat, n: nat, m: Mem)
    requires HeapOk(mem, base, h) && c < 7 && k + 1 == |h.chains[c]| && h.chains[c][k] < |mem|
    requires n != h.chains[c][k] && Addr(base, n, 0) < WORD_LIMIT
    requires FreshSlab(mid, base, n, c) && OnlyPage(mem, mid, n) && m == Put(mid, h.chains[c][k], 2, Addr(base, n, 0))
    ensures SlabAdded(mem, m, base, h, c, n)
  {}

  /** What two steps in a row keep, the first of which only added the slab page n. */
  lemma KeptThroughExtension(mem: Mem, mem1: Mem, m: Mem, h: Heap, l: Ledger, c: nat, n: nat, h1: Heap, g: Heap)
    requires c < 7 && |h.chains| == 7 && n !in h.slabs && n !in l.live && h1 == Extended(h, c, n)
    requires UserKept(mem, mem1, h, h1) && UserKept(mem1, m, h1, g)
    requires OthersKept(mem, mem1, h, l) && OthersKept(mem1, m, h1, Granted(l, n, 1))
    ensures UserKept(mem, m, h, g) && OthersKept(mem, m, h, l)
  {
    forall a, q: nat, i: nat | a in g.live && UserWord(h, a, q, i) ensures At(m, q, i) == At(mem, q, i) {
      assert UserWord(h1, a, q, i);
    }
    forall q: nat, i: nat | q in l.live && q !in h.slabs && q !in h.large ensures At(m, q, i) == At(mem, q, i) {
      assert q in Granted(l, n, 1).live && q !in h1.slabs;
    }
  }

  lemma HeldApart(h: Heap, l: Ledger, p: nat, n: nat)
    requires HeapHeld(h, l) && p in h.slabs && n !in l.live
    ensures n != p
  {}

  lemma HeldFresh(h: Heap, l: Ledger, n: nat)
    requires HeapHeld(h, l) && n !in l.live
    ensures n !in h.slabs && n !in h.large
  {}

  /** Everything `TakeBlock` has to show of its one store. */
  lemma TakeKeeps(mem: Mem, base: nat, h: Heap, l: Ledger, p: nat, a: nat, size: nat, m: Mem)
    requires HeapOk(mem, base, h) && HeapHeld(h, l) && LedgerOk(l) && p in h.slabs && h.slabs[p].free != []
    requires h.slabs[p].cls < 7 && p < |mem| && size <= 8 * Words(h.slabs[p].cls)
    requires a == Addr(base, p, Off(h.slabs[p].cls, h.slabs[p].free[0]))
    requires m == Put(mem, p, 1, At(mem, p, Off(h.slabs[p].cls, h.slabs[p].free[0])))
    ensures var g := Popped(h, p, a, size);
            HeapOk(m, base, g) && HeapHeld(g, l) && UserKept(mem, m, h, g) && OthersKept(mem, m, h, l) && a !in h.live
  {
    hide HeapOk, LedgerOk;
    PopKeeps(mem, base, h, p, a, size, m);
    HeapStoresKeepUsers(mem, m, base, h, l, Popped(h, p, a, size));
  }

  /** Everything `ExtendChain` has to show of a linked slab page. */
  lemma ExtendKeeps(mem: Mem, base: nat, h: Heap, l: Ledger, c: nat, n: nat, m: Mem)
    requires HeapOk(mem, base, h) && HeapHeld(h, l) && LedgerOk(l) && c < 7 && SlabAdded(mem, m, base, h, c, n)
    requires n !in l.live && n !in l.owner && 0 < n < |mem|
    ensures var g := Extended(h, c, n);
            HeapOk(m, base, g) && HeapHeld(g, Granted(l, n, 1)) && UserKept(mem, m, h, g) && OthersKept(mem, m, h, l)
  {
    hide HeapOk, LedgerOk, UserKept, FreshSlab;
    ChainsAt(mem, base, h, c);
    HeldFresh(h, l, n);
    NewSlabKeeps(mem, base, h, c, n, m);
    NewSlabKeepsUsers(mem, base, h, l, c, n, m);
    if h.chains[c] != [] { ChainTail(mem, base, h, c); }
  }

  lemma ChainsAt(mem: Mem, base: nat, h: Heap, c: nat)
    requires HeapOk(mem, base, h) && c < 7
    ensures |h.chains| == 7 && ChainOk(h, c)
  {}

  lemma ChainTail(mem: Mem, base: nat, h: Heap, c: nat)
    requires HeapOk(mem, base, h) && c < 7 && h.chains[c] != []
    ensures h.chains[c][|h.chains[c]| - 1] in h.slabs
  {
    assert ChainOk(h, c);
  }

  /** In a chain that was full, the added slab is the first with room. */
  lemma {:induction false} RoomAfterExtension(h: Heap, c: nat, n: nat, k: nat)
    requires c < 7 && |h.chains| == 7 && k <= |h.chains[c]| && RoomFrom(h, c, k).None? && n !in h.slabs && ChainOk(h, c)
    ensures RoomFrom(Extended(h, c, n), c, k) == Some(|h.chains[c]|)
    decreases |h.chains[c]| - k
  {
    var g := Extended(h, c, n);
    if k < |h.chains[c]| {
      RoomAfterExtension(h, c, n, k + 1);
    } else {
      assert |Iota(MaxBlocks(c))| > 0;
    }
  }

  // ---- Runs

  /** A run the ledger holds lies in memory. */
  lemma RunInMemory(l: Ledger, s: nat, n: nat, frames: nat)
    requires LedgerOk(l) && s in l.live && l.live[s] == n && forall i :: i in l.usable ==> i < frames
    ensures 0 < s && s + n <= frames
  {
    assert Holds(l.owner, s, n);
    assert s in l.owner && s + n - 1 in l.owner;
  }

  lemma RunTaken(mem: Mem, base: nat, h: Heap, l: Ledger, s: nat, n: nat, size: nat, m: Mem)
    requires HeapOk(mem, base, h) && HeapHeld(h, l) && LedgerOk(l) && s !in l.live && s !in l.owner
    requires 0 < s && 2 <= n && s + n <= |mem| && 512 < size <= 4096 * (n - 1) && n < WORD_LIMIT
    requires m == RunMem(mem, s, n)
    ensures var a := Addr(base, s + 1, 0); var g := WithRun(h, s, n, a, size);
            && HeapOk(m, base, g) && HeapHeld(g, Granted(l, s, n)) && a !in h.live
            && UserKept(mem, m, h, g) && OthersKept(mem, m, h, l)
  {
    hide HeapOk, LedgerOk, UserKept;
    HeldFresh(h, l, s);
    RunKeeps(mem, base, h, s, n, size);
    HeapStoresKeepUsers(mem, m, base, h, l, WithRun(h, s, n, Addr(base, s + 1, 0), size));
  }

  // ---- Giving back

  /** What `kfree` finds out about a live pointer is where the ledger and the slabs say it is. */
  lemma FreeFacts(mem: Mem, base: nat, h: Heap, l: Ledger, a: nat)
    requires HeapOk(mem, base, h) && HeapHeld(h, l) && a in h.live
    ensures base <= a < WORD_LIMIT && base % 4096 == 0
    ensures match h.live[a].loc
            case Block(p, j) =>
              && p in h.slabs && p < |mem| && h.slabs[p].cls < 7 && j < MaxBlocks(h.slabs[p].cls)
              && 3 <= Off(h.slabs[p].cls, j) < 512 && a == Addr(base, p, Off(h.slabs[p].cls, j))
              && At(mem, p, 0) in {8, 16, 32, 64, 128, 256, 512}
            case Pages(s) =>
              && s in h.large && s < |mem| && a == Addr(base, s + 1, 0) && At(mem, s, 0) == h.large[s]
              && s in l.live && l.live[s] == h.large[s]
  {
    CellAt(mem, base, h, a);
    match h.live[a].loc {
      case Block(p, j) =>
        SlabAt(mem, base, h, p);
        BlockInPage(h.slabs[p].cls, j);
        SizesListed(h.slabs[p].cls);
      case Pages(s) => assert LargeOk(mem, h, s);
    }
  }

  lemma SizesListed(c: nat)
    requires c < 7
    ensures 8 * Words(c) in {8, 16, 32, 64, 128, 256, 512}
  {}

  lemma PageStart(base: nat, p: nat, w: nat)
    requires base % 4096 == 0 && w < 512
    ensures Addr(base, p, w) - Addr(base, p, w) % 4096 == Addr(base, p, 0)
  {
    assert Addr(base, p, w) == 4096 * (base / 4096 + p) + 8 * w;
  }

  lemma RunGiven(mem: Mem, base: nat, h: Heap, l: Ledger, a: nat)
    requires HeapOk(mem, base, h) && HeapHeld(h, l) && LedgerOk(l) && a in h.live && h.live[a].loc.Pages?
    requires h.live[a].loc.page in h.large
    ensures var s := h.live[a].loc.page; var g := WithoutRun(h, s, a);
            && HeapOk(mem, base, g) && HeapHeld(g, Returned(l, s, h.large[s]))
            && UserKept(mem, mem, h, g) && OthersKept(mem, mem, h, l)
  {
    var s := h.live[a].loc.page;
    assert LargeOk(mem, h, s);
    RunGoneKeeps(mem, base, h, s, a);
    forall p | p in h.slabs ensures p != s { SlabNotLarge(mem, base, h, l, p); }
  }

  lemma BlockGiven(mem: Mem, base: nat, h: Heap, l: Ledger, a: nat, m: Mem)
    requires HeapOk(mem, base, h) && HeapHeld(h, l) && LedgerOk(l) && a in h.live && h.live[a].loc.Block?
    requires var p := h.live[a].loc.page;
             && p in h.slabs && h.slabs[p].cls < 7 && p < |mem| && a < WORD_LIMIT
             && 3 <= Off(h.slabs[p].cls, h.live[a].loc.idx) < 512
             && m == PushMem(mem, p, Off(h.slabs[p].cls, h.live[a].loc.idx), a)
    ensures var g := Pushed(h, h.live[a].loc.page, h.live[a].loc.idx, a);
            HeapOk(m, base, g) && HeapHeld(g, l) && UserKept(mem, m, h, g) && OthersKept(mem, m, h, l)
  {
    hide HeapOk, LedgerOk, UserKept;
    var p, j := h.live[a].loc.page, h.live[a].loc.idx;
    SlabNotLarge(mem, base, h, l, p);
    PushKeeps(mem, base, h, p, j, a, m);
    PushKeepsUsers(mem, base, h, l, p, j, a, m);
  }

  // ---- Stores by holders

  lemma UserPageInMemory(mem: Mem, base: nat, h: Heap, a: nat, q: nat, i: nat)
    requires HeapOk(mem, base, h) && UserWord(h, a, q, i)
    ensures q < |mem|
  {
    CellAt(mem, base, h, a);
    match h.live[a].loc {
      case Block(p, j) => SlabAt(mem, base, h, p);
      case Pages(s) => assert LargeOk(mem, h, s);
    }
  }

  /** A word that belongs to a live pointer is on a slab page, or inside a run and so does not start an allocation. */
  lemma UserPageIsHeaps(mem: Mem, base: nat, h: Heap, l: Ledger, a: nat, q: nat, i: nat)
    requires HeapOk(mem, base, h) && HeapHeld(h, l) && LedgerOk(l) && UserWord(h, a, q, i)
    ensures q in h.slabs || q !in l.live
  {
    CellAt(mem, base, h, a);
    if h.live[a].loc.Pages? {
      var s := h.live[a].loc.page;
      if q in l.live { LiveRunsDisjoint(l, s, q); }
    }
  }

  // ---- kfree inverts kmalloc

  /** Freeing what was just allocated restores heap and ledger exactly, except that a slab page made for the purpose
      stays, empty, at the end of its chain. */
  lemma KfreeInvertsKmalloc(mem: Mem, base: nat, h: Heap, l: Ledger, size: Word, a: nat, g: Heap, l2: Ledger, g2: Heap,
                            l3: Ledger)
    requires HeapOk(mem, base, h) && HeapHeld(h, l) && LedgerOk(l) && LedgerOk(l2) && a !in h.live
    requires Taken(base, h, l, g, l2, size, a) && a in g.live && GivenBack(g, l2, g2, l3, a)
    ensures if size > 512 || RoomFrom(h, ClassOf(size), 0).Some? then g2 == h && l3 == l
            else exists n: nat :: n !in l.live && g2 == Extended(h, ClassOf(size), n) && l3 == Granted(l, n, 1)
  {
    hide HeapOk, LedgerOk;
    ChainsAt(mem, base, h, 0);
    if size > 512 {
      RunTakenThenGiven(h, l, g.live[a].loc.page, size, a, g, l2, g2, l3);
    } else {
      var c := ClassOf(size);
      match RoomFrom(h, c, 0) {
        case Some(k) => PopThenPush(h, h.chains[c][k], a, size);
        case None =>
          var n := g.live[a].loc.page;
          PopThenPush(Extended(h, c, n), n, a, size);
          assert n !in l.live && g2 == Extended(h, c, n) && l3 == Granted(l, n, 1);
      }
    }
  }

  lemma RunTakenThenGiven(h: Heap, l: Ledger, s: nat, size: Word, a: nat, g: Heap, l2: Ledger, g2: Heap, l3: Ledger)
    requires HeapHeld(h, l) && LedgerOk(l) && LedgerOk(l2) && s !in l.live && a !in h.live
    requires g == WithRun(h, s, RunPages(size), a, size) && l2 == Granted(l, s, RunPages(size))
    requires g2 == WithoutRun(g, s, a) && l3 == Returned(l2, s, RunPages(size))
    ensures g2 == h && l3 == l
  {
    hide LedgerOk;
    GrantedWasUnclaimed(l, s, RunPages(size));
    HeldFresh(h, l, s);
    assert g2.large == h.large;
    assert g2.live == h.live;
    UndoOwner(l, s, RunPages(size));
    assert l3.live == l.live;
  }

  lemma TakenIsLive(base: nat, h: Heap, l: Ledger, g: Heap, l2: Ledger, size: Word, a: nat)
    requires |h.chains| == 7 && Taken(base, h, l, g, l2, size, a)
    ensures a in g.live
  {}

  lemma KeptThroughBoth(mem: Mem, m: Mem, m2: Mem, base: nat, h: Heap, l: Ledger, g: Heap, l2: Ledger, size: Word,
                        a: nat, g2: Heap)
    requires |h.chains| == 7 && HeapHeld(h, l) && a !in h.live && Taken(base, h, l, g, l2, size, a)
    requires UserKept(mem, m, h, g) && UserKept(m, m2, g, g2) && g2.live == h.live
    ensures UserKept(mem, m2, h, g2)
  {
    hide Taken, HeapHeld;
    forall b, q: nat, i: nat | b in g2.live && UserWord(h, b, q, i) ensures At(m2, q, i) == At(mem, q, i) {
      TakenKeepsWords(base, h, l, g, l2, size, a, b, q, i);
    }
  }

  /** An allocation leaves the words of the others where they are. */
  lemma TakenKeepsWords(base: nat, h: Heap, l: Ledger, g: Heap, l2: Ledger, size: Word, a: nat, b: nat, q: nat, i: nat)
    requires |h.chains| == 7 && HeapHeld(h, l) && a !in h.live && Taken(base, h, l, g, l2, size, a)
             && UserWord(h, b, q, i)
    ensures UserWord(g, b, q, i)
  {}

  lemma PopThenPush(h: Heap, p: nat, a: nat, size: nat)
    requires p in h.slabs && h.slabs[p].free != [] && a !in h.live
    ensures Pushed(Popped(h, p, a, size), p, h.slabs[p].free[0], a) == h
  {
    var g := Pushed(Popped(h, p, a, size), p, h.slabs[p].free[0], a);
    assert [h.slabs[p].free[0]] + h.slabs[p].free[1..] == h.slabs[p].free;
    assert g.slabs == h.slabs;
    assert g.live == h.live;
  }

  function EmptyHeap(): Heap { Heap(map[], seq(7, _ => []), map[], map[]) }

  /** The heap with its first c classes set up, each with one slab page fresh since the state (mem0, l0). */
  ghost predicate Started(mem0: Mem, l0: Ledger, mem: Mem, base: nat, h: Heap, l: Ledger, first: seq<nat>, c: nat)
  {
    && HeapOk(mem, base, h) && HeapHeld(h, l) && c <= 7 && |first| == c
    && FirstSlabs(base, h, first, c)
    && h.live == map[] && h.large == map[] && |h.slabs| == c
    && l.usable == l0.usable && l.live - h.slabs.Keys == l0.live
    && OthersKept(mem0, mem, EmptyHeap(), l0)
  }

  /** Classes below c have one slab each, the others none. */
  ghost predicate FirstSlabs(base: nat, h: Heap, first: seq<nat>, c: nat)
  {
    && |h.chains| == 7 && c <= 7 && |first| == c
    && (forall d :: 0 <= d < c ==> |h.chains[d]| == 1 && first[d] == Addr(base, h.chains[d][0], 0))
    && (forall d :: c <= d < 7 ==> h.chains[d] == [])
  }

  lemma OneMoreSlab(base: nat, h: Heap, first: seq<nat>, c: nat, n: nat)
    requires FirstSlabs(base, h, first, c) && c < 7
    ensures FirstSlabs(base, Extended(h, c, n), first + [Addr(base, n, 0)], c + 1) && h.chains[c] == []
  {}

  lemma StartsEmpty(mem: Mem, l: Ledger, base: nat)
    requires BaseOk(mem, base)
    ensures Started(mem, l, mem, base, EmptyHeap(), l, [], 0)
  {
    assert l.live - EmptyHeap().slabs.Keys == l.live;
  }

  lemma StartedFacts(mem0: Mem, l0: Ledger, mem: Mem, base: nat, h: Heap, l: Ledger, first: seq<nat>, c: nat)
    requires Started(mem0, l0, mem, base, h, l, first, c)
    ensures HeapOk(mem, base, h) && HeapHeld(h, l) && BaseOk(mem, base) && |h.chains| == 7 && |first| == c
    ensures |mem| == |mem0| && h.live == map[]
    ensures c == 7 ==> forall d :: 0 <= d < 7 ==> h.chains[d] != [] && first[d] == Addr(base, h.chains[d][0], 0)
  {}

  lemma StartStep(mem0: Mem, l0: Ledger, mem: Mem, base: nat, h: Heap, l: Ledger, first: seq<nat>, c: nat, n: nat,
                  m: Mem)
    requires Started(mem0, l0, mem, base, h, l, first, c) && LedgerOk(l) && c < 7
    requires n !in l.live && n !in l.owner && 0 < n < |mem| && FreshSlab(m, base, n, c) && OnlyPage(mem, m, n)
    ensures Started(mem0, l0, m, base, Extended(h, c, n), Granted(l, n, 1), first + [Addr(base, n, 0)], c + 1)
  {
    hide HeapOk, LedgerOk, HeapHeld, FreshSlab, UserKept, OthersKept, OnlyPage, SlabAdded, Iota, FirstSlabs;
    StartedFacts(mem0, l0, mem, base, h, l, first, c);
    OneMoreSlab(base, h, first, c, n);
    FreshSlabAdded(mem, m, base, h, c, n);
    ExtendKeeps(mem, base, h, l, c, n, m);
    HeldFresh(h, l, n);
    OthersKeptAtStart(mem0, mem, m, h, l0, l);
    GrantedBeyond(l0.live, l, h.slabs.Keys, n);
    ExtendedKeys(h, c, n);
  }

  lemma FreshSlabAdded(mem: Mem, m: Mem, base: nat, h: Heap, c: nat, n: nat)
    requires c < 7 && |h.chains| == 7 && h.chains[c] == [] && FreshSlab(m, base, n, c) && OnlyPage(mem, m, n)
    ensures SlabAdded(mem, m, base, h, c, n)
  {}

  lemma ExtendedKeys(h: Heap, c: nat, n: nat)
    requires c < 7 && |h.chains| == 7 && n !in h.slabs
    ensures Extended(h, c, n).slabs.Keys == h.slabs.Keys + {n} && |Extended(h, c, n).slabs| == |h.slabs| + 1
  {
    var g := Extended(h, c, n);
    assert g.slabs.Keys == h.slabs.Keys + {n};
    assert |g.slabs| == |g.slabs.Keys|;
  }

  lemma OthersKeptAtStart(mem0: Mem, mem: Mem, m: Mem, h: Heap, l0: Ledger, l: Ledger)
    requires OthersKept(mem0, mem, EmptyHeap(), l0) && OthersKept(mem, m, h, l)
    requires l.live - h.slabs.Keys == l0.live && h.large == map[]
    ensures OthersKept(mem0, m, EmptyHeap(), l0)
  {
    forall q: nat, i: nat | q in l0.live ensures At(m, q, i) == At(mem0, q, i) {
      assert q in l.live - h.slabs.Keys;
      assert q !in EmptyHeap().slabs && q !in EmptyHeap().large;
    }
  }

  class KernelHeap {
    const pmm: Pmm
    const ram: Ram
    /** Where the higher-half direct map of physical memory starts. */
    const base: nat
    /** The seven static slab pointers, smallest class first. */
    var first: seq<nat>
    ghost var heap: Heap

    ghost predicate Valid()
      reads this, pmm, pmm.ram, pmm.bitmap, pmm.bitmap.data
    {
      && pmm.ram == ram && pmm.Valid()
      && HeapOk(ram.frames, base, heap) && HeapHeld(heap, pmm.ledger)
      && |first| == 7
      && forall c :: 0 <= c < 7 ==> heap.chains[c] != [] && first[c] == Addr(base, heap.chains[c][0], 0)
    }

    /** `Heap::init`: one slab page for each class. */
    constructor (pmm: Pmm, base: nat)
      requires pmm.Valid() && BaseOk(pmm.ram.frames, base) && |pmm.Free()| >= 7
      modifies pmm`lastPageIdx, pmm`ledger, pmm.bitmap.data, pmm.ram
      ensures Valid() && this.pmm == pmm && this.base == base && ram == pmm.ram
      ensures Started(old(pmm.ram.frames), old(pmm.ledger), ram.frames, base, heap, pmm.ledger, first, 7)
      ensures |pmm.Free()| == |old(pmm.Free())| - 7
    {
      this.pmm := pmm;
      this.ram := pmm.ram;
      this.base := base;
      this.first := [];
      this.heap := EmptyHeap();
      new;
      StartsEmpty(ram.frames, pmm.ledger, base);
      MakeSlabs();
    }

    method MakeSlabs()
      requires pmm.ram == ram && pmm.Valid() && |pmm.Free()| >= 7
      requires Started(ram.frames, pmm.ledger, ram.frames, base, heap, pmm.ledger, first, 0)
      modifies this, pmm`lastPageIdx, pmm`ledger, pmm.bitmap.data, ram
      ensures Valid()
      ensures Started(old(ram.frames), old(pmm.ledger), ram.frames, base, heap, pmm.ledger, first, 7)
      ensures |pmm.Free()| == |old(pmm.Free())| - 7
    {
      hide LedgerOk, BitsOk, FreePages, Started, HeapOk, HeapHeld;
      for c := 0 to 7
        invariant pmm.Valid() && |pmm.Free()| == |old(pmm.Free())| - c
        invariant Started(old(ram.frames), old(pmm.ledger), ram.frames, base, heap, pmm.ledger, first, c)
      {
        ghost var mem, h, l := ram.frames, heap, pmm.ledger;
        StartedFacts(old(ram.frames), old(pmm.ledger), mem, base, h, l, first, c);
        assert pmm.Free() != {};
        var page := NewSlab(c);
        StartStep(old(ram.frames), old(pmm.ledger), mem, base, h, l, first, c, page, ram.frames);
        heap := Extended(h, c, page);
        first := first + [Addr(base, page, 0)];
      }
      StartedFacts(old(ram.frames), old(pmm.ledger), ram.frames, base, heap, pmm.ledger, first, 7);
    }

    method LoadAt(a: nat) returns (w: Word)
      requires base <= a && AddrPage(base, a) < |ram.frames|
      ensures w == At(ram.frames, AddrPage(base, a), AddrWord(base, a))
    {
      w := ram.Load(AddrPage(base, a), AddrWord(base, a));
    }

    method StoreAt(a: nat, w: Word)
      requires base <= a && AddrPage(base, a) < |ram.frames|
      modifies ram
      ensures ram.frames == Put(old(ram.frames), AddrPage(base, a), AddrWord(base, a), w)
    {
      ram.Store(AddrPage(base, a), AddrWord(base, a), w);
    }

    /** `new_slab`. The source does not check that the page could be had, so one must be free. */
    method NewSlab(c: nat) returns (page: nat)
      requires c < 7 && pmm.Valid() && pmm.ram == ram && BaseOk(ram.frames, base) && pmm.Free() != {}
      modifies pmm`lastPageIdx, pmm`ledger, pmm.bitmap.data, ram
      ensures pmm.Valid() && 0 < page < |ram.frames| && |ram.frames| == |old(ram.frames)|
      ensures page !in old(pmm.ledger).live && page !in old(pmm.ledger).owner
      ensures pmm.ledger == Granted(old(pmm.ledger), page, 1)
      ensures |pmm.Free()| == |old(pmm.Free())| - 1
      ensures FreshSlab(ram.frames, base, page, c) && OnlyPage(old(ram.frames), ram.frames, page)
    {
      hide LedgerOk, BitsOk, FreePages;
      NoRunMeansNoPage(pmm.View());
      AllocTakes(pmm.View(), 1);
      var addr := pmm.Calloc(1);
      page := addr / 4096;
      FillSlab(page, c);
    }

    /** The stores of `new_slab`: the header, then each block linked to the next one. */
    method FillSlab(page: nat, c: nat)
      requires c < 7 && page < |ram.frames| && BaseOk(ram.frames, base)
      modifies ram
      ensures |ram.frames| == |old(ram.frames)|
      ensures FreshSlab(ram.frames, base, page, c) && OnlyPage(old(ram.frames), ram.frames, page)
    {
      BlockInPage(c, 0);
      ram.Store(page, 0, 8 * Words(c));
      ram.Store(page, 1, Addr(base, page, Off(c, 0)));
      ram.Store(page, 2, 0);
      var i := 0;
      while i < MaxBlocks(c) - 1
        invariant 0 <= i < MaxBlocks(c) && |ram.frames| == |old(ram.frames)|
        invariant OnlyPage(old(ram.frames), ram.frames, page)
        invariant At(ram.frames, page, 0) == 8 * Words(c) && At(ram.frames, page, 1) == Addr(base, page, Off(c, 0))
        invariant At(ram.frames, page, 2) == 0
        invariant forall k :: 0 <= k < i ==> At(ram.frames, page, Off(c, k)) == Addr(base, page, Off(c, k + 1))
      {
        ghost var mem := ram.frames;
        BlockInPage(c, i);
        BlockInPage(c, i + 1);
        ram.Store(page, Off(c, i), Addr(base, page, Off(c, i + 1)));
        forall k | 0 <= k < i ensures At(ram.frames, page, Off(c, k)) == At(mem, page, Off(c, k)) {
          BlocksApart(c, k, i);
        }
        i := i + 1;
      }
      ghost var mem := ram.frames;
      BlockInPage(c, i);
      ram.Store(page, Off(c, i), 0);
      forall k | 0 <= k < i ensures At(ram.frames, page, Off(c, k)) == At(mem, page, Off(c, k)) {
        BlocksApart(c, k, i);
      }
    }

    /** `Slab::alloc` on the slab at `self`, the k-th of the chain of class c: its first free block, or else, by
        recursion, one of the next slab, which is made first if there is none. */
    method SlabAlloc(self: nat, size: nat, c: nat, ghost k: nat) returns (a: nat)
      requires Valid() && c < 7 && k < |heap.chains[c]| && self == Addr(base, heap.chains[c][k], 0)
      requires size <= 8 * Words(c) && RoomFrom(heap, c, 0) == RoomFrom(heap, c, k)
      requires RoomFrom(heap, c, 0).Some? || pmm.Free() != {}
      modifies this`heap, pmm`lastPageIdx, pmm`ledger, pmm.bitmap.data, ram
      ensures Valid()
      ensures BlockTaken(base, old(heap), old(pmm.ledger), heap, pmm.ledger, c, size, a)
      ensures UserKept(old(ram.frames), ram.frames, old(heap), heap)
      ensures OthersKept(old(ram.frames), ram.frames, old(heap), old(pmm.ledger))
      ensures a !in old(heap).live
      decreases Ahead(heap, c, k)
    {
      hide LedgerOk, BitsOk, FreePages, HeapOk, HeapHeld, UserKept, OthersKept, Iota;
      ghost var mem, h, l := ram.frames, heap, pmm.ledger;
      ChainPlace(mem, base, h, c, k);
      AddrReads(base, h.chains[c][k], 1);
      AddrReads(base, h.chains[c][k], 2);
      var freeBlock := LoadAt(self + 8);
      if freeBlock != 0 {
        a := TakeBlock(self, freeBlock, size, c, k);
        return;
      }
      var next := LoadAt(self + 16);
      if next == 0 {
        next := ExtendChain(self, c, k);
        ghost var mem1, h1 := ram.frames, heap;
        ghost var n := h1.chains[c][k + 1];
        HeldFresh(h, l, n);
        ChainsAt(mem, base, h, c);
        RoomAfterExtension(h, c, n, 0);
        RoomAfterExtension(h, c, n, k + 1);
        a := SlabAlloc(next, size, c, k + 1);
        KeptThroughExtension(mem, mem1, ram.frames, h, l, c, n, h1, heap);
        return;
      }
      a := SlabAlloc(next, size, c, k + 1);
    }

    /** The last lines of `Slab::alloc`: the first free block leaves the list. */
    method TakeBlock(self: nat, freeBlock: nat, size: nat, c: nat, ghost k: nat) returns (a: nat)
      requires Valid() && c < 7 && k < |heap.chains[c]| && self == Addr(base, heap.chains[c][k], 0)
      requires heap.chains[c][k] in heap.slabs && heap.slabs[heap.chains[c][k]].cls == c
      requires heap.slabs[heap.chains[c][k]].free != []
      requires freeBlock == Addr(base, heap.chains[c][k], Off(c, heap.slabs[heap.chains[c][k]].free[0]))
      requires size <= 8 * Words(c)
      modifies this`heap, ram
      ensures Valid() && a == freeBlock && heap == Popped(old(heap), old(heap).chains[c][k], a, size)
      ensures UserKept(old(ram.frames), ram.frames, old(heap), heap)
      ensures OthersKept(old(ram.frames), ram.frames, old(heap), pmm.ledger)
      ensures a !in old(heap).live
    {
      hide LedgerOk, BitsOk, FreePages, HeapOk, HeapHeld, UserKept, OthersKept;
      ghost var mem, h := ram.frames, heap;
      ChainsAt(mem, base, h, c);
      ghost var p := h.chains[c][k];
      ChainPlace(mem, base, h, c, k);
      FreeBlockNotLive(mem, base, h, p, 0);
      BlockInPage(c, h.slabs[p].free[0]);
      AddrReads(base, p, Off(c, h.slabs[p].free[0]));
      AddrReads(base, p, 1);
      var next := LoadAt(freeBlock);
      StoreAt(self + 8, next);
      a := freeBlock;
      heap := Popped(h, p, a, size);
      TakeKeeps(mem, base, h, pmm.ledger, p, a, size, ram.frames);
    }

    /** The allocating branch of `Slab::alloc`: a fresh slab page at the end of the chain. */
    method ExtendChain(self: nat, c: nat, ghost k: nat) returns (next: nat)
      requires Valid() && c < 7 && k + 1 == |heap.chains[c]| && self == Addr(base, heap.chains[c][k], 0)
      requires pmm.Free() != {}
      modifies this`heap, pmm`lastPageIdx, pmm`ledger, pmm.bitmap.data, ram
      ensures Valid()
      ensures |heap.chains[c]| == k + 2
      ensures var n := heap.chains[c][k + 1];
              next == Addr(base, n, 0) && n !in old(pmm.ledger).live && pmm.ledger == Granted(old(pmm.ledger), n, 1)
              && heap == Extended(old(heap), c, n)
      ensures UserKept(old(ram.frames), ram.frames, old(heap), heap)
      ensures OthersKept(old(ram.frames), ram.frames, old(heap), old(pmm.ledger))
    {
      hide LedgerOk, BitsOk, FreePages, HeapOk, HeapHeld, UserKept, OthersKept, FreshSlab;
      ghost var mem, h, l := ram.frames, heap, pmm.ledger;
      ChainPlace(mem, base, h, c, k);
      AddrReads(base, h.chains[c][k], 2);
      var page := NewSlab(c);
      ghost var mid := ram.frames;
      HeldApart(h, l, h.chains[c][k], page);
      next := Addr(base, page, 0);
      StoreAt(self + 16, next);
      heap := Extended(h, c, page);
      SlabLinked(mem, mid, base, h, c, k, page, ram.frames);
      ExtendKeeps(mem, base, h, l, c, page, ram.frames);
    }

    /** `kmalloc`. The source does not check that the page allocator could serve it, so it must be able to. */
    method Kmalloc(size: Word) returns (a: nat)
      requires Valid()
      requires if size <= 512 then RoomFrom(heap, ClassOf(size), 0).Some? || pmm.Free() != {}
               else size <= MAX_SIZE && ChosenRun(pmm.View(), RunPages(size)).Some?
      modifies this`heap, pmm`lastPageIdx, pmm`ledger, pmm.bitmap.data, ram
      ensures Valid()
      ensures Taken(base, old(heap), old(pmm.ledger), heap, pmm.ledger, size, a)
      ensures size <= 512 ==> SmallServed(base, old(heap), old(pmm.ledger), heap, pmm.ledger, ClassOf(size), a)
      ensures UserKept(old(ram.frames), ram.frames, old(heap), heap)
      ensures OthersKept(old(ram.frames), ram.frames, old(heap), old(pmm.ledger))
      ensures a !in old(heap).live
    {
      hide LedgerOk, BitsOk, FreePages, HeapOk, HeapHeld, UserKept, OthersKept, BlockTaken, SmallServed;
      if size > 512 {
        a := TakeRun(size);
        return;
      }
      ghost var mem, h, l := ram.frames, heap, pmm.ledger;
      if size <= 8 {
        a := SlabAlloc(first[0], size, 0, 0);
      } else if size <= 16 {
        a := SlabAlloc(first[1], size, 1, 0);
      } else if size <= 32 {
        a := SlabAlloc(first[2], size, 2, 0);
      } else if size <= 64 {
        a := SlabAlloc(first[3], size, 3, 0);
      } else if size <= 128 {
        a := SlabAlloc(first[4], size, 4, 0);
      } else if size <= 256 {
        a := SlabAlloc(first[5], size, 5, 0);
      } else {
        a := SlabAlloc(first[6], size, 6, 0);
      }
      ChainsAt(mem, base, h, ClassOf(size));
      SmallIsServed(mem, base, h, l, heap, pmm.ledger, ClassOf(size), size, a);
    }

    /** The page-run branch of `kmalloc`: a header page, then the pages handed out. */
    method TakeRun(size: Word) returns (a: nat)
      requires Valid() && 512 < size <= MAX_SIZE && ChosenRun(pmm.View(), RunPages(size)).Some?
      modifies this`heap, pmm`lastPageIdx, pmm`ledger, pmm.bitmap.data, ram
      ensures Valid()
      ensures Taken(base, old(heap), old(pmm.ledger), heap, pmm.ledger, size, a)
      ensures UserKept(old(ram.frames), ram.frames, old(heap), heap)
      ensures OthersKept(old(ram.frames), ram.frames, old(heap), old(pmm.ledger))
      ensures a !in old(heap).live
    {
      hide LedgerOk, BitsOk, FreePages, HeapOk, HeapHeld, UserKept, OthersKept, RunPages;
      ghost var mem, h, l := ram.frames, heap, pmm.ledger;
      BaseAt(mem, base, h);
      ghost var s;
      a, s := RunFor(size);
      RunHasRoom(size, s);
      heap := WithRun(h, s, RunPages(size), a, size);
      RunTaken(mem, base, h, l, s, RunPages(size), size, ram.frames);
    }

    /** The code of that branch, for sizes that are too large as well (see RunHasRoom). */
    method RunFor(size: Word) returns (a: nat, ghost s: nat)
      requires pmm.Valid() && pmm.ram == ram && BaseOk(ram.frames, base) && ChosenRun(pmm.View(), RunPages(size)).Some?
      modifies pmm`lastPageIdx, pmm`ledger, pmm.bitmap.data, ram
      ensures pmm.Valid() && 0 < s && s + RunPages(size) <= |ram.frames|
      ensures s !in old(pmm.ledger).live && s !in old(pmm.ledger).owner
      ensures pmm.ledger == Granted(old(pmm.ledger), s, RunPages(size)) && a == Addr(base, s + 1, 0)
      ensures |ram.frames| == |old(ram.frames)| && ram.frames == RunMem(old(ram.frames), s, RunPages(size))
    {
      hide LedgerOk, BitsOk, FreePages;
      var pages := (size + 4095) % 0x1_0000_0000_0000_0000 / 4096 + 1;
      var addr := AllocRun(pages);
      s := addr / 4096;
      assert base + addr == Addr(base, s, 0) && base + addr + 4096 == Addr(base, s + 1, 0);
      WriteRunHeader(base + addr, s, pages);
      a := base + addr + 4096;
    }

    method AllocRun(pages: nat) returns (addr: nat)
      requires pmm.Valid() && pmm.ram == ram && ChosenRun(pmm.View(), pages).Some?
      modifies pmm`lastPageIdx, pmm`ledger, pmm.bitmap.data
      ensures pmm.Valid() && addr % 4096 == 0 && 0 < addr / 4096 && addr / 4096 + pages <= |ram.frames|
      ensures addr / 4096 !in old(pmm.ledger).live && addr / 4096 !in old(pmm.ledger).owner
      ensures pmm.ledger == Granted(old(pmm.ledger), addr / 4096, pages)
    {
      hide LedgerOk, BitsOk, FreePages;
      addr := pmm.Alloc(pages);
      RunInMemory(pmm.ledger, addr / 4096, pages, |ram.frames|);
    }

    method WriteRunHeader(header: nat, ghost s: nat, pages: nat)
      requires header == Addr(base, s, 0) && s < |ram.frames| && pages < WORD_LIMIT
      modifies ram
      ensures ram.frames == RunMem(old(ram.frames), s, pages)
    {
      AddrReads(base, s, 0);
      AddrReads(base, s, 1);
      AddrReads(base, s, 2);
      StoreAt(header, pages);
      StoreAt(header + 8, 0);
      StoreAt(header + 16, 0);
    }

    /** `kfree` of a live pointer. The alignment of the pointer and the first word of the page found from it decide. */
    method Kfree(a: nat)
      requires Valid() && a in heap.live
      modifies this`heap, pmm`ledger, pmm.bitmap.data, ram
      ensures Valid()
      ensures GivenBack(old(heap), old(pmm.ledger), heap, pmm.ledger, a)
      ensures UserKept(old(ram.frames), ram.frames, old(heap), heap)
      ensures OthersKept(old(ram.frames), ram.frames, old(heap), old(pmm.ledger))
    {
      hide LedgerOk, BitsOk, FreePages, HeapOk, HeapHeld, UserKept, OthersKept;
      ghost var mem, h, l := ram.frames, heap, pmm.ledger;
      AlignmentTells(mem, base, h, a);
      FreeFacts(mem, base, h, l, a);
      if a % 4096 == 0 {
        FreeRun(a);
        return;
      }
      var page := a - a % 4096;
      ghost var p, j := h.live[a].loc.page, h.live[a].loc.idx;
      PageStart(base, p, Off(h.slabs[p].cls, j));
      AddrReads(base, p, 0);
      var slabSize := LoadAt(page);
      if slabSize in {8, 16, 32, 64, 128, 256, 512} {
        SlabFree(page, a);
      }
    }

    /** The page-run branch of `kfree`: the header says how many pages go back. */
    method FreeRun(a: nat)
      requires Valid() && a in heap.live && heap.live[a].loc.Pages?
      modifies this`heap, pmm`ledger, pmm.bitmap.data
      ensures Valid()
      ensures GivenBack(old(heap), old(pmm.ledger), heap, pmm.ledger, a)
      ensures UserKept(old(ram.frames), ram.frames, old(heap), heap)
      ensures OthersKept(old(ram.frames), ram.frames, old(heap), old(pmm.ledger))
    {
      hide LedgerOk, BitsOk, FreePages, HeapOk, HeapHeld, UserKept, OthersKept;
      ghost var mem, h, l := ram.frames, heap, pmm.ledger;
      FreeFacts(mem, base, h, l, a);
      var header := a - 4096;
      AddrReads(base, h.live[a].loc.page, 0);
      var pages := LoadAt(header);
      pmm.FreeRunAt(header - base, pages);
      heap := WithoutRun(h, h.live[a].loc.page, a);
      RunGiven(mem, base, h, l, a);
    }

    /** `kmalloc` and at once `kfree`: the heap and the free pages are as before, except that a slab page that had to be
        made stays, empty, at the end of its chain; every live allocation keeps its contents. */
    method KmallocThenKfree(size: Word)
      requires Valid()
      requires if size <= 512 then RoomFrom(heap, ClassOf(size), 0).Some? || pmm.Free() != {}
               else size <= MAX_SIZE && ChosenRun(pmm.View(), RunPages(size)).Some?
      modifies this`heap, pmm`lastPageIdx, pmm`ledger, pmm.bitmap.data, ram
      ensures Valid() && UserKept(old(ram.frames), ram.frames, old(heap), heap)
      ensures if size > 512 || RoomFrom(old(heap), ClassOf(size), 0).Some? then
                heap == old(heap) && pmm.ledger == old(pmm.ledger) && pmm.Free() == old(pmm.Free())
              else
                exists n: nat :: n in old(pmm.Free()) && heap == Extended(old(heap), ClassOf(size), n)
                            && pmm.Free() == old(pmm.Free()) - {n}
    {
      hide LedgerOk, BitsOk, FreePages, HeapOk, HeapHeld, UserKept, OthersKept, Taken, GivenBack;
      ghost var mem, h, l, used := ram.frames, heap, pmm.ledger, pmm.Used();
      ChainsAt(mem, base, h, 0);
      var a := Kmalloc(size);
      ghost var m, g, l2 := ram.frames, heap, pmm.ledger;
      TakenIsLive(base, h, l, g, l2, size, a);
      Kfree(a);
      KfreeInvertsKmalloc(mem, base, h, l, size, a, g, l2, heap, pmm.ledger);
      if size > 512 || RoomFrom(h, ClassOf(size), 0).Some? {
        LiveFixesFree(l, pmm.ledger, used, pmm.Used());
      } else {
        ghost var n: nat :| n !in l.live && heap == Extended(h, ClassOf(size), n) && pmm.ledger == Granted(l, n, 1);
        GrantTakesFree(l, used, n, 1, pmm.Used());
        assert Run(n, 1) == {n};
      }
      KeptThroughBoth(mem, m, ram.frames, base, h, l, g, l2, size, a, heap);
    }

    /** `Slab::free`: the block becomes the head of the list of the slab at `self`. */
    method SlabFree(self: nat, a: nat)
      requires Valid() && a in heap.live && heap.live[a].loc.Block? && self == Addr(base, heap.live[a].loc.page, 0)
      modifies this`heap, ram
      ensures Valid()
      ensures GivenBack(old(heap), pmm.ledger, heap, pmm.ledger, a)
      ensures UserKept(old(ram.frames), ram.frames, old(heap), heap)
      ensures OthersKept(old(ram.frames), ram.frames, old(heap), pmm.ledger)
    {
      hide LedgerOk, BitsOk, FreePages, HeapOk, HeapHeld, UserKept, OthersKept;
      ghost var mem, h, l := ram.frames, heap, pmm.ledger;
      ghost var p, j := h.live[a].loc.page, h.live[a].loc.idx;
      FreeFacts(mem, base, h, l, a);
      AddrReads(base, p, Off(h.slabs[p].cls, j));
      AddrReads(base, p, 1);
      var head := LoadAt(self + 8);
      StoreAt(a, head);
      StoreAt(self + 8, a);
      heap := Pushed(h, p, j, a);
      BlockGiven(mem, base, h, l, a, ram.frames);
    }

    /** A store by the holder of a live pointer to the word `off` words into its allocation. */
    method UserStore(a: nat, off: nat, w: Word)
      requires Valid() && a in heap.live && 8 * off < heap.live[a].size
      modifies ram
      ensures Valid()
      ensures base <= a && |ram.frames| == |old(ram.frames)|
      ensures forall q: nat, i: nat :: At(ram.frames, q, i) ==
                if q == AddrPage(base, a + 8 * off) && i == AddrWord(base, a + 8 * off) then w
                else At(old(ram.frames), q, i)
      ensures forall b, q: nat, i: nat :: b != a && UserWord(heap, b, q, i) ==>
                At(ram.frames, q, i) == At(old(ram.frames), q, i)
      ensures OthersKept(old(ram.frames), ram.frames, heap, pmm.ledger)
    {
      hide LedgerOk, BitsOk, FreePages, HeapOk, HeapHeld, UserWord;
      ghost var mem := ram.frames;
      LargeEnough(mem, base, heap, a, off);
      ghost var q, i := AddrPage(base, a + 8 * off), AddrWord(base, a + 8 * off);
      UserPageInMemory(mem, base, heap, a, q, i);
      StoreAt(a + 8 * off, w);
      UserStoreKeeps(mem, base, heap, pmm.ledger, a, q, i, w);
      forall b | b != a && UserWord(heap, b, q, i) ensures false {
        UserWordsApart(mem, base, heap, pmm.ledger, a, b, q, i);
      }
      UserPageIsHeaps(mem, base, heap, pmm.ledger, a, q, i);
    }
  }
}
