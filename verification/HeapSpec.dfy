/** The kernel heap as data: slab pages with free lists threaded through their blocks, page runs for large requests,
    and the invariant that ties both to memory and to the page allocator's ledger. */
module HeapSpec {
  import opened PhysMem
  import opened Pmms

  // ---- Layout of a slab page

  /** Words per block of size class c: 8, 16, .. 512 bytes. */
  function Words(c: nat): (k: nat)
    requires c < 7
    ensures 1 <= k <= 64
  {
    match c case 0 => 1 case 1 => 2 case 2 => 4 case 3 => 8 case 4 => 16 case 5 => 32 case _ => 64
  }

  /** Where the blocks start: after the 24-byte header, or after one whole block when that is more. */
  function FirstWord(c: nat): nat
    requires c < 7
  {
    if Words(c) > 3 then Words(c) else 3
  }

  /** MAX_BLOCKS: (PAGE_SIZE - HEADER_SIZE) / block size. */
  function MaxBlocks(c: nat): nat
    requires c < 7
  {
    match c case 0 => 509 case 1 => 254 case 2 => 127 case 3 => 63 case 4 => 31 case 5 => 15 case _ => 7
  }

  /** The first word of block j. */
  function Off(c: nat, j: nat): nat
    requires c < 7
  {
    FirstWord(c) + j * Words(c)
  }

  lemma MaxBlocksIsQuotient(c: nat)
    requires c < 7
    ensures MaxBlocks(c) == (4096 - 24) / (8 * Words(c))
  {}

  /** Every block lies in the page, behind the header. */
  lemma BlockInPage(c: nat, j: nat)
    requires c < 7 && j < MaxBlocks(c)
    ensures 3 <= Off(c, j) && Off(c, j) + Words(c) <= 512
  {
    match c { case 0 => case 1 => case 2 => case 3 => case 4 => case 5 => case _ => }
  }

  /** Two blocks of a page do not overlap. */
  lemma BlocksApart(c: nat, i: nat, j: nat)
    requires c < 7 && i != j
    ensures Off(c, i) + Words(c) <= Off(c, j) || Off(c, j) + Words(c) <= Off(c, i)
  {
    match c { case 0 => case 1 => case 2 => case 3 => case 4 => case 5 => case _ => }
  }

  /** A block is aligned to its size, but for 16-byte blocks, which start 8 bytes off. */
  lemma BlockAligned(c: nat, j: nat)
    requires c < 7
    ensures 8 * Off(c, j) % (8 * Words(c)) == 0 <==> c != 1
    ensures c == 1 ==> 8 * Off(c, j) % 16 == 8
  {
    match c { case 0 => case 1 => case 2 => case 3 => case 4 => case 5 => case _ => }
  }

  // ---- Pointers

  /** The virtual address of word w of page p in the higher-half direct map that starts at `base`. */
  function Addr(base: nat, p: nat, w: nat): nat
  {
    base + 4096 * p + 8 * w
  }

  function AddrPage(base: nat, a: nat): nat
    requires base <= a
  {
    (a - base) / 4096
  }

  function AddrWord(base: nat, a: nat): nat
    requires base <= a
  {
    (a - base) % 4096 / 8
  }

  lemma AddrReads(base: nat, p: nat, w: nat)
    requires w < 512
    ensures AddrPage(base, Addr(base, p, w)) == p && AddrWord(base, Addr(base, p, w)) == w
  {}

  // ---- State

  /** A slab page: its size class, its place in that class's chain, its free blocks in list order. */
  datatype Slab = Slab(cls: nat, pos: nat, free: seq<nat>)

  /** Where a live allocation is: block `idx` of slab page `page`, or the pages after the header page `page`. */
  datatype Loc = Block(page: nat, idx: nat) | Pages(page: nat)

  datatype Cell = Cell(size: nat, loc: Loc)

  /** `live` gives each pointer handed out and not yet freed the size asked for and its place. */
  datatype Heap = Heap(slabs: map<nat, Slab>, chains: seq<seq<nat>>, large: map<nat, nat>, live: map<nat, Cell>)

  /** The pointer to the k-th block of the free list, null after the last. */
  function Link(base: nat, p: nat, c: nat, free: seq<nat>, k: nat): nat
    requires c < 7
  {
    if k < |free| then Addr(base, p, Off(c, free[k])) else 0
  }

  ghost predicate NoRepeats(s: seq<nat>)
  {
    forall k, l :: 0 <= k < l < |s| ==> s[k] != s[l]
  }

  /** The free list threaded through page p is `free`. */
  ghost predicate ListOk(mem: Mem, base: nat, p: nat, c: nat, free: seq<nat>)
    requires c < 7
  {
    && NoRepeats(free)
    && At(mem, p, 1) == Link(base, p, c, free, 0)
    && forall k :: 0 <= k < |free| ==>
      free[k] < MaxBlocks(c) && At(mem, p, Off(c, free[k])) == Link(base, p, c, free, k + 1)
  }

  ghost predicate SlabOk(mem: Mem, base: nat, h: Heap, p: nat)
    requires |h.chains| == 7 && p in h.slabs
  {
    var s := h.slabs[p];
    && 0 < p < |mem| && s.cls < 7
    && s.pos < |h.chains[s.cls]| && h.chains[s.cls][s.pos] == p
    && At(mem, p, 0) == 8 * Words(s.cls)
    && At(mem, p, 2) == NextSlab(base, h.chains[s.cls], s.pos)
    && ListOk(mem, base, p, s.cls, s.free)
  }

  /** The pointer from the slab at place `pos` of a chain to the next one. */
  function NextSlab(base: nat, chain: seq<nat>, pos: nat): nat
  {
    if pos + 1 < |chain| then Addr(base, chain[pos + 1], 0) else 0
  }

  ghost predicate ChainOk(h: Heap, c: nat)
    requires c < |h.chains|
  {
    forall k :: 0 <= k < |h.chains[c]| ==>
      h.chains[c][k] in h.slabs && h.slabs[h.chains[c][k]].cls == c && h.slabs[h.chains[c][k]].pos == k
  }

  ghost predicate LargeOk(mem: Mem, h: Heap, p: nat)
    requires p in h.large
  {
    0 < p && 2 <= h.large[p] && p + h.large[p] <= |mem| && At(mem, p, 0) == h.large[p]
  }

  /** A block is live exactly when it is not on its slab's free list. */
  ghost predicate BlockOk(base: nat, h: Heap, p: nat, j: nat)
    requires p in h.slabs && h.slabs[p].cls < 7
  {
    j < MaxBlocks(h.slabs[p].cls) && j !in h.slabs[p].free ==>
      Addr(base, p, Off(h.slabs[p].cls, j)) in h.live
      && h.live[Addr(base, p, Off(h.slabs[p].cls, j))].loc == Block(p, j)
  }

  ghost predicate LargeLive(base: nat, h: Heap, p: nat)
  {
    Addr(base, p + 1, 0) in h.live && h.live[Addr(base, p + 1, 0)].loc == Pages(p)
  }

  /** A live pointer points to a block or page run of the heap that is big enough and not free. */
  ghost predicate CellOk(base: nat, h: Heap, a: nat)
    requires a in h.live
  {
    match h.live[a].loc
    case Block(p, j) =>
      && p in h.slabs && h.slabs[p].cls < 7 && j < MaxBlocks(h.slabs[p].cls) && j !in h.slabs[p].free
      && a == Addr(base, p, Off(h.slabs[p].cls, j)) && h.live[a].size <= 8 * Words(h.slabs[p].cls)
    case Pages(p) =>
      p in h.large && 1 <= h.large[p] && a == Addr(base, p + 1, 0) && 512 < h.live[a].size <= 4096 * (h.large[p] - 1)
  }

  /** Every page the heap uses is a live allocation of the page allocator, of the right length. */
  ghost predicate HeapHeld(h: Heap, l: Ledger)
  {
    && (forall p :: p in h.slabs ==> p in l.live && l.live[p] == 1)
    && (forall p :: p in h.large ==> p in l.live && l.live[p] == h.large[p])
  }

  ghost predicate BaseOk(mem: Mem, base: nat)
  {
    base % 4096 == 0 && base + 4096 * |mem| < WORD_LIMIT
  }

  ghost predicate HeapOk(mem: Mem, base: nat, h: Heap)
  {
    && BaseOk(mem, base)
    && |h.chains| == 7
    && (forall c :: 0 <= c < 7 ==> ChainOk(h, c))
    && (forall p :: p in h.slabs ==> SlabOk(mem, base, h, p))
    && (forall p :: p in h.large ==> LargeOk(mem, h, p) && LargeLive(base, h, p))
    && (forall p, j: nat :: p in h.slabs ==> BlockOk(base, h, p, j))
    && (forall a :: a in h.live ==> CellOk(base, h, a))
  }

  /** The invariant at one slab, one live pointer. */
  lemma SlabAt(mem: Mem, base: nat, h: Heap, p: nat)
    requires HeapOk(mem, base, h) && p in h.slabs
    ensures |h.chains| == 7 && SlabOk(mem, base, h, p) && base % 4096 == 0 && base + 4096 * |mem| < WORD_LIMIT
  {}

  lemma CellAt(mem: Mem, base: nat, h: Heap, a: nat)
    requires HeapOk(mem, base, h) && a in h.live
    ensures CellOk(base, h, a)
  {}

  // ---- What the invariant means for the holders of pointers

  /** Word i of page q belongs to the live allocation at a. */
  predicate UserWord(h: Heap, a: nat, q: nat, i: nat)
  {
    && a in h.live && i < 512
    && match h.live[a].loc
       case Block(p, j) =>
         q == p && p in h.slabs && h.slabs[p].cls < 7
         && Off(h.slabs[p].cls, j) <= i < Off(h.slabs[p].cls, j) + Words(h.slabs[p].cls)
       case Pages(p) => p in h.large && p < q < p + h.large[p]
  }

  /** Word i lies in the k-th free block of slab page q. */
  predicate FreeBlockWord(h: Heap, q: nat, k: nat, i: nat)
    requires q in h.slabs && h.slabs[q].cls < 7 && k < |h.slabs[q].free|
  {
    Off(h.slabs[q].cls, h.slabs[q].free[k]) <= i < Off(h.slabs[q].cls, h.slabs[q].free[k]) + Words(h.slabs[q].cls)
  }

  /** Word i of page q is part of a header or of a block on a free list. */
  predicate HeapWord(h: Heap, q: nat, i: nat)
  {
    || q in h.large
    || (q in h.slabs && h.slabs[q].cls < 7
        && (i < 3 || exists k :: 0 <= k < |h.slabs[q].free| && FreeBlockWord(h, q, k, i)))
  }

  lemma SlabNotLarge(mem: Mem, base: nat, h: Heap, l: Ledger, p: nat)
    requires HeapOk(mem, base, h) && HeapHeld(h, l) && p in h.slabs
    ensures p !in h.large
  {}

  lemma SlabRunApart(h: Heap, l: Ledger, p: nat, r: nat)
    requires LedgerOk(l) && HeapHeld(h, l) && p in h.slabs && r in h.large && 2 <= h.large[r]
    ensures !(r <= p < r + h.large[r])
  {
    assert p != r;
    LiveRunsDisjoint(l, p, r);
  }

  lemma RunsApart(h: Heap, l: Ledger, p: nat, r: nat)
    requires LedgerOk(l) && HeapHeld(h, l) && p in h.large && r in h.large && p != r
    ensures p + h.large[p] <= r || r + h.large[r] <= p
  {
    LiveRunsDisjoint(l, p, r);
  }

  /** No word belongs to two live allocations. */
  lemma UserWordsApart(mem: Mem, base: nat, h: Heap, l: Ledger, a: nat, b: nat, q: nat, i: nat)
    requires HeapOk(mem, base, h) && HeapHeld(h, l) && LedgerOk(l)
    requires UserWord(h, a, q, i) && UserWord(h, b, q, i)
    ensures a == b
  {
    assert CellOk(base, h, a) && CellOk(base, h, b);
    match h.live[a].loc {
      case Block(p, j) =>
        match h.live[b].loc {
          case Block(p', j') => if j != j' { BlocksApart(h.slabs[p].cls, j, j'); }
          case Pages(r) => assert LargeOk(mem, h, r); SlabRunApart(h, l, p, r);
        }
      case Pages(r) =>
        assert LargeOk(mem, h, r);
        match h.live[b].loc {
          case Block(p, j) => SlabRunApart(h, l, p, r);
          case Pages(r') => if r != r' { RunsApart(h, l, r, r'); }
        }
    }
  }

  /** No word of a live allocation is part of a header or of a free block. */
  lemma UserWordsClear(mem: Mem, base: nat, h: Heap, l: Ledger, a: nat, q: nat, i: nat)
    requires HeapOk(mem, base, h) && HeapHeld(h, l) && LedgerOk(l)
    requires UserWord(h, a, q, i)
    ensures !HeapWord(h, q, i)
  {
    assert CellOk(base, h, a);
    match h.live[a].loc {
      case Block(p, j) =>
        var c := h.slabs[p].cls;
        BlockInPage(c, j);
        forall k | 0 <= k < |h.slabs[q].free| ensures !FreeBlockWord(h, q, k, i) {
          BlocksApart(c, j, h.slabs[q].free[k]);
        }
        SlabNotLarge(mem, base, h, l, p);
      case Pages(r) =>
        assert LargeOk(mem, h, r);
        if q in h.slabs { SlabRunApart(h, l, q, r); }
        if q in h.large { assert LargeOk(mem, h, q); RunsApart(h, l, q, r); }
    }
  }

  /** Every word within the size asked for belongs to the allocation: it is large enough. */
  lemma LargeEnough(mem: Mem, base: nat, h: Heap, a: nat, off: nat)
    requires HeapOk(mem, base, h) && a in h.live && 8 * off < h.live[a].size
    ensures base <= a && UserWord(h, a, AddrPage(base, a + 8 * off), AddrWord(base, a + 8 * off))
  {
    assert CellOk(base, h, a);
    match h.live[a].loc {
      case Block(p, j) =>
        BlockInPage(h.slabs[p].cls, j);
        AddrReads(base, p, Off(h.slabs[p].cls, j) + off);
      case Pages(p) =>
        AddrReads(base, p + 1 + off / 512, off % 512);
        assert a + 8 * off == Addr(base, p + 1 + off / 512, off % 512);
    }
  }

  /** The byte ranges of two live allocations are disjoint. */
  lemma LiveDisjoint(mem: Mem, base: nat, h: Heap, l: Ledger, a: nat, b: nat)
    requires HeapOk(mem, base, h) && HeapHeld(h, l) && LedgerOk(l)
    requires a in h.live && b in h.live && a < b
    ensures a + h.live[a].size <= b
  {
    hide HeapOk, HeapHeld, LedgerOk, UserWord;
    PointerIsWord(mem, base, h, a);
    PointerIsWord(mem, base, h, b);
    if b < a + h.live[a].size {
      var off := (b - a) / 8;
      assert a + 8 * off == b;
      LargeEnough(mem, base, h, a, off);
      FirstWordIsUser(mem, base, h, b);
      UserWordsApart(mem, base, h, l, a, b, AddrPage(base, b), AddrWord(base, b));
    }
  }

  lemma PointerIsWord(mem: Mem, base: nat, h: Heap, a: nat)
    requires HeapOk(mem, base, h) && a in h.live
    ensures a % 8 == 0
  {
    assert CellOk(base, h, a);
    match h.live[a].loc {
      case Block(p, j) => AddrIsWord(base, p, Off(h.slabs[p].cls, j));
      case Pages(p) => AddrIsWord(base, p + 1, 0);
    }
  }

  lemma AddrIsWord(base: nat, p: nat, w: nat)
    requires base % 4096 == 0
    ensures Addr(base, p, w) % 8 == 0
  {
    assert Addr(base, p, w) == 8 * (512 * (base / 4096) + 512 * p + w);
  }

  lemma FirstWordIsUser(mem: Mem, base: nat, h: Heap, b: nat)
    requires HeapOk(mem, base, h) && b in h.live
    ensures base <= b && UserWord(h, b, AddrPage(base, b), AddrWord(base, b))
  {
    assert CellOk(base, h, b);
    match h.live[b].loc {
      case Block(p, j) =>
        BlockInPage(h.slabs[p].cls, j);
        AddrReads(base, p, Off(h.slabs[p].cls, j));
      case Pages(p) =>
        assert LargeOk(mem, h, p);
        AddrReads(base, p + 1, 0);
    }
  }

  /** `kfree`'s alignment test: a live pointer is page-aligned exactly when it is to a page run; otherwise the page it
      is in is the slab that owns it. */
  lemma AlignmentTells(mem: Mem, base: nat, h: Heap, a: nat)
    requires HeapOk(mem, base, h) && a in h.live
    ensures base <= a
    ensures a % 4096 == 0 <==> h.live[a].loc.Pages?
    ensures h.live[a].loc.Pages? ==> a - 4096 == Addr(base, h.live[a].loc.page, 0)
    ensures h.live[a].loc.Block? ==> AddrPage(base, a) == h.live[a].loc.page
  {
    assert CellOk(base, h, a);
    match h.live[a].loc {
      case Block(p, j) =>
        BlockInPage(h.slabs[p].cls, j);
        AddrReads(base, p, Off(h.slabs[p].cls, j));
        OffsetNotAligned(base, p, Off(h.slabs[p].cls, j));
      case Pages(p) =>
    }
  }

  lemma OffsetNotAligned(base: nat, p: nat, w: nat)
    requires base % 4096 == 0 && 0 < w < 512
    ensures Addr(base, p, w) % 4096 != 0
  {
    assert Addr(base, p, w) == 4096 * (base / 4096 + p) + 8 * w;
  }
}
