/** The memory stack as a whole: one physical memory and one page allocator under the heap and the page tables. What
    either of the two does leaves the other's world exactly as it was. */
module Machines {
  import opened NextFit
  import opened PhysMem
  import opened Pmms
  import opened PageTables
  import opened TableTrees
  import opened VmmSpec
  import opened Vmms
  import opened HeapSpec
  import opened HeapSteps
  import opened KernelHeaps

  // ---- Frames

  /** Tables whose pages read the same form the same trees .. */
  lemma TablesFrame(mem: Mem, m: Mem, tabs: Tables, kernel: nat)
    requires TablesOk(mem, tabs, kernel) && |m| == |mem|
    requires forall p: nat, i: nat :: p in tabs ==> At(m, p, i) == At(mem, p, i)
    ensures TablesOk(m, tabs, kernel)
  {
    forall p | p in tabs ensures TableOk(m, tabs, p) { assert TableOk(mem, tabs, p); }
    forall p, i: nat | p in tabs ensures EntryOk(m, tabs, kernel, p, i) { assert EntryOk(mem, tabs, kernel, p, i); }
    forall p | p in tabs ensures Hangs(m, tabs, kernel, p) { assert Hangs(mem, tabs, kernel, p); }
    forall p | p in tabs && tabs[p].level == 4 ensures HigherHalfOk(m, kernel, p) {
      assert HigherHalfOk(mem, kernel, p);
    }
  }

  /** .. and translate the same. */
  lemma TranslationsFrame(mem: Mem, m: Mem, tabs: Tables, kernel: nat, r: nat, v: nat)
    requires TablesOk(mem, tabs, kernel) && IsRoot(tabs, r)
    requires forall p: nat, i: nat :: p in tabs ==> At(m, p, i) == At(mem, p, i)
    ensures Translate(m, r, v) == Translate(mem, r, v)
  {
    forall l | 1 <= l <= 4 && Reach(mem, r, v, l).Some? ensures Reach(mem, r, v, l).value in tabs {
      ReachInTables(mem, tabs, kernel, r, v, l);
    }
    WalkUnchanged(mem, m, r, v, 1);
  }

  /** A heap whose slab and header pages read the same is as sound as it was. */
  lemma HeapFrame(mem: Mem, m: Mem, base: nat, h: Heap)
    requires HeapOk(mem, base, h) && |m| == |mem|
    requires forall p: nat, i: nat :: p in h.slabs || p in h.large ==> At(m, p, i) == At(mem, p, i)
    ensures HeapOk(m, base, h)
  {
    forall p | p in h.slabs ensures SlabOk(m, base, h, p) { assert SlabOk(mem, base, h, p); }
    forall p | p in h.large ensures LargeOk(m, h, p) { assert LargeOk(mem, h, p); }
  }

  ghost predicate Separate(h: Heap, tabs: Tables)
  {
    h.slabs.Keys !! tabs.Keys && h.large.Keys !! tabs.Keys
  }

  /** No page with a live heap word is a table. */
  lemma UserPageNotTable(mem: Mem, base: nat, h: Heap, l: Ledger, tabs: Tables, a: nat, q: nat, i: nat)
    requires HeapOk(mem, base, h) && HeapHeld(h, l) && LedgerOk(l) && TablesHeld(tabs, l) && Separate(h, tabs)
    requires UserWord(h, a, q, i)
    ensures q !in tabs
  {
    CellAt(mem, base, h, a);
    var p := h.live[a].loc.page;
    if q in tabs && p != q { LiveRunsDisjoint(l, p, q); }
  }

  /** After a step of the heap: the tables are where they were and hold what they held. */
  lemma HeapStepKeepsTables(a: Snap, b: Snap, kernel: nat, h: Heap)
    requires SnapOk(a, kernel) && Separate(h, a.tabs) && KernelHeaps.OthersKept(a.mem, b.mem, h, a.ledger)
    requires b.tabs == a.tabs && TablesHeld(b.tabs, b.ledger)
    ensures SnapOk(b, kernel) && SameTranslations(a, b)
  {
    TablesFrame(a.mem, b.mem, a.tabs, kernel);
    forall r, v: nat | IsRoot(a.tabs, r) ensures Translate(b.mem, r, v) == Translate(a.mem, r, v) {
      TranslationsFrame(a.mem, b.mem, a.tabs, kernel, r, v);
    }
  }

  /** After a step of the page tables that wrote only to tables: the heap is sound and every live word is as it was. */
  lemma TableStepKeepsHeap(a: Snap, b: Snap, base: nat, h: Heap)
    requires HeapOk(a.mem, base, h) && HeapHeld(h, b.ledger) && LedgerOk(b.ledger) && TablesHeld(b.tabs, b.ledger)
    requires OutsideKept(a, b) && Separate(h, b.tabs)
    ensures HeapOk(b.mem, base, h) && UserKept(a.mem, b.mem, h, h)
  {
    HeapFrame(a.mem, b.mem, base, h);
    forall x, q: nat, i: nat | x in h.live && UserWord(h, x, q, i) ensures At(b.mem, q, i) == At(a.mem, q, i) {
      UserPageNotTable(b.mem, base, h, b.ledger, b.tabs, x, q, i);
    }
  }

  /** Fresh tables cannot be heap pages, and the heap keeps its pages when tables are added. */
  lemma GrowthSeparate(a: Snap, b: Snap, h: Heap)
    requires MoreTables(a, b) && HeapHeld(h, a.ledger) && Separate(h, a.tabs)
    ensures HeapHeld(h, b.ledger) && Separate(h, b.tabs)
  {}

  /** Fresh heap pages cannot be tables, and the tables keep their pages when the heap allocates .. */
  lemma TakenSeparate(base: nat, h: Heap, l: Ledger, g: Heap, l2: Ledger, size: Word, a: nat, tabs: Tables)
    requires |h.chains| == 7 && Taken(base, h, l, g, l2, size, a) && TablesHeld(tabs, l) && Separate(h, tabs)
    ensures TablesHeld(tabs, l2) && Separate(g, tabs)
  {}

  /** .. or frees. */
  lemma GivenBackSeparate(h: Heap, l: Ledger, g: Heap, l2: Ledger, a: nat, tabs: Tables)
    requires a in h.live && GivenBack(h, l, g, l2, a) && TablesHeld(tabs, l) && Separate(h, tabs)
    ensures TablesHeld(tabs, l2) && Separate(g, tabs)
  {}

  /** Destroying a space takes none of the heap's pages. */
  lemma GoneSeparate(a: Snap, b: Snap, r: nat, h: Heap)
    requires SpaceGone(a, b, r) && HeapHeld(h, a.ledger) && Separate(h, a.tabs)
    ensures HeapHeld(h, b.ledger) && Separate(h, b.tabs) && b.mem == a.mem
  {}

  lemma MadeSeparate(a: Snap, b: Snap, kernel: nat, n: nat, h: Heap)
    requires SpaceMade(a, b, kernel, n) && HeapHeld(h, a.ledger) && Separate(h, a.tabs)
    ensures HeapHeld(h, b.ledger) && Separate(h, b.tabs)
  {}

  /** The first tables are fresh and leave the heap's pages alone. */
  lemma BootSeparate(mem: Mem, base: nat, h: Heap, l: Ledger, m: Mem, tabs: Tables, l2: Ledger)
    requires HeapOk(mem, base, h) && HeapHeld(h, l) && HeldGrew(map[], l, tabs, l2) && PagesKept(mem, m, tabs.Keys)
    ensures HeapOk(m, base, h) && HeapHeld(h, l2) && Separate(h, tabs)
  {
    forall p | p in h.slabs || p in h.large ensures p !in tabs && p in l2.live && l2.live[p] == l.live[p] {
      assert p in l2.live - tabs.Keys;
    }
    HeapFrame(mem, m, base, h);
  }

  class Machine {
    const pmm: Pmm
    const heap: KernelHeap
    const vmm: Vmm

    ghost predicate Valid()
      reads this, heap, vmm, pmm, pmm.ram, pmm.bitmap, pmm.bitmap.data
    {
      heap.pmm == pmm && vmm.pmm == pmm && heap.Valid() && vmm.Valid() && Separate(heap.heap, vmm.tabs)
    }

    /** Bootstrap in the order of `_start`, over a page allocator just set up: heap, then page tables. */
    constructor (pmm: Pmm, base: nat)
      requires pmm.Valid() && BaseOk(pmm.ram.frames, base) && |pmm.ram.frames| <= 0x100_0000_0000
      requires |pmm.Free()| >= 7 + 257
      modifies pmm`lastPageIdx, pmm`ledger, pmm.bitmap.data, pmm.ram
      ensures Valid() && this.pmm == pmm && fresh(heap) && fresh(vmm) && heap.heap.live == map[]
      ensures forall v :: Translate(pmm.ram.frames, vmm.kernelSpace.pml4, v) == None
    {
      hide LedgerOk, BitsOk, FreePages, HeapOk, HeapHeld, TablesOk, TablesHeld, Started, HeldGrew, PagesKept;
      var h := new KernelHeap(pmm, base);
      ghost var mem, l := pmm.ram.frames, pmm.ledger;
      StartedFacts(old(pmm.ram.frames), old(pmm.ledger), mem, base, h.heap, l, h.first, 7);
      var v := new Vmm(pmm);
      v.Init();
      BootSeparate(mem, base, h.heap, l, pmm.ram.frames, v.tabs, pmm.ledger);
      this.pmm := pmm;
      this.heap := h;
      this.vmm := v;
    }

    /** `kmalloc`: no space's translations change, other live allocations keep their contents. */
    method Kmalloc(size: Word) returns (a: nat)
      requires Valid()
      requires if size <= 512 then RoomFrom(heap.heap, ClassOf(size), 0).Some? || pmm.Free() != {}
               else size <= MAX_SIZE && ChosenRun(pmm.View(), RunPages(size)).Some?
      modifies heap`heap, pmm`lastPageIdx, pmm`ledger, pmm.bitmap.data, pmm.ram
      ensures Valid() && SameTranslations(old(vmm.Now()), vmm.Now())
      ensures a !in old(heap.heap).live
      ensures Taken(heap.base, old(heap.heap), old(pmm.ledger), heap.heap, pmm.ledger, size, a)
      ensures UserKept(old(pmm.ram.frames), pmm.ram.frames, old(heap.heap), heap.heap)
    {
      hide LedgerOk, BitsOk, FreePages, HeapOk, HeapHeld, TablesOk, TablesHeld, Taken, UserKept, SameTranslations;
      hide Separate;
      ghost var s, h := vmm.Now(), heap.heap;
      ChainsAt(s.mem, heap.base, h, 0);
      a := heap.Kmalloc(size);
      TakenSeparate(heap.base, h, s.ledger, heap.heap, pmm.ledger, size, a, vmm.tabs);
      HeapStepKeepsTables(s, vmm.Now(), vmm.kernelSpace.pml4, h);
    }

    /** `kfree`. */
    method Kfree(a: nat)
      requires Valid() && a in heap.heap.live
      modifies heap`heap, pmm`ledger, pmm.bitmap.data, pmm.ram
      ensures Valid() && SameTranslations(old(vmm.Now()), vmm.Now())
      ensures GivenBack(old(heap.heap), old(pmm.ledger), heap.heap, pmm.ledger, a)
      ensures UserKept(old(pmm.ram.frames), pmm.ram.frames, old(heap.heap), heap.heap)
    {
      hide LedgerOk, BitsOk, FreePages, HeapOk, HeapHeld, TablesOk, TablesHeld, GivenBack, UserKept, SameTranslations;
      hide Separate;
      ghost var s, h := vmm.Now(), heap.heap;
      heap.Kfree(a);
      GivenBackSeparate(h, s.ledger, heap.heap, pmm.ledger, a, vmm.tabs);
      HeapStepKeepsTables(s, vmm.Now(), vmm.kernelSpace.pml4, h);
    }

    /** A store through a live pointer: no translation changes. */
    method UserStore(a: nat, off: nat, w: Word)
      requires Valid() && a in heap.heap.live && 8 * off < heap.heap.live[a].size
      modifies pmm.ram
      ensures Valid() && SameTranslations(old(vmm.Now()), vmm.Now())
    {
      hide LedgerOk, BitsOk, FreePages, HeapOk, HeapHeld, TablesOk, TablesHeld, SameTranslations;
      ghost var s := vmm.Now();
      heap.UserStore(a, off, w);
      HeapStepKeepsTables(s, vmm.Now(), vmm.kernelSpace.pml4, heap.heap);
    }

    /** `AddressSpace::map`: besides its effect on the translations, no live heap word changes. */
    method Map(root: nat, virt: Word, phys: Word, flags: Word) returns (ghost built: bool)
      requires Valid() && IsRoot(vmm.tabs, root)
      modifies vmm`tabs, pmm`lastPageIdx, pmm`ledger, pmm.bitmap.data, pmm.ram
      ensures Valid() && heap.heap == old(heap.heap)
      ensures MapsOne(old(vmm.Now()), vmm.Now(), root, Vpn(virt), LeafEntry(phys, flags), built)
      ensures UserKept(old(pmm.ram.frames), pmm.ram.frames, heap.heap, heap.heap)
    {
      hide LedgerOk, BitsOk, FreePages, HeapOk, HeapHeld, TablesOk, TablesHeld, MapsOne, UserKept, OutsideKept;
      hide TablesGrew, MoreTables, Separate;
      ghost var s := vmm.Now();
      built := vmm.Map(root, virt, phys, flags);
      GrewMore(s, vmm.Now(), HomeOf(root, Vpn(virt)));
      GrowthSeparate(s, vmm.Now(), heap.heap);
      TableStepKeepsHeap(s, vmm.Now(), heap.base, heap.heap);
    }

    /** `AddressSpace::map_range`. */
    method MapRange(root: nat, virt: Word, phys: Word, pages: Word, flags: Word) returns (ghost complete: bool)
      requires Valid() && IsRoot(vmm.tabs, root)
      modifies vmm`tabs, pmm`lastPageIdx, pmm`ledger, pmm.bitmap.data, pmm.ram
      ensures Valid() && heap.heap == old(heap.heap)
      ensures MapsRange(old(vmm.Now()), vmm.Now(), root, virt, phys, pages % 0x10_0000_0000_0000, flags, complete)
      ensures UserKept(old(pmm.ram.frames), pmm.ram.frames, heap.heap, heap.heap)
    {
      hide LedgerOk, BitsOk, FreePages, HeapOk, HeapHeld, TablesOk, TablesHeld, MapsRange, UserKept, OutsideKept;
      hide MoreTables, Separate;
      ghost var s := vmm.Now();
      complete := vmm.MapRange(root, virt, phys, pages, flags);
      GrowthSeparate(s, vmm.Now(), heap.heap);
      TableStepKeepsHeap(s, vmm.Now(), heap.base, heap.heap);
    }

    /** `AddressSpace::virt_to_phys`. */
    method VirtToPhys(root: nat, virt: Word) returns (phys: Word)
      requires Valid() && IsRoot(vmm.tabs, root)
      modifies vmm`tabs, pmm`lastPageIdx, pmm`ledger, pmm.bitmap.data, pmm.ram
      ensures Valid() && heap.heap == old(heap.heap)
      ensures SameTranslations(old(vmm.Now()), vmm.Now())
      ensures UserKept(old(pmm.ram.frames), pmm.ram.frames, heap.heap, heap.heap)
      ensures phys == match Translate(old(pmm.ram.frames), root, Vpn(virt))
                      case None => 0xffff_ffff_ffff_ffff
                      case Some(w) => FrameOf(w) * 4096
    {
      hide LedgerOk, BitsOk, FreePages, HeapOk, HeapHeld, TablesOk, TablesHeld, UserKept, OutsideKept, TablesGrew;
      hide MoreTables, Separate;
      hide SameTranslations, EntriesKept;
      ghost var s := vmm.Now();
      phys := vmm.VirtToPhys(root, virt);
      GrewMore(s, vmm.Now(), HomeOf(root, Vpn(virt)));
      GrowthSeparate(s, vmm.Now(), heap.heap);
      TableStepKeepsHeap(s, vmm.Now(), heap.base, heap.heap);
    }

    /** `Vmm::new_space`. */
    method NewSpace() returns (space: AddressSpace)
      requires Valid() && pmm.Free() != {}
      modifies vmm`tabs, pmm`lastPageIdx, pmm`ledger, pmm.bitmap.data, pmm.ram
      ensures Valid() && heap.heap == old(heap.heap)
      ensures SpaceMade(old(vmm.Now()), vmm.Now(), vmm.kernelSpace.pml4, space.pml4)
      ensures UserKept(old(pmm.ram.frames), pmm.ram.frames, heap.heap, heap.heap)
    {
      hide LedgerOk, BitsOk, FreePages, HeapOk, HeapHeld, TablesOk, TablesHeld, UserKept, Separate;
      ghost var s := vmm.Now();
      space := vmm.NewSpace();
      MadeSeparate(s, vmm.Now(), vmm.kernelSpace.pml4, space.pml4, heap.heap);
      TableStepKeepsHeap(s, vmm.Now(), heap.base, heap.heap);
    }

    /** `AddressSpace::~AddressSpace`: no live heap word changes. */
    method DestroySpace(space: AddressSpace)
      requires Valid() && IsRoot(vmm.tabs, space.pml4) && space.pml4 != vmm.kernelSpace.pml4
      modifies vmm`tabs, pmm`ledger, pmm.bitmap.data
      ensures Valid() && heap.heap == old(heap.heap)
      ensures SpaceGone(old(vmm.Now()), vmm.Now(), space.pml4)
    {
      hide LedgerOk, BitsOk, FreePages, HeapOk, HeapHeld, TablesOk, TablesHeld, SpaceGone, Separate;
      ghost var s := vmm.Now();
      vmm.DestroySpace(space);
      GoneSeparate(s, vmm.Now(), space.pml4, heap.heap);
    }
  }
}
