/** The virtual memory manager: `get_next_level`, `virt_to_pte`, `AddressSpace::map`, `map_range`, `virt_to_phys`,
    `new_space`, `init` and `destroy_pml`. Table pointers are the numbers of the pages they point to. */
module Vmms {
  import opened NextFit
  import opened PhysMem
  import opened Pmms
  import opened PageTables
  import opened TableTrees
  import opened VmmSpec
  import Words

  datatype AddressSpace = AddressSpace(pml4: nat)

  datatype Request = Request(virt: Word, phys: Word, flags: Word)

  class Vmm {
    const pmm: Pmm
    const ram: Ram
    var kernelSpace: AddressSpace
    ghost var tabs: Tables

    ghost predicate Valid()
      reads this, pmm, pmm.ram, pmm.bitmap, pmm.bitmap.data
    {
      && pmm.ram == ram
      && pmm.Valid()
      && SnapOk(Now(), kernelSpace.pml4)
    }

    ghost function Now(): Snap
      reads this, pmm, ram
    {
      Snap(ram.frames, tabs, pmm.ledger)
    }

    constructor (pmm: Pmm)
      ensures this.pmm == pmm && this.ram == pmm.ram
    {
      this.pmm := pmm;
      this.ram := pmm.ram;
      kernelSpace := AddressSpace(0);
      tabs := map[];
    }

    /** `get_next_level`: follows entry idx of table `top`; when it is empty and `allocate` is set, hangs a new
        zeroed table from it. None only if the entry is empty and either `allocate` is off or memory has run out. */
    method GetNextLevel(top: nat, idx: nat, allocate: bool) returns (next: Option<nat>)
      requires Valid() && top in tabs && tabs[top].level >= 2 && idx < 512
      modifies this`tabs, pmm`lastPageIdx, pmm`ledger, pmm.bitmap.data, ram
      ensures Valid()
      ensures Grew(old(Now()), Now(), kernelSpace.pml4, ChildTable(old(tabs), kernelSpace.pml4, top, idx).home)
      ensures next == Down(ram.frames, Some(top), idx)
      ensures !allocate ==> Now() == old(Now())
      ensures allocate && next.None? ==> pmm.Free() == {}
      ensures pmm.Free() <= old(pmm.Free())
    {
      hide LedgerOk, BitsOk, EntriesKept, SameTranslations, OutsideKept;
      assert TableOk(ram.frames, tabs, top);
      GrewSame(Now(), kernelSpace.pml4, ChildTable(tabs, kernelSpace.pml4, top, idx).home);
      next := PeekLevel(top, idx);
      if next.Some? || !allocate {
        return;
      }
      next := AllocateLevel(top, idx);
    }

    /** `get_next_level` without `allocate`: where entry idx of page `top` leads. */
    method PeekLevel(top: nat, idx: nat) returns (next: Option<nat>)
      requires top < |ram.frames| && idx < 512
      ensures next == Down(ram.frames, Some(top), idx)
    {
      var entry := ram.Load(top, idx);
      if Present(entry) {
        return Some(FrameOf(entry));
      }
      return None;
    }

    /** The allocating half of `get_next_level`. */
    method AllocateLevel(top: nat, idx: nat) returns (next: Option<nat>)
      requires Valid() && top in tabs && tabs[top].level >= 2 && top < |ram.frames| && idx < 512
      requires !Present(At(ram.frames, top, idx))
      modifies this`tabs, pmm`lastPageIdx, pmm`ledger, pmm.bitmap.data, ram
      ensures Valid()
      ensures next.None? ==> Now() == old(Now()) && pmm.Free() == {}
      ensures pmm.Free() <= old(pmm.Free())
      ensures next.Some? ==>
        next == Down(ram.frames, Some(top), idx)
        && Grew(old(Now()), Now(), kernelSpace.pml4, ChildTable(old(tabs), kernelSpace.pml4, top, idx).home)
    {
      hide LedgerOk, BitsOk, EntriesKept, SameTranslations, OutsideKept;
      ghost var a := Now();
      var page := HangPage(top, idx);
      if page == 0 {
        return None;
      }
      TableEntryReads(page);
      tabs := tabs[page := ChildTable(tabs, kernelSpace.pml4, top, idx)];
      AddGrows(a, kernelSpace.pml4, top, idx, page, Now());
      return Some(page);
    }

    /** The stores of `get_next_level`: a zeroed page from the allocator, made present in entry idx of page `top`.
        0 when memory has run out. */
    method HangPage(top: nat, idx: nat) returns (page: nat)
      requires pmm.Valid() && pmm.ram == ram && top < |ram.frames| <= 0x100_0000_0000 && idx < 512
      modifies pmm`lastPageIdx, pmm`ledger, pmm.bitmap.data, ram
      ensures pmm.Valid()
      ensures pmm.Free() <= old(pmm.Free())
      ensures page == 0 ==> old(pmm.Free()) == {}
      ensures page == 0 ==> ram.frames == old(ram.frames) && pmm.ledger == old(pmm.ledger) && pmm.Free() == {}
      ensures |ram.frames| == |old(ram.frames)|
      ensures page != 0 ==> |pmm.Free()| == |old(pmm.Free())| - 1
      ensures page != 0 ==> page < |ram.frames| && ram.frames == WithTable(old(ram.frames), top, idx, page)
                            && page !in old(pmm.ledger).live && pmm.ledger == Granted(old(pmm.ledger), page, 1)
    {
      NoRunMeansNoPage(pmm.View());
      AllocTakes(pmm.View(), 1);
      var addr := pmm.Calloc(1);
      if addr == 0 {
        return 0;
      }
      page := addr / 4096;
      hide Words.Or;
      TableEntryReads(page);
      ram.Store(top, idx, Words.Or(Words.Or(Words.Or(page * 4096, PTE_PRESENT), PTE_WRITABLE), PTE_USER));
    }

    /** `virt_to_pte`: the level-1 table on the walk to `virt` (its entry Index(vpn, 1) is the leaf), building missing
        levels. Translations stay as they were, also when memory runs out on the way. */
    method VirtToPte(root: nat, virt: nat) returns (leaf: Option<nat>)
      requires Valid() && IsRoot(tabs, root)
      modifies this`tabs, pmm`lastPageIdx, pmm`ledger, pmm.bitmap.data, ram
      ensures Valid()
      ensures Grew(old(Now()), Now(), kernelSpace.pml4, HomeOf(root, Vpn(virt)))
      ensures leaf == Reach(ram.frames, root, Vpn(virt), 1)
      ensures leaf.Some? ==> leaf.value in tabs && tabs[leaf.value].level == 1 && leaf.value < |ram.frames|
      ensures leaf.None? ==> pmm.Free() == {}
      ensures pmm.Free() <= old(pmm.Free())
    {
      hide TablesOk, TablesHeld, LedgerOk, BitsOk, OutsideKept, EntriesKept, SameTranslations;
      ghost var a := Now();
      ghost var kernel := kernelSpace.pml4;
      ghost var vpn := Vpn(virt);
      ghost var home := HomeOf(root, vpn);
      IndexOfAddress4(virt);
      IndexOfAddress3(virt);
      IndexOfAddress2(virt);
      var pml4Offset := virt / 0x80_0000_0000 % 512;
      var pml3Offset := virt / 0x4000_0000 % 512;
      var pml2Offset := virt / 0x20_0000 % 512;

      var pml3 := GetNextLevel(root, pml4Offset, true);
      ghost var b := Now();
      assert pml3 == Reach(b.mem, root, vpn, 3);
      if pml3.None? { return None; }
      ReachInTables(b.mem, b.tabs, kernel, root, vpn, 3);

      var pml2 := GetNextLevel(pml3.value, pml3Offset, true);
      ghost var c := Now();
      GrewTwice(a, b, c, kernel, home);
      ReachStays(b, c, kernel, root, vpn, 3);
      assert pml2 == Reach(c.mem, root, vpn, 2);
      if pml2.None? { return None; }
      ReachInTables(c.mem, c.tabs, kernel, root, vpn, 2);

      var pml1 := GetNextLevel(pml2.value, pml2Offset, true);
      GrewTwice(a, c, Now(), kernel, home);
      ReachStays(c, Now(), kernel, root, vpn, 2);
      ReachInTables(ram.frames, tabs, kernel, root, vpn, 1);
      if pml1.Some? { TableBounded(Now(), kernel, pml1.value); }
      return pml1;
    }

    /** `AddressSpace::map`. `built` tells whether the walk reached a leaf; it fails to only when no page is free. */
    method Map(root: nat, virt: Word, phys: Word, flags: Word) returns (ghost built: bool)
      requires Valid() && IsRoot(tabs, root)
      modifies this`tabs, pmm`lastPageIdx, pmm`ledger, pmm.bitmap.data, ram
      ensures Valid()
      ensures MapsOne(old(Now()), Now(), root, Vpn(virt), LeafEntry(phys, flags), built)
      ensures TablesGrew(old(Now()), Now(), HomeOf(root, Vpn(virt))) && OutsideKept(old(Now()), Now())
      ensures !built ==> pmm.Free() == {}
      ensures pmm.Free() <= old(pmm.Free())
    {
      hide TablesOk, TablesHeld, LedgerOk, BitsOk, EntriesKept, SameTranslations, OutsideKept, MapsOne;
      ghost var a := Now();
      ghost var vpn := Vpn(virt);
      var pml1 := VirtToPte(root, virt);
      if pml1.None? {
        NothingMaps(a, Now(), kernelSpace.pml4, HomeOf(root, vpn), root, vpn, LeafEntry(phys, flags));
        return false;
      }
      ghost var b := Now();
      IndexOfAddress1(virt);
      var pte := ram.Load(pml1.value, virt / 0x1000 % 512);
      if Present(pte) {
        PresentMaps(a, b, kernelSpace.pml4, root, vpn, LeafEntry(phys, flags));
        return true;
      }
      ram.Store(pml1.value, virt / 0x1000 % 512, LeafEntry(phys, flags));
      LeafMaps(a, b, kernelSpace.pml4, root, vpn, pml1.value, LeafEntry(phys, flags), Now());
      return true;
    }

    /** `AddressSpace::virt_to_phys`: the frame's address, or UINT64_MAX when the page is not mapped. The levels it
        builds on the way change no translation. */
    method VirtToPhys(root: nat, virt: Word) returns (phys: Word)
      requires Valid() && IsRoot(tabs, root)
      modifies this`tabs, pmm`lastPageIdx, pmm`ledger, pmm.bitmap.data, ram
      ensures Valid()
      ensures Grew(old(Now()), Now(), kernelSpace.pml4, HomeOf(root, Vpn(virt)))
      ensures phys == match Translate(old(ram.frames), root, Vpn(virt))
                      case None => 0xffff_ffff_ffff_ffff
                      case Some(w) => FrameOf(w) * 4096
    {
      hide TablesOk, TablesHeld, LedgerOk, BitsOk, EntriesKept, OutsideKept;
      var pml1 := VirtToPte(root, virt);
      if pml1.None? {
        return 0xffff_ffff_ffff_ffff;
      }
      IndexOfAddress1(virt);
      var pte := ram.Load(pml1.value, virt / 0x1000 % 512);
      if !Present(pte) {
        return 0xffff_ffff_ffff_ffff;
      }
      return FrameOf(pte) * 4096;
    }

    /** `AddressSpace::map_range`. The byte count `pages * PAGE_SIZE` is a 64-bit number, so that the pages mapped are
        `pages` modulo 2^52. */
    method MapRange(root: nat, virt: Word, phys: Word, pages: Word, flags: Word) returns (ghost complete: bool)
      requires Valid() && IsRoot(tabs, root)
      modifies this`tabs, pmm`lastPageIdx, pmm`ledger, pmm.bitmap.data, ram
      ensures Valid()
      ensures MapsRange(old(Now()), Now(), root, virt, phys, pages % 0x10_0000_0000_0000, flags, complete)
      ensures complete ==> forall k: nat :: k < pages % 0x10_0000_0000_0000 && k < 0x10_0000_0000 ==>
                PageReads(old(ram.frames), ram.frames, root, virt, phys, flags, k)
      ensures MoreTables(old(Now()), Now()) && OutsideKept(old(Now()), Now())
      ensures pmm.Free() != {} ==> complete
      ensures pmm.Free() <= old(pmm.Free())
    {
      hide TablesOk, TablesHeld, LedgerOk, BitsOk, OutsideKept, MapsOne, MoreTables, TablesGrew, MapsRange, PageReads;
      ghost var a := Now();
      complete := true;
      ghost var k: nat := 0;
      var i := 0;
      var size := Wrapped(pages * 4096);
      WrappedSize(pages);
      RangeStarts(a, root, virt, phys, flags);
      MoreTablesSame(a);
      while i < size
        invariant i == 4096 * k && k <= pages % 0x10_0000_0000_0000
        invariant Valid() && kernelSpace == old(kernelSpace)
        invariant forall r :: IsRoot(a.tabs, r) ==> IsRoot(tabs, r)
        invariant MapsRange(a, Now(), root, virt, phys, k, flags, complete)
        invariant MoreTables(a, Now()) && OutsideKept(a, Now())
        invariant pmm.Free() != {} ==> complete
        invariant pmm.Free() <= old(pmm.Free())
        decreases size - i
      {
        ghost var b := Now();
        ghost var built := Map(root, Wrapped(virt + i), Wrapped(phys + i), flags);
        RangeStep(a, b, Now(), root, virt, phys, k, flags, complete, built);
        MoreTablesTwice(a, b, Now(), HomeOf(root, Vpn(Wrapped(virt + i))));
        StillRoots(a, b, Now(), HomeOf(root, Vpn(Wrapped(virt + i))));
        complete := complete && built;
        i := i + 4096;
        k := k + 1;
      }
      if complete {
        forall j: nat | j < k && j < 0x10_0000_0000 ensures PageReads(a.mem, ram.frames, root, virt, phys, flags, j) {
          RangeReads(a, Now(), root, virt, phys, k, flags, j);
        }
      }
    }

    /** The `AddressSpace` constructor and `new_space`: a zeroed PML4 whose higher half is copied from the kernel's.
        The source does not check that the page could be had, so one must be free. */
    method NewSpace() returns (space: AddressSpace)
      requires Valid() && pmm.Free() != {}
      modifies this`tabs, pmm`lastPageIdx, pmm`ledger, pmm.bitmap.data, ram
      ensures Valid() && SpaceMade(old(Now()), Now(), kernelSpace.pml4, space.pml4)
      ensures pmm.Free() <= old(pmm.Free())
    {
      hide TablesOk, LedgerOk, BitsOk, OutsideKept, SameTranslations, SpaceMade;
      ghost var a := Now();
      ghost var kernel := kernelSpace.pml4;
      KernelIsRoot(a, kernel);
      NoRunMeansNoPage(pmm.View());
      AllocTakes(pmm.View(), 1);
      var addr := pmm.Calloc(1);
      var n := addr / 4096;
      assert n !in a.ledger.live && kernel in a.ledger.live;
      ghost var mid := ram.frames;
      assert mid == Zeroed(a.mem, n, 1);
      CopyHigherHalf(n);
      assert RootMade(a.mem, ram.frames, kernel, n);
      tabs := tabs[n := RootTable(n)];
      RootMakesSpace(a, Now(), kernel, n);
      return AddressSpace(n);
    }

    /** The loop of `new_space`. */
    method CopyHigherHalf(n: nat)
      requires n < |ram.frames| && kernelSpace.pml4 < |ram.frames| && n != kernelSpace.pml4
      modifies ram
      ensures |ram.frames| == |old(ram.frames)|
      ensures forall q: nat, j: nat :: At(ram.frames, q, j) ==
                if q == n && 256 <= j < 512 then At(old(ram.frames), kernelSpace.pml4, j) else At(old(ram.frames), q, j)
    {
      for i := 256 to 512
        invariant |ram.frames| == |old(ram.frames)|
        invariant forall q: nat, j: nat :: At(ram.frames, q, j) ==
                    if q == n && 256 <= j < i then At(old(ram.frames), kernelSpace.pml4, j)
                    else At(old(ram.frames), q, j)
      {
        var entry := ram.Load(kernelSpace.pml4, i);
        ram.Store(n, i, entry);
      }
    }

    /** `Vmm::init` up to its mappings: the kernel's PML4 and a level-3 table for each of its 256 higher-half entries,
        which every later space shares. Like the source it does not check for failure, so the pages must be there. */
    method Init()
      requires pmm.Valid() && pmm.ram == ram && |pmm.Free()| >= 257 && |ram.frames| <= 0x100_0000_0000
      modifies this, pmm`lastPageIdx, pmm`ledger, pmm.bitmap.data, ram
      ensures Valid() && pmm.Free() <= old(pmm.Free())
      ensures forall v :: Translate(ram.frames, kernelSpace.pml4, v) == None
      ensures HeldGrew(map[], old(pmm.ledger), tabs, pmm.ledger)
      ensures PagesKept(old(ram.frames), ram.frames, tabs.Keys)
    {
      hide LedgerOk, BitsOk, FreePages;
      NewKernelPml4();
      ghost var t, l := tabs, pmm.ledger;
      FillHigherHalf();
      HeldGrewTwice(map[], old(pmm.ledger), t, l, tabs, pmm.ledger);
      InitTreeDone(ram.frames, tabs, kernelSpace.pml4);
    }

    method NewKernelPml4()
      requires pmm.Valid() && pmm.ram == ram && |pmm.Free()| >= 257 && |ram.frames| <= 0x100_0000_0000
      modifies this, pmm`lastPageIdx, pmm`ledger, pmm.bitmap.data, ram
      ensures pmm.Valid() && InitTree(ram.frames, tabs, kernelSpace.pml4, 256)
      ensures |pmm.Free()| >= 256 && pmm.Free() <= old(pmm.Free())
      ensures HeldGrew(map[], old(pmm.ledger), tabs, pmm.ledger)
      ensures PagesKept(old(ram.frames), ram.frames, tabs.Keys)
    {
      hide LedgerOk, BitsOk, FreePages;
      NoRunMeansNoPage(pmm.View());
      AllocTakes(pmm.View(), 1);
      assert pmm.Free() != {};
      var addr := pmm.Calloc(1);
      var kernel := addr / 4096;
      kernelSpace := AddressSpace(kernel);
      tabs := map[kernel := RootTable(kernel)];
      HeldAdds(map[], old(pmm.ledger), kernel, tabs, pmm.ledger);
    }

    /** The loop of `init` over the higher half. */
    method FillHigherHalf()
      requires pmm.Valid() && pmm.ram == ram && |pmm.Free()| >= 256
      requires InitTree(ram.frames, tabs, kernelSpace.pml4, 256) && TablesHeld(tabs, pmm.ledger)
      modifies this`tabs, pmm`lastPageIdx, pmm`ledger, pmm.bitmap.data, ram
      ensures pmm.Valid() && InitTree(ram.frames, tabs, kernelSpace.pml4, 512) && pmm.Free() <= old(pmm.Free())
      ensures HeldGrew(old(tabs), old(pmm.ledger), tabs, pmm.ledger)
      ensures PagesKept(old(ram.frames), ram.frames, tabs.Keys)
    {
      hide LedgerOk, BitsOk, FreePages;
      var kernel := kernelSpace.pml4;
      for i := 256 to 512
        invariant pmm.Valid() && InitTree(ram.frames, tabs, kernel, i)
        invariant |pmm.Free()| >= 512 - i && pmm.Free() <= old(pmm.Free())
        invariant HeldGrew(old(tabs), old(pmm.ledger), tabs, pmm.ledger)
        invariant PagesKept(old(ram.frames), ram.frames, tabs.Keys)
      {
        ghost var mem, t, l := ram.frames, tabs, pmm.ledger;
        var page := HangPage(kernel, i);
        WithTableAdds(mem, kernel, i, page);
        tabs := tabs[page := Table(3, kernel, i, Shared)];
        HeldAdds(t, l, page, tabs, pmm.ledger);
        HeldGrewTwice(old(tabs), old(pmm.ledger), t, l, tabs, pmm.ledger);
        InitTreeStep(mem, t, kernel, i, page, ram.frames, tabs);
      }
    }

    /** `destroy_pml`: frees the page of table `pml` and of every table below it that entries start .. end lead to.
        At level 0 there is no table, and the data page is left alone. `t` are the tables as they were when the
        destruction began; memory still shows them. Each free names a live allocation, so none is freed twice. */
    method DestroyPml(pml: nat, start: nat, end: nat, level: nat, ghost t: Tables)
      requires pmm.Valid() && pmm.ram == ram && TablesOk(ram.frames, t, kernelSpace.pml4)
      requires level > 0 ==> pml in t && t[pml].level == level && start == 0 && end == (if level == 4 then 256 else 512)
      requires level > 0 ==> forall p :: p in Below(t, pml) ==> p in pmm.ledger.live && pmm.ledger.live[p] == 1
      modifies pmm`ledger, pmm.bitmap.data
      ensures pmm.Valid() && pmm.ledger.usable == old(pmm.ledger).usable
      ensures pmm.ledger.live == old(pmm.ledger).live - (if level > 0 then Below(t, pml) else {})
      decreases level
    {
      hide TablesOk, LedgerOk, BitsOk, IsBelow;
      if level == 0 {
        return;
      }
      ghost var kernel := kernelSpace.pml4;
      ghost var live := pmm.ledger.live;
      TableAt(ram.frames, t, kernel, pml);
      BelowStarts(t, pml);
      for i := start to end
        invariant pmm.Valid() && pmm.ledger.usable == old(pmm.ledger).usable
        invariant pmm.ledger.live == live - (if level > 1 then BelowBefore(t, pml, i) else {})
      {
        if level > 1 { NextBranch(ram.frames, t, kernel, pml, i); }
        var next := PeekLevel(pml, i);
        if next.None? { continue; }
        if level > 1 { BranchInBelow(t, pml, i + 1); }
        DestroyPml(next.value, 0, 512, level - 1, t);
      }
      BelowComplete(ram.frames, t, kernel, pml);
      pmm.FreeRunAt(pml * 4096, 1);
    }

    /** `AddressSpace::~AddressSpace`. */
    method DestroySpace(space: AddressSpace)
      requires Valid() && IsRoot(tabs, space.pml4) && space.pml4 != kernelSpace.pml4
      modifies this`tabs, pmm`ledger, pmm.bitmap.data
      ensures Valid() && SpaceGone(old(Now()), Now(), space.pml4)
    {
      hide TablesOk, LedgerOk, BitsOk;
      ghost var a := Now();
      ghost var kernel := kernelSpace.pml4;
      OwnIsBelow(ram.frames, tabs, kernel, space.pml4);
      DestroyPml(space.pml4, 0, 256, 4, tabs);
      tabs := tabs - OwnTables(tabs, space.pml4);
      GoneKeepsInvariant(a, Now(), kernel, space.pml4);
    }

    /** A space's whole life: made, any number of lower-half pages mapped in it, destroyed. Whatever the requests,
        and whether or not memory ran short on the way, afterwards the very same pages are free, every other space
        translates as before, and memory outside the tables was never touched. */
    method SpaceLifetime(requests: seq<Request>)
      requires Valid() && pmm.Free() != {}
      requires forall q :: q in requests ==> !Higher(Vpn(q.virt))
      modifies this`tabs, pmm`lastPageIdx, pmm`ledger, pmm.bitmap.data, ram
      ensures Valid() && tabs == old(tabs) && pmm.ledger.live == old(pmm.ledger).live
      ensures pmm.Free() == old(pmm.Free())
      ensures OthersKept(old(Now()), Now())
    {
      hide TablesOk, LedgerOk, BitsOk, OutsideKept, SameTranslations, OnlyOwnGrew, OthersKept, MapsOne, FreePages;
      ghost var a := Now();
      ghost var used := pmm.Used();
      var space := NewSpace();
      KernelIsRoot(a, kernelSpace.pml4);
      OnlyOwnStarts(a, Now(), kernelSpace.pml4, space.pml4);
      OthersKeptAtStart(a, Now(), kernelSpace.pml4, space.pml4);
      for i := 0 to |requests|
        invariant Valid() && IsRoot(tabs, space.pml4) && space.pml4 != kernelSpace.pml4
        invariant OnlyOwnGrew(a, Now(), space.pml4) && OthersKept(a, Now())
        invariant pmm.ledger.usable == a.ledger.usable
      {
        var q := requests[i];
        ghost var b := Now();
        ghost var built := Map(space.pml4, q.virt, q.phys, q.flags);
        OnlyOwnContinues(a, b, Now(), space.pml4);
        OthersKeptByMap(a, b, Now(), space.pml4, Vpn(q.virt), LeafEntry(q.phys, q.flags), built);
      }
      ghost var e := Now();
      LifetimeEnds(a, Now(), space.pml4);
      DestroySpace(space);
      OthersKeptAtEnd(a, e, Now());
      LiveFixesFree(a.ledger, pmm.ledger, used, pmm.Used());
    }
  }
}
