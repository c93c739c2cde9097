/** The four-level page tables as data in physical memory: the invariant that ties them into trees, and what the
    two stores the kernel makes to them (adding a table, filling a leaf) do to every translation. */
module PageTables {
  import opened NextFit
  import opened PhysMem
  import Words

  const PTE_PRESENT: nat := 1
  const PTE_WRITABLE: nat := 2
  const PTE_USER: nat := 4

  /** Bit 0 of an entry, PTE_PRESENT. */
  predicate Present(w: Word) { w % 2 == 1 }

  /** The frame an entry names: `PTE_GET_ADDR(w) / PAGE_SIZE`, bits 12 to 51. */
  function FrameOf(w: Word): nat { w / 4096 % 0x100_0000_0000 }

  /** The entry for a new table page: its address | PTE_PRESENT | PTE_WRITABLE | PTE_USER. */
  function TableEntry(page: nat): Word
    requires page < 0x100_0000_0000
  {
    page * 4096 + 7
  }

  /** That is what the bitwise or of the address and the flags comes to, and it reads back as the page. */
  lemma TableEntryReads(page: nat)
    requires page < 0x100_0000_0000
    ensures TableEntry(page) == Words.Or(Words.Or(Words.Or(page * 4096, PTE_PRESENT), PTE_WRITABLE), PTE_USER)
    ensures Present(TableEntry(page)) && FrameOf(TableEntry(page)) == page
  {
    hide Words.Or;
    var address := page * 4096;
    assert address == 8 * (512 * page);
    Words.OrOfLowBits(512 * page);
    EntryDigits(page);
  }

  lemma EntryDigits(page: nat)
    requires page < 0x100_0000_0000
    ensures (page * 4096 + 7) % 2 == 1 && (page * 4096 + 7) / 4096 % 0x100_0000_0000 == page
  {
    OddNumber(2048 * page + 3);
    Quotient(page);
  }

  lemma OddNumber(k: nat)
    ensures (2 * k + 1) % 2 == 1
  {}

  lemma Quotient(page: nat)
    ensures (page * 4096 + 7) / 4096 == page
  {}

  /** Which space a table belongs to: the one whose PML4 is at `root`, or all of them (the higher half). */
  datatype Home = Own(root: nat) | Shared

  /** What the kernel knows of a table page: its level (4 is the PML4), the entry that points to it, its home. */
  datatype Table = Table(level: nat, parent: nat, slot: nat, home: Home)

  type Tables = map<nat, Table>

  /** The table that entry i of table p must lead to. `kernel` is the PML4 that holds the higher half. */
  function ChildTable(tabs: Tables, kernel: nat, p: nat, i: nat): Table
    requires p in tabs && tabs[p].level >= 1
  {
    if tabs[p].level == 4 then
      if i < 256 then Table(3, p, i, Own(p)) else Table(3, kernel, i, Shared)
    else Table(tabs[p].level - 1, p, i, tabs[p].home)
  }

  ghost predicate TableOk(mem: Mem, tabs: Tables, p: nat)
    requires p in tabs
  {
    && p < |mem|
    && 1 <= tabs[p].level <= 4
    && (tabs[p].level == 4 ==> tabs[p].home == Own(p))
  }

  /** Every present entry of a table above level 1 leads to a table one level down that knows its parent. */
  ghost predicate EntryOk(mem: Mem, tabs: Tables, kernel: nat, p: nat, i: nat)
    requires p in tabs && TableOk(mem, tabs, p)
  {
    tabs[p].level >= 2 && i < 512 && Present(At(mem, p, i)) ==>
      FrameOf(At(mem, p, i)) in tabs && tabs[FrameOf(At(mem, p, i))] == ChildTable(tabs, kernel, p, i)
  }

  /** Every table below level 4 hangs from the entry it names. */
  ghost predicate Hangs(mem: Mem, tabs: Tables, kernel: nat, c: nat)
    requires c in tabs
  {
    tabs[c].level < 4 ==>
      && tabs[c].parent in tabs && tabs[c].slot < 512
      && tabs[tabs[c].parent].level >= 2
      && Present(At(mem, tabs[c].parent, tabs[c].slot))
      && FrameOf(At(mem, tabs[c].parent, tabs[c].slot)) == c
      && tabs[c] == ChildTable(tabs, kernel, tabs[c].parent, tabs[c].slot)
  }

  /** All PML4s have the kernel's higher half, and every entry of it is present. */
  ghost predicate HigherHalfOk(mem: Mem, kernel: nat, r: nat)
  {
    forall i :: 256 <= i < 512 ==> At(mem, r, i) == At(mem, kernel, i) && Present(At(mem, kernel, i))
  }

  ghost predicate TablesOk(mem: Mem, tabs: Tables, kernel: nat)
  {
    && |mem| <= 0x100_0000_0000
    && kernel in tabs && tabs[kernel].level == 4
    && (forall p :: p in tabs ==> TableOk(mem, tabs, p))
    && (forall p, i :: p in tabs ==> EntryOk(mem, tabs, kernel, p, i))
    && (forall p :: p in tabs ==> Hangs(mem, tabs, kernel, p))
    && (forall p :: p in tabs && tabs[p].level == 4 ==> HigherHalfOk(mem, kernel, p))
  }

  /** The invariant at one table. */
  lemma TableAt(mem: Mem, tabs: Tables, kernel: nat, x: nat)
    requires TablesOk(mem, tabs, kernel) && x in tabs
    ensures TableOk(mem, tabs, x) && Hangs(mem, tabs, kernel, x)
    ensures tabs[x].level < 4 ==> TableOk(mem, tabs, tabs[x].parent)
  {
    assert Hangs(mem, tabs, kernel, x);
  }

  // ---- Walking

  /** The index that page number `vpn` uses in a table of the given level. */
  function Index(vpn: nat, level: nat): (i: nat)
    ensures i < 512
  {
    match level
    case 4 => vpn / 0x800_0000 % 512
    case 3 => vpn / 0x4_0000 % 512
    case 2 => vpn / 0x200 % 512
    case _ => vpn % 512
  }

  /** Follows one entry. */
  function Down(mem: Mem, t: Option<nat>, i: nat): Option<nat>
  {
    if t.Some? && Present(At(mem, t.value, i)) then Some(FrameOf(At(mem, t.value, i))) else None
  }

  /** The table of the given level on the way from `root` to page `vpn`. */
  function Reach(mem: Mem, root: nat, vpn: nat, level: nat): Option<nat>
    decreases 4 - level
  {
    if level >= 4 then Some(root) else Down(mem, Reach(mem, root, vpn, level + 1), Index(vpn, level + 1))
  }

  /** The present leaf entry for page `vpn`, if the walk gets that far. */
  function Translate(mem: Mem, root: nat, vpn: nat): Option<Word>
  {
    var t := Reach(mem, root, vpn, 1);
    if t.Some? && Present(At(mem, t.value, Index(vpn, 1))) then Some(At(mem, t.value, Index(vpn, 1))) else None
  }

  predicate IsRoot(tabs: Tables, r: nat) { r in tabs && tabs[r].level == 4 }

  predicate Higher(vpn: nat) { Index(vpn, 4) >= 256 }

  /** The table at `level` on the walk to vpn lies at that level, and its recorded position spells the walk. */
  lemma {:induction false} ReachInTables(mem: Mem, tabs: Tables, kernel: nat, root: nat, vpn: nat, level: nat)
    requires TablesOk(mem, tabs, kernel) && IsRoot(tabs, root) && 1 <= level <= 4
    ensures var t := Reach(mem, root, vpn, level);
            t.Some? ==> t.value in tabs && tabs[t.value].level == level
    ensures var t := Reach(mem, root, vpn, level); level < 4 && t.Some? ==>
            && tabs[t.value].slot == Index(vpn, level + 1)
            && Reach(mem, root, vpn, level + 1).Some?
            && tabs[t.value].home == (if Higher(vpn) then Shared else Own(root))
            && tabs[t.value].parent ==
              (if level == 3 && Higher(vpn) then kernel else Reach(mem, root, vpn, level + 1).value)
    decreases 4 - level
  {
    if level < 4 {
      ReachInTables(mem, tabs, kernel, root, vpn, level + 1);
      var up := Reach(mem, root, vpn, level + 1);
      assert up.Some? ==> EntryOk(mem, tabs, kernel, up.value, Index(vpn, level + 1));
    }
  }

  /** Two walks that meet in a table below the PML4 took the same indices to it, in the same space unless the
      table is one of the shared ones. */
  lemma {:induction false} WalksMeet(mem: Mem, tabs: Tables, kernel: nat, r: nat, v: nat, q: nat, w: nat, level: nat)
    requires TablesOk(mem, tabs, kernel) && IsRoot(tabs, r) && IsRoot(tabs, q) && 1 <= level < 4
    requires Reach(mem, r, v, level).Some? && Reach(mem, r, v, level) == Reach(mem, q, w, level)
    ensures forall l :: level < l <= 4 ==> Index(v, l) == Index(w, l)
    ensures r == q || Higher(v)
    decreases 4 - level
  {
    ReachInTables(mem, tabs, kernel, r, v, level);
    ReachInTables(mem, tabs, kernel, q, w, level);
    if level < 3 {
      WalksMeet(mem, tabs, kernel, r, v, q, w, level + 1);
    }
  }

  /** All spaces agree on the higher half. */
  lemma HigherHalfAgrees(mem: Mem, tabs: Tables, kernel: nat, r: nat, q: nat, vpn: nat)
    requires TablesOk(mem, tabs, kernel) && IsRoot(tabs, r) && IsRoot(tabs, q) && Higher(vpn)
    ensures Translate(mem, r, vpn) == Translate(mem, q, vpn)
    ensures Reach(mem, r, vpn, 1) == Reach(mem, q, vpn, 1)
  {
    assert HigherHalfOk(mem, kernel, r) && HigherHalfOk(mem, kernel, q);
    assert Reach(mem, r, vpn, 3) == Reach(mem, q, vpn, 3);
    assert Reach(mem, r, vpn, 2) == Reach(mem, q, vpn, 2);
  }

  // ---- The two stores

  /** Memory and tables after page n, zeroed, has been hung from entry i of table p. */
  function WithTable(mem: Mem, p: nat, i: nat, n: nat): Mem
    requires p < |mem| && i < 512 && n < 0x100_0000_0000
  {
    Put(Zeroed(mem, n, 1), p, i, TableEntry(n))
  }

  /** m is mem with page n zeroed and entry i of page p leading to it. */
  ghost predicate Added(mem: Mem, m: Mem, p: nat, i: nat, n: nat)
  {
    && |m| == |mem|
    && Present(At(m, p, i)) && FrameOf(At(m, p, i)) == n
    && (forall q: nat, j: nat :: !(q == p && j == i) ==> At(m, q, j) == if q == n then 0 else At(mem, q, j))
  }

  lemma WithTableAdds(mem: Mem, p: nat, i: nat, n: nat)
    requires p < |mem| && i < 512 && n < 0x100_0000_0000
    ensures Added(mem, WithTable(mem, p, i, n), p, i, n)
  {
    TableEntryReads(n);
  }

  ghost predicate CanHang(mem: Mem, tabs: Tables, kernel: nat, p: nat, i: nat, n: nat)
  {
    && TablesOk(mem, tabs, kernel)
    && p in tabs && tabs[p].level >= 2 && p < |mem| && i < 512 && !Present(At(mem, p, i))
    && n !in tabs && n < |mem|
  }

  lemma NewTableIsOwn(mem: Mem, tabs: Tables, kernel: nat, p: nat, i: nat, n: nat)
    requires CanHang(mem, tabs, kernel, p, i, n)
    ensures tabs[p].level == 4 ==> i < 256
    ensures n != kernel && n != p && p < |mem|
  {
    assert TableOk(mem, tabs, p);
    assert tabs[p].level == 4 ==> HigherHalfOk(mem, kernel, p);
  }

  lemma AddedEntry(mem: Mem, tabs: Tables, kernel: nat, p: nat, i: nat, n: nat, m: Mem, t: Tables, q: nat, j: nat)
    requires CanHang(mem, tabs, kernel, p, i, n) && Added(mem, m, p, i, n) && n != p
    requires t == tabs[n := ChildTable(tabs, kernel, p, i)] && q in t && TableOk(m, t, q)
    ensures EntryOk(m, t, kernel, q, j)
  {
    assert q in tabs ==> TableOk(mem, tabs, q) && EntryOk(mem, tabs, kernel, q, j);
  }

  /** Adding a table keeps the tables a tree, the new one recorded where it hangs. */
  lemma AddedKeepsInvariant(mem: Mem, tabs: Tables, kernel: nat, p: nat, i: nat, n: nat, m: Mem, t: Tables)
    requires CanHang(mem, tabs, kernel, p, i, n) && Added(mem, m, p, i, n)
    requires t == tabs[n := ChildTable(tabs, kernel, p, i)]
    ensures TablesOk(m, t, kernel)
  {
    NewTableIsOwn(mem, tabs, kernel, p, i, n);
    assert TableOk(mem, tabs, p);
    forall q | q in t ensures TableOk(m, t, q) {
      assert q in tabs ==> TableOk(mem, tabs, q);
    }
    forall q, j | q in t ensures EntryOk(m, t, kernel, q, j) {
      AddedEntry(mem, tabs, kernel, p, i, n, m, t, q, j);
    }
    forall q | q in t ensures Hangs(m, t, kernel, q) {
      assert q in tabs ==> Hangs(mem, tabs, kernel, q);
    }
    forall q | q in t && t[q].level == 4 ensures HigherHalfOk(m, kernel, q) {
      assert q in tabs && HigherHalfOk(mem, kernel, q);
    }
  }

  lemma AddedStep(mem: Mem, m: Mem, p: nat, i: nat, n: nat, t: nat, j: nat)
    requires Added(mem, m, p, i, n) && !Present(At(mem, p, i)) && n != p
    ensures t != n ==> Down(m, Some(t), j) == Down(mem, Some(t), j)
                       || (Down(mem, Some(t), j) == None && Down(m, Some(t), j) == Some(n))
    ensures t == n ==> Down(m, Some(t), j) == None
  {}

  /** After a table is added a walk either is what it was, or has got one step further into the new, empty table. */
  lemma {:induction false} AddedWalks(mem: Mem, m: Mem, p: nat, i: nat, n: nat, r: nat, vpn: nat, level: nat)
    requires Added(mem, m, p, i, n) && !Present(At(mem, p, i)) && n != p
    requires forall l :: level <= l <= 4 ==> Reach(mem, r, vpn, l) != Some(n)
    requires 1 <= level <= 4
    ensures Reach(m, r, vpn, level) == Reach(mem, r, vpn, level) ||
            (Reach(mem, r, vpn, level) == None && Reach(m, r, vpn, level) == Some(n))
    decreases 4 - level
  {
    if level < 4 {
      AddedWalks(mem, m, p, i, n, r, vpn, level + 1);
      var up := Reach(m, r, vpn, level + 1);
      if up.Some? { AddedStep(mem, m, p, i, n, up.value, Index(vpn, level + 1)); }
    }
  }

  /** Adding a table changes no translation in any space. */
  lemma AddedTranslates(mem: Mem, tabs: Tables, kernel: nat, p: nat, i: nat, n: nat, m: Mem, r: nat, vpn: nat)
    requires CanHang(mem, tabs, kernel, p, i, n) && Added(mem, m, p, i, n) && IsRoot(tabs, r)
    ensures Translate(m, r, vpn) == Translate(mem, r, vpn)
  {
    NewTableIsOwn(mem, tabs, kernel, p, i, n);
    forall l | 1 <= l <= 4 ensures Reach(mem, r, vpn, l) != Some(n) {
      ReachInTables(mem, tabs, kernel, r, vpn, l);
    }
    AddedWalks(mem, m, p, i, n, r, vpn, 1);
    var t := Reach(m, r, vpn, 1);
    if t.Some? {
      ReachInTables(mem, tabs, kernel, r, vpn, 1);
      assert t.value != n ==> At(m, t.value, Index(vpn, 1)) == At(mem, t.value, Index(vpn, 1));
    }
  }

  /** Storing to a level-1 table leaves the tree as it is. */
  lemma WithLeafKeepsInvariant(mem: Mem, tabs: Tables, kernel: nat, t: nat, i: nat, w: Word)
    requires TablesOk(mem, tabs, kernel) && t in tabs && tabs[t].level == 1 && t < |mem| && i < 512
    ensures TablesOk(Put(mem, t, i, w), tabs, kernel)
  {
    var m := Put(mem, t, i, w);
    forall q | q in tabs ensures TableOk(m, tabs, q) { assert TableOk(mem, tabs, q); }
    forall q, j | q in tabs ensures EntryOk(m, tabs, kernel, q, j) { assert EntryOk(mem, tabs, kernel, q, j); }
    forall q | q in tabs ensures Hangs(m, tabs, kernel, q) { assert Hangs(mem, tabs, kernel, q); }
    forall q | q in tabs && tabs[q].level == 4 ensures HigherHalfOk(m, kernel, q) {
      assert HigherHalfOk(mem, kernel, q);
    }
  }

  lemma {:induction false} WithLeafWalks(mem: Mem, t: nat, i: nat, w: Word, r: nat, vpn: nat, level: nat)
    requires t < |mem| && i < 512 && 1 <= level <= 4
    requires forall l :: level < l <= 4 ==> Reach(mem, r, vpn, l) != Some(t)
    ensures Reach(Put(mem, t, i, w), r, vpn, level) == Reach(mem, r, vpn, level)
    decreases 4 - level
  {
    if level < 4 {
      WithLeafWalks(mem, t, i, w, r, vpn, level + 1);
    }
  }

  predicate SameIndices(v: nat, w: nat)
  {
    Index(v, 1) == Index(w, 1) && Index(v, 2) == Index(w, 2) && Index(v, 3) == Index(w, 3) && Index(v, 4) == Index(w, 4)
  }

  /** What a store to the leaf entry of page `vpn` of space s does: that page, in s or (higher half) in every space,
      now translates to the stored entry; no other translation in any space changes. */
  lemma WithLeafTranslates(mem: Mem, tabs: Tables, kernel: nat, s: nat, vpn: nat, t: nat, w: Word, r: nat, v: nat)
    requires TablesOk(mem, tabs, kernel) && IsRoot(tabs, s) && IsRoot(tabs, r)
    requires Reach(mem, s, vpn, 1) == Some(t) && t in tabs && tabs[t].level == 1 && t < |mem|
    ensures var m := Put(mem, t, Index(vpn, 1), w);
            Translate(m, r, v) ==
            if SameIndices(v, vpn) && (r == s || Higher(vpn)) then (if Present(w) then Some(w) else None)
            else Translate(mem, r, v)
  {
    forall l | 1 < l <= 4 ensures Reach(mem, r, v, l) != Some(t) {
      ReachInTables(mem, tabs, kernel, r, v, l);
    }
    WithLeafWalks(mem, t, Index(vpn, 1), w, r, v, 1);
    if Reach(mem, r, v, 1) == Some(t) {
      WalksMeet(mem, tabs, kernel, r, v, s, vpn, 1);
      assert forall l :: 1 < l <= 4 ==> Index(v, l) == Index(vpn, l);
      assert Index(v, 2) == Index(vpn, 2) && Index(v, 3) == Index(vpn, 3) && Index(v, 4) == Index(vpn, 4);
    }
    if SameIndices(v, vpn) && (r == s || Higher(vpn)) {
      SameIndicesWalk(mem, r, v, vpn, 1);
      if r != s { HigherHalfAgrees(mem, tabs, kernel, r, s, vpn); }
    }
  }

  lemma {:induction false} SameIndicesWalk(mem: Mem, r: nat, v: nat, w: nat, level: nat)
    requires SameIndices(v, w) && 1 <= level <= 4
    ensures Reach(mem, r, v, level) == Reach(mem, r, w, level)
    decreases 4 - level
  {
    if level < 4 {
      SameIndicesWalk(mem, r, v, w, level + 1);
      assert level + 1 == 2 || level + 1 == 3 || level + 1 == 4;
    }
  }

  // ---- Addresses

  /** The page number of a virtual address: the walk looks at bits 12 to 47 only. */
  function Vpn(virt: nat): (v: nat)
    ensures v < 0x10_0000_0000
  {
    virt % 0x1_0000_0000_0000 / 4096
  }

  /** The four indices of a page number below 2^36 determine it. */
  lemma IndicesDetermine(v: nat, w: nat)
    requires v < 0x10_0000_0000 && w < 0x10_0000_0000 && SameIndices(v, w)
    ensures v == w
  {
    Digits(v);
    Digits(w);
  }

  lemma Digits(v: nat)
    requires v < 0x10_0000_0000
    ensures v == Index(v, 4) * 0x800_0000 + Index(v, 3) * 0x4_0000 + Index(v, 2) * 0x200 + Index(v, 1)
  {
    var a := v / 0x200;
    var b := a / 0x200;
    assert v / 0x4_0000 == b;
    assert v / 0x800_0000 == b / 0x200;
  }
}
