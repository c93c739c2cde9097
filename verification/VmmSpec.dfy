/** What the memory manager's calls do to memory, tables and page ownership, as relations between snapshots. */
module VmmSpec {
  import opened NextFit
  import opened PhysMem
  import opened Pmms
  import opened PageTables
  import opened TableTrees
  import Words

  /** What the memory manager works on: memory, the tables in it, and who holds which page. */
  datatype Snap = Snap(mem: Mem, tabs: Tables, ledger: Ledger)

  /** Every table page is a live one-page allocation. */
  ghost predicate TablesHeld(tabs: Tables, l: Ledger)
  {
    forall p :: p in tabs ==> p in l.live && l.live[p] == 1
  }

  ghost predicate SnapOk(s: Snap, kernel: nat)
  {
    TablesOk(s.mem, s.tabs, kernel) && TablesHeld(s.tabs, s.ledger)
  }

  /** All tables of a are still there in b; what b has more are fresh one-page allocations below the PML4 level, of
      home h, and the ledger has grown by exactly those. */
  ghost predicate TablesGrew(a: Snap, b: Snap, h: Home)
  {
    && a.tabs.Keys <= b.tabs.Keys
    && (forall p :: p in a.tabs ==> b.tabs[p] == a.tabs[p])
    && (forall p :: p in b.tabs && p !in a.tabs ==> p !in a.ledger.live && b.tabs[p].level < 4 && b.tabs[p].home == h)
    && b.ledger.usable == a.ledger.usable
    && b.ledger.live.Keys == a.ledger.live.Keys + b.tabs.Keys
    && (forall p :: p in a.ledger.live ==> b.ledger.live[p] == a.ledger.live[p])
  }

  /** Memory outside the tables is untouched. */
  ghost predicate OutsideKept(a: Snap, b: Snap)
  {
    |b.mem| == |a.mem| && forall p: nat, i: nat :: p !in b.tabs ==> At(b.mem, p, i) == At(a.mem, p, i)
  }

  /** No space's translation of any page differs. */
  ghost predicate SameTranslations(a: Snap, b: Snap)
  {
    forall r, v: nat :: IsRoot(a.tabs, r) ==> Translate(b.mem, r, v) == Translate(a.mem, r, v)
  }

  /** Entries that were present still hold what they held. */
  ghost predicate EntriesKept(a: Snap, b: Snap)
  {
    forall p: nat, i: nat :: p in a.tabs && Present(At(a.mem, p, i)) ==> At(b.mem, p, i) == At(a.mem, p, i)
  }

  ghost predicate Grew(a: Snap, b: Snap, kernel: nat, h: Home)
  {
    SnapOk(b, kernel) && TablesGrew(a, b, h) && OutsideKept(a, b) && EntriesKept(a, b) && SameTranslations(a, b)
  }

  lemma GrewSame(a: Snap, kernel: nat, h: Home)
    requires SnapOk(a, kernel)
    ensures Grew(a, a, kernel, h)
  {
    assert a.ledger.live.Keys == a.ledger.live.Keys + a.tabs.Keys;
  }

  lemma TablesGrewTwice(a: Snap, b: Snap, c: Snap, h: Home)
    requires TablesGrew(a, b, h) && TablesGrew(b, c, h)
    ensures TablesGrew(a, c, h)
  {
    forall p | p in c.tabs && p !in a.tabs
      ensures p !in a.ledger.live && c.tabs[p].level < 4 && c.tabs[p].home == h
    {
      assert p in b.tabs ==> c.tabs[p] == b.tabs[p];
    }
    forall p | p in a.tabs ensures c.tabs[p] == a.tabs[p] { assert p in b.tabs; }
    assert c.ledger.live.Keys == a.ledger.live.Keys + c.tabs.Keys;
    forall p | p in a.ledger.live ensures c.ledger.live[p] == a.ledger.live[p] { assert p in b.ledger.live; }
  }

  /** TablesGrew whatever the homes of the new tables. */
  ghost predicate MoreTables(a: Snap, b: Snap)
  {
    && a.tabs.Keys <= b.tabs.Keys
    && (forall p :: p in a.tabs ==> b.tabs[p] == a.tabs[p])
    && (forall p :: p in b.tabs && p !in a.tabs ==> p !in a.ledger.live && b.tabs[p].level < 4)
    && b.ledger.usable == a.ledger.usable
    && b.ledger.live.Keys == a.ledger.live.Keys + b.tabs.Keys
    && (forall p :: p in a.ledger.live ==> b.ledger.live[p] == a.ledger.live[p])
  }

  lemma GrewMore(a: Snap, b: Snap, h: Home)
    requires TablesGrew(a, b, h)
    ensures MoreTables(a, b)
  {}

  lemma MoreTablesTwice(a: Snap, b: Snap, c: Snap, h: Home)
    requires MoreTables(a, b) && TablesGrew(b, c, h)
    ensures MoreTables(a, c)
  {
    forall p | p in c.tabs && p !in a.tabs ensures p !in a.ledger.live && c.tabs[p].level < 4 {
      assert p in b.tabs ==> c.tabs[p] == b.tabs[p];
    }
    forall p | p in a.tabs ensures c.tabs[p] == a.tabs[p] { assert p in b.tabs; }
    assert c.ledger.live.Keys == a.ledger.live.Keys + c.tabs.Keys;
    forall p | p in a.ledger.live ensures c.ledger.live[p] == a.ledger.live[p] { assert p in b.ledger.live; }
  }

  lemma MoreTablesSame(a: Snap)
    requires TablesHeld(a.tabs, a.ledger)
    ensures MoreTables(a, a) && OutsideKept(a, a)
  {
    assert a.ledger.live.Keys == a.ledger.live.Keys + a.tabs.Keys;
  }

  lemma StillRoots(a: Snap, b: Snap, c: Snap, h: Home)
    requires TablesGrew(b, c, h) && (forall r :: IsRoot(a.tabs, r) ==> IsRoot(b.tabs, r))
    requires OutsideKept(a, b) && OutsideKept(b, c)
    ensures (forall r :: IsRoot(a.tabs, r) ==> IsRoot(c.tabs, r)) && OutsideKept(a, c)
  {}

  lemma WrappedSize(pages: nat)
    ensures Wrapped(pages * 4096) == pages % 0x10_0000_0000_0000 * 4096
  {
    var q := pages / 0x10_0000_0000_0000;
    assert pages * 4096 == 0x1_0000_0000_0000_0000 * q + pages % 0x10_0000_0000_0000 * 4096;
  }

  lemma OutsideKeptTwice(a: Snap, b: Snap, c: Snap)
    requires OutsideKept(a, b) && OutsideKept(b, c) && b.tabs.Keys <= c.tabs.Keys
    ensures OutsideKept(a, c)
  {}

  lemma EntriesKeptTwice(a: Snap, b: Snap, c: Snap)
    requires EntriesKept(a, b) && EntriesKept(b, c) && a.tabs.Keys <= b.tabs.Keys
    ensures EntriesKept(a, c)
  {}

  lemma SameTranslationsTwice(a: Snap, b: Snap, c: Snap)
    requires SameTranslations(a, b) && SameTranslations(b, c)
    requires forall p :: p in a.tabs ==> p in b.tabs && b.tabs[p] == a.tabs[p]
    ensures SameTranslations(a, c)
  {
    forall r, v: nat | IsRoot(a.tabs, r) ensures Translate(c.mem, r, v) == Translate(a.mem, r, v) {
      assert IsRoot(b.tabs, r);
    }
  }

  lemma GrewTwice(a: Snap, b: Snap, c: Snap, kernel: nat, h: Home)
    requires Grew(a, b, kernel, h) && Grew(b, c, kernel, h)
    ensures Grew(a, c, kernel, h)
  {
    TablesGrewTwice(a, b, c, h);
    OutsideKeptTwice(a, b, c);
    EntriesKeptTwice(a, b, c);
    SameTranslationsTwice(a, b, c);
  }

  lemma AddTablesGrew(a: Snap, b: Snap, n: nat, t: Table)
    requires TablesHeld(a.tabs, a.ledger) && n !in a.ledger.live && t.level < 4
    requires b.ledger == Granted(a.ledger, n, 1) && b.tabs == a.tabs[n := t]
    ensures TablesGrew(a, b, t.home) && TablesHeld(b.tabs, b.ledger)
  {
    assert n !in a.tabs;
    assert b.ledger.live.Keys == a.ledger.live.Keys + {n};
    assert b.tabs.Keys == a.tabs.Keys + {n};
    assert a.ledger.live.Keys + b.tabs.Keys == a.ledger.live.Keys + {n};
  }

  lemma AddOutsideKept(a: Snap, b: Snap, p: nat, i: nat, n: nat)
    requires Added(a.mem, b.mem, p, i, n) && p in b.tabs && n in b.tabs
    requires n !in a.tabs && !Present(At(a.mem, p, i))
    ensures OutsideKept(a, b) && EntriesKept(a, b)
  {}

  /** One table added to the tree, its page taken from the allocator. */
  lemma AddGrows(a: Snap, kernel: nat, p: nat, i: nat, n: nat, b: Snap)
    requires SnapOk(a, kernel) && p in a.tabs && a.tabs[p].level >= 2 && i < 512 && !Present(At(a.mem, p, i))
    requires n < |a.mem| && n !in a.ledger.live && b.ledger == Granted(a.ledger, n, 1)
    requires p < |a.mem| <= 0x100_0000_0000 && b.mem == WithTable(a.mem, p, i, n)
    requires b.tabs == a.tabs[n := ChildTable(a.tabs, kernel, p, i)]
    ensures Grew(a, b, kernel, ChildTable(a.tabs, kernel, p, i).home)
  {
    WithTableAdds(a.mem, p, i, n);
    assert TableOk(a.mem, a.tabs, p);
    AddTablesGrew(a, b, n, ChildTable(a.tabs, kernel, p, i));
    AddOutsideKept(a, b, p, i, n);
    AddedKeepsInvariant(a.mem, a.tabs, kernel, p, i, n, b.mem, b.tabs);
    forall r, v: nat | IsRoot(a.tabs, r) ensures Translate(b.mem, r, v) == Translate(a.mem, r, v) {
      AddedTranslates(a.mem, a.tabs, kernel, p, i, n, b.mem, r, v);
    }
  }

  /** Where a walk from `root` to page `vpn` puts the tables it adds. */
  function HomeOf(root: nat, vpn: nat): Home
  {
    if Higher(vpn) then Shared else Own(root)
  }

  lemma IndexOfAddress4(virt: nat)
    ensures Index(Vpn(virt), 4) == virt / 0x80_0000_0000 % 512
  {
    var q, m := virt / 0x1_0000_0000_0000, virt % 0x1_0000_0000_0000;
    assert virt / 0x80_0000_0000 == q * 0x200 + m / 0x80_0000_0000;
    assert m / 4096 / 0x800_0000 == m / 0x80_0000_0000;
  }

  lemma IndexOfAddress3(virt: nat)
    ensures Index(Vpn(virt), 3) == virt / 0x4000_0000 % 512
  {
    var q, m := virt / 0x1_0000_0000_0000, virt % 0x1_0000_0000_0000;
    assert virt / 0x4000_0000 == q * 0x4_0000 + m / 0x4000_0000;
    DropMultiple(q * 0x200, m / 0x4000_0000);
    assert m / 4096 / 0x4_0000 == m / 0x4000_0000;
  }

  lemma IndexOfAddress2(virt: nat)
    ensures Index(Vpn(virt), 2) == virt / 0x20_0000 % 512
  {
    var q, m := virt / 0x1_0000_0000_0000, virt % 0x1_0000_0000_0000;
    assert virt / 0x20_0000 == q * 0x800_0000 + m / 0x20_0000;
    DropMultiple(q * 0x4_0000, m / 0x20_0000);
    assert m / 4096 / 0x200 == m / 0x20_0000;
  }

  lemma DropMultiple(k: nat, y: nat)
    ensures (512 * k + y) % 512 == y % 512
  {}

  lemma IndexOfAddress1(virt: nat)
    ensures Index(Vpn(virt), 1) == virt / 0x1000 % 512
  {
    var q, m := virt / 0x1_0000_0000_0000, virt % 0x1_0000_0000_0000;
    assert virt / 0x1000 == 512 * (q * 0x800_0000) + m / 0x1000;
  }

  /** A walk that got to a table still gets there after tables were added. */
  lemma {:induction false} ReachStays(a: Snap, b: Snap, kernel: nat, root: nat, vpn: nat, level: nat)
    requires TablesOk(a.mem, a.tabs, kernel) && EntriesKept(a, b) && IsRoot(a.tabs, root) && 1 <= level <= 4
    requires Reach(a.mem, root, vpn, level).Some?
    ensures Reach(b.mem, root, vpn, level) == Reach(a.mem, root, vpn, level)
    decreases 4 - level
  {
    if level < 4 {
      ReachStays(a, b, kernel, root, vpn, level + 1);
      ReachInTables(a.mem, a.tabs, kernel, root, vpn, level + 1);
    }
  }

  // ---- What `map` does to the translations

  /** Space r sees a mapping that is made in space `root` at page vpn. */
  predicate Sees(r: nat, root: nat, vpn: nat) { r == root || Higher(vpn) }

  /** `map` as an operation on flat maps: entry w is inserted at page vpn if nothing was there, in `root` or, in the
      higher half, in every space; no other page's translation changes anywhere. When the walk could not be `built`
      nothing changes at all. */
  ghost predicate MapsOne(a: Snap, b: Snap, root: nat, vpn: nat, w: Word, built: bool)
  {
    forall r, v: nat :: IsRoot(a.tabs, r) && v < 0x10_0000_0000 ==>
      Translate(b.mem, r, v) ==
      if built && v == vpn && Sees(r, root, vpn) && Translate(a.mem, r, v).None? && Present(w) then Some(w)
      else Translate(a.mem, r, v)
  }

  lemma LeafMaps(a: Snap, b: Snap, kernel: nat, root: nat, vpn: nat, t: nat, w: Word, c: Snap)
    requires SnapOk(a, kernel) && Grew(a, b, kernel, HomeOf(root, vpn)) && IsRoot(a.tabs, root) && vpn < 0x10_0000_0000
    requires Reach(b.mem, root, vpn, 1) == Some(t) && t in b.tabs && b.tabs[t].level == 1 && t < |b.mem|
    requires !Present(At(b.mem, t, Index(vpn, 1)))
    requires c == b.(mem := Put(b.mem, t, Index(vpn, 1), w))
    ensures MapsOne(a, c, root, vpn, w, true) && SnapOk(c, kernel)
    ensures TablesGrew(a, c, HomeOf(root, vpn)) && OutsideKept(a, c)
  {
    WithLeafKeepsInvariant(b.mem, b.tabs, kernel, t, Index(vpn, 1), w);
    forall r, v: nat | IsRoot(a.tabs, r) && v < 0x10_0000_0000
      ensures Translate(c.mem, r, v) ==
              if v == vpn && Sees(r, root, vpn) && Translate(a.mem, r, v).None? && Present(w) then Some(w)
              else Translate(a.mem, r, v)
    {
      assert IsRoot(b.tabs, r) && IsRoot(b.tabs, root);
      WithLeafTranslates(b.mem, b.tabs, kernel, root, vpn, t, w, r, v);
      if SameIndices(v, vpn) {
        IndicesDetermine(v, vpn);
        if r != root && Higher(vpn) { HigherHalfAgrees(b.mem, b.tabs, kernel, r, root, vpn); }
      }
    }
  }

  lemma NothingMaps(a: Snap, b: Snap, kernel: nat, h: Home, root: nat, vpn: nat, w: Word)
    requires Grew(a, b, kernel, h)
    ensures MapsOne(a, b, root, vpn, w, false)
  {}

  lemma PresentMaps(a: Snap, b: Snap, kernel: nat, root: nat, vpn: nat, w: Word)
    requires SnapOk(a, kernel) && Grew(a, b, kernel, HomeOf(root, vpn)) && IsRoot(a.tabs, root)
    requires Reach(b.mem, root, vpn, 1).Some? && Present(At(b.mem, Reach(b.mem, root, vpn, 1).value, Index(vpn, 1)))
    ensures MapsOne(a, b, root, vpn, w, true)
  {
    assert Translate(b.mem, root, vpn).Some?;
    forall r | IsRoot(a.tabs, r) && Sees(r, root, vpn) ensures Translate(a.mem, r, vpn).Some? {
      if r != root { HigherHalfAgrees(a.mem, a.tabs, kernel, r, root, vpn); }
    }
  }

  /** The word `phys | flags` that `map` stores. */
  function LeafEntry(phys: Word, flags: Word): Word
  {
    Words.Powers();
    Words.OrBound(phys, flags, 64);
    Words.Or(phys, flags)
  }

  /** For a page-aligned address below 2^52 and flags among PTE bits 0-11 and 63, the entry reads back as that frame
      and those flags. */
  lemma LeafEntryReads(frame: nat, low: nat, nx: nat)
    requires frame < 0x100_0000_0000 && low < 4096 && nx < 2
    ensures var w := LeafEntry(frame * 4096, nx * 0x8000_0000_0000_0000 + low);
            FrameOf(w) == frame && w % 4096 == low && w / 0x8000_0000_0000_0000 == nx && (Present(w) <==> low % 2 == 1)
  {
    hide Words.Or;
    Words.OrOfFlags(frame, low, nx);
    FlagDigits(frame, low, nx);
  }

  lemma FlagDigits(frame: nat, low: nat, nx: nat)
    requires frame < 0x100_0000_0000 && low < 4096 && nx < 2
    ensures var w := nx * 0x8000_0000_0000_0000 + frame * 4096 + low;
            w / 4096 % 0x100_0000_0000 == frame && w % 4096 == low && w / 0x8000_0000_0000_0000 == nx
            && (w % 2 == 1 <==> low % 2 == 1)
  {
    var w := nx * 0x8000_0000_0000_0000 + frame * 4096 + low;
    assert w / 4096 == 0x100_0000_0000 * (2048 * nx) + frame;
    assert w == 4096 * (nx * 0x8_0000_0000_0000 + frame) + low;
  }

  lemma TableBounded(s: Snap, kernel: nat, p: nat)
    requires SnapOk(s, kernel) && p in s.tabs
    ensures p < |s.mem| <= 0x100_0000_0000 && 1 <= s.tabs[p].level <= 4
  {
    assert TableOk(s.mem, s.tabs, p);
  }

  lemma KernelIsRoot(s: Snap, kernel: nat)
    requires SnapOk(s, kernel)
    ensures IsRoot(s.tabs, kernel) && kernel < |s.mem| <= 0x100_0000_0000 && kernel in s.ledger.live
  {
    assert TableOk(s.mem, s.tabs, kernel);
  }

  // ---- Ranges

  /** How many pages past `virt` page v lies, counting round the 48-bit space. */
  function Offset(virt: nat, v: nat): (k: nat)
    requires v < 0x10_0000_0000
    ensures k < 0x10_0000_0000
  {
    (v + 0x10_0000_0000 - Vpn(virt)) % 0x10_0000_0000
  }

  function Wrapped(x: nat): Word { x % 0x1_0000_0000_0000_0000 }

  lemma OffsetOfStep(virt: nat, k: nat, v: nat)
    requires v < 0x10_0000_0000
    ensures Vpn(Wrapped(virt + 4096 * k)) == v <==> Offset(virt, v) == k % 0x10_0000_0000
  {
    StepVpn(virt, k);
    AddModulo(k, Vpn(virt));
  }

  lemma StepVpn(virt: nat, k: nat)
    ensures Vpn(Wrapped(virt + 4096 * k)) == (Vpn(virt) + k) % 0x10_0000_0000
  {
    WrappedVpn(virt + 4096 * k);
    VpnIsShifted(virt + 4096 * k);
    VpnIsShifted(virt);
    assert (virt + 4096 * k) / 4096 == virt / 4096 + k;
    AddModulo(virt / 4096, k);
  }

  lemma WrappedVpn(x: nat)
    ensures Vpn(Wrapped(x)) == Vpn(x)
  {
    var q := x / 0x1_0000_0000_0000_0000;
    assert x == 0x1_0000_0000_0000 * (0x1_0000 * q) + Wrapped(x);
    Modulo48(0x1_0000 * q, Wrapped(x));
  }

  lemma Modulo48(q: nat, y: nat)
    ensures (0x1_0000_0000_0000 * q + y) % 0x1_0000_0000_0000 == y % 0x1_0000_0000_0000
  {}

  lemma AddModulo(x: nat, k: nat)
    ensures (x + k) % 0x10_0000_0000 == (x % 0x10_0000_0000 + k) % 0x10_0000_0000
  {}

  lemma VpnIsShifted(x: nat)
    ensures Vpn(x) == x / 4096 % 0x10_0000_0000
  {
    var q, m := x / 0x1_0000_0000_0000, x % 0x1_0000_0000_0000;
    assert x / 4096 == 0x10_0000_0000 * q + m / 4096;
  }

  /** The entry that `map_range` makes for its k-th page. */
  function RangeEntry(phys: Word, flags: Word, k: nat): Word
  {
    LeafEntry(Wrapped(phys + 4096 * k), flags)
  }

  /** `map_range` as an operation on flat maps: exactly its pages that were unmapped are mapped, each to its own
      frame; everything else stays. Short of memory (`complete` off) some of its pages may be left out, or, if the
      range goes round the 48-bit space, be mapped on a later round only. */
  ghost predicate MapsRange(a: Snap, b: Snap, root: nat, virt: Word, phys: Word, pages: nat, flags: Word,
                            complete: bool)
  {
    forall r, v: nat :: IsRoot(a.tabs, r) && v < 0x10_0000_0000 ==>
      InRange(a, b, root, virt, phys, pages, flags, complete, r, v)
  }

  ghost predicate InRange(a: Snap, b: Snap, root: nat, virt: Word, phys: Word, pages: nat, flags: Word, complete: bool,
                          r: nat, v: nat)
    requires v < 0x10_0000_0000
  {
    var k := Offset(virt, v);
    var now := Translate(b.mem, r, v);
    if k < pages && Sees(r, root, v) && Translate(a.mem, r, v).None? && Present(RangeEntry(phys, flags, k)) then
      || now == Some(RangeEntry(phys, flags, k))
      || (!complete && (now.None? || OnLaterRound(phys, flags, k, pages, now.value)))
    else now == Translate(a.mem, r, v)
  }

  /** w is the entry that a range of that many pages makes for its k-th page when it comes to it again. */
  ghost predicate OnLaterRound(phys: Word, flags: Word, k: nat, pages: nat, w: Word)
  {
    exists j: nat :: k < j < pages && j % 0x10_0000_0000 == k && w == RangeEntry(phys, flags, j)
  }

  /** Either all entries of a range are present or none is: the flags and bit 0 of the address decide. */
  lemma RangePresent(phys: Word, flags: Word, j: nat, k: nat)
    ensures Present(RangeEntry(phys, flags, j)) == Present(RangeEntry(phys, flags, k))
  {
    WrappedLowBit(phys, j);
    WrappedLowBit(phys, k);
    Words.OrLowBit(Wrapped(phys + 4096 * j), flags);
    Words.OrLowBit(Wrapped(phys + 4096 * k), flags);
  }

  lemma WrappedLowBit(x: nat, k: nat)
    ensures Wrapped(x + 4096 * k) % 2 == x % 2
  {
    var y := x + 4096 * k;
    var q := y / 0x1_0000_0000_0000_0000;
    assert Wrapped(y) == x + 2 * (2048 * k - 0x8000_0000_0000_0000 * q);
  }

  lemma RangeStarts(a: Snap, root: nat, virt: Word, phys: Word, flags: Word)
    ensures MapsRange(a, a, root, virt, phys, 0, flags, true)
  {}

  lemma RangeStep(a: Snap, b: Snap, c: Snap, root: nat, virt: Word, phys: Word, k: nat, flags: Word, done: bool,
                  built: bool)
    requires MapsRange(a, b, root, virt, phys, k, flags, done)
    requires MapsOne(b, c, root, Vpn(Wrapped(virt + 4096 * k)), RangeEntry(phys, flags, k), built)
    requires forall r :: IsRoot(a.tabs, r) ==> IsRoot(b.tabs, r)
    ensures MapsRange(a, c, root, virt, phys, k + 1, flags, done && built)
  {
    hide Present, RangeEntry, Vpn, Offset;
    var next, all := k + 1, done && built;
    forall r, v: nat | IsRoot(a.tabs, r) && v < 0x10_0000_0000
      ensures InRange(a, c, root, virt, phys, next, flags, all, r, v)
    {
      assert InRange(a, b, root, virt, phys, k, flags, done, r, v);
      OffsetOfStep(virt, k, v);
      RangePresent(phys, flags, k, Offset(virt, v));
      LaterRounds(phys, flags, Offset(virt, v), k);
    }
  }

  /** Flags are among PTE bits 0-11 and 63, bit 0 being the one for a page that is present. */
  predicate PresentFlags(flags: Word)
  {
    flags % 2 == 1 && flags / 4096 % 0x8_0000_0000_0000 == 0
  }

  /** The k-th page of a range, if it was not mapped, leads to the k-th frame from `phys` on, under the flags given. */
  ghost predicate PageReads(mem: Mem, m: Mem, root: nat, virt: Word, phys: Word, flags: Word, k: nat)
  {
    phys % 4096 == 0 && phys / 4096 + k < 0x100_0000_0000 && PresentFlags(flags) ==>
      Translate(mem, root, (virt / 4096 + k) % 0x10_0000_0000).None? ==>
        var w := phys + 4096 * k + flags;
        && Translate(m, root, (virt / 4096 + k) % 0x10_0000_0000) == Some(w)
        && FrameOf(w) == phys / 4096 + k && w % 4096 == flags % 4096
        && w / 0x8000_0000_0000_0000 == flags / 0x8000_0000_0000_0000
  }

  /** What a complete `map_range` leads its pages to. */
  lemma RangeReads(a: Snap, b: Snap, root: nat, virt: Word, phys: Word, pages: nat, flags: Word, k: nat)
    requires MapsRange(a, b, root, virt, phys, pages, flags, true) && IsRoot(a.tabs, root)
    requires k < pages && k < 0x10_0000_0000
    ensures PageReads(a.mem, b.mem, root, virt, phys, flags, k)
  {
    hide Words.Or, Translate, LeafEntry, Vpn, Offset, Present, FrameOf;
    if phys % 4096 == 0 && phys / 4096 + k < 0x100_0000_0000 && PresentFlags(flags) {
      var v := (virt / 4096 + k) % 0x10_0000_0000;
      StepVpn(virt, k);
      VpnIsShifted(virt);
      AddModulo(virt / 4096, k);
      OffsetOfStep(virt, k, v);
      RangeEntryReads(phys, flags, k);
      assert InRange(a, b, root, virt, phys, pages, flags, true, root, v);
    }
  }

  lemma RangeEntryReads(phys: Word, flags: Word, k: nat)
    requires phys % 4096 == 0 && phys / 4096 + k < 0x100_0000_0000 && PresentFlags(flags)
    ensures var w := RangeEntry(phys, flags, k);
            && w == phys + 4096 * k + flags && Present(w) && FrameOf(w) == phys / 4096 + k
            && w % 4096 == flags % 4096 && w / 0x8000_0000_0000_0000 == flags / 0x8000_0000_0000_0000
  {
    hide Words.Or;
    var frame, low, nx := phys / 4096 + k, flags % 4096, flags / 0x8000_0000_0000_0000;
    FlagsSplit(flags);
    Words.OrOfFlags(frame, low, nx);
    FlagDigits(frame, low, nx);
  }

  lemma FlagsSplit(flags: Word)
    requires PresentFlags(flags)
    ensures flags == flags / 0x8000_0000_0000_0000 * 0x8000_0000_0000_0000 + flags % 4096
    ensures flags / 0x8000_0000_0000_0000 < 2 && flags % 4096 % 2 == 1
  {
    var q := flags / 4096;
    assert q == 0x8_0000_0000_0000 * (q / 0x8_0000_0000_0000);
    assert flags == 4096 * q + flags % 4096;
  }

  /** No two pages of a range get the same frame. */
  lemma RangeFramesApart(a: Snap, b: Snap, root: nat, virt: Word, phys: Word, pages: nat, flags: Word, k: nat, m: nat)
    requires MapsRange(a, b, root, virt, phys, pages, flags, true) && IsRoot(a.tabs, root)
    requires k < m < pages && m < 0x10_0000_0000
    requires phys % 4096 == 0 && phys / 4096 + m < 0x100_0000_0000 && PresentFlags(flags)
    requires Translate(a.mem, root, (virt / 4096 + k) % 0x10_0000_0000).None?
    requires Translate(a.mem, root, (virt / 4096 + m) % 0x10_0000_0000).None?
    ensures var x := Translate(b.mem, root, (virt / 4096 + k) % 0x10_0000_0000);
            var y := Translate(b.mem, root, (virt / 4096 + m) % 0x10_0000_0000);
            x.Some? && y.Some? && FrameOf(x.value) < FrameOf(y.value)
  {
    hide MapsRange, Translate, FrameOf, PresentFlags;
    RangeReads(a, b, root, virt, phys, pages, flags, k);
    RangeReads(a, b, root, virt, phys, pages, flags, m);
  }

  lemma LaterRounds(phys: Word, flags: Word, o: nat, k: nat)
    ensures forall w: Word :: OnLaterRound(phys, flags, o, k, w) ==> OnLaterRound(phys, flags, o, k + 1, w)
    ensures k > o && k % 0x10_0000_0000 == o ==> OnLaterRound(phys, flags, o, k + 1, RangeEntry(phys, flags, k))
  {}

  /** Pages other than these read as before. */
  ghost predicate PagesKept(mem: Mem, m: Mem, pages: set<nat>)
  {
    |m| == |mem| && forall p: nat, i: nat :: p !in pages ==> At(m, p, i) == At(mem, p, i)
  }

  /** The tables t2 has more than t1 are one-page allocations fresh since l1, and the ledger gained nothing else. */
  ghost predicate HeldGrew(t1: Tables, l1: Ledger, t2: Tables, l2: Ledger)
  {
    && TablesHeld(t2, l2) && t1.Keys <= t2.Keys
    && l2.usable == l1.usable && l2.live - (t2.Keys - t1.Keys) == l1.live
  }

  lemma HeldAdds(t: Tables, l: Ledger, n: nat, t2: Tables, l2: Ledger)
    requires TablesHeld(t, l) && n !in l.live && l2 == Granted(l, n, 1) && t2.Keys == t.Keys + {n}
    ensures HeldGrew(t, l, t2, l2) && n !in t
  {
    assert l2.live - {n} == l.live;
    assert t2.Keys - t.Keys == {n};
  }

  lemma HeldGrewTwice(t0: Tables, l0: Ledger, t1: Tables, l1: Ledger, t2: Tables, l2: Ledger)
    requires HeldGrew(t0, l0, t1, l1) && HeldGrew(t1, l1, t2, l2)
    ensures HeldGrew(t0, l0, t2, l2)
  {
    forall p ensures p in l2.live - (t2.Keys - t0.Keys) <==> p in l0.live {
      assert p in l1.live - (t1.Keys - t0.Keys) <==> p in l0.live;
      assert p in l2.live - (t2.Keys - t1.Keys) <==> p in l1.live;
    }
    forall p | p in l0.live ensures l2.live[p] == l0.live[p] {
      assert p in l1.live - (t1.Keys - t0.Keys) && p in l2.live - (t2.Keys - t1.Keys);
    }
    assert l2.live - (t2.Keys - t0.Keys) == l0.live;
  }

  // ---- Creating and destroying a space

  /** A new PML4 at page n, fresh from the allocator: lower half empty, higher half the kernel's. */
  ghost predicate SpaceMade(a: Snap, b: Snap, kernel: nat, n: nat)
  {
    && SnapOk(b, kernel)
    && n !in a.tabs && n !in a.ledger.live
    && b.tabs == a.tabs[n := RootTable(n)] && b.ledger == Granted(a.ledger, n, 1)
    && OutsideKept(a, b) && SameTranslations(a, b)
    && forall v: nat :: Translate(b.mem, n, v) == if Higher(v) then Translate(a.mem, kernel, v) else None
  }

  lemma RootMakesSpace(a: Snap, b: Snap, kernel: nat, n: nat)
    requires SnapOk(a, kernel) && n !in a.ledger.live && n < |a.mem|
    requires b.ledger == Granted(a.ledger, n, 1) && b.tabs == a.tabs[n := RootTable(n)]
    requires RootMade(a.mem, b.mem, kernel, n)
    ensures SpaceMade(a, b, kernel, n)
  {
    assert n !in a.tabs;
    RootMadeKeepsInvariant(a.mem, a.tabs, kernel, n, b.mem, b.tabs);
    forall r, v: nat | IsRoot(a.tabs, r) ensures Translate(b.mem, r, v) == Translate(a.mem, r, v) {
      RootMadeTranslates(a.mem, a.tabs, kernel, n, b.mem, r, v);
    }
    forall v: nat ensures Translate(b.mem, n, v) == if Higher(v) then Translate(a.mem, kernel, v) else None {
      NewRootTranslates(a.mem, a.tabs, kernel, n, b.mem, b.tabs, v);
    }
  }

  /** Space r is gone: its own tables, and only they, are off the books; memory is as it was. */
  ghost predicate SpaceGone(a: Snap, b: Snap, r: nat)
  {
    && b.mem == a.mem && b.tabs == a.tabs - OwnTables(a.tabs, r)
    && b.ledger.usable == a.ledger.usable && b.ledger.live == a.ledger.live - OwnTables(a.tabs, r)
  }

  lemma GoneKeepsInvariant(a: Snap, b: Snap, kernel: nat, r: nat)
    requires SnapOk(a, kernel) && IsRoot(a.tabs, r) && r != kernel && SpaceGone(a, b, r)
    ensures SnapOk(b, kernel)
  {
    WithoutOwnKeepsInvariant(a.mem, a.tabs, kernel, r);
  }

  /** What a run of lower-half maps in space r has done by now: its own tables are all the ledger has gained. */
  ghost predicate OnlyOwnGrew(a: Snap, b: Snap, r: nat)
  {
    && b.tabs - OwnTables(b.tabs, r) == a.tabs
    && b.ledger.usable == a.ledger.usable
    && b.ledger.live - OwnTables(b.tabs, r) == a.ledger.live
  }

  lemma OnlyOwnStarts(a: Snap, b: Snap, kernel: nat, n: nat)
    requires SnapOk(a, kernel) && SpaceMade(a, b, kernel, n)
    ensures OnlyOwnGrew(a, b, n)
  {
    hide SnapOk;
    forall p | p in a.tabs ensures a.tabs[p].home != Own(n) {
      if a.tabs[p].home != Shared { HomeIsRoot(a, kernel, p); }
    }
    RootAloneIsOwn(a, b, n);
  }

  lemma RootAloneIsOwn(a: Snap, b: Snap, n: nat)
    requires n !in a.tabs && n !in a.ledger.live && forall p :: p in a.tabs ==> a.tabs[p].home != Own(n)
    requires b.tabs == a.tabs[n := RootTable(n)] && b.ledger == Granted(a.ledger, n, 1)
    ensures OnlyOwnGrew(a, b, n)
  {
    assert OwnTables(b.tabs, n) == {n};
    assert b.tabs - {n} == a.tabs;
    assert b.ledger.live - {n} == a.ledger.live;
  }

  lemma HomeIsRoot(a: Snap, kernel: nat, p: nat)
    requires SnapOk(a, kernel) && p in a.tabs && a.tabs[p].home != Shared
    ensures a.tabs[p].home.root in a.tabs
  {
    TableAt(a.mem, a.tabs, kernel, p);
    UpInTables(a.mem, a.tabs, kernel, p, 4 - a.tabs[p].level);
    TableAt(a.mem, a.tabs, kernel, Up(a.tabs, p, 4 - a.tabs[p].level));
  }

  lemma OnlyOwnContinues(a: Snap, b: Snap, c: Snap, r: nat)
    requires OnlyOwnGrew(a, b, r) && TablesGrew(b, c, Own(r)) && TablesHeld(b.tabs, b.ledger)
    ensures OnlyOwnGrew(a, c, r)
  {
    assert c.tabs - OwnTables(c.tabs, r) == a.tabs by {
      forall p ensures p in c.tabs - OwnTables(c.tabs, r) <==> p in a.tabs {
        assert p in b.tabs - OwnTables(b.tabs, r) <==> p in a.tabs;
      }
      forall p | p in a.tabs ensures c.tabs[p] == a.tabs[p] { assert p in b.tabs - OwnTables(b.tabs, r); }
    }
    forall p ensures p in c.ledger.live - OwnTables(c.tabs, r) <==> p in a.ledger.live {
      assert p in b.ledger.live - OwnTables(b.tabs, r) <==> p in a.ledger.live;
    }
    forall p | p in a.ledger.live ensures c.ledger.live[p] == a.ledger.live[p] {
      assert p in b.ledger.live - OwnTables(b.tabs, r);
    }
  }

  /** Seen from the spaces and the allocations there were in a, nothing has happened: they translate as they did, and
      allocated memory other than tables reads as it did. */
  ghost predicate OthersKept(a: Snap, b: Snap)
  {
    && (forall r, v: nat :: IsRoot(a.tabs, r) && v < 0x10_0000_0000 ==>
        Translate(b.mem, r, v) == Translate(a.mem, r, v))
    && (forall p: nat, i: nat :: p in a.ledger.live && p !in a.tabs ==> At(b.mem, p, i) == At(a.mem, p, i))
  }

  lemma OthersKeptAtStart(a: Snap, b: Snap, kernel: nat, n: nat)
    requires SnapOk(a, kernel) && SpaceMade(a, b, kernel, n)
    ensures OthersKept(a, b)
  {
    forall p: nat, i: nat | p in a.ledger.live && p !in a.tabs ensures At(b.mem, p, i) == At(a.mem, p, i) {
      assert p !in b.tabs;
    }
  }

  lemma OthersKeptByMap(a: Snap, b: Snap, c: Snap, r: nat, vpn: nat, w: Word, built: bool)
    requires OthersKept(a, b) && OnlyOwnGrew(a, b, r) && OnlyOwnGrew(a, c, r) && r !in a.tabs
    requires MapsOne(b, c, r, vpn, w, built) && !Higher(vpn) && OutsideKept(b, c)
    ensures OthersKept(a, c)
  {
    forall q, v: nat | IsRoot(a.tabs, q) && v < 0x10_0000_0000
      ensures Translate(c.mem, q, v) == Translate(a.mem, q, v)
    {
      assert q in b.tabs - OwnTables(b.tabs, r);
      assert IsRoot(b.tabs, q) && q != r;
    }
    forall p: nat, i: nat | p in a.ledger.live && p !in a.tabs ensures At(c.mem, p, i) == At(a.mem, p, i) {
      assert p in c.ledger.live - OwnTables(c.tabs, r);
      assert p !in c.tabs - OwnTables(c.tabs, r);
    }
  }

  lemma OthersKeptAtEnd(a: Snap, b: Snap, c: Snap)
    requires OthersKept(a, b) && c.mem == b.mem
    ensures OthersKept(a, c)
  {}

  lemma LifetimeEnds(a: Snap, b: Snap, r: nat)
    requires OnlyOwnGrew(a, b, r)
    ensures b.tabs - OwnTables(b.tabs, r) == a.tabs && b.ledger.live - OwnTables(b.tabs, r) == a.ledger.live
  {}
}
