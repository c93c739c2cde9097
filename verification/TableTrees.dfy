/** Whole trees of tables: a new PML4 that shares the higher half, and what lies below a table when it is destroyed. */
module TableTrees {
  import opened NextFit
  import opened PhysMem
  import opened PageTables

  function RootTable(n: nat): Table { Table(4, n, 0, Own(n)) }

  /** m is mem with page n made a PML4: empty below, the kernel's entries above. */
  ghost predicate RootMade(mem: Mem, m: Mem, kernel: nat, n: nat)
  {
    && |m| == |mem|
    && (forall q: nat, j: nat :: q != n ==> At(m, q, j) == At(mem, q, j))
    && (forall j: nat :: At(m, n, j) == if 256 <= j < 512 then At(mem, kernel, j) else 0)
  }

  lemma RootMadeKeepsInvariant(mem: Mem, tabs: Tables, kernel: nat, n: nat, m: Mem, t: Tables)
    requires TablesOk(mem, tabs, kernel) && n !in tabs && n < |mem| && RootMade(mem, m, kernel, n)
    requires t == tabs[n := RootTable(n)]
    ensures TablesOk(m, t, kernel)
  {
    assert TableOk(mem, tabs, kernel) && HigherHalfOk(mem, kernel, kernel);
    forall q | q in t ensures TableOk(m, t, q) { assert q in tabs ==> TableOk(mem, tabs, q); }
    forall q, j | q in t ensures EntryOk(m, t, kernel, q, j) {
      assert EntryOk(mem, tabs, kernel, kernel, j);
      assert q in tabs ==> EntryOk(mem, tabs, kernel, q, j);
    }
    forall q | q in t ensures Hangs(m, t, kernel, q) { assert q in tabs ==> Hangs(mem, tabs, kernel, q); }
    forall q | q in t && t[q].level == 4 ensures HigherHalfOk(m, kernel, q) {
      assert q in tabs ==> HigherHalfOk(mem, kernel, q);
    }
  }

  /** Walks that only look at entries that did not change go where they went. */
  lemma {:induction false} WalkUnchanged(mem: Mem, m: Mem, r: nat, vpn: nat, level: nat)
    requires 1 <= level <= 4
    requires forall l :: level < l <= 4 && Reach(mem, r, vpn, l).Some? ==>
               At(m, Reach(mem, r, vpn, l).value, Index(vpn, l)) == At(mem, Reach(mem, r, vpn, l).value, Index(vpn, l))
    ensures Reach(m, r, vpn, level) == Reach(mem, r, vpn, level)
    decreases 4 - level
  {
    if level < 4 { WalkUnchanged(mem, m, r, vpn, level + 1); }
  }

  lemma RootMadeTranslates(mem: Mem, tabs: Tables, kernel: nat, n: nat, m: Mem, r: nat, v: nat)
    requires TablesOk(mem, tabs, kernel) && n !in tabs && RootMade(mem, m, kernel, n) && IsRoot(tabs, r)
    ensures Translate(m, r, v) == Translate(mem, r, v)
  {
    forall l | 1 <= l <= 4 ensures Reach(mem, r, v, l) != Some(n) { ReachInTables(mem, tabs, kernel, r, v, l); }
    WalkUnchanged(mem, m, r, v, 1);
  }

  /** A new space maps nothing in its lower half and what the kernel maps in its higher half. */
  lemma NewRootTranslates(mem: Mem, tabs: Tables, kernel: nat, n: nat, m: Mem, t: Tables, v: nat)
    requires TablesOk(mem, tabs, kernel) && n !in tabs && n < |mem| && RootMade(mem, m, kernel, n)
    requires t == tabs[n := RootTable(n)]
    ensures Translate(m, n, v) == if Higher(v) then Translate(mem, kernel, v) else None
  {
    RootMadeKeepsInvariant(mem, tabs, kernel, n, m, t);
    RootMadeTranslates(mem, tabs, kernel, n, m, kernel, v);
    if Higher(v) {
      HigherHalfAgrees(m, t, kernel, n, kernel, v);
    } else {
      assert Reach(m, n, v, 3) == None;
      assert Reach(m, n, v, 2) == None;
      assert Reach(m, n, v, 1) == None;
    }
  }

  // ---- The tree below a table

  function Parent(tabs: Tables, x: nat): nat { if x in tabs then tabs[x].parent else x }

  /** The table that many levels up. */
  function Up(tabs: Tables, x: nat, steps: nat): nat
  {
    if steps == 0 then x else Parent(tabs, Up(tabs, x, steps - 1))
  }

  /** x is table p or a table of the same home that hangs, at whatever depth, below p. */
  predicate IsBelow(tabs: Tables, p: nat, x: nat)
  {
    && p in tabs && x in tabs && tabs[x].home == tabs[p].home && tabs[x].level <= tabs[p].level
    && Up(tabs, x, tabs[p].level - tabs[x].level) == p
  }

  function Below(tabs: Tables, p: nat): (s: set<nat>)
    ensures forall x :: x in s <==> IsBelow(tabs, p, x)
  {
    set x | x in tabs && IsBelow(tabs, p, x)
  }

  /** The child of p on the way down to x. */
  function Branch(tabs: Tables, p: nat, x: nat): nat
  {
    if p in tabs && x in tabs && tabs[x].level < tabs[p].level then Up(tabs, x, tabs[p].level - tabs[x].level - 1)
    else x
  }

  /** The tables strictly below p that are reached through entries before entry i. */
  function BelowBefore(tabs: Tables, p: nat, i: nat): (s: set<nat>)
    ensures forall x :: x in s <==>
              x != p && IsBelow(tabs, p, x) && Branch(tabs, p, x) in tabs && tabs[Branch(tabs, p, x)].slot < i
  {
    set x | x in tabs && x != p && IsBelow(tabs, p, x)
            && Branch(tabs, p, x) in tabs && tabs[Branch(tabs, p, x)].slot < i
  }

  /** The tables a space owns: everything of its lower half, its PML4 included. */
  function OwnTables(tabs: Tables, r: nat): (s: set<nat>)
    ensures forall x :: x in s <==> x in tabs && tabs[x].home == Own(r)
  {
    set x | x in tabs && tabs[x].home == Own(r)
  }

  /** Going up from x as many steps as there are levels above it stays among the tables, one level a step, in the
      same home, until a PML4 or the higher half is reached. */
  lemma ParentStep(mem: Mem, tabs: Tables, kernel: nat, x: nat)
    requires TablesOk(mem, tabs, kernel) && x in tabs && tabs[x].level < 4
    ensures Parent(tabs, x) in tabs && tabs[Parent(tabs, x)].level == tabs[x].level + 1
    ensures tabs[x].home != Shared || tabs[x].level < 3 ==> tabs[Parent(tabs, x)].home == tabs[x].home
  {
    hide TablesOk;
    TableAt(mem, tabs, kernel, x);
  }

  lemma {:induction false} UpInTables(mem: Mem, tabs: Tables, kernel: nat, x: nat, steps: nat)
    requires TablesOk(mem, tabs, kernel) && x in tabs && tabs[x].level + steps <= 4
    ensures Up(tabs, x, steps) in tabs && tabs[Up(tabs, x, steps)].level == tabs[x].level + steps
    ensures tabs[x].home != Shared ==> tabs[Up(tabs, x, steps)].home == tabs[x].home
    ensures tabs[x].level + steps < 4 ==> tabs[Up(tabs, x, steps)].home == tabs[x].home
  {
    if steps > 0 {
      hide TablesOk, Parent;
      UpInTables(mem, tabs, kernel, x, steps - 1);
      ParentStep(mem, tabs, kernel, Up(tabs, x, steps - 1));
    }
  }

  /** What a space owns is exactly what lies below its PML4 through lower-half entries. */
  lemma OwnIsBelow(mem: Mem, tabs: Tables, kernel: nat, r: nat)
    requires TablesOk(mem, tabs, kernel) && IsRoot(tabs, r)
    ensures Below(tabs, r) == OwnTables(tabs, r)
    ensures Below(tabs, r) == BelowBefore(tabs, r, 256) + {r}
  {
    assert TableOk(mem, tabs, r);
    forall x | x in OwnTables(tabs, r) ensures IsBelow(tabs, r, x) && (x == r || x in BelowBefore(tabs, r, 256)) {
      OwnLeadsToRoot(mem, tabs, kernel, r, x);
    }
  }

  lemma OwnLeadsToRoot(mem: Mem, tabs: Tables, kernel: nat, r: nat, x: nat)
    requires TablesOk(mem, tabs, kernel) && IsRoot(tabs, r) && x in tabs && tabs[x].home == Own(r)
             && tabs[r].home == Own(r)
    ensures IsBelow(tabs, r, x)
    ensures x != r ==> Branch(tabs, r, x) in tabs && tabs[Branch(tabs, r, x)].slot < 256
  {
    hide TablesOk;
    TableAt(mem, tabs, kernel, x);
    var k := 4 - tabs[x].level;
    UpInTables(mem, tabs, kernel, x, k);
    TableAt(mem, tabs, kernel, Up(tabs, x, k));
    if k > 0 {
      UpInTables(mem, tabs, kernel, x, k - 1);
      TableAt(mem, tabs, kernel, Branch(tabs, r, x));
    }
  }

  /** Below a table under the PML4 level: the table itself and what its 512 entries lead to. */
  lemma BelowIsBranches(mem: Mem, tabs: Tables, kernel: nat, p: nat)
    requires TablesOk(mem, tabs, kernel) && p in tabs && tabs[p].level < 4
    ensures Below(tabs, p) == BelowBefore(tabs, p, 512) + {p}
  {
    forall x | x in Below(tabs, p) && x != p ensures x in BelowBefore(tabs, p, 512) {
      var k := tabs[p].level - tabs[x].level;
      UpInTables(mem, tabs, kernel, x, if k > 0 then k - 1 else 0);
      assert Hangs(mem, tabs, kernel, Branch(tabs, p, x));
    }
  }

  /** One more entry of p: if it is present, exactly the tree of the table it leads to is added, and nothing of that
      tree was there before; if not, nothing is. */
  lemma NextBranch(mem: Mem, tabs: Tables, kernel: nat, p: nat, i: nat)
    requires TablesOk(mem, tabs, kernel) && p in tabs && tabs[p].level >= 2
    requires i < if tabs[p].level == 4 then 256 else 512
    ensures var c := FrameOf(At(mem, p, i));
            if Present(At(mem, p, i)) then
              c in tabs && tabs[c].level == tabs[p].level - 1
              && BelowBefore(tabs, p, i + 1) == BelowBefore(tabs, p, i) + Below(tabs, c)
              && BelowBefore(tabs, p, i) !! Below(tabs, c)
            else BelowBefore(tabs, p, i + 1) == BelowBefore(tabs, p, i)
  {
    assert TableOk(mem, tabs, p) && EntryOk(mem, tabs, kernel, p, i);
    var c := FrameOf(At(mem, p, i));
    forall x | x in BelowBefore(tabs, p, i + 1) && x !in BelowBefore(tabs, p, i)
      ensures Present(At(mem, p, i)) && x in Below(tabs, c)
    {
      var k := tabs[p].level - tabs[x].level;
      UpInTables(mem, tabs, kernel, x, if k > 0 then k - 1 else 0);
      assert Hangs(mem, tabs, kernel, Branch(tabs, p, x));
    }
    if Present(At(mem, p, i)) {
      forall x | x in Below(tabs, c) ensures x in BelowBefore(tabs, p, i + 1) && x !in BelowBefore(tabs, p, i) {
        BelowChild(tabs, kernel, p, c, x);
      }
    }
  }

  lemma BelowChild(tabs: Tables, kernel: nat, p: nat, c: nat, x: nat)
    requires p in tabs && c in tabs && tabs[c].level + 1 == tabs[p].level && tabs[c].parent == p
    requires tabs[c].home == tabs[p].home && IsBelow(tabs, c, x)
    ensures x != p && IsBelow(tabs, p, x) && Branch(tabs, p, x) == c
  {
    assert Up(tabs, x, tabs[p].level - tabs[x].level) == Parent(tabs, c);
  }

  lemma BelowStarts(tabs: Tables, p: nat)
    ensures BelowBefore(tabs, p, 0) == {}
  {}

  lemma BranchInBelow(tabs: Tables, p: nat, i: nat)
    ensures BelowBefore(tabs, p, i) <= Below(tabs, p)
  {}

  /** The table itself and what all its entries (the lower half of them in a PML4) lead to make up its tree. */
  lemma BelowComplete(mem: Mem, tabs: Tables, kernel: nat, p: nat)
    requires TablesOk(mem, tabs, kernel) && p in tabs
    ensures p in Below(tabs, p) && p !in BelowBefore(tabs, p, 512)
    ensures tabs[p].level > 1 ==>
              Below(tabs, p) == BelowBefore(tabs, p, if tabs[p].level == 4 then 256 else 512) + {p}
    ensures tabs[p].level == 1 ==> Below(tabs, p) == {p}
  {
    hide TablesOk;
    TableAt(mem, tabs, kernel, p);
    if tabs[p].level == 4 {
      OwnIsBelow(mem, tabs, kernel, p);
    } else {
      BelowIsBranches(mem, tabs, kernel, p);
      if tabs[p].level == 1 {
        forall x | x in Below(tabs, p) ensures x == p { TableAt(mem, tabs, kernel, x); }
      }
    }
  }

  /** With all of a space's own tables gone the rest is still a forest with the same shape. */
  lemma WithoutOwnKeepsInvariant(mem: Mem, tabs: Tables, kernel: nat, r: nat)
    requires TablesOk(mem, tabs, kernel) && IsRoot(tabs, r) && r != kernel
    ensures TablesOk(mem, tabs - OwnTables(tabs, r), kernel)
  {
    var t := tabs - OwnTables(tabs, r);
    assert TableOk(mem, tabs, kernel);
    forall q | q in t ensures TableOk(mem, t, q) { assert TableOk(mem, tabs, q); }
    forall q, j | q in t ensures EntryOk(mem, t, kernel, q, j) {
      assert TableOk(mem, tabs, q) && EntryOk(mem, tabs, kernel, q, j);
    }
    forall q | q in t ensures Hangs(mem, t, kernel, q) {
      assert Hangs(mem, tabs, kernel, q);
      assert tabs[q].level < 4 ==> TableOk(mem, tabs, tabs[q].parent);
    }
    forall q | q in t && t[q].level == 4 ensures HigherHalfOk(mem, kernel, q) { assert HigherHalfOk(mem, kernel, q); }
  }

  // ---- The kernel's tree at start-up

  /** The kernel's PML4 while `init` fills its higher half: entries 256 .. i lead to empty tables of their own. */
  ghost predicate InitTree(mem: Mem, tabs: Tables, kernel: nat, i: nat)
  {
    && kernel < |mem| <= 0x100_0000_0000
    && kernel in tabs && tabs[kernel] == RootTable(kernel)
    && (forall j: nat :: 256 <= j < i ==> InitEntry(mem, tabs, kernel, j))
    && (forall j: nat :: !(256 <= j < i) ==> At(mem, kernel, j) == 0)
    && (forall c :: c in tabs && c != kernel ==> InitChild(mem, tabs, kernel, i, c))
  }

  ghost predicate InitEntry(mem: Mem, tabs: Tables, kernel: nat, j: nat)
  {
    && Present(At(mem, kernel, j))
    && FrameOf(At(mem, kernel, j)) in tabs
    && FrameOf(At(mem, kernel, j)) != kernel
    && tabs[FrameOf(At(mem, kernel, j))] == Table(3, kernel, j, Shared)
  }

  ghost predicate InitChild(mem: Mem, tabs: Tables, kernel: nat, i: nat, c: nat)
    requires c in tabs
  {
    && c < |mem| && 256 <= tabs[c].slot < i
    && tabs[c] == Table(3, kernel, tabs[c].slot, Shared)
    && FrameOf(At(mem, kernel, tabs[c].slot)) == c
    && forall j: nat :: At(mem, c, j) == 0
  }

  lemma InitTreeStep(mem: Mem, tabs: Tables, kernel: nat, i: nat, n: nat, m: Mem, t: Tables)
    requires InitTree(mem, tabs, kernel, i) && 256 <= i < 512 && n !in tabs && n < |mem|
    requires Added(mem, m, kernel, i, n) && t == tabs[n := Table(3, kernel, i, Shared)]
    ensures InitTree(m, t, kernel, i + 1)
  {
    forall j: nat | 256 <= j < i + 1 ensures InitEntry(m, t, kernel, j) {
      assert j < i ==> InitEntry(mem, tabs, kernel, j);
    }
    forall c | c in t && c != kernel ensures InitChild(m, t, kernel, i + 1, c) {
      assert c in tabs ==> InitChild(mem, tabs, kernel, i, c);
    }
  }

  /** With all 256 entries filled the invariant of every later state holds, and nothing is mapped yet. */
  lemma InitTreeDone(mem: Mem, tabs: Tables, kernel: nat)
    requires InitTree(mem, tabs, kernel, 512)
    ensures TablesOk(mem, tabs, kernel)
    ensures forall v :: Translate(mem, kernel, v) == None
  {
    forall p | p in tabs ensures TableOk(mem, tabs, p) && Hangs(mem, tabs, kernel, p) {
      assert p != kernel ==> InitChild(mem, tabs, kernel, 512, p) && InitEntry(mem, tabs, kernel, tabs[p].slot);
    }
    forall p, i: nat | p in tabs ensures EntryOk(mem, tabs, kernel, p, i) {
      assert p != kernel ==> InitChild(mem, tabs, kernel, 512, p);
      assert 256 <= i < 512 ==> InitEntry(mem, tabs, kernel, i);
    }
    forall p | p in tabs && tabs[p].level == 4 ensures HigherHalfOk(mem, kernel, p) {
      assert p != kernel ==> InitChild(mem, tabs, kernel, 512, p);
      forall i: nat | 256 <= i < 512 ensures Present(At(mem, kernel, i)) { assert InitEntry(mem, tabs, kernel, i); }
    }
    forall v ensures Translate(mem, kernel, v) == None {
      var i := Index(v, 4);
      assert 256 <= i ==>
          InitEntry(mem, tabs, kernel, i) && InitChild(mem, tabs, kernel, 512, FrameOf(At(mem, kernel, i)));
      assert Reach(mem, kernel, v, 2) == None;
      assert Reach(mem, kernel, v, 1) == None;
    }
  }
}
