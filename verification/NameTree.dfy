/** Paths, and the tree of hash tables that `Vfs::create` and `Vfs::get_node` walk. */
module NameTrees {
  import opened NextFit
  import opened HashMaps

  // ---- Paths

  const SLASH: Char := 47

  /** A path, without its terminator. */
  type Path = p: seq<Char> | 0 !in p witness []

  /** Where the name that begins at i ends. */
  function NameEnd(p: Path, i: nat): (e: nat)
    requires i <= |p|
    ensures i <= e <= |p|
    decreases |p| - i
  {
    if i == |p| || p[i] == SLASH then i else NameEnd(p, i + 1)
  }

  /** Where the slashes that begin at i end. */
  function SlashEnd(p: Path, i: nat): (e: nat)
    requires i <= |p|
    ensures i <= e <= |p|
    decreases |p| - i
  {
    if i < |p| && p[i] == SLASH then SlashEnd(p, i + 1) else i
  }

  /** The name after the one that begins at i. */
  function NextStart(p: Path, i: nat): (e: nat)
    requires i < |p|
    ensures i < e <= |p|
  {
    SlashEnd(p, NameEnd(p, i))
  }

  /** The hashes of the names from i on. */
  function KeysFrom(p: Path, i: nat): seq<Hash32>
    requires i <= |p|
    decreases |p| - i
  {
    if i == |p| then [] else [Hash(p[i..NameEnd(p, i)])] + KeysFrom(p, NextStart(p, i))
  }

  /** What the loop of `create` looks up, name after name. A leading slash makes the first name empty. */
  function Keys(p: Path): seq<Hash32>
  {
    KeysFrom(p, 0)
  }

  /** What `get_node` looks up: leading slashes are skipped first. */
  function AbsoluteKeys(p: Path): seq<Hash32>
  {
    KeysFrom(p, SlashEnd(p, 0))
  }

  /** The path with a slash in front. */
  function Slashed(p: Path): Path
  {
    [SLASH] + p
  }

  lemma {:induction false} SlashedEnds(p: Path, i: nat)
    requires i <= |p|
    ensures NameEnd(Slashed(p), i + 1) == NameEnd(p, i) + 1 && SlashEnd(Slashed(p), i + 1) == SlashEnd(p, i) + 1
    decreases |p| - i
  {
    if i < |p| { SlashedEnds(p, i + 1); }
  }

  lemma SlashedName(p: Path, i: nat)
    requires i < |p|
    ensures var q := Slashed(p);
            && NextStart(q, i + 1) == NextStart(p, i) + 1
            && q[i + 1..NameEnd(q, i + 1)] == p[i..NameEnd(p, i)]
  {
    SlashedEnds(p, i);
    SlashedEnds(p, NameEnd(p, i));
  }

  lemma {:induction false} SlashedKeys(p: Path, i: nat)
    requires i <= |p|
    ensures KeysFrom(Slashed(p), i + 1) == KeysFrom(p, i)
    decreases |p| - i
  {
    hide NameEnd, NextStart, Slashed, Hash;
    SlashedLength(p);
    if i < |p| {
      SlashedName(p, i);
      SlashedKeys(p, NextStart(p, i));
    }
  }

  lemma SlashedLength(p: Path)
    ensures |Slashed(p)| == |p| + 1
  {}

  lemma LeadingSlash(p: Path)
    ensures p == [] || p[0] != SLASH ==> AbsoluteKeys(p) == Keys(p)
    ensures p != [] && p[0] == SLASH ==> Keys(p) == [Hash([])] + AbsoluteKeys(p)
    ensures AbsoluteKeys(Slashed(p)) == AbsoluteKeys(p)
  {
    assert p[0..0] == [];
    SlashedEnds(p, 0);
    SlashedKeys(p, SlashEnd(p, 0));
  }

  /** A name: not empty, without slashes. */
  ghost predicate IsName(n: Path)
  {
    n != [] && SLASH !in n
  }

  lemma {:induction false} EndOfSlashless(n: Path, q: Path, i: nat)
    requires SLASH !in n && i <= |n| && (q == [] || q[0] == SLASH)
    ensures NameEnd(n + q, i) == |n|
    decreases |n| - i
  {
    if i < |n| {
      assert (n + q)[i] == n[i];
      EndOfSlashless(n, q, i + 1);
    }
  }

  lemma {:induction false} SuffixEnds(n: Path, q: Path, i: nat)
    requires i <= |q|
    ensures NameEnd(n + q, |n| + i) == |n| + NameEnd(q, i) && SlashEnd(n + q, |n| + i) == |n| + SlashEnd(q, i)
    decreases |q| - i
  {
    if i < |q| {
      assert (n + q)[|n| + i] == q[i];
      SuffixEnds(n, q, i + 1);
    }
  }

  /** The names of a path do not depend on what stands before them. */
  lemma {:induction false} SuffixKeys(n: Path, q: Path, i: nat)
    requires i <= |q|
    ensures KeysFrom(n + q, |n| + i) == KeysFrom(q, i)
    decreases |q| - i
  {
    hide NameEnd, SlashEnd, Hash;
    if i < |q| {
      SuffixEnds(n, q, i);
      SuffixEnds(n, q, NameEnd(q, i));
      assert (n + q)[|n| + i..|n| + NameEnd(q, i)] == q[i..NameEnd(q, i)];
      SuffixKeys(n, q, NextStart(q, i));
    }
  }

  /** How a path is split: a name on its own is one name; with a slash behind it, it is the first of the names, and the
      rest of the path, further slashes skipped, gives the others. */
  lemma SplitsAtSlash(n: Path, q: Path)
    requires IsName(n)
    ensures Keys(n) == [Hash(n)] && Keys(n + [SLASH]) == [Hash(n)]
    ensures Keys(n + [SLASH] + q) == [Hash(n)] + AbsoluteKeys(q)
  {
    hide NameEnd, SlashEnd, Hash;
    OneName(n);
    NameThen(n, []);
    NameThen(n, q);
    assert n + [SLASH] + [] == n + [SLASH];
    NoKeys();
  }

  lemma NoKeys()
    ensures AbsoluteKeys([]) == []
  {}

  lemma OneName(n: Path)
    requires IsName(n)
    ensures Keys(n) == [Hash(n)]
  {
    hide Hash;
    EndOfSlashless(n, [], 0);
    assert n + [] == n && n[0..|n|] == n;
    assert NextStart(n, 0) == |n| && KeysFrom(n, |n|) == [];
    assert KeysFrom(n, 0) == [Hash(n)] + KeysFrom(n, |n|);
  }

  lemma NameThen(n: Path, q: Path)
    requires IsName(n)
    ensures Keys(n + [SLASH] + q) == [Hash(n)] + AbsoluteKeys(q)
  {
    hide Hash;
    var rest: Path := [SLASH] + q;
    var p: Path := n + rest;
    assert n + [SLASH] + q == p;
    EndOfSlashless(n, rest, 0);
    assert p[0..|n|] == n;
    SuffixEnds(n, rest, 0);
    SlashedEnds(q, 0);
    SuffixKeys(n, rest, SlashEnd(rest, 0));
    SuffixKeys([SLASH], q, SlashEnd(q, 0));
  }

  /** Names with a slash between any two of them. */
  function Joined(names: seq<Path>): Path
  {
    if names == [] then [] else if |names| == 1 then names[0] else names[0] + [SLASH] + Joined(names[1..])
  }

  function Hashes(names: seq<Path>): (hs: seq<Hash32>)
    ensures |hs| == |names| && forall i :: 0 <= i < |names| ==> hs[i] == Hash(names[i])
  {
    seq(|names|, i requires 0 <= i < |names| => Hash(names[i]))
  }

  /** Splitting undoes joining: `create` and `get_node` look up exactly the names a path was put together from. */
  lemma {:induction false} SplitsJoined(names: seq<Path>)
    requires forall i :: 0 <= i < |names| ==> IsName(names[i])
    ensures Keys(Joined(names)) == Hashes(names) == AbsoluteKeys(Joined(names))
    ensures AbsoluteKeys(Slashed(Joined(names))) == Hashes(names)
  {
    hide Hash, IsName, AbsoluteKeys, Slashed;
    LeadingSlash(Joined(names));
    if names == [] {
      NoKeys();
      assert Joined(names) == [] && Hashes(names) == [];
    } else {
      StartsWithName(names);
      if |names| == 1 {
        OneName(names[0]);
        assert Hashes(names) == [Hash(names[0])];
      } else {
        SplitsJoined(names[1..]);
        NameThen(names[0], Joined(names[1..]));
        assert Hashes(names) == [Hash(names[0])] + Hashes(names[1..]);
      }
    }
  }

  lemma StartsWithName(names: seq<Path>)
    requires names != [] && IsName(names[0])
    ensures Joined(names) != [] && Joined(names)[0] != SLASH
  {
    assert names[0][0] in names[0];
  }

  // ---- The tree as a value

  /** A node: a file has no table of children. */
  datatype Vertex<N> = File | Directory(table: Table<N>)

  type Tree<N> = map<N, Vertex<N>>

  /** How a node hangs in the tree: its parent, the hash of its name, the length of its path. */
  datatype Up<N> = Up(parent: N, key: Hash32, depth: nat)

  function Child<N>(t: Tree<N>, n: N, key: Hash32): Option<N>
  {
    if n in t && t[n].Directory? && t[n].table != [] then Lookup(t[n].table, key) else None
  }

  datatype Outcome<N> = Found(node: N) | Missing | Fault

  /** `get_node`: from n down. Going below a file follows a null pointer. */
  function Walk<N>(t: Tree<N>, n: N, keys: seq<Hash32>): Outcome<N>
    decreases |keys|
  {
    if keys == [] then Found(n)
    else if n !in t || t[n].File? then Fault
    else match Child(t, n, keys[0])
      case None => Missing
      case Some(m) => Walk(t, m, keys[1..])
  }

  ghost predicate VertexOk<N>(t: Tree<N>, n: N)
  {
    n in t && (t[n].Directory? ==> TableOk(t[n].table) && NoDuplicates(t[n].table))
  }

  ghost predicate EdgeOk<N>(t: Tree<N>, up: map<N, Up<N>>, n: N, key: Hash32)
  {
    Child(t, n, key).Some? ==>
      var m := Child(t, n, key).value;
      m in t && m in up && n in up && up[m] == Up(n, key, up[n].depth + 1)
  }

  /** Every node but the root is its parent's child under one hash; every table lists a hash at most once. */
  ghost predicate TreeOk<N>(t: Tree<N>, up: map<N, Up<N>>, root: N)
  {
    && up.Keys == t.Keys && root in t && up[root].depth == 0
    && (forall n :: n in t ==> VertexOk(t, n))
    && (forall n, key :: n in t ==> EdgeOk(t, up, n, key))
  }

  // ---- Walks

  lemma {:induction false} WalkSplit<N>(t: Tree<N>, n: N, p: seq<Hash32>, q: seq<Hash32>)
    ensures Walk(t, n, p + q) == if Walk(t, n, p).Found? then Walk(t, Walk(t, n, p).node, q) else Walk(t, n, p)
    decreases |p|
  {
    if p == [] {
      assert p + q == q;
    } else {
      assert (p + q)[1..] == p[1..] + q;
      if n in t && t[n].Directory? && Child(t, n, p[0]).Some? { WalkSplit(t, Child(t, n, p[0]).value, p[1..], q); }
    }
  }

  /** A walk seen from its last step. */
  lemma WalkLast<N>(t: Tree<N>, n: N, p: seq<Hash32>, key: Hash32)
    requires forall m :: m in t ==> VertexOk(t, m)
    ensures Walk(t, n, p + [key]).Found? <==> Walk(t, n, p).Found? && Child(t, Walk(t, n, p).node, key).Some?
    ensures Walk(t, n, p + [key]).Found? ==> Child(t, Walk(t, n, p).node, key) == Some(Walk(t, n, p + [key]).node)
  {
    WalkSplit(t, n, p, [key]);
    if Walk(t, n, p).Found? {
      var m := Walk(t, n, p).node;
      assert [key][1..] == [];
    }
  }

  /** How a walk that finds a node got there. */
  lemma {:induction false} WalkArrives<N>(t: Tree<N>, up: map<N, Up<N>>, root: N, p: seq<Hash32>)
    requires TreeOk(t, up, root) && Walk(t, root, p).Found?
    ensures var m := Walk(t, root, p).node;
            && m in t && up[m].depth == |p|
            && (p != [] ==> up[m].key == p[|p| - 1] && Walk(t, root, p[..|p| - 1]) == Found(up[m].parent))
    decreases |p|
  {
    if p != [] {
      var q, key := p[..|p| - 1], p[|p| - 1];
      assert p == q + [key];
      WalkLast(t, root, q, key);
      WalkArrives(t, up, root, q);
      var edge := EdgeOk(t, up, Walk(t, root, q).node, key);
    }
  }

  /** A node is reached by one list of keys only. */
  lemma {:induction false} OneRoute<N>(t: Tree<N>, up: map<N, Up<N>>, root: N, p: seq<Hash32>, q: seq<Hash32>)
    requires TreeOk(t, up, root) && Walk(t, root, p).Found? && Walk(t, root, q) == Walk(t, root, p)
    ensures p == q
    decreases |p|
  {
    WalkArrives(t, up, root, p);
    WalkArrives(t, up, root, q);
    if p != [] {
      OneRoute(t, up, root, p[..|p| - 1], q[..|q| - 1]);
      assert p == p[..|p| - 1] + [p[|p| - 1]] && q == q[..|q| - 1] + [q[|q| - 1]];
    }
  }

  // ---- Adding a node

  function EmptyTable<N>(): (t: Table<N>)
    ensures |t| == 256 && forall i :: 0 <= i < 256 ==> t[i] == []
  {
    seq(256, _ => [])
  }

  ghost predicate Bare<N>(v: Vertex<N>)
  {
    v.File? || v.table == EmptyTable()
  }

  ghost function WithChild<N>(t: Tree<N>, n: N, key: Hash32, x: N, v: Vertex<N>): Tree<N>
    requires n in t && t[n].Directory? && t[n].table != []
  {
    t[x := v][n := Directory(Inserted(t[n].table, key, x))]
  }

  lemma WithChildAt<N>(t: Tree<N>, n: N, key: Hash32, x: N, v: Vertex<N>)
    requires n in t && t[n].Directory? && t[n].table != [] && x !in t
    ensures var t1 := WithChild(t, n, key, x, v);
            && t1.Keys == t.Keys + {x} && t1[x] == v && t1[n] == Directory(Inserted(t[n].table, key, x))
            && forall m :: m in t && m != n ==> t1[m] == t[m]
  {}

  ghost predicate CanAdd<N>(t: Tree<N>, up: map<N, Up<N>>, root: N, n: N, key: Hash32, x: N, v: Vertex<N>)
  {
    TreeOk(t, up, root) && n in t && t[n].Directory? && x !in t && Bare(v) && Child(t, n, key).None?
  }

  /** The tree t1 is t with the new node x, a child of n. */
  ghost predicate Adds<N>(t: Tree<N>, up: map<N, Up<N>>, root: N, n: N, key: Hash32, x: N, v: Vertex<N>,
                          t1: Tree<N>, up1: map<N, Up<N>>)
  {
    CanAdd(t, up, root, n, key, x, v) && VertexOk(t, n) && t1 == WithChild(t, n, key, x, v)
    && up1 == UpAfter(up, n, key, x)
  }

  lemma ChildAfter<N>(t: Tree<N>, up: map<N, Up<N>>, root: N, n: N, key: Hash32, x: N, v: Vertex<N>, a: N, k: Hash32)
    requires CanAdd(t, up, root, n, key, x, v) && VertexOk(t, n)
    ensures Child(WithChild(t, n, key, x, v), a, k) ==
            if a == n && k == key then Some(x) else if a == x then None else Child(t, a, k)
  {
    hide TreeOk, NoDuplicates;
    InsertIsPutIfAbsent(t[n].table, key, x, k);
    if a == x && v.Directory? { assert FindIn(v.table[Index(k, 256)], k) == None; }
  }

  ghost function UpAfter<N>(up: map<N, Up<N>>, n: N, key: Hash32, x: N): map<N, Up<N>>
    requires n in up
  {
    up[x := Up(n, key, up[n].depth + 1)]
  }

  lemma WithChildOk<N>(t: Tree<N>, up: map<N, Up<N>>, root: N, n: N, key: Hash32, x: N, v: Vertex<N>)
    requires CanAdd(t, up, root, n, key, x, v)
    ensures VertexOk(t, n) && TreeOk(WithChild(t, n, key, x, v), UpAfter(up, n, key, x), root)
  {
    hide Child;
    assert VertexOk(t, n);
    var t', up' := WithChild(t, n, key, x, v), UpAfter(up, n, key, x);
    forall m | m in t' ensures VertexOk(t', m) {
      if m == n {
        TableGrowsOk(t, n, key, x);
      } else if m == x {
        BareOk(v);
      } else {
        var was := VertexOk(t, m);
      }
    }
    forall m, k | m in t' ensures EdgeOk(t', up', m, k) {
      ChildAfter(t, up, root, n, key, x, v, m, k);
      var was := m in t && EdgeOk(t, up, m, k);
    }
  }

  lemma TableGrowsOk<N>(t: Tree<N>, n: N, key: Hash32, x: N)
    requires VertexOk(t, n) && t[n].Directory? && Child(t, n, key).None?
    ensures TableOk(Inserted(t[n].table, key, x)) && NoDuplicates(Inserted(t[n].table, key, x))
  {
    InsertIsPutIfAbsent(t[n].table, key, x, key);
    InsertAfterFailedGet(t[n].table, key, x);
  }

  lemma BareOk<N>(v: Vertex<N>)
    requires Bare(v)
    ensures v.Directory? ==> TableOk(v.table) && NoDuplicates(v.table)
  {
    if v.Directory? {
      forall i: nat | i < |v.table| ensures InPlace(v.table, i) && Unique(v.table[i]) {}
    }
  }

  /** A root directory that is still empty is a tree. */
  lemma RootOk<N>(root: N)
    ensures TreeOk(map[root := Directory(EmptyTable())], map[root := Up(root, 0, 0)], root)
  {
    var t: Tree<N> := map[root := Directory(EmptyTable())];
    BareOk(t[root]);
    forall key ensures Child(t, root, key).None? {}
  }

  /** Every walk that found something finds the same. */
  lemma {:induction false} WalkKept<N>(t: Tree<N>, up: map<N, Up<N>>, root: N, n: N, key: Hash32, x: N, v: Vertex<N>,
                                       a: N, ks: seq<Hash32>)
    requires CanAdd(t, up, root, n, key, x, v) && VertexOk(t, n) && a in t && Walk(t, a, ks).Found?
    ensures Walk(WithChild(t, n, key, x, v), a, ks) == Walk(t, a, ks)
    decreases |ks|
  {
    hide Child, Bare, VertexOk;
    if ks != [] {
      ChildAfter(t, up, root, n, key, x, v, a, ks[0]);
      ChildInTree(t, up, root, a, ks[0]);
      WalkKept(t, up, root, n, key, x, v, Child(t, a, ks[0]).value, ks[1..]);
    }
  }

  lemma ChildInTree<N>(t: Tree<N>, up: map<N, Up<N>>, root: N, a: N, key: Hash32)
    requires TreeOk(t, up, root) && a in t && Child(t, a, key).Some?
    ensures Child(t, a, key).value in t
  {
    var edge := EdgeOk(t, up, a, key);
  }

  /** The only walk that finds something new ends at the new node. */
  lemma {:induction false} WalkNew<N>(t: Tree<N>, up: map<N, Up<N>>, root: N, n: N, key: Hash32, x: N, v: Vertex<N>,
                                      d: seq<Hash32>, ks: seq<Hash32>)
    requires CanAdd(t, up, root, n, key, x, v) && VertexOk(t, n) && Walk(t, root, d) == Found(n)
    requires Walk(WithChild(t, n, key, x, v), root, ks).Found? && !Walk(t, root, ks).Found?
    ensures ks == d + [key] && Walk(WithChild(t, n, key, x, v), root, ks) == Found(x)
    decreases |ks|
  {
    hide Child, Bare;
    var t' := WithChild(t, n, key, x, v);
    var p, k := ks[..|ks| - 1], ks[|ks| - 1];
    assert ks == p + [k];
    WithChildOk(t, up, root, n, key, x, v);
    WalkLast(t', root, p, k);
    WalkLast(t, root, p, k);
    var a := Walk(t', root, p).node;
    ChildAfter(t, up, root, n, key, x, v, a, k);
    if Walk(t, root, p).Found? {
      WalkKept(t, up, root, n, key, x, v, root, p);
      OneRoute(t, up, root, p, d);
    } else {
      WalkNew(t, up, root, n, key, x, v, d, p);
    }
  }

  // ---- What create does

  /** The walk finds something after, and what was found before is found still, and is of the same kind. */
  ghost predicate StillFound<N>(t0: Tree<N>, t1: Tree<N>, root: N, ks: seq<Hash32>)
  {
    Walk(t0, root, ks).Found? ==>
      var m := Walk(t0, root, ks).node;
      Walk(t1, root, ks) == Found(m) && m in t0 && m in t1 && (t1[m].File? <==> t0[m].File?)
  }

  /** What is found only after lies along the path, is a new node, and a directory unless the path ends there and a
      file is wanted. */
  ghost predicate NewAlong<N>(t0: Tree<N>, t1: Tree<N>, root: N, path: seq<Hash32>, file: bool, ks: seq<Hash32>)
  {
    Walk(t1, root, ks).Found? && !Walk(t0, root, ks).Found? ==>
      var m := Walk(t1, root, ks).node;
      ks <= path && m !in t0 && m in t1 && (t1[m].File? <==> file && ks == path)
  }

  /** t1 is t0 with exactly the missing prefixes of the path added, `node` being at its end. */
  ghost predicate Created<N>(t0: Tree<N>, t1: Tree<N>, root: N, path: seq<Hash32>, file: bool, node: N)
  {
    && Walk(t1, root, path) == Found(node)
    && (forall ks :: StillFound(t0, t1, root, ks))
    && (forall ks :: NewAlong(t0, t1, root, path, file, ks))
    && (Walk(t0, root, path).Found? ==> t1 == t0)
  }

  lemma CreatedNothing<N>(t: Tree<N>, up: map<N, Up<N>>, root: N, file: bool)
    requires TreeOk(t, up, root)
    ensures Created(t, t, root, [], file, root)
  {
    forall ks ensures StillFound(t, t, root, ks) {
      if Walk(t, root, ks).Found? { WalkArrives(t, up, root, ks); }
    }
  }

  /** The next name is there: `create` goes on from it. */
  lemma CreatedThere<N>(t0: Tree<N>, t: Tree<N>, up: map<N, Up<N>>, root: N, d: seq<Hash32>, c: N, key: Hash32,
                        file: bool)
    requires TreeOk(t, up, root) && Created(t0, t, root, d, false, c) && Child(t, c, key).Some?
    ensures Created(t0, t, root, d + [key], file, Child(t, c, key).value)
  {
    hide Child, Walk;
    var e := d + [key];
    WalkLast(t, root, d, key);
    assert e[..|d|] == d && !(e <= d);
    var isNew := NewAlong(t0, t, root, d, false, e);
    forall ks ensures NewAlong(t0, t, root, e, file, ks) { var was := NewAlong(t0, t, root, d, false, ks); }
    assert Walk(t0, root, e).Found?;
    if !Walk(t0, root, d).Found? { WalkSplit(t0, root, d, [key]); }
  }

  /** The next name is missing: `create` adds it. */
  lemma CreatedNew<N>(t0: Tree<N>, t: Tree<N>, up: map<N, Up<N>>, root: N, d: seq<Hash32>, c: N, key: Hash32,
                      x: N, v: Vertex<N>, file: bool)
    requires CanAdd(t, up, root, c, key, x, v) && VertexOk(t, c) && t0.Keys <= t.Keys
    requires Created(t0, t, root, d, false, c) && (v.File? <==> file)
    ensures Created(t0, WithChild(t, c, key, x, v), root, d + [key], file, x)
  {
    hide Child, Walk, Bare;
    var t1, e := WithChild(t, c, key, x, v), d + [key];
    WithChildOk(t, up, root, c, key, x, v);
    WalkLast(t, root, d, key);
    WalkLast(t1, root, d, key);
    WalkKept(t, up, root, c, key, x, v, root, d);
    ChildAfter(t, up, root, c, key, x, v, c, key);
    forall ks ensures StillFound(t0, t1, root, ks) {
      var was := StillFound(t0, t, root, ks);
      if Walk(t0, root, ks).Found? { WalkKept(t, up, root, c, key, x, v, root, ks); }
    }
    forall ks ensures NewAlong(t0, t1, root, e, file, ks) {
      if Walk(t1, root, ks).Found? && !Walk(t0, root, ks).Found? {
        if Walk(t, root, ks).Found? {
          var was := NewAlong(t0, t, root, d, false, ks);
          WalkKept(t, up, root, c, key, x, v, root, ks);
        } else {
          WalkNew(t, up, root, c, key, x, v, d, ks);
        }
      }
    }
    var before := StillFound(t0, t, root, e);
  }

  /** Below a file `create` cannot go on: then it has added nothing, and the whole walk fails as `get_node` would. */
  lemma CreatedFault<N>(t0: Tree<N>, t: Tree<N>, root: N, d: seq<Hash32>, c: N, rest: seq<Hash32>)
    requires Created(t0, t, root, d, false, c) && c in t && t[c].File? && rest != []
    ensures t == t0 && Walk(t0, root, d + rest) == Fault
  {
    var isNew := NewAlong(t0, t, root, d, false, d);
    WalkSplit(t0, root, d, rest);
  }

  /** A walk that fails at a null pointer has come to a file with names left. */
  lemma {:induction false} FaultsAtFile<N>(t: Tree<N>, up: map<N, Up<N>>, root: N, a: N, ks: seq<Hash32>)
      returns (i: nat)
    requires TreeOk(t, up, root) && a in t && Walk(t, a, ks) == Fault
    ensures i < |ks| && Walk(t, a, ks[..i]).Found?
    ensures var m := Walk(t, a, ks[..i]).node; m in t && t[m].File?
    decreases |ks|
  {
    hide Child, VertexOk;
    if t[a].File? {
      return 0;
    }
    ChildInTree(t, up, root, a, ks[0]);
    i := FaultsAtFile(t, up, root, Child(t, a, ks[0]).value, ks[1..]);
    i := i + 1;
    assert ks[..i][1..] == ks[1..][..i - 1];
  }

  /** `create` gets to the end of its path only if the walk before did not run into a file. */
  lemma CreatedMeansNoFault<N>(t0: Tree<N>, up0: map<N, Up<N>>, t1: Tree<N>, root: N, path: seq<Hash32>, file: bool,
                               node: N)
    requires TreeOk(t0, up0, root) && Created(t0, t1, root, path, file, node)
    ensures Walk(t0, root, path) != Fault
  {
    if Walk(t0, root, path) == Fault {
      var i := FaultsAtFile(t0, up0, root, root, path);
      assert path == path[..i] + path[i..];
      WalkSplit(t1, root, path[..i], path[i..]);
      var still := StillFound(t0, t1, root, path[..i]);
    }
  }

  /** What resolves after `create`: what did before, and every prefix of its path. */
  lemma FoundExactly<N>(t0: Tree<N>, t1: Tree<N>, root: N, path: seq<Hash32>, file: bool, node: N, ks: seq<Hash32>)
    requires Created(t0, t1, root, path, file, node)
    ensures Walk(t1, root, ks).Found? <==> Walk(t0, root, ks).Found? || ks <= path
    ensures Walk(t0, root, ks).Found? ==> Walk(t1, root, ks) == Walk(t0, root, ks)
  {
    var still, along := StillFound(t0, t1, root, ks), NewAlong(t0, t1, root, path, file, ks);
    if ks <= path {
      WalkSplit(t1, root, ks, path[|ks|..]);
      assert path == ks + path[|ks|..];
    }
  }

  /** The round trip: `get_node` finds what `create` returned, under the same path if and only if that has no leading
      slash, and then with a slash put in front too. */
  lemma RoundTrip<N>(t0: Tree<N>, t1: Tree<N>, up: map<N, Up<N>>, root: N, p: Path, file: bool, node: N)
    requires TreeOk(t1, up, root) && Created(t0, t1, root, Keys(p), file, node)
    ensures Walk(t1, root, AbsoluteKeys(p)) == Found(node) <==> p == [] || p[0] != SLASH
    ensures p == [] || p[0] != SLASH ==> Walk(t1, root, AbsoluteKeys(Slashed(p))) == Found(node)
  {
    hide Keys, AbsoluteKeys, TreeOk, Walk;
    LeadingSlash(p);
    if Walk(t1, root, AbsoluteKeys(p)) == Found(node) {
      OneRoute(t1, up, root, Keys(p), AbsoluteKeys(p));
    }
  }

  /** A second `create` of the same path returns the same node and adds nothing. */
  lemma SecondCreate<N>(t0: Tree<N>, t1: Tree<N>, t2: Tree<N>, root: N, path: seq<Hash32>, file: bool, node: N,
                        again: bool, other: N)
    requires Created(t0, t1, root, path, file, node) && Created(t1, t2, root, path, again, other)
    ensures t2 == t1 && other == node
  {}

  /** A run of `create` calls that all succeed: trees before and after each, the keys of its path, the type asked for,
      the node returned. */
  ghost predicate CreateRun<N>(ts: seq<Tree<N>>, root: N, paths: seq<seq<Hash32>>, files: seq<bool>, nodes: seq<N>)
  {
    && |ts| == |paths| + 1 && |files| == |nodes| == |paths|
    && forall i :: 0 <= i < |paths| ==> Created(ts[i], ts[i + 1], root, paths[i], files[i], nodes[i])
  }

  /** Whatever else is created later, what resolved once resolves to the same node for good; so does the path of every
      `create` to the node that it returned. */
  lemma {:induction false} ResolvesForGood<N>(ts: seq<Tree<N>>, root: N, paths: seq<seq<Hash32>>, files: seq<bool>,
                                              nodes: seq<N>, i: nat, j: nat, ks: seq<Hash32>)
    requires CreateRun(ts, root, paths, files, nodes) && i <= j < |ts|
    ensures Walk(ts[i], root, ks).Found? ==> Walk(ts[j], root, ks) == Walk(ts[i], root, ks)
    ensures i < j ==> Walk(ts[j], root, paths[i]) == Found(nodes[i])
    decreases j - i
  {
    hide Walk;
    if i < j {
      assert Created(ts[i], ts[i + 1], root, paths[i], files[i], nodes[i]);
      var still := StillFound(ts[i], ts[i + 1], root, ks);
      ResolvesForGood(ts, root, paths, files, nodes, i + 1, j, ks);
      ResolvesForGood(ts, root, paths, files, nodes, i + 1, j, paths[i]);
    }
  }
}
