/** `Vfs::create` and `Vfs::get_node`: paths are split in place in a copy, and walked down a tree of hash tables. */
module Vfss {
  import opened NextFit
  import opened HashMaps
  import opened NameTrees

  lemma {:induction false} CStringIs(s: seq<Char>, from: nat, m: nat)
    requires from <= m < |s| && s[m] == 0 && 0 !in s[from..m]
    ensures Terminated(s, from) && CString(s, from) == s[from..m]
    decreases m - from
  {
    if from < m {
      assert s[from] == s[from..m][0] && s[from + 1..m] == s[from..m][1..];
      CStringIs(s, from + 1, m);
    }
  }

  /** `strdup`. */
  method Strdup(path: Path) returns (copy: array<Char>)
    ensures fresh(copy) && Holds(copy[..], path, 0)
  {
    copy := new Char[|path| + 1];
    var i := 0;
    while i < |path|
      invariant i <= |path| && copy[..i] == path[..i]
    {
      copy[i] := path[i];
      i := i + 1;
    }
    copy[i] := 0;
  }

  /** The rest of a path, as it stands in the copy. */
  ghost predicate Holds(s: seq<Char>, path: Path, at: nat)
  {
    at <= |path| && |s| == |path| + 1 && (forall k :: at <= k < |path| ==> s[k] == path[k]) && s[|path|] == 0
  }

  /** The first inner loop: over a name. */
  method EndOfName(sub: array<Char>, from: nat, ghost path: Path) returns (to: nat)
    requires Holds(sub[..], path, from)
    ensures to == NameEnd(path, from) && sub[..][from..to] == path[from..to]
    ensures sub[to] == 0 || sub[to] == SLASH
  {
    to := from;
    while sub[to] != 0 && sub[to] != SLASH
      invariant from <= to <= |path| && NameEnd(path, from) == NameEnd(path, to)
      decreases |path| - to
    {
      to := to + 1;
    }
  }

  /** The second inner loop: slashes become terminators. */
  method EraseSlashes(sub: array<Char>, from: nat, ghost path: Path) returns (to: nat)
    requires Holds(sub[..], path, from) && (sub[from] == 0 || sub[from] == SLASH)
    modifies sub
    ensures to == SlashEnd(path, from) && Holds(sub[..], path, to)
    ensures sub[from] == 0 && sub[..][..from] == old(sub[..][..from])
  {
    to := from;
    while sub[to] == SLASH
      invariant from <= to <= |path| && Holds(sub[..], path, to) && SlashEnd(path, from) == SlashEnd(path, to)
      invariant sub[from] == if to > from then 0 else old(sub[from])
      invariant forall k :: 0 <= k < from ==> sub[k] == old(sub[k])
      decreases |path| - to
    {
      sub[to] := 0;
      to := to + 1;
    }
  }

  /** One name of a path split off in the copy: it is a C string of its own now, and what follows its slashes is as it
      was. */
  method NextName(sub: array<Char>, from: nat, ghost path: Path) returns (to: nat)
    requires Holds(sub[..], path, from) && from < |path|
    modifies sub
    ensures to == NextStart(path, from) && Holds(sub[..], path, to)
    ensures Terminated(sub[..], from) && CString(sub[..], from) == path[from..NameEnd(path, from)]
  {
    var m := EndOfName(sub, from, path);
    ghost var name := sub[..][from..m];
    ghost var before := sub[..][..m];
    to := EraseSlashes(sub, m, path);
    assert sub[..][..m] == before && before[from..] == name && sub[..][from..m] == sub[..][..m][from..];
    CStringIs(sub[..], from, m);
  }

  // ---- The tree

  /** `isFile` is the node's type; a directory has a table of children. */
  class Node {
    const name: array<Char>
    const isFile: bool
    const parent: Node?
    const children: StringHashMap?<Node>
    const inode: nat

    constructor (name: array<Char>, isFile: bool, parent: Node?, children: StringHashMap?<Node>, inode: nat)
      ensures this.name == name && this.isFile == isFile && this.parent == parent && this.children == children
              && this.inode == inode
    {
      this.name := name;
      this.isFile := isFile;
      this.parent := parent;
      this.children := children;
      this.inode := inode;
    }
  }

  /** The string at `at`, in an array of its own. */
  method StrdupAt(buf: array<Char>, at: nat) returns (copy: array<Char>)
    requires Terminated(buf[..], at)
    ensures fresh(copy) && Terminated(copy[..], 0) && CString(copy[..], 0) == CString(buf[..], at)
  {
    var end := at;
    while buf[end] != 0
      invariant at <= end && Terminated(buf[..], end) && 0 !in buf[..][at..end]
      decreases buf.Length - end
    {
      end := end + 1;
    }
    CStringIs(buf[..], at, end);
    copy := new Char[end - at + 1];
    var i := 0;
    while i < end - at
      invariant i <= end - at && copy[..i] == buf[..][at..at + i]
    {
      copy[i] := buf[at + i];
      i := i + 1;
    }
    copy[i] := 0;
    assert copy[..][0..i] == buf[..][at..end];
    CStringIs(copy[..], 0, i);
  }

  /** What a new node starts as. */
  ghost function BareVertex(isFile: bool): (v: Vertex<Node>)
    ensures Bare(v) && (v.File? <==> isFile)
  {
    if isFile then File else Directory(EmptyTable())
  }

  ghost function Rehomed(home: map<object, Node>, owned: set<Entry<Node>>, parent: Node, x: Node)
      : (h: map<object, Node>)
    requires x.children != null ==> x.children !in home && x.children.entries !in home
    requires x != parent && forall e :: e in owned && e in home ==> home[e] == parent
    ensures forall o :: o in home ==> o in h && h[o] == home[o]
    ensures forall e :: e in owned ==> e in h && h[e] == parent
    ensures x.children != null ==>
              x.children in h && h[x.children] == x && x.children.entries in h && h[x.children.entries] == x
    ensures forall o :: o in h ==>
              o in home || o in owned || (x.children != null && (o == x.children || o == x.children.entries))
  {
    var entries := map e | e in owned :: e as object := parent;
    var table: map<object, Node> := if x.children == null then map[] else map[x.children := x, x.children.entries := x];
    home + entries + table
  }

  class Vfs {
    var root: Node?
    var nextInode: nat
    /** The tree that the nodes and their tables form. */
    ghost var tree: Tree<Node>
    ghost var up: map<Node, Up<Node>>
    /** The objects that make up the tables, each with the directory whose table it belongs to. */
    ghost var home: map<object, Node>

    ghost predicate NodeIn(n: Node)
      requires n in tree
      reads `tree, `home, home.Keys
    {
      && (n.isFile <==> n.children == null)
      && (n.isFile ==> tree[n] == File)
      && (n.children != null ==>
            && n.children in home && home[n.children] == n
            && n.children.entries in home && home[n.children.entries] == n
            && (forall e :: e in n.children.owned ==> e in home && home[e] == n)
            && n.children.Valid() && tree[n] == Directory(n.children.View()))
    }

    ghost predicate NodesIn()
      reads `tree, `home, home.Keys
    {
      this !in home && forall n :: n in tree ==> NodeIn(n)
    }

    ghost predicate Valid()
      reads `root, `tree, `up, `home, home.Keys
    {
      NodesIn() && (if root == null then tree == map[] else TreeOk(tree, up, root))
    }

    constructor ()
      ensures Valid() && root == null && tree == map[] && home == map[]
    {
      root := null;
      nextInode := 0;
      tree, up, home := map[], map[], map[];
    }

    /** `create` at a name it does not find: a new node in the table of `parent`. */
    method AddChild(parent: Node, sub: array<Char>, at: nat, isFile: bool, ghost key: Hash32, ghost top: Node)
        returns (x: Node)
      requires Valid() && parent in tree && parent.children != null && root == top
      requires sub !in home && Terminated(sub[..], at) && key == Hash(CString(sub[..], at))
               && Child(tree, parent, key).None?
      modifies `nextInode, `tree, `up, `home, home.Keys
      ensures Valid() && fresh(x) && fresh(home.Keys - old(home.Keys)) && sub !in home
      ensures Adds(old(tree), old(up), top, parent, key, x, BareVertex(isFile), tree, up)
      ensures x.parent == parent && x.inode == old(nextInode) && nextInode == old(nextInode) + 1
      ensures Terminated(x.name[..], 0) && CString(x.name[..], 0) == CString(sub[..], at)
    {
      hide TreeOk, Child, Hash, CString, Terminated, VertexOk, WithChild, UpAfter, CanAdd, StringHashMap.Valid;
      hide StringHashMap.View, NodesIn, NodeIn, IsBare, Bare, Rehomed;
      ghost var t, u := tree, up;
      ParentIn(parent);
      var name := StrdupAt(sub, at);
      x := NewNode(name, isFile, parent);
      CanAddHere(t, u, top, parent, key, x, isFile);
      Link(parent, name, x, key);
    }

    /** The new node itself, with the next inode number; a directory gets an empty table. */
    method NewNode(name: array<Char>, isFile: bool, parent: Node) returns (x: Node)
      requires this !in home
      modifies `nextInode
      ensures fresh(x) && x.name == name && x.isFile == isFile && (isFile <==> x.children == null)
      ensures x.parent == parent
      ensures x.children != null ==> fresh(x.children) && fresh(x.children.entries)
      ensures IsBare(x) && x.inode == old(nextInode) && nextInode == old(nextInode) + 1
    {
      var table: StringHashMap?<Node> := null;
      if !isFile {
        table := new StringHashMap(256);
      }
      x := new Node(name, isFile, parent, table, nextInode);
      nextInode := nextInode + 1;
    }

    lemma ParentIn(n: Node)
      requires NodesIn() && n in tree && n.children != null
      ensures tree[n].Directory? && this !in home
    {
      assert NodeIn(n);
    }

    lemma CanAddHere(t: Tree<Node>, u: map<Node, Up<Node>>, top: Node, n: Node, key: Hash32, x: Node, isFile: bool)
      requires TreeOk(t, u, top) && n in t && t[n].Directory? && x !in t && Child(t, n, key).None?
      ensures VertexOk(t, n) && n in u && t[n].table != [] && CanAdd(t, u, top, n, key, x, BareVertex(isFile))
      ensures TreeOk(WithChild(t, n, key, x, BareVertex(isFile)), UpAfter(u, n, key, x), top)
    {
      assert VertexOk(t, n);
      WithChildOk(t, u, top, n, key, x, BareVertex(isFile));
    }

    /** The insertion into the parent's table, which leaves every other table alone. */
    method Store(parent: Node, name: array<Char>, x: Node, ghost key: Hash32)
      requires NodesIn() && parent in tree && parent.children != null
      requires name !in home && Terminated(name[..], 0) && key == Hash(CString(name[..], 0))
      modifies home.Keys
      ensures parent.children.Valid() && tree[parent].Directory? && tree[parent].table != []
      ensures parent.children.View() == Inserted(tree[parent].table, key, x)
      ensures fresh(parent.children.owned - old(parent.children.owned))
      ensures forall n :: n in tree && n != parent ==> NodeIn(n)
      ensures TableHome(parent, old(parent.children.owned))
    {
      hide Hash, CString, Terminated, Inserted, StringHashMap.View;
      assert NodeIn(parent);
      TableNotEmpty(parent.children);
      parent.children.Insert(name, 0, x);
      forall n | n in tree && n != parent ensures NodeIn(n) {
        assert old(NodeIn(n));
        assert n.children != null ==> n.children.entries != parent.children.entries;
      }
    }

    /** The table of n is at home in n, as far as its entries go that are in `owned`. */
    ghost predicate TableHome(n: Node, owned: set<Entry<Node>>)
      reads `home
    {
      && n.children != null && !n.isFile && this !in home
      && n.children in home && n.children.entries in home && home[n.children] == home[n.children.entries] == n
      && forall e :: e in owned ==> e in home && home[e] == n
    }

    lemma TableNotEmpty(c: StringHashMap<Node>)
      requires c.Valid()
      ensures c.View() != []
    {}

    /** The new node and the parent's new entries are taken into account. */
    ghost method Adopt(parent: Node, x: Node, key: Hash32, owned: set<Entry<Node>>)
      requires parent in tree && parent in up && x !in tree && tree[parent].Directory? && tree[parent].table != []
      requires TableHome(parent, owned) && (forall e :: e in parent.children.owned - owned ==> e !in home)
      requires parent.children.Valid() && parent.children.View() == Inserted(tree[parent].table, key, x)
      requires forall n :: n in tree && n != parent ==> NodeIn(n)
      requires (x.isFile <==> x.children == null) && IsBare(x)
      modifies `tree, `up, `home
      ensures NodesIn() && up == UpAfter(old(up), parent, key, x)
      ensures tree == WithChild(old(tree), parent, key, x, BareVertex(x.isFile))
      ensures home == Rehomed(old(home), parent.children.owned, parent, x)
    {
      hide Inserted, WithChild, UpAfter, EmptyTable, Bare, StringHashMap.Valid, StringHashMap.View;
      WithChildAt(tree, parent, key, x, BareVertex(x.isFile));
      tree := WithChild(tree, parent, key, x, BareVertex(x.isFile));
      up := UpAfter(up, parent, key, x);
      home := Rehomed(home, parent.children.owned, parent, x);
      forall n | n in tree ensures NodeIn(n) {
        assert n in old(tree) && n != parent ==> old(NodeIn(n));
      }
    }

    /** A table, if x has one, that is empty and not at home anywhere yet. */
    ghost predicate IsBare(x: Node)
      reads `home, x.children
      reads if x.children == null then {} else {x.children.entries}
      reads if x.children == null then {} else x.children.owned
    {
      x.children != null ==>
        && x.children.Valid() && x.children.View() == EmptyTable() && x.children.owned == {}
        && x.children !in home && x.children.entries !in home
    }

    method Link(parent: Node, name: array<Char>, x: Node, ghost key: Hash32)
      requires NodesIn() && parent in tree && parent.children != null && x !in tree && parent in up
      requires name !in home && Terminated(name[..], 0) && key == Hash(CString(name[..], 0))
      requires x !in home && (x.isFile <==> x.children == null) && IsBare(x)
      modifies `tree, `up, `home, home.Keys
      ensures NodesIn() && up == UpAfter(old(up), parent, key, x)
      ensures fresh(home.Keys - old(home.Keys) - (if x.children == null then {} else {x.children, x.children.entries}))
      ensures tree == WithChild(old(tree), parent, key, x, BareVertex(x.isFile))
    {
      hide Hash, CString, Terminated, Inserted, WithChild, UpAfter, EmptyTable, Bare, StringHashMap.Valid;
      hide StringHashMap.View, NodeIn;
      ghost var owned := parent.children.owned;
      Store(parent, name, x, key);
      Adopt(parent, x, key, owned);
    }

    lemma MountedOk(node: Node, table: StringHashMap<Node>)
      requires root == node && node.children == table && !node.isFile
      requires tree == map[node := Directory(EmptyTable())] && up == map[node := Up(node, 0, 0)]
      requires home == map[table := node, table.entries := node]
      requires table.Valid() && table.View() == EmptyTable() && table.owned == {}
      ensures Valid()
    {
      hide StringHashMap.Valid, StringHashMap.View, TreeOk;
      RootOk(node);
    }

    /** `mount` of a new root; what was mounted before is forgotten. */
    method Mount()
      requires Valid()
      modifies this
      ensures Valid() && root != null && fresh(root) && fresh(home.Keys) && nextInode == old(nextInode) + 1
      ensures tree == map[root := Directory(EmptyTable())]
    {
      hide Valid, StringHashMap.Valid, StringHashMap.View;
      var name := Strdup([SLASH]);
      var table := new StringHashMap<Node>(256);
      var node := new Node(name, false, null, table, nextInode);
      root := node;
      nextInode := nextInode + 1;
      tree := map[node := Directory(EmptyTable())];
      up := map[node := Up(node, 0, 0)];
      home := map[table := node, table.entries := node];
      MountedOk(node, table);
    }

    /** `create`. Following a null table is a fault, which happens exactly where `get_node` would have it happen; else
        the missing part of the path is added, and nothing else. */
    method Create(path: Path, isFile: bool) returns (node: Node?, fault: bool)
      requires Valid()
      modifies `nextInode, `tree, `up, `home, home.Keys
      ensures Valid() && fresh(home.Keys - old(home.Keys))
      ensures root == null ==> node == null && !fault && tree == old(tree)
      ensures root != null ==> (fault <==> Walk(old(tree), root, Keys(path)) == Fault)
      ensures root != null && !fault ==> node != null && Created(old(tree), tree, root, Keys(path), isFile, node)
      ensures fault ==> node == null && tree == old(tree)
    {
      if root == null {
        return null, false;
      }
      hide TreeOk, Created, Child, Hash, NodesIn, Holds, Keys, KeysFrom, Walk, Valid;
      ghost var t, u, top: Node := tree, up, root;
      TreeHere();
      var sub := Strdup(path);
      node, fault := Descend(root, sub, path, isFile);
      if !fault { CreatedMeansNoFault(t, u, tree, top, Keys(path), isFile, node); }
    }

    /** The loop of `create` over a copy of the path. */
    method Descend(top: Node, sub: array<Char>, ghost path: Path, isFile: bool) returns (node: Node?, fault: bool)
      requires Valid() && root == top && sub !in home && Holds(sub[..], path, 0)
      modifies sub, `nextInode, `tree, `up, `home, home.Keys
      ensures Valid() && fresh(home.Keys - old(home.Keys))
      ensures if fault then node == null && tree == old(tree) && Walk(tree, top, Keys(path)) == Fault
              else node != null && Created(old(tree), tree, top, Keys(path), isFile, node)
    {
      hide TreeOk, Created, Child, Hash, NodesIn, Holds, Keys, KeysFrom, Walk, Valid;
      StartKeys(path);
      ghost var t, done: seq<Hash32> := tree, [];
      TreeHere();
      CreatedNothing(t, up, top, isFile && path == []);
      var parent, cur := top, 0;
      HoldsAt(sub[..], path, 0);
      while sub[cur] != 0
        invariant cur < sub.Length && Holds(sub[..], path, cur) && (sub[cur] == 0 <==> cur == |path|)
        invariant root == top && Valid() && fresh(home.Keys - old(home.Keys)) && sub !in home
        invariant done + KeysFrom(path, cur) == Keys(path)
        invariant t.Keys <= tree.Keys && parent in tree && Created(t, tree, top, done, isFile && sub[cur] == 0, parent)
        decreases |path| - cur
      {
        var next, to, failed, key := Turn(parent, sub, cur, path, isFile, t, top, done);
        if failed {
          return null, true;
        }
        cur := to;
        parent := next;
        done := done + [key];
      }
      HoldsAt(sub[..], path, cur);
      LastKey(path, done);
      node, fault := parent, false;
    }

    /** One turn of the loop of `create`: a name is split off, looked up, and added if it is missing. */
    method Turn(parent: Node, sub: array<Char>, cur: nat, ghost path: Path, isFile: bool, ghost t: Tree<Node>,
                ghost top: Node, ghost done: seq<Hash32>)
        returns (next: Node, to: nat, failed: bool, ghost key: Hash32)
      requires Valid() && root == top && sub !in home && Holds(sub[..], path, cur) && cur < |path|
      requires done + KeysFrom(path, cur) == Keys(path)
      requires t.Keys <= tree.Keys && parent in tree && Created(t, tree, top, done, false, parent)
      modifies sub, `nextInode, `tree, `up, `home, home.Keys
      ensures Valid() && fresh(home.Keys - old(home.Keys)) && sub !in home
      ensures failed ==> tree == old(tree) == t && Walk(t, top, Keys(path)) == Fault
      ensures !failed ==> cur < to < sub.Length && Holds(sub[..], path, to) && (sub[to] == 0 <==> to == |path|)
                          && done + [key] + KeysFrom(path, to) == Keys(path)
                          && t.Keys <= tree.Keys && next in tree
                          && Created(t, tree, top, done + [key], isFile && sub[to] == 0, next)
      ensures !failed && next !in old(tree) ==>
                Terminated(next.name[..], 0) && CString(next.name[..], 0) == path[cur..NameEnd(path, cur)]
    {
      hide TreeOk, Created, Child, Hash, CString, Terminated, NodesIn, Holds, Keys, KeysFrom, NextStart, NameEnd, Walk;
      to := NextName(sub, cur, path);
      HoldsAt(sub[..], path, to);
      key := Hash(CString(sub[..], cur));
      NextKey(path, cur, done, key);
      next, failed := CreateAt(parent, sub, cur, isFile && sub[to] == 0, key, t, top, done);
      if failed {
        CreatedFault(t, tree, top, done, parent, [key] + KeysFrom(path, to));
      }
    }

    lemma TreeHere()
      requires Valid() && root != null
      ensures NodesIn() && TreeOk(tree, up, root) && root in tree && this !in home
    {}

    /** A name looked up, and added if it is missing. */
    method CreateAt(parent: Node, sub: array<Char>, at: nat, isFile: bool, ghost key: Hash32,
                    ghost t: Tree<Node>, ghost top: Node, ghost done: seq<Hash32>) returns (next: Node, failed: bool)
      requires Valid() && root == top && parent in tree && t.Keys <= tree.Keys
               && Created(t, tree, top, done, false, parent)
      requires sub !in home && Terminated(sub[..], at) && key == Hash(CString(sub[..], at))
      modifies `nextInode, `tree, `up, `home, home.Keys
      ensures Valid() && sub !in home && fresh(home.Keys - old(home.Keys))
      ensures failed ==> tree == old(tree) && tree[parent].File?
      ensures !failed ==> t.Keys <= tree.Keys && next in tree && Created(t, tree, top, done + [key], isFile, next)
      ensures !failed && next !in old(tree) ==>
                Terminated(next.name[..], 0) && CString(next.name[..], 0) == CString(sub[..], at)
    {
      hide TreeOk, Created, Child, Hash, CString, Terminated, NodesIn, Adds;
      TreeHere();
      var found := FindChild(parent, sub, at, key);
      if found.None? {
        if parent.children == null {
          nextInode := nextInode + 1;
          return parent, true;
        }
        ghost var t1, u1 := tree, up;
        next := AddChild(parent, sub, at, isFile, key, top);
        AddedGoesOn(t, t1, u1, top, done, parent, key, next, isFile, tree, up);
      } else {
        CreatedThere(t, tree, up, top, done, parent, key, isFile);
        ChildInTree(tree, up, top, parent, key);
        next := found.value;
      }
      failed := false;
    }

    /** The lookup that `create` makes: nothing is found below a file. */
    method FindChild(parent: Node, sub: array<Char>, at: nat, ghost key: Hash32) returns (found: Option<Node>)
      requires NodesIn() && parent in tree && Terminated(sub[..], at) && key == Hash(CString(sub[..], at))
      ensures found == Child(tree, parent, key) && (parent.children == null <==> tree[parent].File?)
    {
      hide Terminated, Hash, CString;
      assert NodeIn(parent);
      if parent.children == null {
        return None;
      }
      found := parent.children.Get(sub, at);
    }

    /** `get_node`. */
    method GetNode(path: Path) returns (node: Node?, fault: bool)
      requires Valid()
      ensures root == null ==> node == null && !fault
      ensures root != null ==> match Walk(tree, root, AbsoluteKeys(path))
                               case Found(n) => node == n && !fault
                               case Missing => node == null && !fault
                               case Fault => node == null && fault
    {
      if root == null {
        return null, false;
      }
      hide TreeOk, Child, Hash, NodesIn, Holds, AbsoluteKeys, KeysFrom, Walk, Valid;
      TreeHere();
      var sub := Strdup(path);
      var cur := SkipSlashes(sub, path);
      StartAbsoluteKeys(path);
      var top: Node, parent: Node := root, root;
      ghost var done: seq<Hash32> := [];
      WalkNothing(tree, top);
      while sub[cur] != 0
        invariant cur < sub.Length && Holds(sub[..], path, cur) && (sub[cur] == 0 <==> cur == |path|)
        invariant root == top && Valid() && sub !in home && done + KeysFrom(path, cur) == AbsoluteKeys(path)
        invariant parent in tree && Walk(tree, top, done) == Found(parent)
        decreases |path| - cur
      {
        var next, to, failed, key := Down(parent, sub, cur, path, top, done);
        if next.None? {
          return null, failed;
        }
        cur := to;
        parent := next.value;
        done := done + [key];
      }
      HoldsAt(sub[..], path, cur);
      LastKey(path, done);
      node, fault := parent, false;
    }

    method SkipSlashes(sub: array<Char>, ghost path: Path) returns (cur: nat)
      requires Holds(sub[..], path, 0)
      ensures cur == SlashEnd(path, 0) && Holds(sub[..], path, cur) && cur < sub.Length
              && (sub[cur] == 0 <==> cur == |path|)
    {
      cur := 0;
      while sub[cur] == SLASH
        invariant cur <= |path| && SlashEnd(path, 0) == SlashEnd(path, cur)
        decreases |path| - cur
      {
        cur := cur + 1;
      }
    }

    /** One turn of the loop of `get_node`: a name is split off and looked up. */
    method Down(parent: Node, sub: array<Char>, cur: nat, ghost path: Path, ghost top: Node, ghost done: seq<Hash32>)
      returns (next: Option<Node>, to: nat, failed: bool, ghost key: Hash32)
      requires Valid() && root == top && sub !in home && Holds(sub[..], path, cur) && cur < |path|
      requires done + KeysFrom(path, cur) == AbsoluteKeys(path)
      requires parent in tree && Walk(tree, top, done) == Found(parent)
      modifies sub
      ensures next.None? ==> Walk(tree, top, AbsoluteKeys(path)) == if failed then Fault else Missing
      ensures next.Some? ==> cur < to < sub.Length && Holds(sub[..], path, to) && (sub[to] == 0 <==> to == |path|)
                               && done + [key] + KeysFrom(path, to) == AbsoluteKeys(path)
                               && next.value in tree && Walk(tree, top, done + [key]) == Found(next.value)
    {
      hide TreeOk, Child, Hash, CString, Terminated, NodesIn, Holds, AbsoluteKeys, KeysFrom, NextStart, NameEnd, Walk;
      TreeHere();
      to := NextName(sub, cur, path);
      HoldsAt(sub[..], path, to);
      key := Hash(CString(sub[..], cur));
      NextKey(path, cur, done, key);
      var found := FindChild(parent, sub, cur, key);
      failed := parent.children == null;
      WalkDown(tree, top, done, key, KeysFrom(path, to));
      if found.None? {
        return None, to, failed, key;
      }
      ChildInTree(tree, up, root, parent, key);
      next := found;
    }
  }

  lemma StartAbsoluteKeys(path: Path)
    ensures [] + KeysFrom(path, SlashEnd(path, 0)) == AbsoluteKeys(path)
  {}

  lemma WalkNothing(t: Tree<Node>, n: Node)
    ensures Walk(t, n, []) == Found(n)
  {}

  /** A walk that has come to a node, one step further, and to its end if there is no such step. */
  lemma WalkDown(t: Tree<Node>, top: Node, d: seq<Hash32>, key: Hash32, rest: seq<Hash32>)
    requires Walk(t, top, d).Found? && Walk(t, top, d).node in t
    ensures var n := Walk(t, top, d).node;
            if t[n].File? then Walk(t, top, d + ([key] + rest)) == Fault && Child(t, n, key).None?
            else if Child(t, n, key).None? then Walk(t, top, d + ([key] + rest)) == Missing
            else Walk(t, top, d + [key]) == Found(Child(t, n, key).value)
  {
    hide Child;
    WalkSplit(t, top, d, [key] + rest);
    WalkSplit(t, top, d, [key]);
    assert [key][1..] == [];
    if t[Walk(t, top, d).node].File? { NoChildBelowFile(t, Walk(t, top, d).node, key); }
  }

  lemma NoChildBelowFile(t: Tree<Node>, n: Node, key: Hash32)
    requires n in t && t[n].File?
    ensures Child(t, n, key).None?
  {}

  /** The keys of a path, one name further. */
  lemma NextKey(path: Path, i: nat, done: seq<Hash32>, key: Hash32)
    requires i < |path| && key == Hash(path[i..NameEnd(path, i)])
    ensures done + KeysFrom(path, i) == done + ([key] + KeysFrom(path, NextStart(path, i)))
    ensures done + KeysFrom(path, i) == done + [key] + KeysFrom(path, NextStart(path, i))
  {}

  lemma StartKeys(path: Path)
    ensures [] + KeysFrom(path, 0) == Keys(path)
  {}

  lemma LastKey(path: Path, done: seq<Hash32>)
    ensures done + KeysFrom(path, |path|) == done
  {}

  lemma AddedGoesOn(t0: Tree<Node>, t: Tree<Node>, up: map<Node, Up<Node>>, top: Node, d: seq<Hash32>, c: Node,
                    key: Hash32, x: Node, file: bool, t1: Tree<Node>, up1: map<Node, Up<Node>>)
    requires Adds(t, up, top, c, key, x, BareVertex(file), t1, up1) && t0.Keys <= t.Keys
             && Created(t0, t, top, d, false, c)
    ensures Created(t0, t1, top, d + [key], file, x) && t.Keys <= t1.Keys && x in t1
  {
    CreatedNew(t0, t, up, top, d, c, key, x, BareVertex(file), file);
  }

  lemma HoldsAt(s: seq<Char>, path: Path, at: nat)
    requires Holds(s, path, at)
    ensures at <= |path| && |s| == |path| + 1 && (s[at] == 0 <==> at == |path|)
  {}
}
