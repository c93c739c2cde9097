/** `StringHashMap`: chains of entries that are told apart by the hash of their key alone. */
module HashMaps {
  import opened NextFit
  import opened Words

  // ---- Keys

  type Char = n: nat | n < 256

  type Hash32 = n: nat | n < 0x1_0000_0000

  /** A `char` in 32 bits: signed, so that one above 127 is extended with ones. */
  function Extended32(c: Char): Hash32
  {
    if c < 128 then c else 0xffff_ff00 + c
  }

  /** One turn of the loop of `hash_key`. */
  function Mix(h: Hash32, c: Char): Hash32
  {
    var h33: Hash32 := (h * 32 % 0x1_0000_0000 + h) % 0x1_0000_0000;
    XorIsHash(h33, Extended32(c));
    Xor(h33, Extended32(c))
  }

  lemma XorIsHash(a: Hash32, b: Hash32)
    ensures Xor(a, b) < 0x1_0000_0000
  {
    Powers();
    XorBound(a, b, 32);
  }

  function HashFrom(h: Hash32, key: seq<Char>): Hash32
    decreases |key|
  {
    if key == [] then h else HashFrom(Mix(h, key[0]), key[1..])
  }

  function Hash(key: seq<Char>): Hash32
  {
    HashFrom(5381, key)
  }

  lemma {:induction false} HashFromSplit(h: Hash32, p: seq<Char>, q: seq<Char>)
    ensures HashFrom(h, p + q) == HashFrom(HashFrom(h, p), q)
    decreases |p|
  {
    if p == [] {
      assert p + q == q;
    } else {
      assert (p + q)[0] == p[0] && (p + q)[1..] == p[1..] + q;
      HashFromSplit(Mix(h, p[0]), p[1..], q);
    }
  }

  /** What the hash is, bit by bit: that of the empty key is 5381, and one more character multiplies it by 33, modulo
      2^32, and flips the bits that the sign-extended character has. */
  lemma HashBits(key: seq<Char>, c: Char, k: nat)
    ensures Hash([]) == 5381
    ensures Bit(Hash(key + [c]), k) ==
            if Bit(33 * Hash(key) % 0x1_0000_0000, k) == Bit(Extended32(c), k) then 0 else 1
  {
    hide Xor, Bit;
    HashFromSplit(5381, key, [c]);
    assert [c][1..] == [];
    var h: nat := Hash(key);
    TimesIs33(h);
    XorBits(33 * h % 0x1_0000_0000, Extended32(c), k);
    assert Hash(key + [c]) == Mix(h, c);
  }

  lemma TimesIs33(h: Hash32)
    ensures (h * 32 % 0x1_0000_0000 + h) % 0x1_0000_0000 == 33 * h % 0x1_0000_0000
  {}

  /** Multiplying by 33 loses nothing in 32 bits: 33 has an inverse there. */
  lemma TimesTellsApart(h: Hash32, g: Hash32)
    requires 33 * h % 0x1_0000_0000 == 33 * g % 0x1_0000_0000
    ensures h == g
  {
    var x: int, y: int := h, g;
    var m := 33 * x / 0x1_0000_0000 - 33 * y / 0x1_0000_0000;
    assert 33 * (x - y) == 0x1_0000_0000 * m;
    assert 1041204193 * 33 == 8 * 0x1_0000_0000 + 1;
    assert x - y == 0x1_0000_0000 * (1041204193 * m - 8 * (x - y));
  }

  lemma MixTellsApart(h: Hash32, g: Hash32, c: Char, d: Char)
    ensures c != d ==> Mix(h, c) != Mix(h, d)
    ensures h != g ==> Mix(h, c) != Mix(g, c)
  {
    hide Xor;
    TimesIs33(h);
    TimesIs33(g);
    var x, y := 33 * h % 0x1_0000_0000, 33 * g % 0x1_0000_0000;
    if c != d { XorTellsApart(x, Extended32(c), Extended32(d)); }
    if h != g {
      if x == y { TimesTellsApart(h, g); }
      XorTellsApart(Extended32(c), x, y);
    }
  }

  lemma {:induction false} HashFromTellsApart(h: Hash32, g: Hash32, q: seq<Char>)
    requires h != g
    ensures HashFrom(h, q) != HashFrom(g, q)
    decreases |q|
  {
    if q != [] {
      MixTellsApart(h, g, q[0], q[0]);
      HashFromTellsApart(Mix(h, q[0]), Mix(g, q[0]), q[1..]);
    }
  }

  /** Keys that differ in one character, wherever it stands, have different hashes. */
  lemma OneCharacterTells(p: seq<Char>, c: Char, d: Char, q: seq<Char>)
    requires c != d
    ensures Hash(p + [c] + q) != Hash(p + [d] + q)
  {
    hide Mix;
    HashFromSplit(5381, p + [c], q);
    HashFromSplit(5381, p + [d], q);
    HashFromSplit(5381, p, [c]);
    HashFromSplit(5381, p, [d]);
    assert [c][1..] == [] && [d][1..] == [];
    MixTellsApart(Hash(p), Hash(p), c, d);
    HashFromTellsApart(Hash(p + [c]), Hash(p + [d]), q);
  }

  /** A zero byte at `at` or after. */
  ghost predicate Terminated(s: seq<Char>, at: nat)
  {
    exists k :: at <= k < |s| && s[k] == 0
  }

  /** The C string at `at`. */
  ghost function CString(s: seq<Char>, at: nat): seq<Char>
    requires Terminated(s, at)
    decreases |s| - at
  {
    if s[at] == 0 then [] else [s[at]] + CString(s, at + 1)
  }

  method HashKey(buf: array<Char>, at: nat) returns (hash: Hash32)
    requires Terminated(buf[..], at)
    ensures hash == Hash(CString(buf[..], at))
  {
    var key := at;
    hash := 5381;
    while buf[key] != 0
      invariant at <= key && Terminated(buf[..], key)
      invariant HashFrom(hash, CString(buf[..], key)) == Hash(CString(buf[..], at))
      decreases buf.Length - key
    {
      assert CString(buf[..], key)[1..] == CString(buf[..], key + 1);
      hash := Mix(hash, buf[key]);
      key := key + 1;
    }
  }

  // ---- The table as a value

  datatype Slot<V> = Slot(hash: Hash32, value: V)

  type Table<V> = seq<seq<Slot<V>>>

  function Index(h: Hash32, capacity: nat): (i: nat)
    requires capacity > 0
    ensures i < capacity
  {
    h % capacity
  }

  /** Hashes closer to each other than the table is long are not in one chain. */
  lemma NeighboursApart(a: Hash32, b: Hash32, capacity: nat)
    requires 0 < b - a < capacity
    ensures Index(a, capacity) != Index(b, capacity)
  {
    var x, y := a / capacity, b / capacity;
    if Index(a, capacity) == Index(b, capacity) {
      assert b - a == capacity * y - capacity * x;
      if x < y { MultiplesApart(capacity, x, y); }
      if y < x { MultiplesApart(capacity, y, x); }
    }
  }

  ghost predicate TableOk<V>(t: Table<V>)
  {
    t != [] && forall i :: 0 <= i < |t| ==> InPlace(t, i)
  }

  ghost predicate InPlace<V>(t: Table<V>, i: nat)
    requires i < |t|
  {
    forall s :: s in t[i] ==> Index(s.hash, |t|) == i
  }

  /** `get` in one chain: the first entry with the hash. */
  function FindIn<V>(chain: seq<Slot<V>>, h: Hash32): Option<V>
  {
    if chain == [] then None else if chain[0].hash == h then Some(chain[0].value) else FindIn(chain[1..], h)
  }

  function Lookup<V>(t: Table<V>, h: Hash32): Option<V>
    requires t != []
  {
    FindIn(t[Index(h, |t|)], h)
  }

  predicate HasBeforeLast<V(==)>(chain: seq<Slot<V>>, h: Hash32)
  {
    exists k :: 0 <= k < |chain| - 1 && chain[k].hash == h
  }

  /** `insert` in one chain: the loop stops at the last entry without looking at its hash. */
  function Appended<V(==)>(chain: seq<Slot<V>>, h: Hash32, v: V): seq<Slot<V>>
  {
    if HasBeforeLast(chain, h) then chain else chain + [Slot(h, v)]
  }

  function Inserted<V(==)>(t: Table<V>, h: Hash32, v: V): Table<V>
    requires t != []
  {
    t[Index(h, |t|) := Appended(t[Index(h, |t|)], h, v)]
  }

  lemma {:induction false} FindInAppend<V>(c: seq<Slot<V>>, s: Slot<V>, h: Hash32)
    ensures FindIn(c + [s], h) ==
            if FindIn(c, h).Some? then FindIn(c, h) else if s.hash == h then Some(s.value) else None
  {
    if c != [] {
      assert (c + [s])[1..] == c[1..] + [s];
      FindInAppend(c[1..], s, h);
    }
  }

  lemma {:induction false} FoundIff<V>(c: seq<Slot<V>>, h: Hash32)
    ensures FindIn(c, h).Some? <==> exists k :: 0 <= k < |c| && c[k].hash == h
  {
    if c != [] && c[0].hash != h {
      FoundIff(c[1..], h);
      forall k | 0 <= k < |c| && c[k].hash == h ensures exists j :: 0 <= j < |c[1..]| && c[1..][j].hash == h {
        assert c[1..][k - 1].hash == h;
      }
    }
  }

  /** Seen through `get`, `insert` is put-if-absent on the hash, although a key that is last in its chain is appended
      a second time. */
  lemma InsertIsPutIfAbsent<V>(t: Table<V>, h: Hash32, v: V, other: Hash32)
    requires TableOk(t)
    ensures TableOk(Inserted(t, h, v)) && |Inserted(t, h, v)| == |t|
    ensures Lookup(Inserted(t, h, v), other) ==
            if other == h && Lookup(t, h).None? then Some(v) else Lookup(t, other)
  {
    var n, i := Inserted(t, h, v), Index(h, |t|);
    forall j: nat | j < |n| ensures InPlace(n, j) { var was := InPlace(t, j); }
    FoundIff(t[i], h);
    FindInAppend(t[i], Slot(h, v), other);
  }

  /** The duplicate is there all the same: insert the same key into an empty chain twice. */
  lemma InsertCanDuplicate<V>(t: Table<V>, h: Hash32, v: V, w: V)
    requires TableOk(t) && t[Index(h, |t|)] == []
    ensures Inserted(Inserted(t, h, v), h, w)[Index(h, |t|)] == [Slot(h, v), Slot(h, w)]
  {}

  // ---- Listing

  function Named<V>(c: seq<Slot<V>>): seq<Slot<V>>
  {
    if c == [] then [] else Named(c[..|c| - 1]) + (if c[|c| - 1].hash != 0 then [c[|c| - 1]] else [])
  }

  /** The entries with a hash that is not 0 in the first i chains, in order. */
  function ListedTo<V>(t: Table<V>, i: nat): seq<Slot<V>>
    requires i <= |t|
  {
    if i == 0 then [] else ListedTo(t, i - 1) + Named(t[i - 1])
  }

  function Listed<V>(t: Table<V>): seq<Slot<V>>
  {
    ListedTo(t, |t|)
  }

  ghost predicate Unique<V>(c: seq<Slot<V>>)
  {
    forall j, k :: 0 <= j < k < |c| ==> c[j].hash != c[k].hash
  }

  ghost predicate NoDuplicates<V>(t: Table<V>)
  {
    forall i :: 0 <= i < |t| ==> Unique(t[i])
  }

  /** Inserting only what a `get` did not find, as `Vfs::create` does, keeps hashes unique. */
  lemma InsertAfterFailedGet<V>(t: Table<V>, h: Hash32, v: V)
    requires TableOk(t) && NoDuplicates(t) && Lookup(t, h).None?
    ensures NoDuplicates(Inserted(t, h, v))
  {
    FoundIff(t[Index(h, |t|)], h);
    forall i | 0 <= i < |t| ensures Unique(Inserted(t, h, v)[i]) { var was := Unique(t[i]); }
  }

  /** What an insert does to a table without duplicates: it leaves one behind if and only if the key is the last of its
      chain, the entry whose hash the loop does not look at. */
  lemma DuplicatesExactly<V>(t: Table<V>, h: Hash32, v: V)
    requires TableOk(t) && NoDuplicates(t)
    ensures var c := t[Index(h, |t|)];
            NoDuplicates(Inserted(t, h, v)) <==> c == [] || c[|c| - 1].hash != h
  {
    var i := Index(h, |t|);
    var c, n := t[i], Inserted(t, h, v);
    assert Unique(c);
    if c != [] && c[|c| - 1].hash == h {
      assert n[i] == c + [Slot(h, v)];
      assert n[i][|c| - 1].hash == n[i][|c|].hash;
      assert !Unique(n[i]);
    } else {
      forall j | 0 <= j < |n| ensures Unique(n[j]) { var was := Unique(t[j]); }
    }
  }

  lemma {:induction false} NamedHas<V>(c: seq<Slot<V>>, s: Slot<V>)
    ensures s in Named(c) <==> s in c && s.hash != 0
  {
    if c != [] {
      NamedHas(c[..|c| - 1], s);
      assert c == c[..|c| - 1] + [c[|c| - 1]];
    }
  }

  lemma {:induction false} NamedUnique<V>(c: seq<Slot<V>>)
    requires Unique(c)
    ensures Unique(Named(c))
  {
    if c != [] {
      var m := |c| - 1;
      NamedUnique(c[..m]);
      forall j | 0 <= j < |Named(c[..m])| ensures Named(c[..m])[j].hash != c[m].hash {
        NamedHas(c[..m], Named(c[..m])[j]);
      }
    }
  }

  lemma {:induction false} ListedHas<V>(t: Table<V>, i: nat, s: Slot<V>)
    requires TableOk(t) && i <= |t|
    ensures s in ListedTo(t, i) <==> Index(s.hash, |t|) < i && s in t[Index(s.hash, |t|)] && s.hash != 0
  {
    if i > 0 {
      ListedHas(t, i - 1, s);
      NamedHas(t[i - 1], s);
      var there := InPlace(t, i - 1);
    }
  }

  lemma {:induction false} ListedUnique<V>(t: Table<V>, i: nat)
    requires TableOk(t) && NoDuplicates(t) && i <= |t|
    ensures Unique(ListedTo(t, i))
  {
    if i > 0 {
      ListedUnique(t, i - 1);
      NamedUnique(t[i - 1]);
      forall a, b | a in ListedTo(t, i - 1) && b in Named(t[i - 1]) ensures a.hash != b.hash {
        ListedHas(t, i - 1, a);
        NamedHas(t[i - 1], b);
        var there := InPlace(t, i - 1);
      }
    }
  }

  lemma {:induction false} FindInUnique<V>(c: seq<Slot<V>>, s: Slot<V>)
    requires Unique(c)
    ensures s in c <==> FindIn(c, s.hash) == Some(s.value)
  {
    if c != [] {
      FindInUnique(c[1..], s);
      FoundIff(c[1..], s.hash);
      assert c == [c[0]] + c[1..];
      forall k | 0 <= k < |c[1..]| ensures c[1..][k].hash != c[0].hash { assert c[1..][k] == c[k + 1]; }
    }
  }

  /** With unique hashes the listing has each key whose hash is not 0 exactly once, with the value that `get` finds. */
  lemma ListsEachOnce<V>(t: Table<V>)
    requires TableOk(t) && NoDuplicates(t)
    ensures Unique(Listed(t))
    ensures forall s :: s in Listed(t) <==> s.hash != 0 && Lookup(t, s.hash) == Some(s.value)
  {
    ListedUnique(t, |t|);
    forall s ensures s in Listed(t) <==> s.hash != 0 && Lookup(t, s.hash) == Some(s.value) {
      ListedHas(t, |t|, s);
      FindInUnique(t[Index(s.hash, |t|)], s);
    }
  }

  lemma {:induction false} ListedPrefix<V>(t: Table<V>, i: nat, j: nat)
    requires i <= j <= |t|
    ensures ListedTo(t, i) <= ListedTo(t, j)
  {
    if i < j { ListedPrefix(t, i, j - 1); }
  }

  lemma {:induction false} NamedPrefix<V>(c: seq<Slot<V>>, k: nat)
    requires k <= |c|
    ensures Named(c[..k]) <= Named(c)
  {
    if k == |c| {
      assert c[..k] == c;
    } else {
      NamedPrefix(c[..|c| - 1], k);
      assert c[..|c| - 1][..k] == c[..k];
    }
  }

  /** What the walk of `get_nth` has passed when it stands at the k-th entry of chain i. */
  function Passed<V>(t: Table<V>, i: nat, k: nat): seq<Slot<V>>
    requires i < |t| && k <= |t[i]|
  {
    ListedTo(t, i) + Named(t[i][..k])
  }

  lemma NonePassed<V>(t: Table<V>)
    ensures ListedTo(t, 0) == []
  {}

  /** The next entry is passed, too, if it counts; the n-th that counts is the n-th listed. */
  lemma NextPassed<V>(t: Table<V>, i: nat, k: nat)
    requires i < |t| && k < |t[i]|
    ensures Passed(t, i, k + 1) == if t[i][k].hash != 0 then Passed(t, i, k) + [t[i][k]] else Passed(t, i, k)
    ensures Passed(t, i, k + 1) <= Listed(t)
  {
    assert t[i][..k + 1][..k] == t[i][..k];
    NamedPrefix(t[i], k + 1);
    ListedPrefix(t, i + 1, |t|);
    assert ListedTo(t, i + 1) == ListedTo(t, i) + Named(t[i]);
  }

  lemma ChainPassed<V>(t: Table<V>, i: nat)
    requires i < |t|
    ensures Passed(t, i, 0) == ListedTo(t, i) && Passed(t, i, |t[i]|) == ListedTo(t, i + 1)
  {
    assert t[i][..0] == [] && t[i][..|t[i]|] == t[i];
  }

  // ---- The linked chains

  class Entry<V> {
    const keyHash: Hash32
    const value: V
    var next: Entry?<V>

    constructor (keyHash: Hash32, value: V)
      ensures this.keyHash == keyHash && this.value == value && next == null
    {
      this.keyHash := keyHash;
      this.value := value;
      next := null;
    }
  }

  ghost function SlotsOf<V>(chain: seq<Entry<V>>): (c: seq<Slot<V>>)
    ensures |c| == |chain|
    ensures forall k :: 0 <= k < |chain| ==> c[k] == Slot(chain[k].keyHash, chain[k].value)
  {
    seq(|chain|, k requires 0 <= k < |chain| => Slot(chain[k].keyHash, chain[k].value))
  }

  ghost function TableOf<V>(chains: seq<seq<Entry<V>>>): (t: Table<V>)
    ensures |t| == |chains|
    ensures forall i :: 0 <= i < |chains| ==> t[i] == SlotsOf(chains[i])
  {
    seq(|chains|, i requires 0 <= i < |chains| => SlotsOf(chains[i]))
  }

  lemma TableGrows<V>(chains: seq<seq<Entry<V>>>, i: nat, e: Entry<V>)
    requires i < |chains|
    ensures TableOf(chains[i := chains[i] + [e]]) ==
              TableOf(chains)[i := SlotsOf(chains[i]) + [Slot(e.keyHash, e.value)]]
  {
    assert SlotsOf(chains[i] + [e]) == SlotsOf(chains[i]) + [Slot(e.keyHash, e.value)];
  }

  lemma AppendedSlot<V>(chain: seq<Entry<V>>, hash: Hash32, e: Entry<V>)
    requires !HasBeforeLast(SlotsOf(chain), hash) && e.keyHash == hash
    ensures Appended(SlotsOf(chain), hash, e.value) == SlotsOf(chain) + [Slot(e.keyHash, e.value)]
  {}

  /** head leads through the chain's entries, each once, to its end. */
  ghost predicate Chained<V>(head: Entry?<V>, chain: seq<Entry<V>>)
    reads chain
  {
    && head == (if chain == [] then null else chain[0])
    && (forall k :: 0 <= k < |chain| ==> NextIs(chain, k))
    && (forall j, k :: 0 <= j < k < |chain| ==> chain[j] != chain[k])
  }

  ghost predicate NextIs<V>(chain: seq<Entry<V>>, k: nat)
    requires k < |chain|
    reads chain[k]
  {
    chain[k].next == if k + 1 < |chain| then chain[k + 1] else null
  }

  class StringHashMap<V(==)> {
    const entries: array<Entry?<V>>
    ghost var chains: seq<seq<Entry<V>>>
    ghost var owned: set<Entry<V>>

    ghost predicate Valid()
      reads this, entries, owned
    {
      && entries.Length == |chains| > 0
      && (forall i, k :: 0 <= i < |chains| && 0 <= k < |chains[i]| ==>
            chains[i][k] in owned && Index(chains[i][k].keyHash, |chains|) == i)
      && (forall i :: 0 <= i < |chains| ==> Chained(entries[i], chains[i]))
    }

    ghost function View(): (t: Table<V>)
      reads this
      ensures |t| == |chains|
    {
      TableOf(chains)
    }

    /** The bucket array is taken to start out null. */
    constructor (capacity: nat)
      requires capacity > 0
      ensures Valid() && View() == seq(capacity, _ => []) && fresh(entries) && owned == {}
    {
      entries := new Entry?<V>[capacity](_ => null);
      chains := seq(capacity, _ => []);
      owned := {};
      new;
      assert View() == seq(capacity, _ => []);
    }

    /** What ListsEachOnce and InsertIsPutIfAbsent ask of a table holds of this one. */
    lemma ViewOk()
      requires Valid()
      ensures TableOk(View())
    {
      forall i: nat | i < |View()| ensures InPlace(View(), i) {
        forall s | s in View()[i] ensures Index(s.hash, |View()|) == i {
          var k :| 0 <= k < |View()[i]| && View()[i][k] == s;
          assert chains[i][k] in owned;
        }
      }
    }

    /** While no key has been inserted twice, enumerating this table by its listing meets each key whose hash is not 0
        exactly once, with the value `get` finds. */
    lemma ListsAll()
      requires Valid() && NoDuplicates(View())
      ensures Unique(Listed(View()))
      ensures forall s :: s in Listed(View()) <==> s.hash != 0 && Lookup(View(), s.hash) == Some(s.value)
    {
      ViewOk();
      ListsEachOnce(View());
    }

    method Get(buf: array<Char>, key: nat) returns (found: Option<V>)
      requires Valid() && Terminated(buf[..], key)
      ensures found == Lookup(View(), Hash(CString(buf[..], key)))
    {
      var hash := HashKey(buf, key);
      var index := Index(hash, entries.Length);
      ghost var chain := chains[index];
      var entry := entries[index];
      if entry == null {
        return None;
      }
      ghost var k := 0;
      while entry != null
        invariant k <= |chain| && entry == (if k < |chain| then chain[k] else null)
        invariant FindIn(SlotsOf(chain), hash) == FindIn(SlotsOf(chain)[k..], hash)
        decreases |chain| - k
      {
        if entry.keyHash == hash {
          return Some(entry.value);
        }
        assert NextIs(chain, k);
        entry := entry.next;
        k := k + 1;
      }
      return None;
    }

    method Insert(buf: array<Char>, key: nat, value: V)
      requires Valid() && Terminated(buf[..], key)
      modifies this, entries, owned
      ensures Valid() && View() == Inserted(old(View()), Hash(CString(buf[..], key)), value)
      ensures fresh(owned - old(owned)) && old(owned) <= owned
    {
      hide Hash, CString, Terminated, Index, Chained;
      var hash := HashKey(buf, key);
      var index := Index(hash, entries.Length);
      ghost var chain := chains[index];
      var entry := entries[index];
      var newEntry := new Entry(hash, value);
      var last, present := Last(entry, hash, index);
      if present {
        return;
      }
      AppendedSlot(chain, hash, newEntry);
      TableGrows(chains, index, newEntry);
      Append(index, last, newEntry);
    }

    /** The walk of `insert` to the last entry of a chain, none if the chain is empty. */
    method Last(head: Entry?<V>, hash: Hash32, ghost index: nat) returns (last: Entry?<V>, present: bool)
      requires Valid() && index < |chains| && head == entries[index]
      ensures present <==> HasBeforeLast(SlotsOf(chains[index]), hash)
      ensures !present ==> last == if chains[index] == [] then null else chains[index][|chains[index]| - 1]
    {
      ghost var chain, k := chains[index], 0;
      var entry := head;
      if entry == null {
        return null, false;
      }
      while entry.next != null
        invariant k < |chain| && entry == chain[k]
        invariant forall j :: 0 <= j < k ==> SlotsOf(chain)[j].hash != hash
        decreases |chain| - k
      {
        assert NextIs(chain, k);
        if entry.keyHash == hash {
          assert SlotsOf(chain)[k].hash == hash;
          return entry, true;
        }
        entry := entry.next;
        k := k + 1;
      }
      assert NextIs(chain, k);
      return entry, false;
    }

    /** The store that links a new entry in. */
    method Append(index: nat, last: Entry?<V>, newEntry: Entry<V>)
      requires Valid() && index < |chains| && newEntry !in owned && newEntry.next == null
      requires Index(newEntry.keyHash, |chains|) == index
      requires last == if chains[index] == [] then null else chains[index][|chains[index]| - 1]
      modifies this, entries, owned
      ensures Valid() && owned == old(owned) + {newEntry}
      ensures chains == old(chains)[index := old(chains)[index] + [newEntry]]
    {
      hide Index;
      ghost var was := chains;
      if last == null {
        entries[index] := newEntry;
      } else {
        assert NextIs(chains[index], |chains[index]| - 1);
        last.next := newEntry;
      }
      owned := owned + {newEntry};
      chains := chains[index := chains[index] + [newEntry]];
      forall i | 0 <= i < |chains| ensures Chained(entries[i], chains[i]) {
        assert old(Chained(entries[i], was[i]));
        forall k: nat | k < |chains[i]| ensures NextIs(chains[i], k) {
          if k < |was[i]| { assert old(NextIs(was[i], k)) && was[i][k] in old(owned); }
        }
      }
    }

    /** `get_nth`: the n-th of the entries that Listed names. */
    method GetNth(n: nat) returns (found: Option<V>)
      requires Valid()
      ensures found == if n < |Listed(View())| then Some(Listed(View())[n].value) else None
    {
      hide Named, Index, Passed, ListedTo;
      ghost var t := View();
      NonePassed(t);
      var count, i := 0, 0;
      while i < entries.Length
        invariant i <= entries.Length && count == |ListedTo(t, i)| <= n
      {
        ghost var chain, k := chains[i], 0;
        var entry := entries[i];
        ChainPassed(t, i);
        while entry != null
          invariant k <= |chain| && entry == (if k < |chain| then chain[k] else null)
          invariant count == |Passed(t, i, k)| <= n
          decreases |chain| - k
        {
          NextPassed(t, i, k);
          assert NextIs(chain, k);
          if entry.keyHash != 0 {
            if count == n {
              return Some(entry.value);
            }
            count := count + 1;
          }
          entry := entry.next;
          k := k + 1;
        }
        i := i + 1;
      }
      return None;
    }
  }
}
