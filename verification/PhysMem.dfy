/** Physical memory: page frames of 512 64-bit words, shared by every layer above. */
module PhysMem {

  const PAGE_SIZE: nat := 4096
  const WORD_LIMIT: nat := 0x1_0000_0000_0000_0000

  type Word = w: nat | w < WORD_LIMIT

  type Frame = f: seq<Word> | |f| == 512 witness ZeroFrame()

  function ZeroFrame(): (f: seq<Word>)
    ensures |f| == 512 && forall i :: 0 <= i < 512 ==> f[i] == 0
  {
    seq(512, _ => 0)
  }

  type Mem = seq<Frame>

  /** Word i of page p; 0 outside memory, so that specifications are total. */
  function At(mem: Mem, p: nat, i: nat): Word
  {
    if p < |mem| && i < 512 then mem[p][i] else 0
  }

  function Put(mem: Mem, p: nat, i: nat, w: Word): (r: Mem)
    requires p < |mem| && i < 512
    ensures |r| == |mem|
    ensures forall q: nat, j: nat :: At(r, q, j) == if q == p && j == i then w else At(mem, q, j)
  {
    mem[p := mem[p][i := w]]
  }

  /** Pages s .. s+n overwritten with zeroes. */
  function Zeroed(mem: Mem, s: nat, n: nat): (r: Mem)
    ensures |r| == |mem|
    ensures forall q: nat, j: nat :: At(r, q, j) == if s <= q < s + n then 0 else At(mem, q, j)
  {
    var z: Frame := ZeroFrame();
    seq(|mem|, p requires 0 <= p < |mem| => if s <= p < s + n then z else mem[p])
  }

  /** Memories that read alike are equal. */
  lemma SameWords(a: Mem, b: Mem)
    requires |a| == |b| && forall p: nat, i: nat :: At(a, p, i) == At(b, p, i)
    ensures a == b
  {
    forall p | 0 <= p < |a| ensures a[p] == b[p] {
      forall i | 0 <= i < 512 ensures a[p][i] == b[p][i] { assert At(a, p, i) == At(b, p, i); }
    }
  }

  class Ram {
    var frames: Mem

    constructor (pages: nat)
      ensures |frames| == pages
    {
      var z: Frame := ZeroFrame();
      frames := seq(pages, _ => z);
    }

    method Load(p: nat, i: nat) returns (w: Word)
      requires p < |frames| && i < 512
      ensures w == At(frames, p, i)
    {
      w := frames[p][i];
    }

    method Store(p: nat, i: nat, w: Word)
      requires p < |frames| && i < 512
      modifies this
      ensures frames == Put(old(frames), p, i, w)
    {
      frames := Put(frames, p, i, w);
    }

    /** `memset(.., 0, n * PAGE_SIZE)` */
    method ClearPages(s: nat, n: nat)
      requires s + n <= |frames|
      modifies this
      ensures |frames| == |old(frames)|
      ensures forall q: nat, j: nat :: At(frames, q, j) == if s <= q < s + n then 0 else At(old(frames), q, j)
      ensures frames == Zeroed(old(frames), s, n)
    {
      ghost var was := frames;
      SameWords(frames, Zeroed(was, s, 0));
      for p := s to s + n
        invariant frames == Zeroed(was, s, p - s)
      {
        ClearPage(p);
        SameWords(frames, Zeroed(was, s, p + 1 - s));
      }
    }

    /** One page of it, word by word. */
    method ClearPage(p: nat)
      requires p < |frames|
      modifies this
      ensures |frames| == |old(frames)|
      ensures forall q: nat, j: nat :: At(frames, q, j) == if q == p then 0 else At(old(frames), q, j)
    {
      for i := 0 to 512
        invariant |frames| == |old(frames)|
        invariant forall q: nat, j: nat :: At(frames, q, j) == if q == p && j < i then 0 else At(old(frames), q, j)
      {
        Store(p, i, 0);
      }
    }
  }
}
