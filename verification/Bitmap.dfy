/** The page bitmap of the physical allocator: one bit a page, set means used. */
module Bitmaps {

  /** The byte `1 << k`, one place at a time (see MaskIsShift). */
  function Mask(k: nat): bv8
    requires k < 8
  {
    if k == 0 then 1 else Mask(k - 1) << 1
  }

  /** Bit k of one byte, counted from the least significant end. */
  predicate BitOf(b: bv8, k: nat)
    requires k < 8
  {
    b & Mask(k) != 0
  }

  /** The table agrees with the shifts the bitmap code is written with. */
  lemma MaskIsShift(k: nat)
    requires k < 8
    ensures Mask(k) == (1 as bv8) << k
  {
    assert Mask(3) == 8;
    assert Mask(6) == 64;
    match k { case 0 => case 1 => case 2 => case 3 => case 4 => case 5 => case 6 => case _ => }
  }

  lemma TestIsShift(b: bv8, k: nat)
    requires k < 8
    ensures BitOf(b, k) <==> (b >> k) & 1 == 1
  {
    assert Mask(6) == 64;
    assert Mask(7) == 128;
    match k { case 0 => case 1 => case 2 => case 3 => case 4 => case 5 => case 6 => case _ => }
  }

  lemma MasksDisjoint(k: nat, m: nat)
    requires k < 8 && m < 8
    ensures Mask(k) != 0 && (k != m ==> Mask(k) & Mask(m) == 0)
  {
    match k { case 0 => case 1 => case 2 => case 3 => case 4 => case 5 => case 6 => case _ => }
    match m { case 0 => case 1 => case 2 => case 3 => case 4 => case 5 => case 6 => case _ => }
  }

  lemma ApartStep(b: bv8, x: bv8, y: bv8)
    requires x & y == 0 && y != 0
    ensures (b | x) & y == b & y
    ensures (b & !x) & y == b & y
  {}

  lemma SameStep(b: bv8, x: bv8)
    requires x != 0
    ensures (b | x) & x != 0
    ensures (b & !x) & x == 0
  {}

  /** With x and y the masks of bits k and m: writing bit k leaves every other bit m as it was .. */
  lemma WriteElsewhere(b: bv8, k: nat, m: nat, x: bv8, y: bv8)
    requires k < 8 && m < 8 && m != k && x == Mask(k) && y == Mask(m)
    ensures (b | x) & y == b & y
    ensures (b & !x) & y == b & y
  {
    MasksDisjoint(k, m);
    MasksDisjoint(m, k);
    ApartStep(b, x, y);
  }

  /** .. and gives bit k its value. */
  lemma WriteHere(b: bv8, k: nat, x: bv8)
    requires k < 8 && x == Mask(k)
    ensures (b | x) & x != 0
    ensures (b & !x) & x == 0
  {
    MasksDisjoint(k, k);
    SameStep(b, x);
  }

  lemma AllOnes(k: nat)
    requires k < 8
    ensures BitOf(0xff, k)
  {
    if k == 0 {} else if k == 1 {} else if k == 2 {} else if k == 3 {}
    else if k == 4 {} else if k == 5 {} else if k == 6 {} else {}
  }

  /** The bits of a byte buffer as one sequence of flags. */
  function Unpack(bytes: seq<bv8>): (bits: seq<bool>)
    ensures |bits| == 8 * |bytes|
    ensures forall i :: 0 <= i < |bits| ==> bits[i] == BitOf(bytes[i / 8], i % 8)
  {
    seq(8 * |bytes|, i requires 0 <= i < 8 * |bytes| => BitOf(bytes[i / 8], i % 8))
  }

  /** The byte that `Set` stores. */
  function WithBit(b: bv8, k: nat, value: bool): bv8
    requires k < 8
  {
    if value then b | Mask(k) else b & !Mask(k)
  }

  lemma UnpackUpdate(bytes: seq<bv8>, i: nat, value: bool)
    requires i < 8 * |bytes|
    ensures Unpack(bytes[i / 8 := WithBit(bytes[i / 8], i % 8, value)]) == Unpack(bytes)[i := value]
  {
    var b := WithBit(bytes[i / 8], i % 8, value);
    forall m | 0 <= m < 8
      ensures BitOf(b, m) == if m == i % 8 then value else BitOf(bytes[i / 8], m)
    {
      if m == i % 8 {
        WriteHere(bytes[i / 8], m, Mask(m));
      } else {
        WriteElsewhere(bytes[i / 8], i % 8, m, Mask(i % 8), Mask(m));
      }
    }
    UnpackPointwise(bytes, i, b, value);
  }

  lemma UnpackPointwise(bytes: seq<bv8>, i: nat, b: bv8, value: bool)
    requires i < 8 * |bytes|
    requires forall m :: 0 <= m < 8 ==> BitOf(b, m) == if m == i % 8 then value else BitOf(bytes[i / 8], m)
    ensures Unpack(bytes[i / 8 := b]) == Unpack(bytes)[i := value]
  {
    var after := bytes[i / 8 := b];
    forall n | 0 <= n < 8 * |bytes|
      ensures Unpack(after)[n] == Unpack(bytes)[i := value][n]
    {
      assert n == 8 * (n / 8) + n % 8;
    }
  }

  class Bitmap {
    const data: array<bv8>

    /** A buffer of `size` bytes with every page marked used. */
    constructor (size: nat)
      ensures fresh(data) && data.Length == size
      ensures forall i :: 0 <= i < 8 * size ==> Bits()[i]
    {
      data := new bv8[size](_ => 0xff);
      new;
      forall i | 0 <= i < 8 * size ensures Bits()[i] { AllOnes(i % 8); }
    }

    ghost function Bits(): (bits: seq<bool>)
      reads this, data
      ensures |bits| == 8 * data.Length
    {
      Unpack(data[..])
    }

    method Set(pageIdx: nat, value: bool)
      requires pageIdx < 8 * data.Length
      modifies data
      ensures Bits() == old(Bits())[pageIdx := value]
    {
      var byteIndex := pageIdx / 8;
      var bitIndex := pageIdx % 8;
      ghost var before := data[..];
      UnpackUpdate(before, pageIdx, value);
      data[byteIndex] := WithBit(data[byteIndex], bitIndex, value);
      assert data[..] == before[byteIndex := WithBit(before[byteIndex], bitIndex, value)];
    }

    method Get(pageIdx: nat) returns (used: bool)
      requires pageIdx < 8 * data.Length
      ensures used == Bits()[pageIdx]
    {
      var byteIndex := pageIdx / 8;
      var bitIndex := pageIdx % 8;
      used := data[byteIndex] & Mask(bitIndex) != 0;
    }
  }
}
