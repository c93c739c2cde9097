/** `Socket::get_checksum`, ping's `checksum`, and the checksum of RFC 1071 that both are to compute. */
module Checksums {
  import opened NextFit

  type Byte = n: int | 0 <= n < 256

  /** A 16-bit word. */
  type Half = n: int | 0 <= n < 0x10000

  // ---- RFC 1071

  /** Section 1: ones'-complement addition, the carry going round to the low end. */
  function Add1(a: Half, b: Half): Half
  {
    if a + b > 0xffff then a + b - 0xffff else a + b
  }

  function OnesSum(ws: seq<Half>): Half
  {
    if ws == [] then 0 else Add1(OnesSum(ws[..|ws| - 1]), ws[|ws| - 1])
  }

  function Word(high: Byte, low: Byte): Half
  {
    high * 256 + low
  }

  function BeWords(b: seq<Byte>): (ws: seq<Half>)
    ensures |ws| == |b| / 2
  {
    seq(|b| / 2, i requires 0 <= i < |b| / 2 => Word(b[2 * i], b[2 * i + 1]))
  }

  /** The checksum of a block of bytes, as a number that goes out high byte first. */
  function RfcChecksum(b: seq<Byte>): Half
  {
    0xffff - OnesSum(BeWords(b))
  }

  function Swap(w: Half): Half
  {
    w % 256 * 256 + w / 256
  }

  /** What a little-endian machine finds in memory where the checksum has been put high byte first. */
  function RfcInMemory(b: seq<Byte>): Half
  {
    Swap(RfcChecksum(b))
  }

  // ---- What the code adds up

  function LeWords(b: seq<Byte>): (ws: seq<Half>)
    ensures |ws| == |b| / 2
  {
    seq(|b| / 2, i requires 0 <= i < |b| / 2 => Word(b[2 * i + 1], b[2 * i]))
  }

  function Sum(ws: seq<Half>): nat
  {
    if ws == [] then 0 else Sum(ws[..|ws| - 1]) + ws[|ws| - 1]
  }

  /** The last lines of `get_checksum`, on its 32-bit sum: one fold, one more carry, complement, truncation. */
  function Folded(s: nat): Half
    requires s < 0x1_0000_0000
  {
    var c := s % 0x10000 + s / 0x10000;
    var c' := if c > 0xffff then c + 1 else c;
    0xffff - c' % 0x10000
  }

  /** The last lines of ping's `checksum`: two folds. */
  function FoldedTwice(s: nat): Half
    requires s < 0x1_0000_0000
  {
    var c := s / 0x10000 + s % 0x10000;
    var c' := c + c / 0x10000;
    0xffff - c' % 0x10000
  }

  // ---- Sums modulo 65535

  /** The representative of s modulo 65535 that ones'-complement addition keeps: 0 only for 0, else 1 to 65535. */
  function Norm(s: nat): (r: Half)
    ensures r % 65535 == s % 65535 && (r == 0 <==> s == 0)
  {
    if s == 0 then 0 else (s - 1) % 65535 + 1
  }

  lemma NormUnique(s: nat, r: Half)
    requires r % 65535 == s % 65535 && (r == 0 <==> s == 0)
    ensures r == Norm(s)
  {}

  /** End-around carries compute the sum modulo 65535. */
  lemma {:induction false} OnesSumIsNorm(ws: seq<Half>)
    ensures OnesSum(ws) == Norm(Sum(ws))
  {
    if ws != [] {
      OnesSumIsNorm(ws[..|ws| - 1]);
      NormUnique(Sum(ws), OnesSum(ws));
    }
  }

  /** One fold and one carry are enough for any 32-bit sum. */
  lemma FoldedIsNorm(s: nat)
    requires s < 0x1_0000_0000
    ensures Folded(s) == 0xffff - Norm(s)
  {
    NormUnique(s, 0xffff - Folded(s));
  }

  lemma FoldedTwiceIsNorm(s: nat)
    requires s < 0x1_0000_0000
    ensures FoldedTwice(s) == 0xffff - Norm(s)
  {
    NormUnique(s, 0xffff - FoldedTwice(s));
  }

  // ---- Section 2(B): byte order

  lemma SwapTwice(w: Half)
    ensures Swap(Swap(w)) == w && Swap(0xffff - w) == 0xffff - Swap(w)
  {
    var high, low := w / 256, w % 256;
    SwapWord(high, low);
    SwapWord(low, high);
    SwapWord(255 - high, 255 - low);
    assert 0xffff - w == Word(255 - high, 255 - low);
  }

  lemma SwapWord(high: Byte, low: Byte)
    ensures Swap(Word(high, low)) == Word(low, high)
  {
    Halves(high, low);
  }

  lemma Halves(high: int, low: int)
    requires 0 <= low < 256
    ensures (high * 256 + low) / 256 == high && (high * 256 + low) % 256 == low
  {}

  /** Adding with end-around carry does not care which byte of the words comes first. */
  lemma SwapAdd(a: Half, b: Half)
    ensures Swap(Add1(a, b)) == Add1(Swap(a), Swap(b))
  {
    hide Swap;
    var s: int := Add1(a, b);
    var x: int := Swap(a);
    var y: int := Swap(b);
    SwapIs(a);
    SwapIs(b);
    SwapIs(s);
    var carries := (if a + b > 0xffff then -256 else 0) + (if x + y > 0xffff then 1 else 0);
    SameHalf(Swap(s), Add1(x, y), a / 256 + b / 256 - s / 256 + carries);
  }

  lemma SwapIs(w: Half)
    ensures Swap(w) == 256 * w - 65535 * (w / 256) && (Swap(w) == 0 <==> w == 0)
  {}

  lemma SameHalf(u: Half, v: Half, k: int)
    requires u - v == 65535 * k && (u == 0 <==> v == 0)
    ensures u == v
  {}

  lemma {:induction false} SwapSum(ws: seq<Half>, vs: seq<Half>)
    requires |vs| == |ws| && forall i :: 0 <= i < |ws| ==> vs[i] == Swap(ws[i])
    ensures OnesSum(vs) == Swap(OnesSum(ws))
  {
    if ws != [] {
      SwapSum(ws[..|ws| - 1], vs[..|vs| - 1]);
      SwapAdd(OnesSum(ws[..|ws| - 1]), ws[|ws| - 1]);
    }
  }

  lemma ByteOrderIndependent(b: seq<Byte>)
    ensures OnesSum(BeWords(b)) == Swap(OnesSum(LeWords(b)))
  {
    SwapSum(LeWords(b), BeWords(b));
  }

  // ---- get_checksum against RFC 1071

  /** The 32-bit sum that the loops over 16-bit words end with. */
  function WrappedSum(b: seq<Byte>): (s: nat)
    ensures s < 0x1_0000_0000
  {
    Sum(LeWords(b)) % 0x1_0000_0000
  }

  /** What `get_checksum` returns. */
  function Checksum(b: seq<Byte>): Half
  {
    Folded(WrappedSum(b))
  }

  /** What must hold of a sum for 32 bits to be enough: it did not wrap, or wrapped a multiple of 65535 times, which
      ones'-complement sums do not notice, and without ending at 0. */
  predicate SumSurvives(s: nat)
  {
    s < 0x1_0000_0000 || (s / 0x1_0000_0000 % 65535 == 0 && s % 0x1_0000_0000 != 0)
  }

  lemma WrapChangesNorm(s: nat)
    ensures Norm(s % 0x1_0000_0000) == Norm(s) <==> SumSurvives(s)
  {
    var q, r := s / 0x1_0000_0000, s % 0x1_0000_0000;
    assert s == 0x1_0000_0000 * q + r;
    CongruentToQuotient(s, q, r);
    if SumSurvives(s) && s >= 0x1_0000_0000 { NormUnique(r, Norm(s)); }
  }

  lemma CongruentToQuotient(s: nat, q: nat, r: nat)
    requires s == 0x1_0000_0000 * q + r
    ensures s % 65535 == r % 65535 <==> q % 65535 == 0
  {
    assert 0x1_0000_0000 == 65535 * 65537 + 1;
    var k := 65537 * q;
    assert s == 65535 * k + (q + r);
    Congruent(s, q + r, k);
    QuotientVanishes(q, r);
  }

  lemma Congruent(x: nat, y: nat, k: int)
    requires x == 65535 * k + y
    ensures x % 65535 == y % 65535
  {}

  lemma QuotientVanishes(q: nat, r: nat)
    ensures (q + r) % 65535 == r % 65535 <==> q % 65535 == 0
  {}

  /** For blocks of every even size, `get_checksum` is the checksum of RFC 1071 if and only if the sum of the words
      survives being kept in 32 bits. */
  lemma RfcExactly(b: seq<Byte>)
    requires |b| % 2 == 0
    ensures Checksum(b) == RfcInMemory(b) <==> SumSurvives(Sum(LeWords(b)))
  {
    hide Swap, Folded, OnesSum, LeWords, BeWords, Sum, SumSurvives, Norm;
    FoldedIsNorm(WrappedSum(b));
    ByteOrderIndependent(b);
    OnesSumIsNorm(LeWords(b));
    SwapTwice(OnesSum(LeWords(b)));
    SwapTwice(Swap(OnesSum(LeWords(b))));
    WrapChangesNorm(Sum(LeWords(b)));
  }

  lemma {:induction false} SumBound(ws: seq<Half>)
    ensures Sum(ws) <= 65535 * |ws|
  {
    if ws != [] { SumBound(ws[..|ws| - 1]); }
  }

  /** Up to 131074 bytes no sum can wrap. */
  lemma RfcUpToLimit(b: seq<Byte>)
    requires |b| % 2 == 0 && |b| <= 131074
    ensures Checksum(b) == RfcInMemory(b)
  {
    SumBound(LeWords(b));
    RfcExactly(b);
  }

  lemma {:induction false} SumOfOnes(n: nat)
    ensures Sum(seq(n, _ => 0xffff)) == 65535 * n
  {
    if n > 0 {
      SumOfOnes(n - 1);
      assert seq(n, _ => 0xffff)[..n - 1] == seq(n - 1, _ => 0xffff);
    }
  }

  /** With one word more the result can be wrong. */
  lemma LimitIsSharp() returns (b: seq<Byte>)
    ensures |b| == 131076 && Checksum(b) != RfcInMemory(b)
  {
    b := seq(131076, _ => 255);
    assert LeWords(b) == seq(65538, _ => 0xffff);
    SumOfOnes(65538);
    RfcExactly(b);
  }

  // ---- Storing it

  /** The words with the one at k replaced: what that does to the sum. */
  lemma {:induction false} SumWith(ws: seq<Half>, k: nat, w: Half)
    requires k < |ws|
    ensures Sum(ws[k := w]) == Sum(ws) - ws[k] + w
  {
    var m := |ws| - 1;
    if k < m {
      SumWith(ws[..m], k, w);
      assert ws[k := w][..m] == ws[..m][k := w];
    } else {
      assert ws[k := w][..m] == ws[..m];
    }
  }

  /** The bytes with the 16-bit word at index k overwritten, as the machine stores it. */
  function Stored(b: seq<Byte>, k: nat, w: Half): (r: seq<Byte>)
    requires 2 * k + 1 < |b|
    ensures |r| == |b|
  {
    b[2 * k := w % 256][2 * k + 1 := w / 256]
  }

  lemma StoredWord(b: seq<Byte>, k: nat, w: Half)
    requires 2 * k + 1 < |b|
    ensures LeWords(Stored(b, k, w)) == LeWords(b)[k := w]
  {
    assert Word(w / 256, w % 256) == w;
  }

  /** The checksum put into a field that was zero makes the whole block sum to 0xffff, in either byte order: what
      RFC 1071 has receivers check. */
  lemma InsertedSumsToAllOnes(b: seq<Byte>, k: nat)
    requires 2 * k + 1 < |b| <= 131074 && LeWords(b)[k] == 0
    ensures var r := Stored(b, k, Checksum(b)); OnesSum(LeWords(r)) == 0xffff && OnesSum(BeWords(r)) == 0xffff
  {
    hide LeWords, Folded, OnesSum, Sum, BeWords, Stored;
    var ws, c := LeWords(b), Checksum(b);
    var r := Stored(b, k, c);
    SumBound(ws);
    FoldedIsNorm(Sum(ws));
    StoredWord(b, k, c);
    SumWith(ws, k, c);
    OnesSumIsNorm(LeWords(r));
    NormUnique(Sum(LeWords(r)), 0xffff);
    ByteOrderIndependent(r);
  }

  /** A change to one word goes unnoticed if and only if it swaps 0 and 0xffff in a block that is not otherwise zero. */
  lemma ChangeDetected(ws: seq<Half>, k: nat, w: Half)
    requires k < |ws| && Sum(ws) < 0x1_0000_0000 && Sum(ws[k := w]) < 0x1_0000_0000
    ensures Folded(Sum(ws[k := w])) == Folded(Sum(ws)) <==>
              w == ws[k] || (w % 65535 == ws[k] % 65535 && Sum(ws[k := 0]) != 0)
  {
    SumWith(ws, k, w);
    SumWith(ws, k, 0);
    FoldedIsNorm(Sum(ws));
    FoldedIsNorm(Sum(ws[k := w]));
    var rest := Sum(ws[k := 0]);
    NormsAgree(rest, ws[k], w);
  }

  lemma NormsAgree(rest: nat, v: Half, w: Half)
    ensures Norm(rest + v) == Norm(rest + w) <==> v == w || (v % 65535 == w % 65535 && rest != 0)
  {
    hide Norm;
    CongruentByDifference(rest + v, rest + w);
    CongruentByDifference(v, w);
    if rest == 0 {
      NormUnique(v, v);
      NormUnique(w, w);
    } else if v % 65535 == w % 65535 {
      NormUnique(rest + v, Norm(rest + w));
    }
  }

  lemma CongruentByDifference(x: int, y: int)
    ensures x % 65535 == y % 65535 <==> (x - y) % 65535 == 0
  {}

  // ---- ping

  /** What ping's `checksum` returns: a last odd byte is added too. */
  function PingChecksum(b: seq<Byte>): Half
  {
    FoldedTwice((Sum(LeWords(b)) + if |b| % 2 == 1 then b[|b| - 1] else 0) % 0x1_0000_0000)
  }

  /** The two implementations agree on every block of even size, and on one of odd size exactly when the byte that
      the kernel's drops is 0. */
  lemma PingAgrees(b: seq<Byte>)
    ensures PingChecksum(b) == Checksum(b) <==> |b| % 2 == 0 || b[|b| - 1] == 0
  {
    hide LeWords, Folded, FoldedTwice, Norm, Sum;
    var s := Sum(LeWords(b));
    var x := if |b| % 2 == 1 then b[|b| - 1] else 0;
    FoldedIsNorm(s % 0x1_0000_0000);
    FoldedTwiceIsNorm((s + x) % 0x1_0000_0000);
    SmallChangeShows(s % 0x1_0000_0000, x);
    AddWrapped(s, x);
  }

  /** RFC 1071, section 4.1: a block of odd size is summed as if a zero byte followed. */
  function Padded(b: seq<Byte>): (p: seq<Byte>)
    ensures |p| % 2 == 0 && |p| - 1 <= |b| <= |p|
  {
    if |b| % 2 == 1 then b + [0] else b
  }

  /** For blocks of every size ping's `checksum` is what the kernel makes of the padded block, so the checksum of
      RFC 1071 if and only if the sum survives being kept in 32 bits. */
  lemma PingExactly(b: seq<Byte>)
    ensures PingChecksum(b) == Checksum(Padded(b))
    ensures PingChecksum(b) == RfcInMemory(Padded(b)) <==> SumSurvives(Sum(LeWords(Padded(b))))
  {
    PaddedSum(b);
    hide LeWords, Folded, FoldedTwice, Norm, Sum, Padded, SumSurvives, RfcInMemory;
    var s := Sum(LeWords(Padded(b))) % 0x1_0000_0000;
    FoldedIsNorm(s);
    FoldedTwiceIsNorm(s);
    RfcExactly(Padded(b));
  }

  lemma PaddedSum(b: seq<Byte>)
    ensures Sum(LeWords(Padded(b))) == Sum(LeWords(b)) + if |b| % 2 == 1 then b[|b| - 1] else 0
  {
    if |b| % 2 == 1 {
      var p, n := Padded(b), |b| / 2;
      assert LeWords(p)[..n] == LeWords(b);
      assert LeWords(p)[n] == b[|b| - 1];
    }
  }

  lemma NotCongruent(s: nat, x: nat)
    requires 0 < x < 65535
    ensures (s + x) % 65535 != s % 65535
  {}

  lemma SmallChangeShows(s: nat, x: Byte)
    requires s < 0x1_0000_0000
    ensures Norm((s + x) % 0x1_0000_0000) == Norm(s) <==> x == 0
  {
    if s + x >= 0x1_0000_0000 {
      var below := 0xffff_ffff - s;
      Congruent(s, 65535 - below, 65536);
      NormUnique(s, 65535 - below);
      NormUnique(s + x - 0x1_0000_0000, s + x - 0x1_0000_0000);
    } else if x != 0 {
      NotCongruent(s, x);
    }
  }

  // ---- The loops

  lemma NextWord(b: seq<Byte>, k: nat)
    requires 2 * k + 1 < |b|
    ensures LeWords(b)[..k + 1] == LeWords(b)[..k] + [Word(b[2 * k + 1], b[2 * k])]
    ensures Sum(LeWords(b)[..k + 1]) == Sum(LeWords(b)[..k]) + Word(b[2 * k + 1], b[2 * k])
  {
    var ws := LeWords(b)[..k + 1];
    assert ws[..|ws| - 1] == LeWords(b)[..k];
  }

  lemma NoWords(b: seq<Byte>)
    ensures Sum(LeWords(b)[..0]) == 0
  {}

  lemma AddWrapped(x: nat, w: nat)
    ensures (x % 0x1_0000_0000 + w) % 0x1_0000_0000 == (x + w) % 0x1_0000_0000
  {}

  /** The fold, carry and complement that `get_checksum` ends with. */
  method Fold(sum: nat) returns (r: Half)
    requires sum < 0x1_0000_0000
    ensures r == Folded(sum)
  {
    var checksum := sum % 0x10000 + sum / 0x10000;
    if checksum > 0xffff {
      checksum := checksum + 1;
    }
    r := 0xffff - checksum % 0x10000;
  }

  /** `get_checksum` of the `size` bytes at `at`. */
  method GetChecksum(data: array<Byte>, at: nat, size: nat) returns (r: Half)
    requires at + size <= data.Length
    ensures r == Checksum(data[at..at + size])
    ensures size % 2 == 0 && size <= 131074 ==> r == RfcInMemory(data[at..at + size])
  {
    hide LeWords, Sum, Folded, RfcInMemory, Word;
    ghost var b := data[at..at + size];
    NoWords(b);
    var ptr, checksum: nat, i := 0, 0, size;
    while i >= 2
      invariant i + 2 * ptr == size && checksum == Sum(LeWords(b)[..ptr]) % 0x1_0000_0000
    {
      var word := Word(data[at + 2 * ptr + 1], data[at + 2 * ptr]);
      NextWord(b, ptr);
      assert word == Word(b[2 * ptr + 1], b[2 * ptr]);
      AddWrapped(Sum(LeWords(b)[..ptr]), word);
      checksum := (checksum + word) % 0x1_0000_0000;
      ptr := ptr + 1;
      i := i - 2;
    }
    assert LeWords(b)[..ptr] == LeWords(b);
    r := Fold(checksum);
    if size % 2 == 0 && size <= 131074 { RfcUpToLimit(b); }
  }

  /** ping's `checksum`. */
  method PingSum(data: array<Byte>, size: nat) returns (r: Half)
    requires size <= data.Length
    ensures r == PingChecksum(data[..size])
  {
    hide LeWords, Sum, FoldedTwice;
    ghost var b := data[..size];
    NoWords(b);
    var ptr, sum: nat, len := 0, 0, size;
    while len > 1
      invariant len + 2 * ptr == size && sum == Sum(LeWords(b)[..ptr]) % 0x1_0000_0000
    {
      NextWord(b, ptr);
      AddWrapped(Sum(LeWords(b)[..ptr]), Word(b[2 * ptr + 1], b[2 * ptr]));
      sum := (sum + Word(data[2 * ptr + 1], data[2 * ptr])) % 0x1_0000_0000;
      ptr := ptr + 1;
      len := len - 2;
    }
    assert LeWords(b)[..ptr] == LeWords(b);
    if len == 1 {
      AddWrapped(Sum(LeWords(b)), data[2 * ptr]);
      sum := (sum + data[2 * ptr]) % 0x1_0000_0000;
    }
    r := FoldedTwice(sum);
  }

  // ---- IPv4 headers

  type Address = a: seq<Byte> | |a| == 4 witness [0, 0, 0, 0]

  /** The header of a packet with `len` bytes of data, its checksum field zero. */
  function BlankHeader(len: nat, protocol: Byte, src: Address, dst: Address): (h: seq<Byte>)
    ensures |h| == 20 && LeWords(h)[5] == 0
  {
    var total := (len + 20) % 0x10000;
    [0x45, 0, total / 256, total % 256, 0, 0, 0, 0, 64, protocol, 0, 0] + src + dst
  }

  function Header(len: nat, protocol: Byte, src: Address, dst: Address): (h: seq<Byte>)
    ensures |h| == 20
  {
    var blank := BlankHeader(len, protocol, src, dst);
    Stored(blank, 5, Checksum(blank))
  }

  /** s in a, from place i on. */
  function Overwritten(a: seq<Byte>, i: nat, s: seq<Byte>): (r: seq<Byte>)
    requires i + |s| <= |a|
    ensures |r| == |a|
    ensures forall k :: 0 <= k < |a| ==> r[k] == if i <= k < i + |s| then s[k - i] else a[k]
  {
    a[..i] + s + a[i + |s|..]
  }

  method Write(a: array<Byte>, at: nat, s: seq<Byte>)
    requires at + |s| <= a.Length
    modifies a
    ensures a[..] == Overwritten(old(a[..]), at, s)
  {
    var k := 0;
    while k < |s|
      invariant k <= |s|
      invariant forall i :: 0 <= i < a.Length ==> a[i] == if at <= i < at + k then s[i - at] else old(a[i])
    {
      a[at + k] := s[k];
      k := k + 1;
    }
  }

  /** `send_ipv4`: with a driver, whose address is `mac`, the frame that is handed to it. */
  method SendIpv4(mac: Option<seq<Byte>>, data: seq<Byte>, protocol: Byte, src: Address, dst: Address)
    returns (sent: Option<seq<Byte>>)
    requires mac.Some? ==> |mac.value| == 6
    ensures sent.Some? <==> mac.Some?
    ensures sent.Some? ==>
              sent.value == [0xff, 0xff, 0xff, 0xff, 0xff, 0xff] + mac.value + [8, 0]
                            + Header(|data|, protocol, src, dst) + data
  {
    if mac.None? {
      return None;
    }
    hide Header;
    var frame := new Byte[34 + |data|];
    ghost var junk := frame[..];
    var broadcast: seq<Byte>, ipv4: seq<Byte> := [0xff, 0xff, 0xff, 0xff, 0xff, 0xff], [8, 0];
    Write(frame, 12, ipv4);
    Write(frame, 6, mac.value);
    Write(frame, 0, broadcast);
    FillHeader(frame, |data|, protocol, src, dst);
    Write(frame, 34, data);
    sent := Some(frame[..]);
    FrameIs(junk, broadcast, mac.value, ipv4, Header(|data|, protocol, src, dst), data);
  }

  lemma FrameIs(junk: seq<Byte>, to: seq<Byte>, from: seq<Byte>, ether: seq<Byte>, header: seq<Byte>, data: seq<Byte>)
    requires |to| == |from| == 6 && |ether| == 2 && |header| == 20 && |junk| == 34 + |data|
    ensures var f := Overwritten(Overwritten(Overwritten(junk, 12, ether), 6, from), 0, to);
            Overwritten(Overwritten(f, 14, header), 34, data) == to + from + ether + header + data
  {
    var f := Overwritten(Overwritten(junk, 12, ether), 6, from);
    assert f[6..14] == from + ether;
    f := Overwritten(f, 0, to);
    assert f[..14] == to + from + ether;
    f := Overwritten(f, 14, header);
    assert f[..34] == to + from + ether + header;
    f := Overwritten(f, 34, data);
  }

  method FillHeader(frame: array<Byte>, len: nat, protocol: Byte, src: Address, dst: Address)
    requires frame.Length == 34 + len
    modifies frame
    ensures frame[..] == Overwritten(old(frame[..]), 14, Header(len, protocol, src, dst))
  {
    hide LeWords, Checksum, BlankHeader, Stored, RfcInMemory, Overwritten;
    ghost var was := frame[..];
    ghost var h := frame[14..34];
    PutField(frame, 0, seq(20, _ => 0));
    PutField(frame, 0, [4 * 16 + 5]);
    var total := (len + 20) % 0x10000;
    PutField(frame, 2, [total / 256, total % 256]);
    PutField(frame, 8, [64]);
    PutField(frame, 9, [protocol]);
    PutField(frame, 16, dst);
    PutField(frame, 12, src);
    BlankFilled(h, len, protocol, src, dst);
    var checksum := GetChecksum(frame, 14, 20);
    var field: seq<Byte> := [checksum % 256, checksum / 256];
    PutField(frame, 10, field);
    FieldStored(BlankHeader(len, protocol, src, dst), checksum);
    HeaderPlaced(was, frame[..], Header(len, protocol, src, dst));
  }

  lemma HeaderPlaced(was: seq<Byte>, now: seq<Byte>, h: seq<Byte>)
    requires |was| == |now| && |now| >= 34 && |h| == 20
    requires now[14..34] == h && now[..14] == was[..14] && now[34..] == was[34..]
    ensures now == Overwritten(was, 14, h)
  {
    assert now == now[..14] + now[14..34] + now[34..];
  }

  lemma FieldStored(h: seq<Byte>, c: Half)
    requires |h| == 20
    ensures Overwritten(h, 10, [c % 256, c / 256]) == Stored(h, 5, c)
  {}

  /** A store into the header, whose bytes are those from 14 on. */
  method PutField(frame: array<Byte>, i: nat, s: seq<Byte>)
    requires frame.Length >= 34 && i + |s| <= 20
    modifies frame
    ensures frame[14..34] == Overwritten(old(frame[14..34]), i, s)
    ensures frame[..14] == old(frame[..14]) && frame[34..] == old(frame[34..])
  {
    Write(frame, 14 + i, s);
    ghost var now := frame[..];
    assert frame[14..34] == now[14..34] && frame[..14] == now[..14] && frame[34..] == now[34..];
  }

  lemma BlankFilled(h: seq<Byte>, len: nat, protocol: Byte, src: Address, dst: Address)
    requires |h| == 20
    ensures var total := (len + 20) % 0x10000;
            var a := Overwritten(Overwritten(h, 0, seq(20, _ => 0)), 0, [4 * 16 + 5]);
            var b := Overwritten(Overwritten(a, 2, [total / 256, total % 256]), 8, [64]);
            Overwritten(Overwritten(Overwritten(b, 9, [protocol]), 16, dst), 12, src) ==
              BlankHeader(len, protocol, src, dst)
  {
    hide LeWords, Overwritten;
    var total := (len + 20) % 0x10000;
    StartFilled(h, total / 256, total % 256);
  }

  lemma StartFilled(h: seq<Byte>, high: Byte, low: Byte)
    requires |h| == 20
    ensures var a := Overwritten(Overwritten(h, 0, seq(20, _ => 0)), 0, [4 * 16 + 5]);
            Overwritten(Overwritten(a, 2, [high, low]), 8, [64])
            == [0x45, 0, high, low, 0, 0, 0, 0, 64, 0, 0, 0, 0, 0, 0, 0, 0, 0, 0, 0]
  {
    hide Overwritten;
  }

  datatype Delivery = Dropped | ToIcmp | ToUdp | Ignored

  /** What `receive_ipv4` does with a packet whose header is h. */
  function Delivered(h: seq<Byte>): Delivery
    requires |h| == 20
  {
    if h[0] / 16 != 4 || LeWords(h)[5] != Checksum(Stored(h, 5, 0)) then Dropped
    else if h[9] == 1 then ToIcmp
    else if h[9] == 0x11 then ToUdp
    else Ignored
  }

  /** `receive_ipv4`. The checksum field is left zero, also in a packet that is then dropped. */
  method ReceiveIpv4(data: array<Byte>) returns (to: Delivery)
    modifies data
    ensures to == if data.Length < 20 then Dropped else Delivered(old(data[..20]))
    ensures data.Length < 20 || old(data[0]) / 16 != 4 ==> to == Dropped
    ensures data[..] ==
            if data.Length < 20 || old(data[0]) / 16 != 4 then old(data[..]) else Stored(old(data[..]), 5, 0)
  {
    if data.Length < 20 {
      return Dropped;
    }
    if data[0] / 16 != 4 {
      return Dropped;
    }
    ghost var h := data[..20];
    var checksum := Word(data[11], data[10]);
    data[10], data[11] := 0, 0;
    assert data[..20] == Stored(h, 5, 0);
    var computed := GetChecksum(data, 0, 20);
    if checksum != computed {
      return Dropped;
    }
    match data[9] {
      case 1 => to := ToIcmp;
      case 0x11 => to := ToUdp;
      case _ => to := Ignored;
    }
  }

  /** A header is taken for valid if and only if its words sum to 0xffff, as RFC 1071 asks, and its checksum field is
      not 0xffff: the ones'-complement zero that the kernel itself never sends in a header. */
  lemma AcceptedExactly(h: seq<Byte>)
    requires |h| == 20 && h[0] / 16 == 4
    ensures Delivered(h) != Dropped <==> OnesSum(BeWords(h)) == 0xffff && LeWords(h)[5] != 0xffff
  {
    hide Folded, OnesSum, Sum, LeWords, BeWords, Stored, Norm, Swap;
    FirstWord(h);
    var ws, c := LeWords(h), LeWords(h)[5];
    var rest := Sum(ws[5 := 0]);
    StoredWord(h, 5, 0);
    SumWith(ws, 5, 0);
    SumBound(ws[5 := 0]);
    FoldedIsNorm(rest);
    OnesSumIsNorm(ws);
    ByteOrderIndependent(h);
    SwapTwice(OnesSum(ws));
    OnlyAllOnes(OnesSum(ws));
    FirstWordCounts(ws[5 := 0]);
    ComplementOf(rest, c);
  }

  /** A header that is valid by RFC 1071 and dropped: bytes 45 00 ba ff, ff ff in the checksum field, else zeros. */
  lemma ValidButDropped() returns (h: seq<Byte>)
    ensures |h| == 20 && h[0] / 16 == 4 && LeWords(h)[5] == 0xffff
    ensures OnesSum(BeWords(h)) == 0xffff && Delivered(h) == Dropped
  {
    hide OnesSum, BeWords, Norm, Folded, Swap, Sum, Delivered;
    var zeros: seq<Byte>, none: seq<Half> := seq(20, _ => 0), seq(10, _ => 0);
    assert LeWords(zeros) == none;
    hide LeWords;
    var a, b := Stored(zeros, 0, 0x45), Stored(Stored(zeros, 0, 0x45), 1, 0xffba);
    h := Stored(b, 5, 0xffff);
    assert h[0] == 0x45;
    hide Stored;
    var ws := none[0 := 0x45][1 := 0xffba];
    StoredWord(zeros, 0, 0x45);
    StoredWord(a, 1, 0xffba);
    StoredWord(b, 5, 0xffff);
    SumOfZeros(10);
    SumWith(none, 0, 0x45);
    SumWith(none[0 := 0x45], 1, 0xffba);
    SumWith(ws, 5, 0xffff);
    OnesSumIsNorm(LeWords(h));
    NormUnique(Sum(LeWords(h)), 0xffff);
    ByteOrderIndependent(h);
    OnlyAllOnes(OnesSum(LeWords(h)));
    AcceptedExactly(h);
  }

  lemma {:induction false} SumOfZeros(n: nat)
    ensures Sum(seq(n, _ => 0)) == 0
  {
    if n > 0 {
      SumOfZeros(n - 1);
      assert seq(n, _ => 0)[..n - 1] == seq(n - 1, _ => 0);
    }
  }

  lemma OnlyAllOnes(w: Half)
    ensures Swap(w) == 0xffff <==> w == 0xffff
  {}

  lemma FirstWord(h: seq<Byte>)
    requires |h| >= 2 && h[0] > 0
    ensures LeWords(h)[0] != 0
  {}

  lemma FirstWordCounts(ws: seq<Half>)
    requires ws != [] && ws[0] != 0
    ensures Sum(ws) > 0
  {
    SumWith(ws, 0, 0);
  }

  lemma ComplementOf(rest: nat, c: Half)
    requires rest > 0
    ensures c == 0xffff - Norm(rest) <==> Norm(rest + c) == 0xffff && c != 0xffff
  {}

  /** What the kernel sends, the kernel accepts: the header of every frame of `send_ipv4` passes `receive_ipv4`, and
      sums to 0xffff. */
  lemma SentIsAccepted(len: nat, protocol: Byte, src: Address, dst: Address)
    ensures var h := Header(len, protocol, src, dst);
            && Delivered(h) == (if protocol == 1 then ToIcmp else if protocol == 0x11 then ToUdp else Ignored)
            && OnesSum(BeWords(h)) == 0xffff
  {
    hide Folded, OnesSum, Sum, LeWords, BeWords;
    var blank := BlankHeader(len, protocol, src, dst);
    InsertedSumsToAllOnes(blank, 5);
    assert Stored(Header(len, protocol, src, dst), 5, 0) == blank;
    StoredWord(blank, 5, Checksum(blank));
  }

  /** What becomes of any header: dropped unless it is version 4, sums to 0xffff and has another checksum field than
      0xffff; then the protocol byte decides. */
  lemma DeliveredExactly(h: seq<Byte>)
    requires |h| == 20
    ensures Delivered(h) == Dropped <==>
            h[0] / 16 != 4 || OnesSum(BeWords(h)) != 0xffff || (h[10] == 0xff && h[11] == 0xff)
    ensures Delivered(h) != Dropped ==>
              (Delivered(h) == ToIcmp <==> h[9] == 1) && (Delivered(h) == ToUdp <==> h[9] == 17)
  {
    if h[0] / 16 == 4 {
      AcceptedExactly(h);
      FieldBytes(h);
    }
  }

  lemma FieldBytes(h: seq<Byte>)
    requires |h| == 20
    ensures LeWords(h)[5] == 0xffff <==> h[10] == 0xff && h[11] == 0xff
  {}

  /** The fields of the header that is sent, at the places RFC 791, section 3.1, gives them: version 4 and five words of
      header, total length in 16 bits, time to live 64, protocol, source and destination. */
  lemma HeaderFields(len: nat, protocol: Byte, src: Address, dst: Address)
    ensures var h := Header(len, protocol, src, dst);
            && h[0] / 16 == 4 && h[0] % 16 * 4 == |h| && Word(h[2], h[3]) == (len + 20) % 0x10000
            && h[1] == h[4] == h[5] == h[6] == h[7] == 0 && h[8] == 64 && h[9] == protocol
            && h[12..16] == src && h[16..20] == dst
            && (Word(h[2], h[3]) == len + |h| <==> len <= 65515)
  {
    hide Checksum, LeWords, Sum, BlankHeader, Stored;
    var blank := BlankHeader(len, protocol, src, dst);
    BlankFields(len, protocol, src, dst);
    StoredElsewhere(blank, Checksum(blank));
    hide Word;
    assert Word(blank[2], blank[3]) == len + 20 <==> len <= 65515;
  }

  lemma BlankFields(len: nat, protocol: Byte, src: Address, dst: Address)
    ensures var h := BlankHeader(len, protocol, src, dst);
            && h[0] == 0x45 && h[1] == h[4] == h[5] == h[6] == h[7] == 0 && h[8] == 64 && h[9] == protocol
            && Word(h[2], h[3]) == (len + 20) % 0x10000 && h[12..16] == src && h[16..20] == dst
  {
    hide LeWords;
    var total := (len + 20) % 0x10000;
    Halves(total / 256, total % 256);
    var h := BlankHeader(len, protocol, src, dst);
    assert h[12..16] == src && h[16..20] == dst;
  }

  lemma StoredElsewhere(h: seq<Byte>, c: Half)
    requires |h| == 20
    ensures var s := Stored(h, 5, c);
            |s| == 20 && s[..10] == h[..10] && s[12..16] == h[12..16] && s[16..20] == h[16..20]
            && forall k :: 0 <= k < 10 ==> s[k] == h[k]
  {}
}
