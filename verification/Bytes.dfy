/** Bytes, bit operations on them, and the two byte orders used on the wire. */
module Bytes {
  type byte = x: int | 0 <= x < 256

  /** Keys, X25519 scalars, X25519 coordinates and hashes are all 32 bytes long. */
  type Block = s: seq<byte> | |s| == 32 witness seq(32, i => 0)

  function Min(a: int, b: int): int { if a <= b then a else b }

  /** `memcpy(dst + at, src, |src|)`. */
  function Overlay(dst: seq<byte>, at: nat, src: seq<byte>): (r: seq<byte>)
    requires at + |src| <= |dst|
    ensures |r| == |dst|
    ensures r[at..at + |src|] == src
  {
    dst[..at] + src + dst[at + |src|..]
  }

  lemma OverlayElsewhere(dst: seq<byte>, at: nat, src: seq<byte>, i: nat)
    requires at + |src| <= |dst| && i < |dst|
    ensures Overlay(dst, at, src)[i] == if at <= i < at + |src| then src[i - at] else dst[i]
  {
  }

  method Memcpy(dst: array<byte>, at: nat, src: seq<byte>)
    requires at + |src| <= dst.Length
    modifies dst
    ensures dst[..] == Overlay(old(dst[..]), at, src)
  {
    Put(dst, at, src);
    assert dst[..] == dst[..at + |src|] + dst[at + |src|..];
  }

  /** `std::copy` to a moving output position: extends what is already written before `at`. */
  method Put<T>(dst: array<T>, at: nat, src: seq<T>)
    requires at + |src| <= dst.Length
    modifies dst
    ensures dst[..at + |src|] == old(dst[..at]) + src
    ensures dst[at + |src|..] == old(dst[at + |src|..])
  {
    forall i | 0 <= i < |src| {
      dst[at + i] := src[i];
    }
  }

  // ---- Bits ----

  /** `(v >> k) & 1`. */
  predicate Bit(v: nat, k: nat)
    decreases k
  {
    if k == 0 then v % 2 == 1 else Bit(v / 2, k - 1)
  }

  /** `v | (1 << k)`. */
  function SetBit(v: nat, k: nat): nat
    decreases k
  {
    if k == 0 then v - v % 2 + 1 else v % 2 + 2 * SetBit(v / 2, k - 1)
  }

  function Pow2(k: nat): (r: nat)
    ensures r > 0
  {
    if k == 0 then 1 else 2 * Pow2(k - 1)
  }

  lemma {:induction false} SetBitSetsOneBit(v: nat, k: nat, j: nat)
    ensures Bit(SetBit(v, k), j) <==> j == k || Bit(v, j)
  {
    if k > 0 && j > 0 {
      assert SetBit(v, k) / 2 == SetBit(v / 2, k - 1);
      SetBitSetsOneBit(v / 2, k - 1, j - 1);
    } else if k == 0 && j > 0 {
      assert SetBit(v, k) / 2 == v / 2;
    }
  }

  lemma {:induction false} SetBitInRange(v: nat, k: nat, n: nat)
    requires v < Pow2(n) && k < n
    ensures SetBit(v, k) < Pow2(n)
  {
    if k > 0 {
      SetBitInRange(v / 2, k - 1, n - 1);
    }
  }

  lemma HalfOf(bit: nat, rest: nat)
    requires bit < 2
    ensures (bit + 2 * rest) % 2 == bit && (bit + 2 * rest) / 2 == rest
  {
  }

  /** Exclusive or of the lowest bits. */
  function Flip(a: nat, b: nat): (r: nat)
    ensures r < 2
  {
    (a % 2 + b % 2) % 2
  }

  /** Exclusive or of the low `n` bits, bit by bit. */
  function XorBits(a: nat, b: nat, n: nat): (r: nat)
    ensures r < Pow2(n)
  {
    if n == 0 then 0 else Flip(a, b) + 2 * XorBits(a / 2, b / 2, n - 1)
  }

  function Xor(a: byte, b: byte): byte {
    assert Pow2(8) == 256;
    XorBits(a, b, 8)
  }

  lemma {:induction false} XorBitsTwice(a: nat, b: nat, n: nat)
    requires a < Pow2(n)
    ensures XorBits(XorBits(a, b, n), b, n) == a
  {
    hide Flip;
    if n > 0 {
      var rest := XorBits(a / 2, b / 2, n - 1);
      XorBitsTwice(a / 2, b / 2, n - 1);
      FlipTwice(a, b, rest);
    }
  }

  lemma FlipTwice(a: nat, b: nat, rest: nat)
    ensures Flip(Flip(a, b) + 2 * rest, b) == a % 2
    ensures (Flip(a, b) + 2 * rest) / 2 == rest
  {
    HalfOf(Flip(a, b), rest);
  }

  function XorSeq(s: seq<byte>, k: seq<byte>): (r: seq<byte>)
    requires |s| <= |k|
    ensures |r| == |s|
  {
    seq(|s|, i requires 0 <= i < |s| => Xor(s[i], k[i]))
  }

  /** Masking twice with one keystream gives the plain text back. */
  lemma XorSeqTwice(s: seq<byte>, k: seq<byte>)
    requires |s| <= |k|
    ensures XorSeq(XorSeq(s, k), k) == s
  {
    assert Pow2(8) == 256;
    forall i | 0 <= i < |s|
      ensures XorSeq(XorSeq(s, k), k)[i] == s[i]
    {
      XorBitsTwice(s[i], k[i], 8);
    }
  }

  lemma {:induction false} XorBitsInjective(a: nat, x: nat, y: nat, n: nat)
    requires x < Pow2(n) && y < Pow2(n) && XorBits(a, x, n) == XorBits(a, y, n)
    ensures x == y
  {
    hide Flip;
    if n > 0 {
      FlipInjective(a, x, y, XorBits(a / 2, x / 2, n - 1), XorBits(a / 2, y / 2, n - 1));
      XorBitsInjective(a / 2, x / 2, y / 2, n - 1);
    }
  }

  lemma FlipInjective(a: nat, x: nat, y: nat, p: nat, q: nat)
    requires Flip(a, x) + 2 * p == Flip(a, y) + 2 * q
    ensures p == q && x % 2 == y % 2
  {
    HalfOf(Flip(a, x), p);
    HalfOf(Flip(a, y), q);
  }

  /** Two key streams mask the same bytes differently unless they are the same. */
  lemma XorSeqInjective(s: seq<byte>, k: seq<byte>, l: seq<byte>)
    requires |s| == |k| == |l| && XorSeq(s, k) == XorSeq(s, l)
    ensures k == l
  {
    assert Pow2(8) == 256;
    forall i | 0 <= i < |s|
      ensures k[i] == l[i]
    {
      assert XorSeq(s, k)[i] == XorSeq(s, l)[i];
      XorBitsInjective(s[i], k[i], l[i], 8);
    }
  }

  // ---- Byte orders ----

  /** `storeu_be<uint16_t>`: the high byte first. */
  function BE16(n: nat): (r: seq<byte>)
    requires n < 0x1_0000
    ensures |r| == 2
  {
    assert n / 256 < 256;
    [n / 256, n % 256]
  }

  /** `loadu_be<uint16_t>`. */
  function Load16(s: seq<byte>): (r: nat)
    requires |s| == 2
    ensures r < 0x1_0000
  {
    var hi: nat, lo: nat := s[0], s[1];
    256 * hi + lo
  }

  /** `htonl` followed by a store. */
  function BE32(n: nat): (r: seq<byte>)
    requires n < 0x1_0000_0000
    ensures |r| == 4
  {
    BE16(n / 0x1_0000) + BE16(n % 0x1_0000)
  }

  function Load32(s: seq<byte>): (r: nat)
    requires |s| == 4
    ensures r < 0x1_0000_0000
  {
    0x1_0000 * Load16(s[..2]) + Load16(s[2..])
  }

  lemma LoadUndoesStore(n: nat)
    ensures n < 0x1_0000 ==> Load16(BE16(n)) == n
    ensures n < 0x1_0000_0000 ==> Load32(BE32(n)) == n
  {
    if n < 0x1_0000_0000 {
      assert BE32(n)[..2] == BE16(n / 0x1_0000);
      assert BE32(n)[2..] == BE16(n % 0x1_0000);
    }
  }

  /** The first byte is the most significant one. */
  lemma HighByteFirst(n: nat)
    ensures n < 0x1_0000 ==> BE16(n)[0] == n / 0x100 && BE16(n)[1] == n % 0x100
    ensures n < 0x1_0000_0000 ==>
              BE32(n) == [n / 0x100_0000, n / 0x1_0000 % 0x100, n / 0x100 % 0x100, n % 0x100]
  {
    if n < 0x1_0000_0000 {
      var hi, lo := n / 0x1_0000, n % 0x1_0000;
      FourDigits(hi / 0x100, hi % 0x100, lo / 0x100, lo % 0x100);
    }
  }

  lemma FourDigits(a: nat, b: nat, c: nat, d: nat)
    requires a < 0x100 && b < 0x100 && c < 0x100 && d < 0x100
    ensures var n := 0x1_0000 * (0x100 * a + b) + (0x100 * c + d);
            n / 0x100_0000 == a && n / 0x1_0000 % 0x100 == b && n / 0x100 % 0x100 == c && n % 0x100 == d
  {
    var n := 0x1_0000 * (0x100 * a + b) + (0x100 * c + d);
    assert n / 0x100 == 0x1_0000 * a + 0x100 * b + c;
    assert n / 0x1_0000 == 0x100 * a + b;
  }

  // ---- Large little-endian and big-endian numbers ----

  function Pow256(n: nat): (r: nat)
    ensures r > 0
  {
    if n == 0 then 1 else 256 * Pow256(n - 1)
  }

  function FromLE(s: seq<byte>): (r: nat)
    ensures r < Pow256(|s|)
  {
    if s == [] then 0 else s[0] + 256 * FromLE(s[1..])
  }

  function FromBE(s: seq<byte>): nat {
    if s == [] then 0 else 256 * FromBE(s[..|s| - 1]) + s[|s| - 1]
  }

  function ToLE(v: nat, n: nat): (r: seq<byte>)
    decreases n
    ensures |r| == n
  {
    if n == 0 then [] else [v % 256] + ToLE(v / 256, n - 1)
  }

  function ToBE(v: nat, n: nat): (r: seq<byte>)
    decreases n
    ensures |r| == n
  {
    if n == 0 then [] else ToBE(v / 256, n - 1) + [v % 256]
  }

  function Reverse(s: seq<byte>): (r: seq<byte>)
    ensures |r| == |s|
  {
    seq(|s|, i requires 0 <= i < |s| => s[|s| - 1 - i])
  }

  /** Reversal takes the parts of a sequence in the opposite order, down to single bytes. */
  lemma ReverseParts(s: seq<byte>, t: seq<byte>)
    ensures Reverse(s + t) == Reverse(t) + Reverse(s)
    ensures |s| == 1 ==> Reverse(s) == s
  {
  }

  /** The first byte of a big-endian number carries its highest digits. */
  lemma {:induction false} SplitFirst(b: byte, s: seq<byte>)
    ensures FromBE([b] + s) == Pow256(|s|) * b + FromBE(s)
  {
    if s == [] {
      assert [b] + s == [b] && [b][..0] == [];
    } else {
      var front, last := s[..|s| - 1], s[|s| - 1];
      SplitFirst(b, front);
      assert ([b] + s)[..|s|] == [b] + front;
      Distribute(FromBE(front), Pow256(|front|), b);
    }
  }

  lemma {:induction false} BigEndianReversed(s: seq<byte>)
    ensures FromBE(Reverse(s)) == FromLE(s)
  {
    if s != [] {
      BigEndianReversed(s[1..]);
      assert Reverse(s)[..|s| - 1] == Reverse(s[1..]);
    }
  }

  lemma {:induction false} ToBigEndianReversed(v: nat, n: nat)
    ensures Reverse(ToBE(v, n)) == ToLE(v, n)
  {
    if n > 0 {
      ToBigEndianReversed(v / 256, n - 1);
    }
  }

  lemma {:induction false} DecodeEncoded(v: nat, n: nat)
    requires v < Pow256(n)
    ensures FromLE(ToLE(v, n)) == v
  {
    if n > 0 {
      DecodeEncoded(v / 256, n - 1);
      assert ToLE(v, n)[1..] == ToLE(v / 256, n - 1);
    }
  }

  lemma Distribute(x: int, p: int, d: int)
    ensures 256 * (x + p * d) == 256 * x + (256 * p) * d
  {
  }

  /** The last byte of a little-endian number carries its highest digits. */
  lemma {:induction false} SplitLast(s: seq<byte>)
    requires s != []
    ensures FromLE(s) == FromLE(s[..|s| - 1]) + Pow256(|s| - 1) * s[|s| - 1]
  {
    if |s| > 1 {
      var front, last := s[..|s| - 1], s[|s| - 1];
      SplitLast(s[1..]);
      assert s[1..][..|s| - 2] == front[1..];
      assert FromLE(front) == s[0] + 256 * FromLE(front[1..]);
      Distribute(FromLE(front[1..]), Pow256(|s| - 2), last);
    }
  }
}
