/** X25519 as RFC 7748 defines it, and the key stream both ends of the protocol derive. */
module Curve {
  import opened Bytes
  import opened Wrappers

  const P255: nat := 0x8000_0000_0000_0000_0000_0000_0000_0000_0000_0000_0000_0000_0000_0000_0000_0000
  const P254: nat := 0x4000_0000_0000_0000_0000_0000_0000_0000_0000_0000_0000_0000_0000_0000_0000_0000
  const P248: nat := 0x1_0000_0000_0000_0000_0000_0000_0000_0000_0000_0000_0000_0000_0000_0000_0000_00

  /** A u-coordinate as multiplication returns it: it fits 255 bits. */
  type Coordinate = n: nat | n < P255

  const BASE: Coordinate := 9

  /**
   Foreign cryptography. `scalarMult` is multiplication of a u-coordinate by an integer,
   `refuses` tells when the device's primitive reports failure instead. The two hashes and the
   key derivation are arbitrary functions; `derive` may be refused by the operating system.
   */
  datatype Crypto = Crypto(
    scalarMult: (nat, nat) -> Coordinate,
    refuses: (nat, nat) -> bool,
    blake2b: seq<byte> -> Block,
    sha256: seq<byte> -> Block,
    derive: seq<nat> -> Option<Node>)
  {
    function Mul(k: nat, u: nat): Coordinate { scalarMult(k, u) }

    predicate Refuses(k: nat, u: nat) { refuses(k, u) }

    function Blake2b(m: seq<byte>): Block { blake2b(m) }

    function Sha256(m: seq<byte>): Block { sha256(m) }

    function Derive(path: seq<nat>): Option<Node> { derive(path) }
  }

  /** Private key followed by chain code. */
  type Node = s: seq<byte> | |s| == 64 witness seq(64, i => 0)

  // ---- RFC 7748, section 5 ----

  /** decodeScalar25519: bits 0, 1, 2 and 255 cleared, bit 254 set. */
  function DecodeScalar(k: Block): nat {
    P254 + FromLE(k) % P254 / 8 * 8
  }

  /** decodeUCoordinate for 255 bits: the most significant bit is ignored. */
  function DecodeU(u: Block): nat {
    FromLE(u) % P255
  }

  function X25519(c: Crypto, k: Block, u: Block): Block {
    ToLE(c.Mul(DecodeScalar(k), DecodeU(u)), 32)
  }

  function BasePoint(): Block {
    [9] + seq(31, i => 0)
  }

  // ---- Bytes and numbers ----

  lemma Powers()
    ensures Pow256(31) == P248 && Pow256(32) == 2 * P255
    ensures P254 == 64 * P248 && P255 == 128 * P248
  {
    assert Pow256(4) == 0x1_0000_0000;
    PowAdd(4, 4);
    PowAdd(8, 8);
    PowAdd(16, 8);
    PowAdd(24, 4);
    PowAdd(28, 3);
    assert Pow256(3) == 0x100_0000;
    assert Pow256(32) == 256 * Pow256(31);
  }

  lemma {:induction false} PowAdd(m: nat, n: nat)
    ensures Pow256(m + n) == Pow256(m) * Pow256(n)
  {
    if m > 0 {
      PowAdd(m - 1, n);
      Associate(Pow256(m - 1), Pow256(n));
    }
  }

  lemma Associate(a: nat, b: nat)
    ensures 256 * (a * b) == (256 * a) * b
  {
  }

  lemma SplitTop(s: Block)
    ensures FromLE(s) == FromLE(s[..31]) + P248 * s[31] && FromLE(s[..31]) < P248
  {
    Powers();
    SplitLast(s);
  }

  /** The top bit of a point matters exactly when it is set. */
  lemma TopBit(u: Block)
    ensures DecodeU(u) == FromLE(u) <==> u[31] < 128
  {
    hide FromLE;
    SplitTop(u);
    Reduced(FromLE(u[..31]), u[31]);
  }

  lemma Reduced(low: int, top: int)
    requires 0 <= low < P248 && 0 <= top < 256
    ensures (low + P248 * top) % P255 == low + P248 * top <==> top < 128
  {
  }

  /** What `clamp` leaves in the 32 bytes, before the reversal. */
  function Clamped(k: Block): Block {
    assert k[0] - k[0] % 8 >= 0;
    k[0 := k[0] - k[0] % 8][31 := k[31] % 64 + 64]
  }

  lemma ClampDecodes(k: Block)
    ensures FromLE(Clamped(k)) == DecodeScalar(k)
  {
    var c := Clamped(k);
    SplitTop(k);
    SplitTop(c);
    assert c[..31][1..] == k[..31][1..];
    var rest, low: int, top: int := FromLE(k[..31][1..]), k[0], k[31];
    assert FromLE(k[..31]) == low + 256 * rest;
    assert FromLE(c[..31]) == (low - low % 8) + 256 * rest;
    Clamping(rest, low, top);
  }

  lemma Clamping(rest: int, low: int, top: int)
    requires 0 <= rest && 0 <= low < 256 && 0 <= top < 256 && low + 256 * rest < P248
    ensures P254 + (low + 256 * rest + P248 * top) % P254 / 8 * 8 ==
            (low - low % 8) + 256 * rest + P248 * (top % 64 + 64)
  {
    var n := low + 256 * rest + P248 * top;
    var r := low + 256 * rest + P248 * (top % 64);
    assert n == P254 * (top / 64) + r && 0 <= r < P254;
    assert n % P254 == r;
    assert r / 8 * 8 == (low - low % 8) + 256 * rest + P248 * (top % 64);
  }

  lemma BasePointDecodes()
    ensures FromLE(BasePoint()) == DecodeU(BasePoint()) == BASE
  {
    ZeroTail(31);
    assert BasePoint()[1..] == seq(31, i => 0);
  }

  lemma {:induction false} ZeroTail(n: nat)
    ensures FromLE(seq(n, i => 0)) == 0
  {
    if n > 0 {
      ZeroTail(n - 1);
      assert seq(n, i => 0)[1..] == seq(n - 1, i => 0);
    }
  }
}
