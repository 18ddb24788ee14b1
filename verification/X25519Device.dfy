/** X25519 and key encryption as the device does them: in place, around a big-endian primitive. */
module X25519Device {
  import opened Bytes
  import opened Wrappers
  import opened Curve

  /** What the device computes: the point's top bit is passed on, not masked. */
  function DeviceX25519(c: Crypto, k: Block, u: Block): Option<Block> {
    if c.Refuses(DecodeScalar(k), FromLE(u)) then None
    else Some(ToLE(c.Mul(DecodeScalar(k), FromLE(u)), 32))
  }

  predicate FollowsRfc(c: Crypto, k: Block, u: Block) {
    DeviceX25519(c, k, u) ==
    if c.Refuses(DecodeScalar(k), FromLE(u)) then None else Some(X25519(c, k, u))
  }

  /** The device follows RFC 7748 for every multiplication primitive iff the top bit is clear. */
  lemma FollowsRfcIff(k: Block, u: Block)
    ensures (forall c: Crypto :: FollowsRfc(c, k, u)) <==> u[31] < 128
  {
    TopBit(u);
    if u[31] >= 128 {
      var c := Crypto((k: nat, u: nat) => if u < P255 then 0 else 1, (k: nat, u: nat) => false,
                      (m: seq<byte>) => seq(32, i => 0), (m: seq<byte>) => seq(32, i => 0),
                      (path: seq<nat>) => None);
      assert DecodeU(u) < P255 && FromLE(u) >= P255 by {
        SplitTop(u);
      }
      assert c.Mul(DecodeScalar(k), FromLE(u)) == 1 && c.Mul(DecodeScalar(k), DecodeU(u)) == 0;
      assert ToLE(1, 32)[0] == 1 && ToLE(0, 32)[0] == 0;
      assert !FollowsRfc(c, k, u);
    }
  }

  // ---- In-place implementation ----

  /** Reverses `a[first..last]`; both bounds move towards each other. */
  method ReverseBytes(a: array<byte>, first: nat, last: nat)
    requires first <= last <= a.Length
    modifies a
    ensures a[first..last] == Reverse(old(a[first..last]))
    ensures a[..first] == old(a[..first]) && a[last..] == old(a[last..])
  {
    var i, j := first, last;
    while true
      invariant first <= i <= j <= last && i - first == last - j
      invariant forall k | 0 <= k < first || last <= k < a.Length || i <= k < j :: a[k] == old(a[k])
      invariant forall k | first <= k < i || j <= k < last :: a[k] == old(a[first + last - 1 - k])
      decreases j - i
    {
      if i == j {
        break;
      }
      j := j - 1;
      if i == j {
        break;
      }
      a[j], a[i] := a[i], a[j];
      i := i + 1;
    }
    ghost var was := old(a[..]);
    forall k | first <= k < last
      ensures a[k] == was[first + last - 1 - k]
    {
      assert k < i || j <= k || k == i == first + last - 1 - k;
    }
    assert was[first..last] == old(a[first..last]);
    ReversedRange(was, a[..], first, last);
  }

  lemma ReversedRange(was: seq<byte>, now: seq<byte>, first: nat, last: nat)
    requires first <= last <= |was| == |now|
    requires forall k | first <= k < last :: now[k] == was[first + last - 1 - k]
    ensures now[first..last] == Reverse(was[first..last])
  {
  }

  /** `cx_ecfp_scalar_mult`: both operands and the result are big-endian, after one prefix byte. */
  method ScalarMult(c: Crypto, point: array<byte>, scalar: seq<byte>) returns (n: nat)
    requires point.Length == 33 && |scalar| == 32
    modifies point
    ensures c.Refuses(FromBE(scalar), FromBE(old(point[1..]))) ==> n == 0
    ensures !c.Refuses(FromBE(scalar), FromBE(old(point[1..]))) ==>
              n == 33 && point[1..] == ToBE(c.Mul(FromBE(scalar), FromBE(old(point[1..]))), 32)
  {
    var k, u := FromBE(scalar), FromBE(point[1..]);
    if c.Refuses(k, u) {
      return 0;
    }
    Put(point, 1, ToBE(c.Mul(k, u), 32));
    assert point[1..] == point[..33][1..];
    return 33;
  }

  /** The three masks, in place. */
  method Clamp(scalar: array<byte>)
    requires scalar.Length == 32
    modifies scalar
    ensures scalar[..] == Clamped(old(scalar[..]))
  {
    scalar[0] := scalar[0] - scalar[0] % 8;
    scalar[31] := scalar[31] % 128;
    scalar[31] := scalar[31] % 64 + 64;
  }

  /** The clamped scalar, most significant byte first. */
  method LoadScalar(privScalar: Block) returns (scalar: array<byte>)
    ensures fresh(scalar) && scalar[..] == Reverse(Clamped(privScalar))
  {
    hide Reverse;
    hide Clamped;
    scalar := new byte[32](_ => 0);
    Put(scalar, 0, privScalar);
    assert scalar[..] == scalar[..32] == privScalar;
    Clamp(scalar);
    assert scalar[0..32] == scalar[..];
    ReverseBytes(scalar, 0, 32);
    assert scalar[..] == scalar[0..32];
  }

  /** The point after its prefix byte, most significant byte first. */
  method LoadPoint(pubPoint: Block) returns (point: array<byte>)
    ensures fresh(point) && point.Length == 33 && point[1..33] == Reverse(pubPoint)
  {
    hide Reverse;
    point := new byte[33](_ => 0);
    point[0] := 2;
    Put(point, 1, pubPoint);
    assert point[1..33] == point[..33][1..] == pubPoint;
    ReverseBytes(point, 1, 33);
  }

  method Multiply(c: Crypto, out: array<byte>, at: nat, pubPoint: Block, privScalar: Block) returns (ret: bool)
    requires at + 32 <= out.Length
    modifies out
    ensures var r := DeviceX25519(c, privScalar, pubPoint);
            && ret == r.Some?
            && out[..] == if r.Some? then Overlay(old(out[..]), at, r.value) else old(out[..])
  {
    hide FromLE, FromBE, ToBE, ToLE, Reverse, DecodeScalar, Clamped, Overlay;
    var scalar := LoadScalar(privScalar);
    var point := LoadPoint(pubPoint);
    OperandsDecode(privScalar, pubPoint, scalar[..], point[1..33]);
    assert point[1..] == point[1..33];
    var n := ScalarMult(c, point, scalar[..]);
    if n == 0 {
      return false;
    }
    assert point[1..33] == point[1..];
    ToBigEndianReversed(c.Mul(DecodeScalar(privScalar), FromLE(pubPoint)), 32);
    ReverseBytes(point, 1, 33);
    Memcpy(out, at, point[1..33]);
    return true;
  }

  lemma OperandsDecode(k: Block, u: Block, scalar: seq<byte>, point: seq<byte>)
    requires scalar == Reverse(Clamped(k)) && point == Reverse(u)
    ensures FromBE(scalar) == DecodeScalar(k) && FromBE(point) == FromLE(u)
  {
    BigEndianReversed(Clamped(k));
    ClampDecodes(k);
    BigEndianReversed(u);
  }

  // ---- Encryption of a key for a caller ----

  /** Both ends hash the shared secret, then the caller's, then the application's public key. */
  function KeyStream(c: Crypto, secret: Block, callerPub: Block, appPub: Block): Block {
    c.Blake2b(secret + callerPub + appPub)
  }

  /** Exactly the 96 bytes of the shared secret, the caller's and the application's public key are hashed,
      in this order: a hash that returns one 32-byte part of its message shows each. */
  lemma KeyStreamHashesAll(c: Crypto, secret: Block, callerPub: Block, appPub: Block, i: nat)
    requires i < 3 && forall m | |m| == 96 :: c.blake2b(m) == m[32 * i..32 * i + 32]
    ensures KeyStream(c, secret, callerPub, appPub) == [secret, callerPub, appPub][i]
  {
    var m := secret + callerPub + appPub;
    assert m[0..32] == secret && m[32..64] == callerPub && m[64..96] == appPub;
  }

  /** Two different secrets have one key stream only if the hash collides. */
  lemma KeyStreamNeedsSecret(c: Crypto, secret: Block, other: Block, callerPub: Block, appPub: Block)
    requires secret != other && KeyStream(c, secret, callerPub, appPub) == KeyStream(c, other, callerPub, appPub)
    ensures exists a: seq<byte>, b: seq<byte> :: a != b && c.blake2b(a) == c.blake2b(b)
  {
    var a, b := secret + callerPub + appPub, other + callerPub + appPub;
    assert a[..32] == secret && b[..32] == other;
    assert c.blake2b(a) == c.blake2b(b);
  }

  datatype Encryption = Failed | FailedAfter(pub: Block) | Sealed(pub: Block, body: Block)

  function Encrypt(c: Crypto, key: Block, random: Block, callerPub: Block): Encryption {
    match DeviceX25519(c, random, BasePoint())
    case None => Failed
    case Some(pub) =>
      match DeviceX25519(c, random, callerPub)
      case None => FailedAfter(pub)
      case Some(secret) => Sealed(pub, XorSeq(key, KeyStream(c, secret, callerPub, pub)))
  }

  /** What encryption computes, from the multiplication, the base point 9 and the hash alone: the fresh
      public key, and the key masked with the hash of secret, caller's and fresh public key. */
  lemma SealedInBytes(c: Crypto, key: Block, random: Block, callerPub: Block)
    ensures var k, e := DecodeScalar(random), Encrypt(c, key, random, callerPub);
            var pub, secret := ToLE(c.scalarMult(k, 9), 32), ToLE(c.scalarMult(k, FromLE(callerPub)), 32);
            if c.refuses(k, 9) then e == Failed
            else if c.refuses(k, FromLE(callerPub)) then e == FailedAfter(pub)
            else e == Sealed(pub, XorSeq(key, c.blake2b(secret + callerPub + pub)))
  {
    BasePointDecodes();
    hide DecodeScalar, FromLE, ToLE, XorSeq, BasePoint;
  }

  /** The buffer after an encryption of the key at offset 32 with the public key going to 0. */
  function AfterEncryption(buf: seq<byte>, e: Encryption): seq<byte>
    requires |buf| >= 64
  {
    match e
    case Failed => buf
    case FailedAfter(pub) => Overlay(buf, 0, pub)
    case Sealed(pub, body) => Overlay(buf, 0, pub + body)
  }

  /** What encryption leaves in the buffer: nothing of a first failure, the fresh public key before a
      second one, and that and the masked key otherwise. */
  lemma BufferInBytes(c: Crypto, buf: seq<byte>, random: Block, callerPub: Block)
    requires |buf| >= 64
    ensures var k := DecodeScalar(random);
            var b := AfterEncryption(buf, Encrypt(c, buf[32..64], random, callerPub));
            var pub := ToLE(c.scalarMult(k, 9), 32);
            && |b| == |buf| && b[64..] == buf[64..]
            && (c.refuses(k, 9) ==> b == buf)
            && (!c.refuses(k, 9) ==>
                  b[..32] == pub && (c.refuses(k, FromLE(callerPub)) ==> b[32..64] == buf[32..64]))
  {
    SealedInBytes(c, buf[32..64], random, callerPub);
    AfterInBytes(buf, Encrypt(c, buf[32..64], random, callerPub));
    hide DecodeScalar, FromLE, ToLE, XorSeq, Encrypt, AfterEncryption;
  }

  lemma AfterInBytes(buf: seq<byte>, e: Encryption)
    requires |buf| >= 64
    ensures var b := AfterEncryption(buf, e);
            && |b| == |buf| && b[64..] == buf[64..]
            && match e
               case Failed => b == buf
               case FailedAfter(pub) => b[..32] == pub && b[32..64] == buf[32..64]
               case Sealed(pub, body) => b[..32] == pub && b[32..64] == body
  {
    if e.Sealed? {
      assert (e.pub + e.body)[..32] == e.pub && (e.pub + e.body)[32..] == e.body;
      assert AfterEncryption(buf, e)[..64] == e.pub + e.body;
    }
  }

  /** The loop `key[i] ^= keystream[i]` of both programs. */
  method XorInto(buf: array<byte>, at: nat, keystream: Block)
    requires at + 32 <= buf.Length
    modifies buf
    ensures buf[..] == Overlay(old(buf[..]), at, XorSeq(old(buf[at..at + 32]), keystream))
  {
    hide Xor;
    ghost var body := XorSeq(buf[at..at + 32], keystream);
    for i := 0 to 32
      invariant forall k | 0 <= k < i :: buf[at + k] == body[k]
      invariant forall k | 0 <= k < at || at + i <= k < buf.Length :: buf[k] == old(buf[k])
    {
      buf[at + i] := Xor(buf[at + i], keystream[i]);
    }
    assert buf[at..at + 32] == body;
    assert buf[..] == buf[..at] + buf[at..at + 32] + buf[at + 32..];
    assert buf[..at] == old(buf[..at]) && buf[at + 32..] == old(buf[at + 32..]);
  }

  /** `X25519EncryptKPKey(&buf[32], &buf[0], callerPub)`; `random` is what the RNG delivers. */
  method EncryptKPKey(c: Crypto, buf: array<byte>, callerPub: Block, random: Block) returns (ret: bool)
    requires buf.Length >= 64
    modifies buf
    ensures var e := Encrypt(c, old(buf[32..64]), random, callerPub);
            ret == e.Sealed? && buf[..] == AfterEncryption(old(buf[..]), e)
  {
    hide DeviceX25519, XorSeq, KeyStream, BasePoint;
    ghost var before := buf[..];
    ret := Multiply(c, buf, 0, BasePoint(), random);
    if !ret {
      return;
    }
    var secret := new byte[32](_ => 0);
    ret := Multiply(c, secret, 0, callerPub, random);
    if !ret {
      return;
    }
    WholeOverlay(secret[..], DeviceX25519(c, random, callerPub).value);
    var keystream := KeyStream(c, secret[..], callerPub, buf[..32]);
    ghost var pub := DeviceX25519(c, random, BasePoint()).value;
    assert buf[..32] == pub && buf[32..64] == before[32..64];
    XorInto(buf, 32, keystream);
    TwoOverlays(before, pub, XorSeq(before[32..64], keystream));
  }

  lemma WholeOverlay(s: Block, t: Block)
    requires exists d: Block :: s == Overlay(d, 0, t)
    ensures s == t
  {
  }

  lemma TwoOverlays(s: seq<byte>, a: Block, b: Block)
    requires |s| >= 64
    ensures Overlay(Overlay(s, 0, a), 32, b) == Overlay(s, 0, a + b)
  {
  }
}
