/** The host's side of the key exchange, and why it undoes the device's encryption. */
module KeyExchange {
  import opened Bytes
  import opened Wrappers
  import opened Curve
  import opened X25519Device

  /** libsodium's `crypto_scalarmult` reports failure for the all-zero result. */
  function HostScalarMult(c: Crypto, priv: Block, pub: Block): Option<Block> {
    var secret := X25519(c, priv, pub);
    if c.Mul(DecodeScalar(priv), DecodeU(pub)) == 0 then None else Some(secret)
  }

  function HostDecrypt(c: Crypto, body: Block, appPub: Block, ownPub: Block, ownPriv: Block): Option<Block> {
    match HostScalarMult(c, ownPriv, appPub)
    case None => None
    case Some(secret) => Some(XorSeq(body, KeyStream(c, secret, ownPub, appPub)))
  }

  /** `X25519DecryptKey`: decrypts the key in place. */
  method X25519DecryptKey(c: Crypto, key: array<byte>, appPub: Block, ownPub: Block, ownPriv: Block) returns (ok: bool)
    requires key.Length == 32
    modifies key
    ensures var r := HostDecrypt(c, old(key[..]), appPub, ownPub, ownPriv);
            ok == r.Some? && key[..] == if r.Some? then r.value else old(key[..])
  {
    match HostScalarMult(c, ownPriv, appPub)
    case None =>
      return false;
    case Some(secret) =>
      assert key[0..32] == key[..];
      XorInto(key, 0, KeyStream(c, secret, ownPub, appPub));
      return true;
  }

  /** Diffie-Hellman: the order of the two multiplications does not matter. */
  ghost predicate Commutes(c: Crypto) {
    forall a: nat, b: nat :: c.Mul(a, c.Mul(b, BASE)) == c.Mul(b, c.Mul(a, BASE))
  }

  /** A computed public key decodes to the coordinate it encodes, with its top bit clear. */
  lemma CoordinateDecodes(v: Coordinate)
    ensures FromLE(ToLE(v, 32)) == DecodeU(ToLE(v, 32)) == v
  {
    Powers();
    DecodeEncoded(v, 32);
  }

  function PublicKey(c: Crypto, priv: Block): Block {
    X25519(c, priv, BasePoint())
  }

  /** Both ends of an exchange with each other's public keys compute one secret. */
  lemma SameSecret(c: Crypto, hostPriv: Block, random: Block)
    requires Commutes(c)
    ensures var d := DecodeScalar(random);
            ToLE(c.Mul(d, FromLE(PublicKey(c, hostPriv))), 32) == X25519(c, hostPriv, ToLE(c.Mul(d, BASE), 32))
  {
    hide DecodeScalar, FromLE, ToLE, DecodeU;
    var h, d := DecodeScalar(hostPriv), DecodeScalar(random);
    BasePointDecodes();
    CoordinateDecodes(c.Mul(h, BASE));
    CoordinateDecodes(c.Mul(d, BASE));
  }

  /** The shared secret of a host and a device key is the one value for which the host fails. */
  predicate DegenerateSecret(c: Crypto, hostPriv: Block, random: Block) {
    c.Mul(DecodeScalar(hostPriv), c.Mul(DecodeScalar(random), BASE)) == 0
  }

  /** Host decryption recovers exactly the key the device encrypted, for all ephemeral keys. */
  lemma DecryptUndoesEncrypt(c: Crypto, key: Block, hostPriv: Block, random: Block)
    requires Commutes(c)
    requires Encrypt(c, key, random, PublicKey(c, hostPriv)).Sealed?
    ensures var e := Encrypt(c, key, random, PublicKey(c, hostPriv));
            HostDecrypt(c, e.body, e.pub, PublicKey(c, hostPriv), hostPriv) ==
            if DegenerateSecret(c, hostPriv, random) then None else Some(key)
  {
    hide DecodeScalar, FromLE, ToLE, DecodeU, XorSeq, PublicKey;
    var d := DecodeScalar(random);
    SameSecret(c, hostPriv, random);
    BasePointDecodes();
    CoordinateDecodes(c.Mul(d, BASE));
    var e := Encrypt(c, key, random, PublicKey(c, hostPriv));
    XorSeqTwice(key, KeyStream(c, X25519(c, hostPriv, e.pub), PublicKey(c, hostPriv), e.pub));
  }

  // ---- Modular exponentiation is an instance ----

  const PRIME: nat := P255 - 19

  function Power(x: nat, n: nat): nat {
    if n == 0 then 1 else x * Power(x, n - 1)
  }

  function ModExp(k: nat, u: nat): Coordinate {
    Power(u, k) % PRIME
  }

  lemma ModAdd(q: int, r: int)
    ensures (PRIME * q + r) % PRIME == r % PRIME
  {
  }

  lemma ModMul(x: nat, y: nat)
    ensures (x % PRIME) * y % PRIME == x * y % PRIME
  {
    var q, r := x / PRIME, x % PRIME;
    assert x * y == PRIME * (q * y) + r * y by {
      Expand(PRIME, q, r, y);
    }
    ModAdd(q * y, r * y);
  }

  lemma Expand(p: int, q: int, r: int, y: int)
    ensures (p * q + r) * y == p * (q * y) + r * y
  {
  }

  lemma {:induction false} PowerOfRemainder(x: nat, n: nat)
    ensures Power(x % PRIME, n) % PRIME == Power(x, n) % PRIME
  {
    if n > 0 {
      var r := x % PRIME;
      calc {
        r * Power(r, n - 1) % PRIME;
        { ModMul(x, Power(r, n - 1)); }
        x * Power(r, n - 1) % PRIME;
        { ModMul(Power(r, n - 1), x); Swap(x, Power(r, n - 1)); }
        (Power(r, n - 1) % PRIME) * x % PRIME;
        { PowerOfRemainder(x, n - 1); }
        (Power(x, n - 1) % PRIME) * x % PRIME;
        { ModMul(Power(x, n - 1), x); Swap(x, Power(x, n - 1)); }
        x * Power(x, n - 1) % PRIME;
      }
    }
  }

  lemma Swap(a: int, b: int)
    ensures a * b == b * a
  {
  }

  lemma {:induction false} PowerSum(x: nat, m: nat, n: nat)
    ensures Power(x, m + n) == Power(x, m) * Power(x, n)
  {
    if m > 0 {
      PowerSum(x, m - 1, n);
      assert x * (Power(x, m - 1) * Power(x, n)) == (x * Power(x, m - 1)) * Power(x, n);
    }
  }

  lemma {:induction false} PowerProduct(x: nat, m: nat, n: nat)
    ensures Power(Power(x, m), n) == Power(x, m * n)
  {
    if n > 0 {
      PowerProduct(x, m, n - 1);
      PowerSum(x, m, m * (n - 1));
      assert m + m * (n - 1) == m * n;
    }
  }

  /** The hypothesis can be met: modular exponentiation commutes. */
  lemma ModExpCommutes(c: Crypto)
    requires forall k: nat, u: nat :: c.Mul(k, u) == ModExp(k, u)
    ensures Commutes(c)
  {
    forall a: nat, b: nat
      ensures c.Mul(a, c.Mul(b, BASE)) == c.Mul(b, c.Mul(a, BASE))
    {
      PowerOfRemainder(Power(BASE, b), a);
      PowerOfRemainder(Power(BASE, a), b);
      PowerProduct(BASE, b, a);
      PowerProduct(BASE, a, b);
      Swap(a, b);
    }
  }
}
