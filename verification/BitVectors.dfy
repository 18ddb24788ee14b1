/** The arithmetic readings of the C bit operators agree with the operators on 8-bit words. */
module BitVectors {
  import opened Bytes
  import Curve

  function Number(v: bv8): nat { v as int }

  function Lowest(v: bv8): nat { if v & 1 == 1 then 1 else 0 }

  function Halve(v: bv8): bv8 { v >> 1 }

  function Or(v: bv8, k: nat): bv8
    requires k < 8
  {
    v | (1 << k)
  }

  function ExclusiveOr(v: bv8, w: bv8): bv8 { v ^ w }

  lemma Digits(v: bv8)
    ensures Number(v) / 2 == Number(Halve(v)) && Number(v) % 2 == Lowest(v)
  {
  }

  lemma {:induction false} ShiftTestsBit(v: bv8, k: nat)
    requires k < 8
    ensures Bit(v as int, k) <==> (v >> k) & 1 == 1
    decreases k
  {
    Digits(v);
    if k > 0 {
      ShiftTestsBit(v >> 1, k - 1);
      ShiftOnce(v, k);
    }
  }

  lemma ShiftOnce(v: bv8, k: nat)
    requires 0 < k < 8
    ensures (v >> 1) >> (k - 1) == v >> k
  {
    if k == 1 {} else if k == 2 {} else if k == 3 {} else if k == 4 {} else if k == 5 {} else if k == 6 {} else {}
  }

  /** `v | (1 << k)` is `SetBit`. */
  lemma OrSetsBit(v: bv8, k: nat)
    requires k < 8
    ensures (v | (1 << k)) as int == SetBit(v as int, k)
  {
    hide SetBit;
    OrDigits(v, k);
  }

  lemma {:induction false} OrDigits(v: bv8, k: nat)
    requires k < 8
    ensures Number(Or(v, k)) == SetBit(Number(v), k)
    decreases k
  {
    hide Number, Lowest, Halve, Or;
    Digits(v);
    Digits(Or(v, k));
    OrHalved(v, k);
    if k > 0 {
      OrDigits(Halve(v), k - 1);
    }
  }

  lemma OrHalved(v: bv8, k: nat)
    requires k < 8
    ensures Halve(Or(v, k)) == if k == 0 then Halve(v) else Or(Halve(v), k - 1)
    ensures Lowest(Or(v, k)) == if k == 0 then 1 else Lowest(v)
  {
    if k == 0 {} else if k == 1 {} else if k == 2 {} else if k == 3 {}
    else if k == 4 {} else if k == 5 {} else if k == 6 {} else {}
  }

  /** `v ^ w` is `Xor`. */
  lemma ExclusiveOrIsXor(v: bv8, w: bv8)
    ensures (v ^ w) as int == Xor(v as int, w as int)
  {
    hide XorBits;
    assert Pow2(8) == 256;
    XorDigits(v, w, 8);
  }

  lemma {:induction false} XorDigits(v: bv8, w: bv8, n: nat)
    requires Number(v) < Pow2(n) && Number(w) < Pow2(n)
    ensures Number(ExclusiveOr(v, w)) == XorBits(Number(v), Number(w), n)
    decreases n
  {
    hide Number, Lowest, Halve, ExclusiveOr, Flip;
    if n == 0 {
      XorOfZeros(v, w);
    } else {
      Digits(v);
      Digits(w);
      Digits(ExclusiveOr(v, w));
      XorHalved(v, w);
      XorDigits(Halve(v), Halve(w), n - 1);
    }
  }

  lemma XorHalved(v: bv8, w: bv8)
    ensures Halve(ExclusiveOr(v, w)) == ExclusiveOr(Halve(v), Halve(w))
    ensures Lowest(ExclusiveOr(v, w)) == Flip(Number(v), Number(w))
  {
    Digits(v);
    Digits(w);
  }

  lemma XorOfZeros(v: bv8, w: bv8)
    requires Number(v) == Number(w) == 0
    ensures Number(ExclusiveOr(v, w)) == 0
  {
  }

  /** The masks of scalar clamping. */
  lemma MasksAgree(v: bv8)
    ensures (v & 0xf8) as int == v as int - v as int % 8
    ensures (v & 0x7f) as int == v as int % 128
    ensures v < 0x80 ==> (v | 0x40) as int == v as int % 64 + 64
  {
    ClearLow(v);
    ClearTop(v);
    if v < 0x80 {
      SetNext(v);
    }
  }

  lemma ClearLow(v: bv8)
    ensures (v & 0xf8) as int == v as int - v as int % 8
  {
  }

  lemma ClearTop(v: bv8)
    ensures (v & 0x7f) as int == v as int % 128
  {
  }

  lemma SetNext(v: bv8)
    requires v < 0x80
    ensures (v | 0x40) as int == v as int % 64 + 64
  {
  }

  /** `sw >> 8` and `sw & 0xFF`, in this order. */
  lemma StoresHighByteFirst(v: bv16)
    ensures BE16(v as int) == [(v >> 8) as int, (v & 0xFF) as int]
  {
    hide BE16;
    HighAndLow(v);
    HighByteFirst(v as int);
    DigitsOf(v as int, (v >> 8) as int, (v & 0xFF) as int);
  }

  lemma DigitsOf(n: nat, high: nat, low: nat)
    requires n == 256 * high + low && low < 256
    ensures n / 256 == high && n % 256 == low
  {
  }

  lemma HighAndLow(v: bv16)
    ensures v as int == 256 * (v >> 8) as int + (v & 0xFF) as int
    ensures (v >> 8) as int < 256 && (v & 0xFF) as int < 256
  {
  }

  function Numbers(s: seq<bv8>): (r: seq<byte>)
    ensures |r| == |s|
  {
    seq(|s|, i requires 0 <= i < |s| => Number(s[i]))
  }

  /** The loop `key[i] ^= keystream[i]`, byte by byte in place. */
  lemma MasksBytewise(s: seq<bv8>, k: seq<bv8>, i: nat)
    requires i < |s| <= |k|
    ensures XorSeq(Numbers(s), Numbers(k))[i] == Number(s[i] ^ k[i])
  {
    ExclusiveOrIsXor(s[i], k[i]);
    hide Xor;
  }

  /** Clamping is the three C masks on the first and the last byte, and changes no other. */
  lemma ClampsByMasks(k: seq<bv8>, i: nat)
    requires |k| == 32 && i < 32
    ensures Curve.Clamped(Numbers(k))[i] ==
            Number(if i == 0 then k[0] & 0xf8 else if i == 31 then (k[31] & 0x7f) | 0x40 else k[i])
  {
    if i == 0 {
      MasksAgree(k[0]);
    } else if i == 31 {
      MasksAgree(k[31]);
      BelowTop(k[31]);
      MasksAgree(k[31] & 0x7f);
      TwiceReduced(k[31] as int);
    }
  }

  lemma BelowTop(v: bv8)
    ensures v & 0x7f < 0x80
  {
  }

  lemma TwiceReduced(n: int)
    ensures n % 128 % 64 == n % 64
  {
  }
}
