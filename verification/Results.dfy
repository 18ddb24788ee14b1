/** Result codes of the host library and status words of the device application. */
module Results {
  datatype Result =
    | SUCCESS
    | APP_INVALID_NAME
    | APP_UNAUTHORIZED_ACCESS
    | APP_EMPTY_SLOT
    | APP_UNKNOWN_ERROR
    | APP_SECURITY_ERROR
    | LIB_BAD_LENGTH
    | LIB_X25519_FAIL
    | PROTOCOL_BAD_PARAM
    | PROTOCOL_BAD_LENGTH
    | TRANSPORT_USB_BAD_PACKET
    | TRANSPORT_USB_BAD_SEQ
    | TRANSPORT_TIMEOUT
    | TRANSPORT_GENERIC_ERROR

  const SW_SUCCESS: nat := 0x9000
  const SW_UNKNOWN_INSTR: nat := 0x6D00
  const SW_INVALID_CLS: nat := 0x6E00
  const SW_INVALID_PARAMETER: nat := 0x6802
  const SW_EXCEPTION_SECURITY: nat := 0x6804
  const SW_UNAUTHORIZED_ACCESS: nat := 0x6820
  const SW_EMPTY_SLOT: nat := 0x6821
  const SW_INVALID_NAME: nat := 0x6822

  // Exception codes of the device's SDK.
  const INVALID_PARAMETER: nat := 2
  const EXCEPTION_SECURITY: nat := 4

  /** The status word the device sends for a thrown 16-bit code. */
  function Normalise(e: nat): (sw: nat)
    requires e < 0x1_0000
    ensures sw < 0x1_0000
  {
    if e / 0x1000 == 6 || e / 0x1000 == 9 then e else 0x6800 + e % 0x800
  }

  /** The arithmetic reading of the masks agrees with the C expression on 16-bit words. */
  lemma NormaliseIsBitwise(e: bv16)
    ensures Normalise(e as int) ==
            (if e & 0xF000 == 0x6000 || e & 0xF000 == 0x9000 then e else 0x6800 | (e & 0x7FF)) as int
  {
    HighDigit(e);
    LowBits(e);
  }

  lemma HighDigit(e: bv16)
    ensures e as int / 0x1000 == 6 <==> e & 0xF000 == 0x6000
    ensures e as int / 0x1000 == 9 <==> e & 0xF000 == 0x9000
  {
    assert e as int == ((e >> 12) as int) * 0x1000 + (e & 0xFFF) as int;
    assert (e & 0xFFF) as int < 0x1000;
    assert e >> 12 == 6 <==> (e >> 12) as int == 6;
    assert e >> 12 == 9 <==> (e >> 12) as int == 9;
  }

  lemma LowBits(e: bv16)
    ensures (0x6800 | (e & 0x7FF)) as int == 0x6800 + e as int % 0x800
  {
    var n: int, q: int, low: int := e as int, (e >> 11) as int, (e & 0x7FF) as int;
    assert n == q * 0x800 + low && 0 <= low < 0x800 by { SplitAtBit11(e); }
    assert n % 0x800 == low by { Remainder(n, q, low); }
    DisjointOr(e & 0x7FF);
  }

  lemma Remainder(n: int, q: int, low: int)
    requires n == q * 0x800 + low && 0 <= low < 0x800
    ensures n % 0x800 == low
  {
  }

  lemma SplitAtBit11(e: bv16)
    ensures e as int == ((e >> 11) as int) * 0x800 + (e & 0x7FF) as int
    ensures (e & 0x7FF) as int < 0x800
  {
  }

  lemma DisjointOr(low: bv16)
    requires low < 0x800
    ensures (0x6800 | low) as int == 0x6800 + low as int
  {
    assert 0x6800 | low == 0x6800 + low;
  }

  function ParseAppSW(sw: nat): Result {
    if sw == SW_SUCCESS then SUCCESS
    else if sw == SW_UNKNOWN_INSTR || sw == SW_INVALID_CLS || sw == SW_INVALID_PARAMETER then PROTOCOL_BAD_PARAM
    else if sw == SW_EXCEPTION_SECURITY then APP_SECURITY_ERROR
    else if sw == SW_UNAUTHORIZED_ACCESS then APP_UNAUTHORIZED_ACCESS
    else if sw == SW_EMPTY_SLOT then APP_EMPTY_SLOT
    else if sw == SW_INVALID_NAME then APP_INVALID_NAME
    else APP_UNKNOWN_ERROR
  }
}
