/** What the messages tell about a key that was not handed out: two runs that differ only in it. */
module TwoRuns {
  import opened Bytes
  import opened Wrappers
  import opened Results
  import opened Curve
  import opened Storage
  import opened App
  import opened X25519Device

  predicate SameButSlot(a: map<nat, Block>, b: map<nat, Block>, k: nat) {
    a.Keys == b.Keys && forall j | j in a && j != k :: a[j] == b[j]
  }

  /** Offset after the key in the command buffer. */
  const KEY_END: nat := 64

  /** Buffers that differ at most in the last bytes of where a key is encrypted. */
  predicate SameButKey(b: seq<byte>, d: seq<byte>, from: nat) {
    |b| == |d| == BUFFER_SIZE && 32 <= from <= KEY_END && b[..from] == d[..from] && b[KEY_END..] == d[KEY_END..]
  }

  /** States that differ in slot `k`'s key and, from `from` on, in the key bytes left in the buffer. */
  predicate Related(s: State, t: State, k: nat, from: nat) {
    && SameButSlot(s.slots, t.slots, k)
    && s.pending == t.pending && s.sent == t.sent && SameButKey(s.buf, t.buf, from)
  }

  predicate Releases(s: State, e: Event, k: nat) {
    e.Approve? && s.pending.Release? && s.pending.slot == k
  }

  /** Whether encryption for a caller fails; the key to encrypt has no part in it. */
  predicate EncryptionFails(c: Crypto, random: Block, callerPub: Block) {
    DeviceX25519(c, random, BasePoint()) == None || DeviceX25519(c, random, callerPub) == None
  }

  lemma SealedIff(c: Crypto, key: Block, random: Block, callerPub: Block)
    ensures Encrypt(c, key, random, callerPub).Sealed? <==> !EncryptionFails(c, random, callerPub)
  {
  }

  /** Everything the application reads of the command was received with it. */
  predicate SelfContained(apdu: seq<byte>) {
    apdu != [] ==>
      || apdu[0] != CLA
      || (|apdu| >= 2 && !(1 <= apdu[1] <= 3))
      || (|apdu| >= 5 && apdu[4] <= |apdu| - 5)
  }

  /** That is exactly when the command means the same whatever the buffer held before. */
  lemma SelfContainedIff(apdu: seq<byte>)
    requires 1 <= |apdu| <= BUFFER_SIZE
    ensures SelfContained(apdu) <==>
            forall b: Ram, d: Ram :: Decode(Overlay(b, 0, apdu)) == Decode(Overlay(d, 0, apdu))
  {
    if SelfContained(apdu) {
      forall b: Ram, d: Ram
        ensures Decode(Overlay(b, 0, apdu)) == Decode(Overlay(d, 0, apdu))
      {
        DecodesAlike(b, d, apdu);
      }
    } else {
      var b, d := StaleBytes(0), StaleBytes(4);
      var left, right := Overlay(b, 0, apdu), Overlay(d, 0, apdu);
      assert left[0] == right[0] == apdu[0];
      if |apdu| == 1 {
        assert left[1] == 0 && right[1] == 4;
      } else if |apdu| < 5 {
        assert left[1] == right[1] == apdu[1] && left[4] == 0 && right[4] == 4;
        assert |left[5..5 + left[4]]| != |right[5..5 + right[4]]|;
      } else {
        assert left[1] == right[1] == apdu[1] && left[4] == right[4] == apdu[4];
        var last: int := apdu[4];
        assert left[4 + last] == 0 && right[4 + last] == 4;
        assert left[5..5 + left[4]][last - 1] != right[5..5 + right[4]][last - 1];
      }
    }
  }

  function StaleBytes(v: byte): Ram {
    seq(BUFFER_SIZE, i => v)
  }

  lemma DecodesAlike(b: seq<byte>, d: seq<byte>, apdu: seq<byte>)
    requires |b| == |d| == BUFFER_SIZE && 1 <= |apdu| <= BUFFER_SIZE
    requires SelfContained(apdu)
    ensures Decode(Overlay(b, 0, apdu)) == Decode(Overlay(d, 0, apdu))
  {
    var left, right := Overlay(b, 0, apdu), Overlay(d, 0, apdu);
    assert left[..|apdu|] == right[..|apdu|] == apdu;
    assert left[0] == right[0] == apdu[0];
    if |apdu| >= 2 {
      assert left[1] == right[1] == apdu[1];
    }
    if |apdu| >= 5 && apdu[4] <= |apdu| - 5 {
      assert left[2] == right[2] == apdu[2] && left[4] == right[4] == apdu[4];
      assert left[5..5 + left[4]] == apdu[5..5 + apdu[4]] == right[5..5 + right[4]];
    }
  }

  lemma {:induction false} SameBits(a: map<nat, Block>, b: map<nat, Block>, from: nat)
    requires a.Keys == b.Keys && from <= SLOT_COUNT
    ensures Bits(a, from) == Bits(b, from)
    decreases SLOT_COUNT - from
  {
    hide Pow2, Bits;
    assert from in a.Keys <==> from in b.Keys;
    BitsStep(a, from);
    BitsStep(b, from);
    if from < SLOT_COUNT {
      SameBits(a, b, from + 1);
    }
  }

  lemma BitsStep(slots: map<nat, Block>, from: nat)
    requires from <= SLOT_COUNT
    ensures Bits(slots, from) ==
            if from == SLOT_COUNT then 0 else (if from in slots then 1 else 0) + 2 * Bits(slots, from + 1)
  {
  }

  lemma ReactsAlike(req: Request, a: map<nat, Block>, b: map<nat, Block>, k: nat)
    requires SameButSlot(a, b, k)
    ensures React(req, a) == React(req, b) && SameButSlot(SlotsAfter(req, a), SlotsAfter(req, b), k)
  {
    hide ValidName;
    SameBits(a, b, 0);
    assert forall j: nat :: j in a <==> j in b;
  }

  // ---- Commands over what is left of a key ----

  function Max(a: nat, b: nat): nat { if a >= b then a else b }

  /** Whether a command takes up what is left of a key from offset `from` of the buffer on: the data it
      announces reaches there, and it is stored, saved for an approval, or a name to be checked. */
  predicate Takes(s: State, apdu: seq<byte>, from: nat)
    requires |s.buf| == BUFFER_SIZE && |apdu| <= BUFFER_SIZE && 32 <= from <= KEY_END
  {
    apdu != [] &&
    var h, known := Overlay(s.buf, 0, apdu), Max(from, |apdu|);
    && h[0] == CLA && known < KEY_END && h[4] > known - 5
    && match h[1]
       case 1 => h[2] < SLOT_COUNT && h[4] == 32
       case 2 => h[2] < SLOT_COUNT && h[4] == 32 && h[2] as nat in s.slots
       case 3 => ChecksName(h, known)
       case _ => false
  }

  /** A name of acceptable length, printable as far as it does not come from the key. */
  predicate ChecksName(h: seq<byte>, known: nat)
    requires |h| == BUFFER_SIZE && known <= BUFFER_SIZE
  {
    32 < h[4] <= 32 + MAX_NAME_SIZE && (known > 37 ==> ValidName(h[37..known]))
  }

  lemma KnownBytes(b: seq<byte>, d: seq<byte>, from: nat, apdu: seq<byte>)
    requires SameButKey(b, d, from) && |apdu| <= BUFFER_SIZE
    ensures SameButKey(Overlay(b, 0, apdu), Overlay(d, 0, apdu), Min(KEY_END, Max(from, |apdu|)))
  {
    var left, right := Overlay(b, 0, apdu), Overlay(d, 0, apdu);
    forall i | 0 <= i < BUFFER_SIZE && !(Max(from, |apdu|) <= i < KEY_END)
      ensures left[i] == right[i]
    {
      assert i >= |apdu| ==> left[i] == b[i] && right[i] == d[i];
      assert i < from ==> b[i] == b[..from][i] && d[i] == d[..from][i];
      assert i >= KEY_END ==> b[i] == b[KEY_END..][i - KEY_END] && d[i] == d[KEY_END..][i - KEY_END];
    }
  }

  lemma DataAlike(left: seq<byte>, right: seq<byte>, from: nat)
    requires SameButKey(left, right, from)
    ensures left[..5] == right[..5]
    ensures from == KEY_END || left[4] <= from - 5 ==> left[5..5 + left[4]] == right[5..5 + right[4]]
    ensures from >= 37 && left[4] >= 32 ==> left[5..5 + left[4]][..32] == right[5..5 + right[4]][..32]
    ensures from >= 37 ==> left[37..from] == right[37..from]
  {
    assert left[..5] == left[..from][..5] && right[..5] == right[..from][..5];
    assert left[4] == left[..5][4] && right[4] == right[..5][4];
    var len: nat := left[4];
    if from == KEY_END {
      assert left == left[..from] + left[KEY_END..] && right == right[..from] + right[KEY_END..];
    } else if left[4] <= from - 5 {
      SameWithin(left, right, from, 5, 5 + len);
    }
    if from >= 37 {
      SameWithin(left, right, from, 5, 37);
      SameWithin(left, right, from, 37, from);
      if left[4] >= 32 {
        StartOf(left, 5, 5 + len, 32);
        StartOf(right, 5, 5 + len, 32);
      }
    }
  }

  lemma SameWithin(left: seq<byte>, right: seq<byte>, from: nat, i: nat, j: nat)
    requires i <= j <= from <= |left| && from <= |right| && left[..from] == right[..from]
    ensures left[i..j] == right[i..j]
  {
    assert left[i..j] == left[..from][i..j] && right[i..j] == right[..from][i..j];
  }

  lemma StartOf(s: seq<byte>, i: nat, j: nat, n: nat)
    requires i + n <= j <= |s|
    ensures s[i..j][..n] == s[i..i + n]
  {
  }

  /** The commands two such buffers decode to lead to the same reaction, unless key bytes are taken. */
  lemma ReactsLike(s: State, t: State, apdu: seq<byte>, k: nat, from: nat)
    requires WellFormed(s) && WellFormed(t) && 1 <= |apdu| <= BUFFER_SIZE
    requires Related(s, t, k, from) && !Takes(s, apdu, from)
    ensures var x, y := Decode(Overlay(s.buf, 0, apdu)), Decode(Overlay(t.buf, 0, apdu));
            && React(x, s.slots) == React(y, t.slots)
            && SameButSlot(SlotsAfter(x, s.slots), SlotsAfter(y, t.slots), k)
            && PendingAfter(x, s.pending) == PendingAfter(y, t.pending)
  {
    var left, right, known := Overlay(s.buf, 0, apdu), Overlay(t.buf, 0, apdu), Max(from, |apdu|);
    KnownBytes(s.buf, t.buf, from, apdu);
    DataAlike(left, right, Min(KEY_END, known));
    hide SameButKey, ValidName, Overlay, WellFormed, SameButSlot, React, SlotsAfter, PendingAfter;
    HeadersAlike(left, right);
    var x, y := Decode(left), Decode(right);
    if x == y {
      ReactsAlike(x, s.slots, t.slots, k);
    } else {
      assert known < KEY_END && left[4] > known - 5 && left[0] == CLA && 1 <= left[1] <= 3;
      var d, e := left[5..5 + left[4]], right[5..5 + right[4]];
      assert Decode(left) == Dispatch(left[1], left[2], d) && Decode(right) == Dispatch(left[1], left[2], e);
      if left[1] == 3 && 32 < left[4] <= 32 + MAX_NAME_SIZE {
        BadKnownByte(left, known);
        BadKnownByte(right, known);
      }
      hide ChecksName, Decode, Dispatch;
      RejectedAlike(left[1], left[2], d, e, s.slots, t.slots, s.pending, k);
    }
  }

  /** A request that is rejected whatever the rest of its data. */
  predicate Rejected(ins: byte, slot: byte, d: seq<byte>, slots: map<nat, Block>) {
    match ins
    case 1 => slot >= SLOT_COUNT || |d| != 32
    case 2 => slot >= SLOT_COUNT || |d| != 32 || slot as nat !in slots
    case 3 => |d| <= 32 || |d| > 32 + MAX_NAME_SIZE || !ValidName(d[32..])
    case _ => false
  }

  lemma RejectedAlike(ins: byte, slot: byte, d: seq<byte>, e: seq<byte>, a: map<nat, Block>, b: map<nat, Block>,
                      p: Pending, k: nat)
    requires SameButSlot(a, b, k) && |d| == |e|
    requires Rejected(ins, slot, d, a) && Rejected(ins, slot, e, a)
    requires ins == 3 && 32 < |d| <= 32 + MAX_NAME_SIZE ==> d[..32] == e[..32]
    ensures var x, y := Dispatch(ins, slot, d), Dispatch(ins, slot, e);
            && React(x, a) == React(y, b)
            && SameButSlot(SlotsAfter(x, a), SlotsAfter(y, b), k)
            && PendingAfter(x, p) == PendingAfter(y, p)
  {
    KeySlots(a, b, k);
    hide ValidName;
  }

  lemma HeadersAlike(left: seq<byte>, right: seq<byte>)
    requires |left| == |right| == BUFFER_SIZE && left[..5] == right[..5]
    ensures left[0] == right[0] && left[1] == right[1] && left[2] == right[2] && left[4] == right[4]
  {
    assert left[0] == left[..5][0] && left[1] == left[..5][1] && left[2] == left[..5][2] && left[4] == left[..5][4];
    assert right[0] == right[..5][0] && right[1] == right[..5][1];
    assert right[2] == right[..5][2] && right[4] == right[..5][4];
  }

  lemma KeySlots(a: map<nat, Block>, b: map<nat, Block>, k: nat)
    requires SameButSlot(a, b, k)
    ensures forall j: nat :: j in a <==> j in b
  {
    assert forall j: nat :: j in a.Keys <==> j in b.Keys;
  }

  /** A known byte that is not printable is in the name whatever the key. */
  lemma BadKnownByte(h: seq<byte>, known: nat)
    requires |h| == BUFFER_SIZE && 37 < known <= KEY_END && h[4] > 32 && h[4] > known - 5
    requires !ValidName(h[37..known])
    ensures !ValidName(h[5..5 + h[4]][32..])
  {
    var i :| 0 <= i < known - 37 && !(0x20 <= h[37..known][i] <= 0x7E);
    assert h[5..5 + h[4]][32..][i] == h[37..known][i];
  }

  lemma ApduAlike(s: State, t: State, apdu: seq<byte>, k: nat, from: nat)
    requires WellFormed(s) && WellFormed(t) && |apdu| <= BUFFER_SIZE
    requires Related(s, t, k, from) && !Takes(s, apdu, from)
    ensures Related(OnApdu(s, apdu), OnApdu(t, apdu), k, Min(KEY_END, Max(from, |apdu|)))
  {
    var left, right, known := Overlay(s.buf, 0, apdu), Overlay(t.buf, 0, apdu), Min(KEY_END, Max(from, |apdu|));
    KnownBytes(s.buf, t.buf, from, apdu);
    if apdu == [] {
      Unchanged(left, right, known, Reply([], 0x6982));
    } else {
      ReactsLike(s, t, apdu, k, from);
      var r := React(Decode(left), s.slots);
      hide Decode, React, Overlay, Reply, SlotsAfter, PendingAfter, SameButSlot, SameButKey, Takes, WellFormed;
      if r.Answer? {
        Unchanged(left, right, known, r.payload);
        Unchanged(Overlay(left, 0, r.payload), Overlay(right, 0, r.payload), known, Reply(r.payload, r.code));
      } else {
        Unchanged(left, right, known, Reply([], SW_SUCCESS));
      }
    }
  }

  /** A short message at the start of both buffers. */
  lemma Unchanged(b: seq<byte>, d: seq<byte>, from: nat, m: seq<byte>)
    requires SameButKey(b, d, from) && |m| <= 32
    ensures SameButKey(Overlay(b, 0, m), Overlay(d, 0, m), from)
  {
    KnownBytes(b, d, from, m);
  }

  // ---- Exactly which commands take it up ----

  /** The state with the end of a key left in the buffer. */
  function WithLeft(s: State, key: Block, from: nat): (t: State)
    requires |s.buf| == BUFFER_SIZE && 32 <= from <= KEY_END
    ensures |t.buf| == BUFFER_SIZE
  {
    s.(buf := Overlay(s.buf, from, key[from - 32..]))
  }

  function Filled(v: byte): Block {
    seq(32, i => v)
  }

  predicate SameOutcome(a: State, b: State) {
    a.slots == b.slots && a.pending == b.pending && a.sent == b.sent
  }

  /** The command leads to the same slots, approval and messages for both keys. */
  predicate ActsAlike(s: State, apdu: seq<byte>, from: nat, x: Block, y: Block)
    requires |s.buf| == BUFFER_SIZE && |apdu| <= BUFFER_SIZE && 32 <= from <= KEY_END
  {
    SameOutcome(OnApdu(WithLeft(s, x, from), apdu), OnApdu(WithLeft(s, y, from), apdu))
  }

  /** It is answered alike for both keys. */
  predicate AnswersAlike(s: State, apdu: seq<byte>, from: nat, x: Block, y: Block)
    requires |s.buf| == BUFFER_SIZE && |apdu| <= BUFFER_SIZE && 32 <= from <= KEY_END
  {
    OnApdu(WithLeft(s, x, from), apdu).sent == OnApdu(WithLeft(s, y, from), apdu).sent
  }

  lemma LeftAlike(s: State, x: Block, y: Block, from: nat)
    requires |s.buf| == BUFFER_SIZE && 32 <= from <= KEY_END
    ensures SameButKey(WithLeft(s, x, from).buf, WithLeft(s, y, from).buf, from)
    ensures SameButKey(s.buf, WithLeft(s, y, from).buf, from)
  {
  }

  /** Whether a command takes key bytes up is decided by what else is in the buffer. */
  lemma TakesAlike(s: State, t: State, apdu: seq<byte>, from: nat)
    requires SameButKey(s.buf, t.buf, from) && s.slots == t.slots && |apdu| <= BUFFER_SIZE
    ensures Takes(s, apdu, from) == Takes(t, apdu, from)
  {
    var left, right, known := Overlay(s.buf, 0, apdu), Overlay(t.buf, 0, apdu), Max(from, |apdu|);
    KnownBytes(s.buf, t.buf, from, apdu);
    DataAlike(left, right, Min(KEY_END, known));
    HeadersAlike(left, right);
    hide Overlay, SameButKey, ValidName;
  }

  lemma UntakenAlike(s: State, apdu: seq<byte>, from: nat, x: Block, y: Block)
    requires WellFormed(s) && |apdu| <= BUFFER_SIZE && 32 <= from <= KEY_END && !Takes(s, apdu, from)
    ensures ActsAlike(s, apdu, from, x, y) && AnswersAlike(s, apdu, from, x, y)
  {
    var t, u := WithLeft(s, x, from), WithLeft(s, y, from);
    LeftAlike(s, x, x, from);
    LeftAlike(s, x, y, from);
    TakesAlike(s, t, apdu, from);
    hide OnApdu, Takes, SameButKey, Overlay;
    ApduAlike(t, u, apdu, SLOT_COUNT, from);
    ApduKeepsInvariant(t, apdu);
    ApduKeepsInvariant(u, apdu);
  }

  /** The command with its key bytes all `v`, where the name's known bytes are printable. */
  lemma KeyBytes(s: State, apdu: seq<byte>, from: nat, v: byte)
    requires WellFormed(s) && |apdu| <= BUFFER_SIZE && 32 <= from <= KEY_END && Takes(s, apdu, from)
    ensures var b, h := Overlay(WithLeft(s, Filled(v), from).buf, 0, apdu), Overlay(s.buf, 0, apdu);
            var known := Max(from, |apdu|);
            && b[..5] == h[..5]
            && (forall i | known <= i < KEY_END :: b[i] == v)
            && (known > 37 ==> b[37..known] == h[37..known])
  {
    var key := Filled(v);
    var known := Max(from, |apdu|);
    var t := WithLeft(s, key, from);
    LeftAlike(s, key, key, from);
    KnownBytes(s.buf, t.buf, from, apdu);
    DataAlike(Overlay(s.buf, 0, apdu), Overlay(t.buf, 0, apdu), known);
    forall i | known <= i < KEY_END
      ensures Overlay(t.buf, 0, apdu)[i] == v
    {
      assert t.buf[i] == key[from - 32..][i - from];
    }
  }

  /** The data of such a command, and whether it would pass as a name. */
  lemma KeyData(s: State, apdu: seq<byte>, from: nat, v: byte)
    requires WellFormed(s) && |apdu| <= BUFFER_SIZE && 32 <= from <= KEY_END && Takes(s, apdu, from)
    ensures var b, h := Overlay(WithLeft(s, Filled(v), from).buf, 0, apdu), Overlay(s.buf, 0, apdu);
            var known := Max(from, |apdu|);
            && Decode(b) == Dispatch(h[1], h[2], b[5..5 + h[4]])
            && b[5..5 + h[4]][known - 5] == v
            && (h[1] == 3 ==> (ValidName(b[5..5 + h[4]][32..]) <==> 0x20 <= v <= 0x7E))
  {
    var b, h := Overlay(WithLeft(s, Filled(v), from).buf, 0, apdu), Overlay(s.buf, 0, apdu);
    var known := Max(from, |apdu|);
    KeyBytes(s, apdu, from, v);
    HeadersAlike(b, h);
    assert h[4] > known - 5 && (h[1] == 3 ==> ChecksName(h, known));
    hide Overlay, WellFormed, ValidName, WithLeft, Dispatch, Takes;
    assert b[5..5 + h[4]][known - 5] == b[known];
    if h[1] == 3 {
      KeyName(b, h[4], known, v);
    }
  }

  /** A name with key bytes in it, all `v`, and the others printable. */
  lemma KeyName(b: seq<byte>, len: nat, known: nat, v: byte)
    requires |b| == BUFFER_SIZE && 32 <= known < KEY_END && 32 < len <= 52 && len > known - 5
    requires forall i | known <= i < KEY_END :: b[i] == v
    requires known > 37 ==> ValidName(b[37..known])
    ensures ValidName(b[5..5 + len][32..]) <==> 0x20 <= v <= 0x7E
  {
    var name := b[5..5 + len][32..];
    assert forall i | 0 <= i < |name| :: name[i] == b[37 + i];
    var p: int := Max(known, 37) - 37;
    assert name[p] == v;
    if 0x20 <= v <= 0x7E {
      forall i | 0 <= i < |name|
        ensures 0x20 <= name[i] <= 0x7E
      {
        if i < p {
          assert b[37..known][i] == b[37 + i];
        }
      }
    } else {
      assert !(0x20 <= name[p] <= 0x7E);
    }
  }

  /** A command by its request. */
  lemma OutcomeOf(s: State, apdu: seq<byte>)
    requires WellFormed(s) && 1 <= |apdu| <= BUFFER_SIZE
    ensures var req, t := Decode(Overlay(s.buf, 0, apdu)), OnApdu(s, apdu);
            match React(req, s.slots)
            case Ask(p) => t.pending == p && t.slots == s.slots && t.sent == s.sent
            case Answer(payload, code) =>
              t.slots == SlotsAfter(req, s.slots) && t.sent == s.sent + [Reply(payload, code)]
  {
    hide Decode, Overlay, Reply, Bitfield, ValidName;
  }

  lemma TakenDiffers(s: State, apdu: seq<byte>, from: nat)
    requires WellFormed(s) && |apdu| <= BUFFER_SIZE && 32 <= from <= KEY_END && Takes(s, apdu, from)
    ensures var x, y := Filled(0x20), Filled(0x00);
            !ActsAlike(s, apdu, from, x, y) && (Overlay(s.buf, 0, apdu)[1] == 3 ==> !AnswersAlike(s, apdu, from, x, y))
  {
    assert |s.buf| == BUFFER_SIZE;
    TakenRequests(s, apdu, from);
    hide Overlay, Decode, WellFormed, OnApdu, React, SlotsAfter, Takes, Filled;
    OutcomesDiffer(WithLeft(s, Filled(0x20), from), WithLeft(s, Filled(0x00), from), apdu);
  }

  /** The two commands either ask for different approvals, store different keys, or only one asks. */
  predicate Differ(x: Request, y: Request, slots: map<nat, Block>) {
    var r, q := React(x, slots), React(y, slots);
    if r.Ask? && q.Ask? then r.pending != q.pending
    else r.Answer? && q.Answer? ==> SlotsAfter(x, slots) != SlotsAfter(y, slots)
  }

  lemma TakenRequests(s: State, apdu: seq<byte>, from: nat)
    requires WellFormed(s) && |apdu| <= BUFFER_SIZE && 32 <= from <= KEY_END && Takes(s, apdu, from)
    ensures var t, u := WithLeft(s, Filled(0x20), from), WithLeft(s, Filled(0x00), from);
            var x, y := Decode(Overlay(t.buf, 0, apdu)), Decode(Overlay(u.buf, 0, apdu));
            && WellFormed(t) && WellFormed(u) && Differ(x, y, s.slots)
            && (Overlay(s.buf, 0, apdu)[1] == 3 ==> React(x, s.slots).Ask? && React(y, s.slots).Answer?)
  {
    var h, known := Overlay(s.buf, 0, apdu), Max(from, |apdu|);
    var t, u := WithLeft(s, Filled(0x20), from), WithLeft(s, Filled(0x00), from);
    var d, e := Overlay(t.buf, 0, apdu)[5..5 + h[4]], Overlay(u.buf, 0, apdu)[5..5 + h[4]];
    KeyData(s, apdu, from, 0x20);
    KeyData(s, apdu, from, 0x00);
    hide Overlay, Decode, ValidName, React, SlotsAfter, Dispatch, Filled;
    assert d[known - 5] != e[known - 5];
    RequestsDiffer(h[1], h[2], d, e, s.slots);
  }

  lemma OutcomesDiffer(t: State, u: State, apdu: seq<byte>)
    requires WellFormed(t) && WellFormed(u) && 1 <= |apdu| <= BUFFER_SIZE
    requires t.slots == u.slots && t.pending == u.pending && t.sent == u.sent
    requires Differ(Decode(Overlay(t.buf, 0, apdu)), Decode(Overlay(u.buf, 0, apdu)), t.slots)
    ensures !SameOutcome(OnApdu(t, apdu), OnApdu(u, apdu))
    ensures React(Decode(Overlay(t.buf, 0, apdu)), t.slots).Ask? != React(Decode(Overlay(u.buf, 0, apdu)), t.slots).Ask?
            ==> OnApdu(t, apdu).sent != OnApdu(u, apdu).sent
  {
    OutcomeOf(t, apdu);
    OutcomeOf(u, apdu);
    hide Overlay, Decode, WellFormed, Reply, OnApdu, React, SlotsAfter;
  }

  /** Two requests with different data that are accepted, or one of which is rejected for its name. */
  lemma RequestsDiffer(ins: byte, slot: byte, d: seq<byte>, e: seq<byte>, slots: map<nat, Block>)
    requires d != e && |d| == |e|
    requires !Rejected(ins, slot, d, slots) && 1 <= ins <= 3
    requires if ins == 3 then !ValidName(e[32..]) else !Rejected(ins, slot, e, slots)
    ensures var x, y := Dispatch(ins, slot, d), Dispatch(ins, slot, e);
            var r, q := React(x, slots), React(y, slots);
            && (ins == 3 ==> r.Ask? && q.Answer?)
            && (r.Ask? && q.Ask? ==> r.pending != q.pending)
            && (ins != 3 ==> r.Ask? == q.Ask?)
            && (r.Answer? ==> SlotsAfter(x, slots) != SlotsAfter(y, slots))
  {
    hide ValidName;
    if ins == 1 {
      StoresDiffer(slots, slot, d, e);
    }
  }

  lemma StoresDiffer(slots: map<nat, Block>, slot: nat, d: Block, e: Block)
    requires slot < SLOT_COUNT && d != e
    ensures var r, q := React(StoreKey(slot, d), slots), React(StoreKey(slot, e), slots);
            && (r.Ask? ==> q.Ask? && r.pending != q.pending)
            && (r.Answer? ==> SlotsAfter(StoreKey(slot, d), slots) != SlotsAfter(StoreKey(slot, e), slots))
  {
    assert slots[slot := d][slot] != slots[slot := e][slot];
  }

  /** What a command does and what is answered are the same for every key left in the buffer exactly
      when it takes nothing of it up. */
  lemma TakesIff(s: State, apdu: seq<byte>, from: nat)
    requires WellFormed(s) && |apdu| <= BUFFER_SIZE && 32 <= from <= KEY_END
    ensures (forall x: Block, y: Block :: ActsAlike(s, apdu, from, x, y)) <==> !Takes(s, apdu, from)
  {
    assert |s.buf| == BUFFER_SIZE;
    hide OnApdu, Takes, WithLeft, WellFormed, Overlay, ActsAlike, Filled;
    if Takes(s, apdu, from) {
      TakenDiffers(s, apdu, from);
    } else {
      forall x: Block, y: Block
        ensures ActsAlike(s, apdu, from, x, y)
      {
        UntakenAlike(s, apdu, from, x, y);
      }
    }
  }

  /** The answer alone is the same exactly unless the command is a name request that checks key bytes. */
  lemma AnswerTellsIff(s: State, apdu: seq<byte>, from: nat)
    requires WellFormed(s) && |apdu| <= BUFFER_SIZE && 32 <= from <= KEY_END
    ensures (forall x: Block, y: Block :: AnswersAlike(s, apdu, from, x, y)) <==>
            !(Takes(s, apdu, from) && Overlay(s.buf, 0, apdu)[1] == 3)
  {
    assert |s.buf| == BUFFER_SIZE;
    hide OnApdu, Takes, WithLeft, WellFormed, Overlay, Reply;
    if Takes(s, apdu, from) && Overlay(s.buf, 0, apdu)[1] == 3 {
      TakenDiffers(s, apdu, from);
    } else {
      forall x: Block, y: Block
        ensures AnswersAlike(s, apdu, from, x, y)
      {
        if Takes(s, apdu, from) {
          KeyTakenSilently(s, apdu, from, x);
          KeyTakenSilently(s, apdu, from, y);
        } else {
          UntakenAlike(s, apdu, from, x, y);
        }
      }
    }
  }

  /** A store or key request that takes key bytes up answers by its slot alone. */
  lemma KeyTakenSilently(s: State, apdu: seq<byte>, from: nat, x: Block)
    requires WellFormed(s) && |apdu| <= BUFFER_SIZE && 32 <= from <= KEY_END
    requires Takes(s, apdu, from) && Overlay(s.buf, 0, apdu)[1] != 3
    ensures OnApdu(WithLeft(s, x, from), apdu).sent ==
            if Overlay(s.buf, 0, apdu)[2] as nat in s.slots then s.sent else s.sent + [Reply([], SW_SUCCESS)]
  {
    var t := WithLeft(s, x, from);
    var h, b := Overlay(s.buf, 0, apdu), Overlay(t.buf, 0, apdu);
    LeftAlike(s, x, x, from);
    KnownBytes(s.buf, t.buf, from, apdu);
    DataAlike(h, b, Max(from, |apdu|));
    HeadersAlike(h, b);
    OutcomeOf(t, apdu);
    var d := b[5..5 + b[4]];
    assert Decode(b) == Dispatch(b[1], b[2], d);
    hide Overlay, ValidName, Reply, Bitfield, OnApdu, WellFormed, SameButKey, Decode, ChecksName, Dispatch, React;
    AnswersBySlot(b[1], b[2], d, s.slots);
  }

  lemma AnswersBySlot(ins: byte, slot: byte, d: seq<byte>, slots: map<nat, Block>)
    requires (ins == 1 || ins == 2) && !Rejected(ins, slot, d, slots)
    ensures var r := React(Dispatch(ins, slot, d), slots);
            if slot as nat in slots then r.Ask? else r == Answer([], SW_SUCCESS)
  {
  }

  /** A self-contained command takes nothing up. */
  lemma SelfContainedTakesNothing(s: State, apdu: seq<byte>, from: nat)
    requires |s.buf| == BUFFER_SIZE && |apdu| <= BUFFER_SIZE && 32 <= from <= KEY_END && SelfContained(apdu)
    ensures !Takes(s, apdu, from)
  {
    if apdu != [] {
      var h := Overlay(s.buf, 0, apdu);
      assert forall i | 0 <= i < |apdu| :: h[i] == h[..|apdu|][i] == apdu[i];
    }
  }

  // ---- Steps and runs ----

  /** What a step may do while slot `k`'s key is to stay unknown: a release of it must fail, and
      commands must take up nothing it left in the buffer. */
  predicate Discreet(c: Crypto, s: State, e: Event, k: nat, from: nat)
    requires |s.buf| == BUFFER_SIZE && 32 <= from <= KEY_END && Feasible(e)
  {
    && (Releases(s, e, k) ==> EncryptionFails(c, e.random, s.pending.pub))
    && (e.Apdu? ==> !Takes(s, e.bytes, from))
  }

  /** Where in the buffer bytes of the key may be left after a step: a release leaves all of it, a
      longer command or another key covers it again, and a restart fills the buffer anew. */
  function LeftFrom(c: Crypto, s: State, e: Event, k: nat, from: nat): (r: nat)
    requires 32 <= from <= KEY_END
    ensures 32 <= r <= KEY_END
  {
    match e
    case Apdu(bytes) => Min(KEY_END, Max(from, |bytes|))
    case Approve(_) =>
      (match s.pending
       case Release(slot, _) => if slot == k then 32 else KEY_END
       case DeriveName(name, _) => if NameKey(c, name) == None then from else KEY_END
       case _ => from)
    case PowerCycle(_) => KEY_END
    case _ => from
  }

  predicate DiscreetRun(c: Crypto, s: State, run: seq<Event>, k: nat, from: nat)
    requires WellFormed(s) && FeasibleRun(run) && 32 <= from <= KEY_END
    decreases |run|
  {
    run == [] ||
    (StepKeepsInvariant(c, s, run[0]);
     Discreet(c, s, run[0], k, from) &&
     DiscreetRun(c, Step(c, s, run[0]), run[1..], k, LeftFrom(c, s, run[0], k, from)))
  }

  lemma SameKeyWritten(b: seq<byte>, d: seq<byte>, from: nat, key: Block, other: Block, e: Encryption, f: Encryption)
    requires SameButKey(b, d, from)
    requires key == other ==> e == f
    requires key != other ==> !e.Sealed? && !f.Sealed? && e == f
    ensures SameButKey(AfterEncryption(Overlay(b, 32, key), e), AfterEncryption(Overlay(d, 32, other), f),
                       if key == other then KEY_END else 32)
  {
    var x, y := Overlay(b, 32, key), Overlay(d, 32, other);
    var to := if key == other then KEY_END else 32;
    forall i | 0 <= i < BUFFER_SIZE && !(to <= i < KEY_END)
      ensures x[i] == y[i]
    {
      assert i < 32 ==> x[i] == b[i] == b[..from][i] && y[i] == d[i] == d[..from][i];
      assert i >= KEY_END ==> x[i] == b[i] == b[KEY_END..][i - KEY_END] && y[i] == d[i] == d[KEY_END..][i - KEY_END];
      assert 32 <= i < KEY_END ==> x[i] == key[i - 32] && y[i] == other[i - 32];
    }
    assert SameButKey(x, y, to);
    match e
    case Failed =>
    case FailedAfter(pub) => Unchanged(x, y, to, pub);
    case Sealed(pub, body) => assert x == y by { WholeAlike(x, y); }
  }

  lemma WholeAlike(b: seq<byte>, d: seq<byte>)
    requires SameButKey(b, d, KEY_END)
    ensures b == d
  {
    assert b == b[..KEY_END] + b[KEY_END..] && d == d[..KEY_END] + d[KEY_END..];
  }

  lemma FailsAlike(c: Crypto, key: Block, other: Block, random: Block, pub: Block)
    requires EncryptionFails(c, random, pub)
    ensures Encrypt(c, key, random, pub) == Encrypt(c, other, random, pub)
    ensures !Encrypt(c, key, random, pub).Sealed?
  {
  }

  lemma EffectsAlike(c: Crypto, s: State, t: State, random: Block, k: nat, from: nat)
    requires WellFormed(s) && WellFormed(t) && Related(s, t, k, from) && s.pending != Idle
    requires Discreet(c, s, Approve(random), k, from)
    ensures var e, f := ApprovedEffect(c, s, random), ApprovedEffect(c, t, random);
            && SameButSlot(e.slots, f.slots, k) && e.payload == f.payload && e.code == f.code
            && SameButKey(e.buf, f.buf, LeftFrom(c, s, Approve(random), k, from))
  {
    hide Encrypt, AfterEncryption, Overlay, EncryptionFails, NameKey, ValidName, SameButKey;
    match s.pending
    case Release(slot, pub) =>
      var key, other := s.slots[slot], t.slots[slot];
      if slot == k {
        FailsAlike(c, key, other, random, pub);
      }
      SameKeyWritten(s.buf, t.buf, from, key, other, Encrypt(c, key, random, pub), Encrypt(c, other, random, pub));
      AtLeastFrom(AfterEncryption(Overlay(s.buf, 32, key), Encrypt(c, key, random, pub)),
                  AfterEncryption(Overlay(t.buf, 32, other), Encrypt(c, other, random, pub)));
    case DeriveName(name, pub) =>
      if NameKey(c, name).Some? {
        var key := NameKey(c, name).value;
        SameKeyWritten(s.buf, t.buf, from, key, key, Encrypt(c, key, random, pub), Encrypt(c, key, random, pub));
      }
    case _ =>
  }

  lemma AtLeastFrom(b: seq<byte>, d: seq<byte>)
    requires SameButKey(b, d, KEY_END) || SameButKey(b, d, 32)
    ensures SameButKey(b, d, 32)
  {
    if SameButKey(b, d, KEY_END) {
      WholeAlike(b, d);
    }
  }

  /** A long message covers the key, a short one leaves it alone. */
  lemma FinishAlike(b: seq<byte>, d: seq<byte>, from: nat, m: seq<byte>)
    requires SameButKey(b, d, from) && |m| <= BUFFER_SIZE
    ensures SameButKey(Overlay(b, 0, m), Overlay(d, 0, m), from)
  {
    KnownBytes(b, d, from, m);
    var x, y := Overlay(b, 0, m), Overlay(d, 0, m);
    var to := Min(KEY_END, Max(from, |m|));
    assert x[..from] == x[..to][..from] && y[..from] == y[..to][..from];
  }

  lemma StepAlike(c: Crypto, s: State, t: State, e: Event, k: nat, from: nat)
    requires WellFormed(s) && WellFormed(t) && Feasible(e) && Related(s, t, k, from)
    requires Discreet(c, s, e, k, from)
    ensures Related(Step(c, s, e), Step(c, t, e), k, LeftFrom(c, s, e, k, from))
  {
    assert |s.buf| == |t.buf| == BUFFER_SIZE;
    hide OnApdu, WellFormed, Overlay, Reply, ApprovedEffect, SameButSlot, EncryptionFails, Takes, NameKey;
    match e
    case Apdu(bytes) => ApduAlike(s, t, bytes, k, from);
    case Approve(random) =>
      hide SameButKey;
      if s.pending != Idle {
        EffectsAlike(c, s, t, random, k, from);
        var x, y := ApprovedEffect(c, s, random), ApprovedEffect(c, t, random);
        FinishAlike(x.buf, y.buf, LeftFrom(c, s, e, k, from), Reply(x.payload, x.code));
      }
    case Deny =>
      hide SameButKey;
      FinishAlike(s.buf, t.buf, from, Reply([], SW_UNAUTHORIZED_ACCESS));
    case _ =>
  }

  /** A key not handed out does not show: two runs from states that differ in slot `k`'s key send the
      same messages, if no release of it was approved, or if the approved ones failed and no command
      took up what they left in the buffer. */
  lemma {:induction false} KeyDoesNotShow(c: Crypto, s: State, t: State, run: seq<Event>, k: nat, from: nat)
    requires WellFormed(s) && WellFormed(t) && FeasibleRun(run) && Related(s, t, k, from)
    requires DiscreetRun(c, s, run, k, from)
    ensures Run(c, s, run).sent == Run(c, t, run).sent
    decreases |run|
  {
    assert 32 <= from <= KEY_END && |s.buf| == BUFFER_SIZE;
    hide Step, WellFormed, Related, Discreet, LeftFrom, Feasible;
    if run == [] {
      assert s.sent == t.sent by { SameSent(s, t, k, from); }
    } else {
      StepKeepsInvariant(c, s, run[0]);
      StepKeepsInvariant(c, t, run[0]);
      StepAlike(c, s, t, run[0], k, from);
      KeyDoesNotShow(c, Step(c, s, run[0]), Step(c, t, run[0]), run[1..], k, LeftFrom(c, s, run[0], k, from));
    }
  }

  lemma SameSent(s: State, t: State, k: nat, from: nat)
    requires Related(s, t, k, from)
    ensures s.sent == t.sent
  {
  }

  /** No release of slot `k` is approved in the run. */
  predicate Withheld(c: Crypto, s: State, run: seq<Event>, k: nat)
    requires WellFormed(s) && FeasibleRun(run)
    decreases |run|
  {
    run == [] ||
    (StepKeepsInvariant(c, s, run[0]);
     !Releases(s, run[0], k) && Withheld(c, Step(c, s, run[0]), run[1..], k))
  }

  lemma {:induction false} WithheldIsDiscreet(c: Crypto, s: State, run: seq<Event>, k: nat)
    requires WellFormed(s) && FeasibleRun(run) && Withheld(c, s, run, k)
    ensures DiscreetRun(c, s, run, k, KEY_END)
    decreases |run|
  {
    assert |s.buf| == BUFFER_SIZE;
    hide Step, WellFormed, EncryptionFails, Overlay, NameKey;
    if run != [] {
      StepKeepsInvariant(c, s, run[0]);
      WithheldIsDiscreet(c, Step(c, s, run[0]), run[1..], k);
    }
  }

  /** Whatever commands come, a key no release of which is approved does not show. */
  lemma WithheldKeyDoesNotShow(c: Crypto, s: State, other: Block, run: seq<Event>, k: nat)
    requires WellFormed(s) && FeasibleRun(run) && Withheld(c, s, run, k) && k in s.slots
    ensures WellFormed(s.(slots := s.slots[k := other]))
    ensures Run(c, s, run).sent == Run(c, s.(slots := s.slots[k := other]), run).sent
  {
    var t := s.(slots := s.slots[k := other]);
    OtherKey(s, k, other);
    WithheldIsDiscreet(c, s, run, k);
    assert |s.buf| == BUFFER_SIZE;
    hide Run, Withheld, DiscreetRun, WellFormed;
    assert Related(s, t, k, KEY_END);
    KeyDoesNotShow(c, s, t, run, k, KEY_END);
  }

  lemma OtherKey(s: State, k: nat, other: Block)
    requires WellFormed(s) && k in s.slots
    ensures WellFormed(s.(slots := s.slots[k := other])) && s.slots[k := other].Keys == s.slots.Keys
    ensures s.slots[k] == other ==> s.slots[k := other] == s.slots
  {
    hide ValidName;
    assert forall j: nat :: j in s.slots[k := other] <==> j in s.slots;
  }

  // ---- A release that fails ----

  lemma FailedReleaseLeavesKey(c: Crypto, s: State, random: Block)
    requires WellFormed(s) && s.pending.Release? && EncryptionFails(c, random, s.pending.pub)
    ensures var u := OnApprove(c, s, random);
            && u.slots == s.slots && u.pending == Idle && u.sent == s.sent + [Reply([], INVALID_PARAMETER)]
            && |u.buf| == BUFFER_SIZE && u.buf[32..64] == s.slots[s.pending.slot]
  {
    hide DeviceX25519, BasePoint, Normalise, ValidName;
    var key := s.slots[s.pending.slot];
    var e := ApprovedEffect(c, s, random);
    assert Overlay(s.buf, 32, key)[32..64] == key;
    assert e.buf[32..64] == key;
    assert Overlay(e.buf, 0, Reply([], INVALID_PARAMETER))[32..64] == e.buf[32..64];
  }

  lemma SealedReleaseMessage(c: Crypto, s: State, random: Block)
    requires WellFormed(s) && s.pending.Release? && !EncryptionFails(c, random, s.pending.pub)
    ensures var pub := DeviceX25519(c, random, BasePoint()).value;
            var body := XorSeq(s.slots[s.pending.slot],
                               KeyStream(c, DeviceX25519(c, random, s.pending.pub).value, s.pending.pub, pub));
            OnApprove(c, s, random).sent == s.sent + [Reply(pub + body, SW_SUCCESS)]
  {
    hide DeviceX25519, BasePoint, Normalise, ValidName, Overlay, XorSeq, KeyStream;
  }

  lemma MaskedAlikeIff(a: Block, b: Block, stream: Block)
    ensures XorSeq(a, stream) == XorSeq(b, stream) <==> a == b
  {
    XorSeqTwice(a, stream);
    XorSeqTwice(b, stream);
  }

  lemma RepliesAlikeIff(pub: Block, a: Block, b: Block, code: Code)
    ensures Reply(pub + a, code) == Reply(pub + b, code) <==> a == b
  {
    assert Reply(pub + a, code)[32..64] == a && Reply(pub + b, code)[32..64] == b;
  }

  /** An approved release that succeeds tells the key by its message; one that fails tells nothing by
      its message, but the command buffer it leaves depends on the key. */
  lemma ReleaseTellsKey(c: Crypto, s: State, other: Block, random: Block)
    requires WellFormed(s) && s.pending.Release?
    ensures var slot, fails := s.pending.slot, EncryptionFails(c, random, s.pending.pub);
            var t := s.(slots := s.slots[slot := other]);
            && WellFormed(t)
            && var u, v := OnApprove(c, s, random), OnApprove(c, t, random);
               && (u.sent == v.sent <==> fails || s.slots[slot] == other)
               && (fails ==> (u.buf == v.buf <==> s.slots[slot] == other))
  {
    var t := s.(slots := s.slots[s.pending.slot := other]);
    OtherKey(s, s.pending.slot, other);
    hide EncryptionFails, OnApprove, Reply, WellFormed;
    if EncryptionFails(c, random, s.pending.pub) {
      FailedReleaseLeavesKey(c, s, random);
      FailedReleaseLeavesKey(c, t, random);
    } else {
      SealedReleasesAlike(c, s, t, random);
    }
  }

  lemma SealedReleasesAlike(c: Crypto, s: State, t: State, random: Block)
    requires WellFormed(s) && WellFormed(t) && s.pending == t.pending && s.sent == t.sent
    requires s.pending.Release? && !EncryptionFails(c, random, s.pending.pub)
    ensures OnApprove(c, s, random).sent == OnApprove(c, t, random).sent <==>
            s.slots[s.pending.slot] == t.slots[s.pending.slot]
  {
    var key, other := s.slots[s.pending.slot], t.slots[s.pending.slot];
    SealedReleaseMessage(c, s, random);
    SealedReleaseMessage(c, t, random);
    hide OnApprove, Reply, WellFormed, XorSeq, KeyStream, BasePoint, DeviceX25519;
    var pub := DeviceX25519(c, random, BasePoint()).value;
    var stream := KeyStream(c, DeviceX25519(c, random, s.pending.pub).value, s.pending.pub, pub);
    MaskedAlikeIff(key, other, stream);
    RepliesAlikeIff(pub, XorSeq(key, stream), XorSeq(other, stream), SW_SUCCESS);
    LastAlikeIff(s.sent, Reply(pub + XorSeq(key, stream), SW_SUCCESS), Reply(pub + XorSeq(other, stream), SW_SUCCESS));
  }

  lemma LastAlikeIff<T>(s: seq<T>, a: T, b: T)
    ensures s + [a] == s + [b] <==> a == b
  {
    assert (s + [a])[|s|] == a && (s + [b])[|s|] == b;
  }

  /** A name request announcing one byte more than it has. */
  function ShortNameRequest(pub: Block): seq<byte> {
    [CLA, 3, 0, 0, 33] + pub
  }

  /** So a command that is not self-contained tells something of the key after a failed release: it is
      rejected at once exactly when the key's byte 5 is not printable. */
  lemma FailedReleaseShows(c: Crypto, s: State, random: Block, pub: Block)
    requires WellFormed(s) && s.pending.Release? && EncryptionFails(c, random, s.pending.pub)
    ensures !SelfContained(ShortNameRequest(pub))
    ensures var u, key := OnApprove(c, s, random), s.slots[s.pending.slot];
            WellFormed(u) && OnApdu(u, ShortNameRequest(pub)).sent ==
            if 0x20 <= key[5] <= 0x7E then u.sent else u.sent + [Reply([], SW_INVALID_NAME)]
  {
    ApproveKeepsInvariant(c, s, random);
    FailedReleaseLeavesKey(c, s, random);
    hide OnApprove, EncryptionFails, Reply, WellFormed;
    var u, key := OnApprove(c, s, random), s.slots[s.pending.slot];
    assert u.buf[37] == u.buf[32..64][5] == key[5];
    ShortNameAnswered(u, pub);
    hide OnApdu;
  }

  lemma ShortNameAnswered(u: State, pub: Block)
    requires |u.buf| == BUFFER_SIZE
    ensures OnApdu(u, ShortNameRequest(pub)).sent ==
            if 0x20 <= u.buf[37] <= 0x7E then u.sent else u.sent + [Reply([], SW_INVALID_NAME)]
  {
    var name := [u.buf[37]];
    ShortNameDecodes(u.buf, pub);
    assert (pub + name)[32..] == name;
    assert ValidName(name) <==> 0x20 <= name[0] <= 0x7E;
    hide Decode, Overlay, ValidName, Reply;
  }

  lemma ShortNameDecodes(buf: seq<byte>, pub: Block)
    requires |buf| == BUFFER_SIZE
    ensures Decode(Overlay(buf, 0, ShortNameRequest(pub))) == GetKeyFromName(pub + [buf[37]])
  {
    var apdu := ShortNameRequest(pub);
    var b := Overlay(buf, 0, apdu);
    assert b[..37] == apdu && b[37] == buf[37];
    assert b[0] == apdu[0] && b[1] == apdu[1] && b[4] == apdu[4];
    assert b[5..38] == pub + [buf[37]];
  }

  /** A store request announcing five bytes more than it has. */
  function ShortStoreRequest(slot: byte, data: seq<byte>): (r: seq<byte>)
    ensures |r| == 5 + |data|
  {
    [CLA, 1, slot, 0, 32] + data
  }

  function Ending(data: seq<byte>, key: Block): Block
    requires |data| == 27
  {
    data + key[..5]
  }

  /** After a failed release, such a request to an empty slot stores the key's first five bytes there,
      for an approved release of that slot to hand out. */
  lemma FailedReleaseIsStored(c: Crypto, s: State, random: Block, slot: byte, data: seq<byte>)
    requires WellFormed(s) && s.pending.Release? && EncryptionFails(c, random, s.pending.pub)
    requires |data| == 27 && slot < SLOT_COUNT && slot !in s.slots
    ensures var u, key := OnApprove(c, s, random), s.slots[s.pending.slot];
            var t := OnApdu(u, ShortStoreRequest(slot, data));
            t.slots == s.slots[slot := Ending(data, key)] && t.sent == u.sent + [Reply([], SW_SUCCESS)]
  {
    ApproveKeepsInvariant(c, s, random);
    FailedReleaseLeavesKey(c, s, random);
    hide OnApprove, EncryptionFails, Reply, WellFormed;
    var u, key := OnApprove(c, s, random), s.slots[s.pending.slot];
    assert u.buf[32..37] == u.buf[32..64][..5] == key[..5];
    ShortStoreStored(u, slot, data);
    hide OnApdu;
  }

  lemma ShortStoreStored(u: State, slot: byte, data: seq<byte>)
    requires WellFormed(u) && |data| == 27 && slot < SLOT_COUNT && slot !in u.slots
    ensures var t := OnApdu(u, ShortStoreRequest(slot, data));
            t.slots == u.slots[slot := data + u.buf[32..37]] && t.sent == u.sent + [Reply([], SW_SUCCESS)]
  {
    ShortStoreDecodes(u.buf, slot, data);
    OutcomeOf(u, ShortStoreRequest(slot, data));
    hide Decode, Overlay, OnApdu, Reply;
  }

  lemma ShortStoreDecodes(buf: seq<byte>, slot: byte, data: seq<byte>)
    requires |buf| == BUFFER_SIZE && |data| == 27
    ensures Decode(Overlay(buf, 0, ShortStoreRequest(slot, data))) == StoreKey(slot, data + buf[32..37])
  {
    var apdu := ShortStoreRequest(slot, data);
    var b := Overlay(buf, 0, apdu);
    assert b[..32] == apdu && b[32..37] == buf[32..37];
    assert b[0] == apdu[0] && b[1] == apdu[1] && b[2] == apdu[2] && b[4] == apdu[4];
    assert b[5..32] == b[..32][5..] == data;
    assert b[5..37] == b[5..32] + b[32..37];
  }
}
