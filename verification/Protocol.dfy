/** The protocol in bytes: what the host writes, what the device answers, and what the host makes of it,
    without the model's own tables and encodings. */
module Protocol {
  import opened Bytes
  import opened Wrappers
  import opened Results
  import opened Curve
  import opened Storage
  import opened App
  import opened AppProperties
  import opened X25519Device
  import opened KeyExchange
  import opened LedgerAnswer
  import opened Kpl
  import LedgerClient

  // ---- Commands as the host writes them ----

  /** The public key of a private key: the base point is 9. */
  lemma PublicKeyMeans(c: Crypto, priv: Block)
    ensures PublicKey(c, priv) == ToLE(c.scalarMult(DecodeScalar(priv), 9), 32)
  {
    hide DecodeScalar, ToLE;
    BasePointDecodes();
  }

  lemma CommandsWritten(c: Crypto, slot: byte, key: Block, name: seq<byte>, priv: Block)
    requires |name| <= 20
    ensures var pub := ToLE(c.scalarMult(DecodeScalar(priv), 9), 32);
            && App.CommandBytes(LedgerClient.CLA, Kpl.STORE_KEY, slot, 0, key) == [0xE0, 1, slot, 0, 32] + key
            && GetKeyCommand(c, slot, priv) == [0xE0, 2, slot, 0, 32] + pub
            && GetNameCommand(c, name, priv) == [0xE0, 3, 0, 0, 32 + |name|] + pub + name
            && App.CommandBytes(LedgerClient.CLA, Kpl.GET_VALID_KEY_SLOTS, 0, 0, []) == [0xE0, 4, 0, 0, 0]
            && App.CommandBytes(LedgerClient.CLA, Kpl.ERASE_ALL_SLOTS, 0, 0, []) == [0xE0, 5, 0, 0, 0]
  {
    PublicKeyMeans(c, priv);
    hide ToLE, DecodeScalar, PublicKey;
    var pub := PublicKey(c, priv);
    assert [0xE0, 3, 0, 0, 32 + |name|] + pub + name == [0xE0, 3, 0, 0, 32 + |name|] + (pub + name);
  }

  // ---- The device's answers to commands ----

  lemma RepliesInBytes(payload: seq<byte>)
    ensures Reply(payload, SW_SUCCESS) == payload + [0x90, 0x00]
    ensures Reply([], SW_SUCCESS) == [0x90, 0x00]
    ensures Reply([], INVALID_PARAMETER) == [0x68, 0x02]
    ensures Reply([], EXCEPTION_SECURITY) == [0x68, 0x04]
    ensures Reply([], SW_UNAUTHORIZED_ACCESS) == [0x68, 0x20]
    ensures Reply([], SW_EMPTY_SLOT) == [0x68, 0x21]
    ensures Reply([], SW_INVALID_NAME) == [0x68, 0x22]
    ensures Reply([], SW_UNKNOWN_INSTR) == [0x6D, 0x00]
    ensures Reply([], SW_INVALID_CLS) == [0x6E, 0x00]
    ensures Reply([], 0x6982) == [0x69, 0x82]
  {
  }

  /** Nothing but a message happened. */
  predicate JustSent(s: State, t: State, message: seq<byte>) {
    t.slots == s.slots && t.pending == s.pending && t.sent == s.sent + [message]
  }

  /** Nothing but an approval opened. */
  predicate JustAsked(s: State, t: State, p: Pending) {
    t.slots == s.slots && t.pending == p && t.sent == s.sent
  }

  /** A command as received over any earlier contents of the buffer, and its decoding. */
  lemma Received(s: State, cla: byte, ins: byte, p1: byte, p2: byte, data: seq<byte>)
    requires WellFormed(s) && |data| <= 255
    ensures var t := OnApdu(s, [cla, ins, p1, p2, |data|] + data);
            var req := if cla == 0xE0 then Dispatch(ins, p1, data) else Refused(SW_INVALID_CLS);
            match React(req, s.slots)
            case Ask(p) => JustAsked(s, t, p)
            case Answer(payload, code) =>
              && t.slots == SlotsAfter(req, s.slots) && t.pending == PendingAfter(req, s.pending)
              && t.sent == s.sent + [Reply(payload, code)]
  {
    CommandDecodes(s.buf, cla, ins, p1, p2, data);
    assert CommandBytes(cla, ins, p1, p2, data) == [cla, ins, p1, p2, |data|] + data;
    hide Decode, Overlay, Reply, Dispatch, CommandBytes, WellFormed;
  }

  /** GET_APP_CONFIGURATION: version 0.3.0. */
  lemma ConfigurationAnswered(s: State, p1: byte, p2: byte, data: seq<byte>)
    requires WellFormed(s) && |data| <= 255
    ensures JustSent(s, OnApdu(s, [0xE0, 0, p1, p2, |data|] + data), [0, 3, 0, 0x90, 0x00])
  {
    Received(s, 0xE0, 0, p1, p2, data);
    RepliesInBytes([0, 3, 0]);
    hide OnApdu, Reply;
    assert [0, 3, 0] + [0x90, 0x00] == [0, 3, 0, 0x90, 0x00];
  }

  /** STORE_KEY. */
  lemma StoreAnswered(s: State, slot: byte, p2: byte, data: seq<byte>)
    requires WellFormed(s) && |data| <= 255
    ensures var t := OnApdu(s, [0xE0, 1, slot, p2, |data|] + data);
            if slot >= 8 || |data| != 32 then JustSent(s, t, [0x68, 0x02])
            else if slot in s.slots then JustAsked(s, t, Overwrite(slot, data))
            else JustSent(s.(slots := s.slots[slot := data]), t, [0x90, 0x00])
  {
    hide OnApdu, Reply, WellFormed;
    Received(s, 0xE0, 1, slot, p2, data);
    RepliesInBytes([]);
  }

  /** GET_KEY. */
  lemma KeyAnswered(s: State, slot: byte, p2: byte, data: seq<byte>)
    requires WellFormed(s) && |data| <= 255
    ensures var t := OnApdu(s, [0xE0, 2, slot, p2, |data|] + data);
            if slot >= 8 || |data| != 32 then JustSent(s, t, [0x68, 0x02])
            else if slot !in s.slots then JustSent(s, t, [0x68, 0x21])
            else JustAsked(s, t, Release(slot, data))
  {
    hide OnApdu, Reply, WellFormed;
    Received(s, 0xE0, 2, slot, p2, data);
    RepliesInBytes([]);
  }

  predicate Printable(name: seq<byte>) {
    forall i | 0 <= i < |name| :: 0x1F < name[i] < 0x7F
  }

  /** GET_KEY_FROM_NAME; a rejected name still replaces the caller of a pending name approval. */
  lemma NameAnswered(s: State, p1: byte, p2: byte, data: seq<byte>)
    requires WellFormed(s) && |data| <= 255
    ensures var t := OnApdu(s, [0xE0, 3, p1, p2, |data|] + data);
            if |data| <= 32 || |data| > 52 then JustSent(s, t, [0x68, 0x02])
            else if Printable(data[32..]) then JustAsked(s, t, DeriveName(data[32..], data[..32]))
            else if s.pending.DeriveName?
            then JustSent(s.(pending := DeriveName(s.pending.name, data[..32])), t, [0x68, 0x22])
            else JustSent(s, t, [0x68, 0x22])
  {
    hide OnApdu, Reply, ValidName, Printable, WellFormed;
    Received(s, 0xE0, 3, p1, p2, data);
    RepliesInBytes([]);
    if 32 < |data| <= 52 {
      PrintableIsValid(data[32..]);
    }
  }

  lemma PrintableIsValid(name: seq<byte>)
    ensures ValidName(name) <==> Printable(name)
  {
  }

  /** GET_VALID_KEY_SLOTS: bit k of the one byte says whether slot k is set. */
  lemma ListAnswered(s: State, p1: byte, p2: byte, data: seq<byte>)
    requires WellFormed(s) && |data| <= 255
    ensures exists bits: byte ::
              && JustSent(s, OnApdu(s, [0xE0, 4, p1, p2, |data|] + data), [bits, 0x90, 0x00])
              && forall k: nat | k < 8 :: Bit(bits, k) <==> k in s.slots
  {
    var bits := Bitfield(s.slots);
    BitfieldMeans(s.slots);
    hide OnApdu, Reply, Bit, Bitfield, WellFormed;
    Received(s, 0xE0, 4, p1, p2, data);
    RepliesInBytes([bits]);
    assert [bits] + [0x90, 0x00] == [bits, 0x90, 0x00];
  }

  lemma BitfieldMeans(slots: map<nat, Block>)
    ensures forall k: nat | k < 8 :: Bit(Bitfield(slots), k) <==> k in slots
  {
    hide Bit, Bits;
    forall k: nat | k < 8
      ensures Bit(Bitfield(slots), k) <==> k in slots
    {
      BitsDescribe(slots, 0, k);
    }
  }

  /** ERASE_ALL_SLOTS. */
  lemma EraseAnswered(s: State, p1: byte, p2: byte, data: seq<byte>)
    requires WellFormed(s) && |data| <= 255
    ensures JustAsked(s, OnApdu(s, [0xE0, 5, p1, p2, |data|] + data), EraseAll)
  {
    hide OnApdu, Reply, WellFormed;
    Received(s, 0xE0, 5, p1, p2, data);
  }

  lemma EmptyAnswered(s: State)
    requires WellFormed(s)
    ensures JustSent(s, OnApdu(s, []), [0x69, 0x82])
  {
    RepliesInBytes([]);
    hide Reply, Overlay, ValidName;
  }

  /** Other instructions, and other classes. */
  lemma OthersAnswered(s: State, cla: byte, ins: byte, p1: byte, p2: byte, data: seq<byte>)
    requires WellFormed(s) && |data| <= 255
    ensures cla != 0xE0 ==> JustSent(s, OnApdu(s, [cla, ins, p1, p2, |data|] + data), [0x6E, 0x00])
    ensures ins > 5 ==> JustSent(s, OnApdu(s, [0xE0, ins, p1, p2, |data|] + data), [0x6D, 0x00])
  {
    hide OnApdu, Reply, WellFormed;
    RepliesInBytes([]);
    Received(s, cla, ins, p1, p2, data);
    Received(s, 0xE0, ins, p1, p2, data);
  }

  /** The buffer is never cleared: beyond a command's header it holds what was received, and beyond that
      what it held before. */
  lemma BufferKeeps(s: State, apdu: seq<byte>, i: nat)
    requires WellFormed(s) && |apdu| <= 260 && 5 <= i < 260
    ensures |OnApdu(s, apdu).buf| == 260
    ensures OnApdu(s, apdu).buf[i] == if i < |apdu| then apdu[i] else s.buf[i]
  {
    var b := Overlay(s.buf, 0, apdu);
    OverlayElsewhere(s.buf, 0, apdu, i);
    hide Decode, ValidName, Bitfield, Overlay, Reply, SlotsAfter, PendingAfter, WellFormed;
    if apdu == [] {
      OverlayElsewhere(b, 0, Reply([], 0x6982), i);
    } else {
      var r := React(Decode(b), s.slots);
      hide React;
      if r.Ask? {
        OverlayElsewhere(b, 0, Reply([], SW_SUCCESS), i);
      } else {
        OverlayElsewhere(b, 0, r.payload, i);
        OverlayElsewhere(Overlay(b, 0, r.payload), 0, Reply(r.payload, r.code), i);
      }
    }
  }

  // ---- The device's answers to presses ----

  lemma DenialAnswered(s: State)
    requires WellFormed(s) && s.pending != Idle
    ensures JustSent(s.(pending := Idle), OnDeny(s), [0x68, 0x20])
  {
    RepliesInBytes([]);
    hide Reply, Overlay, ValidName;
  }

  lemma StoreApproved(c: Crypto, s: State, random: Block)
    requires WellFormed(s) && s.pending.Overwrite?
    ensures var t := OnApprove(c, s, random);
            JustSent(s.(pending := Idle, slots := s.slots[s.pending.slot := s.pending.key]), t, [0x90, 0x00])
  {
    RepliesInBytes([]);
    hide Reply, Overlay;
  }

  lemma EraseApproved(c: Crypto, s: State, random: Block)
    requires WellFormed(s) && s.pending.EraseAll?
    ensures JustSent(s.(pending := Idle, slots := map[]), OnApprove(c, s, random), [0x90, 0x00])
  {
    RepliesInBytes([]);
    hide Reply, Overlay;
  }

  /** A key on its way to a caller: the fresh public key, the key masked with the hash of the shared
      secret, the caller's public key and the fresh one, and the status; or a status only. */
  predicate HandsOut(c: Crypto, s: State, t: State, key: Block, callerPub: Block, random: Block) {
    var k := DecodeScalar(random);
    var pub, secret := ToLE(c.scalarMult(k, 9), 32), ToLE(c.scalarMult(k, FromLE(callerPub)), 32);
    if c.refuses(k, 9) || c.refuses(k, FromLE(callerPub)) then JustSent(s, t, [0x68, 0x02])
    else JustSent(s, t, pub + XorSeq(key, c.blake2b(secret + callerPub + pub)) + [0x90, 0x00])
  }

  lemma Delivered(c: Crypto, s: State, key: Block, callerPub: Block, random: Block)
    requires |s.buf| == BUFFER_SIZE
    ensures HandsOut(c, s.(pending := Idle), Finish(s, Deliver(c, s, key, callerPub, random)), key, callerPub, random)
  {
    SealedInBytes(c, key, random, callerPub);
    var e := Encrypt(c, key, random, callerPub);
    hide Encrypt, Overlay, AfterEncryption, DecodeScalar, FromLE, ToLE, XorSeq, Reply;
    if e.Sealed? {
      RepliesInBytes(e.pub + e.body);
    } else {
      RepliesInBytes([]);
    }
  }

  lemma KeyApproved(c: Crypto, s: State, random: Block)
    requires WellFormed(s) && s.pending.Release?
    ensures HandsOut(c, s.(pending := Idle), OnApprove(c, s, random),
                     s.slots[s.pending.slot], s.pending.pub, random)
  {
    Delivered(c, s, s.slots[s.pending.slot], s.pending.pub, random);
    hide HandsOut, Deliver, Finish, ValidName;
  }

  /** The path derived for a hash: 0x804B5041, then its bytes two by two, the low one first, hardened. */
  predicate PathOf(path: seq<nat>, hash: Block) {
    |path| == 17 && path[0] == 0x804B_5041 &&
    forall i | 0 <= i < 16 :: Hardened(path[i + 1], hash[2 * i], hash[2 * i + 1])
  }

  predicate Hardened(word: nat, low: byte, high: byte) {
    word >= 0x8000_0000 && (word - 0x8000_0000) % 256 == low && (word - 0x8000_0000) / 256 == high
  }

  lemma PathIs(path: seq<nat>, hash: Block)
    requires PathOf(path, hash)
    ensures path == Path(hash)
  {
    forall i | 0 <= i < 17
      ensures path[i] == Path(hash)[i]
    {
      if i > 0 {
        var j := i - 1;
        assert Hardened(path[j + 1], hash[2 * j], hash[2 * j + 1]);
        assert Path(hash)[i] == PathWord(hash, j);
      }
    }
  }

  /** The key of a name: the hash of the 64 bytes derived on the path of the hash of "dbname", a zero
      byte and the name. */
  lemma NameKeyMeans(c: Crypto, name: seq<byte>, path: seq<nat>)
    requires PathOf(path, c.sha256([0x64, 0x62, 0x6E, 0x61, 0x6D, 0x65, 0x00] + name))
    ensures NameKey(c, name) ==
            if c.derive(path).Some? then Some(c.sha256(c.derive(path).value)) else None
  {
    PathIs(path, c.sha256(SEED_PREFIX + name));
    hide Path, PathOf;
  }

  lemma NameApproved(c: Crypto, s: State, random: Block)
    requires WellFormed(s) && s.pending.DeriveName?
    ensures var key, t := NameKey(c, s.pending.name), OnApprove(c, s, random);
            if key == None then JustSent(s.(pending := Idle), t, [0x68, 0x04])
            else HandsOut(c, s.(pending := Idle), t, key.value, s.pending.pub, random)
  {
    RepliesInBytes([]);
    hide NameKey, HandsOut, Deliver, ValidName, Reply, Overlay;
    if NameKey(c, s.pending.name).Some? {
      Delivered(c, s, NameKey(c, s.pending.name).value, s.pending.pub, random);
    }
  }

  /** Two messages with one hash, or two paths with one node. */
  ghost predicate Collides(c: Crypto) {
    || (exists a: seq<byte>, b: seq<byte> :: a != b && c.sha256(a) == c.sha256(b))
    || (exists p: seq<nat>, q: seq<nat> :: p != q && c.derive(p).Some? && c.derive(p) == c.derive(q))
  }

  /** Two names have one key only if a hash or the derivation collides. */
  lemma NamesHaveOwnKeys(c: Crypto, m: seq<byte>, n: seq<byte>)
    requires m != n && NameKey(c, m).Some? && NameKey(c, m) == NameKey(c, n)
    ensures Collides(c)
  {
    var a, b := SEED_PREFIX + m, SEED_PREFIX + n;
    assert a[7..] == m && b[7..] == n;
    PathsHardenedAndInjective(c.sha256(a), c.sha256(b));
    hide Path;
    var p, q := Path(c.sha256(a)), Path(c.sha256(b));
    if c.sha256(a) != c.sha256(b) && c.derive(p) != c.derive(q) {
      assert c.sha256(c.derive(p).value) == c.sha256(c.derive(q).value);
    }
  }

  // ---- What the host makes of answers ----

  /** Every status word the host knows; the transport's results and its own checks are never statuses. */
  lemma StatusMeans(sw: nat)
    ensures var r := ParseAppSW(sw);
            && (r == SUCCESS <==> sw == 0x9000)
            && (r == PROTOCOL_BAD_PARAM <==> sw in {0x6D00, 0x6E00, 0x6802})
            && (r == APP_SECURITY_ERROR <==> sw == 0x6804)
            && (r == APP_UNAUTHORIZED_ACCESS <==> sw == 0x6820)
            && (r == APP_EMPTY_SLOT <==> sw == 0x6821)
            && (r == APP_INVALID_NAME <==> sw == 0x6822)
            && (r == APP_UNKNOWN_ERROR <==>
                  sw !in {0x9000, 0x6D00, 0x6E00, 0x6802, 0x6804, 0x6820, 0x6821, 0x6822})
  {
  }

  /** What any call reports of an answer: the transport's failure, an answer too short for a status, or
      the meaning of its last two bytes, the high one first. */
  lemma AnswerStatus(r: Received)
    ensures r.result != SUCCESS ==> StatusOutcome(r) == r.result
    ensures r.result == SUCCESS && |r.content| < 2 ==> StatusOutcome(r) == PROTOCOL_BAD_LENGTH
    ensures r.result == SUCCESS && |r.content| >= 2 ==>
              var n := |r.content|;
              StatusOutcome(r) == ParseAppSW(0x100 * r.content[n - 2] as int + r.content[n - 1] as int)
    ensures StatusOutcome(r) == SUCCESS <==>
              r.result == SUCCESS && |r.content| >= 2 && r.content[|r.content| - 2..] == [0x90, 0x00]
  {
    hide ParseAppSW;
    if r.result == SUCCESS && |r.content| >= 2 {
      var n := |r.content|;
      var tail := r.content[n - 2..];
      assert tail[0] == r.content[n - 2] && tail[1] == r.content[n - 1];
      assert tail == [tail[0], tail[1]];
      StatusMeans(Load16(tail));
    }
  }

  /** A success of exactly `n` bytes. */
  predicate Whole(r: Received, n: nat) {
    r.result == SUCCESS && |r.content| == n + 2 && r.content[n..] == [0x90, 0x00]
  }

  /** The slot list succeeds exactly on one byte followed by 0x9000, and is then the numbers of its set
      bits in ascending order; a success of any other size is a length error, and any failure is empty. */
  lemma SlotListAnswer(r: Received)
    ensures var o := SlotsFrom(r);
            && (o.result == SUCCESS <==> Whole(r, 1))
            && (o.result == SUCCESS ==>
                  && (forall i, j | 0 <= i < j < |o.slots| :: o.slots[i] < o.slots[j])
                  && forall k: nat :: k in o.slots <==> Bit(r.content[0], k))
            && (o.result != SUCCESS ==>
                  o.slots == [] && o.result ==
                    if StatusOutcome(r) == SUCCESS then PROTOCOL_BAD_LENGTH else StatusOutcome(r))
  {
    AnswerStatus(r);
    hide StatusOutcome, SlotList, Bit;
    if StatusOutcome(r) == SUCCESS && |r.content| == 3 {
      assert Pow2(8) == 256;
      SlotListMeans(r.content[0], 0, 8);
    }
  }

  /** Unmasking, from the multiplication, the base point 9 and the hash alone: a zero shared coordinate
      fails, else the hash of secret, host's and device's public key is taken off. */
  function Unmasked(c: Crypto, devicePub: Block, body: Block, priv: Block): KeyOutcome {
    var k := DecodeScalar(priv);
    var shared := c.scalarMult(k, DecodeU(devicePub));
    var pub := ToLE(c.scalarMult(k, 9), 32);
    if shared == 0 then KeyOutcome(LIB_X25519_FAIL, [])
    else KeyOutcome(SUCCESS, XorSeq(body, c.blake2b(ToLE(shared, 32) + pub + devicePub)))
  }

  /** A key request: exactly 64 bytes followed by 0x9000 are unmasked, a success of any other size is a
      length error, and any other status is reported as such. */
  lemma KeyAnswer(c: Crypto, r: Received, priv: Block)
    ensures Whole(r, 64) ==> KeyFrom(c, r, priv) == Unmasked(c, r.content[..32], r.content[32..64], priv)
    ensures !Whole(r, 64) ==>
              KeyFrom(c, r, priv) ==
              KeyOutcome(if StatusOutcome(r) == SUCCESS then PROTOCOL_BAD_LENGTH else StatusOutcome(r), [])
  {
    AnswerStatus(r);
    PublicKeyMeans(c, priv);
    hide StatusOutcome, DecodeScalar, DecodeU, ToLE, XorSeq, PublicKey;
  }

  /** What a key request leaves in the caller's buffer: the key if it succeeds, the masked key if only
      the multiplication fails, and what it held before otherwise. */
  lemma KeyBuffer(c: Crypto, r: Received, priv: Block, was: seq<byte>)
    ensures OutAfter(c, r, priv, was) ==
            if !Whole(r, 64) then was
            else
              var o := Unmasked(c, r.content[..32], r.content[32..64], priv);
              if o.result == SUCCESS then o.key else r.content[32..64]
  {
    AnswerStatus(r);
    PublicKeyMeans(c, priv);
    hide StatusOutcome, DecodeScalar, DecodeU, ToLE, XorSeq, PublicKey;
  }
}
