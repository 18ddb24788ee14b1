/** The public operations of the host library. */
module Kpl {
  import opened Bytes
  import opened Results
  import opened Curve
  import opened KeyExchange
  import opened LedgerAnswer
  import opened LedgerClient
  import App
  import Storage

  const STORE_KEY: byte := 1
  const GET_KEY: byte := 2
  const GET_KEY_FROM_NAME: byte := 3
  const GET_VALID_KEY_SLOTS: byte := 4
  const ERASE_ALL_SLOTS: byte := 5

  // ---- What the host sends ----

  function GetKeyCommand(c: Crypto, slot: byte, priv: Block): seq<byte> {
    App.CommandBytes(CLA, GET_KEY, slot, 0, PublicKey(c, priv))
  }

  function GetNameCommand(c: Crypto, name: seq<byte>, priv: Block): seq<byte>
    requires |name| <= App.MAX_NAME_SIZE
  {
    App.CommandBytes(CLA, GET_KEY_FROM_NAME, 0, 0, PublicKey(c, priv) + name)
  }

  // ---- What the host makes of an answer ----

  function StatusOutcome(r: Received): Result {
    var e := Checked(r);
    if e.result != SUCCESS then e.result else ParseAppSW(StatusOf(e.content))
  }

  datatype KeyOutcome = KeyOutcome(result: Result, key: seq<byte>)

  function KeyFrom(c: Crypto, r: Received, ownPriv: Block): (o: KeyOutcome)
    ensures o.result == SUCCESS ==> |o.key| == 32
  {
    if StatusOutcome(r) != SUCCESS then KeyOutcome(StatusOutcome(r), [])
    else if |r.content| != 66 then KeyOutcome(PROTOCOL_BAD_LENGTH, [])
    else
      match HostDecrypt(c, r.content[32..64], r.content[..32], PublicKey(c, ownPriv), ownPriv)
      case None => KeyOutcome(LIB_X25519_FAIL, [])
      case Some(key) => KeyOutcome(SUCCESS, key)
  }

  /** What a key request leaves in the caller's buffer: a failed decryption leaves the cipher text. */
  function OutAfter(c: Crypto, r: Received, ownPriv: Block, was: seq<byte>): seq<byte> {
    if StatusOutcome(r) != SUCCESS || |r.content| != 66 then was
    else
      match HostDecrypt(c, r.content[32..64], r.content[..32], PublicKey(c, ownPriv), ownPriv)
      case None => r.content[32..64]
      case Some(key) => key
  }

  /** The set bits, lowest first. */
  function SlotList(bits: nat, from: nat): seq<nat> {
    if bits == 0 then [] else (if bits % 2 == 1 then [from] else []) + SlotList(bits / 2, from + 1)
  }

  datatype SlotsOutcome = SlotsOutcome(result: Result, slots: seq<nat>)

  function SlotsFrom(r: Received): SlotsOutcome {
    if StatusOutcome(r) != SUCCESS then SlotsOutcome(StatusOutcome(r), [])
    else if |r.content| != 3 then SlotsOutcome(PROTOCOL_BAD_LENGTH, [])
    else SlotsOutcome(SUCCESS, SlotList(r.content[0], 0))
  }

  // ---- The slot list ----

  predicate Ascending(s: seq<nat>) {
    forall i, j | 0 <= i < j < |s| :: s[i] < s[j]
  }

  /** The list holds the numbers of the set bits, in ascending order, at most one per bit. */
  lemma {:induction false} SlotListMeans(bits: nat, from: nat, n: nat)
    requires bits < Pow2(n)
    ensures |SlotList(bits, from)| <= n && Ascending(SlotList(bits, from))
    ensures forall s | s in SlotList(bits, from) :: from <= s
    ensures forall s: nat {:trigger s in SlotList(bits, from)} ::
              s in SlotList(bits, from) <==> from <= s && Bit(bits, s - from)
    decreases n
  {
    if bits == 0 {
      forall s: nat
        ensures s in SlotList(bits, from) <==> from <= s && Bit(bits, s - from)
      {
        if from <= s {
          Storage.NoBits(s - from);
        }
      }
    } else {
      SlotListMeans(bits / 2, from + 1, n - 1);
      var first := if bits % 2 == 1 then [from] else [];
      var tail := SlotList(bits / 2, from + 1);
      assert SlotList(bits, from) == first + tail;
      forall s: nat
        ensures s in SlotList(bits, from) <==> from <= s && Bit(bits, s - from)
      {
        assert s in first + tail <==> s in first || s in tail;
      }
      assert forall i | 0 <= i < |tail| :: tail[i] in tail;
    }
  }

  // ---- Operations ----

  class KPL {
    const c: Crypto
    const transport: Transport

    constructor (c: Crypto, transport: Transport)
      ensures this.c == c && this.transport == transport
    {
      this.c, this.transport := c, transport;
    }

    /** Sends a command and waits for an answer of at most `room` bytes besides the status. */
    method Call(ins: byte, p1: byte, data: seq<byte>, room: nat) returns (res: Result, ans: LedgerAnswer)
      requires |data| <= 255
      modifies transport.Footprint()
      ensures fresh(ans) && fresh(ans.buf) && ans.Valid()
      ensures var e := Checked(old(transport.Expected(App.CommandBytes(CLA, ins, p1, 0, data), room + 2)));
              res == e.result && (res == SUCCESS ==> ans.Content() == e.content)
      ensures transport.Now() == old(transport.TrafficAfter(App.CommandBytes(CLA, ins, p1, 0, data), room + 2))
      ensures res == SUCCESS ==> 2 <= ans.size
    {
      hide Transport.Now, Transport.TrafficAfter, Transport.Expected;
      ans := new LedgerAnswer(room);
      var stream := new APDUStream(transport, CLA, ins, p1, 0);
      stream.Append(data);
      StreamBuildsCommand(CLA, ins, p1, 0, data);
      res := stream.Exchange(ans);
    }

    /** A command, and the meaning of the status it is answered with. */
    method CallForStatus(ins: byte, p1: byte, data: seq<byte>, room: nat) returns (res: Result, ans: LedgerAnswer)
      requires |data| <= 255
      modifies transport.Footprint()
      ensures fresh(ans) && fresh(ans.buf) && ans.Valid()
      ensures var e := old(transport.Expected(App.CommandBytes(CLA, ins, p1, 0, data), room + 2));
              res == StatusOutcome(e) && (res == SUCCESS ==> ans.Content() == e.content)
      ensures transport.Now() == old(transport.TrafficAfter(App.CommandBytes(CLA, ins, p1, 0, data), room + 2))
    {
      hide ParseAppSW;
      res, ans := Call(ins, p1, data, room);
      if res != SUCCESS {
        return;
      }
      var sw := ans.SW();
      res := ParseAppSW(sw);
    }

    method SetKey(slot: byte, key: seq<byte>) returns (res: Result)
      modifies transport.Footprint()
      ensures |key| != 32 ==> res == LIB_BAD_LENGTH && unchanged(transport.Footprint())
      ensures |key| == 32 ==>
                var command := App.CommandBytes(CLA, STORE_KEY, slot, 0, key);
                && res == StatusOutcome(old(transport.Expected(command, 2)))
                && transport.Now() == old(transport.TrafficAfter(command, 2))
    {
      hide StatusOutcome, App.CommandBytes;
      if |key| != 32 {
        return LIB_BAD_LENGTH;
      }
      var ans;
      res, ans := CallForStatus(STORE_KEY, slot, key, 0);
    }

    method EraseAllSlots() returns (res: Result)
      modifies transport.Footprint()
      ensures var command := App.CommandBytes(CLA, ERASE_ALL_SLOTS, 0, 0, []);
              && res == StatusOutcome(old(transport.Expected(command, 3)))
              && transport.Now() == old(transport.TrafficAfter(command, 3))
    {
      hide StatusOutcome, App.CommandBytes;
      var ans;
      res, ans := CallForStatus(ERASE_ALL_SLOTS, 0, [], 1);
    }

    /** The host's half of a key request, once the command is ready to be sent. */
    method SendKeyApduAndDecrypt(ins: byte, p1: byte, data: seq<byte>, out: array<byte>, ownPriv: Block)
      returns (res: Result)
      requires |data| <= 255 && out.Length == 32
      modifies transport.Footprint(), out
      ensures var e := old(transport.Expected(App.CommandBytes(CLA, ins, p1, 0, data), 66));
              var o := KeyFrom(c, e, ownPriv);
              && res == o.result && (res == SUCCESS ==> out[..] == o.key)
              && out[..] == OutAfter(c, e, ownPriv, old(out[..]))
      ensures transport.Now() == old(transport.TrafficAfter(App.CommandBytes(CLA, ins, p1, 0, data), 66))
    {
      hide PublicKey, HostDecrypt, StatusOutcome, App.CommandBytes;
      hide Transport.Now, Transport.TrafficAfter, Transport.Expected;
      var ans;
      res, ans := CallForStatus(ins, p1, data, 64);
      if res != SUCCESS {
        return;
      }
      if ans.size - 2 != 64 {
        return PROTOCOL_BAD_LENGTH;
      }
      var appPub: Block := ans.buf[..32];
      assert ans.Content()[..32] == appPub && ans.Content()[32..64] == ans.buf[32..64];
      Put(out, 0, ans.buf[32..64]);
      assert out[..] == out[..32] == ans.buf[32..64];
      var ok := X25519DecryptKey(c, out, appPub, PublicKey(c, ownPriv), ownPriv);
      res := if ok then SUCCESS else LIB_X25519_FAIL;
    }

    /** `ownPriv` is the fresh random private key. */
    method GetKey(slot: byte, out: array<byte>, ownPriv: Block) returns (res: Result)
      modifies transport.Footprint(), out
      ensures out.Length != 32 ==>
                res == LIB_BAD_LENGTH && out[..] == old(out[..]) && unchanged(transport.Footprint())
      ensures out.Length == 32 ==>
                var e := old(transport.Expected(GetKeyCommand(c, slot, ownPriv), 66));
                var o := KeyFrom(c, e, ownPriv);
                && res == o.result && (res == SUCCESS ==> out[..] == o.key)
                && out[..] == OutAfter(c, e, ownPriv, old(out[..]))
                && transport.Now() == old(transport.TrafficAfter(GetKeyCommand(c, slot, ownPriv), 66))
    {
      hide KeyFrom, OutAfter, App.CommandBytes, PublicKey;
      if out.Length != 32 {
        return LIB_BAD_LENGTH;
      }
      res := SendKeyApduAndDecrypt(GET_KEY, slot, PublicKey(c, ownPriv), out, ownPriv);
    }

    /** `name` is the caller's C string without its terminator. */
    method GetKeyFromName(name: seq<byte>, out: array<byte>, ownPriv: Block) returns (res: Result)
      modifies transport.Footprint(), out
      ensures |name| > App.MAX_NAME_SIZE || out.Length != 32 ==>
                res == LIB_BAD_LENGTH && out[..] == old(out[..]) && unchanged(transport.Footprint())
      ensures |name| <= App.MAX_NAME_SIZE && out.Length == 32 ==>
                var e := old(transport.Expected(GetNameCommand(c, name, ownPriv), 66));
                var o := KeyFrom(c, e, ownPriv);
                && res == o.result && (res == SUCCESS ==> out[..] == o.key)
                && out[..] == OutAfter(c, e, ownPriv, old(out[..]))
                && transport.Now() == old(transport.TrafficAfter(GetNameCommand(c, name, ownPriv), 66))
    {
      hide KeyFrom, OutAfter, App.CommandBytes, PublicKey;
      if |name| > App.MAX_NAME_SIZE || out.Length != 32 {
        return LIB_BAD_LENGTH;
      }
      res := SendKeyApduAndDecrypt(GET_KEY_FROM_NAME, 0, PublicKey(c, ownPriv) + name, out, ownPriv);
    }

    /** The decoding loop: appends the set bits of `bits` to `found`. */
    static method DecodeSlots(bits: byte, found: seq<nat>) returns (all: seq<nat>)
      ensures all == found + SlotList(bits, 0)
    {
      var slots: nat, s: nat := bits, 0;
      all := found;
      while slots > 0
        invariant found + SlotList(bits, 0) == all + SlotList(slots, s)
      {
        if slots % 2 == 1 {
          all := all + [s];
        }
        slots := slots / 2;
        s := s + 1;
      }
    }

    method GetValidKeySlots(found: seq<nat>) returns (res: Result, all: seq<nat>)
      modifies transport.Footprint()
      ensures var o := SlotsFrom(old(transport.Expected(App.CommandBytes(CLA, GET_VALID_KEY_SLOTS, 0, 0, []), 3)));
              res == o.result && all == found + o.slots
      ensures transport.Now() ==
              old(transport.TrafficAfter(App.CommandBytes(CLA, GET_VALID_KEY_SLOTS, 0, 0, []), 3))
    {
      all := found;
      hide StatusOutcome, SlotList, App.CommandBytes;
      var ans;
      res, ans := CallForStatus(GET_VALID_KEY_SLOTS, 0, [], 1);
      if res != SUCCESS {
        return;
      }
      if ans.size - 2 != 1 {
        return PROTOCOL_BAD_LENGTH, all;
      }
      assert ans.buf[0] == ans.Content()[0];
      all := DecodeSlots(ans.buf[0], all);
    }
  }
}
