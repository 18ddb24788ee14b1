/** The device application as a state machine over commands, button presses and resets. */
module App {
  import opened Bytes
  import opened Wrappers
  import opened Results
  import opened Curve
  import opened Storage
  import opened X25519Device

  const BUFFER_SIZE: nat := 260
  const CLA: byte := 0xE0
  const MAX_NAME_SIZE: nat := 20

  const SEED_PREFIX: seq<byte> := [0x64, 0x62, 0x6E, 0x61, 0x6D, 0x65, 0x00]
  const BIP39_PATH: nat := 0x804B_5041

  /** What approving now would do. */
  datatype Pending =
    | Idle
    | Overwrite(slot: nat, key: Block)
    | Release(slot: nat, pub: Block)
    | DeriveName(name: seq<byte>, pub: Block)
    | EraseAll

  /** `sent` is every message transmitted so far, in order. */
  datatype State = State(slots: map<nat, Block>, pending: Pending, buf: seq<byte>, sent: seq<seq<byte>>)

  /** What the command buffer may hold after a start. */
  type Ram = m: seq<byte> | |m| == BUFFER_SIZE witness seq(BUFFER_SIZE, i => 0)

  datatype Event =
    | Apdu(bytes: seq<byte>)
    | Approve(random: Block)
    | Deny
    | IoReset
    | PowerCycle(ram: Ram)

  // ---- Commands ----

  type Code = n: nat | n < 0x1_0000

  datatype Request =
    | Refused(code: Code)
    | Configuration
    | StoreKey(slot: nat, data: seq<byte>)
    | GetKey(slot: nat, data: seq<byte>)
    | GetKeyFromName(data: seq<byte>)
    | ValidSlots
    | EraseAllSlots

  /** The command in the buffer; its length byte is trusted, whatever was received. */
  function Decode(buf: seq<byte>): Request
    requires |buf| == BUFFER_SIZE
  {
    var data := buf[5..5 + buf[4]];
    if buf[0] != CLA then Refused(SW_INVALID_CLS)
    else Dispatch(buf[1], buf[2], data)
  }

  /** A command APDU: five header bytes, the last the data's length, then the data. */
  function CommandBytes(cla: byte, ins: byte, p1: byte, p2: byte, data: seq<byte>): (r: seq<byte>)
    requires |data| <= 255
    ensures |r| == 5 + |data| <= BUFFER_SIZE
  {
    [cla, ins, p1, p2, |data|] + data
  }

  /** The handler the dispatch table selects for an instruction. */
  function Dispatch(ins: byte, p1: byte, data: seq<byte>): Request {
    match ins
    case 0 => Configuration
    case 1 => StoreKey(p1, data)
    case 2 => GetKey(p1, data)
    case 3 => GetKeyFromName(data)
    case 4 => ValidSlots
    case 5 => EraseAllSlots
    case _ => Refused(SW_UNKNOWN_INSTR)
  }

  /** Whatever the buffer held, a well-formed command decodes to what it was built from. */
  lemma CommandDecodes(buf: seq<byte>, cla: byte, ins: byte, p1: byte, p2: byte, data: seq<byte>)
    requires |buf| == BUFFER_SIZE && |data| <= 255
    ensures Decode(Overlay(buf, 0, CommandBytes(cla, ins, p1, p2, data))) ==
            if cla == CLA then Dispatch(ins, p1, data) else Refused(SW_INVALID_CLS)
  {
    hide Dispatch;
    var bytes := CommandBytes(cla, ins, p1, p2, data);
    var b := Overlay(buf, 0, bytes);
    assert b[..|bytes|] == bytes;
    assert b[0] == bytes[0] && b[1] == bytes[1] && b[2] == bytes[2] && b[4] == bytes[4];
    assert b[5..5 + |data|] == bytes[5..] == data;
  }

  predicate ValidName(name: seq<byte>) {
    forall i | 0 <= i < |name| :: 0x20 <= name[i] <= 0x7E
  }

  /** The bitfield of the slots from `from` on. */
  function Bits(slots: map<nat, Block>, from: nat): (r: nat)
    requires from <= SLOT_COUNT
    ensures r < Pow2(SLOT_COUNT - from)
    decreases SLOT_COUNT - from
  {
    if from == SLOT_COUNT then 0 else (if from in slots then 1 else 0) + 2 * Bits(slots, from + 1)
  }

  function Bitfield(slots: map<nat, Block>): byte {
    assert Pow2(8) == 256;
    Bits(slots, 0)
  }

  /** A command is answered at once, or asks for approval. */
  datatype Reaction = Answer(payload: seq<byte>, code: Code) | Ask(pending: Pending)

  function React(req: Request, slots: map<nat, Block>): (r: Reaction)
    ensures r.Answer? ==> |r.payload| <= 3
    ensures r.Ask? ==> r.pending != Idle
  {
    match req
    case Refused(code) => Answer([], code)
    case Configuration => Answer([0, 3, 0], SW_SUCCESS)
    case StoreKey(slot, data) =>
      if slot >= SLOT_COUNT || |data| != 32 then Answer([], INVALID_PARAMETER)
      else if slot in slots then Ask(Overwrite(slot, data))
      else Answer([], SW_SUCCESS)
    case GetKey(slot, data) =>
      if slot >= SLOT_COUNT || |data| != 32 then Answer([], INVALID_PARAMETER)
      else if slot !in slots then Answer([], SW_EMPTY_SLOT)
      else Ask(Release(slot, data))
    case GetKeyFromName(data) =>
      if |data| <= 32 || |data| > 32 + MAX_NAME_SIZE then Answer([], INVALID_PARAMETER)
      else if !ValidName(data[32..]) then Answer([], SW_INVALID_NAME)
      else Ask(DeriveName(data[32..], data[..32]))
    case ValidSlots => Answer([Bitfield(slots)], SW_SUCCESS)
    case EraseAllSlots => Ask(EraseAll)
  }

  /** Only a store to an empty slot changes the slots without approval. */
  function SlotsAfter(req: Request, slots: map<nat, Block>): map<nat, Block> {
    if req.StoreKey? && req.slot < SLOT_COUNT && |req.data| == 32 && req.slot !in slots
    then slots[req.slot := req.data]
    else slots
  }

  /** A name request is copied before its name is checked: a rejected one still replaces the
      caller's public key of a pending name approval. */
  function PendingAfter(req: Request, pending: Pending): Pending {
    if req.GetKeyFromName? && 32 < |req.data| <= 32 + MAX_NAME_SIZE && pending.DeriveName?
    then pending.(pub := req.data[..32])
    else pending
  }

  function Reply(payload: seq<byte>, code: Code): (r: seq<byte>)
    ensures |r| == |payload| + 2
  {
    payload + BE16(Normalise(code))
  }

  /** The state a handler leaves, its payload at the start of the buffer. */
  function AfterReaction(s: State, req: Request): State
    requires |s.buf| == BUFFER_SIZE
  {
    match React(req, s.slots)
    case Ask(p) => s.(pending := p)
    case Answer(payload, _) =>
      State(SlotsAfter(req, s.slots), PendingAfter(req, s.pending), Overlay(s.buf, 0, payload), s.sent)
  }

  /** The status word is appended; a deferred command's message is not sent. */
  function OnApdu(s: State, apdu: seq<byte>): State
    requires |s.buf| == BUFFER_SIZE && |apdu| <= BUFFER_SIZE
  {
    var received := s.(buf := Overlay(s.buf, 0, apdu));
    if apdu == [] then Transmit(received, Reply([], 0x6982))
    else
      var req := Decode(received.buf);
      match React(req, s.slots)
      case Ask(p) => received.(pending := p, buf := Overlay(received.buf, 0, Reply([], SW_SUCCESS)))
      case Answer(payload, code) => Transmit(AfterReaction(received, req), Reply(payload, code))
  }

  function Transmit(s: State, message: seq<byte>): State
    requires |s.buf| == BUFFER_SIZE && |message| <= BUFFER_SIZE
  {
    s.(buf := Overlay(s.buf, 0, message), sent := s.sent + [message])
  }

  // ---- Approval ----

  /** Private key indices of the derivation path: the application's, then the hash two bytes a word. */
  function Path(hash: Block): seq<nat> {
    [BIP39_PATH] + seq(16, i requires 0 <= i < 16 => PathWord(hash, i))
  }

  function PathWord(hash: Block, i: nat): nat
    requires i < 16
  {
    var low: nat, high: nat := hash[2 * i], hash[2 * i + 1];
    0x8000_0000 + low + 256 * high
  }

  /** The key of a name; the operating system may refuse the derivation. */
  function NameKey(c: Crypto, name: seq<byte>): Option<Block> {
    match c.Derive(Path(c.Sha256(SEED_PREFIX + name)))
    case None => None
    case Some(node) => Some(c.Sha256(node))
  }

  /** What an approval callback leaves: the slots, the buffer, and the payload and code to send. */
  datatype Effect = Effect(slots: map<nat, Block>, buf: seq<byte>, payload: seq<byte>, code: Code)

  /** Hands out `key`, encrypted for the caller; on failure only the status is sent. */
  function Deliver(c: Crypto, s: State, key: Block, pub: Block, random: Block): (r: Effect)
    requires |s.buf| == BUFFER_SIZE
    ensures |r.buf| == BUFFER_SIZE && |r.payload| <= 64
  {
    var e := Encrypt(c, key, random, pub);
    var buf := AfterEncryption(Overlay(s.buf, 32, key), e);
    if e.Sealed? then Effect(s.slots, buf, e.pub + e.body, SW_SUCCESS)
    else Effect(s.slots, buf, [], INVALID_PARAMETER)
  }

  function ApprovedEffect(c: Crypto, s: State, random: Block): (r: Effect)
    requires WellFormed(s) && s.pending != Idle
    ensures |r.buf| == BUFFER_SIZE && |r.payload| <= 64
  {
    match s.pending
    case Overwrite(slot, key) => Effect(s.slots[slot := key], s.buf, [], SW_SUCCESS)
    case EraseAll => Effect(map[], s.buf, [], SW_SUCCESS)
    case Release(slot, pub) => Deliver(c, s, s.slots[slot], pub, random)
    case DeriveName(name, pub) =>
      match NameKey(c, name)
      case None => Effect(s.slots, s.buf, [], EXCEPTION_SECURITY)
      case Some(key) => Deliver(c, s, key, pub, random)
  }

  /** The end of every approval: the reply is written, sent, and the screen is left. */
  function Finish(s: State, e: Effect): State
    requires |e.buf| == BUFFER_SIZE && |e.payload| <= 64
  {
    var reply := Reply(e.payload, e.code);
    State(e.slots, Idle, Overlay(e.buf, 0, reply), s.sent + [reply])
  }

  function OnApprove(c: Crypto, s: State, random: Block): State
    requires WellFormed(s)
  {
    if s.pending == Idle then s else Finish(s, ApprovedEffect(c, s, random))
  }

  function OnDeny(s: State): State
    requires |s.buf| == BUFFER_SIZE
  {
    if s.pending == Idle then s else Finish(s, Effect(s.slots, s.buf, [], SW_UNAUTHORIZED_ACCESS))
  }

  // ---- Steps and runs ----

  predicate Feasible(e: Event) {
    e.Apdu? ==> |e.bytes| <= BUFFER_SIZE
  }

  function Step(c: Crypto, s: State, e: Event): State
    requires WellFormed(s) && Feasible(e)
  {
    match e
    case Apdu(bytes) => OnApdu(s, bytes)
    case Approve(random) => OnApprove(c, s, random)
    case Deny => OnDeny(s)
    case IoReset => s.(pending := Idle)
    case PowerCycle(ram) => s.(pending := Idle, buf := ram)
  }

  /** A pending approval always refers to something that can still be done. */
  predicate Fulfillable(p: Pending, slots: map<nat, Block>) {
    match p
    case Overwrite(slot, _) => slot < SLOT_COUNT && slot in slots
    case Release(slot, _) => slot < SLOT_COUNT && slot in slots
    case DeriveName(name, _) => 1 <= |name| <= MAX_NAME_SIZE && ValidName(name)
    case _ => true
  }

  predicate WellFormed(s: State) {
    && |s.buf| == BUFFER_SIZE
    && (forall slot | slot in s.slots :: slot < SLOT_COUNT)
    && Fulfillable(s.pending, s.slots)
  }

  lemma ReactionKeepsInvariant(s: State, req: Request)
    requires WellFormed(s)
    ensures WellFormed(AfterReaction(s, req)) && AfterReaction(s, req).sent == s.sent
  {
    hide Overlay, ValidName, Bitfield;
    assert forall slot | slot in s.slots :: slot in SlotsAfter(req, s.slots);
  }

  lemma ApduKeepsInvariant(s: State, apdu: seq<byte>)
    requires WellFormed(s) && |apdu| <= BUFFER_SIZE
    ensures WellFormed(OnApdu(s, apdu))
  {
    hide Decode, Overlay, Reply, ValidName, Bitfield;
    var received := s.(buf := Overlay(s.buf, 0, apdu));
    ReactionKeepsInvariant(received, Decode(received.buf));
  }

  lemma ApproveKeepsInvariant(c: Crypto, s: State, random: Block)
    requires WellFormed(s)
    ensures WellFormed(OnApprove(c, s, random))
    ensures OnApprove(c, s, random).pending == Idle
  {
    hide Encrypt, Overlay, Reply, NameKey, ValidName;
  }

  /** Every step keeps the invariant, under any interleaving of commands, presses and resets. */
  lemma StepKeepsInvariant(c: Crypto, s: State, e: Event)
    requires WellFormed(s) && Feasible(e)
    ensures WellFormed(Step(c, s, e))
  {
    hide OnApdu, OnApprove, Overlay, Reply, ValidName;
    match e
    case Apdu(bytes) => ApduKeepsInvariant(s, bytes);
    case Approve(random) => ApproveKeepsInvariant(c, s, random);
    case _ =>
  }

  predicate FeasibleRun(run: seq<Event>) {
    forall i | 0 <= i < |run| :: Feasible(run[i])
  }

  function Run(c: Crypto, s: State, run: seq<Event>): (r: State)
    requires WellFormed(s) && FeasibleRun(run)
    ensures WellFormed(r)
    decreases |run|
  {
    if run == [] then s
    else
      StepKeepsInvariant(c, s, run[0]);
      Run(c, Step(c, s, run[0]), run[1..])
  }
}
