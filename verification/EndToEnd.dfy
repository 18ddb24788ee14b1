/** Host library and device application together: one call, whatever is still on its way or on the
    approval screen from earlier ones. */
module EndToEnd {
  import opened Bytes
  import opened Wrappers
  import opened Results
  import opened Curve
  import opened KeyExchange
  import opened X25519Device
  import opened Storage
  import opened App
  import opened AppProperties
  import opened LedgerAnswer
  import opened Kpl
  import opened Wire
  import Usb

  /** What the user does during a call; `Leaves` is nothing, and unplugging resets the device's IO. */
  datatype User = Approves(random: Block) | Denies | Unplugs | LosesPower(ram: Ram) | Leaves

  /** The way between host and device may lose the command, or what the device sends meanwhile. */
  datatype Link = Works | LosesCommand | LosesReply

  /** The device, and the replies the host has not read; both outlive a call. */
  datatype World = World(device: State, way: Way)

  // ---- The device during a call ----

  function UserEvents(user: User): (run: seq<Event>)
    ensures FeasibleRun(run)
  {
    match user
    case Approves(random) => [Approve(random)]
    case Denies => [Deny]
    case Unplugs => [IoReset]
    case LosesPower(ram) => [PowerCycle(ram)]
    case Leaves => []
  }

  function CallEvents(command: seq<byte>, user: User, link: Link): (run: seq<Event>)
    requires |command| <= BUFFER_SIZE
    ensures FeasibleRun(run)
  {
    if link == LosesCommand then UserEvents(user) else [Apdu(command)] + UserEvents(user)
  }

  predicate Sendable(ms: seq<seq<byte>>) {
    forall i | 0 <= i < |ms| :: 2 <= |ms[i]| <= 66
  }

  lemma StepSends(c: Crypto, s: State, e: Event)
    requires WellFormed(s) && Feasible(e)
    ensures var t := Step(c, s, e);
            s.sent <= t.sent && |t.sent| <= |s.sent| + 1 && Sendable(t.sent[|s.sent|..])
  {
    hide Decode, Overlay, Normalise, ValidName, Bitfield, NameKey, Encrypt, AfterEncryption;
  }

  lemma {:induction false} RunSends(c: Crypto, s: State, run: seq<Event>)
    requires WellFormed(s) && FeasibleRun(run)
    ensures var t := Run(c, s, run); s.sent <= t.sent && Sendable(t.sent[|s.sent|..])
    decreases |run|
  {
    hide Step, WellFormed;
    if run != [] {
      StepSends(c, s, run[0]);
      StepKeepsInvariant(c, s, run[0]);
      var u := Step(c, s, run[0]);
      RunSends(c, u, run[1..]);
      var t := Run(c, u, run[1..]);
      assert t.sent[|s.sent|..] == u.sent[|s.sent|..] + t.sent[|u.sent|..];
    }
  }

  /** What the device sends during a run. */
  function Sent(c: Crypto, s: State, run: seq<Event>): (ms: seq<Packet>)
    requires WellFormed(s) && FeasibleRun(run)
    ensures Run(c, s, run).sent == s.sent + ms && Sendable(ms)
  {
    RunSends(c, s, run);
    Run(c, s, run).sent[|s.sent|..]
  }

  // ---- A call ----

  datatype Ending = Ending(world: World, heard: Received)

  /** One call of the host, with room for an answer of so many bytes: what the device sends meanwhile
      arrives behind what was there before, and the oldest of it all is read. */
  function Called(c: Crypto, w: World, command: seq<byte>, user: User, link: Link, room: nat): (r: Ending)
    requires WellFormed(w.device) && |command| <= BUFFER_SIZE
    ensures WellFormed(r.world.device)
  {
    var hearing := Receive(ArriveAll(w.way, Arrived(c, w.device, command, user, link)), room);
    Ending(World(Run(c, w.device, CallEvents(command, user, link)), hearing.left), hearing.received)
  }

  /** What the host is sent during a call. */
  function Arrived(c: Crypto, s: State, command: seq<byte>, user: User, link: Link): seq<Packet>
    requires WellFormed(s) && |command| <= BUFFER_SIZE
  {
    if link == LosesReply then [] else Sent(c, s, CallEvents(command, user, link))
  }

  /** The user's press on whatever is on the screen. */
  function Pressed(c: Crypto, s: State, user: User): State
    requires WellFormed(s)
  {
    match user
    case Approves(random) => OnApprove(c, s, random)
    case Denies => OnDeny(s)
    case Unplugs => s.(pending := Idle)
    case LosesPower(ram) => s.(pending := Idle, buf := ram)
    case Leaves => s
  }

  lemma RunPressed(c: Crypto, s: State, user: User)
    requires WellFormed(s)
    ensures Run(c, s, UserEvents(user)) == Pressed(c, s, user)
  {
    hide OnApprove, OnDeny, WellFormed;
  }

  /** What is ahead of the call's own reply: the oldest unread one, or the reply to an earlier
      command that is still on the screen when the call's own does not come through. */
  function Ahead(c: Crypto, s: State, unread: seq<Packet>, user: User, link: Link): Option<seq<byte>>
    requires WellFormed(s)
  {
    if unread != [] then Some(unread[0])
    else if link == LosesCommand then Oldest(Sent(c, s, UserEvents(user))) else None
  }

  // ---- Status words ----

  /** What the host concludes from a code thrown on the device, however it was thrown. */
  function HostSees(code: Code): Result {
    ParseAppSW(Normalise(code))
  }

  /** Success is success on both ends, and the application's own codes stay distinct. */
  lemma StatusAgreement(code: Code)
    ensures HostSees(code) == SUCCESS <==> code == SW_SUCCESS
    ensures HostSees(INVALID_PARAMETER) == HostSees(SW_UNKNOWN_INSTR) == HostSees(SW_INVALID_CLS) == PROTOCOL_BAD_PARAM
    ensures HostSees(EXCEPTION_SECURITY) == APP_SECURITY_ERROR
    ensures HostSees(SW_UNAUTHORIZED_ACCESS) == APP_UNAUTHORIZED_ACCESS
    ensures HostSees(SW_EMPTY_SLOT) == APP_EMPTY_SLOT && HostSees(SW_INVALID_NAME) == APP_INVALID_NAME
  {
  }

  lemma ReplyUnderstood(payload: seq<byte>, code: Code, capacity: nat)
    requires |payload| + 2 <= capacity
    ensures StatusOutcome(Hears(Some(Reply(payload, code)), capacity)) == HostSees(code)
    ensures Hears(Some(Reply(payload, code)), capacity) == Received(SUCCESS, Reply(payload, code))
    ensures Reply(payload, code)[..|payload|] == payload
  {
    hide Normalise, ParseAppSW;
    var reply := Reply(payload, code);
    assert reply[|reply| - 2..] == BE16(Normalise(code));
    LoadUndoesStore(Normalise(code));
  }

  // ---- What a command leads to ----

  datatype Message = Message(payload: seq<byte>, code: Code)

  function Replied(m: Option<Message>): Option<seq<byte>> {
    match m
    case None => None
    case Some(m) => Some(Reply(m.payload, m.code))
  }

  /** The answer to a press on an approval: none if the device is reset or left alone. */
  function Answered(c: Crypto, s: State, p: Pending, user: User): Option<Message>
    requires WellFormed(s.(pending := p)) && p != Idle
  {
    match user
    case Approves(random) => var e := ApprovedEffect(c, s.(pending := p), random); Some(Message(e.payload, e.code))
    case Denies => Some(Message([], SW_UNAUTHORIZED_ACCESS))
    case _ => None
  }

  /** A command's own answer: its reaction, with the user's answer if it asks. */
  function OwnMessage(c: Crypto, s: State, req: Request, user: User): Option<Message>
    requires WellFormed(s)
  {
    match React(req, s.slots)
    case Answer(payload, code) => Some(Message(payload, code))
    case Ask(p) =>
      ReactionKeepsInvariant(s, req);
      Answered(c, s, p, user)
  }

  /** The slots after a press on an approval. */
  function SlotsPressed(slots: map<nat, Block>, p: Pending, user: User): map<nat, Block> {
    if !user.Approves? then slots
    else match p
      case Overwrite(slot, key) => slots[slot := key]
      case EraseAll => map[]
      case _ => slots
  }

  /** The slots after a command and a press on what it leaves on the screen. */
  function SlotsHandled(slots: map<nat, Block>, p: Pending, req: Request, user: User): map<nat, Block> {
    match React(req, slots)
    case Ask(q) => SlotsPressed(slots, q, user)
    case Answer(_, _) => SlotsPressed(SlotsAfter(req, slots), p, user)
  }

  /** The payload of an approval does not depend on what the buffer holds. */
  lemma EffectIgnoresBuffer(c: Crypto, s: State, t: State, random: Block)
    requires WellFormed(s) && WellFormed(t) && s.pending == t.pending != Idle && s.slots == t.slots
    ensures var e, f := ApprovedEffect(c, s, random), ApprovedEffect(c, t, random);
            e.slots == f.slots && e.payload == f.payload && e.code == f.code
  {
    hide Encrypt, Overlay, AfterEncryption, NameKey;
  }

  lemma EffectSlots(c: Crypto, s: State, random: Block)
    requires WellFormed(s) && s.pending != Idle
    ensures ApprovedEffect(c, s, random).slots == SlotsPressed(s.slots, s.pending, Approves(random))
  {
    hide Encrypt, Overlay, AfterEncryption, NameKey;
  }

  lemma PressedSends(c: Crypto, s: State, user: User)
    requires WellFormed(s)
    ensures var t := Pressed(c, s, user);
            && t.slots == SlotsPressed(s.slots, s.pending, user)
            && s.sent <= t.sent
            && (s.pending == Idle ==> t.sent == s.sent)
            && (s.pending != Idle ==>
                  var m := Replied(Answered(c, s, s.pending, user));
                  t.sent == s.sent + if m.Some? then [m.value] else [])
  {
    assert s.(pending := s.pending) == s;
    if user.Approves? && s.pending != Idle {
      EffectSlots(c, s, user.random);
    }
    hide ApprovedEffect, Overlay, Reply, WellFormed;
  }

  /** The command itself, with or without another approval on the screen. */
  lemma CommandHandled(c: Crypto, s: State, ins: byte, p1: byte, data: seq<byte>)
    requires WellFormed(s) && |data| <= 255
    ensures var req := Dispatch(ins, p1, data);
            var t := OnApdu(s, CommandBytes(CLA, ins, p1, 0, data));
            && WellFormed(t)
            && match React(req, s.slots)
               case Ask(p) => t.pending == p && t.slots == s.slots && t.sent == s.sent
               case Answer(payload, code) =>
                 t.pending == PendingAfter(req, s.pending) && t.slots == SlotsAfter(req, s.slots)
                 && t.sent == s.sent + [Reply(payload, code)]
  {
    CommandDecodes(s.buf, CLA, ins, p1, 0, data);
    ApduKeepsInvariant(s, CommandBytes(CLA, ins, p1, 0, data));
    hide Decode, Overlay, Reply, Dispatch, CommandBytes, WellFormed;
  }

  /** A call does what its command says, whatever the buffer held and the screen showed before: its
      own answer is the first the device sends, and the slots follow from the command, the slots, the
      approval on the screen and the user. */
  lemma ConversationHandles(c: Crypto, s: State, ins: byte, p1: byte, data: seq<byte>, user: User)
    requires WellFormed(s) && |data| <= 255
    ensures var run := CallEvents(CommandBytes(CLA, ins, p1, 0, data), user, Works);
            var req := Dispatch(ins, p1, data);
            && Oldest(Sent(c, s, run)) == Replied(OwnMessage(c, s, req, user))
            && Run(c, s, run).slots == SlotsHandled(s.slots, s.pending, req, user)
  {
    var command, req := CommandBytes(CLA, ins, p1, 0, data), Dispatch(ins, p1, data);
    var t := OnApdu(s, command);
    CommandHandled(c, s, ins, p1, data);
    ReactionKeepsInvariant(s, req);
    PressedSends(c, t, user);
    RunCommand(c, s, command, user);
    hide OnApdu, Run, CallEvents, CommandBytes, Dispatch, Reply, Pressed, React, SlotsAfter;
    match React(req, s.slots)
    case Answer(payload, code) => SameSlotsPressed(t.slots, s.pending, req, user);
    case Ask(p) =>
      AskedIsFulfillable(s, req);
      if user.Approves? {
        EffectIgnoresBuffer(c, t, s.(pending := p), user.random);
      }
  }

  lemma RunCommand(c: Crypto, s: State, command: seq<byte>, user: User)
    requires WellFormed(s) && |command| <= BUFFER_SIZE
    ensures WellFormed(OnApdu(s, command))
    ensures Run(c, s, CallEvents(command, user, Works)) == Pressed(c, OnApdu(s, command), user)
  {
    ApduKeepsInvariant(s, command);
    hide OnApdu, WellFormed, Pressed, UserEvents;
    var run := [Apdu(command)] + UserEvents(user);
    assert run[1..] == UserEvents(user);
    RunPressed(c, OnApdu(s, command), user);
  }

  lemma AskedIsFulfillable(s: State, req: Request)
    requires WellFormed(s) && React(req, s.slots).Ask?
    ensures WellFormed(s.(pending := React(req, s.slots).pending))
  {
    hide ValidName, Bitfield;
    ReactionKeepsInvariant(s, req);
  }

  lemma SameSlotsPressed(slots: map<nat, Block>, p: Pending, req: Request, user: User)
    ensures SlotsPressed(slots, PendingAfter(req, p), user) == SlotsPressed(slots, p, user)
  {
  }

  // ---- What a call hears ----

  /** The call's own reply, if it has one and it comes through. */
  function Own(c: Crypto, s: State, req: Request, user: User, link: Link): Option<seq<byte>>
    requires WellFormed(s)
  {
    if link == Works then Replied(OwnMessage(c, s, req, user)) else None
  }

  /** What a call reads: what is ahead of its own reply, or that. */
  function First(c: Crypto, s: State, unread: seq<Packet>, req: Request, user: User, link: Link): Option<seq<byte>>
    requires WellFormed(s)
  {
    var ahead := Ahead(c, s, unread, user, link);
    if ahead.Some? then ahead else Own(c, s, req, user, link)
  }

  lemma FirstOfAll(c: Crypto, s: State, unread: seq<Packet>, ins: byte, p1: byte, data: seq<byte>,
                   user: User, link: Link)
    requires WellFormed(s) && |data| <= 255
    ensures Oldest(unread + Arrived(c, s, CommandBytes(CLA, ins, p1, 0, data), user, link)) ==
            First(c, s, unread, Dispatch(ins, p1, data), user, link)
  {
    var arrived := Arrived(c, s, CommandBytes(CLA, ins, p1, 0, data), user, link);
    FirstOfCall(c, s, ins, p1, data, user, link);
    hide Arrived, Own, Sent, WellFormed, Dispatch, CommandBytes;
    if unread == [] {
      assert unread + arrived == arrived;
    } else {
      assert (unread + arrived)[0] == unread[0];
    }
  }

  lemma FirstOfCall(c: Crypto, s: State, ins: byte, p1: byte, data: seq<byte>, user: User, link: Link)
    requires WellFormed(s) && |data| <= 255
    ensures Oldest(Arrived(c, s, CommandBytes(CLA, ins, p1, 0, data), user, link)) ==
            First(c, s, [], Dispatch(ins, p1, data), user, link)
  {
    ConversationHandles(c, s, ins, p1, data, user);
    ArrivedIs(c, s, CommandBytes(CLA, ins, p1, 0, data), user, link);
    hide Arrived, Sent, WellFormed, Dispatch, CommandBytes, OwnMessage, Run, UserEvents, CallEvents;
  }

  lemma ArrivedIs(c: Crypto, s: State, command: seq<byte>, user: User, link: Link)
    requires WellFormed(s) && |command| <= BUFFER_SIZE
    ensures Arrived(c, s, command, user, link) ==
            match link
            case Works => Sent(c, s, CallEvents(command, user, Works))
            case LosesCommand => Sent(c, s, UserEvents(user))
            case LosesReply => []
  {
    hide WellFormed, Sent, UserEvents;
  }

  /** What every call hears, and what it leaves to be read. */
  lemma CallHears(c: Crypto, w: World, unread: seq<Packet>, ins: byte, p1: byte, data: seq<byte>,
                  user: User, link: Link, room: nat)
    requires WellFormed(w.device) && Carries(w.way, unread) && |data| <= 255 && room <= Usb.MAX_MESSAGE
    ensures var command := CommandBytes(CLA, ins, p1, 0, data);
            var r := Called(c, w, command, user, link, room);
            var all := unread + Arrived(c, w.device, command, user, link);
            && r.heard == Hears(First(c, w.device, unread, Dispatch(ins, p1, data), user, link), room)
            && r.world.device == Run(c, w.device, CallEvents(command, user, link))
            && (all == [] ==> r.world.way == w.way)
            && (all != [] && |all[0]| <= room ==> Carries(r.world.way, all[1..]))
  {
    var command := CommandBytes(CLA, ins, p1, 0, data);
    FirstOfAll(c, w.device, unread, ins, p1, data, user, link);
    hide WellFormed, CommandBytes, Dispatch, First, Carries, Receive, Hears, Run, ArriveAll, Arrived;
    var arrived := Arrived(c, w.device, command, user, link);
    ArriveAllCarries(w.way, unread, arrived);
    ReadsOldest(ArriveAll(w.way, arrived), unread + arrived, room);
    NothingArrives(w.way);
  }

  lemma NothingArrives(way: Way)
    ensures ArriveAll(way, []) == way
  {
  }

  /** A call is sure to hear its own reply or nothing, whatever the user and the way do, exactly when
      no earlier reply is unread and no earlier approval is on the screen. */
  lemma HearsOwnIff(c: Crypto, w: World, unread: seq<Packet>, ins: byte, p1: byte, data: seq<byte>, room: nat)
    requires WellFormed(w.device) && Carries(w.way, unread) && |data| <= 255 && 2 <= room <= Usb.MAX_MESSAGE
    ensures (forall user, link ::
               Called(c, w, CommandBytes(CLA, ins, p1, 0, data), user, link, room).heard ==
               Hears(Own(c, w.device, Dispatch(ins, p1, data), user, link), room))
       <==> unread == [] && w.device.pending == Idle
  {
    forall user, link
      ensures Called(c, w, CommandBytes(CLA, ins, p1, 0, data), user, link, room).heard ==
              Hears(First(c, w.device, unread, Dispatch(ins, p1, data), user, link), room)
    {
      CallHears(c, w, unread, ins, p1, data, user, link, room);
    }
    hide Called, WellFormed, CommandBytes, Dispatch, OwnMessage, Carries, Sent, UserEvents, Hears, Reply, Oldest;
    SilenceIsNoReply(room);
    if unread != [] {
      assert Called(c, w, CommandBytes(CLA, ins, p1, 0, data), Leaves, LosesReply, room).heard ==
             Hears(Some(unread[0]), room);
    } else if w.device.pending != Idle {
      PressedOnScreen(c, w.device, Denies);
      assert Called(c, w, CommandBytes(CLA, ins, p1, 0, data), Denies, LosesCommand, room).heard ==
             Hears(Some(Reply([], SW_UNAUTHORIZED_ACCESS)), room);
    } else {
      forall user
        ensures Oldest(Sent(c, w.device, UserEvents(user))) == None
      {
        PressedOnScreen(c, w.device, user);
      }
    }
  }

  lemma SilenceIsNoReply(room: nat)
    ensures forall m: seq<byte> :: Hears(Some(m), room) != Hears(None, room)
  {
  }

  /** The only reply to a press is that of the approval on the screen. */
  lemma PressedOnScreen(c: Crypto, s: State, user: User)
    requires WellFormed(s)
    ensures Oldest(Sent(c, s, UserEvents(user))) ==
            if s.pending == Idle then None else Replied(Answered(c, s, s.pending, user))
    ensures |Sent(c, s, UserEvents(user))| <= 1
  {
    assert s.(pending := s.pending) == s;
    RunPressed(c, s, user);
    PressedSends(c, s, user);
    hide Pressed, Reply, WellFormed, Run, UserEvents;
  }

  // ---- Keys ----

  /** Handing out a key succeeds unless one of the two curve primitives reports failure. */
  function HandedOut(c: Crypto, key: Block, priv: Block, random: Block): KeyOutcome {
    if !Encrypt(c, key, random, PublicKey(c, priv)).Sealed? then KeyOutcome(PROTOCOL_BAD_PARAM, [])
    else if DegenerateSecret(c, priv, random) then KeyOutcome(LIB_X25519_FAIL, [])
    else KeyOutcome(SUCCESS, key)
  }

  lemma ReplyHalves(pub: Block, body: Block, code: Code)
    ensures var reply := Reply(pub + body, code);
            |reply| == 66 && reply[..32] == pub && reply[32..64] == body
  {
  }

  lemma DeliverHeard(c: Crypto, s: State, key: Block, priv: Block, random: Block)
    requires Commutes(c) && |s.buf| == BUFFER_SIZE
    ensures var e := Deliver(c, s, key, PublicKey(c, priv), random);
            KeyFrom(c, Hears(Some(Reply(e.payload, e.code)), 66), priv) == HandedOut(c, key, priv, random)
  {
    hide Overlay, AfterEncryption;
    var e := Deliver(c, s, key, PublicKey(c, priv), random);
    var sealed := Encrypt(c, key, random, PublicKey(c, priv));
    hide Encrypt, Hears, HostDecrypt, StatusOutcome, PublicKey, DegenerateSecret, Commutes, HostSees, Reply;
    StatusAgreement(e.code);
    if sealed.Sealed? {
      ReplyUnderstood(sealed.pub + sealed.body, SW_SUCCESS, 66);
      ReplyHalves(sealed.pub, sealed.body, SW_SUCCESS);
      DecryptUndoesEncrypt(c, key, priv, random);
    } else {
      ReplyUnderstood([], INVALID_PARAMETER, 66);
    }
  }

  /** The full outcome of a key request, from the slots alone. */
  function SlotKeyOutcome(c: Crypto, slots: map<nat, Block>, slot: byte, priv: Block, user: User): KeyOutcome {
    if slot >= SLOT_COUNT then KeyOutcome(PROTOCOL_BAD_PARAM, [])
    else if slot !in slots then KeyOutcome(APP_EMPTY_SLOT, [])
    else match user
      case Approves(random) => HandedOut(c, slots[slot], priv, random)
      case Denies => KeyOutcome(APP_UNAUTHORIZED_ACCESS, [])
      case _ => KeyOutcome(TRANSPORT_TIMEOUT, [])
  }

  /** What the host makes of the device's message, or of silence. */
  function Judged(c: Crypto, m: Option<Message>, priv: Block): KeyOutcome {
    KeyFrom(c, Hears(Replied(m), 66), priv)
  }

  lemma CodeJudged(c: Crypto, code: Code, priv: Block)
    requires code != SW_SUCCESS
    ensures Judged(c, Some(Message([], code)), priv) == KeyOutcome(HostSees(code), [])
  {
    ReplyUnderstood([], code, 66);
    StatusAgreement(code);
  }

  lemma SilenceJudged(c: Crypto, priv: Block)
    ensures Judged(c, None, priv) == KeyOutcome(TRANSPORT_TIMEOUT, [])
  {
  }

  function Delivery(c: Crypto, s: State, key: Block, pub: Block, random: Block): Option<Message>
    requires |s.buf| == BUFFER_SIZE
  {
    var e := Deliver(c, s, key, pub, random);
    Some(Message(e.payload, e.code))
  }

  lemma GetKeyMessage(c: Crypto, s: State, slot: byte, pub: Block, user: User)
    requires WellFormed(s)
    ensures OwnMessage(c, s, App.GetKey(slot, pub), user) ==
            if slot >= SLOT_COUNT then Some(Message([], INVALID_PARAMETER))
            else if slot !in s.slots then Some(Message([], SW_EMPTY_SLOT))
            else match user
              case Approves(random) => Delivery(c, s.(pending := Release(slot, pub)), s.slots[slot], pub, random)
              case Denies => Some(Message([], SW_UNAUTHORIZED_ACCESS))
              case _ => None
  {
    hide Overlay, Deliver, ValidName, Bitfield;
    ReactionKeepsInvariant(s, App.GetKey(slot, pub));
  }

  lemma GetKeyJudged(c: Crypto, s: State, slot: byte, priv: Block, user: User)
    requires Commutes(c) && WellFormed(s)
    ensures Judged(c, OwnMessage(c, s, App.GetKey(slot, PublicKey(c, priv)), user), priv) ==
            SlotKeyOutcome(c, s.slots, slot, priv, user)
  {
    GetKeyMessage(c, s, slot, PublicKey(c, priv), user);
    CodesJudged(c, priv);
    hide OwnMessage, KeyFrom, HandedOut, PublicKey, Commutes, Deliver, Reply, Hears;
    if slot < SLOT_COUNT && slot in s.slots && user.Approves? {
      DeliverHeard(c, s.(pending := Release(slot, PublicKey(c, priv))), s.slots[slot], priv, user.random);
    }
  }

  lemma CodesJudged(c: Crypto, priv: Block)
    ensures Judged(c, Some(Message([], INVALID_PARAMETER)), priv) == KeyOutcome(PROTOCOL_BAD_PARAM, [])
    ensures Judged(c, Some(Message([], EXCEPTION_SECURITY)), priv) == KeyOutcome(APP_SECURITY_ERROR, [])
    ensures Judged(c, Some(Message([], SW_EMPTY_SLOT)), priv) == KeyOutcome(APP_EMPTY_SLOT, [])
    ensures Judged(c, Some(Message([], SW_INVALID_NAME)), priv) == KeyOutcome(APP_INVALID_NAME, [])
    ensures Judged(c, Some(Message([], SW_UNAUTHORIZED_ACCESS)), priv) == KeyOutcome(APP_UNAUTHORIZED_ACCESS, [])
    ensures Judged(c, None, priv) == KeyOutcome(TRANSPORT_TIMEOUT, [])
  {
    hide Judged, HostSees;
    StatusAgreement(SW_SUCCESS);
    CodeJudged(c, INVALID_PARAMETER, priv);
    CodeJudged(c, EXCEPTION_SECURITY, priv);
    CodeJudged(c, SW_EMPTY_SLOT, priv);
    CodeJudged(c, SW_INVALID_NAME, priv);
    CodeJudged(c, SW_UNAUTHORIZED_ACCESS, priv);
    SilenceJudged(c, priv);
  }

  /** What a call comes to when the way may lose its command or its reply. */
  function OverLink(link: Link, o: KeyOutcome): KeyOutcome {
    if link == Works then o else KeyOutcome(TRANSPORT_TIMEOUT, [])
  }

  /** What `getKey` makes of every call: of an earlier reply if one is ahead, else of its own. */
  lemma GetKeyHeard(c: Crypto, w: World, unread: seq<Packet>, slot: byte, priv: Block, user: User, link: Link)
    requires Commutes(c) && WellFormed(w.device) && Carries(w.way, unread)
    ensures var heard := Called(c, w, GetKeyCommand(c, slot, priv), user, link, 66).heard;
            var ahead := Ahead(c, w.device, unread, user, link);
            KeyFrom(c, heard, priv) ==
            if ahead.Some? then KeyFrom(c, Hears(ahead, 66), priv)
            else OverLink(link, SlotKeyOutcome(c, w.device.slots, slot, priv, user))
  {
    SilenceJudged(c, priv);
    hide KeyFrom, Hears, Called, OwnMessage, SlotKeyOutcome, CommandBytes, WellFormed, Commutes, PublicKey, Ahead;
    CallHears(c, w, unread, Kpl.GET_KEY, slot, PublicKey(c, priv), user, link, 66);
    GetKeyJudged(c, w.device, slot, priv, user);
  }

  /** The full outcome of a request by name: no trace of the state, the buffer or the history. */
  function NameKeyOutcome(c: Crypto, name: seq<byte>, priv: Block, user: User): KeyOutcome {
    if name == [] then KeyOutcome(PROTOCOL_BAD_PARAM, [])
    else if !ValidName(name) then KeyOutcome(APP_INVALID_NAME, [])
    else match user
      case Denies => KeyOutcome(APP_UNAUTHORIZED_ACCESS, [])
      case Approves(random) =>
        (match NameKey(c, name)
         case None => KeyOutcome(APP_SECURITY_ERROR, [])
         case Some(key) => HandedOut(c, key, priv, random))
      case _ => KeyOutcome(TRANSPORT_TIMEOUT, [])
  }

  lemma NameMessage(c: Crypto, s: State, name: seq<byte>, pub: Block, user: User)
    requires WellFormed(s) && |name| <= MAX_NAME_SIZE
    ensures OwnMessage(c, s, App.GetKeyFromName(pub + name), user) ==
            if name == [] then Some(Message([], INVALID_PARAMETER))
            else if !ValidName(name) then Some(Message([], SW_INVALID_NAME))
            else match user
              case Denies => Some(Message([], SW_UNAUTHORIZED_ACCESS))
              case Approves(random) =>
                (match NameKey(c, name)
                 case None => Some(Message([], EXCEPTION_SECURITY))
                 case Some(key) => Delivery(c, s.(pending := DeriveName(name, pub)), key, pub, random))
              case _ => None
  {
    assert (pub + name)[..32] == pub && (pub + name)[32..] == name;
    hide Overlay, Deliver, ValidName, Bitfield, NameKey;
    ReactionKeepsInvariant(s, App.GetKeyFromName(pub + name));
  }

  lemma NameJudged(c: Crypto, s: State, name: seq<byte>, priv: Block, user: User)
    requires Commutes(c) && WellFormed(s) && |name| <= MAX_NAME_SIZE
    ensures Judged(c, OwnMessage(c, s, App.GetKeyFromName(PublicKey(c, priv) + name), user), priv) ==
            NameKeyOutcome(c, name, priv, user)
  {
    NameMessage(c, s, name, PublicKey(c, priv), user);
    CodesJudged(c, priv);
    hide OwnMessage, KeyFrom, HandedOut, PublicKey, Commutes, Deliver, Reply, Hears, ValidName, NameKey;
    if name != [] && ValidName(name) && user.Approves? && NameKey(c, name) != None {
      DeliverHeard(c, s.(pending := DeriveName(name, PublicKey(c, priv))), NameKey(c, name).value, priv, user.random);
    }
  }

  /** A request by name ends as the seed and the name determine, unless an earlier reply is ahead. */
  lemma NameKeyEndToEnd(c: Crypto, w: World, unread: seq<Packet>, name: seq<byte>, priv: Block,
                        user: User, link: Link)
    requires Commutes(c) && WellFormed(w.device) && Carries(w.way, unread) && |name| <= MAX_NAME_SIZE
    ensures var heard := Called(c, w, GetNameCommand(c, name, priv), user, link, 66).heard;
            var ahead := Ahead(c, w.device, unread, user, link);
            KeyFrom(c, heard, priv) ==
            if ahead.Some? then KeyFrom(c, Hears(ahead, 66), priv)
            else OverLink(link, NameKeyOutcome(c, name, priv, user))
  {
    SilenceJudged(c, priv);
    hide KeyFrom, Hears, Called, OwnMessage, NameKeyOutcome, CommandBytes, WellFormed, Commutes, PublicKey, Ahead;
    CallHears(c, w, unread, Kpl.GET_KEY_FROM_NAME, 0, PublicKey(c, priv) + name, user, link, 66);
    NameJudged(c, w.device, name, priv, user);
  }

  // ---- Keys meant for an earlier call ----

  /** The key stream a sealed reply was masked with. */
  function MaskedWith(c: Crypto, random: Block, callerPub: Block): Block
    requires DeviceX25519(c, random, BasePoint()).Some? && DeviceX25519(c, random, callerPub).Some?
  {
    KeyStream(c, DeviceX25519(c, random, callerPub).value, callerPub, DeviceX25519(c, random, BasePoint()).value)
  }

  /** The key stream a host with this ephemeral key takes off a sealed reply. */
  function TakenOff(c: Crypto, priv: Block, devicePub: Block): Block {
    KeyStream(c, X25519(c, priv, devicePub), PublicKey(c, priv), devicePub)
  }

  /** A call that reads the sealed reply to an earlier one reports success unless its multiplication
      fails, and returns that earlier key exactly if the two key streams are the same. */
  lemma LateKeyIsGarbledIff(c: Crypto, key: Block, random: Block, callerPub: Block, priv: Block)
    requires Encrypt(c, key, random, callerPub).Sealed?
    ensures var e := Encrypt(c, key, random, callerPub);
            var o := KeyFrom(c, Hears(Some(Reply(e.pub + e.body, SW_SUCCESS)), 66), priv);
            && o.result == (if HostScalarMult(c, priv, e.pub) == None then LIB_X25519_FAIL else SUCCESS)
            && (o.result == SUCCESS ==>
                  (o.key == key <==> MaskedWith(c, random, callerPub) == TakenOff(c, priv, e.pub)))
  {
    var e := Encrypt(c, key, random, callerPub);
    ReplyUnderstood(e.pub + e.body, SW_SUCCESS, 66);
    ReplyHalves(e.pub, e.body, SW_SUCCESS);
    StatusAgreement(SW_SUCCESS);
    MaskedTwiceIff(key, MaskedWith(c, random, callerPub), TakenOff(c, priv, e.pub));
    hide DeviceX25519, X25519, BasePoint, KeyStream, XorSeq, Reply, Hears, StatusOutcome, PublicKey;
  }

  lemma MaskedTwiceIff(key: Block, on: Block, off: Block)
    ensures XorSeq(XorSeq(key, on), off) == key <==> on == off
  {
    XorSeqTwice(key, on);
    if XorSeq(XorSeq(key, on), off) == key {
      XorSeqTwice(XorSeq(key, on), off);
      XorSeqInjective(key, on, off);
    }
  }

  // ---- Stores and erasures ----

  lemma MessageJudged(m: Option<Message>, capacity: nat)
    requires capacity >= 2 && (m.Some? ==> m.value.payload == [])
    ensures StatusOutcome(Hears(Replied(m), capacity)) ==
            if m.Some? then HostSees(m.value.code) else TRANSPORT_TIMEOUT
  {
    SilenceTimesOut(capacity);
    hide Hears, StatusOutcome;
    if m.Some? {
      ReplyUnderstood([], m.value.code, capacity);
    }
  }

  lemma StoreMessage(c: Crypto, s: State, slot: byte, key: Block, user: User)
    requires WellFormed(s)
    ensures OwnMessage(c, s, App.StoreKey(slot, key), user) ==
            if slot >= SLOT_COUNT then Some(Message([], INVALID_PARAMETER))
            else if slot !in s.slots || user.Approves? then Some(Message([], SW_SUCCESS))
            else if user.Denies? then Some(Message([], SW_UNAUTHORIZED_ACCESS)) else None
  {
    hide Overlay, ValidName, Bitfield;
    ReactionKeepsInvariant(s, App.StoreKey(slot, key));
  }

  /** The device stores the key of a request that reaches it: at once, or with approval. */
  predicate Stores(slots: map<nat, Block>, slot: byte, user: User, link: Link) {
    link != LosesCommand && slot < SLOT_COUNT && (slot !in slots || user.Approves?)
  }

  /** What `setKey` reports for a key of the right length. */
  function StoreOutcome(slots: map<nat, Block>, slot: byte, user: User, link: Link): Result {
    if link != Works then TRANSPORT_TIMEOUT
    else if slot >= SLOT_COUNT then PROTOCOL_BAD_PARAM
    else if slot !in slots || user.Approves? then SUCCESS
    else if user.Denies? then APP_UNAUTHORIZED_ACCESS else TRANSPORT_TIMEOUT
  }

  /** What `eraseAllSlots` reports. */
  function EraseOutcome(user: User, link: Link): Result {
    if link != Works then TRANSPORT_TIMEOUT
    else if user.Approves? then SUCCESS
    else if user.Denies? then APP_UNAUTHORIZED_ACCESS else TRANSPORT_TIMEOUT
  }

  /** What `setKey` reports, and what becomes of the slots: the user may have pressed on the approval
      an earlier call left on the screen. With none there and nothing ahead, success is a key stored
      and a reply that came back, and the slots change exactly when it was stored. */
  lemma StoreEndToEnd(c: Crypto, w: World, unread: seq<Packet>, slot: byte, key: Block, user: User, link: Link)
    requires WellFormed(w.device) && Carries(w.way, unread)
    ensures var r := Called(c, w, CommandBytes(CLA, Kpl.STORE_KEY, slot, 0, key), user, link, 2);
            var s, ahead := w.device, Ahead(c, w.device, unread, user, link);
            && StatusOutcome(r.heard) ==
               (if ahead.Some? then StatusOutcome(Hears(ahead, 2)) else StoreOutcome(s.slots, slot, user, link))
            && r.world.device.slots ==
               (if link == LosesCommand || slot >= SLOT_COUNT then SlotsPressed(s.slots, s.pending, user)
                else if slot in s.slots then SlotsPressed(s.slots, Overwrite(slot, key), user)
                else SlotsPressed(s.slots[slot := key], s.pending, user))
            && (s.pending == Idle ==>
                  r.world.device.slots == if Stores(s.slots, slot, user, link) then s.slots[slot := key] else s.slots)
            && (s.pending == Idle && unread == [] ==>
                  && (StatusOutcome(r.heard) == SUCCESS <==> link == Works && Stores(s.slots, slot, user, link))
                  && (StatusOutcome(r.heard) == TRANSPORT_TIMEOUT && Stores(s.slots, slot, user, link) <==>
                        link == LosesReply && Stores(s.slots, slot, user, link)))
  {
    StoreReported(c, w, unread, slot, key, user, link);
    CallSlots(c, w, Kpl.STORE_KEY, slot, key, user, link, 2);
    StoreSlots(w.device.slots, w.device.pending, slot, key, user);
    NothingAhead(c, w.device, user, link);
    hide Called, CommandBytes, StatusOutcome, Hears, WellFormed, Carries, Ahead, SlotsHandled;
  }

  lemma StoreReported(c: Crypto, w: World, unread: seq<Packet>, slot: byte, key: Block, user: User, link: Link)
    requires WellFormed(w.device) && Carries(w.way, unread)
    ensures var heard := Called(c, w, CommandBytes(CLA, Kpl.STORE_KEY, slot, 0, key), user, link, 2).heard;
            var ahead := Ahead(c, w.device, unread, user, link);
            StatusOutcome(heard) ==
            if ahead.Some? then StatusOutcome(Hears(ahead, 2)) else StoreOutcome(w.device.slots, slot, user, link)
  {
    StoreMessage(c, w.device, slot, key, user);
    StatusHeard(c, w, unread, Kpl.STORE_KEY, slot, key, user, link, 2);
    CodesAgree();
    hide Called, CommandBytes, OwnMessage, StatusOutcome, Hears, WellFormed, HostSees, Carries, Ahead;
  }

  lemma StoreSlots(slots: map<nat, Block>, p: Pending, slot: byte, key: Block, user: User)
    ensures SlotsHandled(slots, p, App.StoreKey(slot, key), user) ==
            if slot >= SLOT_COUNT then SlotsPressed(slots, p, user)
            else if slot in slots then SlotsPressed(slots, Overwrite(slot, key), user)
            else SlotsPressed(slots[slot := key], p, user)
  {
  }

  lemma NothingAhead(c: Crypto, s: State, user: User, link: Link)
    requires WellFormed(s)
    ensures s.pending == Idle ==> Ahead(c, s, [], user, link) == None
  {
    PressedOnScreen(c, s, user);
  }

  /** The status a call reports, when its own answers are statuses only. */
  lemma StatusHeard(c: Crypto, w: World, unread: seq<Packet>, ins: byte, p1: byte, data: seq<byte>,
                    user: User, link: Link, room: nat)
    requires WellFormed(w.device) && Carries(w.way, unread) && |data| <= 255 && 2 <= room <= Usb.MAX_MESSAGE
    requires var m := OwnMessage(c, w.device, Dispatch(ins, p1, data), user); m.Some? ==> m.value.payload == []
    ensures var ahead := Ahead(c, w.device, unread, user, link);
            var m := OwnMessage(c, w.device, Dispatch(ins, p1, data), user);
            StatusOutcome(Called(c, w, CommandBytes(CLA, ins, p1, 0, data), user, link, room).heard) ==
            if ahead.Some? then StatusOutcome(Hears(ahead, room))
            else if link == Works && m.Some? then HostSees(m.value.code) else TRANSPORT_TIMEOUT
  {
    CallHears(c, w, unread, ins, p1, data, user, link, room);
    SilenceTimesOut(room);
    hide Called, CommandBytes, OwnMessage, StatusOutcome, Hears, WellFormed, HostSees, Carries, Ahead, Dispatch;
    MessageJudged(OwnMessage(c, w.device, Dispatch(ins, p1, data), user), room);
  }

  /** The slots after every call. */
  lemma CallSlots(c: Crypto, w: World, ins: byte, p1: byte, data: seq<byte>, user: User, link: Link, room: nat)
    requires WellFormed(w.device) && |data| <= 255
    ensures var s := w.device;
            Called(c, w, CommandBytes(CLA, ins, p1, 0, data), user, link, room).world.device.slots ==
            if link == LosesCommand then SlotsPressed(s.slots, s.pending, user)
            else SlotsHandled(s.slots, s.pending, Dispatch(ins, p1, data), user)
  {
    ConversationHandles(c, w.device, ins, p1, data, user);
    RunPressed(c, w.device, user);
    PressedSends(c, w.device, user);
    hide CommandBytes, Dispatch, Run, WellFormed, Pressed, SlotsHandled, SlotsPressed, Sendable, Receive;
  }

  lemma CodesAgree()
    ensures HostSees(SW_SUCCESS) == SUCCESS && HostSees(INVALID_PARAMETER) == PROTOCOL_BAD_PARAM
    ensures HostSees(SW_UNAUTHORIZED_ACCESS) == APP_UNAUTHORIZED_ACCESS
  {
    StatusAgreement(SW_SUCCESS);
  }

  lemma SilenceTimesOut(capacity: nat)
    ensures StatusOutcome(Hears(None, capacity)) == TRANSPORT_TIMEOUT
  {
  }

  /** A store carried out whose reply is lost: the slots changed, the host reports a timeout. */
  lemma StoredButTimedOut(c: Crypto, w: World, slot: byte, key: Block, user: User)
    requires WellFormed(w.device) && w.device.pending == Idle && Carries(w.way, [])
    requires slot < SLOT_COUNT && slot !in w.device.slots
    ensures var r := Called(c, w, CommandBytes(CLA, Kpl.STORE_KEY, slot, 0, key), user, LosesReply, 2);
            StatusOutcome(r.heard) == TRANSPORT_TIMEOUT && slot in r.world.device.slots
  {
    hide Called, CommandBytes, StatusOutcome, WellFormed, Carries;
    StoreEndToEnd(c, w, [], slot, key, user, LosesReply);
  }

  /** A store the user refuses reports success if the reply to an earlier one is still unread. */
  lemma RefusedStoreReportsSuccess(c: Crypto, w: World, unread: seq<Packet>, slot: byte, key: Block)
    requires WellFormed(w.device) && Carries(w.way, unread)
    requires unread != [] && unread[0] == Reply([], SW_SUCCESS) && slot in w.device.slots
    ensures var r := Called(c, w, CommandBytes(CLA, Kpl.STORE_KEY, slot, 0, key), Denies, Works, 2);
            StatusOutcome(r.heard) == SUCCESS && r.world.device.slots == w.device.slots
  {
    assert slot < SLOT_COUNT;
    StoreEndToEnd(c, w, unread, slot, key, Denies, Works);
    ReplyUnderstood([], SW_SUCCESS, 2);
    StatusAgreement(SW_SUCCESS);
    hide Called, CommandBytes, StatusOutcome, WellFormed, Carries, Reply, Hears;
  }

  lemma EraseMessage(c: Crypto, s: State, user: User)
    requires WellFormed(s)
    ensures OwnMessage(c, s, App.EraseAllSlots, user) ==
            match user
            case Approves(_) => Some(Message([], SW_SUCCESS))
            case Denies => Some(Message([], SW_UNAUTHORIZED_ACCESS))
            case _ => None
  {
    ReactionKeepsInvariant(s, App.EraseAllSlots);
  }

  /** What `eraseAllSlots` reports, and what becomes of the slots. */
  lemma EraseEndToEnd(c: Crypto, w: World, unread: seq<Packet>, user: User, link: Link)
    requires WellFormed(w.device) && Carries(w.way, unread)
    ensures var r := Called(c, w, CommandBytes(CLA, Kpl.ERASE_ALL_SLOTS, 0, 0, []), user, link, 3);
            var s, ahead := w.device, Ahead(c, w.device, unread, user, link);
            var erases := link != LosesCommand && user.Approves?;
            && StatusOutcome(r.heard) ==
               (if ahead.Some? then StatusOutcome(Hears(ahead, 3)) else EraseOutcome(user, link))
            && r.world.device.slots ==
               (if link == LosesCommand then SlotsPressed(s.slots, s.pending, user)
                else if erases then map[] else s.slots)
            && (s.pending == Idle && unread == [] ==>
                  && (StatusOutcome(r.heard) == SUCCESS <==> link == Works && erases)
                  && (StatusOutcome(r.heard) == TRANSPORT_TIMEOUT && erases <==> link == LosesReply && erases))
  {
    EraseMessage(c, w.device, user);
    StatusHeard(c, w, unread, Kpl.ERASE_ALL_SLOTS, 0, [], user, link, 3);
    CallSlots(c, w, Kpl.ERASE_ALL_SLOTS, 0, [], user, link, 3);
    NothingAhead(c, w.device, user, link);
    CodesAgree();
    EraseSlots(w.device.slots, w.device.pending, user);
    hide Called, CommandBytes, OwnMessage, StatusOutcome, Hears, WellFormed, HostSees, Carries, Ahead, SlotsHandled;
  }

  lemma EraseSlots(slots: map<nat, Block>, p: Pending, user: User)
    ensures SlotsHandled(slots, p, App.EraseAllSlots, user) == if user.Approves? then map[] else slots
  {
  }

  /** The size of the answer buffer the host allocates for a command, status word included. */
  function AnswerRoom(req: Request): nat {
    match req
    case Refused(_) => 2
    case Configuration => 5
    case StoreKey(_, _) => 2
    case GetKey(_, _) => 66
    case GetKeyFromName(_) => 66
    case ValidSlots => 3
    case EraseAllSlots => 3
  }

  /** Every reply the device can produce fits the answer the host allocated for the command. */
  lemma RepliesFit(c: Crypto, s: State, req: Request, user: User)
    requires WellFormed(s)
    ensures var m := OwnMessage(c, s, req, user); m.Some? ==> |m.value.payload| + 2 <= AnswerRoom(req)
  {
    hide Overlay, ValidName, Bitfield, NameKey, Encrypt, AfterEncryption;
    ReactionKeepsInvariant(s, req);
  }

  // ---- The slot list ----

  lemma BytesFitEightBits()
    ensures Pow2(8) == 256
  {
  }

  lemma SlotListOfMap(slots: map<nat, Block>)
    requires forall k | k in slots :: k < SLOT_COUNT
    ensures var l := SlotList(Bitfield(slots), 0);
            Ascending(l) && |l| <= SLOT_COUNT && forall slot: nat :: slot in l <==> slot in slots
  {
    hide SlotList, Pow2, Bits, Bit, Ascending;
    var bits := Bitfield(slots);
    BytesFitEightBits();
    SlotListMeans(bits, 0, 8);
    forall slot: nat
      ensures slot in SlotList(bits, 0) <==> slot in slots
    {
      if slot < SLOT_COUNT {
        BitsDescribe(slots, 0, slot);
      } else {
        HighBitsClear(bits, 8, slot);
      }
    }
  }

  lemma SilentList()
    ensures SlotsFrom(Hears(None, 3)) == SlotsOutcome(TRANSPORT_TIMEOUT, [])
  {
  }

  /** What `getValidKeySlots` makes of every call. */
  lemma ListHeard(c: Crypto, w: World, unread: seq<Packet>, user: User, link: Link)
    requires WellFormed(w.device) && Carries(w.way, unread)
    ensures forall k | k in w.device.slots :: k < SLOT_COUNT
    ensures var heard := Called(c, w, CommandBytes(CLA, Kpl.GET_VALID_KEY_SLOTS, 0, 0, []), user, link, 3).heard;
            var ahead := Ahead(c, w.device, unread, user, link);
            SlotsFrom(heard) ==
            if ahead.Some? then SlotsFrom(Hears(ahead, 3))
            else if link == Works then SlotsOutcome(SUCCESS, SlotList(Bitfield(w.device.slots), 0))
            else SlotsOutcome(TRANSPORT_TIMEOUT, [])
  {
    SilentList();
    SlotListHeard(w.device.slots);
    assert OwnMessage(c, w.device, ValidSlots, user) == Some(Message([Bitfield(w.device.slots)], SW_SUCCESS));
    hide Called, SlotsFrom, CommandBytes, Hears, Bitfield, SlotList, Carries, Ahead, Fulfillable, Reply, OwnMessage;
    CallHears(c, w, unread, Kpl.GET_VALID_KEY_SLOTS, 0, [], user, link, 3);
  }

  lemma SlotListHeard(slots: map<nat, Block>)
    ensures SlotsFrom(Hears(Some(Reply([Bitfield(slots)], SW_SUCCESS)), 3)) ==
            SlotsOutcome(SUCCESS, SlotList(Bitfield(slots), 0))
  {
    var bits := Bitfield(slots);
    hide Bitfield, SlotList;
    ReplyUnderstood([bits], SW_SUCCESS, 3);
    StatusAgreement(SW_SUCCESS);
    assert Reply([bits], SW_SUCCESS)[..1][0] == bits;
  }

  lemma {:induction false} HighBitsClear(v: nat, n: nat, k: nat)
    requires v < Pow2(n) && n <= k
    ensures !Bit(v, k)
    decreases n
  {
    if n == 0 {
      NoBits(k);
    } else {
      HighBitsClear(v / 2, n - 1, k - 1);
    }
  }
}
