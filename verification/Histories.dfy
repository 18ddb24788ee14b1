/** Whole histories: the keys any run leaves in the slots, and the calls of a host one after another. */
module Histories {
  import opened Bytes
  import opened Wrappers
  import opened Results
  import opened Curve
  import opened KeyExchange
  import opened Storage
  import opened App
  import opened LedgerAnswer
  import opened Kpl
  import opened Wire
  import opened EndToEnd
  import Usb
  import X25519Device
  import LedgerDeviceTcp

  // ---- Reading a run ----

  /** What happened, as far as the slots are concerned; `Closed` leaves the approval screen. */
  datatype Entry = Command(req: Request) | Approved | Closed

  /** What approving would do to the slots. */
  datatype Question = Nothing | MayStore(slot: nat, key: Block) | MayErase | MayRelease

  function Asked(p: Pending): Question {
    match p
    case Idle => Nothing
    case Overwrite(slot, key) => MayStore(slot, key)
    case EraseAll => MayErase
    case _ => MayRelease
  }

  function EntryOf(s: State, e: Event): Entry
    requires |s.buf| == BUFFER_SIZE && Feasible(e)
  {
    match e
    case Apdu(bytes) => Command(if bytes == [] then Refused(0x6982) else Decode(Overlay(s.buf, 0, bytes)))
    case Approve(_) => Approved
    case _ => Closed
  }

  /** The run's commands, as they were decoded, and presses. */
  function Log(c: Crypto, s: State, run: seq<Event>): seq<Entry>
    requires WellFormed(s) && FeasibleRun(run)
    decreases |run|
  {
    if run == [] then []
    else
      StepKeepsInvariant(c, s, run[0]);
      [EntryOf(s, run[0])] + Log(c, Step(c, s, run[0]), run[1..])
  }

  /** What the screen asks after a log, reading it backwards: the last command that asked, unless the
      screen was left since. */
  function Screen(first: map<nat, Block>, shown: Question, log: seq<Entry>): Question
    decreases |log|, 0
  {
    if log == [] then shown
    else
      var earlier := log[..|log| - 1];
      match log[|log| - 1]
      case Command(StoreKey(slot, data)) =>
        if slot < SLOT_COUNT && |data| == 32 && LastCommitted(first, shown, earlier, slot).Some?
        then MayStore(slot, data) else Screen(first, shown, earlier)
      case Command(GetKey(slot, data)) =>
        if slot < SLOT_COUNT && |data| == 32 && LastCommitted(first, shown, earlier, slot).Some?
        then MayRelease else Screen(first, shown, earlier)
      case Command(GetKeyFromName(data)) =>
        if 32 < |data| <= 32 + MAX_NAME_SIZE && ValidName(data[32..])
        then MayRelease else Screen(first, shown, earlier)
      case Command(EraseAllSlots) => MayErase
      case Command(_) => Screen(first, shown, earlier)
      case _ => Nothing
  }

  /** The key last committed to a slot that held what `first` says: a store to an empty slot commits
      at once, one to a set slot when it is approved, and an approved erasure takes every key away. */
  function LastCommitted(first: map<nat, Block>, shown: Question, log: seq<Entry>, slot: nat): Option<Block>
    decreases |log|, 1
  {
    if log == [] then if slot in first then Some(first[slot]) else None
    else
      var before := LastCommitted(first, shown, log[..|log| - 1], slot);
      match log[|log| - 1]
      case Command(StoreKey(target, data)) =>
        if target == slot < SLOT_COUNT && |data| == 32 && before == None then Some(data) else before
      case Approved =>
        (match Screen(first, shown, log[..|log| - 1])
         case MayStore(target, key) => if target == slot then Some(key) else before
         case MayErase => None
         case _ => before)
      case _ => before
  }

  predicate Agrees(slots: map<nat, Block>, slot: nat, key: Option<Block>) {
    if slot in slots then key == Some(slots[slot]) else key == None
  }

  /** Slots and screen are as the log reads. */
  ghost predicate AsRead(slots: map<nat, Block>, screen: Question, first: map<nat, Block>, shown: Question,
                         log: seq<Entry>) {
    && screen == Screen(first, shown, log)
    && forall slot: nat :: Agrees(slots, slot, LastCommitted(first, shown, log, slot))
  }

  /** The slots and the screen after a step. */
  function SlotsNext(slots: map<nat, Block>, screen: Question, e: Entry): map<nat, Block> {
    match e
    case Command(req) => SlotsAfter(req, slots)
    case Approved =>
      (match screen
       case MayStore(slot, key) => slots[slot := key]
       case MayErase => map[]
       case _ => slots)
    case Closed => slots
  }

  function ScreenNext(slots: map<nat, Block>, screen: Question, e: Entry): Question {
    match e
    case Command(req) => var r := React(req, slots); if r.Ask? then Asked(r.pending) else screen
    case _ => Nothing
  }

  lemma StepReads(c: Crypto, s: State, e: Event)
    requires WellFormed(s) && Feasible(e)
    ensures var t := Step(c, s, e);
            && t.slots == SlotsNext(s.slots, Asked(s.pending), EntryOf(s, e))
            && Asked(t.pending) == ScreenNext(s.slots, Asked(s.pending), EntryOf(s, e))
  {
    hide Decode, Overlay, Reply, ValidName, Bitfield, NameKey, X25519Device.Encrypt, X25519Device.AfterEncryption;
  }

  lemma NextAsRead(slots: map<nat, Block>, screen: Question, first: map<nat, Block>, shown: Question,
                   log: seq<Entry>, e: Entry)
    requires AsRead(slots, screen, first, shown, log)
    requires screen.MayStore? ==> screen.slot < SLOT_COUNT
    ensures AsRead(SlotsNext(slots, screen, e), ScreenNext(slots, screen, e), first, shown, log + [e])
  {
    hide ValidName, Bitfield;
    assert (log + [e])[..|log|] == log;
    var next := SlotsNext(slots, screen, e);
    forall slot: nat
      ensures Agrees(next, slot, LastCommitted(first, shown, log + [e], slot))
    {
      assert Agrees(slots, slot, LastCommitted(first, shown, log, slot));
    }
    if e.Command? && (e.req.StoreKey? || e.req.GetKey?) {
      assert Agrees(slots, e.req.slot, LastCommitted(first, shown, log, e.req.slot));
    }
  }

  lemma {:induction false} RunAsRead(c: Crypto, s: State, run: seq<Event>, first: map<nat, Block>, shown: Question,
                                     log: seq<Entry>)
    requires WellFormed(s) && FeasibleRun(run)
    requires AsRead(s.slots, Asked(s.pending), first, shown, log)
    ensures var t := Run(c, s, run);
            AsRead(t.slots, Asked(t.pending), first, shown, log + Log(c, s, run))
    decreases |run|
  {
    hide Step, AsRead, EntryOf;
    if run == [] {
      assert log + [] == log;
    } else {
      var e := EntryOf(s, run[0]);
      StepKeepsInvariant(c, s, run[0]);
      StepReads(c, s, run[0]);
      ShownSlotExists(s);
      hide WellFormed;
      NextAsRead(s.slots, Asked(s.pending), first, shown, log, e);
      RunAsRead(c, Step(c, s, run[0]), run[1..], first, shown, log + [e]);
      assert log + [e] + Log(c, Step(c, s, run[0]), run[1..]) == log + Log(c, s, run);
    }
  }

  lemma ShownSlotExists(s: State)
    requires WellFormed(s)
    ensures var q := Asked(s.pending); q.MayStore? ==> q.slot < SLOT_COUNT
  {
  }

  /** After every run, under any interleaving of commands, presses, resets and power losses, each slot
      holds exactly the key last committed to it. */
  lemma RunHoldsLastCommitted(c: Crypto, s: State, run: seq<Event>, slot: nat)
    requires WellFormed(s) && FeasibleRun(run)
    ensures Agrees(Run(c, s, run).slots, slot, LastCommitted(s.slots, Asked(s.pending), Log(c, s, run), slot))
  {
    hide Run, Log, LastCommitted, Screen;
    NothingReadYet(s.slots, Asked(s.pending));
    RunAsRead(c, s, run, s.slots, Asked(s.pending), []);
    assert [] + Log(c, s, run) == Log(c, s, run);
  }

  lemma NothingReadYet(slots: map<nat, Block>, screen: Question)
    ensures AsRead(slots, screen, slots, screen, [])
  {
  }

  // ---- Calls one after another ----

  datatype HostCall =
    | SetKey(slot: byte, key: Block)
    | GetKey(slot: byte, priv: Block)
    | GetName(name: seq<byte>, priv: Block)
    | ListSlots
    | EraseAllSlots

  /** What may happen: a call, by a host that gives up when it times out; a call cut short by power loss
      among its flash writes, which leaves them as before or after it; presses and resets between calls,
      whose replies arrive or not; and a new connection, with nothing left to be read. */
  datatype Move =
    | Call(call: HostCall, user: User, link: Link)
    | Cut(call: HostCall, user: User, landed: bool, ram: Ram)
    | Meanwhile(user: User, arrives: bool)
    | Reconnect

  predicate Possible(m: Move) {
    (m.Call? || m.Cut?) && m.call.GetName? ==> |m.call.name| <= MAX_NAME_SIZE
  }

  predicate PossibleHistory(h: seq<Move>) {
    forall i | 0 <= i < |h| :: Possible(h[i])
  }

  function Instruction(call: HostCall): byte {
    match call
    case SetKey(_, _) => Kpl.STORE_KEY
    case GetKey(_, _) => Kpl.GET_KEY
    case GetName(_, _) => Kpl.GET_KEY_FROM_NAME
    case ListSlots => Kpl.GET_VALID_KEY_SLOTS
    case EraseAllSlots => Kpl.ERASE_ALL_SLOTS
  }

  function Parameter(call: HostCall): byte {
    if call.SetKey? || call.GetKey? then call.slot else 0
  }

  function Data(c: Crypto, call: HostCall): seq<byte> {
    match call
    case SetKey(_, key) => key
    case GetKey(_, priv) => PublicKey(c, priv)
    case GetName(name, priv) => PublicKey(c, priv) + name
    case _ => []
  }

  function RequestOf(c: Crypto, call: HostCall): Request {
    Dispatch(Instruction(call), Parameter(call), Data(c, call))
  }

  function CommandOf(c: Crypto, call: HostCall): (r: seq<byte>)
    requires call.GetName? ==> |call.name| <= MAX_NAME_SIZE
    ensures |r| <= BUFFER_SIZE
  {
    CommandBytes(CLA, Instruction(call), Parameter(call), 0, Data(c, call))
  }

  /** The answer's room, status word included. */
  function Room(call: HostCall): nat {
    match call
    case SetKey(_, _) => 2
    case GetKey(_, _) => 66
    case GetName(_, _) => 66
    case ListSlots => 3
    case EraseAllSlots => 3
  }

  function MoveEvents(c: Crypto, m: Move): (run: seq<Event>)
    requires Possible(m)
    ensures FeasibleRun(run)
  {
    match m
    case Call(call, user, link) => CallEvents(CommandOf(c, call), user, link)
    case Cut(call, user, landed, ram) =>
      (if landed then CallEvents(CommandOf(c, call), user, LosesReply) else []) + [PowerCycle(ram)]
    case Meanwhile(user, _) => UserEvents(user)
    case Reconnect => []
  }

  function Connected(way: Way): Way {
    if way.UsbWay? then UsbWay([]) else TcpWay(LedgerDeviceTcp.Inbound([], []))
  }

  function Advance(c: Crypto, w: World, m: Move): (r: World)
    requires WellFormed(w.device) && Possible(m)
    ensures r.device == Run(c, w.device, MoveEvents(c, m))
  {
    match m
    case Call(call, user, link) => Called(c, w, CommandOf(c, call), user, link, Room(call)).world
    case Cut(call, _, _, _) => World(Run(c, w.device, MoveEvents(c, m)), Receive(w.way, Room(call)).left)
    case Meanwhile(user, arrives) =>
      World(Run(c, w.device, UserEvents(user)),
            if arrives then ArriveAll(w.way, Sent(c, w.device, UserEvents(user))) else w.way)
    case Reconnect => World(w.device, Connected(w.way))
  }

  /** What the host hears in a move, if it is a call. */
  function HeardIn(c: Crypto, w: World, m: Move): Option<Received>
    requires WellFormed(w.device) && Possible(m)
  {
    match m
    case Call(call, user, link) => Some(Called(c, w, CommandOf(c, call), user, link, Room(call)).heard)
    case Cut(call, _, _, _) => Some(Receive(w.way, Room(call)).received)
    case _ => None
  }

  function Play(c: Crypto, start: World, h: seq<Move>): (w: World)
    requires WellFormed(start.device) && PossibleHistory(h)
    ensures WellFormed(w.device)
  {
    if h == [] then start else Advance(c, Play(c, start, h[..|h| - 1]), h[|h| - 1])
  }

  // ---- The slots after a history ----

  function UserLog(user: User): seq<Entry> {
    match user
    case Approves(_) => [Approved]
    case Leaves => []
    case _ => [Closed]
  }

  /** A move as the host and the user know it. */
  function MoveLog(c: Crypto, m: Move): seq<Entry> {
    match m
    case Call(call, user, link) =>
      (if link == LosesCommand then [] else [Command(RequestOf(c, call))]) + UserLog(user)
    case Cut(call, user, landed, _) =>
      (if landed then [Command(RequestOf(c, call))] + UserLog(user) else []) + [Closed]
    case Meanwhile(user, _) => UserLog(user)
    case Reconnect => []
  }

  function HistoryLog(c: Crypto, h: seq<Move>): seq<Entry> {
    if h == [] then [] else HistoryLog(c, h[..|h| - 1]) + MoveLog(c, h[|h| - 1])
  }

  lemma {:induction false} LogJoined(c: Crypto, s: State, a: seq<Event>, b: seq<Event>)
    requires WellFormed(s) && FeasibleRun(a) && FeasibleRun(b)
    ensures Log(c, s, a + b) == Log(c, s, a) + Log(c, Run(c, s, a), b)
    decreases |a|
  {
    hide Step, WellFormed, EntryOf;
    if a == [] {
      assert a + b == b;
    } else {
      StepKeepsInvariant(c, s, a[0]);
      assert (a + b)[1..] == a[1..] + b;
      LogJoined(c, Step(c, s, a[0]), a[1..], b);
    }
  }

  lemma LogOfUser(c: Crypto, s: State, user: User)
    requires WellFormed(s)
    ensures Log(c, s, UserEvents(user)) == UserLog(user)
  {
    hide Step, WellFormed, Log;
    OneEntry(c, s, UserEvents(user));
  }

  lemma OneEntry(c: Crypto, s: State, run: seq<Event>)
    requires WellFormed(s) && FeasibleRun(run) && |run| <= 1
    ensures Log(c, s, run) == if run == [] then [] else [EntryOf(s, run[0])]
  {
  }

  lemma LogOfCommand(c: Crypto, s: State, call: HostCall)
    requires WellFormed(s) && Possible(Call(call, Leaves, Works))
    ensures Log(c, s, [Apdu(CommandOf(c, call))]) == [Command(RequestOf(c, call))]
  {
    CallIsPossible(c, call);
    CommandDecodes(s.buf, CLA, Instruction(call), Parameter(call), 0, Data(c, call));
    assert |s.buf| == BUFFER_SIZE;
    hide Decode, Overlay, Dispatch, WellFormed, Log, CommandOf, CommandBytes, Data;
    OneEntry(c, s, [Apdu(CommandOf(c, call))]);
  }

  lemma LogOfMove(c: Crypto, s: State, m: Move)
    requires WellFormed(s) && Possible(m)
    ensures Log(c, s, MoveEvents(c, m)) == MoveLog(c, m)
  {
    hide WellFormed, Log, CommandOf, RequestOf, UserLog, UserEvents;
    match m
    case Call(call, user, link) => LogOfCall(c, s, call, user, link);
    case Cut(call, user, landed, ram) =>
      var first := if landed then CallEvents(CommandOf(c, call), user, LosesReply) else [];
      if landed {
        LogOfCall(c, s, call, user, LosesReply);
      } else {
        OneEntry(c, s, []);
      }
      LogJoined(c, s, first, [PowerCycle(ram)]);
      OneEntry(c, Run(c, s, first), [PowerCycle(ram)]);
    case Meanwhile(user, _) => LogOfUser(c, s, user);
    case Reconnect => OneEntry(c, s, []);
  }

  lemma LogOfCall(c: Crypto, s: State, call: HostCall, user: User, link: Link)
    requires WellFormed(s) && Possible(Call(call, user, link))
    ensures Log(c, s, CallEvents(CommandOf(c, call), user, link)) ==
            (if link == LosesCommand then [] else [Command(RequestOf(c, call))]) + UserLog(user)
  {
    hide WellFormed, Log, CommandOf, RequestOf, UserLog, UserEvents;
    LogOfUser(c, s, user);
    assert [] + UserLog(user) == UserLog(user);
    if link != LosesCommand {
      var first := [Apdu(CommandOf(c, call))];
      LogOfCommand(c, s, call);
      LogJoined(c, s, first, UserEvents(user));
      LogOfUser(c, Run(c, s, first), user);
    }
  }

  /** What the history reads for a slot, from the calls and presses alone. */
  function Committed(c: Crypto, start: World, h: seq<Move>, slot: nat): Option<Block> {
    LastCommitted(start.device.slots, Asked(start.device.pending), HistoryLog(c, h), slot)
  }

  lemma {:induction false} HistoryAsRead(c: Crypto, start: World, h: seq<Move>)
    requires WellFormed(start.device) && PossibleHistory(h)
    ensures var s := Play(c, start, h).device;
            AsRead(s.slots, Asked(s.pending), start.device.slots, Asked(start.device.pending), HistoryLog(c, h))
  {
    hide AsRead, WellFormed, Run, Advance, MoveLog;
    if h == [] {
      NothingReadYet(start.device.slots, Asked(start.device.pending));
    } else {
      var earlier, m := h[..|h| - 1], h[|h| - 1];
      var w := Play(c, start, earlier);
      HistoryAsRead(c, start, earlier);
      LogOfMove(c, w.device, m);
      RunAsRead(c, w.device, MoveEvents(c, m), start.device.slots, Asked(start.device.pending), HistoryLog(c, earlier));
      AdvancesByRun(c, w, m);
    }
  }

  lemma AdvancesByRun(c: Crypto, w: World, m: Move)
    requires WellFormed(w.device) && Possible(m)
    ensures Advance(c, w, m).device == Run(c, w.device, MoveEvents(c, m))
  {
  }

  /** After every history, each slot holds exactly the key last committed to it. */
  lemma SlotsHoldLastCommitted(c: Crypto, start: World, h: seq<Move>, slot: nat)
    requires WellFormed(start.device) && PossibleHistory(h)
    ensures Agrees(Play(c, start, h).device.slots, slot, Committed(c, start, h, slot))
  {
    hide Play, LastCommitted, Screen, HistoryLog, WellFormed;
    HistoryAsRead(c, start, h);
  }

  // ---- Hearing one's own reply ----

  /** No earlier reply is unread, and no earlier approval is on the screen. */
  ghost predicate Quiet(w: World) {
    w.device.pending == Idle && Carries(w.way, [])
  }

  predicate TimedOut(c: Crypto, w: World, m: Move)
    requires WellFormed(w.device) && Possible(m)
  {
    HeardIn(c, w, m).Some? && HeardIn(c, w, m).value.result == TRANSPORT_TIMEOUT
  }

  /** No call of the history timed out: the host knows. */
  predicate AllAnswered(c: Crypto, start: World, h: seq<Move>)
    requires WellFormed(start.device) && PossibleHistory(h)
  {
    h == [] ||
    (AllAnswered(c, start, h[..|h| - 1]) && !TimedOut(c, Play(c, start, h[..|h| - 1]), h[|h| - 1]))
  }

  lemma CallIsPossible(c: Crypto, call: HostCall)
    requires call.GetName? ==> |call.name| <= MAX_NAME_SIZE
    ensures |Data(c, call)| <= 255 && Room(call) <= Usb.MAX_MESSAGE
    ensures CommandOf(c, call) == CommandBytes(CLA, Instruction(call), Parameter(call), 0, Data(c, call))
    ensures AnswerRoom(RequestOf(c, call)) == Room(call)
  {
    hide PublicKey;
  }

  /** Every call with nothing ahead of it hears its own reply or times out. */
  lemma HearsOwn(c: Crypto, w: World, call: HostCall, user: User, link: Link)
    requires WellFormed(w.device) && Quiet(w) && Possible(Call(call, user, link))
    ensures HeardIn(c, w, Call(call, user, link)) ==
            Some(Hears(Own(c, w.device, RequestOf(c, call), user, link), Room(call)))
  {
    hide WellFormed, Carries, Called, CommandOf, Own, Hears, Data, Room;
    CallIsPossible(c, call);
    CallHears(c, w, [], Instruction(call), Parameter(call), Data(c, call), user, link, Room(call));
    NothingAhead(c, w.device, user, link);
  }

  /** With nothing on the screen before, a call that is answered sends that one reply and leaves the
      screen empty. */
  lemma AnswerIsAll(c: Crypto, s: State, call: HostCall, user: User)
    requires WellFormed(s) && s.pending == Idle && Possible(Call(call, user, Works))
    requires OwnMessage(c, s, RequestOf(c, call), user).Some?
    ensures var run := CallEvents(CommandOf(c, call), user, Works);
            Run(c, s, run).pending == Idle && |Sent(c, s, run)| == 1
  {
    var t := OnApdu(s, CommandOf(c, call));
    hide WellFormed, CommandBytes, Dispatch, Data, ApprovedEffect, Reply, OnApdu, Run, CallEvents;
    CallIsPossible(c, call);
    CommandHandled(c, s, Instruction(call), Parameter(call), Data(c, call));
    RunCommand(c, s, CommandOf(c, call), user);
    PressedSends(c, t, user);
    PressLeavesScreen(c, t, user);
    assert PendingAfter(RequestOf(c, call), Idle) == Idle;
    hide Pressed, CommandOf, React, PendingAfter;
  }

  lemma PressLeavesScreen(c: Crypto, s: State, user: User)
    requires WellFormed(s)
    ensures Pressed(c, s, user).pending == if user.Leaves? then s.pending else Idle
  {
    hide ApprovedEffect, Overlay, Reply, WellFormed;
  }

  lemma AnswerFits(c: Crypto, s: State, call: HostCall, user: User)
    requires WellFormed(s) && s.pending == Idle && Possible(Call(call, user, Works))
    requires OwnMessage(c, s, RequestOf(c, call), user).Some?
    ensures var arrived := Arrived(c, s, CommandOf(c, call), user, Works);
            |arrived| == 1 && |arrived[0]| <= Room(call)
  {
    CallIsPossible(c, call);
    AnswerIsAll(c, s, call, user);
    RepliesFit(c, s, RequestOf(c, call), user);
    ConversationHandles(c, s, Instruction(call), Parameter(call), Data(c, call), user);
    hide WellFormed, CommandOf, CommandBytes, OwnMessage, Data, Room, Run, CallEvents, Dispatch, AnswerRoom;
  }

  lemma QuietIfHeard(c: Crypto, w: World, call: HostCall, user: User)
    requires WellFormed(w.device) && Quiet(w) && Possible(Call(call, user, Works))
    requires OwnMessage(c, w.device, RequestOf(c, call), user).Some?
    ensures Quiet(Called(c, w, CommandOf(c, call), user, Works, Room(call)).world)
  {
    CallIsPossible(c, call);
    AnswerIsAll(c, w.device, call, user);
    AnswerFits(c, w.device, call, user);
    hide WellFormed, Carries, Called, CommandOf, OwnMessage, Hears, Data, Room, Run, CallEvents, RequestOf, Arrived;
    CallHears(c, w, [], Instruction(call), Parameter(call), Data(c, call), user, Works, Room(call));
    var arrived := Arrived(c, w.device, CommandOf(c, call), user, Works);
    assert [] + arrived == arrived && arrived[1..] == [];
  }

  lemma QuietAfterCall(c: Crypto, w: World, call: HostCall, user: User, link: Link)
    requires WellFormed(w.device) && Quiet(w) && Possible(Call(call, user, link))
    requires !TimedOut(c, w, Call(call, user, link))
    ensures Quiet(Advance(c, w, Call(call, user, link)))
  {
    HearsOwn(c, w, call, user, link);
    SilenceIsTimeout(Room(call));
    hide WellFormed, Quiet, Called, CommandOf, OwnMessage, Hears, Room, RequestOf;
    assert link == Works;
    QuietIfHeard(c, w, call, user);
  }

  lemma SilenceIsTimeout(room: nat)
    ensures Hears(None, room).result == TRANSPORT_TIMEOUT
  {
  }

  lemma QuietAfterMove(c: Crypto, w: World, m: Move)
    requires WellFormed(w.device) && Quiet(w) && Possible(m) && !TimedOut(c, w, m)
    ensures Quiet(Advance(c, w, m))
  {
    match m
    case Call(call, user, link) => QuietAfterCall(c, w, call, user, link);
    case Cut(call, _, _, _) =>
      ReadsOldest(w.way, [], Room(call));
      SilenceIsTimeout(Room(call));
    case Meanwhile(user, _) =>
      RunPressed(c, w.device, user);
      PressedOnScreen(c, w.device, user);
      NothingArrives(w.way);
      hide Carries, WellFormed, Sent;
    case Reconnect =>
  }

  /** As long as no call timed out, nothing is ahead of the next one. */
  lemma {:induction false} QuietWhileAnswered(c: Crypto, start: World, h: seq<Move>)
    requires WellFormed(start.device) && Quiet(start) && PossibleHistory(h) && AllAnswered(c, start, h)
    ensures Quiet(Play(c, start, h))
  {
    hide Quiet, Advance, WellFormed, TimedOut;
    if h != [] {
      QuietWhileAnswered(c, start, h[..|h| - 1]);
      QuietAfterMove(c, Play(c, start, h[..|h| - 1]), h[|h| - 1]);
    }
  }

  /** A store the user leaves on the screen until after the call timed out, then approves: the next
      store, refused, reports success. */
  lemma LateApprovalIsTakenForTheNextStore(c: Crypto, w: World, i: byte, key: Block, random: Block,
                                           j: byte, other: Block)
    requires WellFormed(w.device) && Quiet(w) && i in w.device.slots && j in w.device.slots && i != j
    ensures var h := [Call(SetKey(i, key), Leaves, Works), Meanwhile(Approves(random), true)];
            var v := Play(c, w, h);
            var r := Called(c, v, CommandBytes(CLA, Kpl.STORE_KEY, j, 0, other), Denies, Works, 2);
            && TimedOut(c, w, h[0]) && StatusOutcome(r.heard) == SUCCESS
            && r.world.device.slots == w.device.slots[i := key]
  {
    var ask, press := Call(SetKey(i, key), Leaves, Works), Meanwhile(Approves(random), true);
    assert i < SLOT_COUNT;
    StoreLeftOnScreen(c, w, i, key);
    var u := Advance(c, w, ask);
    ApprovalArrives(c, u, random);
    var v := Advance(c, u, press);
    TwoMoves(c, w, ask, press);
    hide Called, Carries, WellFormed, Advance, Reply, Play;
    RefusedStoreReportsSuccess(c, v, [Reply([], SW_SUCCESS)], j, other);
  }

  lemma TwoMoves(c: Crypto, w: World, m: Move, n: Move)
    requires WellFormed(w.device) && Possible(m) && Possible(n)
    ensures Play(c, w, [m, n]) == Advance(c, Advance(c, w, m), n)
  {
    hide Advance, WellFormed;
    assert [m, n][..1] == [m] && [m][..0] == [];
    assert Play(c, w, [m]) == Advance(c, Play(c, w, []), m);
  }

  lemma StoreLeftOnScreen(c: Crypto, w: World, i: byte, key: Block)
    requires WellFormed(w.device) && Quiet(w) && i in w.device.slots
    ensures var m := Call(SetKey(i, key), Leaves, Works);
            var u := Advance(c, w, m);
            TimedOut(c, w, m) && u.device.pending == Overwrite(i, key) && u.device.slots == w.device.slots &&
            Carries(u.way, [])
  {
    assert i < SLOT_COUNT;
    var call := SetKey(i, key);
    HearsOwn(c, w, call, Leaves, Works);
    StoreMessage(c, w.device, i, key, Leaves);
    SilenceIsTimeout(2);
    StoreAsks(c, w.device, i, key);
    hide Called, Carries, WellFormed, CommandOf, Run, CallEvents, Hears, RequestOf, OwnMessage;
    CallIsPossible(c, call);
    CallHears(c, w, [], Kpl.STORE_KEY, i, key, Leaves, Works, 2);
  }

  lemma StoreAsks(c: Crypto, s: State, i: byte, key: Block)
    requires WellFormed(s) && i in s.slots
    ensures var run := CallEvents(CommandOf(c, SetKey(i, key)), Leaves, Works);
            var t := Run(c, s, run);
            t.pending == Overwrite(i, key) && t.slots == s.slots && Sent(c, s, run) == []
  {
    assert i < SLOT_COUNT;
    assert React(App.StoreKey(i, key), s.slots) == Ask(Overwrite(i, key));
    CommandHandled(c, s, Kpl.STORE_KEY, i, key);
    hide WellFormed, CommandBytes, OnApdu, Run, CallEvents, React, Pressed, Sendable;
    RunCommand(c, s, CommandOf(c, SetKey(i, key)), Leaves);
    LeftAlone(c, OnApdu(s, CommandOf(c, SetKey(i, key))));
  }

  lemma LeftAlone(c: Crypto, s: State)
    requires WellFormed(s)
    ensures Pressed(c, s, Leaves) == s
  {
  }

  lemma ApprovalArrives(c: Crypto, u: World, random: Block)
    requires WellFormed(u.device) && u.device.pending.Overwrite? && Carries(u.way, [])
    ensures var v := Advance(c, u, Meanwhile(Approves(random), true));
            && Carries(v.way, [Reply([], SW_SUCCESS)])
            && v.device.slots == u.device.slots[u.device.pending.slot := u.device.pending.key]
  {
    var reply := Reply([], SW_SUCCESS);
    assert u.device.(pending := u.device.pending) == u.device;
    RunPressed(c, u.device, Approves(random));
    PressedSends(c, u.device, Approves(random));
    PressedOnScreen(c, u.device, Approves(random));
    hide Carries, WellFormed, Pressed, Reply, Run, UserEvents, ArriveAll;
    var arrived := Sent(c, u.device, UserEvents(Approves(random)));
    assert arrived == [reply] && [] + arrived == [reply];
    ArriveAllCarries(u.way, [], arrived);
  }

  // ---- In step ----

  ghost predicate InStep(way: Way) {
    exists unread: seq<Packet> :: Carries(way, unread)
  }

  predicate TooLong(c: Crypto, w: World, m: Move)
    requires WellFormed(w.device) && Possible(m)
  {
    HeardIn(c, w, m).Some? && HeardIn(c, w, m).value.result == PROTOCOL_BAD_LENGTH
  }

  /** Replies arrive whole and in order in front of every call, as long as none was refused for its
      length. */
  lemma InStepAfterMove(c: Crypto, w: World, m: Move)
    requires WellFormed(w.device) && InStep(w.way) && Possible(m) && !TooLong(c, w, m)
    ensures InStep(Advance(c, w, m).way)
  {
    var unread: seq<Packet> :| Carries(w.way, unread);
    hide WellFormed, Run, Sendable, Data, CommandBytes;
    match m
    case Call(call, user, link) =>
      CallIsPossible(c, call);
      var arrived := Arrived(c, w.device, CommandOf(c, call), user, link);
      ArriveAllCarries(w.way, unread, arrived);
      StepAfterRead(ArriveAll(w.way, arrived), unread + arrived, Room(call));
    case Cut(call, _, _, _) =>
      StepAfterRead(w.way, unread, Room(call));
    case Meanwhile(user, arrives) =>
      if arrives {
        ArriveAllCarries(w.way, unread, Sent(c, w.device, UserEvents(user)));
      }
    case Reconnect =>
      assert Carries(Connected(w.way), []);
  }

  lemma StepAfterRead(way: Way, ms: seq<Packet>, room: nat)
    requires Carries(way, ms) && room <= Usb.MAX_MESSAGE
    requires Receive(way, room).received.result != PROTOCOL_BAD_LENGTH
    ensures InStep(Receive(way, room).left)
  {
    hide Carries, Receive;
    ReadsOldest(way, ms, room);
  }

  // ---- Calls with nothing ahead ----

  lemma QuietKey(c: Crypto, w: World, slot: byte, priv: Block, user: User, link: Link)
    requires Commutes(c) && WellFormed(w.device) && Quiet(w)
    ensures KeyFrom(c, Called(c, w, GetKeyCommand(c, slot, priv), user, link, 66).heard, priv) ==
            OverLink(link, SlotKeyOutcome(c, w.device.slots, slot, priv, user))
  {
    hide KeyFrom, Called, Carries, WellFormed, Commutes, PublicKey, CommandBytes, Ahead, SlotKeyOutcome;
    GetKeyHeard(c, w, [], slot, priv, user, link);
    NothingAhead(c, w.device, user, link);
  }

  lemma QuietNameKey(c: Crypto, w: World, name: seq<byte>, priv: Block, user: User, link: Link)
    requires Commutes(c) && WellFormed(w.device) && Quiet(w) && |name| <= MAX_NAME_SIZE
    ensures KeyFrom(c, Called(c, w, GetNameCommand(c, name, priv), user, link, 66).heard, priv) ==
            OverLink(link, NameKeyOutcome(c, name, priv, user))
  {
    hide KeyFrom, Called, Carries, WellFormed, Commutes, PublicKey, CommandBytes, Ahead, NameKeyOutcome;
    NameKeyEndToEnd(c, w, [], name, priv, user, link);
    NothingAhead(c, w.device, user, link);
  }

  lemma QuietStore(c: Crypto, w: World, slot: byte, key: Block, user: User, link: Link)
    requires WellFormed(w.device) && Quiet(w)
    ensures var r := Called(c, w, CommandBytes(CLA, Kpl.STORE_KEY, slot, 0, key), user, link, 2);
            var slots := w.device.slots;
            && StatusOutcome(r.heard) == StoreOutcome(slots, slot, user, link)
            && r.world.device.slots == (if Stores(slots, slot, user, link) then slots[slot := key] else slots)
            && (StatusOutcome(r.heard) == SUCCESS <==> link == Works && Stores(slots, slot, user, link))
  {
    hide Called, Carries, WellFormed, CommandBytes, Ahead, StatusOutcome, SlotsPressed, Stores, StoreOutcome;
    StoreEndToEnd(c, w, [], slot, key, user, link);
    NothingAhead(c, w.device, user, link);
  }

  lemma QuietErase(c: Crypto, w: World, user: User, link: Link)
    requires WellFormed(w.device) && Quiet(w)
    ensures var r := Called(c, w, CommandBytes(CLA, Kpl.ERASE_ALL_SLOTS, 0, 0, []), user, link, 3);
            var erased := link != LosesCommand && user.Approves?;
            && StatusOutcome(r.heard) == EraseOutcome(user, link)
            && r.world.device.slots == (if erased then map[] else w.device.slots)
            && (StatusOutcome(r.heard) == SUCCESS <==> link == Works && erased)
  {
    hide Called, Carries, WellFormed, CommandBytes, Ahead, StatusOutcome, EraseOutcome;
    EraseEndToEnd(c, w, [], user, link);
    NothingAhead(c, w.device, user, link);
  }

  lemma QuietList(c: Crypto, w: World, user: User, link: Link)
    requires WellFormed(w.device) && Quiet(w)
    ensures var command := CommandBytes(CLA, Kpl.GET_VALID_KEY_SLOTS, 0, 0, []);
            var o := SlotsFrom(Called(c, w, command, user, link, 3).heard);
            if link != Works then o == SlotsOutcome(TRANSPORT_TIMEOUT, [])
            else && o.result == SUCCESS && Ascending(o.slots)
                 && forall slot: nat :: slot in o.slots <==> slot in w.device.slots
  {
    hide Called, Carries, WellFormed, CommandBytes, Ahead, SlotsFrom, Ascending, SlotList, Bitfield, Hears;
    ListHeard(c, w, [], user, link);
    NothingAhead(c, w.device, user, link);
    SlotListOfMap(w.device.slots);
  }

  // ---- End to end ----

  /** What a host's `getKey` returns after any history, in every case: what it makes of an earlier
      reply if one is ahead, and else its own outcome. */
  lemma GetKeyEndToEnd(c: Crypto, start: World, h: seq<Move>, unread: seq<Packet>, slot: byte, priv: Block,
                       user: User, link: Link)
    requires Commutes(c) && WellFormed(start.device) && PossibleHistory(h)
    requires Carries(Play(c, start, h).way, unread)
    ensures var w := Play(c, start, h);
            var o := KeyFrom(c, Called(c, w, GetKeyCommand(c, slot, priv), user, link, 66).heard, priv);
            var ahead, committed := Ahead(c, w.device, unread, user, link), Committed(c, start, h, slot);
            o == if ahead.Some? then KeyFrom(c, Hears(ahead, 66), priv)
                 else if link != Works then KeyOutcome(TRANSPORT_TIMEOUT, [])
                 else if slot >= SLOT_COUNT then KeyOutcome(PROTOCOL_BAD_PARAM, [])
                 else if committed == None then KeyOutcome(APP_EMPTY_SLOT, [])
                 else match user
                   case Approves(random) => HandedOut(c, committed.value, priv, random)
                   case Denies => KeyOutcome(APP_UNAUTHORIZED_ACCESS, [])
                   case _ => KeyOutcome(TRANSPORT_TIMEOUT, [])
  {
    hide Play, KeyFrom, Called, Committed, HandedOut, Commutes, WellFormed, Carries, Ahead, Hears;
    SlotsHoldLastCommitted(c, start, h, slot);
    GetKeyHeard(c, Play(c, start, h), unread, slot, priv, user, link);
  }

  /** After a history without timeouts nothing is ahead, whatever the user and the way do next. */
  lemma NothingAheadIfAnswered(c: Crypto, start: World, h: seq<Move>, user: User, link: Link)
    requires WellFormed(start.device) && Quiet(start) && PossibleHistory(h) && AllAnswered(c, start, h)
    ensures var w := Play(c, start, h); Carries(w.way, []) && Ahead(c, w.device, [], user, link) == None
  {
    hide Play, WellFormed, Ahead, Carries, AllAnswered;
    QuietWhileAnswered(c, start, h);
    NothingAhead(c, Play(c, start, h).device, user, link);
  }

  /** If nothing is ahead, success means the user approved this request and the key is the one last
      committed. */
  lemma SuccessMeansApprovedAndCommitted(c: Crypto, start: World, h: seq<Move>, unread: seq<Packet>, slot: byte,
                                         priv: Block, user: User, link: Link)
    requires Commutes(c) && WellFormed(start.device) && PossibleHistory(h)
    requires Carries(Play(c, start, h).way, unread)
    requires Ahead(c, Play(c, start, h).device, unread, user, link) == None
    ensures var w := Play(c, start, h);
            var o := KeyFrom(c, Called(c, w, GetKeyCommand(c, slot, priv), user, link, 66).heard, priv);
            o.result == SUCCESS ==>
              var committed := Committed(c, start, h, slot);
              link == Works && user.Approves? && committed.Some? && o.key == committed.value
  {
    hide Play, KeyFrom, Called, Committed, Commutes, X25519Device.Encrypt, DegenerateSecret, WellFormed, Carries, Ahead;
    GetKeyEndToEnd(c, start, h, unread, slot, priv, user, link);
  }

  /** The host's slot list is the ascending list of the slots with a committed key. */
  lemma SlotListEndToEnd(c: Crypto, start: World, h: seq<Move>, unread: seq<Packet>, user: User, link: Link)
    requires WellFormed(start.device) && PossibleHistory(h) && Carries(Play(c, start, h).way, unread)
    ensures var w := Play(c, start, h);
            var command := CommandBytes(CLA, Kpl.GET_VALID_KEY_SLOTS, 0, 0, []);
            var o := SlotsFrom(Called(c, w, command, user, link, 3).heard);
            var ahead := Ahead(c, w.device, unread, user, link);
            if ahead.Some? then o == SlotsFrom(Hears(ahead, 3))
            else if link == Works
            then && o.result == SUCCESS && Ascending(o.slots) && |o.slots| <= SLOT_COUNT
                 && forall slot: nat :: slot in o.slots <==> Committed(c, start, h, slot).Some?
            else o == SlotsOutcome(TRANSPORT_TIMEOUT, [])
  {
    hide Called, Play, Committed, SlotsFrom, Ascending, CommandBytes, Hears, WellFormed, Carries, Ahead, SlotList;
    var w := Play(c, start, h);
    ListHeard(c, w, unread, user, link);
    SlotListOfMap(w.device.slots);
    forall slot: nat
      ensures slot in w.device.slots <==> Committed(c, start, h, slot).Some?
    {
      SlotsHoldLastCommitted(c, start, h, slot);
    }
  }
}
