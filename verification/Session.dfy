/** Calls of the host through the methods of both programs, one after another over one connection. */
module Session {
  import opened Bytes
  import opened Results
  import opened KeyExchange
  import opened App
  import opened Kpl
  import opened Wire
  import opened EndToEnd
  import opened Histories
  import opened Usb
  import LedgerClient
  import Device
  import Storage

  /** What a call cannot choose; `memory` is what a power loss leaves in the device's memory. */
  datatype Circumstances = Circumstances(link: Link, user: User, memory: Device.Statics)

  /** The two programs are at rest, on a transport whose writes are taken whole. */
  ghost predicate Ready(device: Device.Device, kpl: KPL)
    reads device, device.nvm, device.name, device.buf, device.line1, device.line2
    reads if kpl.transport.Usb? then {kpl.transport.usb} else {}, kpl.transport.Footprint()
  {
    && device.Valid() && device.tx == 0 && kpl.c == device.c
    && kpl.transport.Works() && device.Footprint() !! kpl.transport.Footprint()
  }

  /** What both hold. */
  ghost function Both(device: Device.Device, kpl: KPL): World
    reads device, device.nvm, device.name, device.buf
    reads if kpl.transport.Usb? then {kpl.transport.usb} else {}, kpl.transport.Footprint()
    requires device.Shape()
  {
    World(device.Abs(), kpl.transport.Now().way)
  }

  // ---- The device's turn ----

  /** The user's press on whatever is on the screen. */
  method Press(device: Device.Device, user: User, memory: Device.Statics)
    requires device.Valid() && device.tx == 0
    modifies device.Footprint()
    ensures device.Valid() && device.tx == 0
    ensures device.Abs() == Pressed(device.c, old(device.Abs()), user)
  {
    hide OnApprove, OnDeny, WellFormed, Storage.CrashSafe;
    match user
    case Approves(random) => device.TouchOkay(random);
    case Denies => device.TouchDeny();
    case Unplugs => device.IoReset();
    case LosesPower(ram) => device.PowerCycle(ram, memory);
    case Leaves =>
  }

  /** The device during a call, from the command to what the user leaves; what it sends arrives. */
  method Serve(device: Device.Device, command: seq<byte>, how: Circumstances) returns (arrived: seq<seq<byte>>)
    requires device.Valid() && device.tx == 0 && |command| <= BUFFER_SIZE
    modifies device.Footprint()
    ensures device.Valid() && device.tx == 0
    ensures device.Abs() == Run(device.c, old(device.Abs()), CallEvents(command, how.user, how.link))
    ensures arrived == Arrived(device.c, old(device.Abs()), command, how.user, how.link)
  {
    hide OnApdu, WellFormed, Storage.CrashSafe, Run, UserEvents, Pressed;
    ghost var was := device.Abs();
    var before := |device.sent|;
    if how.link == LosesCommand {
      RunPressed(device.c, was, how.user);
    } else {
      RunCommand(device.c, was, command, how.user);
      SameEvents(command, how.user, how.link);
      device.Turn(command);
    }
    Press(device, how.user, how.memory);
    ghost var all := Sent(device.c, was, CallEvents(command, how.user, how.link));
    assert device.sent == was.sent + all;
    assert device.sent[before..] == all;
    arrived := if how.link == LosesReply then [] else device.sent[before..];
  }

  lemma SameEvents(command: seq<byte>, user: User, link: Link)
    requires |command| <= BUFFER_SIZE && link != LosesCommand
    ensures CallEvents(command, user, link) == CallEvents(command, user, Works)
  {
  }

  // ---- The way there and back ----

  /** What the host writes for a command is received as that command, with any padding. */
  lemma CommandArrives(transport: LedgerClient.Transport, command: seq<byte>, inbox: seq<Report>)
    requires |command| <= BUFFER_SIZE
    ensures transport.Usb? && Delivers(transport.Wired(command), inbox) ==>
              ReadSpec(inbox, BUFFER_SIZE).result == SUCCESS && ReadSpec(inbox, BUFFER_SIZE).output == command
    ensures transport.Tcp? ==>
              transport.Wired(command) == [BE32(|command|), command] && Load32(BE32(|command|)) == |command|
  {
    LoadUndoesStore(|command|);
    if transport.Usb? && Delivers(transport.Wired(command), inbox) {
      UsbRoundTrip(command, inbox, BUFFER_SIZE);
    }
  }

  /** The network or the operating system takes in what arrives. */
  method TakeIn(kpl: KPL, arrived: seq<Packet>)
    requires kpl.transport.Works()
    modifies kpl.transport.Footprint()
    ensures kpl.transport.Works()
    ensures kpl.transport.Now() ==
            old(LedgerClient.Traffic(ArriveAll(kpl.transport.Now().way, arrived), kpl.transport.Now().written))
    decreases |arrived|
  {
    if arrived == [] {
      NothingArrives(kpl.transport.Now().way);
      return;
    }
    match kpl.transport {
      case Usb(usb) => usb.hid.Arrive(Incoming(arrived[0]));
      case Tcp(tcp) => tcp.socket.Arrive(Frame(arrived[0]), Bringing(arrived[0]));
    }
    TakeIn(kpl, arrived[1..]);
  }

  /** The device's turn, with what it sends on its way to the host. */
  method Turn(device: Device.Device, kpl: KPL, command: seq<byte>, how: Circumstances)
    requires Ready(device, kpl) && |command| <= BUFFER_SIZE
    modifies device.Footprint(), kpl.transport.Footprint()
    ensures Ready(device, kpl)
    ensures device.Abs() == Run(device.c, old(device.Abs()), CallEvents(command, how.user, how.link))
    ensures var was := old(kpl.transport.Now());
            var arrived := Arrived(device.c, old(device.Abs()), command, how.user, how.link);
            kpl.transport.Now() == LedgerClient.Traffic(ArriveAll(was.way, arrived), was.written)
  {
    assert WellFormed(device.Abs());
    hide WellFormed, Run, CallEvents, ArriveAll, Arrived, Sendable, Device.Device.Valid, Device.Device.Abs, Ready;
    hide LedgerClient.Transport.Now;
    var arrived := ServeAlone(device, kpl, command, how);
    TakeInAlone(device, kpl, arrived);
  }

  /** The device's part of its turn leaves the host's connection alone. */
  method ServeAlone(device: Device.Device, ghost kpl: KPL, command: seq<byte>, how: Circumstances)
    returns (arrived: seq<seq<byte>>)
    requires Ready(device, kpl) && |command| <= BUFFER_SIZE
    modifies device.Footprint()
    ensures Ready(device, kpl) && kpl.transport.Now() == old(kpl.transport.Now())
    ensures device.Abs() == Run(device.c, old(device.Abs()), CallEvents(command, how.user, how.link))
    ensures arrived == Arrived(device.c, old(device.Abs()), command, how.user, how.link)
  {
    assert WellFormed(device.Abs());
    hide WellFormed, Run, CallEvents, Arrived, Sendable, Device.Device.Valid, Device.Device.Abs;
    arrived := Serve(device, command, how);
  }

  /** The connection's part leaves the device alone. */
  method TakeInAlone(ghost device: Device.Device, kpl: KPL, arrived: seq<Packet>)
    requires Ready(device, kpl)
    modifies kpl.transport.Footprint()
    ensures Ready(device, kpl) && device.Abs() == old(device.Abs())
    ensures kpl.transport.Now() ==
            old(LedgerClient.Traffic(ArriveAll(kpl.transport.Now().way, arrived), kpl.transport.Now().written))
  {
    hide ArriveAll, Device.Device.Valid, Device.Device.Abs;
    TakeIn(kpl, arrived);
  }

  /** The device's side of a call. The host then writes exactly this command, as every operation below
      promises, and reads only after that. */
  method Carry(device: Device.Device, kpl: KPL, command: seq<byte>, how: Circumstances, ghost room: nat)
    requires Ready(device, kpl) && |command| <= BUFFER_SIZE
    modifies device.Footprint(), kpl.transport.Footprint()
    ensures Ready(device, kpl)
    ensures var r := Called(device.c, old(Both(device, kpl)), command, how.user, how.link, room);
            && device.Abs() == r.world.device
            && kpl.transport.Expected(command, room) == r.heard
            && kpl.transport.TrafficAfter(command, room) ==
               LedgerClient.Traffic(r.world.way, old(kpl.transport.Now().written) + kpl.transport.Wired(command))
  {
    assert WellFormed(device.Abs());
    hide WellFormed, Run, CallEvents, Receive, ArriveAll, Arrived, Sendable, Device.Device.Valid, Device.Device.Abs;
    hide LedgerClient.Transport.Expected, LedgerClient.Transport.TrafficAfter, LedgerClient.Transport.Wired;
    Turn(device, kpl, command, how);
    kpl.transport.WorkingExchange(command, room);
  }

  // ---- The host's half, which leaves the device alone ----

  method AskKey(ghost device: Device.Device, kpl: KPL, slot: byte, out: array<byte>, ownPriv: Block)
    returns (res: Result)
    requires Ready(device, kpl) && out.Length == 32 && out !in device.Footprint()
    modifies kpl.transport.Footprint(), out
    ensures Ready(device, kpl) && device.Abs() == old(device.Abs())
    ensures var command := GetKeyCommand(kpl.c, slot, ownPriv);
            var e := old(kpl.transport.Expected(command, 66));
            var o := KeyFrom(kpl.c, e, ownPriv);
            && res == o.result && (res == SUCCESS ==> out[..] == o.key)
            && out[..] == OutAfter(kpl.c, e, ownPriv, old(out[..]))
            && kpl.transport.Now() == old(kpl.transport.TrafficAfter(command, 66))
  {
    hide KeyFrom, OutAfter, CommandBytes, PublicKey;
    hide Device.Device.Valid, Device.Device.Abs;
    hide LedgerClient.Transport.Expected, LedgerClient.Transport.TrafficAfter, LedgerClient.Transport.Now;
    res := kpl.GetKey(slot, out, ownPriv);
  }

  method AskKeyFromName(ghost device: Device.Device, kpl: KPL, name: seq<byte>, out: array<byte>, ownPriv: Block)
    returns (res: Result)
    requires Ready(device, kpl) && |name| <= MAX_NAME_SIZE && out.Length == 32 && out !in device.Footprint()
    modifies kpl.transport.Footprint(), out
    ensures Ready(device, kpl) && device.Abs() == old(device.Abs())
    ensures var command := GetNameCommand(kpl.c, name, ownPriv);
            var e := old(kpl.transport.Expected(command, 66));
            var o := KeyFrom(kpl.c, e, ownPriv);
            && res == o.result && (res == SUCCESS ==> out[..] == o.key)
            && out[..] == OutAfter(kpl.c, e, ownPriv, old(out[..]))
            && kpl.transport.Now() == old(kpl.transport.TrafficAfter(command, 66))
  {
    hide KeyFrom, OutAfter, CommandBytes, PublicKey;
    hide Device.Device.Valid, Device.Device.Abs;
    hide LedgerClient.Transport.Expected, LedgerClient.Transport.TrafficAfter, LedgerClient.Transport.Now;
    res := kpl.GetKeyFromName(name, out, ownPriv);
  }

  method AskToStore(ghost device: Device.Device, kpl: KPL, slot: byte, key: Block)
    returns (res: Result)
    requires Ready(device, kpl)
    modifies kpl.transport.Footprint()
    ensures Ready(device, kpl) && device.Abs() == old(device.Abs())
    ensures var command := CommandBytes(CLA, Kpl.STORE_KEY, slot, 0, key);
            && res == StatusOutcome(old(kpl.transport.Expected(command, 2)))
            && kpl.transport.Now() == old(kpl.transport.TrafficAfter(command, 2))
  {
    hide StatusOutcome, CommandBytes;
    hide Device.Device.Valid, Device.Device.Abs;
    hide LedgerClient.Transport.Expected, LedgerClient.Transport.TrafficAfter, LedgerClient.Transport.Now;
    res := kpl.SetKey(slot, key);
  }

  method AskToErase(ghost device: Device.Device, kpl: KPL)
    returns (res: Result)
    requires Ready(device, kpl)
    modifies kpl.transport.Footprint()
    ensures Ready(device, kpl) && device.Abs() == old(device.Abs())
    ensures var command := CommandBytes(CLA, Kpl.ERASE_ALL_SLOTS, 0, 0, []);
            && res == StatusOutcome(old(kpl.transport.Expected(command, 3)))
            && kpl.transport.Now() == old(kpl.transport.TrafficAfter(command, 3))
  {
    hide StatusOutcome, CommandBytes;
    hide Device.Device.Valid, Device.Device.Abs;
    hide LedgerClient.Transport.Expected, LedgerClient.Transport.TrafficAfter, LedgerClient.Transport.Now;
    res := kpl.EraseAllSlots();
  }

  method AskForList(ghost device: Device.Device, kpl: KPL)
    returns (res: Result, found: seq<nat>)
    requires Ready(device, kpl)
    modifies kpl.transport.Footprint()
    ensures Ready(device, kpl) && device.Abs() == old(device.Abs())
    ensures var command := CommandBytes(CLA, Kpl.GET_VALID_KEY_SLOTS, 0, 0, []);
            && SlotsOutcome(res, found) == SlotsFrom(old(kpl.transport.Expected(command, 3)))
            && kpl.transport.Now() == old(kpl.transport.TrafficAfter(command, 3))
  {
    hide SlotsFrom, CommandBytes;
    hide Device.Device.Valid, Device.Device.Abs;
    hide LedgerClient.Transport.Expected, LedgerClient.Transport.TrafficAfter, LedgerClient.Transport.Now;
    ghost var o := SlotsFrom(kpl.transport.Expected(CommandBytes(CLA, Kpl.GET_VALID_KEY_SLOTS, 0, 0, []), 3));
    assert [] + o.slots == o.slots;
    res, found := kpl.GetValidKeySlots([]);
  }

  // ---- The public operations ----

  /** `getKey` against the device, whatever earlier calls left on the way and on the screen. */
  method RequestKey(device: Device.Device, kpl: KPL, slot: byte, out: array<byte>, ownPriv: Block, how: Circumstances)
    returns (res: Result)
    requires Ready(device, kpl) && out.Length == 32 && out !in device.Footprint()
    modifies device.Footprint(), kpl.transport.Footprint(), out
    ensures Ready(device, kpl)
    ensures var command := GetKeyCommand(device.c, slot, ownPriv);
            var r := Called(device.c, old(Both(device, kpl)), command, how.user, how.link, 66);
            var o := KeyFrom(device.c, r.heard, ownPriv);
            && Both(device, kpl) == r.world
            && kpl.transport.Now().written == old(kpl.transport.Now().written) + kpl.transport.Wired(command)
            && res == o.result && (res == SUCCESS ==> out[..] == o.key)
            && out[..] == OutAfter(device.c, r.heard, ownPriv, old(out[..]))
    ensures Commutes(device.c) && old(Quiet(Both(device, kpl))) ==>
              var o := OverLink(how.link, SlotKeyOutcome(device.c, old(device.Abs()).slots, slot, ownPriv, how.user));
              res == o.result && (res == SUCCESS ==> out[..] == o.key)
  {
    hide Called, SlotKeyOutcome, KeyFrom, OutAfter, CommandBytes, PublicKey, Commutes, Quiet;
    ghost var was := Both(device, kpl);
    assert WellFormed(was.device);
    hide WellFormed, Device.Device.Valid, Device.Device.Abs;
    hide LedgerClient.Transport.Expected, LedgerClient.Transport.TrafficAfter, LedgerClient.Transport.Wired;
    Carry(device, kpl, GetKeyCommand(device.c, slot, ownPriv), how, 66);
    res := AskKey(device, kpl, slot, out, ownPriv);
    if Commutes(device.c) && Quiet(was) {
      QuietKey(device.c, was, slot, ownPriv, how.user, how.link);
    }
  }

  /** `getKeyFromName`. */
  method RequestKeyFromName(device: Device.Device, kpl: KPL, name: seq<byte>, out: array<byte>, ownPriv: Block,
                            how: Circumstances)
    returns (res: Result)
    requires Ready(device, kpl) && |name| <= MAX_NAME_SIZE && out.Length == 32 && out !in device.Footprint()
    modifies device.Footprint(), kpl.transport.Footprint(), out
    ensures Ready(device, kpl)
    ensures var command := GetNameCommand(device.c, name, ownPriv);
            var r := Called(device.c, old(Both(device, kpl)), command, how.user, how.link, 66);
            var o := KeyFrom(device.c, r.heard, ownPriv);
            && Both(device, kpl) == r.world
            && kpl.transport.Now().written == old(kpl.transport.Now().written) + kpl.transport.Wired(command)
            && res == o.result && (res == SUCCESS ==> out[..] == o.key)
            && out[..] == OutAfter(device.c, r.heard, ownPriv, old(out[..]))
    ensures Commutes(device.c) && old(Quiet(Both(device, kpl))) ==>
              var o := OverLink(how.link, NameKeyOutcome(device.c, name, ownPriv, how.user));
              res == o.result && (res == SUCCESS ==> out[..] == o.key)
  {
    hide Called, NameKeyOutcome, KeyFrom, OutAfter, CommandBytes, PublicKey, Commutes, Quiet;
    ghost var was := Both(device, kpl);
    assert WellFormed(was.device);
    hide WellFormed, Device.Device.Valid, Device.Device.Abs;
    hide LedgerClient.Transport.Expected, LedgerClient.Transport.TrafficAfter, LedgerClient.Transport.Wired;
    Carry(device, kpl, GetNameCommand(device.c, name, ownPriv), how, 66);
    res := AskKeyFromName(device, kpl, name, out, ownPriv);
    if Commutes(device.c) && Quiet(was) {
      QuietNameKey(device.c, was, name, ownPriv, how.user, how.link);
    }
  }

  /** `setKey`. */
  method Store(device: Device.Device, kpl: KPL, slot: byte, key: Block, how: Circumstances) returns (res: Result)
    requires Ready(device, kpl)
    modifies device.Footprint(), kpl.transport.Footprint()
    ensures Ready(device, kpl)
    ensures var command := CommandBytes(CLA, Kpl.STORE_KEY, slot, 0, key);
            var r := Called(device.c, old(Both(device, kpl)), command, how.user, how.link, 2);
            && Both(device, kpl) == r.world && res == StatusOutcome(r.heard)
            && kpl.transport.Now().written == old(kpl.transport.Now().written) + kpl.transport.Wired(command)
    ensures old(Quiet(Both(device, kpl))) ==>
              var was := old(device.Abs()).slots;
              var stored := Stores(was, slot, how.user, how.link);
              && res == StoreOutcome(was, slot, how.user, how.link)
              && device.Abs().slots == (if stored then was[slot := key] else was)
              && (res == SUCCESS <==> how.link == Works && stored)
  {
    hide Called, StatusOutcome, Hears, CommandBytes, Stores, StoreOutcome, Quiet;
    ghost var was := Both(device, kpl);
    assert WellFormed(was.device);
    hide WellFormed, Device.Device.Valid, Device.Device.Abs;
    hide LedgerClient.Transport.Expected, LedgerClient.Transport.TrafficAfter, LedgerClient.Transport.Wired;
    Carry(device, kpl, CommandBytes(CLA, Kpl.STORE_KEY, slot, 0, key), how, 2);
    res := AskToStore(device, kpl, slot, key);
    if Quiet(was) {
      QuietStore(device.c, was, slot, key, how.user, how.link);
    }
  }

  /** `eraseAllSlots`. */
  method EraseAll(device: Device.Device, kpl: KPL, how: Circumstances) returns (res: Result)
    requires Ready(device, kpl)
    modifies device.Footprint(), kpl.transport.Footprint()
    ensures Ready(device, kpl)
    ensures var command := CommandBytes(CLA, Kpl.ERASE_ALL_SLOTS, 0, 0, []);
            var r := Called(device.c, old(Both(device, kpl)), command, how.user, how.link, 3);
            && Both(device, kpl) == r.world && res == StatusOutcome(r.heard)
            && kpl.transport.Now().written == old(kpl.transport.Now().written) + kpl.transport.Wired(command)
    ensures old(Quiet(Both(device, kpl))) ==>
              var erased := how.link != LosesCommand && how.user.Approves?;
              && res == EraseOutcome(how.user, how.link)
              && device.Abs().slots == (if erased then map[] else old(device.Abs()).slots)
              && (res == SUCCESS <==> how.link == Works && erased)
  {
    hide Called, StatusOutcome, Hears, CommandBytes, Quiet;
    ghost var was := Both(device, kpl);
    assert WellFormed(was.device);
    hide WellFormed, Device.Device.Valid, Device.Device.Abs;
    hide LedgerClient.Transport.Expected, LedgerClient.Transport.TrafficAfter, LedgerClient.Transport.Wired;
    Carry(device, kpl, CommandBytes(CLA, Kpl.ERASE_ALL_SLOTS, 0, 0, []), how, 3);
    res := AskToErase(device, kpl);
    if Quiet(was) {
      QuietErase(device.c, was, how.user, how.link);
    }
  }

  /** `getValidKeySlots`. */
  method ListAll(device: Device.Device, kpl: KPL, how: Circumstances) returns (res: Result, found: seq<nat>)
    requires Ready(device, kpl)
    modifies device.Footprint(), kpl.transport.Footprint()
    ensures Ready(device, kpl)
    ensures var command := CommandBytes(CLA, Kpl.GET_VALID_KEY_SLOTS, 0, 0, []);
            var r := Called(device.c, old(Both(device, kpl)), command, how.user, how.link, 3);
            && Both(device, kpl) == r.world && SlotsOutcome(res, found) == SlotsFrom(r.heard)
            && kpl.transport.Now().written == old(kpl.transport.Now().written) + kpl.transport.Wired(command)
    ensures old(Quiet(Both(device, kpl))) ==>
              if how.link != Works then res == TRANSPORT_TIMEOUT && found == []
              else res == SUCCESS && Ascending(found) && forall k: nat :: k in found <==> k in old(device.Abs()).slots
  {
    hide Called, SlotsFrom, Hears, CommandBytes, SlotList, Bitfield, Ascending, Quiet;
    ghost var was := Both(device, kpl);
    assert WellFormed(was.device);
    hide WellFormed, Device.Device.Valid, Device.Device.Abs;
    hide LedgerClient.Transport.Expected, LedgerClient.Transport.TrafficAfter, LedgerClient.Transport.Wired;
    Carry(device, kpl, CommandBytes(CLA, Kpl.GET_VALID_KEY_SLOTS, 0, 0, []), how, 3);
    res, found := AskForList(device, kpl);
    if Quiet(was) {
      QuietList(device.c, was, how.user, how.link);
    }
  }
}
