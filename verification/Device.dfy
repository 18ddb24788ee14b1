/** The device application's memory and the handlers that work on it. */
module Device {
  import opened Bytes
  import opened Results
  import opened Curve
  import opened Storage
  import opened X25519Device
  import opened App
  import opened Screen
  import opened AppProperties

  const PREFIX_LEN: nat := 7
  const NAME_CAPACITY: nat := PREFIX_LEN + MAX_NAME_SIZE

  /** The function pointer `approve_cb_`. */
  datatype Callback = StoreKeyConfirmErase | GetKeyAfterApprove | GetKeyFromNameAfterApprove | EraseAllSlotsApprove

  type Line = s: seq<char> | |s| == LINE_SIZE witness seq(LINE_SIZE, i => '\0')
  type NameBuffer = s: seq<byte> | |s| == NAME_CAPACITY witness seq(NAME_CAPACITY, i => 0)

  /** Contents of the static variables other than the command buffer. */
  datatype Statics = Statics(line1: Line, line2: Line, storeKey: Block, storeSlot: byte, getPub: Block, getSlot: byte,
                             name: NameBuffer, namePub: Block, nameLen: nat, approveCb: Callback)

  /** `line` starts with `text` and its terminator, whatever follows. */
  predicate Holds(line: seq<char>, text: string) {
    |text| < |line| && line[..|text|] == text && line[|text|] == '\0'
  }

  class Device {
    const c: Crypto
    const nvm: Nvm

    // G_io_apdu_buffer, shared by requests and replies.
    const buf: array<byte>

    // ApproveLine1, ApproveLine2.
    const line1: array<char>
    const line2: array<char>

    // handleStoreKeyConfirmEraseArgs_
    var storeKey: Block
    var storeSlot: byte

    // GetKeyAfterApproveArgs_
    var getPub: Block
    var getSlot: byte

    // GetKeyFromNameArgs_
    const name: array<byte>
    var namePub: Block
    var nameLen: nat

    var approveCb: Callback
    var shown: bool

    // Locals of app_main: bytes to transmit, and IO_ASYNCH_REPLY in its flags.
    var tx: nat
    var asynch: bool

    // Everything transmitted.
    var sent: seq<seq<byte>>

    ghost predicate Shape()
      reads this, nvm
    {
      && nvm.Valid() && nvm.cells.initialized == 1
      && buf.Length == BUFFER_SIZE && line1.Length == LINE_SIZE && line2.Length == LINE_SIZE
      && name.Length == NAME_CAPACITY && buf != name && line1 != line2
      && (shown && approveCb == GetKeyFromNameAfterApprove ==> PREFIX_LEN <= nameLen <= NAME_CAPACITY)
    }

    /** What the screen's approval button is bound to. */
    ghost function AbsPending(): Pending
      reads this, nvm, name
      requires Shape()
    {
      if !shown then Idle
      else match approveCb
        case StoreKeyConfirmErase => Overwrite(storeSlot, storeKey)
        case GetKeyAfterApprove => Release(getSlot, getPub)
        case GetKeyFromNameAfterApprove => DeriveName(name[PREFIX_LEN..nameLen], namePub)
        case EraseAllSlotsApprove => EraseAll
    }

    ghost function Abs(): State
      reads this, nvm, name, buf
      requires Shape()
    {
      State(SlotMap(nvm.cells), AbsPending(), buf[..], sent)
    }

    ghost predicate Valid()
      reads this, nvm, name, buf, line1, line2
    {
      && Shape()
      && WellFormed(Abs())
      && (shown && approveCb == GetKeyFromNameAfterApprove ==> name[..PREFIX_LEN] == SEED_PREFIX)
      && (shown ==> Showable(AbsPending()) &&
                    Holds(line1[..], Line1(AbsPending())) && Holds(line2[..], Line2(AbsPending())))
    }

    ghost function Memory(): Statics
      reads this, nvm, line1, line2, name
      requires Shape()
    {
      Statics(line1[..], line2[..], storeKey, storeSlot, getPub, getSlot, name[..], namePub, nameLen, approveCb)
    }

    ghost function Footprint(): set<object>
    {
      {this, nvm, buf, line1, line2, name}
    }

    /** First start on storage with arbitrary contents. */
    constructor (c: Crypto, cells: Cells)
      requires WellSized(cells)
      ensures Valid() && fresh(Footprint()) && this.c == c && !asynch && tx == 0
      ensures Abs() == State(SlotMap(Booted(cells)), Idle, seq(BUFFER_SIZE, i => 0), [])
    {
      this.c := c;
      var memory := new Nvm(cells);
      memory.StateInit(false);
      nvm := memory;
      buf := new byte[BUFFER_SIZE](_ => 0);
      line1, line2 := new char[LINE_SIZE](_ => '\0'), new char[LINE_SIZE](_ => '\0');
      name := new byte[NAME_CAPACITY](_ => 0);
      storeKey, storeSlot, getPub, getSlot := ZeroBlock(), 0, ZeroBlock(), 0;
      namePub, nameLen := ZeroBlock(), 0;
      approveCb, shown := EraseAllSlotsApprove, false;
      tx, asynch, sent := 0, false, [];
      new;
      assert buf[..] == seq(BUFFER_SIZE, i => 0);
    }

    /** The strings on the approval screen. */
    method Displayed() returns (first: string, second: string)
      requires Valid() && shown
      ensures Showable(AbsPending()) && first == Line1(AbsPending()) && second == Line2(AbsPending())
      ensures AbsPending().Overwrite? ==>
                && |first| == 20 && first[..6] == "Slot #" && first[7..] == " already set." && second == "Erase?"
                && first[6] as int - '0' as int == AbsPending().slot
      ensures AbsPending().Release? ==>
                && first == "Database open slot" && |second| == 7 && second[..6] == "Slot #"
                && second[6] as int - '0' as int == AbsPending().slot
      ensures AbsPending().DeriveName? ==>
                && first == "Database open name" && |second| == |AbsPending().name| + 2
                && second[0] == second[|second| - 1] == '\''
                && forall i | 0 <= i < |AbsPending().name| :: second[i + 1] as int == AbsPending().name[i]
      ensures AbsPending().EraseAll? ==> first == "Erase all slots?" && second == "They will be erased forever!"
    {
      ScreenTells(AbsPending());
      first, second := CString(line1[..]), CString(line2[..]);
      LinesFit(AbsPending());
      CStringReads(line1[..], Line1(AbsPending()));
      CStringReads(line2[..], Line2(AbsPending()));
    }

    // ---- Handlers ----

    /** A handler did what the command's reaction says. */
    ghost predicate Handled(was: State, req: Request, code: Code)
      reads this, nvm, name, buf, line1, line2
      requires |was.buf| == BUFFER_SIZE
    {
      && Valid() && Abs() == AfterReaction(was, req)
      && match React(req, was.slots)
         case Ask(_) => code == SW_SUCCESS && asynch && tx == 0
         case Answer(payload, answered) => code == answered && !asynch && tx == |payload|
    }

    /** Storage changed at most once, from one map to the other, even if power was lost meanwhile. */
    ghost predicate Atomic(trace: seq<Cells>, before: map<nat, Block>)
      reads this, nvm
      requires nvm.Valid()
    {
      trace != [] && trace <= nvm.trace && CrashSafe(nvm.trace, |trace| - 1, before, SlotMap(nvm.cells))
    }

    method UiApproval(cb: Callback)
      modifies this`approveCb, this`shown
      ensures approveCb == cb && shown
    {
      approveCb, shown := cb, true;
    }

    method HandleGetAppConfiguration() returns (code: Code)
      requires Valid() && !asynch && tx == 0
      modifies this, buf
      ensures Handled(old(Abs()), Configuration, code)
    {
      hide SlotMap, Overlay, Line1, Line2, Holds, ValidName, IsKeyValid;
      Memcpy(buf, 0, [0, 3, 0]);
      tx := 3;
      ReactionKeepsInvariant(old(Abs()), Configuration);
      return SW_SUCCESS;
    }

    static method ShowOverwrite(line1: array<char>, line2: array<char>, slot: nat, ghost p: Pending)
      requires line1.Length == line2.Length == LINE_SIZE && line1 != line2
      requires p.Overwrite? && p.slot == slot < SLOT_COUNT
      modifies line1, line2
      ensures Holds(line1[..], Line1(p)) && Holds(line2[..], Line2(p))
    {
      CopyLiteral(line1, "Slot #X already set.");
      ghost var template := line1[..20];
      line1[6] := Digit(slot);
      assert line1[..20] == template[6 := Digit(slot)];
      assert "Slot #X already set."[6 := Digit(slot)] == "Slot #" + [Digit(slot)] + " already set.";
      CopyLiteral(line2, "Erase?");
    }

    static method ShowRelease(line1: array<char>, line2: array<char>, slot: nat, ghost p: Pending)
      requires line1.Length == line2.Length == LINE_SIZE && line1 != line2
      requires p.Release? && p.slot == slot < SLOT_COUNT
      modifies line1, line2
      ensures Holds(line1[..], Line1(p)) && Holds(line2[..], Line2(p))
    {
      CopyLiteral(line1, "Database open slot");
      CopyLiteral(line2, "Slot #X");
      ghost var template := line2[..7];
      line2[6] := Digit(slot);
      assert line2[..7] == template[6 := Digit(slot)];
      assert "Slot #X"[6 := Digit(slot)] == "Slot #" + [Digit(slot)];
    }

    static method ShowName(line1: array<char>, line2: array<char>, name: seq<byte>, ghost p: Pending)
      requires line1.Length == line2.Length == LINE_SIZE && line1 != line2
      requires p.DeriveName? && p.name == name && Showable(p)
      modifies line1, line2
      ensures Holds(line1[..], Line1(p)) && Holds(line2[..], Line2(p))
    {
      CopyLiteral(line1, "Database open name");
      line2[0] := '\'';
      Put(line2, 1, Text(name));
      line2[|name| + 1] := '\'';
      line2[|name| + 2] := '\0';
      assert line2[..1 + |name|] == "'" + Text(name);
      assert line2[..2 + |name|] == "'" + Text(name) + "'";
    }

    static method ShowEraseAll(line1: array<char>, line2: array<char>)
      requires line1.Length == line2.Length == LINE_SIZE && line1 != line2
      modifies line1, line2
      ensures Holds(line1[..], Line1(EraseAll)) && Holds(line2[..], Line2(EraseAll))
    {
      CopyLiteral(line1, "Erase all slots?");
      CopyLiteral(line2, "They will be erased forever!");
    }

    /** `memcpy` of a string literal, terminator included. */
    static method CopyLiteral(line: array<char>, text: string)
      requires |text| < line.Length
      modifies line
      ensures line[..|text|] == text && line[|text|] == '\0' && Holds(line[..], text)
    {
      Put(line, 0, text + ['\0']);
      assert line[..|text|] == line[..|text| + 1][..|text|];
      assert line[|text|] == line[..|text| + 1][|text|];
    }

    method HandleStoreKey(slot: byte, dataLen: byte) returns (code: Code)
      requires Valid() && !asynch && tx == 0
      modifies Footprint()
      ensures Handled(old(Abs()), StoreKey(slot, old(buf[5..5 + dataLen])), code)
      ensures Atomic(old(nvm.trace), old(Abs().slots))
    {
      hide SlotMap, Overlay, CrashSafe, IsKeyValid, Booted, Line1, Line2, Holds, WellFormed;
      ghost var was, req := Abs(), StoreKey(slot, buf[5..5 + dataLen]);
      ReactionKeepsInvariant(was, req);
      EmptyOverlay(was.buf);
      UnwrittenIsSafe(nvm.trace);
      ValidBitMeansSet(nvm.cells, slot);
      if slot >= SLOT_COUNT {
        return INVALID_PARAMETER;
      }
      if dataLen != 32 {
        return INVALID_PARAMETER;
      }
      if IsKeyValid(nvm.cells, slot) {
        storeKey, storeSlot := buf[5..37], slot;
        ShowOverwrite(line1, line2, slot, Overwrite(slot, buf[5..37]));
        UiApproval(StoreKeyConfirmErase);
        asynch := true;
        return SW_SUCCESS;
      }
      nvm.StoreKeySlot(slot, buf[5..37]);
      tx := 0;
      return SW_SUCCESS;
    }

    method HandleGetKey(slot: byte, dataLen: byte) returns (code: Code)
      requires Valid() && !asynch && tx == 0
      modifies this, line1, line2
      ensures Handled(old(Abs()), GetKey(slot, old(buf[5..5 + dataLen])), code)
    {
      hide SlotMap, Overlay, IsKeyValid, Booted, Line1, Line2, Holds, WellFormed;
      ReactionKeepsInvariant(Abs(), GetKey(slot, buf[5..5 + dataLen]));
      EmptyOverlay(buf[..]);
      ValidBitMeansSet(nvm.cells, slot);
      if slot >= SLOT_COUNT || dataLen != 32 {
        return INVALID_PARAMETER;
      }
      if !IsKeyValid(nvm.cells, slot) {
        return SW_EMPTY_SLOT;
      }
      getSlot, getPub := slot, buf[5..37];
      ShowRelease(line1, line2, slot, Release(slot, buf[5..37]));
      UiApproval(GetKeyAfterApprove);
      asynch := true;
      return SW_SUCCESS;
    }

    /** `is_name_valid`. */
    static method IsNameValid(name: seq<byte>) returns (ok: bool)
      ensures ok == ValidName(name)
    {
      for i := 0 to |name|
        invariant ValidName(name[..i])
      {
        if name[i] <= 0x1F || name[i] >= 0x7F {
          return false;
        }
        assert name[..i + 1] == name[..i] + [name[i]];
      }
      assert name[..|name|] == name;
      return true;
    }

    method HandleGetKeyFromName(dataLen: byte) returns (code: Code)
      requires Valid() && !asynch && tx == 0
      modifies this, line1, line2, name
      ensures Handled(old(Abs()), GetKeyFromName(old(buf[5..5 + dataLen])), code)
    {
      hide SlotMap, Overlay, Line1, Line2, Holds, ValidName, SameOperation;
      ghost var data, before := buf[5..5 + dataLen], AbsPending();
      ReactionKeepsInvariant(Abs(), GetKeyFromName(data));
      EmptyOverlay(buf[..]);
      if dataLen <= 32 || dataLen > 32 + MAX_NAME_SIZE {
        return INVALID_PARAMETER;
      }
      namePub := buf[5..37];
      var given := buf[37..5 + dataLen];
      assert data[..32] == buf[5..37] && data[32..] == given;
      var ok := IsNameValid(given);
      if !ok {
        SameNameSameScreen(before, AbsPending());
        return SW_INVALID_NAME;
      }
      OpenNameApproval(given);
      return SW_SUCCESS;
    }

    /** The second half of `handleGetKeyFromName`, once the name is known to be valid. */
    method OpenNameApproval(given: seq<byte>)
      requires Shape() && 1 <= |given| <= MAX_NAME_SIZE && ValidName(given)
      modifies this`nameLen, this`approveCb, this`shown, this`asynch, name, line1, line2
      ensures Shape() && asynch && shown && AbsPending() == DeriveName(given, namePub)
      ensures approveCb == GetKeyFromNameAfterApprove && name[..PREFIX_LEN] == SEED_PREFIX
      ensures Holds(line1[..], Line1(AbsPending())) && Holds(line2[..], Line2(AbsPending()))
    {
      hide SlotMap, Line1, Line2, Holds, ValidName;
      Put(name, 0, SEED_PREFIX);
      Put(name, PREFIX_LEN, given);
      nameLen := PREFIX_LEN + |given|;
      assert name[..PREFIX_LEN] == name[..nameLen][..PREFIX_LEN] == SEED_PREFIX;
      assert name[PREFIX_LEN..nameLen] == name[..nameLen][PREFIX_LEN..] == given;
      ShowName(line1, line2, given, DeriveName(given, namePub));
      UiApproval(GetKeyFromNameAfterApprove);
      asynch := true;
    }

    method HandleGetValidSlots() returns (code: Code)
      requires Valid() && !asynch && tx == 0
      modifies this, buf
      ensures Handled(old(Abs()), ValidSlots, code)
    {
      hide SlotMap, Overlay, Line1, Line2, Holds, ValidName, Bitfield;
      BitfieldOfStorage(nvm.cells);
      ReactionKeepsInvariant(Abs(), ValidSlots);
      Memcpy(buf, 0, [nvm.cells.keyValids]);
      tx := 1;
      return SW_SUCCESS;
    }

    method HandleEraseAllSlots() returns (code: Code)
      requires Valid() && !asynch && tx == 0
      modifies this, line1, line2
      ensures Handled(old(Abs()), EraseAllSlots, code)
    {
      hide SlotMap, Overlay, Line1, Line2, Holds, ValidName;
      ReactionKeepsInvariant(Abs(), EraseAllSlots);
      ShowEraseAll(line1, line2);
      UiApproval(EraseAllSlotsApprove);
      asynch := true;
      return SW_SUCCESS;
    }

    // ---- Dispatch and the main loop ----

    method CallHandler(ins: byte, p1: byte, dataLen: byte) returns (code: Code)
      requires Valid() && !asynch && tx == 0
      modifies Footprint()
      ensures Handled(old(Abs()), Dispatch(ins, p1, old(buf[5..5 + dataLen])), code)
      ensures Atomic(old(nvm.trace), old(Abs().slots))
    {
      hide SlotMap, AfterReaction, CrashSafe, Line1, Line2, Holds, WellFormed, Fulfillable;
      UnwrittenIsSafe(nvm.trace);
      match ins
      case 0 => code := HandleGetAppConfiguration();
      case 1 => code := HandleStoreKey(p1, dataLen);
      case 2 => code := HandleGetKey(p1, dataLen);
      case 3 => code := HandleGetKeyFromName(dataLen);
      case 4 => code := HandleGetValidSlots();
      case 5 => code := HandleEraseAllSlots();
      case _ => code := Refuse(SW_UNKNOWN_INSTR);
    }

    /** An exception before any handler runs. */
    method Refuse(thrown: Code) returns (code: Code)
      requires Valid() && !asynch && tx == 0
      ensures Handled(Abs(), Refused(thrown), code)
    {
      hide SlotMap, Overlay, WellFormed;
      EmptyOverlay(buf[..]);
      return thrown;
    }

    /** `handleApdu`: the status word goes after the payload, deferred commands included. Its check
        of the length byte against the buffer never fails: 255 bytes fit after the header. */
    method HandleApdu()
      requires Valid() && !asynch && tx == 0
      modifies Footprint()
      ensures Valid() && Atomic(old(nvm.trace), old(Abs().slots))
      ensures var was, req := old(Abs()), Decode(old(buf[..]));
              match React(req, was.slots)
              case Ask(p) =>
                asynch && tx == 2 &&
                Abs() == was.(pending := p, buf := Overlay(was.buf, 0, Reply([], SW_SUCCESS)))
              case Answer(payload, code) =>
                !asynch && tx == |payload| + 2 &&
                Abs() == Transmit(AfterReaction(was, req), Reply(payload, code)).(sent := was.sent)
    {
      hide SlotMap, CrashSafe, Line1, Line2, Holds, Overlay, Fulfillable, Dispatch, Normalise, React;
      ghost var was, req := Abs(), Decode(buf[..]);
      var code;
      if buf[0] != CLA {
        UnwrittenIsSafe(nvm.trace);
        code := Refuse(SW_INVALID_CLS);
      } else {
        code := CallHandler(buf[1], buf[2], buf[4]);
      }
      var sw := Normalise(code);
      EmptyOverlay(was.buf);
      ghost var payload := if React(req, was.slots).Ask? then [] else React(req, was.slots).payload;
      AppendToOverlay(was.buf, payload, BE16(sw));
      CoverOverlay(was.buf, payload, payload + BE16(sw));
      AppendStatus(sw);
    }

    method AppendStatus(sw: nat)
      requires Valid() && tx + 2 <= BUFFER_SIZE && sw < 0x1_0000
      modifies this`tx, buf
      ensures Valid() && tx == old(tx) + 2
      ensures Abs() == old(Abs()).(buf := Overlay(old(buf[..]), old(tx), BE16(sw)))
    {
      hide SlotMap, Line1, Line2, Holds, Overlay, Fulfillable;
      Memcpy(buf, tx, BE16(sw));
      tx := tx + 2;
    }

    /** `rx = tx; tx = 0; io_exchange(CHANNEL_APDU | flags, rx)` up to the wait for a command: with
        IO_ASYNCH_REPLY nothing is sent. */
    method StartExchange()
      requires Valid() && tx <= BUFFER_SIZE
      modifies this`tx, this`sent
      ensures Valid() && tx == 0
      ensures Abs() == old(Abs()).(sent := if asynch || old(tx) == 0 then old(sent) else old(sent) + [buf[..old(tx)]])
    {
      hide SlotMap, Line1, Line2, Holds, Fulfillable;
      var rx := tx;
      tx := 0;
      if !asynch && rx > 0 {
        sent := sent + [buf[..rx]];
      }
    }

    /** The body of the loop of `app_main` for a received command; the reply waits in the buffer. */
    method Process(apdu: seq<byte>)
      requires Valid() && tx == 0 && |apdu| <= BUFFER_SIZE
      modifies Footprint()
      ensures Valid() && tx <= BUFFER_SIZE && Atomic(old(nvm.trace), old(Abs().slots))
      ensures var after := OnApdu(old(Abs()), apdu);
              && Abs() == after.(sent := old(sent))
              && after.sent == (if asynch then old(sent) else old(sent) + [buf[..tx]])
      ensures asynch <==> Asks(old(Abs()), Apdu(apdu))
      ensures !asynch ==> tx > 0
    {
      hide SlotMap, CrashSafe, Line1, Line2, Holds, Overlay, Fulfillable, Decode, React, AfterReaction, Normalise;
      UnwrittenIsSafe(nvm.trace);
      ghost var was := Abs();
      Memcpy(buf, 0, apdu);
      asynch := false;
      ghost var received := was.(buf := Overlay(was.buf, 0, apdu));
      assert Abs() == received;
      if |apdu| == 0 {
        AppendStatus(Normalise(0x6982));
        assert Reply([], 0x6982) == BE16(Normalise(0x6982));
      } else {
        ReactionKeepsInvariant(received, Decode(received.buf));
        HandleApdu();
      }
      assert buf[..tx] == buf[..][0..tx];
    }

    /** One turn of `app_main`: from a received command to the wait for the next one. */
    method Turn(apdu: seq<byte>)
      requires Valid() && tx == 0 && |apdu| <= BUFFER_SIZE
      modifies Footprint()
      ensures Valid() && tx == 0 && Atomic(old(nvm.trace), old(Abs().slots))
      ensures Abs() == OnApdu(old(Abs()), apdu)
      ensures asynch <==> Asks(old(Abs()), Apdu(apdu))
    {
      hide SlotMap, CrashSafe, Line1, Line2, Holds, WellFormed, OnApdu, Asks;
      Process(apdu);
      StartExchange();
    }

    // ---- Approval ----

    /** A callback left the effect's slots, its payload at the start of the buffer, its code. */
    ghost predicate Completed(e: Effect, before: seq<seq<byte>>, length: nat, code: Code)
      reads this, nvm, buf, name
      requires |e.buf| == BUFFER_SIZE && |e.payload| <= 64
    {
      && Shape() && Abs().slots == e.slots && buf[..] == Overlay(e.buf, 0, e.payload)
      && length == |e.payload| && code == e.code && sent == before
    }

    method StoreKeyConfirmEraseCallback(ghost random: Block) returns (length: nat, code: Code)
      requires Valid() && shown && approveCb == StoreKeyConfirmErase
      modifies this, nvm
      ensures tx == old(tx) && asynch == old(asynch)
      ensures Completed(ApprovedEffect(c, old(Abs()), random), old(sent), length, code)
      ensures Atomic(old(nvm.trace), old(Abs().slots))
    {
      hide SlotMap, CrashSafe, Line1, Line2, Holds, Overlay;
      EmptyOverlay(buf[..]);
      nvm.StoreKeySlot(storeSlot, storeKey);
      storeKey, storeSlot := ZeroBlock(), 0;
      return 0, SW_SUCCESS;
    }

    method EraseAllSlotsCallback(ghost random: Block) returns (length: nat, code: Code)
      requires Valid() && shown && approveCb == EraseAllSlotsApprove
      modifies nvm
      ensures Completed(ApprovedEffect(c, old(Abs()), random), old(sent), length, code)
      ensures Atomic(old(nvm.trace), old(Abs().slots))
    {
      hide SlotMap, CrashSafe, Line1, Line2, Holds, Overlay;
      EmptyOverlay(buf[..]);
      nvm.StateInit(true);
      return 0, SW_SUCCESS;
    }

    /** Encrypts the key at offset 32 of the buffer for the caller. */
    method DeliverKey(ghost was: State, key: Block, pub: Block, random: Block) returns (length: nat, code: Code)
      requires Shape() && was == Abs().(buf := was.buf) && |was.buf| == BUFFER_SIZE
      requires buf[..] == Overlay(was.buf, 32, key)
      modifies buf
      ensures Completed(Deliver(c, was, key, pub, random), old(sent), length, code)
    {
      hide SlotMap, Encrypt;
      assert buf[32..64] == key;
      var ok := EncryptKPKey(c, buf, pub, random);
      if !ok {
        hide Overlay;
        EmptyOverlay(buf[..]);
        return 0, INVALID_PARAMETER;
      }
      return 64, SW_SUCCESS;
    }

    /** The byte loop that copies a stored key to offset 32 of the buffer. */
    method CopyKey(key: Block)
      requires buf.Length == BUFFER_SIZE
      modifies buf
      ensures buf[..] == Overlay(old(buf[..]), 32, key)
    {
      for i := 0 to 32
        invariant forall k | 0 <= k < i :: buf[32 + k] == key[k]
        invariant forall k | 0 <= k < 32 || 32 + i <= k < BUFFER_SIZE :: buf[k] == old(buf[k])
      {
        buf[32 + i] := key[i];
      }
    }

    /** The two asserts are the ones the application's build compiles out. */
    method GetKeyCallback(random: Block) returns (length: nat, code: Code)
      requires Valid() && shown && approveCb == GetKeyAfterApprove
      modifies buf
      ensures Completed(ApprovedEffect(c, old(Abs()), random), old(sent), length, code)
    {
      hide Line1, Line2, Holds, Deliver, Bit, Overlay, ValidName;
      ValidBitMeansSet(nvm.cells, getSlot);
      assert getSlot < SLOT_COUNT;
      assert IsKeyValid(nvm.cells, getSlot);
      ghost var was := Abs();
      var key := nvm.cells.keys[getSlot];
      CopyKey(key);
      length, code := DeliverKey(was, key, getPub, random);
    }

    /** The derivation path, word by word. */
    static method BuildPath(hash: Block) returns (path: array<nat>)
      ensures fresh(path) && path[..] == Path(hash)
    {
      path := new nat[17](_ => 0);
      path[0] := BIP39_PATH;
      for i := 0 to 16
        invariant path[0] == BIP39_PATH
        invariant forall k | 0 <= k < i :: path[k + 1] == PathWord(hash, k)
      {
        path[i + 1] := PathWord(hash, i);
      }
      assert path[..] == Path(hash);
    }

    method GetKeyFromNameCallback(random: Block) returns (length: nat, code: Code)
      requires Valid() && shown && approveCb == GetKeyFromNameAfterApprove
      modifies buf
      ensures Completed(ApprovedEffect(c, old(Abs()), random), old(sent), length, code)
    {
      hide SlotMap, Line1, Line2, Holds, Deliver, Overlay, ValidName, Path;
      ghost var was := Abs();
      assert name[..nameLen] == SEED_PREFIX + name[PREFIX_LEN..nameLen];
      var hashName := c.Sha256(name[..nameLen]);
      var path := BuildPath(hashName);
      match c.Derive(path[..])
      case None =>
        EmptyOverlay(buf[..]);
        return 0, EXCEPTION_SECURITY;
      case Some(node) =>
        var key := c.Sha256(node);
        Memcpy(buf, 32, key);
        length, code := DeliverKey(was, key, namePub, random);
    }

    method RunCallback(random: Block) returns (length: nat, code: Code)
      requires Valid() && shown
      modifies Footprint()
      ensures tx == old(tx) && asynch == old(asynch)
      ensures Completed(ApprovedEffect(c, old(Abs()), random), old(sent), length, code)
      ensures Atomic(old(nvm.trace), old(Abs().slots))
    {
      hide SlotMap, CrashSafe, Line1, Line2, Holds, Overlay, ApprovedEffect, WellFormed;
      UnwrittenIsSafe(nvm.trace);
      match approveCb
      case StoreKeyConfirmErase => length, code := StoreKeyConfirmEraseCallback(random);
      case GetKeyAfterApprove => length, code := GetKeyCallback(random);
      case GetKeyFromNameAfterApprove => length, code := GetKeyFromNameCallback(random);
      case EraseAllSlotsApprove => length, code := EraseAllSlotsCallback(random);
    }

    /** `touch_okay`: the approve button of the approval screen, if that is what is shown. */
    method TouchOkay(random: Block)
      requires Valid()
      modifies Footprint()
      ensures Valid() && tx == old(tx) && Atomic(old(nvm.trace), old(Abs().slots))
      ensures Abs() == OnApprove(c, old(Abs()), random)
    {
      hide SlotMap, CrashSafe, Line1, Line2, Holds, Overlay, ApprovedEffect, Normalise, WellFormed;
      UnwrittenIsSafe(nvm.trace);
      ApproveKeepsInvariant(c, Abs(), random);
      if !shown {
        return;
      }
      ghost var e := ApprovedEffect(c, Abs(), random);
      var length, code := RunCallback(random);
      var sw := Normalise(code);
      AppendToOverlay(e.buf, e.payload, BE16(sw));
      Memcpy(buf, length, BE16(sw));
      length := length + 2;
      assert buf[..length] == buf[..][0..length];
      sent := sent + [buf[..length]];
      shown := false;
    }

    /** `touch_deny`. */
    method TouchDeny()
      requires Valid()
      modifies this, buf
      ensures Valid() && tx == old(tx) && Abs() == OnDeny(old(Abs()))
    {
      hide SlotMap, Line1, Line2, Holds, Overlay;
      if !shown {
        return;
      }
      Memcpy(buf, 0, BE16(SW_UNAUTHORIZED_ACCESS));
      assert Reply([], SW_UNAUTHORIZED_ACCESS) == BE16(SW_UNAUTHORIZED_ACCESS);
      assert buf[..2] == buf[..][0..2];
      sent := sent + [buf[..2]];
      shown := false;
    }

    /** EXCEPTION_IO_RESET: `main` starts over; the idle screen replaces any approval. */
    method IoReset()
      requires Valid()
      modifies Footprint()
      ensures Valid() && tx == 0 && !asynch && Atomic(old(nvm.trace), old(Abs().slots))
      ensures Abs() == old(Abs()).(pending := Idle)
    {
      hide SlotMap, Line1, Line2, Holds, CrashSafe;
      nvm.StateInit(false);
      shown, tx, asynch := false, 0, false;
    }

    /** Power loss between two steps, then a start with arbitrary contents in the memory. */
    method PowerCycle(ram: Ram, memory: Statics)
      requires Valid()
      modifies Footprint()
      ensures Valid() && tx == 0 && !asynch && Atomic(old(nvm.trace), old(Abs().slots))
      ensures Abs() == old(Abs()).(pending := Idle, buf := ram) && Memory() == memory
    {
      hide SlotMap, Line1, Line2, Holds, CrashSafe;
      IoReset();
      Forget(ram, memory);
    }

    method Forget(ram: Ram, memory: Statics)
      requires Shape() && !shown
      modifies this`storeKey, this`storeSlot, this`getPub, this`getSlot, this`namePub, this`nameLen, this`approveCb
      modifies buf, name, line1, line2
      ensures Shape() && buf[..] == ram && Memory() == memory
    {
      Fill(buf, ram);
      Fill(name, memory.name);
      Fill(line1, memory.line1);
      Fill(line2, memory.line2);
      storeKey, storeSlot, getPub, getSlot := memory.storeKey, memory.storeSlot, memory.getPub, memory.getSlot;
      namePub, nameLen, approveCb := memory.namePub, memory.nameLen, memory.approveCb;
    }

    /** Arbitrary contents in a whole array. */
    static method Fill<T>(a: array<T>, contents: seq<T>)
      requires |contents| == a.Length
      modifies a
      ensures a[..] == contents
    {
      Put(a, 0, contents);
      assert a[..] == a[..|contents|];
    }
  }

  lemma SameNameSameScreen(p: Pending, q: Pending)
    requires p == q || (p.DeriveName? && q.DeriveName? && p.name == q.name)
    ensures Showable(p) ==> Showable(q) && Line1(p) == Line1(q) && Line2(p) == Line2(q)
  {
  }

  lemma AppendToOverlay(buf: seq<byte>, a: seq<byte>, b: seq<byte>)
    requires |a| + |b| <= |buf|
    ensures Overlay(Overlay(buf, 0, a), |a|, b) == Overlay(buf, 0, a + b)
  {
  }

  lemma CoverOverlay(buf: seq<byte>, a: seq<byte>, b: seq<byte>)
    requires |a| <= |b| <= |buf|
    ensures Overlay(Overlay(buf, 0, a), 0, b) == Overlay(buf, 0, b)
  {
  }

  lemma EmptyOverlay(buf: seq<byte>)
    ensures Overlay(buf, 0, []) == buf
  {
  }
}
