/** What holds over every run of the application. */
module AppProperties {
  import opened Bytes
  import opened Curve
  import opened Storage
  import opened App

  // ---- Slots ----

  predicate Keeps(before: map<nat, Block>, after: map<nat, Block>, slot: nat) {
    slot in before ==> slot in after && after[slot] == before[slot]
  }

  /** A set slot changes only by an approval of erasing everything or of overwriting that slot. */
  lemma SetSlotNeedsApproval(c: Crypto, s: State, e: Event, slot: nat)
    requires WellFormed(s) && Feasible(e)
    ensures !Keeps(s.slots, Step(c, s, e).slots, slot) ==>
              e.Approve? && (s.pending.EraseAll? || (s.pending.Overwrite? && s.pending.slot == slot))
  {
    hide Decode, Overlay, Reply, ValidName, Bitfield, NameKey, X25519Device.Encrypt, X25519Device.AfterEncryption;
  }

  /** Without an approval press, a whole run can only fill empty slots. */
  lemma {:induction false} RunWithoutApprovalKeepsKeys(c: Crypto, s: State, run: seq<Event>, slot: nat)
    requires WellFormed(s) && FeasibleRun(run)
    requires forall i | 0 <= i < |run| :: !run[i].Approve?
    ensures Keeps(s.slots, Run(c, s, run).slots, slot)
    decreases |run|
  {
    hide Step;
    if run != [] {
      SetSlotNeedsApproval(c, s, run[0], slot);
      StepKeepsInvariant(c, s, run[0]);
      RunWithoutApprovalKeepsKeys(c, Step(c, s, run[0]), run[1..], slot);
    }
  }

  // ---- Replies ----

  predicate Asks(s: State, e: Event)
    requires WellFormed(s) && Feasible(e)
  {
    e.Apdu? && e.bytes != [] && React(Decode(Overlay(s.buf, 0, e.bytes)), s.slots).Ask?
  }

  function Owed(s: State): nat { if s.pending == Idle then 0 else 1 }

  function Commands(run: seq<Event>): nat {
    if run == [] then 0 else (if run[0].Apdu? then 1 else 0) + Commands(run[1..])
  }

  /** Approvals that a reset takes off the screen. */
  function Dropped(c: Crypto, s: State, run: seq<Event>): nat
    requires WellFormed(s) && FeasibleRun(run)
    decreases |run|
  {
    if run == [] then 0
    else
      StepKeepsInvariant(c, s, run[0]);
      (if run[0].IoReset? || run[0].PowerCycle? then Owed(s) else 0) + Dropped(c, Step(c, s, run[0]), run[1..])
  }

  /** Approvals that a later command asking for approval replaces. */
  function Superseded(c: Crypto, s: State, run: seq<Event>): nat
    requires WellFormed(s) && FeasibleRun(run)
    decreases |run|
  {
    if run == [] then 0
    else
      StepKeepsInvariant(c, s, run[0]);
      (if Asks(s, run[0]) then Owed(s) else 0) + Superseded(c, Step(c, s, run[0]), run[1..])
  }

  /** One step sends at most one message: none when it opens an approval, so the placeholder
      status of a deferred command is never transmitted. */
  lemma StepTransmits(c: Crypto, s: State, e: Event)
    requires WellFormed(s) && Feasible(e)
    ensures var t := Step(c, s, e);
            && s.sent <= t.sent
            && |t.sent| + Owed(t) + (if e.IoReset? || e.PowerCycle? || Asks(s, e) then Owed(s) else 0) ==
               |s.sent| + Owed(s) + (if e.Apdu? then 1 else 0)
            && (Asks(s, e) ==> t.sent == s.sent && t.pending != Idle)
            && (t.sent != s.sent <==> (e.Apdu? && !Asks(s, e)) || ((e.Approve? || e.Deny?) && s.pending != Idle))
  {
    hide Decode, Overlay, Reply, ValidName, Bitfield, NameKey, X25519Device.Encrypt, X25519Device.AfterEncryption;
  }

  /** Over every run, each command is answered, still pending, dropped by a reset or superseded. */
  lemma {:induction false} EveryCommandAccountedFor(c: Crypto, s: State, run: seq<Event>)
    requires WellFormed(s) && FeasibleRun(run)
    ensures var t := Run(c, s, run);
            && s.sent <= t.sent
            && |t.sent| + Owed(t) + Dropped(c, s, run) + Superseded(c, s, run) ==
               |s.sent| + Owed(s) + Commands(run)
    decreases |run|
  {
    hide Step, Asks;
    if run != [] {
      StepTransmits(c, s, run[0]);
      StepKeepsInvariant(c, s, run[0]);
      EveryCommandAccountedFor(c, Step(c, s, run[0]), run[1..]);
    }
  }

  /** No command that asks for approval arrives while one is pending: hosts that wait for each
      reply never do otherwise. */
  predicate Uninterrupted(c: Crypto, s: State, run: seq<Event>)
    requires WellFormed(s) && FeasibleRun(run)
    decreases |run|
  {
    run == [] ||
    (StepKeepsInvariant(c, s, run[0]);
     (Asks(s, run[0]) ==> s.pending == Idle) && Uninterrupted(c, Step(c, s, run[0]), run[1..]))
  }

  lemma {:induction false} NothingSupersededIff(c: Crypto, s: State, run: seq<Event>)
    requires WellFormed(s) && FeasibleRun(run)
    ensures Superseded(c, s, run) == 0 <==> Uninterrupted(c, s, run)
    decreases |run|
  {
    hide Step, Asks;
    if run != [] {
      StepKeepsInvariant(c, s, run[0]);
      NothingSupersededIff(c, Step(c, s, run[0]), run[1..]);
    }
  }

  /** Replies, the pending one and those dropped by resets add up to the commands exactly when no
      approval was interrupted by a request for another. */
  lemma OneReplyPerCommandIff(c: Crypto, s: State, run: seq<Event>)
    requires WellFormed(s) && FeasibleRun(run)
    ensures var t := Run(c, s, run);
            |t.sent| + Owed(t) + Dropped(c, s, run) == |s.sent| + Owed(s) + Commands(run) <==> Uninterrupted(c, s, run)
  {
    EveryCommandAccountedFor(c, s, run);
    NothingSupersededIff(c, s, run);
  }

  lemma RunStartsWith(c: Crypto, s: State, e: Event, rest: seq<Event>)
    requires WellFormed(s) && Feasible(e) && FeasibleRun(rest) && e.Apdu?
    ensures WellFormed(Step(c, s, e)) && FeasibleRun([e] + rest)
    ensures Run(c, s, [e] + rest) == Run(c, Step(c, s, e), rest)
    ensures Dropped(c, s, [e] + rest) == Dropped(c, Step(c, s, e), rest)
    ensures Commands([e] + rest) == 1 + Commands(rest)
  {
    StepKeepsInvariant(c, s, e);
    hide Step, WellFormed;
    assert ([e] + rest)[0] == e && ([e] + rest)[1..] == rest;
  }

  /** It can happen: of two erase commands in a row, the first is never answered. */
  lemma InterruptedApprovalIsNeverAnswered(c: Crypto, s: State) returns (run: seq<Event>)
    requires WellFormed(s) && s.pending == Idle
    ensures FeasibleRun(run) && Commands(run) == 2 && Dropped(c, s, run) == 0
    ensures Run(c, s, run).sent == s.sent && Owed(Run(c, s, run)) == 1
  {
    hide Step, CommandBytes, WellFormed, Asks, Run, Dropped, Commands;
    var e := Apdu(CommandBytes(CLA, 5, 0, 0, []));
    EraseAsks(s, e);
    RunStartsWith(c, s, e, [e]);
    var t := Step(c, s, e);
    EraseAsks(t, e);
    RunStartsWith(c, t, e, []);
    StepTransmits(c, s, e);
    StepTransmits(c, t, e);
    assert [e] + [] == [e];
    RunOfNothing(c, Step(c, t, e));
    run := [e] + [e];
  }

  lemma RunOfNothing(c: Crypto, s: State)
    requires WellFormed(s)
    ensures Run(c, s, []) == s && Dropped(c, s, []) == 0 && Commands([]) == 0
  {
  }

  lemma EraseAsks(s: State, e: Event)
    requires WellFormed(s) && e == Apdu(CommandBytes(CLA, 5, 0, 0, []))
    ensures Feasible(e) && Asks(s, e)
  {
    CommandDecodes(s.buf, CLA, 5, 0, 0, []);
  }

  // ---- A pending approval and later commands ----

  /** A command answered at once leaves the pending approval alone, except exactly that a name
      request with an unprintable name puts its public key into a pending name approval. */
  lemma AnsweredCommandKeepsPendingIff(s: State, apdu: seq<byte>)
    requires WellFormed(s) && |apdu| <= BUFFER_SIZE
    requires !Asks(s, Apdu(apdu))
    ensures var req := Decode(Overlay(s.buf, 0, apdu));
            OnApdu(s, apdu).pending == s.pending <==>
            !(apdu != [] && req.GetKeyFromName? && 32 < |req.data| <= 32 + MAX_NAME_SIZE &&
              s.pending.DeriveName? && s.pending.pub != req.data[..32])
  {
    hide Decode, Overlay, Reply, ValidName, Bitfield;
  }

  /** Such a command exists: the name stays, the key it is encrypted for does not. */
  lemma RejectedNameReplacesCaller(s: State, name: seq<byte>, pub: Block, other: Block) returns (apdu: seq<byte>)
    requires WellFormed(s) && s.pending == DeriveName(name, pub) && other != pub
    ensures |apdu| <= BUFFER_SIZE && !Asks(s, Apdu(apdu))
    ensures OnApdu(s, apdu).pending == DeriveName(name, other)
  {
    hide Decode, Overlay, Reply;
    apdu := CommandBytes(CLA, 3, 0, 0, other + [0]);
    CommandDecodes(s.buf, CLA, 3, 0, 0, other + [0]);
    assert (other + [0])[..32] == other && (other + [0])[32..] == [0];
    assert !ValidName([0]) by { assert [0][0] == 0; }
  }

  // ---- The bitfield ----

  lemma {:induction false} BitsDescribe(slots: map<nat, Block>, from: nat, k: nat)
    requires from + k < SLOT_COUNT
    ensures Bit(Bits(slots, from), k) <==> from + k in slots
    decreases k
  {
    hide Pow2;
    var bit, rest := if from in slots then 1 else 0, Bits(slots, from + 1);
    assert Bits(slots, from) == bit + 2 * rest;
    HalfOf(bit, rest);
    if k > 0 {
      BitsDescribe(slots, from + 1, k - 1);
    }
  }

  lemma {:induction false} BitsDetermined(v: nat, slots: map<nat, Block>, from: nat)
    requires from <= SLOT_COUNT && v < Pow2(SLOT_COUNT - from)
    requires forall k | 0 <= k < SLOT_COUNT - from :: Bit(v, k) <==> from + k in slots
    ensures v == Bits(slots, from)
    decreases SLOT_COUNT - from
  {
    if from < SLOT_COUNT {
      forall k | 0 <= k < SLOT_COUNT - (from + 1)
        ensures Bit(v / 2, k) <==> from + 1 + k in slots
      {
        assert Bit(v, k + 1) <==> from + (k + 1) in slots;
      }
      assert Bit(v, 0) <==> from + 0 in slots;
      BitsDetermined(v / 2, slots, from + 1);
    }
  }

  /** The stored bitfield is the one the application reports for the map it stands for. */
  lemma BitfieldOfStorage(st: Cells)
    requires WellSized(st)
    ensures st.keyValids == Bitfield(SlotMap(st))
  {
    assert Pow2(8) == 256;
    BitsDetermined(st.keyValids, SlotMap(st), 0);
  }

  // ---- Derivation paths ----

  /** Seventeen hardened indices that determine the hash they were made from. */
  lemma PathsHardenedAndInjective(h1: Block, h2: Block)
    ensures |Path(h1)| == 17 && forall i | 0 <= i < 17 :: 0x8000_0000 <= Path(h1)[i] < 0x1_0000_0000
    ensures Path(h1) == Path(h2) ==> h1 == h2
  {
    forall i | 0 <= i < 17
      ensures 0x8000_0000 <= Path(h1)[i] < 0x1_0000_0000
    {
      if i > 0 {
        assert Path(h1)[i] == PathWord(h1, i - 1);
      }
    }
    if Path(h1) == Path(h2) {
      forall k | 0 <= k < 32
        ensures h1[k] == h2[k]
      {
        assert Path(h1)[k / 2 + 1] == PathWord(h1, k / 2) && Path(h2)[k / 2 + 1] == PathWord(h2, k / 2);
        WordDetermines(h1[2 * (k / 2)], h1[2 * (k / 2) + 1], h2[2 * (k / 2)], h2[2 * (k / 2) + 1]);
      }
    }
  }

  lemma WordDetermines(l1: byte, h1: byte, l2: byte, h2: byte)
    ensures l1 as int + 256 * (h1 as int) == l2 as int + 256 * (h2 as int) ==> l1 == l2 && h1 == h2
  {
  }
}
