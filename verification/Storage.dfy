/** The device's non-volatile slot storage, its refinement of a map, and power loss. */
module Storage {
  import opened Bytes

  const SLOT_COUNT: nat := 8

  /** `internalStorage_t`. */
  datatype Cells = Cells(keys: seq<Block>, keyValids: byte, initialized: byte)

  predicate WellSized(st: Cells) { |st.keys| == SLOT_COUNT }

  predicate IsKeyValid(st: Cells, slot: nat) { Bit(st.keyValids, slot) }

  /** What the storage means: the set slots and their keys. */
  function SlotMap(st: Cells): map<nat, Block>
    requires WellSized(st)
  {
    map slot: nat | slot < SLOT_COUNT && IsKeyValid(st, slot) :: st.keys[slot]
  }

  function ZeroBlock(): Block { seq(32, i => 0) }

  /** The contents `nv_app_state_init` writes. */
  function Erased(): (st: Cells)
    ensures WellSized(st)
  {
    Cells(seq(SLOT_COUNT, i => ZeroBlock()), 0, 1)
  }

  /** `nv_app_state_init(false)`, run at every start of the application. */
  function Booted(st: Cells): Cells {
    if st.initialized != 1 then Erased() else st
  }

  function WithKey(st: Cells, slot: nat, key: Block): (r: Cells)
    requires WellSized(st) && slot < SLOT_COUNT
    ensures WellSized(r)
  {
    st.(keys := st.keys[slot := key])
  }

  function WithValid(st: Cells, slot: nat): Cells
    requires slot < SLOT_COUNT
  {
    assert SetBit(st.keyValids, slot) < 256 by {
      assert Pow2(8) == 256;
      SetBitInRange(st.keyValids, slot, 8);
    }
    st.(keyValids := SetBit(st.keyValids, slot))
  }

  lemma ErasedIsEmpty()
    ensures SlotMap(Erased()) == map[]
  {
    forall slot: nat | slot < SLOT_COUNT
      ensures !Bit(0, slot)
    {
      NoBits(slot);
    }
  }

  lemma {:induction false} NoBits(slot: nat)
    ensures !Bit(0, slot)
  {
    if slot > 0 {
      NoBits(slot - 1);
    }
  }

  /** Writing the key alone is invisible for an empty slot and complete for a set one. */
  lemma KeyWriteMeans(st: Cells, slot: nat, key: Block)
    requires WellSized(st) && slot < SLOT_COUNT
    ensures SlotMap(WithKey(st, slot, key)) ==
            if slot in SlotMap(st) then SlotMap(st)[slot := key] else SlotMap(st)
  {
  }

  /** Both writes of `storeKeySlot` together insert into the map, whatever was there. */
  lemma StoreMeansInsert(st: Cells, slot: nat, key: Block)
    requires WellSized(st) && slot < SLOT_COUNT
    ensures SlotMap(WithValid(WithKey(st, slot, key), slot)) == SlotMap(st)[slot := key]
  {
    forall j: nat | j < SLOT_COUNT
      ensures Bit(SetBit(st.keyValids, slot), j) <==> j == slot || Bit(st.keyValids, j)
    {
      SetBitSetsOneBit(st.keyValids, slot, j);
    }
  }

  /** After a power loss that leaves `left` in memory, the application sees `before` or `after`. */
  predicate SurvivesAs(left: Cells, before: map<nat, Block>, after: map<nat, Block>)
    requires WellSized(left)
  {
    SlotMap(Booted(left)) == before || SlotMap(Booted(left)) == after
  }

  /** Everything memory holds between the `nvm_write`s recorded from position `from` on. */
  ghost predicate CrashSafe(trace: seq<Cells>, from: nat, before: map<nat, Block>, after: map<nat, Block>) {
    forall i | from <= i < |trace| :: WellSized(trace[i]) && SurvivesAs(trace[i], before, after)
  }

  /** Flash memory: every `nvm_write` is atomic, and its successive contents are recorded. */
  class Nvm {
    var cells: Cells
    ghost var trace: seq<Cells>

    ghost predicate Valid()
      reads this
    {
      WellSized(cells) && trace != [] && trace[|trace| - 1] == cells
    }

    constructor (cells: Cells)
      requires WellSized(cells)
      ensures Valid() && this.cells == cells && trace == [cells]
    {
      this.cells, trace := cells, [cells];
    }

    method Write(cells: Cells)
      requires Valid() && WellSized(cells)
      modifies this
      ensures Valid() && this.cells == cells && trace == old(trace) + [cells]
    {
      this.cells, trace := cells, trace + [cells];
    }

    /** `storeKeySlot`: the key first, its validity bit second. */
    method StoreKeySlot(slot: nat, key: Block)
      requires Valid() && cells.initialized == 1 && slot < SLOT_COUNT
      modifies this
      ensures Valid() && cells.initialized == 1
      ensures SlotMap(cells) == SlotMap(old(cells))[slot := key]
      ensures old(trace) <= trace
      ensures CrashSafe(trace, |old(trace)| - 1, SlotMap(old(cells)), SlotMap(cells))
      ensures trace == old(trace) + [WithKey(old(cells), slot, key), cells]
      ensures forall i | |old(trace)| <= i < |trace| ::
                WellSized(trace[i]) && SlotMap(Booted(trace[i])) in {SlotMap(old(cells)), SlotMap(cells)}
    {
      KeyWriteMeans(cells, slot, key);
      StoreMeansInsert(cells, slot, key);
      hide SlotMap, SetBit, Bit;
      Write(WithKey(cells, slot, key));
      Write(WithValid(cells, slot));
    }

    /** `nv_app_state_init`. */
    method StateInit(force: bool)
      requires Valid()
      modifies this
      ensures Valid() && cells == if force then Erased() else Booted(old(cells))
      ensures SlotMap(cells) == if force then map[] else SlotMap(Booted(old(cells)))
      ensures old(trace) <= trace
      ensures CrashSafe(trace, |old(trace)| - 1, SlotMap(Booted(old(cells))), SlotMap(cells))
      ensures trace == if force || old(cells).initialized != 1 then old(trace) + [Erased()] else old(trace)
    {
      ErasedIsEmpty();
      if force || cells.initialized != 1 {
        Write(Erased());
      }
    }
  }

  /** Whatever power loss leaves of safe storage boots to the map before or after. */
  lemma CrashSafeMeans(trace: seq<Cells>, from: nat, before: map<nat, Block>, after: map<nat, Block>, i: nat)
    requires CrashSafe(trace, from, before, after) && from <= i < |trace|
    ensures WellSized(trace[i])
    ensures SlotMap(if trace[i].initialized == 1 then trace[i] else Erased()) in {before, after}
  {
  }

  /** Storage not written to is safe from power loss. */
  lemma UnwrittenIsSafe(trace: seq<Cells>)
    requires trace != [] && WellSized(trace[|trace| - 1]) && trace[|trace| - 1].initialized == 1
    ensures var slots := SlotMap(trace[|trace| - 1]); CrashSafe(trace, |trace| - 1, slots, slots)
  {
  }

  lemma ValidBitMeansSet(st: Cells, slot: nat)
    requires WellSized(st)
    ensures slot in SlotMap(st) <==> slot < SLOT_COUNT && IsKeyValid(st, slot)
  {
  }

  // ---- Without atomic writes ----

  /** A key write torn after `n` bytes. */
  function Torn(before: Block, after: Block, n: nat): Block
    requires n <= 32
  {
    after[..n] + before[n..]
  }

  predicate DifferAt(a: Block, b: Block, i: nat)
    requires i < 32
  {
    a[i] != b[i]
  }

  /** A key write may tear without harm exactly when the slot is empty, or when the two keys differ
      in at most one byte: overwriting a set slot relies on `nvm_write` being atomic. */
  lemma TearingIsHarmlessIff(st: Cells, slot: nat, key: Block)
    requires WellSized(st) && st.initialized == 1 && slot < SLOT_COUNT
    ensures (forall n | 0 <= n <= 32 ::
               SurvivesAs(WithKey(st, slot, Torn(st.keys[slot], key, n)), SlotMap(st), SlotMap(st)[slot := key]))
       <==> slot !in SlotMap(st) ||
            forall i, j | 0 <= i < j < 32 :: !(DifferAt(st.keys[slot], key, i) && DifferAt(st.keys[slot], key, j))
  {
    var was := st.keys[slot];
    forall n | 0 <= n <= 32
      ensures SurvivesAs(WithKey(st, slot, Torn(was, key, n)), SlotMap(st), SlotMap(st)[slot := key]) <==>
              slot !in SlotMap(st) || Torn(was, key, n) == was || Torn(was, key, n) == key
    {
      KeyWriteMeans(st, slot, Torn(was, key, n));
      if slot in SlotMap(st) {
        assert SlotMap(st)[slot := Torn(was, key, n)][slot] == Torn(was, key, n);
        assert SlotMap(st)[slot := was] == SlotMap(st);
      }
    }
    TornBetween(was, key);
  }

  /** An erasure torn after `n` of its 258 bytes: the keys, the validity byte, the mark. */
  function TornErase(st: Cells, n: nat): (r: Cells)
    requires WellSized(st) && n <= 258
    ensures WellSized(r)
  {
    Cells(seq(SLOT_COUNT, i requires 0 <= i < SLOT_COUNT => Torn(st.keys[i], ZeroBlock(), Wiped(n, i))),
          if n >= 257 then 0 else st.keyValids, if n >= 258 then 1 else st.initialized)
  }

  /** How many bytes of key `i` the first `n` bytes cover. */
  function Wiped(n: nat, i: nat): (r: nat)
    ensures r <= 32
  {
    Min(32, if n < 32 * i then 0 else n - 32 * i)
  }

  /** An erasure, forced or at the first start, may tear without harm exactly when the storage was
      not yet initialised or no set slot holds another key than zero: the keys are wiped before the
      slots are marked empty. */
  lemma TornEraseIsHarmlessIff(st: Cells)
    requires WellSized(st)
    ensures (forall n | 0 <= n <= 258 :: SurvivesAs(TornErase(st, n), SlotMap(Booted(st)), map[]))
       <==> st.initialized != 1 || forall k | k in SlotMap(st) :: SlotMap(st)[k] == ZeroBlock()
  {
    ErasedIsEmpty();
    ErasedAtLast(st);
    hide SlotMap, TornErase, Torn, Wiped, ZeroBlock, Erased;
    if st.initialized != 1 {
      return;
    }
    if k :| k in SlotMap(st) && SlotMap(st)[k] != ZeroBlock() {
      TornMap(st, 256);
      assert !SurvivesAs(TornErase(st, 256), SlotMap(Booted(st)), map[]);
    } else {
      forall n | 0 <= n < 257
        ensures SlotMap(TornErase(st, n)) == SlotMap(st)
      {
        TornMap(st, n);
      }
    }
  }

  /** Up to the validity byte, the set slots hold what is left of their keys, at last nothing. */
  lemma TornMap(st: Cells, n: nat)
    requires WellSized(st) && n < 257
    ensures TornErase(st, n).initialized == st.initialized
    ensures var torn, was := SlotMap(TornErase(st, n)), SlotMap(st);
            && torn.Keys == was.Keys
            && (forall k | k in was && was[k] == ZeroBlock() :: torn[k] == ZeroBlock())
            && (n == 256 ==> forall k | k in was :: torn[k] == ZeroBlock())
  {
    hide Bit;
    forall k: nat | k < SLOT_COUNT
      ensures TornErase(st, n).keys[k] == Torn(st.keys[k], ZeroBlock(), Wiped(n, k))
      ensures n == 256 ==> Wiped(n, k) == 32
    {
    }
    assert forall b: Block :: Torn(b, ZeroBlock(), 32) == ZeroBlock();
    assert forall m | 0 <= m <= 32 :: Torn(ZeroBlock(), ZeroBlock(), m) == ZeroBlock();
  }

  /** The last two writes leave no slot set. */
  lemma ErasedAtLast(st: Cells)
    requires WellSized(st)
    ensures SlotMap(TornErase(st, 257)) == SlotMap(TornErase(st, 258)) == map[]
  {
    forall slot: nat | slot < SLOT_COUNT
      ensures !Bit(0, slot)
    {
      NoBits(slot);
    }
  }

  /** A completed erasure leaves nothing but zeros and the mark of initialisation. */
  lemma ErasedInBytes(st: Cells)
    requires WellSized(st)
    ensures forall slot, i: nat | 0 <= slot < SLOT_COUNT && i < 32 :: Erased().keys[slot][i] == 0
    ensures Erased().keyValids == 0 && Erased().initialized == 1 && TornErase(st, 258) == Erased()
  {
    forall slot | 0 <= slot < SLOT_COUNT
      ensures Torn(st.keys[slot], ZeroBlock(), Wiped(258, slot)) == ZeroBlock()
    {
    }
  }

  lemma TornBetween(a: Block, b: Block)
    ensures (forall n | 0 <= n <= 32 :: Torn(a, b, n) == a || Torn(a, b, n) == b)
       <==> forall i, j | 0 <= i < j < 32 :: !(DifferAt(a, b, i) && DifferAt(a, b, j))
  {
    if i, j :| 0 <= i < j < 32 && DifferAt(a, b, i) && DifferAt(a, b, j) {
      assert Torn(a, b, j)[i] == b[i] && Torn(a, b, j)[j] == a[j];
    } else {
      forall n | 0 <= n <= 32
        ensures Torn(a, b, n) == a || Torn(a, b, n) == b
      {
        if i :| 0 <= i < n && DifferAt(a, b, i) {
          forall k | 0 <= k < 32
            ensures Torn(a, b, n)[k] == b[k]
          {
            assert k < n || !DifferAt(a, b, k);
          }
        } else {
          forall k | 0 <= k < 32
            ensures Torn(a, b, n)[k] == a[k]
          {
            assert k >= n || !DifferAt(a, b, k);
          }
        }
      }
    }
  }
}
