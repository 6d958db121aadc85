/** The wear-levelled state machines (WillsIO.cpp:545-606).

    Machine m (1 = MERGE, 2 = ENTER, 3 = EXIT) owns the 128 EEPROM bytes
    from 0x100 + 0x80 * (m - 1).  Slot y of that block has its least
    significant bit clear while y is the current state.  In RAM bit 7 of the
    state is a repeat flag: set when the machine re-enters the state it was
    already in.  Only the low seven bits reach EEPROM, so after a power cycle
    every state is entered "for the first time". */
module NvState {
  import opened Bytes
  import opened Eeprom

  /** Start of the three state blocks. */
  const NvStates := 0x100

  /** Slots per machine: one per 7-bit state. */
  const Slots := 0x80

  /** The byte written to the slot of the current state. */
  const ActiveMark: Byte := 0xFE

  /** 1 = MERGE, 2 = ENTER, 3 = EXIT. */
  type MachineId = m: int | 1 <= m <= 3 witness 1

  datatype Machine = Machine(id: MachineId, state: Byte)

  /** A machine's RAM state together with the EEPROM. */
  datatype Saved = Saved(machine: Machine, eeprom: Store)

  /** Address of slot y of machine m. */
  function Slot(m: MachineId, y: nat): (a: nat)
    requires y < Slots
    ensures InBlock(m, a)
  {
    NvStates + Slots * (m - 1) + y
  }

  /** The block of machine m, as an address range. */
  predicate InBlock(m: MachineId, a: int)
  {
    NvStates + Slots * (m - 1) <= a < NvStates + Slots * m
  }

  /** Slot y of machine m marks the current state. */
  predicate Active(e: Store, m: MachineId, y: nat)
    requires y < Slots
  {
    !Bit8(e[Slot(m, y)], 0)
  }

  /** A state below 0x80 is its own slot number and carries no repeat flag. */
  lemma FirstTimeState(s: Byte)
    requires s < 0x80
    ensures Low7(s) == s as nat && !Repeated(s)
  {
  }

  /** A slot number as a RAM state. */
  lemma SlotAsState(k: nat)
    requires k < Slots
    ensures (k as Byte) as nat == k && (k as Byte) < 0x80
  {
  }

  /** The seven bits of a state that are stored durably. */
  function Low7(s: Byte): (y: nat)
    ensures y < Slots
    ensures s < 0x80 ==> y == s as nat
  {
    (s & 0x7F) as nat
  }

  /** Bit 7 of a RAM state: the state was entered again, not for the first time. */
  predicate Repeated(s: Byte)
  {
    Bit8(s, 7)
  }

  // ---------------------------------------------------------------------
  // Operations
  // ---------------------------------------------------------------------

  /** The start-up scan of `State::init`: the lowest active slot at or
      after y, or 0 if there is none. */
  function FirstActive(e: Store, m: MachineId, y: nat): (k: nat)
    requires y <= Slots
    ensures k < Slots
    ensures (exists j :: y <= j < Slots && Active(e, m, j)) ==>
      y <= k && Active(e, m, k) && forall j :: y <= j < k ==> !Active(e, m, j)
    ensures (forall j :: y <= j < Slots ==> !Active(e, m, j)) ==> k == 0
    decreases Slots - y
  {
    if y == Slots then 0
    else if Active(e, m, y) then y
    else FirstActive(e, m, y + 1)
  }

  /** `State::init(clearVars)`: optionally erase the machine's block, then
      take the lowest active slot as the state (0 when none is active). */
  function Init(m: MachineId, clearVars: bool, e: Store): (r: Saved)
    ensures r.machine.id == m
    ensures clearVars ==>
      && r.machine.state == 0
      && (forall y :: 0 <= y < Slots ==> r.eeprom[Slot(m, y)] == Erased)
    ensures clearVars ==> forall a :: 0 <= a < Size && !InBlock(m, a) ==> r.eeprom[a] == e[a]
    ensures !clearVars ==> r.eeprom == e
    ensures !Repeated(r.machine.state)
    ensures (exists y :: 0 <= y < Slots && Active(r.eeprom, m, y)) ==>
      && Active(r.eeprom, m, r.machine.state as nat)
      && forall y :: 0 <= y < r.machine.state as nat ==> !Active(r.eeprom, m, y)
    ensures (forall y :: 0 <= y < Slots ==> !Active(r.eeprom, m, y)) ==> r.machine.state == 0
  {
    var e1 := if clearVars then EraseRange(e, Slot(m, 0), Slots) else e;
    var k := FirstActive(e1, m, 0);
    var st := k as Byte;
    SlotAsState(k);
    FirstTimeState(st);
    Saved(Machine(m, st), e1)
  }

  /** The RAM state after `moveToState(n)` from `prev`: the same 7-bit state
      entered again carries the repeat flag. */
  function NextState(prev: Byte, n: Byte): (s: Byte)
    ensures Low7(s) == Low7(n)
    ensures Repeated(s) <==> Low7(prev) == n as int || Repeated(n)
  {
    if prev & 0x7F == n then n + 128 else n
  }

  /** The two EEPROM writes of `moveToState`: erase the byte at `clearAt`,
      then mark the slot of the new state. */
  function Move(s: Saved, n: Byte, clearAt: nat): (r: Saved)
    requires clearAt < Size
    ensures r.machine == Machine(s.machine.id, NextState(s.machine.state, n))
    ensures r.eeprom[Slot(s.machine.id, Low7(n))] == ActiveMark
    ensures clearAt != Slot(s.machine.id, Low7(n)) ==> r.eeprom[clearAt] == Erased
    ensures forall a :: 0 <= a < Size && a != clearAt && a != Slot(s.machine.id, Low7(n)) ==>
      r.eeprom[a] == s.eeprom[a]
  {
    var m := s.machine.id;
    var next := NextState(s.machine.state, n);
    var e1 := s.eeprom[clearAt := Erased];
    Saved(Machine(m, next), e1[Slot(m, Low7(next)) := ActiveMark])
  }

  /** Where `moveToState` erases the old slot, as written: with a stride of
      0x100 per machine and the full old state, repeat flag included. */
  function OldSlotAsWritten(m: MachineId, prev: Byte): (a: nat)
    ensures a < Size
    ensures m == 1 && prev < 0x80 ==> a == Slot(m, Low7(prev))
    ensures m == 1 && Repeated(prev) ==> a == Slot(2, Low7(prev))
    ensures m == 2 && prev < 0x80 ==> a == Slot(3, Low7(prev))
    ensures m == 2 && Repeated(prev) ==> !InBlock(1, a) && !InBlock(2, a) && !InBlock(3, a)
    ensures m == 3 ==> !InBlock(1, a) && !InBlock(2, a) && !InBlock(3, a)
  {
    NvStates + 0x100 * (m - 1) + prev as nat
  }

  /** `State::moveToState(n)` as written. */
  function MoveToState(s: Saved, n: Byte): (r: Saved)
    ensures r.machine == Machine(s.machine.id, NextState(s.machine.state, n))
    ensures Active(r.eeprom, s.machine.id, Low7(n))
    ensures var clearAt := OldSlotAsWritten(s.machine.id, s.machine.state);
      clearAt != Slot(s.machine.id, Low7(n)) ==> r.eeprom[clearAt] == Erased
    ensures forall a :: (0 <= a < Size && a != OldSlotAsWritten(s.machine.id, s.machine.state)
      && a != Slot(s.machine.id, Low7(n))) ==> r.eeprom[a] == s.eeprom[a]
  {
    Move(s, n, OldSlotAsWritten(s.machine.id, s.machine.state))
  }

  /** `State::moveToState(n)` erasing the slot the old state was stored in,
      at the same stride and with the same 7-bit mask as every other access
      to the block. */
  function MoveToStateCorrected(s: Saved, n: Byte): (r: Saved)
    ensures r.machine == Machine(s.machine.id, NextState(s.machine.state, n))
    ensures Active(r.eeprom, s.machine.id, Low7(n))
    ensures Low7(s.machine.state) != Low7(n) ==> !Active(r.eeprom, s.machine.id, Low7(s.machine.state))
    ensures forall a :: (0 <= a < Size && a != Slot(s.machine.id, Low7(s.machine.state))
      && a != Slot(s.machine.id, Low7(n))) ==> r.eeprom[a] == s.eeprom[a]
    ensures forall a :: 0 <= a < Size && !InBlock(s.machine.id, a) ==> r.eeprom[a] == s.eeprom[a]
  {
    Move(s, n, Slot(s.machine.id, Low7(s.machine.state)))
  }

  /** `State::fetch()`: the RAM state, repeat flag included. */
  function Fetch(mach: Machine): (s: Byte)
  {
    mach.state
  }

  // ---------------------------------------------------------------------
  // The single-active-slot invariant and restart recovery
  // ---------------------------------------------------------------------

  /** The block of the machine marks exactly the stored state, or nothing
      while the machine is still in the initial state 0. */
  predicate Consistent(s: Saved)
  {
    var m := s.machine.id;
    || (forall y :: 0 <= y < Slots ==> (Active(s.eeprom, m, y) <==> y == Low7(s.machine.state)))
    || (s.machine.state == 0 && forall y :: 0 <= y < Slots ==> !Active(s.eeprom, m, y))
  }

  /** A freshly wiped machine is consistent. */
  lemma WipedIsConsistent(m: MachineId, e: Store)
    ensures Consistent(Init(m, true, e))
  {
    var r := Init(m, true, e);
    forall y | 0 <= y < Slots
      ensures !Active(r.eeprom, m, y)
    {
      assert r.eeprom[Slot(m, y)] == Erased;
    }
  }

  /** The corrected move keeps exactly one slot, the new one, active. */
  lemma CorrectedKeepsConsistent(s: Saved, n: Byte)
    requires Consistent(s)
    ensures Consistent(MoveToStateCorrected(s, n))
  {
    var m := s.machine.id;
    var r := MoveToStateCorrected(s, n);
    var prev := Low7(s.machine.state);
    forall y | 0 <= y < Slots
      ensures Active(r.eeprom, m, y) <==> y == Low7(r.machine.state)
    {
      if y != Low7(n) && y != prev {
        assert r.eeprom[Slot(m, y)] == s.eeprom[Slot(m, y)];
        assert !Active(s.eeprom, m, y);
      }
    }
  }

  /** After a power cycle a consistent machine comes back in its stored
      state with the repeat flag dropped, whatever RAM held. */
  lemma RestartRecovers(s: Saved)
    requires Consistent(s)
    ensures Init(s.machine.id, false, s.eeprom).machine.state as nat == Low7(s.machine.state)
  {
    var m := s.machine.id;
    if forall y :: 0 <= y < Slots ==> (Active(s.eeprom, m, y) <==> y == Low7(s.machine.state)) {
      assert Active(s.eeprom, m, Low7(s.machine.state));
    } else {
      FirstTimeState(s.machine.state);
    }
  }

  /** A move of one machine leaves the other two blocks alone. */
  lemma CorrectedLeavesOthers(s: Saved, n: Byte, other: MachineId, y: nat)
    requires other != s.machine.id && y < Slots
    ensures MoveToStateCorrected(s, n).eeprom[Slot(other, y)] == s.eeprom[Slot(other, y)]
  {
    assert !InBlock(s.machine.id, Slot(other, y));
  }

  /** Moves applied in order, with the corrected erase. */
  function Moves(s: Saved, ns: seq<Byte>): (r: Saved)
    ensures r.machine.id == s.machine.id
    decreases |ns|
  {
    if ns == [] then s else Moves(MoveToStateCorrected(s, ns[0]), ns[1..])
  }

  lemma {:induction false} MovesKeepConsistent(s: Saved, ns: seq<Byte>)
    requires Consistent(s)
    ensures Consistent(Moves(s, ns))
    ensures ns != [] ==> Low7(Moves(s, ns).machine.state) == Low7(ns[|ns| - 1])
    decreases |ns|
  {
    if ns != [] {
      CorrectedKeepsConsistent(s, ns[0]);
      MovesKeepConsistent(MoveToStateCorrected(s, ns[0]), ns[1..]);
    }
  }

  /** From a wiped block, any run of moves is recovered after a power cycle:
      the machine restarts in the last state it was moved to. */
  lemma RestartAfterMoves(m: MachineId, e: Store, ns: seq<Byte>)
    requires ns != []
    ensures var r := Moves(Init(m, true, e), ns);
      Init(m, false, r.eeprom).machine.state as nat == Low7(ns[|ns| - 1])
  {
    WipedIsConsistent(m, e);
    MovesKeepConsistent(Init(m, true, e), ns);
    RestartRecovers(Moves(Init(m, true, e), ns));
  }

  /** Entering the same state twice sets the repeat flag on the second
      entry only. */
  lemma RepeatFlagOnReentry(s: Saved, n: Byte)
    requires n < 0x80 && Low7(s.machine.state) != n as nat
    ensures var once := MoveToStateCorrected(s, n);
      var twice := MoveToStateCorrected(once, n);
      && Fetch(once.machine) == n
      && !Repeated(Fetch(once.machine))
      && Repeated(Fetch(twice.machine)) && Low7(Fetch(twice.machine)) == n as nat
  {
    var once := MoveToStateCorrected(s, n);
    assert !Repeated(n);
    assert Fetch(once.machine) == n;
  }

  // ---------------------------------------------------------------------
  // The erase address of WillsIO.cpp:588
  // ---------------------------------------------------------------------

  /** For MERGE without the repeat flag the written address is the right one. */
  lemma AsWrittenAgreesForMerge(s: Saved, n: Byte)
    requires s.machine.id == 1 && !Repeated(s.machine.state)
    ensures MoveToState(s, n) == MoveToStateCorrected(s, n)
  {
    assert s.machine.state < 0x80;
  }

  /** Hence, in that case, the move as written keeps the block consistent
      and restart recovers the new state. */
  lemma AsWrittenMergeRecovers(s: Saved, n: Byte)
    requires s.machine.id == 1 && !Repeated(s.machine.state) && Consistent(s)
    ensures Consistent(MoveToState(s, n))
    ensures Init(1, false, MoveToState(s, n).eeprom).machine.state as nat == Low7(n)
  {
    AsWrittenAgreesForMerge(s, n);
    CorrectedKeepsConsistent(s, n);
    RestartRecovers(MoveToState(s, n));
  }

  /** MERGE entering state 5 twice and then state 7: the erase after the
      repeat lands in ENTER's block, slot 5 of MERGE stays marked, and a
      restart comes back in state 5 instead of 7. */
  lemma RepeatThenMoveLosesState(e: Store)
    ensures var r := MoveToState(MoveToState(MoveToState(Init(1, true, e), 5), 5), 7);
      && Fetch(r.machine) == 7
      && Active(r.eeprom, 1, 5) && Active(r.eeprom, 1, 7)
      && r.eeprom[Slot(2, 5)] == Erased
      && Init(1, false, r.eeprom).machine.state == 5
  {
    var s0 := Init(1, true, e);
    var s1 := MoveToState(s0, 5);
    var s2 := MoveToState(s1, 5);
    assert Fetch(s2.machine) == 0x85;
    var r := MoveToState(s2, 7);
    assert OldSlotAsWritten(1, 0x85) == Slot(2, 5);
    assert Active(r.eeprom, 1, 5);
    forall y | 0 <= y < 5
      ensures !Active(r.eeprom, 1, y)
    {
      assert r.eeprom[Slot(1, y)] == s0.eeprom[Slot(1, y)];
    }
  }

  /** ENTER moving between two first-time states erases EXIT's slot and
      leaves its own old slot marked. */
  lemma EnterClearsExit(s: Saved, n: Byte)
    requires s.machine.id == 2 && s.machine.state < 0x80 && n < 0x80
    requires s.machine.state != n && Active(s.eeprom, 2, Low7(s.machine.state))
    ensures var r := MoveToState(s, n);
      && r.eeprom[Slot(3, Low7(s.machine.state))] == Erased
      && Active(r.eeprom, 2, Low7(s.machine.state))
      && Active(r.eeprom, 2, Low7(n))
  {
    var prev := Low7(s.machine.state);
    var next := Low7(n);
    assert prev != next;
    var r := MoveToState(s, n);
    assert OldSlotAsWritten(2, s.machine.state) == Slot(3, prev);
    assert r.eeprom[Slot(2, prev)] == s.eeprom[Slot(2, prev)];
  }
}
