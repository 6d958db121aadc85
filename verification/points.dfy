/** The point store and its EEPROM mirror (WillsIO.cpp:164-206, 296-342).

    Point n (1..32) is bit n-1 of `pointValues`; its durable copy is the byte
    at EEPROM address n-1, whose least significant bit is clear when the point
    is set.  Every identifier is reduced with `(n - 1) & 0x1F`, so 0 stands for
    point 32 and 33 for point 1. */
module Points {
  import opened Bytes
  import opened Eeprom
  import opened IoState
  import ExitQueue

  /** Base address of the per-point bytes. */
  const EEpoint := 0x000

  /** Durable marker of a set point (LSB clear) and of a clear point. */
  const PointSet: Byte := 0xFE
  const PointClear: Byte := 0xFF

  /** `IO::init(true)` erases this many bytes from EEpoint: the 32 point
      bytes and 8 more that once held stored train numbers. */
  const WipedBytes := 40

  /** The point word and the EEPROM after an operation. */
  datatype Stored = Stored(io: Io, eeprom: Store)

  /** `IO::getPoint(p)`: the durable copy, not the RAM word, decides. */
  function GetPoint(e: Store, p: Byte): (isSet: bool)
    ensures 1 <= p as int <= 32 ==> (isSet <==> !Bit8(e[p as int - 1], 0))
    ensures p == 0 ==> (isSet <==> !Bit8(e[31], 0))
  {
    e[EEpoint + WrapIndex(p)] & 1 == 0
  }

  /** `IO::testToti(t)`: whether section t is occupied, from the RAM word. */
  function TestToti(io: Io, t: Byte): (occupied: bool)
    ensures 1 <= t as int <= 32 ==> (occupied <==> io.totiValues[t as int - 1])
    ensures t == 0 ==> (occupied <==> io.totiValues[31])
  {
    io.totiValues[WrapIndex(t)]
  }

  /** Every point bit agrees with its durable copy. */
  predicate Mirrored(io: Io, e: Store)
  {
    forall y :: 0 <= y < 32 ==> io.pointValues[y] == GetPoint(e, IdOf(y))
  }

  /** `IO::setP1(p, s)`: sets one point bit and rewrites its durable copy, so
      that `getPoint(p)` reports `s` from then on; no other bit and no other
      address changes. */
  function SetP1(io: Io, e: Store, p: Byte, s: bool): (r: Stored)
    ensures r.io.pointValues[WrapIndex(p)] == s
    ensures forall j :: 0 <= j < 32 && j != WrapIndex(p) ==> r.io.pointValues[j] == io.pointValues[j]
    ensures GetPoint(r.eeprom, p) == s
    ensures r.eeprom[WrapIndex(p)] == (if s then PointSet else PointClear)
    ensures SameOutside(e, r.eeprom, WrapIndex(p), WrapIndex(p) + 1)
    ensures r.io == io.(pointValues := r.io.pointValues)
  {
    var k := WrapIndex(p);
    var pv: Word := io.pointValues[k := s];
    Stored(io.(pointValues := pv), e[EEpoint + k := if s then PointSet else PointClear])
  }

  /** What the last n passes of the loop of `IO::setPoint(0, _)` leave:
      points 1..n clear in RAM and in EEPROM, and every other point bit,
      EEPROM address and field as before. */
  predicate Cleared(io: Io, e: Store, n: nat, r: Stored)
  {
    && (forall j :: 0 <= j < n && j < 32 ==> !r.io.pointValues[j] && r.eeprom[j] == PointClear)
    && (forall j :: n <= j < 32 ==> r.io.pointValues[j] == io.pointValues[j])
    && SameOutside(e, r.eeprom, 0, n)
    && r.io == io.(pointValues := r.io.pointValues)
  }

  /** The loop of `IO::setPoint(0, _)`: clears points n, n-1, ..., 1. */
  function ClearSidingPoints(io: Io, e: Store, n: nat): (r: Stored)
    requires n <= 8
    ensures Cleared(io, e, n, r)
    decreases n
  {
    if n == 0 then Stored(io, e)
    else
      var step := SetP1(io, e, IdOf(n - 1), false);
      var r := ClearSidingPoints(step.io, step.eeprom, n - 1);
      ClearStep(io, e, n, r);
      r
  }

  /** Clearing point n, then points n-1..1, clears points n..1. */
  lemma ClearStep(io: Io, e: Store, n: nat, r: Stored)
    requires 1 <= n <= 8
    requires var step := SetP1(io, e, IdOf(n - 1), false);
      Cleared(step.io, step.eeprom, n - 1, r)
    ensures Cleared(io, e, n, r)
  {
    var step := SetP1(io, e, IdOf(n - 1), false);
    assert WrapIndex(IdOf(n - 1)) == n - 1;
    forall j | 0 <= j < n
      ensures !r.io.pointValues[j] && r.eeprom[j] == PointClear
    {
      if j == n - 1 {
        assert !step.io.pointValues[j] && step.eeprom[j] == PointClear;
      }
    }
    forall a | 0 <= a < Size && !(0 <= a < n)
      ensures r.eeprom[a] == e[a]
    {
      assert r.eeprom[a] == step.eeprom[a];
    }
  }

  /** `IO::setPoint(p, s)`.  Point 0 means "clear the siding entry points":
      points 1..8 are cleared and every other bit and address is left alone. */
  function SetPoint(io: Io, e: Store, p: Byte, s: bool): (r: Stored)
    ensures p != 0 ==> r == SetP1(io, e, p, s)
    ensures p == 0 ==>
      && (forall j :: 0 <= j < 8 ==> !r.io.pointValues[j] && !GetPoint(r.eeprom, IdOf(j)))
      && (forall j :: 8 <= j < 32 ==> r.io.pointValues[j] == io.pointValues[j])
      && SameOutside(e, r.eeprom, 0, 8)
    ensures SameOutside(e, r.eeprom, 0, 32)
    ensures r.io == io.(pointValues := r.io.pointValues)
  {
    if p == 0 then ClearSidingPoints(io, e, 8) else SetP1(io, e, p, s)
  }

  /** The loop of `IO::init` that rebuilds bits y..31 of the point word from
      the durable copies, lowest point first. */
  function LoadPoints(pv: Word, e: Store, y: nat): (r: Word)
    requires y <= 32
    ensures forall j :: y <= j < 32 ==> r[j] == GetPoint(e, IdOf(j))
    ensures forall j :: 0 <= j < y ==> r[j] == pv[j]
    decreases 32 - y
  {
    if y == 32 then pv
    else LoadPoints(pv[y := GetPoint(e, IdOf(y))], e, y + 1)
  }

  /** `IO::init(clearVars)` without the pin set-up.  With `clearVars` the
      first 40 EEPROM bytes are erased and every point reads back clear.  The
      exit queue is purged, and the point word is rebuilt from EEPROM so that
      RAM and durable copy agree. */
  function Init(io: Io, e: Store, clearVars: bool): (r: Stored)
    ensures Mirrored(r.io, r.eeprom)
    ensures clearVars ==>
      && (forall a :: 0 <= a < WipedBytes ==> r.eeprom[a] == Erased)
      && SameOutside(e, r.eeprom, 0, WipedBytes)
      && (forall y :: 0 <= y < 32 ==> !r.io.pointValues[y])
    ensures !clearVars ==> r.eeprom == e
    ensures r.io.exitQueue == EmptyQueue && r.io.activeExit == 0
    ensures r.io.exitModeDisplay == 0 && r.io.halfSecond == 1
    ensures r.io.totiValues == io.totiValues && r.io.blinker == io.blinker
  {
    var io1 := if clearVars then io.(pointValues := ZeroWord) else io;
    var e1 := if clearVars then EraseRange(e, EEpoint, WipedBytes) else e;
    var io2 := ExitQueue.AddToQueue(io1, 0).io;
    assert clearVars ==> forall y :: 0 <= y < 32 ==> e1[y] == Erased && !GetPoint(e1, IdOf(y));
    Stored(io2.(pointValues := LoadPoints(io2.pointValues, e1, 0)), e1)
  }

  // ---------------------------------------------------------------------
  // Properties across calls
  // ---------------------------------------------------------------------

  /** The durable copy of point y+1 is the byte at address y. */
  lemma ReadsOwnByte(e: Store, e': Store, y: nat)
    requires y < 32 && e'[y] == e[y]
    ensures GetPoint(e', IdOf(y)) == GetPoint(e, IdOf(y))
  {
  }

  lemma SetP1KeepsMirror(io: Io, e: Store, p: Byte, s: bool)
    requires Mirrored(io, e)
    ensures var r := SetP1(io, e, p, s); Mirrored(r.io, r.eeprom)
  {
    var r := SetP1(io, e, p, s);
    forall y | 0 <= y < 32
      ensures r.io.pointValues[y] == GetPoint(r.eeprom, IdOf(y))
    {
      if y != WrapIndex(p) {
        ReadsOwnByte(e, r.eeprom, y);
      }
    }
  }

  lemma ClearSidingPointsKeepsMirror(io: Io, e: Store)
    requires Mirrored(io, e)
    ensures var r := ClearSidingPoints(io, e, 8); Mirrored(r.io, r.eeprom)
  {
    var r := ClearSidingPoints(io, e, 8);
    forall y | 0 <= y < 32
      ensures r.io.pointValues[y] == GetPoint(r.eeprom, IdOf(y))
    {
      if y >= 8 {
        ReadsOwnByte(e, r.eeprom, y);
      }
    }
  }

  /** Setting a point keeps RAM and EEPROM in agreement. */
  lemma SetPointKeepsMirror(io: Io, e: Store, p: Byte, s: bool)
    requires Mirrored(io, e)
    ensures var r := SetPoint(io, e, p, s); Mirrored(r.io, r.eeprom)
  {
    if p == 0 {
      ClearSidingPointsKeepsMirror(io, e);
    } else {
      SetP1KeepsMirror(io, e, p, s);
    }
  }

  /** After a power cycle the rebuilt point word equals the one in use
      before it, whatever RAM held at start-up. */
  lemma RestartRestoresPoints(io: Io, e: Store, ram: Io)
    requires Mirrored(io, e)
    ensures Init(ram, e, false).io.pointValues == io.pointValues
  {
    var pv := Init(ram, e, false).io.pointValues;
    assert forall y :: 0 <= y < 32 ==> pv[y] == io.pointValues[y];
  }

  /** Setting point 5 and reading it back from EEPROM, both ways. */
  lemma PointFiveRoundTrip(io: Io, e: Store)
    ensures GetPoint(SetPoint(io, e, 5, true).eeprom, 5)
    ensures !GetPoint(SetPoint(io, e, 5, false).eeprom, 5)
  {
  }
}
