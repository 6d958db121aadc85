/** One call of `IO::updater` (WillsIO.cpp:209-293): the shift-register scan
    that drives points 1..24 and samples sections 1..24, the direct outputs
    for points 25..29, and the half-second refresh of the exit-mode
    indicators.

    The pin activity is returned as data: the 24 bits put on DATAOUT in shift
    order, and the `digitalWrite`s of the direct and indicator pins.  The
    strobe and clock pulses around each bit are fixed and carry no data. */
module Scan {
  import opened Bytes
  import opened IoState
  import Points
  import ExitQueue

  /** Number of outputs on the DPR shift-register boards. */
  const ShiftLength := 24

  type ShiftIndex = k: nat | k < 24

  /** Point bit driven at each shift position: the boards wire their relays
      in this order. */
  const MapDPR: seq<ShiftIndex> :=
    [6, 4, 2, 0, 7, 5, 3, 1, 14, 12, 10, 8, 15, 13, 11, 9, 22, 20, 18, 16, 23, 21, 19, 17]

  /** Shift position of each point bit: the inverse of MapDPR. */
  const PositionOf: seq<ShiftIndex> :=
    [3, 7, 2, 6, 1, 5, 0, 4, 11, 15, 10, 14, 9, 13, 8, 12, 19, 23, 18, 22, 17, 21, 16, 20]

  /** The indicator pins: 26 MAIN, 27 GOODS, 28 BRANCH, 29 THROUGH. */
  const IndicatorBase := 26

  datatype PinWrite = PinWrite(pin: int, high: bool)

  datatype Scanned = Scanned(
    io: Io,
    shifted: seq<bool>,         // DATAOUT levels, first bit shifted first
    direct: seq<PinWrite>,      // points 25..29
    indicators: seq<PinWrite>   // exit-mode lamps, empty between refreshes
  )

  /** DATAOUT at shift positions i..23: each position puts the point bit
      the wiring table names for it. */
  function ShiftOut(pv: Word, i: nat): (data: seq<bool>)
    requires i <= ShiftLength
    ensures |data| == ShiftLength - i
    ensures forall k :: 0 <= k < |data| ==> data[k] == pv[MapDPR[i + k]]
    decreases ShiftLength - i
  {
    if i == ShiftLength then []
    else
      var rest := ShiftOut(pv, i + 1);
      var data := [pv[MapDPR[i]]] + rest;
      assert forall k :: 1 <= k < |data| ==> data[k] == rest[k - 1];
      data
  }

  /** DATAIN at shift positions i..23: the level sampled at position k is
      stored, inverted, as section bit 23-k; bits 24..31 are never touched. */
  function ShiftIn(toti: Word, sense: seq<bool>, i: nat): (r: Word)
    requires |sense| == ShiftLength && i <= ShiftLength
    ensures forall j :: 0 <= j < ShiftLength - i ==> r[j] == !sense[ShiftLength - 1 - j]
    ensures forall j :: ShiftLength - i <= j < 32 ==> r[j] == toti[j]
    decreases ShiftLength - i
  {
    if i == ShiftLength then toti
    else ShiftIn(toti[ShiftLength - 1 - i := !sense[i]], sense, i + 1)
  }

  /** The pin driven by point bit `bit` (24..28): D9..D12, except that the
      fifth lands on D8 for want of pin D13. */
  function DirectPin(bit: nat): int
  {
    if bit - 15 == 13 then 8 else bit - 15
  }

  /** The loop over bits from..28 of WillsIO.cpp:251-262. */
  function DirectWrites(pv: Word, from: nat): (w: seq<PinWrite>)
    requires ShiftLength <= from <= ShiftLength + 5
    ensures |w| == ShiftLength + 5 - from
    ensures forall k :: 0 <= k < |w| ==> w[k] == PinWrite(DirectPin(from + k), pv[from + k])
    decreases ShiftLength + 5 - from
  {
    if from == ShiftLength + 5 then []
    else [PinWrite(DirectPin(from), pv[from])] + DirectWrites(pv, from + 1)
  }

  /** Level of indicator `i`: lit and steady, or lit and flashing in phase
      with the blinker, or dark. */
  function IndicatorLevel(d: Byte, i: nat, blinker: bool): (high: bool)
    requires i < 4
    ensures high <==> Bit8(d, i + 4) && (!Bit8(d, i) || blinker)
  {
    if Bit8(d, i + 4) then (if Bit8(d, i) then blinker else true) else false
  }

  /** The four indicator writes of a refresh, pins 26..29 in order. */
  function IndicatorWrites(d: Byte, blinker: bool, i: nat): (w: seq<PinWrite>)
    requires i <= 4
    ensures |w| == 4 - i
    ensures forall k :: 0 <= k < |w| ==>
      w[k] == PinWrite(IndicatorBase + i + k, IndicatorLevel(d, i + k, blinker))
    decreases 4 - i
  {
    if i == 4 then []
    else [PinWrite(IndicatorBase + i, IndicatorLevel(d, i, blinker))] + IndicatorWrites(d, blinker, i + 1)
  }

  /** Points 25..29 go to D9, D10, D11, D12 and D8. */
  function DirectOutputs(pv: Word): (w: seq<PinWrite>)
    ensures w == [PinWrite(9, pv[24]), PinWrite(10, pv[25]), PinWrite(11, pv[26]),
                  PinWrite(12, pv[27]), PinWrite(8, pv[28])]
  {
    var w := DirectWrites(pv, ShiftLength);
    assert w[0] == PinWrite(9, pv[24]) && w[1] == PinWrite(10, pv[25]);
    assert w[2] == PinWrite(11, pv[26]) && w[3] == PinWrite(12, pv[27]);
    assert w[4] == PinWrite(8, pv[28]);
    w
  }

  datatype Blinked = Blinked(io: Io, writes: seq<PinWrite>)

  /** The tail of `IO::updater`: count the divider down and, when it runs
      out, restart it, toggle the flash phase and drive the four lamps. */
  function Blink(io: Io): (r: Blinked)
    ensures io.halfSecond == 1 ==>
      && r.io == io.(halfSecond := HalfSecondTicks, blinker := !io.blinker)
      && |r.writes| == 4
      && forall i :: 0 <= i < 4 ==>
           r.writes[i] == PinWrite(IndicatorBase + i,
             Bit8(io.exitModeDisplay, i + 4) && (!Bit8(io.exitModeDisplay, i) || r.io.blinker))
    ensures io.halfSecond != 1 ==> r.io == io.(halfSecond := io.halfSecond - 1) && r.writes == []
  {
    if io.halfSecond - 1 == 0 then
      var blinker := !io.blinker;
      Blinked(io.(halfSecond := HalfSecondTicks, blinker := blinker),
              IndicatorWrites(io.exitModeDisplay, blinker, 0))
    else
      Blinked(io.(halfSecond := io.halfSecond - 1), [])
  }

  /** `IO::updater()` given the 24 samples of DATAIN (`true` = HIGH) taken
      at the 24 shift positions. */
  function Updater(io: Io, sense: seq<bool>): (r: Scanned)
    requires |sense| == ShiftLength
    ensures |r.shifted| == ShiftLength
    ensures forall i :: 0 <= i < ShiftLength ==> r.shifted[i] == io.pointValues[MapDPR[i]]
    ensures forall j :: 0 <= j < ShiftLength ==> r.io.totiValues[j] == !sense[ShiftLength - 1 - j]
    ensures forall j :: ShiftLength <= j < 32 ==> r.io.totiValues[j] == io.totiValues[j]
    ensures r.direct == DirectOutputs(io.pointValues)
    ensures Blink(io.(totiValues := r.io.totiValues)) == Blinked(r.io, r.indicators)
  {
    var shifted := ShiftOut(io.pointValues, 0);
    var scanned := io.(totiValues := ShiftIn(io.totiValues, sense, 0));
    var blinked := Blink(scanned);
    Scanned(blinked.io, shifted, DirectOutputs(io.pointValues), blinked.writes)
  }

  // ---------------------------------------------------------------------
  // Properties
  // ---------------------------------------------------------------------

  /** The wiring table is a permutation of 0..23: PositionOf undoes it in
      both directions. */
  lemma MapDPRIsPermutation()
    ensures forall i :: 0 <= i < ShiftLength ==> PositionOf[MapDPR[i]] == i
    ensures forall y :: 0 <= y < ShiftLength ==> MapDPR[PositionOf[y]] == y
  {
  }

  /** Every point 1..24 is driven exactly once per scan, at the position the
      wiring table gives it. */
  lemma ScanDrivesEachPoint(io: Io, sense: seq<bool>)
    requires |sense| == ShiftLength
    ensures forall y :: 0 <= y < ShiftLength ==>
      Updater(io, sense).shifted[PositionOf[y]] == io.pointValues[y]
    ensures forall y, i :: 0 <= y < ShiftLength && 0 <= i < ShiftLength && MapDPR[i] == y ==> i == PositionOf[y]
  {
    MapDPRIsPermutation();
  }

  /** After a scan, section t (1..24) reads occupied exactly when the
      sense line sampled at shift position 24-t was LOW; sections 25..32
      keep their old state. */
  lemma ScanFeedsTestToti(io: Io, sense: seq<bool>, t: Byte)
    requires |sense| == ShiftLength
    ensures 1 <= t as int <= ShiftLength ==>
      (Points.TestToti(Updater(io, sense).io, t) <==> !sense[ShiftLength - t as int])
    ensures ShiftLength < t as int <= 32 ==>
      Points.TestToti(Updater(io, sense).io, t) == Points.TestToti(io, t)
  {
    if 1 <= t as int <= ShiftLength {
      var i := ShiftLength - t as int;
      assert Updater(io, sense).io.totiValues[ShiftLength - 1 - i] == !sense[i];
    }
  }

  /** The scan keeps the half-second divider in 1..25, the range in which
      its 16-bit decrement never wraps. */
  lemma DividerStaysInRange(io: Io, sense: seq<bool>, myExit: Byte)
    requires |sense| == ShiftLength
    requires DividerInRange(io)
    ensures DividerInRange(Updater(io, sense).io)
    ensures DividerInRange(ExitQueue.SetExitModeDisplay(io, myExit))
  {
  }

  /** Repainting the indicator byte makes the very next scan drive the
      lamps, with every lamp dark unless lit. */
  lemma DisplayChangeShowsNextScan(io: Io, myExit: Byte, sense: seq<bool>)
    requires |sense| == ShiftLength
    ensures var shown := ExitQueue.SetExitModeDisplay(io, myExit);
      var r := Updater(shown, sense);
      && |r.indicators| == 4
      && forall i :: 0 <= i < 4 && r.indicators[i].high ==> Bit8(shown.exitModeDisplay, i + 4)
  {
  }

  /** Consecutive scans with the given samples; the final state and every
      indicator write, in order. */
  function Scans(io: Io, senses: seq<seq<bool>>): (r: (Io, seq<PinWrite>))
    requires forall k :: 0 <= k < |senses| ==> |senses[k]| == ShiftLength
    decreases |senses|
  {
    if senses == [] then (io, [])
    else
      var first := Updater(io, senses[0]);
      var rest := Scans(first.io, senses[1..]);
      (rest.0, first.indicators + rest.1)
  }

  /** Fewer scans than the divider holds drive no lamp and change nothing
      the lamps depend on. */
  lemma {:induction false} QuietScans(io: Io, senses: seq<seq<bool>>)
    requires forall k :: 0 <= k < |senses| ==> |senses[k]| == ShiftLength
    requires |senses| < io.halfSecond
    ensures Scans(io, senses).1 == []
    ensures Scans(io, senses).0.halfSecond == io.halfSecond - |senses|
    ensures Scans(io, senses).0.blinker == io.blinker
    ensures Scans(io, senses).0.exitModeDisplay == io.exitModeDisplay
    decreases |senses|
  {
    if senses != [] {
      QuietScans(Updater(io, senses[0]).io, senses[1..]);
    }
  }

  /** What one scan does to the lamp-related state, field by field. */
  lemma ScanLamps(io: Io, sense: seq<bool>, i: nat)
    requires |sense| == ShiftLength && i < 4
    ensures var r := Updater(io, sense);
      && r.io.exitModeDisplay == io.exitModeDisplay
      && (io.halfSecond == 1 ==>
            && r.io.halfSecond == HalfSecondTicks && r.io.blinker == !io.blinker
            && |r.indicators| == 4
            && r.indicators[i].high == (Bit8(io.exitModeDisplay, i + 4)
                                        && (!Bit8(io.exitModeDisplay, i) || !io.blinker)))
  {
  }

  /** After a refresh, 24 quiet scans and one more refresh the lamps again
      with the flash phase toggled. */
  lemma RefreshAfterQuiet(io: Io, quiet: seq<seq<bool>>, s: seq<bool>, i: nat)
    requires |s| == ShiftLength && i < 4
    requires |quiet| == HalfSecondTicks - 1
    requires forall k :: 0 <= k < |quiet| ==> |quiet[k]| == ShiftLength
    requires io.halfSecond == HalfSecondTicks
    ensures var between := Scans(io, quiet);
      var second := Updater(between.0, s);
      && between.1 == []
      && |second.indicators| == 4
      && second.indicators[i].high == (Bit8(io.exitModeDisplay, i + 4)
                                       && (!Bit8(io.exitModeDisplay, i) || !io.blinker))
  {
    QuietScans(io, quiet);
    ScanLamps(Scans(io, quiet).0, s, i);
  }

  /** Two successive refreshes 25 scans apart with the same indicator byte:
      a steady lamp is driven high both times, a flashing lamp once high and
      once low. */
  lemma FlashingAlternates(io: Io, s1: seq<bool>, quiet: seq<seq<bool>>, s2: seq<bool>, i: nat)
    requires |s1| == ShiftLength && |s2| == ShiftLength
    requires |quiet| == HalfSecondTicks - 1
    requires forall k :: 0 <= k < |quiet| ==> |quiet[k]| == ShiftLength
    requires io.halfSecond == 1 && i < 4
    requires Bit8(io.exitModeDisplay, i + 4)
    ensures var first := Updater(io, s1);
      var between := Scans(first.io, quiet);
      var second := Updater(between.0, s2);
      && between.1 == []
      && |first.indicators| == 4 && |second.indicators| == 4
      && (if Bit8(io.exitModeDisplay, i)
          then first.indicators[i].high != second.indicators[i].high
          else first.indicators[i].high && second.indicators[i].high)
  {
    ScanLamps(io, s1, i);
    RefreshAfterQuiet(Updater(io, s1).io, quiet, s2, i);
  }
}
