/** The debounced push-button reader (WillsIO.cpp:443-537).

    Six active-low buttons on D20..D25 form a six-bit value, Up in bit 0 to
    Through in bit 5.  A value held for four polls in a row (at least 80 ms)
    is announced once, by looking up the pair (new value, previously
    announced value) in a table of key words. */
module Buttons {
  import opened Bytes

  /** Number of buttons, D20 (Up) to D25 (Through). */
  const ButtonCount := 6

  /** Polls in a row at one value after the first, before it is announced. */
  const Settle := 3

  datatype Debouncer = Debouncer(
    previousPins: U16,        // value seen by the last poll
    bounceCount: U16,         // polls that repeated it, wrapping at 16 bits
    lastAnnouncedValue: U16   // the last value acted on
  )

  /** `Buttons::init()`. */
  const Idle := Debouncer(0, 0, 0)

  function Pow2(k: nat): (p: nat)
    ensures p >= 1
  {
    if k == 0 then 1 else 2 * Pow2(k - 1)
  }

  /** Bit k of a non-negative number. */
  predicate BitOf(v: nat, k: nat)
    decreases k
  {
    if k == 0 then v % 2 == 1 else BitOf(v / 2, k - 1)
  }

  /** The button value from the pin levels (`true` = HIGH, released), first
      pin in bit 0: `(1 - level0) + (1 - level1) * 2 + ...`. */
  function PinsValue(levels: seq<bool>): (v: nat)
    ensures v < Pow2(|levels|)
    decreases |levels|
  {
    if levels == [] then 0
    else (if levels[0] then 0 else 1) + 2 * PinsValue(levels[1..])
  }

  /** Taking off the lowest binary digit. */
  lemma Halve(b: nat, r: nat)
    requires b < 2
    ensures (b + 2 * r) / 2 == r && (b + 2 * r) % 2 == b
  {
  }

  /** Bit k of the value is set exactly when button k is held down. */
  lemma {:induction false} PinsValueBits(levels: seq<bool>, k: nat)
    requires k < |levels|
    ensures BitOf(PinsValue(levels), k) <==> !levels[k]
    decreases k
  {
    var b := if levels[0] then 0 else 1;
    var rest := PinsValue(levels[1..]);
    assert PinsValue(levels) == b + 2 * rest;
    Halve(b, rest);
    if k > 0 {
      PinsValueBits(levels[1..], k - 1);
      assert levels[1..][k - 1] == levels[k];
    }
  }

  /** Bits above the last pin are clear: with every button released the
      value is 0, and any held button makes it non-zero. */
  lemma {:induction false} PinsValueZero(levels: seq<bool>)
    ensures PinsValue(levels) == 0 <==> forall k :: 0 <= k < |levels| ==> levels[k]
    decreases |levels|
  {
    if levels != [] {
      PinsValueZero(levels[1..]);
      assert forall k :: 1 <= k < |levels| ==> levels[k] == levels[1..][k - 1];
    }
  }

  /** The names the key words are built from. */
  datatype KeyName = Up | Down | Main | Goods | Branch | Through | Test | Cancel

  function NameText(n: KeyName): (t: string)
    ensures |t| >= 2
  {
    match n
    case Up => "Up"
    case Down => "Down"
    case Main => "Main"
    case Goods => "Goods"
    case Branch => "Branch"
    case Through => "Through"
    case Test => "Test"
    case Cancel => "Cancel"
  }

  /** One row of `keytab`: a key word and the (new + 256 * previous) value
      it answers, or the `"X"` row that ends the table. */
  datatype Entry = Key(name: KeyName, pressed: bool, value: nat) | EndMark

  /** The key word of a row: the name, a space and '1' for a press or '0'
      for a release. */
  function KeyWord(name: KeyName, pressed: bool): string
  {
    NameText(name) + (if pressed then " 1" else " 0")
  }

  /** A key word starts with the name and ends with a space and the digit. */
  lemma KeyWordFormat(name: KeyName, pressed: bool)
    ensures var w := KeyWord(name, pressed);
      && |w| == |NameText(name)| + 2 && w[|w| - 2] == ' '
      && w[|w| - 1] == (if pressed then '1' else '0')
      && w[..|NameText(name)|] == NameText(name)
  {
  }

  /** Row z of `keytab` as the source writes it, in the order of the
      source table. */
  function SourceRow(z: nat): (e: Entry)
    ensures z < LastRow <==> e.Key?
  {
    match z
    case 0 => Key(Up, true, 0x0001)
    case 1 => Key(Down, true, 0x0002)
    case 2 => Key(Main, true, 0x0004)
    case 3 => Key(Goods, true, 0x0008)
    case 4 => Key(Branch, true, 0x0010)
    case 5 => Key(Through, true, 0x0020)
    case 6 => Key(Up, false, 0x0100)
    case 7 => Key(Down, false, 0x0200)
    case 8 => Key(Main, false, 0x0400)
    case 9 => Key(Goods, false, 0x0800)
    case 10 => Key(Branch, false, 0x1000)
    case 11 => Key(Through, false, 0x2000)
    case 12 => Key(Test, true, 0x0003)   // Up and Down together
    case 13 => Key(Test, true, 0x0103)   // ... after Up alone
    case 14 => Key(Test, true, 0x0203)   // ... after Down alone
    case 15 => Key(Cancel, true, 0x0028) // Through and Goods together
    case 16 => Key(Cancel, true, 0x0228) // ... after Down alone
    case 17 => Key(Cancel, true, 0x0828) // ... after Goods alone
    case _ => EndMark
  }

  /** The row meant for Through pressed first: Through and Goods after
      Through alone. */
  const ThroughFirstRow := 16
  const ThroughFirstCancel := 0x0028 + 0x0020 * 256

  /** The key table as the source writes it, or with the row meant for
      Through pressed first keyed as its comment intends. */
  datatype Keytab = AsWritten | Corrected

  /** Row z of the table. */
  function Row(t: Keytab, z: nat): (e: Entry)
    ensures z < LastRow <==> e.Key?
  {
    if t == Corrected && z == ThroughFirstRow then Key(Cancel, true, ThroughFirstCancel)
    else SourceRow(z)
  }

  /** Index of the end mark. */
  const LastRow := 18

  /** The search loop of `Buttons::poll`: the index of the first row from z
      on whose value is `v`, or of the end mark when none is. */
  function Lookup(t: Keytab, v: nat, z: nat): (k: nat)
    requires z <= LastRow
    ensures z <= k <= LastRow
    ensures k < LastRow ==> Row(t, k).value == v
    decreases LastRow - z
  {
    if Row(t, z).EndMark? then z
    else if Row(t, z).value == v then z
    else Lookup(t, v, z + 1)
  }

  /** No row the search passes over carries the value. */
  lemma {:induction false} LookupFirst(t: Keytab, v: nat, z: nat)
    requires z <= LastRow
    ensures forall i :: z <= i < Lookup(t, v, z) ==> Row(t, i).value != v
    decreases LastRow - z
  {
    if z < LastRow && Row(t, z).value != v {
      LookupFirst(t, v, z + 1);
    }
  }

  /** The row a value is found at, from the rows before it not matching. */
  lemma LookupAt(t: Keytab, v: nat, k: nat)
    requires k < LastRow && Row(t, k).value == v
    requires forall i :: 0 <= i < k ==> Row(t, i).value != v
    ensures Lookup(t, v, 0) == k
  {
    LookupFirst(t, v, 0);
  }

  /** The string `poll` returns for the value `v`: the first matching key
      word, or "" when the table has none. */
  function Answer(t: Keytab, v: nat): (word: string)
    ensures word == "" <==> Lookup(t, v, 0) == LastRow
  {
    var k := Lookup(t, v, 0);
    if k < LastRow then KeyWord(Row(t, k).name, Row(t, k).pressed) else ""
  }

  /** `poll` reports nothing exactly for the values no row of the table
      carries. */
  lemma NoRowNoWord(t: Keytab, v: nat)
    ensures Answer(t, v) == "" <==> forall i :: 0 <= i < LastRow ==> Row(t, i).value != v
  {
    LookupFirst(t, v, 0);
  }

  /** The word answered for a value first carried by row k. */
  lemma AnswerAt(t: Keytab, v: nat, k: nat)
    requires k < LastRow && Row(t, k).value == v
    requires forall i :: 0 <= i < k ==> Row(t, i).value != v
    ensures Answer(t, v) == KeyWord(Row(t, k).name, Row(t, k).pressed)
  {
    LookupAt(t, v, k);
  }

  /** A value of the six button bits. */
  type Pins = p: nat | p < 64

  /** The value read from the six pin levels. */
  function ReadPins(levels: seq<bool>): (p: Pins)
    requires |levels| == ButtonCount
    ensures p == PinsValue(levels)
  {
    assert Pow2(ButtonCount) == 64;
    PinsValue(levels)
  }

  /** What a poll decides: nothing to report, or the (new + 256 * previous)
      value to look up in the table. */
  datatype Decision = Quiet | Announce(newAndOld: nat)

  datatype Polled = Polled(buttons: Debouncer, decision: Decision)

  /** The decision part of `Buttons::poll()`, given the value just read.  A
      change of value restarts the count; the fourth poll in a row at a
      value that differs from the last announced one announces it, even when
      the table has no word for it. */
  function Poll(b: Debouncer, pins: Pins): (r: Polled)
    ensures r.buttons.previousPins == pins
    ensures pins != b.previousPins ==>
      r.buttons == b.(previousPins := pins, bounceCount := 0) && r.decision == Quiet
    ensures r.decision.Announce? <==> r.buttons.lastAnnouncedValue != b.lastAnnouncedValue
    ensures r.decision.Announce? ==>
      && pins == b.previousPins && b.bounceCount == Settle - 1
      && r.buttons == b.(lastAnnouncedValue := pins, bounceCount := 0)
      && r.decision.newAndOld == pins + b.lastAnnouncedValue * 256
  {
    var b1 := if pins == b.previousPins then b.(bounceCount := (b.bounceCount + 1) % U16Limit)
              else b.(bounceCount := 0, previousPins := pins);
    if b1.bounceCount == Settle && pins != b1.lastAnnouncedValue then
      var newAndOld := pins + b1.lastAnnouncedValue * 256;
      Polled(b1.(lastAnnouncedValue := pins, bounceCount := 0), Announce(newAndOld))
    else Polled(b1, Quiet)
  }

  /** The string a decision returns: the key word the table gives the
      announced value, or "" when quiet.  `Buttons::poll` uses the table as
      written, `AsWritten`. */
  function Word(t: Keytab, d: Decision): (word: string)
    ensures d == Quiet ==> word == ""
    ensures d.Announce? ==> word == Answer(t, d.newAndOld)
  {
    if d.Announce? then Answer(t, d.newAndOld) else ""
  }

  /** A poll returns a word exactly when it announces a value some row of
      the table carries. */
  lemma WordIffRow(t: Keytab, d: Decision)
    ensures Word(t, d) != "" <==>
      d.Announce? && exists i :: 0 <= i < LastRow && Row(t, i).value == d.newAndOld
  {
    if d.Announce? {
      NoRowNoWord(t, d.newAndOld);
    }
  }

  /** `Buttons::poll()`: read the pins, decide, and return the new state
      and the string; `PollLevels(AsWritten, ..)` is the source's `poll`. */
  function PollLevels(t: Keytab, b: Debouncer, levels: seq<bool>): (r: (Debouncer, string))
    requires |levels| == ButtonCount
    ensures r.0 == Poll(b, ReadPins(levels)).buttons
    ensures r.1 == Word(t, Poll(b, ReadPins(levels)).decision)
    ensures r.1 != "" ==> r.0.lastAnnouncedValue != b.lastAnnouncedValue
  {
    var p := Poll(b, ReadPins(levels));
    (p.buttons, Word(t, p.decision))
  }

  // ---------------------------------------------------------------------
  // Properties across calls
  // ---------------------------------------------------------------------

  /** The state after polling the same value n times. */
  function After(b: Debouncer, pins: Pins, n: nat): (r: Debouncer)
    ensures n > 0 ==> r.previousPins == pins
    decreases n
  {
    if n == 0 then b else After(Poll(b, pins).buttons, pins, n - 1)
  }

  /** After a change, the new value held for four polls is announced on the
      fourth poll, and only then. */
  lemma FourSamplesAnnounce(b: Debouncer, pins: Pins)
    requires pins != b.previousPins && pins != b.lastAnnouncedValue
    ensures forall n :: 0 <= n < Settle ==> Poll(After(b, pins, n), pins).decision == Quiet
    ensures After(b, pins, Settle).lastAnnouncedValue == b.lastAnnouncedValue
    ensures Poll(After(b, pins, Settle), pins).decision == Announce(pins + b.lastAnnouncedValue * 256)
    ensures After(b, pins, Settle + 1).lastAnnouncedValue == pins
  {
    var b1 := b.(previousPins := pins, bounceCount := 0);
    assert After(b, pins, 1) == b1;
    assert After(b, pins, 2) == b1.(bounceCount := 1);
    assert After(b, pins, 3) == b1.(bounceCount := 2);
    forall n | 0 <= n < Settle
      ensures Poll(After(b, pins, n), pins).decision == Quiet
    {
      if n == 0 {
        assert After(b, pins, n) == b;
      }
    }
    var p4 := Poll(b1.(bounceCount := 2), pins);
    assert After(b, pins, 4) == After(p4.buttons, pins, 0);
  }

  /** A value the buttons already announced is never announced again. */
  lemma NoNewsNoWord(b: Debouncer, pins: Pins)
    requires pins == b.lastAnnouncedValue
    ensures Poll(b, pins).decision == Quiet
    ensures Poll(b, pins).buttons.lastAnnouncedValue == b.lastAnnouncedValue
  {
  }

  /** The six buttons, as opposed to the two chords. */
  predicate IsButton(n: KeyName)
  {
    n != Test && n != Cancel
  }

  /** The bit a button adds to the pin value, Up = 1 to Through = 32. */
  function ButtonBit(n: KeyName): nat
    requires IsButton(n)
  {
    match n
    case Up => 0x01
    case Down => 0x02
    case Main => 0x04
    case Goods => 0x08
    case Branch => 0x10
    case Through => 0x20
  }

  /** A single button pressed from rest reads as its name and " 1", and
      released to rest as its name and " 0". */
  lemma SingleButtonWords(n: KeyName)
    requires IsButton(n)
    ensures Answer(Corrected, ButtonBit(n)) == KeyWord(n, true)
    ensures Answer(Corrected, ButtonBit(n) * 256) == KeyWord(n, false)
  {
    match n
    case Up =>
      assert ButtonBit(n) == 0x0001 && ButtonBit(n) * 256 == 0x0100;
      LookupAt(Corrected, ButtonBit(n), 0); LookupAt(Corrected, ButtonBit(n) * 256, 6);
    case Down =>
      assert ButtonBit(n) == 0x0002 && ButtonBit(n) * 256 == 0x0200;
      LookupAt(Corrected, ButtonBit(n), 1); LookupAt(Corrected, ButtonBit(n) * 256, 7);
    case Main =>
      assert ButtonBit(n) == 0x0004 && ButtonBit(n) * 256 == 0x0400;
      LookupAt(Corrected, ButtonBit(n), 2); LookupAt(Corrected, ButtonBit(n) * 256, 8);
    case Goods =>
      assert ButtonBit(n) == 0x0008 && ButtonBit(n) * 256 == 0x0800;
      LookupAt(Corrected, ButtonBit(n), 3); LookupAt(Corrected, ButtonBit(n) * 256, 9);
    case Branch =>
      assert ButtonBit(n) == 0x0010 && ButtonBit(n) * 256 == 0x1000;
      LookupAt(Corrected, ButtonBit(n), 4); LookupAt(Corrected, ButtonBit(n) * 256, 10);
    case Through =>
      assert ButtonBit(n) == 0x0020 && ButtonBit(n) * 256 == 0x2000;
      LookupAt(Corrected, ButtonBit(n), 5); LookupAt(Corrected, ButtonBit(n) * 256, 11);
  }

  /** Up and Main together from rest have no word, yet become the value
      the next change is compared with. */
  lemma UnknownComboStillRecorded()
    ensures PinsValue([false, true, false, true, true, true]) == 5
    ensures Word(AsWritten, Poll(After(Idle, 5, Settle), 5).decision) == ""
    ensures After(Idle, 5, Settle + 1).lastAnnouncedValue == 5
  {
    FourSamplesAnnounce(Idle, 5);
    assert forall i :: 0 <= i < LastRow ==> Row(AsWritten, i).value != 5;
    NoRowNoWord(AsWritten, 5);
  }

  /** Up and Down together read as "Test 1" whichever was pressed first. */
  lemma UpAndDownIsTest()
    ensures KeyWord(Test, true) == "Test 1"
    ensures Answer(Corrected, 0x03) == KeyWord(Test, true)
    ensures Answer(Corrected, 0x03 + 0x01 * 256) == KeyWord(Test, true)
    ensures Answer(Corrected, 0x03 + 0x02 * 256) == KeyWord(Test, true)
  {
    LookupAt(Corrected, 0x03, 12);
    LookupAt(Corrected, 0x103, 13);
    LookupAt(Corrected, 0x203, 14);
  }

  /** The two tables differ in one row only, so they give the same answer
      for every value except the two that row is keyed by. */
  lemma {:induction false} TablesAgreeElsewhere(v: nat, z: nat)
    requires z <= LastRow
    requires v != 0x0228 && v != 0x2028
    ensures Lookup(AsWritten, v, z) == Lookup(Corrected, v, z)
    ensures z == 0 ==> Answer(AsWritten, v) == Answer(Corrected, v)
    decreases LastRow - z
  {
    if z < LastRow && Row(AsWritten, z).value != v {
      TablesAgreeElsewhere(v, z + 1);
    }
  }

  /** As written, Goods added while Through is held matches no row, so
      nothing is reported; the row meant for it answers Through and Goods
      after Down alone instead. */
  lemma ThroughFirstUnanswered()
    ensures Answer(AsWritten, 0x28 + 0x20 * 256) == ""
    ensures Answer(AsWritten, 0x28 + 0x02 * 256) == KeyWord(Cancel, true)
  {
    assert forall i :: 0 <= i < LastRow ==> Row(AsWritten, i).value != 0x2028;
    NoRowNoWord(AsWritten, 0x2028);
    LookupAt(AsWritten, 0x228, 16);
  }

  /** With the corrected table, Through and Goods read as "Cancel 1"
      together or with either pressed first. */
  lemma CancelEitherOrder()
    ensures KeyWord(Cancel, true) == "Cancel 1"
    ensures Answer(Corrected, 0x28) == KeyWord(Cancel, true)
    ensures Answer(Corrected, 0x28 + 0x20 * 256) == KeyWord(Cancel, true)
    ensures Answer(Corrected, 0x28 + 0x08 * 256) == KeyWord(Cancel, true)
  {
    LookupAt(Corrected, 0x28, 15);
    LookupAt(Corrected, 0x2028, 16);
    LookupAt(Corrected, 0x828, 17);
  }

  /** Through held and announced, then Goods added: the source's `poll`
      returns nothing, the corrected table "Cancel 1".  With Down announced
      instead, the source's `poll` returns "Cancel 1". */
  lemma ThroughThenGoodsPolled()
    ensures var levels := [true, true, true, false, true, false];
      && ReadPins(levels) == 0x28 && KeyWord(Cancel, true) == "Cancel 1"
      && PollLevels(AsWritten, Debouncer(0x28, 2, 0x20), levels).1 == ""
      && PollLevels(Corrected, Debouncer(0x28, 2, 0x20), levels).1 == KeyWord(Cancel, true)
      && PollLevels(AsWritten, Debouncer(0x28, 2, 0x02), levels).1 == KeyWord(Cancel, true)
  {
    var levels := [true, true, true, false, true, false];
    assert PinsValue(levels) == 0x28;
    assert Poll(Debouncer(0x28, 2, 0x20), 0x28).decision == Announce(0x2028);
    assert Poll(Debouncer(0x28, 2, 0x02), 0x28).decision == Announce(0x0228);
    ThroughFirstUnanswered();
    CancelEitherOrder();
  }
}
