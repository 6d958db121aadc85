/** The RFID frame assembler of one serial port (WillsIO.cpp:29-100).

    A tag reader sends STX (0x02), twelve ASCII characters and some trailing
    control characters.  The assembler waits for STX, then collects
    characters until it has twelve or sees one below '0'; it then hands the
    collected text back, with "**Error" added if the frame was short, and
    waits for the next STX.  The UART is modelled as the sequence of bytes
    available when `poll()` is called. */
module Rfid {
  import opened Bytes

  /** Start of frame. */
  const Stx: Byte := 0x02

  /** Characters in a complete frame. */
  const FrameLength := 12

  /** `charsRead` value while waiting for STX. */
  const NotStarted := 0xFF

  /** Characters below '0' end a frame early. */
  const LowestData: Byte := 0x30

  const ErrorSuffix := "**Error"

  datatype Assembler = Assembler(charsRead: nat, buildString: string)

  /** `RFID::init()` for a port 0..3. */
  const Idle := Assembler(NotStarted, "")

  /** Waiting for STX with nothing collected, or part way through a frame
      with one collected character per count. */
  predicate Valid(a: Assembler)
  {
    || a == Idle
    || (a.charsRead < FrameLength && |a.buildString| == a.charsRead)
  }

  /** `char(val)`. */
  function AsChar(b: Byte): (c: char)
    ensures c as int == b as int
  {
    (b as int) as char
  }

  function AsString(bs: seq<Byte>): (s: string)
    ensures |s| == |bs|
    ensures forall i :: 0 <= i < |bs| ==> s[i] == AsChar(bs[i])
  {
    seq(|bs|, i requires 0 <= i < |bs| => AsChar(bs[i]))
  }

  datatype Stepped = Stepped(assembler: Assembler, frame: string, done: bool)

  /** One pass of the loop in `RFID::poll()` on the byte `val`. */
  function Step(a: Assembler, val: Byte): (r: Stepped)
    requires Valid(a)
    ensures Valid(r.assembler)
    ensures a == Idle ==> !r.done && (r.assembler == Idle <==> val != Stx)
    ensures a == Idle && val == Stx ==> r.assembler == Assembler(0, "")
    ensures a != Idle && !r.done ==>
      r.assembler == Assembler(a.charsRead + 1, a.buildString + [AsChar(val)])
    ensures a != Idle ==> (r.done <==> a.charsRead + 1 == FrameLength || val < LowestData)
    ensures r.done ==> r.assembler == Idle
    ensures r.done ==>
      r.frame == a.buildString + [AsChar(val)] + (if a.charsRead + 1 < FrameLength then ErrorSuffix else "")
    ensures !r.done ==> r.frame == ""
    ensures r.done ==> r.frame != ""
  {
    if a.charsRead == NotStarted then
      if val == Stx then Stepped(Assembler(0, ""), "", false)
      else Stepped(a, "", false)
    else
      var built := a.buildString + [AsChar(val)];
      var count := a.charsRead + 1;
      if count == FrameLength || val < LowestData then
        var result := if count < FrameLength then built + ErrorSuffix else built;
        Stepped(Idle, result, true)
      else
        Stepped(Assembler(count, built), "", false)
  }

  datatype Polled = Polled(assembler: Assembler, frame: string, rest: seq<Byte>)

  /** `RFID::poll()` on the bytes waiting in the UART: it reads until a
      frame ends, leaving the remaining bytes for the next call, or until
      the UART is empty, returning "". */
  function Poll(a: Assembler, input: seq<Byte>): (r: Polled)
    requires Valid(a)
    ensures Valid(r.assembler)
    ensures |r.rest| <= |input| && r.rest == input[|input| - |r.rest|..]
    ensures r.frame == "" ==> r.rest == []
    ensures r.frame != "" ==> r.assembler == Idle
    decreases |input|
  {
    if input == [] then Polled(a, "", [])
    else
      var s := Step(a, input[0]);
      if s.done then Polled(s.assembler, s.frame, input[1..])
      else Poll(s.assembler, input[1..])
  }

  // ---------------------------------------------------------------------
  // Framing properties
  // ---------------------------------------------------------------------

  /** Data characters that do not end a frame early. */
  predicate DataBytes(d: seq<Byte>)
  {
    forall i :: 0 <= i < |d| ==> d[i] >= LowestData
  }

  /** Converting a first byte, then the rest. */
  lemma AsStringCons(prefix: string, d: seq<Byte>)
    requires d != []
    ensures prefix + [AsChar(d[0])] + AsString(d[1..]) == prefix + AsString(d)
  {
    assert [AsChar(d[0])] + AsString(d[1..]) == AsString(d);
  }

  /** Collecting data characters part way through a frame appends them. */
  lemma {:induction false} Collect(a: Assembler, d: seq<Byte>, tail: seq<Byte>)
    requires a != Idle && Valid(a) && DataBytes(d)
    requires a.charsRead + |d| < FrameLength
    ensures Poll(a, d + tail)
      == Poll(Assembler(a.charsRead + |d|, a.buildString + AsString(d)), tail)
    decreases |d|
  {
    if d != [] {
      var s := Step(a, d[0]);
      assert !s.done && s.assembler == Assembler(a.charsRead + 1, a.buildString + [AsChar(d[0])]);
      assert (d + tail)[0] == d[0];
      assert (d + tail)[1..] == d[1..] + tail;
      assert Poll(a, d + tail) == Poll(s.assembler, d[1..] + tail);
      Collect(s.assembler, d[1..], tail);
      AsStringCons(a.buildString, d);
    } else {
      assert d + tail == tail;
      assert AsString(d) == [];
      assert a.buildString + AsString(d) == a.buildString;
    }
  }

  /** STX, twelve data characters and anything after: the twelve characters
      come back as the frame, the assembler waits for the next STX, and the
      bytes after the frame stay in the UART. */
  lemma FrameRoundTrip(d: seq<Byte>, tail: seq<Byte>)
    requires |d| == FrameLength && DataBytes(d)
    ensures Poll(Idle, [Stx] + d + tail) == Polled(Idle, AsString(d), tail)
  {
    var start := Assembler(0, "");
    var input := [Stx] + d + tail;
    var head := d[..FrameLength - 1];
    var last := [d[FrameLength - 1]] + tail;
    assert input[0] == Stx;
    assert input[1..] == head + last;
    assert Poll(Idle, input) == Poll(start, head + last);
    Collect(start, head, last);
    var almost := Assembler(FrameLength - 1, AsString(head));
    assert Poll(start, head + last) == Poll(almost, last);
    assert last[0] == d[FrameLength - 1] && last[1..] == tail;
    assert Step(almost, d[FrameLength - 1]).frame == AsString(head) + [AsChar(d[FrameLength - 1])];
    assert AsString(head) + [AsChar(d[FrameLength - 1])] == AsString(d);
  }

  /** A character below '0' after fewer than eleven data characters ends
      the frame early: the text so far, that character and "**Error". */
  lemma ShortFrameFlagged(d: seq<Byte>, t: Byte, tail: seq<Byte>)
    requires |d| < FrameLength - 1 && DataBytes(d) && t < LowestData
    ensures Poll(Idle, [Stx] + d + [t] + tail)
      == Polled(Idle, AsString(d) + [AsChar(t)] + ErrorSuffix, tail)
  {
    var input := [Stx] + d + [t] + tail;
    assert input[1..] == d + ([t] + tail);
    Collect(Assembler(0, ""), d, [t] + tail);
    assert ([t] + tail)[1..] == tail;
  }

  /** While waiting for STX, every other byte is thrown away. */
  lemma {:induction false} IdleDiscards(junk: seq<Byte>, more: seq<Byte>)
    requires forall i :: 0 <= i < |junk| ==> junk[i] != Stx
    ensures Poll(Idle, junk + more) == Poll(Idle, more)
    decreases |junk|
  {
    if junk != [] {
      assert (junk + more)[0] == junk[0];
      assert (junk + more)[1..] == junk[1..] + more;
      IdleDiscards(junk[1..], more);
    } else {
      assert junk + more == more;
    }
  }

  /** Bytes that arrive across several polls assemble as if they had
      arrived together: a poll that ends without a frame leaves its partial
      frame for the next. */
  lemma {:induction false} SplitInvariance(a: Assembler, first: seq<Byte>, second: seq<Byte>)
    requires Valid(a)
    ensures Poll(a, first).frame == "" ==>
      Poll(Poll(a, first).assembler, second) == Poll(a, first + second)
    decreases |first|
  {
    if first == [] {
      assert first + second == second;
    } else {
      var s := Step(a, first[0]);
      assert (first + second)[0] == first[0];
      assert (first + second)[1..] == first[1..] + second;
      if !s.done {
        assert Poll(a, first) == Poll(s.assembler, first[1..]);
        assert Poll(a, first + second) == Poll(s.assembler, first[1..] + second);
        SplitInvariance(s.assembler, first[1..], second);
      }
    }
  }

  /** Every frame handed back is either exactly twelve characters or
      marked as an error. */
  lemma {:induction false} FrameShape(a: Assembler, input: seq<Byte>)
    requires Valid(a)
    ensures var f := Poll(a, input).frame;
      f == "" || |f| == FrameLength
      || (|f| > |ErrorSuffix| && f[|f| - |ErrorSuffix|..] == ErrorSuffix)
    decreases |input|
  {
    if input != [] {
      var s := Step(a, input[0]);
      if !s.done {
        FrameShape(s.assembler, input[1..]);
      } else if a.charsRead + 1 < FrameLength {
        var built := a.buildString + [AsChar(input[0])];
        assert s.frame == built + ErrorSuffix;
        assert s.frame[|s.frame| - |ErrorSuffix|..] == ErrorSuffix;
      }
    }
  }
}
