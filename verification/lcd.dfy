/** The two-line message display (WillsIO.cpp:673-750).

    `Display::out(text)` scrolls: each '|'-separated piece of the text is
    written to the bottom row, and before it the previous bottom row is
    copied to the top row.  Rows are 16 characters, padded with spaces or
    cut.  A text ending in '!' also sounds the beeper, and a text starting
    with '$' overwrites the bottom row in place when the bottom row also
    starts with '$'. */
module Lcd {

  /** Characters per row. */
  const Width := 16

  const Bar := '|'
  const Dollar := '$'
  const Bang := '!'

  /** What was last written to the bottom row. */
  datatype Display = Display(bottomLine: string)

  /** `Display::init`: the bottom row starts as ten spaces. */
  const Initial := Display("          ")

  /** A row write: row 0 is the top row, row 1 the bottom row. */
  datatype LcdWrite = LcdWrite(row: nat, text: string)

  datatype Shown = Shown(display: Display, writes: seq<LcdWrite>, beep: bool)

  /** `(s + "                 ").substring(0, 16)`. */
  function Pad(s: string): (p: string)
    ensures |p| == Width
    ensures forall i :: 0 <= i < Width ==> p[i] == if i < |s| then s[i] else ' '
  {
    (s + "                 ")[..Width]
  }

  /** `s.indexOf(c)`: the first position of c, or -1. */
  function IndexOf(s: string, c: char): (i: int)
    ensures -1 <= i < |s|
    ensures i >= 0 ==> s[i] == c
    ensures forall j :: 0 <= j < |s| && (i < 0 || j < i) ==> s[j] != c
    decreases |s|
  {
    if s == [] then -1
    else if s[0] == c then 0
    else
      var k := IndexOf(s[1..], c);
      if k < 0 then -1 else k + 1
  }

  predicate StartsWith(s: string, c: char)
  {
    |s| > 0 && s[0] == c
  }

  // ---------------------------------------------------------------------
  // Reference definition
  // ---------------------------------------------------------------------

  /** The pieces the text is cut into at each '|'; a final empty piece (text
      ending in '|') is not shown. */
  function Segments(t: string): (segs: seq<string>)
    ensures forall k :: 0 <= k < |segs| ==> IndexOf(segs[k], Bar) < 0
    decreases |t|
  {
    if t == [] then []
    else
      var i := IndexOf(t, Bar);
      if i < 0 then [t] else [t[..i]] + Segments(t[i + 1..])
  }

  /** The writes for the pieces, given what the bottom row showed before. */
  function Render(bottom: string, segs: seq<string>, noLF: bool): (w: seq<LcdWrite>)
    ensures |w| == if noLF then |segs| else 2 * |segs|
    ensures forall k :: 0 <= k < |w| ==> |w[k].text| == Width
    ensures noLF ==> forall k :: 0 <= k < |w| ==> w[k].row == 1
    decreases |segs|
  {
    if segs == [] then []
    else
      var top := if noLF then [] else [LcdWrite(0, Pad(bottom))];
      top + [LcdWrite(1, Pad(segs[0]))] + Render(segs[0], segs[1..], noLF)
  }

  /** The bottom row after showing the pieces. */
  function LastShown(bottom: string, segs: seq<string>): string
  {
    if segs == [] then bottom else segs[|segs| - 1]
  }

  // ---------------------------------------------------------------------
  // Display::out
  // ---------------------------------------------------------------------

  /** The first piece of a non-empty text, and what follows its '|'. */
  lemma SegmentsStep(t: string)
    requires t != []
    ensures IndexOf(t, Bar) >= 0 ==>
      Segments(t) == [t[..IndexOf(t, Bar)]] + Segments(t[IndexOf(t, Bar) + 1..])
    ensures IndexOf(t, Bar) < 0 ==> Segments(t) == [t] + Segments("")
  {
  }

  /** Showing a first piece, then the rest. */
  lemma RenderStep(bottom: string, piece: string, segs: seq<string>, noLF: bool)
    ensures Render(bottom, [piece] + segs, noLF)
      == (if noLF then [] else [LcdWrite(0, Pad(bottom))]) + [LcdWrite(1, Pad(piece))]
         + Render(piece, segs, noLF)
    ensures LastShown(bottom, [piece] + segs) == LastShown(piece, segs)
  {
    assert ([piece] + segs)[1..] == segs;
  }

  lemma Regroup<T>(a: seq<T>, b: seq<T>, c: seq<T>, e: seq<T>)
    ensures a + b + c + e == a + (b + c + e)
  {
  }

  /** `Display::out(text)`: the loop of the source, which consumes the text
      piece by piece. */
  method Out(d: Display, text: string) returns (r: Shown)
    ensures r.beep <==> |text| > 0 && text[|text| - 1] == Bang
    ensures var noLF := StartsWith(text, Dollar) && StartsWith(d.bottomLine, Dollar);
      r.writes == Render(d.bottomLine, Segments(text), noLF)
    ensures r.display.bottomLine == LastShown(d.bottomLine, Segments(text))
  {
    var beep := |text| > 0 && text[|text| - 1] == Bang;
    var noLF := StartsWith(text, Dollar) && StartsWith(d.bottomLine, Dollar);
    var temp := text;
    var bottom := d.bottomLine;
    var writes: seq<LcdWrite> := [];
    while |temp| > 0
      invariant writes + Render(bottom, Segments(temp), noLF)
        == Render(d.bottomLine, Segments(text), noLF)
      invariant LastShown(bottom, Segments(temp)) == LastShown(d.bottomLine, Segments(text))
      decreases |temp|
    {
      var top := if noLF then [] else [LcdWrite(0, Pad(bottom))];
      var nlPos := IndexOf(temp, Bar);
      var piece: string;
      var rest: string;
      if nlPos > -1 {
        piece := temp[..nlPos];
        rest := temp[nlPos + 1..];
      } else {
        piece := temp;
        rest := "";
      }
      SegmentsStep(temp);
      assert Segments(temp) == [piece] + Segments(rest);
      RenderStep(bottom, piece, Segments(rest), noLF);
      ghost var tail := Render(piece, Segments(rest), noLF);
      Regroup(writes, top, [LcdWrite(1, Pad(piece))], tail);
      writes := writes + top + [LcdWrite(1, Pad(piece))];
      bottom := piece;
      temp := rest;
    }
    r := Shown(Display(bottom), writes, beep);
  }

  // ---------------------------------------------------------------------
  // Properties
  // ---------------------------------------------------------------------

  /** The pieces joined again with '|'. */
  function Join(segs: seq<string>): (t: string)
    decreases |segs|
  {
    if segs == [] then ""
    else if |segs| == 1 then segs[0]
    else segs[0] + [Bar] + Join(segs[1..])
  }

  lemma IndexOfAppend(a: string, b: string)
    requires IndexOf(a, Bar) < 0
    ensures IndexOf(a + [Bar] + b, Bar) == |a|
  {
    var t := a + [Bar] + b;
    assert t[|a|] == Bar;
    assert forall j :: 0 <= j < |a| ==> t[j] == a[j];
  }

  /** A sequence is what comes before position i, the element there, and
      what follows. */
  lemma CutAt<T>(s: seq<T>, i: nat)
    requires i < |s|
    ensures s == s[..i] + [s[i]] + s[i + 1..]
  {
    assert s[i..] == [s[i]] + s[i + 1..];
    assert s == s[..i] + s[i..];
  }

  /** Dropping a proper prefix keeps the last element. */
  lemma LastOfDrop<T>(s: seq<T>, n: nat)
    requires n < |s|
    ensures s[n..] != [] && s[n..][|s[n..]| - 1] == s[|s| - 1]
  {
  }

  /** A non-empty text has at least one piece. */
  lemma SegmentsNonEmpty(t: string)
    requires t != []
    ensures Segments(t) != []
  {
  }

  /** Joining a first piece in front of one or more pieces. */
  lemma JoinCons(a: string, segs: seq<string>)
    requires segs != []
    ensures Join([a] + segs) == a + [Bar] + Join(segs)
  {
    assert ([a] + segs)[1..] == segs;
  }

  /** Joining the pieces of a text with a '|' before its last character:
      the first piece, the '|', and the joined pieces of the rest. */
  lemma JoinCut(t: string, i: nat)
    requires i == IndexOf(t, Bar) && i < |t| - 1
    ensures Join(Segments(t)) == t[..i] + [Bar] + Join(Segments(t[i + 1..]))
  {
    var segs := Segments(t[i + 1..]);
    assert Segments(t) == [t[..i]] + segs by { SegmentsStep(t); }
    assert segs != [] by { SegmentsNonEmpty(t[i + 1..]); }
    JoinCons(t[..i], segs);
  }

  /** Cutting a text and joining the pieces gives the text back, unless it
      ended in '|', which the display drops. */
  lemma {:induction false} JoinSegments(t: string)
    requires !(|t| > 0 && t[|t| - 1] == Bar)
    ensures Join(Segments(t)) == t
    decreases |t|
  {
    if t != [] {
      var i := IndexOf(t, Bar);
      if i >= 0 {
        var rest := t[i + 1..];
        assert i != |t| - 1;
        LastOfDrop(t, i + 1);
        JoinCut(t, i);
        JoinSegments(rest);
        CutAt(t, i);
      } else {
        SegmentsStep(t);
        assert Segments(t) == [t];
      }
    }
  }

  /** Pieces without '|', the last one not empty, survive joining and
      cutting again. */
  lemma {:induction false} SegmentsJoin(segs: seq<string>)
    requires forall k :: 0 <= k < |segs| ==> IndexOf(segs[k], Bar) < 0
    requires segs != [] ==> segs[|segs| - 1] != ""
    ensures Segments(Join(segs)) == segs
    decreases |segs|
  {
    if |segs| == 1 {
      assert Join(segs) == segs[0];
      SegmentsStep(segs[0]);
      assert Segments(segs[0]) == [segs[0]];
      assert segs == [segs[0]];
    } else if |segs| > 1 {
      var rest := Join(segs[1..]);
      var t := segs[0] + [Bar] + rest;
      assert Join(segs) == t;
      IndexOfAppend(segs[0], rest);
      assert t[|segs[0]| + 1..] == rest;
      assert t[..|segs[0]|] == segs[0];
      SegmentsStep(t);
      SegmentsJoin(segs[1..]);
      assert Segments(t) == [segs[0]] + segs[1..];
      assert [segs[0]] + segs[1..] == segs;
    }
  }

  /** Written in place, piece k goes to the bottom row as write k. */
  lemma {:induction false} RenderWritesInPlace(bottom: string, segs: seq<string>)
    ensures var w := Render(bottom, segs, true);
      forall k :: 0 <= k < |segs| ==> w[k] == LcdWrite(1, Pad(segs[k]))
    decreases |segs|
  {
    if segs != [] {
      RenderWritesInPlace(segs[0], segs[1..]);
      var w := Render(bottom, segs, true);
      var rest := Render(segs[0], segs[1..], true);
      assert w == [LcdWrite(1, Pad(segs[0]))] + rest;
      forall k | 1 <= k < |segs|
        ensures w[k] == LcdWrite(1, Pad(segs[k]))
      {
        assert w[k] == rest[k - 1];
        assert segs[1..][k - 1] == segs[k];
      }
    }
  }

  /** Scrolling, piece k goes to the bottom row as write 2k + 1, after the
      bottom row as it was before (the previous piece, or the old bottom
      line for the first piece) is copied to the top row as write 2k. */
  lemma {:induction false} RenderWritesScrolling(bottom: string, segs: seq<string>)
    ensures var w := Render(bottom, segs, false);
      forall k :: 0 <= k < |segs| ==>
        && w[2 * k] == LcdWrite(0, Pad(LastShown(bottom, segs[..k])))
        && w[2 * k + 1] == LcdWrite(1, Pad(segs[k]))
    decreases |segs|
  {
    if segs != [] {
      RenderWritesScrolling(segs[0], segs[1..]);
      var w := Render(bottom, segs, false);
      var rest := Render(segs[0], segs[1..], false);
      assert w == [LcdWrite(0, Pad(bottom)), LcdWrite(1, Pad(segs[0]))] + rest;
      assert segs[..0] == [];
      forall k | 1 <= k < |segs|
        ensures w[2 * k] == LcdWrite(0, Pad(LastShown(bottom, segs[..k])))
        ensures w[2 * k + 1] == LcdWrite(1, Pad(segs[k]))
      {
        assert w[2 * k] == rest[2 * (k - 1)];
        assert w[2 * k + 1] == rest[2 * (k - 1) + 1];
        assert segs[1..][k - 1] == segs[k];
        assert LastShown(segs[0], segs[1..][..k - 1]) == LastShown(bottom, segs[..k]);
      }
    }
  }

  /** A '$' message following a '$' message rewrites the bottom row in
      place, piece by piece; any other message scrolls the top row before
      every piece. */
  lemma InPlaceUpdate(d: Display, text: string)
    ensures var noLF := StartsWith(text, Dollar) && StartsWith(d.bottomLine, Dollar);
      var segs := Segments(text);
      var w := Render(d.bottomLine, segs, noLF);
      && (noLF ==> forall k :: 0 <= k < |segs| ==> w[k] == LcdWrite(1, Pad(segs[k])))
      && (!noLF ==> forall k :: 0 <= k < |segs| ==> w[2 * k].row == 0 && w[2 * k + 1] == LcdWrite(1, Pad(segs[k])))
  {
    RenderWritesInPlace(d.bottomLine, Segments(text));
    RenderWritesScrolling(d.bottomLine, Segments(text));
  }

  /** Two lines in one message: the old bottom row moves up, the first line
      shows below it, then the first line moves up and the second line shows
      below it. */
  lemma TwoLines(d: Display, a: string, b: string)
    requires IndexOf(a, Bar) < 0 && IndexOf(b, Bar) < 0 && b != ""
    requires !StartsWith(d.bottomLine, Dollar)
    ensures Render(d.bottomLine, Segments(a + [Bar] + b), false)
      == [LcdWrite(0, Pad(d.bottomLine)), LcdWrite(1, Pad(a)), LcdWrite(0, Pad(a)), LcdWrite(1, Pad(b))]
    ensures LastShown(d.bottomLine, Segments(a + [Bar] + b)) == b
  {
    SegmentsJoin([a, b]);
    assert Join([a, b]) == a + [Bar] + b;
  }
}
