/**
 * Colouring of one diff line (`MultiDiff.colorize`) and of the report header
 * (`MultiDiff.color_line`). A coloured line is a token sequence: the line's
 * characters in order with colour and reset tokens interleaved.
 */
module Colouring {
  import opened Ansi
  import opened Strings
  import opened Squiglies

  function Min(a: int, b: int): int
  {
    if a <= b then a else b
  }

  /**
   * `color_map`: the colour a marker stands for. A caret is green under an
   * added (`+`) line and red otherwise; `-` is red and `+` green whatever the
   * line; any other marker has no colour.
   */
  function MarkerInk(line: string, m: char): Ink
  {
    if m == Hat then Coloured(if StartsWith(line, Plus) then GreenBack else RedBack)
    else if m == Minus then Coloured(RedBack)
    else if m == Plus then Coloured(GreenBack)
    else Default
  }

  function PaintFor(ink: Ink): seq<Tok>
  {
    match ink
    case Default => []
    case Coloured(c) => [Paint(c)]
  }

  /** The marker of the column before column `i` (a blank before column 0). */
  function Flag(squigly: string, i: nat): char
    requires i <= |squigly|
  {
    if i == 0 then Space else squigly[i - 1]
  }

  /** Tokens placed before column `i`: where the marker changes, a reset and the new marker's colour. */
  function Marks(line: string, squigly: string, i: nat): seq<Tok>
    requires i < |squigly|
  {
    if squigly[i] != Flag(squigly, i) then [EndColour] + PaintFor(MarkerInk(line, squigly[i])) else []
  }

  /** Column `i` of the coloured line: its marks, then the line's character if the line reaches that far. */
  function Column(line: string, squigly: string, i: nat): seq<Tok>
    requires i < |squigly|
  {
    Marks(line, squigly, i) + (if i < |line| then [Ch(line[i])] else [])
  }

  /** Columns `0 .. i-1` of the coloured line. */
  function Prefix(line: string, squigly: string, i: nat): (r: seq<Tok>)
    requires i <= |squigly|
    ensures |r| >= Min(i, |line|)
  {
    if i == 0 then [] else Prefix(line, squigly, i - 1) + Column(line, squigly, i - 1)
  }

  /** The remainder of the line after the first `i` columns. */
  function Rest(line: string, i: nat): seq<Tok>
  {
    Plain(line[Min(i, |line|)..])
  }

  /**
   * The coloured line. Uncoloured mode leaves it alone. With a squigly, the
   * columns it covers carry their markers' colours, a reset follows the last
   * of them and the rest of the line is plain. Without one, the whole line is
   * painted in the colour of its first character and reset at the end.
   */
  function Colorized(line: string, squigly: string, colored: bool): seq<Tok>
    requires colored && squigly == [] ==> line != []
  {
    if !colored then Plain(line)
    else if squigly != [] then
      Prefix(line, squigly, |squigly|) + [EndColour] + Rest(line, |squigly|)
    else PaintFor(MarkerInk(line, line[0])) + Plain(line) + [EndColour]
  }

  /** Python's `list.insert(i, t)` for `i >= 0`: past the end it appends. */
  function Insert(s: seq<Tok>, i: int, t: Tok): (r: seq<Tok>)
    requires i >= 0
    ensures |r| == |s| + 1
  {
    if i >= |s| then s + [t] else s[..i] + [t] + s[i..]
  }

  /** Inserting at the seam between `p` and `rest`, or anywhere past the end when `rest` is empty. */
  lemma InsertAtSeam(p: seq<Tok>, rest: seq<Tok>, i: int, t: Tok)
    requires i == |p| || (rest == [] && i >= |p|)
    ensures i >= 0
    ensures Insert(p + rest, i, t) == p + [t] + rest
  {
    if i < |p + rest| {
      assert (p + rest)[..i] == p && (p + rest)[i..] == rest;
    }
  }

  /** A reset, then a colour, inserted one after the other at the seam. */
  lemma InsertTwoAtSeam(p: seq<Tok>, rest: seq<Tok>, i: int, c: Colour)
    requires i == |p| || (rest == [] && i >= |p|)
    ensures i >= 0
    ensures Insert(p + rest, i, EndColour) == p + [EndColour] + rest
    ensures Insert(p + [EndColour] + rest, i + 1, Paint(c)) == p + [EndColour, Paint(c)] + rest
  {
    InsertAtSeam(p, rest, i, EndColour);
    InsertAtSeam(p + [EndColour], rest, i + 1, Paint(c));
    assert p + [EndColour] + [Paint(c)] == p + [EndColour, Paint(c)];
  }

  /** Dropping the next character of the line from the rest. */
  lemma RestStep(line: string, i: nat)
    ensures Rest(line, i) == (if i < |line| then [Ch(line[i])] else []) + Rest(line, i + 1)
  {
    if i < |line| {
      assert Plain(line[i..]) == [Ch(line[i])] + Plain(line[i + 1..]);
    } else {
      assert Plain(line[|line|..]) == [];
    }
  }

  lemma Regroup(p: seq<Tok>, m: seq<Tok>, cell: seq<Tok>, rest: seq<Tok>)
    ensures p + (m + cell) + rest == p + m + (cell + rest)
  {
  }

  /** One column: its marks go between the columns done and the rest of the line. */
  lemma ColumnStep(line: string, squigly: string, i: nat)
    requires i < |squigly|
    ensures Prefix(line, squigly, i + 1) + Rest(line, i + 1) ==
            Prefix(line, squigly, i) + Marks(line, squigly, i) + Rest(line, i)
  {
    var cell := if i < |line| then [Ch(line[i])] else [];
    RestStep(line, i);
    assert Prefix(line, squigly, i + 1) == Prefix(line, squigly, i) + (Marks(line, squigly, i) + cell);
    Regroup(Prefix(line, squigly, i), Marks(line, squigly, i), cell, Rest(line, i + 1));
  }

  /**
   * A reset, then the colour of `ink` if it has one, inserted where the
   * columns done meet the rest of the line (or anywhere past the end once
   * the line is used up).
   */
  lemma SeamInserts(p: seq<Tok>, rest: seq<Tok>, pos: int, ink: Ink)
    requires pos == |p| || (rest == [] && pos >= |p|)
    ensures pos >= 0
    ensures ink.Coloured? ==>
            Insert(Insert(p + rest, pos, EndColour), pos + 1, Paint(ink.colour)) ==
            p + ([EndColour] + PaintFor(ink)) + rest
    ensures ink == Default ==> Insert(p + rest, pos, EndColour) == p + ([EndColour] + PaintFor(ink)) + rest
  {
    if ink.Coloured? {
      InsertTwoAtSeam(p, rest, pos, ink.colour);
    } else {
      InsertAtSeam(p, rest, pos, EndColour);
    }
  }

  /** The inserts of `colorize` for one column whose marker repeats the previous one: none. */
  lemma ColumnSame(line: string, squigly: string, i: nat)
    requires i < |squigly| && squigly[i] == Flag(squigly, i)
    ensures Prefix(line, squigly, i + 1) + Rest(line, i + 1) == Prefix(line, squigly, i) + Rest(line, i)
  {
    ColumnStep(line, squigly, i);
    assert Prefix(line, squigly, i) + Marks(line, squigly, i) == Prefix(line, squigly, i);
  }

  /**
   * The inserts of `colorize` for one column whose marker differs from the
   * previous one: a reset, and the marker's colour if it has one, at the
   * column plus the number of tokens inserted before it.
   */
  lemma ColumnChange(line: string, squigly: string, i: nat, offset: int)
    requires i < |squigly| && squigly[i] != Flag(squigly, i)
    requires offset == |Prefix(line, squigly, i)| + |Rest(line, i)| - |line|
    ensures i + offset >= 0
    ensures MarkerInk(line, squigly[i]) == Default ==>
            Prefix(line, squigly, i + 1) + Rest(line, i + 1) ==
            Insert(Prefix(line, squigly, i) + Rest(line, i), i + offset, EndColour)
    ensures MarkerInk(line, squigly[i]).Coloured? ==>
            Prefix(line, squigly, i + 1) + Rest(line, i + 1) ==
            Insert(Insert(Prefix(line, squigly, i) + Rest(line, i), i + offset, EndColour),
                   i + offset + 1, Paint(MarkerInk(line, squigly[i]).colour))
  {
    ColumnStep(line, squigly, i);
    SeamInserts(Prefix(line, squigly, i), Rest(line, i), i + offset, MarkerInk(line, squigly[i]));
  }

  /** Before the first column, nothing is done and the whole line is left. */
  lemma ColumnsStart(line: string, squigly: string)
    ensures Plain(line) == Prefix(line, squigly, 0) + Rest(line, 0)
  {
    assert line[0..] == line;
  }

  /** The markers `colorize` gives a colour to. */
  lemma ColouredMarkers(line: string, c: char)
    ensures MarkerInk(line, c).Coloured? <==> c == Hat || c == Minus || c == Plus
  {
  }

  /** Python's `insert(0, t)` on a list. */
  lemma InsertFront(s: seq<Tok>, t: Tok)
    ensures Insert(s, 0, t) == [t] + s
  {
    if s != [] {
      assert s[..0] == [] && s[0..] == s;
    }
  }

  /** The final reset goes right after the last column of the squigly. */
  lemma FinalInsert(line: string, squigly: string, chars: seq<Tok>, offset: int)
    requires chars == Prefix(line, squigly, |squigly|) + Rest(line, |squigly|)
    requires offset == |chars| - |line|
    ensures |squigly| + offset >= 0
    ensures Insert(chars, |squigly| + offset, EndColour) ==
            Prefix(line, squigly, |squigly|) + [EndColour] + Rest(line, |squigly|)
  {
    var n := |squigly|;
    if n <= |line| {
      assert |Rest(line, n)| == |line| - n;
    } else {
      assert Rest(line, n) == [];
    }
    InsertAtSeam(Prefix(line, squigly, n), Rest(line, n), n + offset, EndColour);
  }

  /**
   * The inserts of `colorize` where the marker changes at column `i`: a
   * reset, then the marker's colour if it is `^`, `-` or `+`.
   */
  method MarkChange(line: string, squigly: string, i: nat, chars: seq<Tok>, offset: int)
    returns (r: seq<Tok>, offset': int)
    requires i < |squigly| && squigly[i] != Flag(squigly, i)
    requires chars == Prefix(line, squigly, i) + Rest(line, i) && offset == |chars| - |line|
    ensures r == Prefix(line, squigly, i + 1) + Rest(line, i + 1) && offset' == |r| - |line|
  {
    var c := squigly[i];
    ColouredMarkers(line, c);
    ColumnChange(line, squigly, i, offset);
    r := Insert(chars, i + offset, EndColour);
    offset' := offset + 1;
    if c == Hat || c == Minus || c == Plus {
      r := Insert(r, i + offset', Paint(MarkerInk(line, c).colour));
      offset' := offset' + 1;
    }
  }

  /**
   * `colorize`: walks the squigly, inserting a reset and a colour into the
   * list of characters wherever the marker changes, with `offset` counting
   * the tokens inserted so far; then a final reset.
   */
  method Colorize(line: string, squigly: string, colored: bool) returns (out: seq<Tok>)
    requires colored && squigly == [] ==> line != []
    ensures out == Colorized(line, squigly, colored)
  {
    if !colored {
      return Plain(line);
    }
    var chars := Plain(line);
    var flag := Space;
    var offset := 0;
    if squigly != [] {
      var i := 0;
      ColumnsStart(line, squigly);
      while i < |squigly|
        invariant 0 <= i <= |squigly|
        invariant flag == Flag(squigly, i)
        invariant chars == Prefix(line, squigly, i) + Rest(line, i)
        invariant offset == |chars| - |line|
      {
        var c := squigly[i];
        ColouredMarkers(line, c);
        if c != flag {
          chars, offset := MarkChange(line, squigly, i, chars, offset);
          flag := c;
        } else {
          ColumnSame(line, squigly, i);
        }
        i := i + 1;
      }
      FinalInsert(line, squigly, chars, offset);
      chars := Insert(chars, |squigly| + offset, EndColour);
    } else {
      var ink := MarkerInk(line, line[0]);
      if ink.Coloured? {
        InsertFront(chars, Paint(ink.colour));
        chars := Insert(chars, 0, Paint(ink.colour));
      }
      chars := chars + [EndColour];
    }
    out := chars;
  }

  lemma PaintForMeaning(ink: Ink, start: Ink)
    ensures Chars(PaintFor(ink)) == []
    ensures Painted(PaintFor(ink), start) == []
    ensures InkAfter(PaintFor(ink), start) == if ink.Coloured? then ink else start
  {
    if ink.Coloured? {
      OneTok(Paint(ink.colour), start);
    }
  }

  /** Marks print nothing; they switch to the new marker's colour where the marker changes. */
  lemma MarksMeaning(line: string, squigly: string, k: nat, ink: Ink)
    requires k < |squigly|
    ensures Chars(Marks(line, squigly, k)) == []
    ensures Painted(Marks(line, squigly, k), ink) == []
    ensures InkAfter(Marks(line, squigly, k), ink) ==
            if squigly[k] != Flag(squigly, k) then MarkerInk(line, squigly[k]) else ink
  {
    if squigly[k] != Flag(squigly, k) {
      var m := MarkerInk(line, squigly[k]);
      OneTok(EndColour, ink);
      PaintForMeaning(m, Default);
      Compose([EndColour], PaintFor(m), ink, [], Default, [], [], m, []);
    }
  }

  /** Column `k` shows the line's character `k`, if any, in the colour of marker `k`. */
  lemma ColumnMeaning(line: string, squigly: string, k: nat)
    requires k < |squigly|
    ensures Chars(Column(line, squigly, k)) == if k < |line| then [line[k]] else []
    ensures InkAfter(Column(line, squigly, k), MarkerInk(line, Flag(squigly, k))) ==
            MarkerInk(line, squigly[k])
    ensures Painted(Column(line, squigly, k), MarkerInk(line, Flag(squigly, k))) ==
            if k < |line| then [(line[k], MarkerInk(line, squigly[k]))] else []
  {
    var ink := MarkerInk(line, Flag(squigly, k));
    var after := MarkerInk(line, squigly[k]);
    var marks := Marks(line, squigly, k);
    MarksMeaning(line, squigly, k, ink);
    if k < |line| {
      OneTok(Ch(line[k]), after);
      Compose(marks, [Ch(line[k])], ink, [], after, [], [line[k]], after, [(line[k], after)]);
      assert Column(line, squigly, k) == marks + [Ch(line[k])];
    } else {
      assert Column(line, squigly, k) == marks;
    }
  }

  /** The cells `0 .. n-1` of a line, each in the colour of its marker. */
  function MarkedCells(line: string, squigly: string, n: nat): seq<(char, Ink)>
    requires n <= |line| && n <= |squigly|
  {
    seq(n, j requires 0 <= j < n => (line[j], MarkerInk(line, squigly[j])))
  }

  lemma CellsStep(line: string, squigly: string, k: nat)
    requires k < |squigly|
    ensures line[..Min(k, |line|)] + (if k < |line| then [line[k]] else []) ==
            line[..Min(k + 1, |line|)]
    ensures MarkedCells(line, squigly, Min(k, |line|)) +
            (if k < |line| then [(line[k], MarkerInk(line, squigly[k]))] else []) ==
            MarkedCells(line, squigly, Min(k + 1, |line|))
  {
  }

  /** The first `i` columns show the line's first `i` characters, each in its marker's colour. */
  lemma {:induction false} PrefixMeaning(line: string, squigly: string, i: nat)
    requires i <= |squigly|
    ensures Chars(Prefix(line, squigly, i)) == line[..Min(i, |line|)]
    ensures InkAfter(Prefix(line, squigly, i), Default) == MarkerInk(line, Flag(squigly, i))
    ensures Painted(Prefix(line, squigly, i), Default) == MarkedCells(line, squigly, Min(i, |line|))
  {
    if i > 0 {
      var k := i - 1;
      var p := Prefix(line, squigly, k);
      var col := Column(line, squigly, k);
      PrefixMeaning(line, squigly, k);
      ColumnMeaning(line, squigly, k);
      Compose(p, col, Default,
              line[..Min(k, |line|)], MarkerInk(line, Flag(squigly, k)),
              MarkedCells(line, squigly, Min(k, |line|)),
              if k < |line| then [line[k]] else [], MarkerInk(line, squigly[k]),
              if k < |line| then [(line[k], MarkerInk(line, squigly[k]))] else []);
      CellsStep(line, squigly, k);
      assert Prefix(line, squigly, i) == p + col;
    }
  }

  /** The rest of the line shows its characters in the colour already in effect. */
  lemma RestMeaning(line: string, n: nat, ink: Ink)
    ensures Chars(Rest(line, n)) == line[Min(n, |line|)..]
    ensures InkAfter(Rest(line, n), ink) == ink
    ensures Painted(Rest(line, n), ink) ==
            seq(|line| - Min(n, |line|), j requires 0 <= j < |line| - Min(n, |line|) =>
              (line[Min(n, |line|) + j], ink))
  {
    var cut := Min(n, |line|);
    PlainChars(line[cut..], ink);
  }

  /** The colour character `i` of the line is printed in. */
  function CellInk(line: string, squigly: string, colored: bool, i: nat): Ink
    requires i < |line|
  {
    if !colored then Default
    else if squigly == [] then MarkerInk(line, line[0])
    else if i < |squigly| then MarkerInk(line, squigly[i])
    else Default
  }

  /** A line printed after colour tokens and followed by a reset. */
  lemma WrapMeaning(a: seq<Tok>, body: seq<Tok>, ink: Ink, chars: string, shown: seq<(char, Ink)>)
    requires Chars(a) == [] && InkAfter(a, Default) == ink && Painted(a, Default) == []
    requires Chars(body) == chars && InkAfter(body, ink) == ink && Painted(body, ink) == shown
    ensures Chars(a + body + [EndColour]) == chars
    ensures InkAfter(a + body + [EndColour], Default) == Default
    ensures Painted(a + body + [EndColour], Default) == shown
  {
    Compose(a, body, Default, [], ink, [], chars, ink, shown);
    OneTok(EndColour, ink);
    Compose(a + body, [EndColour], Default, [] + chars, ink, [] + shown, [], Default, []);
    assert [] + chars + [] == chars;
    assert [] + shown + [] == shown;
  }

  /** The whole line in one colour when there is no squigly. */
  lemma WholeLineMeaning(line: string)
    requires line != []
    ensures Chars(Colorized(line, [], true)) == line
    ensures InkAfter(Colorized(line, [], true), Default) == Default
    ensures Painted(Colorized(line, [], true), Default) ==
            seq(|line|, i requires 0 <= i < |line| => (line[i], CellInk(line, [], true, i)))
  {
    var ink := MarkerInk(line, line[0]);
    PaintForMeaning(ink, Default);
    PlainChars(line, ink);
    WrapMeaning(PaintFor(ink), Plain(line), ink, line,
                seq(|line|, i requires 0 <= i < |line| => (line[i], ink)));
    assert seq(|line|, i requires 0 <= i < |line| => (line[i], ink)) ==
           seq(|line|, i requires 0 <= i < |line| => (line[i], CellInk(line, [], true, i)));
  }

  /** A reset at the end prints nothing and leaves no colour on. */
  lemma CloseMeaning(p: seq<Tok>, chars: string, ink: Ink, shown: seq<(char, Ink)>)
    requires Chars(p) == chars && InkAfter(p, Default) == ink && Painted(p, Default) == shown
    ensures Chars(p + [EndColour]) == chars
    ensures InkAfter(p + [EndColour], Default) == Default
    ensures Painted(p + [EndColour], Default) == shown
  {
    OneTok(EndColour, ink);
    Compose(p, [EndColour], Default, chars, ink, shown, [], Default, []);
    assert chars + [] == chars;
    assert shown + [] == shown;
  }

  /**
   * A line split at `cut`: the first part closed by a reset, then the second
   * part, which leaves no colour on after it.
   */
  lemma JoinHalves(p: seq<Tok>, rest: seq<Tok>, line: string, cut: nat, ink: Ink,
                   cells: seq<(char, Ink)>, tail: seq<(char, Ink)>)
    requires cut <= |line|
    requires Chars(p) == line[..cut] && InkAfter(p, Default) == ink && Painted(p, Default) == cells
    requires Chars(rest) == line[cut..] && InkAfter(rest, Default) == Default
    requires Painted(rest, Default) == tail
    ensures Chars(p + [EndColour] + rest) == line
    ensures InkAfter(p + [EndColour] + rest, Default) == Default
    ensures Painted(p + [EndColour] + rest, Default) == cells + tail
  {
    CloseMeaning(p, line[..cut], ink, cells);
    Compose(p + [EndColour], rest, Default, line[..cut], Default, cells, line[cut..], Default, tail);
    assert line[..cut] + line[cut..] == line;
  }

  /** Marked cells followed by uncoloured ones are the cells of a line coloured under a squigly. */
  lemma SquiglyCells(line: string, squigly: string)
    requires squigly != []
    ensures var cut := Min(|squigly|, |line|);
            MarkedCells(line, squigly, cut) +
            seq(|line| - cut, j requires 0 <= j < |line| - cut => (line[cut + j], Default)) ==
            seq(|line|, i requires 0 <= i < |line| => (line[i], CellInk(line, squigly, true, i)))
  {
    var cut := Min(|squigly|, |line|);
    var cells := MarkedCells(line, squigly, cut);
    var tail := seq(|line| - cut, j requires 0 <= j < |line| - cut => (line[cut + j], Default));
    forall i | 0 <= i < |line|
      ensures (cells + tail)[i] == (line[i], CellInk(line, squigly, true, i))
    {
      if i < cut {
        assert (cells + tail)[i] == cells[i];
      } else {
        assert (cells + tail)[i] == tail[i - cut];
      }
    }
  }

  /** With a squigly: the covered columns in their markers' colours, the rest uncoloured. */
  lemma SquiglyMeaning(line: string, squigly: string)
    requires squigly != []
    ensures Chars(Colorized(line, squigly, true)) == line
    ensures InkAfter(Colorized(line, squigly, true), Default) == Default
    ensures Painted(Colorized(line, squigly, true), Default) ==
            seq(|line|, i requires 0 <= i < |line| => (line[i], CellInk(line, squigly, true, i)))
  {
    var n := |squigly|;
    var cut := Min(n, |line|);
    PrefixMeaning(line, squigly, n);
    RestMeaning(line, n, Default);
    JoinHalves(Prefix(line, squigly, n), Rest(line, n), line, cut, MarkerInk(line, Flag(squigly, n)),
               MarkedCells(line, squigly, cut),
               seq(|line| - cut, j requires 0 <= j < |line| - cut => (line[cut + j], Default)));
    SquiglyCells(line, squigly);
  }

  /**
   * What the terminal shows for a coloured line: exactly the line's
   * characters, in order, character `i` in the colour of its squigly marker
   * (or of the line's first character when there is no squigly, or none in
   * uncoloured mode and past the squigly's end), and no colour left on
   * afterwards.
   */
  lemma ColorizedMeaning(line: string, squigly: string, colored: bool)
    requires colored && squigly == [] ==> line != []
    ensures Chars(Colorized(line, squigly, colored)) == line
    ensures InkAfter(Colorized(line, squigly, colored), Default) == Default
    ensures Painted(Colorized(line, squigly, colored), Default) ==
            seq(|line|, i requires 0 <= i < |line| => (line[i], CellInk(line, squigly, colored, i)))
  {
    if !colored {
      PlainChars(line, Default);
    } else if squigly != [] {
      SquiglyMeaning(line, squigly);
    } else {
      WholeLineMeaning(line);
    }
  }

  /** Uncoloured mode returns the line unchanged. */
  lemma ColorizedUncoloured(line: string, squigly: string)
    ensures Render(Colorized(line, squigly, false)) == line
  {
    RenderPlain(line);
  }

  /** `color_line`: the line wrapped in a colour and a reset, in colour mode only. */
  function ColorLine(line: string, colour: Colour, colored: bool): (r: string)
    ensures !colored ==> r == line
    ensures colored ==> r == Render([Paint(colour)] + Plain(line) + [EndColour])
  {
    RenderAppend([Paint(colour)], Plain(line));
    RenderAppend([Paint(colour)] + Plain(line), [EndColour]);
    RenderPlain(line);
    RenderOne(Paint(colour));
    RenderOne(EndColour);
    if colored then ColourCode(colour) + line + EndColourCode else line
  }
}
