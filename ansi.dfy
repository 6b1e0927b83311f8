/**
 * Terminal colour escapes used by the multi-diff report, and the token view
 * of a coloured line: characters interleaved with opaque colour and reset
 * tokens. `Render` turns tokens into the escape strings the terminal sees.
 */
module Ansi {

  /** The three colours the report uses (text purple, green and red background). */
  datatype Colour = Purple | GreenBack | RedBack

  /** One element of a coloured line. */
  datatype Tok = Ch(c: char) | Paint(colour: Colour) | EndColour

  /** The colour in effect on the terminal. */
  datatype Ink = Default | Coloured(colour: Colour)

  const Esc: char := '\U{1B}'

  function ColourCode(c: Colour): string
  {
    match c
    case Purple => [Esc] + "[0;35m"
    case GreenBack => [Esc] + "[0;42m"
    case RedBack => [Esc] + "[0;41m"
  }

  /** END_COLOR: resets the terminal colour. */
  const EndColourCode: string := [Esc] + "[0m"

  function TokText(t: Tok): string
  {
    match t
    case Ch(c) => [c]
    case Paint(col) => ColourCode(col)
    case EndColour => EndColourCode
  }

  /** The text written to the terminal for a token sequence. */
  function Render(ts: seq<Tok>): string
  {
    Flatten(seq(|ts|, i requires 0 <= i < |ts| => TokText(ts[i])))
  }

  function Flatten(ss: seq<string>): string
  {
    if ss == [] then [] else Flatten(ss[..|ss| - 1]) + ss[|ss| - 1]
  }

  lemma {:induction false} FlattenAppend(a: seq<string>, b: seq<string>)
    ensures Flatten(a + b) == Flatten(a) + Flatten(b)
    decreases |b|
  {
    if b == [] {
      assert a + b == a;
    } else {
      var b' := b[..|b| - 1];
      assert (a + b)[..|a + b| - 1] == a + b';
      FlattenAppend(a, b');
    }
  }

  /** A string with no colour tokens. */
  function Plain(s: string): seq<Tok>
  {
    seq(|s|, i requires 0 <= i < |s| => Ch(s[i]))
  }

  /** The characters of a token sequence, with every colour token erased. */
  function Chars(ts: seq<Tok>): string
  {
    if ts == [] then []
    else Chars(ts[..|ts| - 1]) + (if ts[|ts| - 1].Ch? then [ts[|ts| - 1].c] else [])
  }

  /** The colour in effect after the terminal has printed `ts`, starting in `ink`. */
  function InkAfter(ts: seq<Tok>, ink: Ink): Ink
  {
    if ts == [] then ink
    else
      match ts[|ts| - 1]
      case Ch(_) => InkAfter(ts[..|ts| - 1], ink)
      case Paint(col) => Coloured(col)
      case EndColour => Default
  }

  /** Each printed character paired with the colour it is printed in. */
  function Painted(ts: seq<Tok>, ink: Ink): seq<(char, Ink)>
  {
    if ts == [] then []
    else
      var before := ts[..|ts| - 1];
      Painted(before, ink) +
      (if ts[|ts| - 1].Ch? then [(ts[|ts| - 1].c, InkAfter(before, ink))] else [])
  }

  lemma RenderOne(t: Tok)
    ensures Render([t]) == TokText(t)
  {
    var ts := seq(|[t]|, i requires 0 <= i < |[t]| => TokText([t][i]));
    assert ts == [TokText(t)];
    assert ts[..0] == [];
    assert Flatten(ts) == Flatten([]) + TokText(t);
  }

  lemma OneTok(t: Tok, ink: Ink)
    ensures Chars([t]) == (if t.Ch? then [t.c] else [])
    ensures InkAfter([t], ink) ==
            match t case Ch(_) => ink case Paint(c) => Coloured(c) case EndColour => Default
    ensures Painted([t], ink) == (if t.Ch? then [(t.c, ink)] else [])
  {
    assert [t][..0] == [];
  }

  lemma RenderAppend(a: seq<Tok>, b: seq<Tok>)
    ensures Render(a + b) == Render(a) + Render(b)
  {
    var ta := seq(|a|, i requires 0 <= i < |a| => TokText(a[i]));
    var tb := seq(|b|, i requires 0 <= i < |b| => TokText(b[i]));
    assert seq(|a + b|, i requires 0 <= i < |a + b| => TokText((a + b)[i])) == ta + tb;
    FlattenAppend(ta, tb);
  }

  /** Rendering a string without colour tokens gives the string back. */
  lemma {:induction false} RenderPlain(s: string)
    ensures Render(Plain(s)) == s
    decreases |s|
  {
    if s != [] {
      var s' := s[..|s| - 1];
      assert Plain(s) == Plain(s') + [Ch(s[|s| - 1])];
      RenderAppend(Plain(s'), [Ch(s[|s| - 1])]);
      RenderOne(Ch(s[|s| - 1]));
      RenderPlain(s');
      assert s == s' + [s[|s| - 1]];
    }
  }

  lemma {:induction false} CharsAppend(a: seq<Tok>, b: seq<Tok>)
    ensures Chars(a + b) == Chars(a) + Chars(b)
    decreases |b|
  {
    if b != [] {
      var b' := b[..|b| - 1];
      assert (a + b)[..|a + b| - 1] == a + b';
      CharsAppend(a, b');
    } else {
      assert a + b == a;
    }
  }

  lemma {:induction false} InkAppend(a: seq<Tok>, b: seq<Tok>, ink: Ink)
    ensures InkAfter(a + b, ink) == InkAfter(b, InkAfter(a, ink))
    decreases |b|
  {
    if b != [] {
      var b' := b[..|b| - 1];
      assert (a + b)[..|a + b| - 1] == a + b';
      InkAppend(a, b', ink);
    } else {
      assert a + b == a;
    }
  }

  lemma {:induction false} PaintedAppend(a: seq<Tok>, b: seq<Tok>, ink: Ink)
    ensures Painted(a + b, ink) == Painted(a, ink) + Painted(b, InkAfter(a, ink))
    decreases |b|
  {
    if b != [] {
      var b' := b[..|b| - 1];
      assert (a + b)[..|a + b| - 1] == a + b';
      PaintedAppend(a, b', ink);
      InkAppend(a, b', ink);
    } else {
      assert a + b == a;
    }
  }

  /** What two token sequences show one after the other. */
  lemma Compose(a: seq<Tok>, b: seq<Tok>, ink: Ink,
                charsA: string, inkA: Ink, shownA: seq<(char, Ink)>,
                charsB: string, inkB: Ink, shownB: seq<(char, Ink)>)
    requires Chars(a) == charsA && InkAfter(a, ink) == inkA && Painted(a, ink) == shownA
    requires Chars(b) == charsB && InkAfter(b, inkA) == inkB && Painted(b, inkA) == shownB
    ensures Chars(a + b) == charsA + charsB
    ensures InkAfter(a + b, ink) == inkB
    ensures Painted(a + b, ink) == shownA + shownB
  {
    CharsAppend(a, b);
    InkAppend(a, b, ink);
    PaintedAppend(a, b, ink);
  }

  lemma {:induction false} PlainChars(s: string, ink: Ink)
    ensures Chars(Plain(s)) == s
    ensures InkAfter(Plain(s), ink) == ink
    ensures Painted(Plain(s), ink) == seq(|s|, i requires 0 <= i < |s| => (s[i], ink))
    decreases |s|
  {
    if s != [] {
      var p := Plain(s);
      assert p[..|p| - 1] == Plain(s[..|s| - 1]);
      PlainChars(s[..|s| - 1], ink);
      assert s == s[..|s| - 1] + [s[|s| - 1]];
    } else {
      assert Plain(s) == [];
    }
  }
}
