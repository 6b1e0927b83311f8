/**
 * Squigly lines: the `? ...` lines a line differ emits under a changed line,
 * one marker per column (`^` changed, `-` removed, `+` added, blank unchanged),
 * and `merge_squigly`, which combines the squiglies of identical diff lines
 * that came from different files.
 */
module Squiglies {

  // Characters with a meaning in a diff line or a squigly line.
  const Hat: char := '^'
  const Minus: char := '-'
  const Plus: char := '+'
  const Space: char := ' '
  const QuestionMark: char := '?'

  /** A column marker that another squigly may overwrite. */
  predicate Uncommitted(c: char)
  {
    c == Hat || c == Space
  }

  /**
   * `merge_squigly(squigly1, squigly2)`: the longer squigly is the base (the
   * second one when the lengths are equal); every column the other squigly
   * covers where the base holds `^` or a blank takes the other's marker.
   */
  function Merged(squigly1: string, squigly2: string): string
  {
    var base := if |squigly1| > |squigly2| then squigly1 else squigly2;
    var other := if |squigly1| > |squigly2| then squigly2 else squigly1;
    seq(|base|, i requires 0 <= i < |base| =>
      if i < |other| && Uncommitted(base[i]) then other[i] else base[i])
  }

  /** The in-place loop of `merge_squigly` over a copy of the longer squigly. */
  method MergeSquigly(squigly1: string, squigly2: string) returns (r: string)
    ensures r == Merged(squigly1, squigly2)
  {
    var base, other;
    if |squigly1| > |squigly2| {
      base, other := squigly1, squigly2;
    } else {
      base, other := squigly2, squigly1;
    }
    ghost var base0 := base;
    var i := 0;
    while i < |other|
      invariant 0 <= i <= |other| <= |base0| == |base|
      invariant forall j :: 0 <= j < i ==> base[j] == Merged(squigly1, squigly2)[j]
      invariant forall j :: i <= j < |base| ==> base[j] == base0[j]
    {
      if Uncommitted(base[i]) && base[i] != other[i] {
        base := base[i := other[i]];
      }
      i := i + 1;
    }
    r := base;
  }

  /** The merge is as long as the longer squigly. */
  lemma MergedLength(squigly1: string, squigly2: string)
    ensures |Merged(squigly1, squigly2)| ==
            if |squigly1| > |squigly2| then |squigly1| else |squigly2|
  {
  }

  /**
   * Column by column: a column of the longer squigly that holds a definite
   * marker (not `^`, not blank) is kept; a column past the end of the shorter
   * squigly is copied from the longer; every other column takes the shorter
   * squigly's marker. This restates the per-column rule of `Merged` as a
   * reading aid; `MergedIdempotent`, `MergedEmpty` and `MergedOrderMatters`
   * carry the properties of the merge.
   */
  lemma MergedColumns(squigly1: string, squigly2: string, i: nat)
    requires i < |squigly1| || i < |squigly2|
    ensures var base := if |squigly1| > |squigly2| then squigly1 else squigly2;
            var other := if |squigly1| > |squigly2| then squigly2 else squigly1;
            && (!Uncommitted(base[i]) ==> Merged(squigly1, squigly2)[i] == base[i])
            && (i >= |other| ==> Merged(squigly1, squigly2)[i] == base[i])
            && (i < |other| && Uncommitted(base[i]) ==> Merged(squigly1, squigly2)[i] == other[i])
  {
  }

  /** Merging a squigly with itself gives it back. */
  lemma MergedIdempotent(squigly: string)
    ensures Merged(squigly, squigly) == squigly
  {
  }

  /** Merging with an empty squigly, on either side, gives the other back. */
  lemma MergedEmpty(squigly: string)
    ensures Merged(squigly, []) == squigly
    ensures Merged([], squigly) == squigly
  {
  }

  /**
   * Two definite markers in the same column: the base's wins, so the result
   * depends on the argument order; a caret in the base also gives way to a
   * blank in the other squigly.
   */
  lemma MergedOrderMatters()
    ensures Merged("-", "+") == "+" && Merged("+", "-") == "-"
    ensures Merged(" ", "^") == " " && Merged("^", " ") == "^"
  {
    var pairs := [("-", "+", "+"), ("+", "-", "-"), (" ", "^", " "), ("^", " ", "^")];
    forall p | p in pairs
      ensures Merged(p.0, p.1) == p.2
    {
      MergedColumns(p.0, p.1, 0);
      assert Merged(p.0, p.1) == [Merged(p.0, p.1)[0]];
    }
  }
}
