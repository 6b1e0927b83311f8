/**
 * The text of a multi-diff (`MultiDiff.__str__`): a header naming the base
 * and the compared files, a rule, one block per base line that prints
 * something (each output line cut to the terminal width), or "(no diff)",
 * and a closing rule.
 *
 * The line numbers the normaliser produces run from 1 to one past the
 * number of base lines; the source walks `range(len(base_lines))`, that is
 * 0 to one less than that number. `AsWrittenKeys` is the source's range,
 * `ShownKeys` the range that covers every line number a change can have.
 */
module Report {
  import opened Ansi
  import opened Strings
  import opened Colouring
  import opened Store
  import opened LineRender
  import opened Squiglies
  import opened Normaliser
  import opened Feed

  /** END_LONG_LINE. */
  const EndLongLine: string := "..."

  /** `'=' * SEP_WIDTH`, above and below the blocks. */
  const Rule: string := Repeat('=', SepWidth)

  const NoDiff: string := "(no diff)"

  /** `limit(text, length)`. */
  function Limit(text: string, width: int, colored: bool): string
  {
    if |text| > width then
      PyPrefix(text, width - |EndLongLine|) + (if colored then EndColourCode else []) + EndLongLine
    else text
  }

  /**
   * A text no longer than `width` is kept. A longer one is cut to its
   * first `width - 3` characters (Python's slice, so a negative bound
   * counts from the end), then a colour reset in colour mode, then
   * END_LONG_LINE; so with `width >= 3` an uncoloured result is exactly
   * `width` characters long.
   */
  lemma LimitMeaning(text: string, width: int, colored: bool)
    ensures |text| <= width ==> Limit(text, width, colored) == text
    ensures |text| > width ==>
              var r := Limit(text, width, colored);
              && |r| >= |EndLongLine| + (if colored then |EndColourCode| else 0)
              && PyPrefix(text, width - |EndLongLine|) <= r
              && r[|r| - |EndLongLine|..] == EndLongLine
              && (colored ==> r[|r| - |EndLongLine| - |EndColourCode|..|r| - |EndLongLine|] == EndColourCode)
    ensures |text| > width && width >= |EndLongLine| ==>
              var r := Limit(text, width, colored);
              && |r| == width + (if colored then |EndColourCode| else 0)
              && r[..width - |EndLongLine|] == text[..width - |EndLongLine|]
  {
    if |text| > width {
      var cut := PyPrefix(text, width - |EndLongLine|);
      var r := Limit(text, width, colored);
      assert r[..|cut|] == cut;
    }
  }

  /** `filter(None, lines)`: the non-empty lines, in order. */
  function NonEmptyLines(lines: seq<string>): (r: seq<string>)
    ensures forall i :: 0 <= i < |r| ==> r[i] != []
    ensures (forall i :: 0 <= i < |lines| ==> lines[i] != []) ==> r == lines
  {
    if lines == [] then []
    else
      var init, last := lines[..|lines| - 1], lines[|lines| - 1];
      assert lines == init + [last];
      assert (forall i :: 0 <= i < |lines| ==> lines[i] != []) ==>
             (forall i :: 0 <= i < |init| ==> init[i] != []);
      NonEmptyLines(init) + (if last != [] then [last] else [])
  }

  /** Every line cut to the terminal width. */
  function LimitAll(lines: seq<string>, width: int, colored: bool): (r: seq<string>)
    ensures |r| == |lines|
    ensures forall i :: 0 <= i < |lines| ==> r[i] == Limit(lines[i], width, colored)
  {
    seq(|lines|, i requires 0 <= i < |lines| => Limit(lines[i], width, colored))
  }

  /** `'\n'.join(limit(line, term_width) for line in filter(None, lines))`. */
  function BlockOf(lines: seq<string>, width: int, colored: bool): string
  {
    Join("\n", LimitAll(NonEmptyLines(lines), width, colored))
  }

  predicate AllRenderable(info: Info, keys: seq<int>, colored: bool)
  {
    forall k :: k in keys ==> LineRenderable(info, k, colored)
  }

  /** The block printed for base line `lineNo`. */
  function Block(info: Info, lineNo: int, numFiles: nat, colored: bool, width: int): string
    requires LineRenderable(info, lineNo, colored)
  {
    BlockOf(LineOutput(info, lineNo, numFiles, colored), width, colored)
  }

  /** What line number `lineNo` adds to the report: its block, unless `get_line` gives nothing to print. */
  function BlockAt(info: Info, lineNo: int, numFiles: nat, colored: bool, width: int): seq<string>
    requires LineRenderable(info, lineNo, colored)
  {
    if NonEmptyLines(LineOutput(info, lineNo, numFiles, colored)) != []
    then [Block(info, lineNo, numFiles, colored, width)] else []
  }

  /** The blocks for the line numbers `keys`, in order, skipping those that print nothing. */
  function Blocks(info: Info, keys: seq<int>, numFiles: nat, colored: bool, width: int): (r: seq<string>)
    requires AllRenderable(info, keys, colored)
    ensures |r| <= |keys|
  {
    if keys == [] then []
    else
      var last := keys[|keys| - 1];
      assert last in keys;
      Blocks(info, keys[..|keys| - 1], numFiles, colored, width) + BlockAt(info, last, numFiles, colored, width)
  }

  /** `os.path.basename`: what follows the last `/`. */
  function Basename(path: string): (r: string)
    ensures |r| <= |path| && r == path[|path| - |r|..]
    ensures '/' !in r
    ensures |r| < |path| ==> path[|path| - |r| - 1] == '/'
  {
    if path == [] then []
    else if path[|path| - 1] == '/' then []
    else
      var init := path[..|path| - 1];
      var b := Basename(init);
      var r := b + [path[|path| - 1]];
      assert path[|path| - |r|..] == init[|init| - |b|..] + [path[|path| - 1]];
      assert |r| < |path| ==> path[|path| - |r| - 1] == init[|init| - |b| - 1];
      r
  }

  /** `map(os.path.basename, files)`. */
  function Names(files: seq<string>): (r: seq<string>)
    ensures |r| == |files|
    ensures forall i :: 0 <= i < |files| ==> r[i] == Basename(files[i])
  {
    seq(|files|, i requires 0 <= i < |files| => Basename(files[i]))
  }

  /** `Comparing <base, purple in colour mode> with <file names>`. */
  function Header(baseFn: string, files: seq<string>, colored: bool): string
  {
    "Comparing " + ColorLine(baseFn, Purple, colored) + " with " + Join(", ", Names(files))
  }

  /** The lines of the report: header, rule, the blocks or "(no diff)", rule. */
  function ReportLines(header: string, blocks: seq<string>): (r: seq<string>)
    ensures |r| >= 4 && r[0] == header && r[1] == Rule && r[|r| - 1] == Rule
    ensures blocks == [] ==> r == [header, Rule, NoDiff, Rule]
    ensures blocks != [] ==> |r| == |blocks| + 3 && r[2..|r| - 1] == blocks
  {
    [header, Rule] + (if blocks == [] then [NoDiff] else blocks) + [Rule]
  }

  /** What a line number adds, from the `get_line` output `out` it has. */
  lemma BlockAtOf(info: Info, lineNo: int, out: seq<string>, numFiles: nat, colored: bool, width: int)
    requires LineRenderable(info, lineNo, colored) && out == LineOutput(info, lineNo, numFiles, colored)
    ensures NonEmptyLines(out) != [] ==>
              BlockAt(info, lineNo, numFiles, colored, width) == [Join("\n", LimitAll(NonEmptyLines(out), width, colored))]
    ensures NonEmptyLines(out) == [] ==> BlockAt(info, lineNo, numFiles, colored, width) == []
  {
  }

  /** The report's lines, built as `__str__` builds them. */
  lemma ReportLinesAppend(header: string, blocks: seq<string>)
    ensures blocks == [] ==> ReportLines(header, blocks) == ([header, Rule] + blocks + [NoDiff]) + [Rule]
    ensures blocks != [] ==> ReportLines(header, blocks) == ([header, Rule] + blocks) + [Rule]
  {
  }

  /** `str(mdiff)` over the line numbers `keys`. */
  function ReportText(baseFn: string, files: seq<string>, colored: bool, info: Info, keys: seq<int>, width: int): string
    requires AllRenderable(info, keys, colored)
  {
    Join("\n", ReportLines(Header(baseFn, files, colored), Blocks(info, keys, |files|, colored, width)))
  }

  /** `range(len(base_lines))`, the line numbers the source walks. */
  function AsWrittenKeys(n: nat): (r: seq<int>)
    ensures forall k :: k in r <==> 0 <= k < n
  {
    var r := seq(n, i requires 0 <= i < n => i);
    forall k | 0 <= k < n
      ensures k in r
    {
      assert r[k] == k;
    }
    r
  }

  /** 1 to `n + 1`: every line number a change to `n` base lines can have. */
  function ShownKeys(n: nat): (r: seq<int>)
    ensures forall k :: k in r <==> 1 <= k <= n + 1
  {
    var r := seq(n + 1, i requires 0 <= i <= n => i + 1);
    forall k | 1 <= k <= n + 1
      ensures k in r
    {
      assert r[k - 1] == k;
    }
    r
  }

  // ----- what the report shows -----

  /** A line number contributes a block exactly when `get_line` returns something for it. */
  lemma BlockShown(info: Info, lineNo: int, numFiles: nat, colored: bool)
    requires LineRenderable(info, lineNo, colored)
    ensures NonEmptyLines(LineOutput(info, lineNo, numFiles, colored)) ==
            LineOutput(info, lineNo, numFiles, colored)
    ensures NonEmptyLines(LineOutput(info, lineNo, numFiles, colored)) == [] <==> Silent(info, lineNo)
  {
    var out := LineOutput(info, lineNo, numFiles, colored);
    LineOutputNoEmptyLine(info, lineNo, numFiles, colored);
    assert forall i :: 0 <= i < |out| ==> out[i] in out;
    LineOutputEmpty(info, lineNo, numFiles, colored);
  }

  lemma AllRenderablePrefix(info: Info, keys: seq<int>, n: nat, colored: bool)
    requires AllRenderable(info, keys, colored) && n <= |keys|
    ensures AllRenderable(info, keys[..n], colored)
  {
    forall k | k in keys[..n]
      ensures k in keys
    {
      var i :| 0 <= i < n && keys[..n][i] == k;
      assert keys[i] == k;
    }
  }

  /** One more line number adds its block, if it prints anything. */
  lemma BlocksSnoc(info: Info, keys: seq<int>, k: int, numFiles: nat, colored: bool, width: int)
    requires AllRenderable(info, keys + [k], colored)
    ensures AllRenderable(info, keys, colored) && LineRenderable(info, k, colored)
    ensures Blocks(info, keys + [k], numFiles, colored, width) ==
            Blocks(info, keys, numFiles, colored, width) + BlockAt(info, k, numFiles, colored, width)
  {
    SnocInit(keys, k);
    assert k in keys + [k];
    AllRenderablePrefix(info, keys + [k], |keys|, colored);
  }

  /**
   * The report says "(no diff)" exactly when no line number in `keys` has
   * records that print: each has none, or only has records of other kinds
   * and its successor has records too.
   */
  lemma {:induction false} NoDiffIff(info: Info, keys: seq<int>, numFiles: nat, colored: bool, width: int)
    requires AllRenderable(info, keys, colored)
    ensures Blocks(info, keys, numFiles, colored, width) == [] <==>
            forall i :: 0 <= i < |keys| ==> Silent(info, keys[i])
  {
    if keys != [] {
      var n := |keys| - 1;
      InitLast(keys);
      BlocksSnoc(info, keys[..n], keys[n], numFiles, colored, width);
      NoDiffIff(info, keys[..n], numFiles, colored, width);
      BlockAtEmpty(info, keys[n], numFiles, colored, width);
      AllSilentSnoc(info, keys[..n], keys[n]);
    }
  }

  lemma AllSilentSnoc(info: Info, init: seq<int>, k: int)
    ensures (forall i :: 0 <= i < |init + [k]| ==> Silent(info, (init + [k])[i])) <==>
            (forall i :: 0 <= i < |init| ==> Silent(info, init[i])) && Silent(info, k)
  {
    assert forall i :: 0 <= i < |init| ==> (init + [k])[i] == init[i];
    assert (init + [k])[|init|] == k;
  }

  /** A line number adds nothing exactly when it is silent. */
  lemma BlockAtEmpty(info: Info, lineNo: int, numFiles: nat, colored: bool, width: int)
    requires LineRenderable(info, lineNo, colored)
    ensures BlockAt(info, lineNo, numFiles, colored, width) == [] <==> Silent(info, lineNo)
  {
    BlockShown(info, lineNo, numFiles, colored);
  }

  /**
   * Every line number in `keys` that prints something has its block in the
   * report.
   */
  lemma {:induction false} BlocksCover(info: Info, keys: seq<int>, numFiles: nat, colored: bool, width: int, j: nat)
    requires AllRenderable(info, keys, colored)
    requires j < |keys| && LineOutput(info, keys[j], numFiles, colored) != []
    ensures Block(info, keys[j], numFiles, colored, width) in Blocks(info, keys, numFiles, colored, width)
  {
    var n := |keys| - 1;
    var init := keys[..n];
    BlocksSnoc(info, init, keys[n], numFiles, colored, width);
    InitLast(keys);
    if j < n {
      assert init[j] == keys[j];
      BlocksCover(info, init, numFiles, colored, width, j);
    } else {
      BlockShown(info, keys[j], numFiles, colored);
    }
  }

  /** A block is the output lines of its line number, each cut to the terminal width, one per line. */
  lemma BlockMeaning(info: Info, lineNo: int, numFiles: nat, colored: bool, width: int)
    requires LineRenderable(info, lineNo, colored)
    ensures Block(info, lineNo, numFiles, colored, width) ==
            Join("\n", LimitAll(LineOutput(info, lineNo, numFiles, colored), width, colored))
  {
    BlockShown(info, lineNo, numFiles, colored);
  }

  /** Walking `a` then `b` gives the blocks of `a`, then those of `b`. */
  lemma {:induction false} BlocksAppend(info: Info, a: seq<int>, b: seq<int>, numFiles: nat, colored: bool, width: int)
    requires AllRenderable(info, a + b, colored)
    ensures AllRenderable(info, a, colored) && AllRenderable(info, b, colored)
    ensures Blocks(info, a + b, numFiles, colored, width) ==
            Blocks(info, a, numFiles, colored, width) + Blocks(info, b, numFiles, colored, width)
    decreases |b|
  {
    if b == [] {
      AppendEmpty(a);
      AllRenderablePrefix(info, a + b, |a|, colored);
      AppendEmpty(Blocks(info, a, numFiles, colored, width));
    } else {
      var init, last := b[..|b| - 1], b[|b| - 1];
      InitLast(b);
      AppendAssoc(a, init, [last]);
      BlocksSnoc(info, a + init, last, numFiles, colored, width);
      BlocksAppend(info, a, init, numFiles, colored, width);
      BlocksSnoc(info, init, last, numFiles, colored, width);
      AppendAssoc(Blocks(info, a, numFiles, colored, width), Blocks(info, init, numFiles, colored, width),
                  BlockAt(info, last, numFiles, colored, width));
    }
  }

  /** Line numbers that are all silent add no block. */
  lemma SilentBlocks(info: Info, keys: seq<int>, numFiles: nat, colored: bool, width: int)
    requires AllRenderable(info, keys, colored)
    requires forall i :: 0 <= i < |keys| ==> Silent(info, keys[i])
    ensures Blocks(info, keys, numFiles, colored, width) == []
  {
    NoDiffIff(info, keys, numFiles, colored, width);
  }

  /**
   * A store with no records at line number 0 renders over either walk
   * (the feed never files one there: `CollectsNothingBelowOne`).
   */
  lemma RendersFromOne(info: Info, n: nat, colored: bool)
    requires WellFormed(info) && !HasRecords(info, 0)
    ensures AllRenderable(info, AsWrittenKeys(n), colored) && AllRenderable(info, ShownKeys(n), colored)
  {
    forall k | k >= 0
      ensures LineRenderable(info, k, colored)
    {
      if k >= 1 {
        WellFormedRenderable(info, k, colored);
      }
    }
  }

  /** Both walks share 1 to `n - 1`; the source's adds 0 before it, the correction `n` and `n + 1` after. */
  lemma KeysSplit(n: nat)
    requires n >= 1
    ensures AsWrittenKeys(n) == [0] + seq(n - 1, i requires 0 <= i < n - 1 => i + 1)
    ensures ShownKeys(n) == seq(n - 1, i requires 0 <= i < n - 1 => i + 1) + [n, n + 1]
  {
  }

  /**
   * The two walks print the same report unless line number 0, `n` or
   * `n + 1` prints something: the correction changes the output only for
   * changes anchored past the last line number the source visits.
   */
  lemma WalksAgree(info: Info, n: nat, numFiles: nat, colored: bool, width: int)
    requires AllRenderable(info, AsWrittenKeys(n), colored) && AllRenderable(info, ShownKeys(n), colored)
    requires Silent(info, 0) && Silent(info, n) && Silent(info, n + 1)
    ensures Blocks(info, AsWrittenKeys(n), numFiles, colored, width) ==
            Blocks(info, ShownKeys(n), numFiles, colored, width)
  {
    if n == 0 {
      assert AsWrittenKeys(n) == [];
      assert ShownKeys(n) == [1];
      SilentBlocks(info, [1], numFiles, colored, width);
    } else {
      KeysSplit(n);
      WalksAgreeAround(info, seq(n - 1, i requires 0 <= i < n - 1 => i + 1), n, numFiles, colored, width);
    }
  }

  /** Line numbers 0 before `mid`, or `n` and `n + 1` after it, add nothing when silent. */
  lemma WalksAgreeAround(info: Info, mid: seq<int>, n: int, numFiles: nat, colored: bool, width: int)
    requires AllRenderable(info, [0] + mid, colored) && AllRenderable(info, mid + [n, n + 1], colored)
    requires Silent(info, 0) && Silent(info, n) && Silent(info, n + 1)
    ensures Blocks(info, [0] + mid, numFiles, colored, width) ==
            Blocks(info, mid + [n, n + 1], numFiles, colored, width)
  {
    var b := Blocks(info, mid, numFiles, colored, width);
    BlocksAppend(info, [0], mid, numFiles, colored, width);
    BlocksAppend(info, mid, [n, n + 1], numFiles, colored, width);
    SilentBlocks(info, [0], numFiles, colored, width);
    SilentBlocks(info, [n, n + 1], numFiles, colored, width);
    EmptyAppend(b);
    AppendEmpty(b);
  }

  // ----- the line numbers walked -----

  /**
   * Every change the normaliser records falls in `ShownKeys` of the number
   * of base lines, when the diff's context and `+` lines are the base.
   */
  lemma ChangesWithinShownKeys(diff: seq<string>, base: seq<string>, j: nat)
    requires j < |diff| && BaseSide(diff, |diff|) == base && IsChange(diff[j])
    ensures Anchor(diff, j) in ShownKeys(|base|)
  {
    AnchorIsBaseLineNumber(diff, base, j);
  }

  /** The diff of a file `a`, `b`, `` against a base `a`, `` (what difflib yields). */
  const TrailingDiff: seq<string> := ["  a", "- b", "  "]

  /** The store after that diff is registered for file `f`. */
  const TrailingInfo: Info := Register(map[], 2, Entry("- b", "f", ""))

  /** The removal of `b` is anchored to line number 2, the number of base lines. */
  lemma TrailingDiffAnchor()
    ensures BaseSide(TrailingDiff, |TrailingDiff|) == ["a", ""]
    ensures IsChange(TrailingDiff[1]) && Anchor(TrailingDiff, 1) == 2
  {
    var diff := TrailingDiff;
    assert diff[..1] == ["  a"] && diff[..2] == ["  a", "- b"] && diff[..0] == [];
    assert Anchor(diff, 0) == 1;
    assert BaseSide(diff, 1) == ["a"];
    assert BaseSide(diff, 2) == ["a"];
  }

  /** Line 2 of the store has the removal, and no other line has records. */
  lemma TrailingInfoRecords(k: int)
    ensures HasRecords(TrailingInfo, k) <==> k == 2
    ensures EntriesOf(TrailingInfo, 2, Minus) != []
    ensures WellFormed(TrailingInfo)
  {
    RegisterAppendsOne(map[], 2, Entry("- b", "f", ""), 2, Minus);
    RegisterWellFormed(map[], 2, Entry("- b", "f", ""));
  }

  /** The changes of the example diff anchored at each line number: only the removal, at 2. */
  lemma TrailingPositions(n: int)
    ensures Positions(TrailingDiff, n, |TrailingDiff|) == if n == 2 then [1] else []
  {
    TrailingDiffAnchor();
    var d := TrailingDiff;
    assert Positions(d, n, 1) == [];
    assert Positions(d, n, 2) == if n == 2 then [1] else [];
  }

  /** What feeding the example diff as file `f` registers: one `-` entry, at line number 2. */
  lemma TrailingFeed(n: int, kind: char)
    ensures AddedAll([TrailingDiff], ["f"], n, kind) ==
            if n == 2 && kind == Minus then [Entry("- b", "f", "")] else []
    ensures HeadsAll([TrailingDiff], ["f"], n) == if n == 2 then {Minus} else {}
  {
    var d := TrailingDiff;
    TrailingPositions(n);
    assert [d][..0] == [] && ["f"][..0] == [];
    var recs := LocalAt(d, "f", n);
    LocalAtFeedable(d, "f", n);
    if n == 2 {
      assert recs == [("- b", "f")];
      assert recs[..0] == [];
      assert SquiglyDict(d, |d|) == map[] by {
        assert SquiglyDict(d, 1) == map[];
        assert SquiglyDict(d, 2) == map[];
      }
      assert RStrip("- b") == "- b";
      assert RStrip("") == "";
      assert EntryOf(recs[0], map[]) == Entry("- b", "f", "");
      assert Added(recs, map[], kind) == if kind == Minus then [Entry("- b", "f", "")] else [];
      assert Heads(recs) == {Minus} by {
        assert recs[0].0[0] == Minus;
      }
    } else {
      assert recs == [];
    }
  }

  /** The example store is what feeding the example diff of file `f` registers. */
  lemma TrailingInfoCollects()
    ensures Collects(TrailingInfo, [TrailingDiff], ["f"])
  {
    var e := Entry("- b", "f", "");
    forall n, kind
      ensures EntriesOf(TrailingInfo, n, kind) == AddedAll([TrailingDiff], ["f"], n, kind)
    {
      TrailingFeed(n, kind);
      RegisterAppendsOne(map[], 2, e, n, kind);
    }
    forall n
      ensures Kinds(TrailingInfo, n).Keys == HeadsAll([TrailingDiff], ["f"], n)
    {
      TrailingFeed(n, Minus);
      RegisterAppendsOne(map[], 2, e, n, Minus);
    }
  }

  /**
   * The source's range misses the last base line: the removal of `b`
   * before the second (last) base line is anchored to line number 2
   * (`TrailingDiffAnchor`), which `range(2)` never reaches, so the report
   * of that change says "(no diff)". `TrailingInfo` is the store feeding
   * that diff builds (`TrailingInfoCollects`).
   */
  lemma AsWrittenMissesLastLine()
    ensures Collects(TrailingInfo, [TrailingDiff], ["f"])
    ensures AllRenderable(TrailingInfo, AsWrittenKeys(2), false)
    ensures Blocks(TrailingInfo, AsWrittenKeys(2), 1, false, 80) == []
  {
    forall k | k in AsWrittenKeys(2)
      ensures LineRenderable(TrailingInfo, k, false) && Silent(TrailingInfo, k)
    {
      TrailingInfoRecords(k);
    }
    NoDiffIff(TrailingInfo, AsWrittenKeys(2), 1, false, 80);
    TrailingInfoCollects();
  }

  /** Walking `ShownKeys`, the same change is reported. */
  lemma ShownKeysReportTrailing()
    ensures AllRenderable(TrailingInfo, ShownKeys(2), false)
    ensures Blocks(TrailingInfo, ShownKeys(2), 1, false, 80) != []
  {
    TrailingInfoRecords(0);
    forall k | k in ShownKeys(2)
      ensures LineRenderable(TrailingInfo, k, false)
    {
      WellFormedRenderable(TrailingInfo, k, false);
    }
    ShownKeysReportEveryChange(TrailingInfo, 2, 1, false, 80, 2);
  }

  /**
   * Walking `ShownKeys`, every change the normaliser records for a file is
   * in a line number the report visits, and that line number prints.
   */
  lemma ShownKeysReportEveryChange(info: Info, n: nat, numFiles: nat, colored: bool, width: int, k: int)
    requires AllRenderable(info, ShownKeys(n), colored)
    requires 1 <= k <= n + 1 && (EntriesOf(info, k, Minus) != [] || EntriesOf(info, k, Plus) != [])
    ensures Block(info, k, numFiles, colored, width) in Blocks(info, ShownKeys(n), numFiles, colored, width)
  {
    var keys := ShownKeys(n);
    assert k in keys;
    var j :| 0 <= j < |keys| && keys[j] == k;
    BlockShown(info, k, numFiles, colored);
    BlocksCover(info, keys, numFiles, colored, width, j);
  }
}
