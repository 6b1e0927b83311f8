/**
 * The `MultiDiff` object: the base file, the files compared with it, the
 * mode (coloured or not) and the store of registered diff lines, with the
 * operations that register a line, render one base line and render the
 * whole report.
 */
module MultiDiffs {
  import opened Ansi
  import opened Strings
  import opened Squiglies
  import opened Colouring
  import opened Store
  import opened LineRender
  import opened Report
  import opened Wrappers
  import opened Normaliser
  import opened Feed

  /**
   * The grouping loop of `get_line` over the entries of one kind: the
   * distinct lines (`lines`), for each the files it came from
   * (`changes_dict`) and its merged squigly (`squigly_dict`).
   */
  method GroupVariants(es: seq<Entry>)
    returns (lines: seq<string>, changes: map<string, seq<string>>, squigs: map<string, string>)
    ensures lines == Texts(es)
    ensures changes == ChangesDict(es)
    ensures squigs == SquigliesDict(es)
  {
    lines, changes, squigs := [], map[], map[];
    for i := 0 to |es|
      invariant lines == Texts(es[..i])
      invariant changes == ChangesDict(es[..i])
      invariant squigs == SquigliesDict(es[..i])
    {
      var e := es[i];
      TextsStep(es, i);
      ChangesDictStep(es, i);
      SquigliesDictStep(es, i);
      SquiglyOfStep(es, i);
      SquiglyOfAbsent(es[..i], e.text);
      if e.squigly != [] {
        var squiglyLine := e.squigly;
        if e.text in squigs {
          squiglyLine := MergeSquigly(squiglyLine, squigs[e.text]);
        }
        squigs := squigs[e.text := squiglyLine];
      }
      if e.text !in lines {
        lines := lines + [e.text];
      }
      var fs := if e.text in changes then changes[e.text] else [];
      FilesOfAbsent(es[..i], e.text);
      FilesStep(es, i);
      if e.meta !in fs {
        fs := fs + [e.meta];
      }
      changes := changes[e.text := fs];
    }
    assert es[..|es|] == es;
  }

  /**
   * `sorted(lines, key=lambda line: len(changes_dict[line]))[:MAX_DIFF_GROUPS]`
   * over the distinct lines of the entries `es`.
   */
  method SelectGroups(es: seq<Entry>, lines: seq<string>, changes: map<string, seq<string>>)
    returns (selected: seq<string>)
    requires lines == Texts(es) && changes == ChangesDict(es)
    ensures selected == Selected(es)
  {
    var count := (t: string) => if t in changes then |changes[t]| else 0;
    SortByAgree(count, CountKey(es), lines);
    var sorted := SortBy(count, lines);
    selected := sorted[..Min(MaxDiffGroups, |sorted|)];
  }

  /** The loop of `get_line` over the groups shown, one after the other. */
  method EmitGroups(lineNo: int, es: seq<Entry>, selected: seq<string>,
                    changes: map<string, seq<string>>, squigs: map<string, string>,
                    numFiles: nat, colored: bool)
    returns (out: seq<string>)
    requires changes == ChangesDict(es) && squigs == SquigliesDict(es)
    requires forall t :: t in selected ==> t in Texts(es)
    requires Printable(es, selected, lineNo, colored)
    ensures out == KindLines(lineNo, es, selected, numFiles, colored)
  {
    out := [];
    ghost var groups: seq<seq<string>> := [];
    for j := 0 to |selected|
      invariant GroupsRendered(lineNo, es, selected[..j], groups, numFiles, colored)
      invariant out == Concat(groups)
    {
      var diffLine := selected[j];
      assert diffLine in selected;
      SliceSnoc(selected, j);
      var squiglyLine := if diffLine in squigs then squigs[diffLine] else [];
      var group := VariantOutput(lineNo, es, diffLine, changes[diffLine], squiglyLine, numFiles, colored);
      out := out + group;
      ConcatSnoc(groups, group);
      GroupsRenderedSnoc(lineNo, es, selected[..j], groups, diffLine, group, numFiles, colored);
      groups := groups + [group];
    }
    assert selected[..|selected|] == selected;
    KindLinesConcat(lineNo, es, selected, groups, numFiles, colored);
  }

  /**
   * One group of `get_line`: `'%s %s' % (line_no, colorize(...))`, the
   * `(k/n)` count, the files unless they are all of them, and in uncoloured
   * mode the squigly padded to sit under the diff line.
   */
  method VariantOutput(lineNo: int, es: seq<Entry>, diffLine: string, fs: seq<string>,
                       squiglyLine: string, numFiles: nat, colored: bool)
    returns (out: seq<string>)
    requires diffLine != [] && fs == Files(es, diffLine) && squiglyLine == SquiglyText(es, diffLine)
    requires colored || lineNo >= 1 || squiglyLine == []
    ensures out == VariantLines(lineNo, es, diffLine, numFiles, colored)
  {
    var colorized := Colorize(diffLine, squiglyLine, colored);
    var head := IntToString(lineNo) + " " + Render(colorized);
    var fraction := "(" + NatToString(|fs|) + "/" + NatToString(numFiles) + ")";
    var line := [head, fraction];
    if |fs| != numFiles {
      line := line + [Join(", ", fs)];
    }
    assert colorized == Colorized(diffLine, SquiglyText(es, diffLine), colored);
    assert head == IntToString(lineNo) + " " + Render(Colorized(diffLine, SquiglyText(es, diffLine), colored));
    assert line == [head, fraction] + (if |Files(es, diffLine)| != numFiles then [Join(", ", Files(es, diffLine))] else []);
    assert Join(" ", line) == VariantLine(lineNo, es, diffLine, numFiles, colored);
    out := [Join(" ", line)];
    if !colored && squiglyLine != [] {
      var prepend := Repeat(' ', 2 + Log10Floor(lineNo));
      out := out + [prepend + squiglyLine];
    }
  }

  class MultiDiff {
    const baseFn: string
    const baseLines: seq<string>
    const files: seq<string>
    const colored: bool
    var diffInfo: Info

    /** Every registered entry sits under its own first character. */
    ghost predicate Valid()
      reads this
    {
      WellFormed(diffInfo)
    }

    constructor (baseFn: string, baseLines: seq<string>, files: seq<string>, colored: bool)
      ensures Valid()
      ensures this.baseFn == baseFn && this.baseLines == baseLines
      ensures this.files == files && this.colored == colored
      ensures diffInfo == map[]
    {
      this.baseFn := baseFn;
      this.baseLines := baseLines;
      this.files := files;
      this.colored := colored;
      diffInfo := map[];
    }

    /**
     * `parse_line`: register the entry under its line number and first
     * character. `logged` says whether the source logs an error because
     * that character is neither `-` nor `+`; the entry is registered
     * either way.
     */
    method ParseLine(lineNo: int, diffLine: string, meta: string, squiglyLine: string) returns (logged: bool)
      requires Valid() && diffLine != []
      modifies this
      ensures Valid()
      ensures diffInfo == Register(old(diffInfo), lineNo, Entry(diffLine, meta, squiglyLine))
      ensures logged <==> diffLine[0] != Minus && diffLine[0] != Plus
    {
      var key := diffLine[0];
      logged := key != Minus && key != Plus;
      var lineDict := if lineNo in diffInfo then diffInfo[lineNo] else map[];
      var lineKeyTuples := if key in lineDict then lineDict[key] else [];
      lineKeyTuples := lineKeyTuples + [Entry(diffLine, meta, squiglyLine)];
      RegisterWellFormed(diffInfo, lineNo, Entry(diffLine, meta, squiglyLine));
      diffInfo := diffInfo[lineNo := lineDict[key := lineKeyTuples]];
    }

    /** The output of `get_line` for the entries `es` of one kind. */
    method KindGroups(lineNo: int, es: seq<Entry>) returns (out: seq<string>)
      requires Renderable(es, lineNo, colored)
      ensures out == KindOutput(lineNo, es, |files|, colored)
    {
      var lines, changes, squigs := GroupVariants(es);
      var selected := SelectGroups(es, lines, changes);
      SelectedInTexts(es);
      SelectedPrintable(es, lineNo, colored);
      out := EmitGroups(lineNo, es, selected, changes, squigs, |files|, colored);
    }

    /** The loop of `get_line`: the groups of each kind, `-` then `+`. */
    method KindsLines(lineNo: int, diffDict: map<char, seq<Entry>>) returns (output: seq<string>)
      requires LineRenderable(diffInfo, lineNo, colored)
      requires diffDict == (if lineNo in diffInfo then diffInfo[lineNo] else map[])
      ensures output == KindsOutput(diffInfo, lineNo, [Minus, Plus], |files|, colored)
    {
      output := [];
      var keys := [Minus, Plus];
      for k := 0 to |keys|
        invariant output == KindsOutput(diffInfo, lineNo, keys[..k], |files|, colored)
      {
        var key := keys[k];
        var es := if key in diffDict then diffDict[key] else [];
        assert es == EntriesOf(diffInfo, lineNo, key);
        var kindLines := KindGroups(lineNo, es);
        KindsOutputSnoc(diffInfo, lineNo, keys[..k], key, |files|, colored);
        SliceSnoc(keys, k);
        output := output + kindLines;
      }
      assert keys[..|keys|] == [Minus, Plus];
    }

    /** `get_line`: the `-` groups, the `+` groups, then the separator if due. */
    method GetLine(lineNo: int) returns (output: seq<string>)
      requires LineRenderable(diffInfo, lineNo, colored)
      ensures output == LineOutput(diffInfo, lineNo, |files|, colored)
    {
      var diffDict := if lineNo in diffInfo then diffInfo[lineNo] else map[];
      output := KindsLines(lineNo, diffDict);
      KindsOutputBoth(diffInfo, lineNo, |files|, colored);
      var next := if lineNo + 1 in diffInfo then diffInfo[lineNo + 1] else map[];
      if diffDict != map[] && next == map[] {
        output := output + Separator;
      } else {
        AppendEmpty(output);
      }
    }

    /** One step of the loop of `__str__`: the block of `lineNo`, if it prints anything. */
    method AddBlock(lineNo: int, output: seq<string>, termWidth: int) returns (r: seq<string>, printed: bool)
      requires LineRenderable(diffInfo, lineNo, colored)
      ensures r == output + BlockAt(diffInfo, lineNo, |files|, colored, termWidth)
      ensures printed <==> BlockAt(diffInfo, lineNo, |files|, colored, termWidth) != []
    {
      var out := GetLine(lineNo);
      var lines := NonEmptyLines(out);
      BlockAtOf(diffInfo, lineNo, out, |files|, colored, termWidth);
      if lines != [] {
        r := output + [Join("\n", LimitAll(lines, termWidth, colored))];
        printed := true;
      } else {
        AppendEmpty(output);
        r := output;
        printed := false;
      }
    }

    /** The loop of `__str__`: one block per line number in `keys` that prints something. */
    method WalkLines(keys: seq<int>, header: string, termWidth: int) returns (output: seq<string>, diff: bool)
      requires AllRenderable(diffInfo, keys, colored)
      ensures output == [header, Rule] + Blocks(diffInfo, keys, |files|, colored, termWidth)
      ensures diff <==> Blocks(diffInfo, keys, |files|, colored, termWidth) != []
    {
      output := [header, Rule];
      diff := false;
      ghost var blocks: seq<string> := [];
      for i := 0 to |keys|
        invariant AllRenderable(diffInfo, keys[..i], colored)
        invariant blocks == Blocks(diffInfo, keys[..i], |files|, colored, termWidth)
        invariant output == [header, Rule] + blocks
        invariant diff <==> blocks != []
      {
        SliceSnoc(keys, i);
        BlocksSnoc(diffInfo, keys[..i], keys[i], |files|, colored, termWidth);
        ghost var add := BlockAt(diffInfo, keys[i], |files|, colored, termWidth);
        AppendAssoc([header, Rule], blocks, add);
        var printed;
        output, printed := AddBlock(keys[i], output, termWidth);
        diff := diff || printed;
        blocks := blocks + add;
      }
      assert keys[..|keys|] == keys;
    }

    /** `__str__` over the line numbers `keys`. */
    method ReportOver(keys: seq<int>, termWidth: int) returns (text: string)
      requires AllRenderable(diffInfo, keys, colored)
      ensures text == ReportText(baseFn, files, colored, diffInfo, keys, termWidth)
    {
      var base := ColorLine(baseFn, Purple, colored);
      var filenames := Join(", ", Names(files));
      var header := "Comparing " + base + " with " + filenames;
      var output, diff := WalkLines(keys, header, termWidth);
      ReportLinesAppend(header, Blocks(diffInfo, keys, |files|, colored, termWidth));
      if !diff {
        output := output + [NoDiff];
      }
      output := output + [Rule];
      text := Join("\n", output);
    }

    /** `__str__` as written: `range(len(self.base_lines))`, line numbers 0 to one less than the number of base lines. */
    method ToStringAsWritten(termWidth: int) returns (text: string)
      requires AllRenderable(diffInfo, AsWrittenKeys(|baseLines|), colored)
      ensures text == ReportText(baseFn, files, colored, diffInfo, AsWrittenKeys(|baseLines|), termWidth)
    {
      text := ReportOver(AsWrittenKeys(|baseLines|), termWidth);
    }

    /**
     * `__str__`, walking the line numbers from 1 to one past the number of
     * base lines, so that every registered change is visited.
     */
    method ToString(termWidth: int) returns (text: string)
      requires Valid()
      ensures AllRenderable(diffInfo, ShownKeys(|baseLines|), colored)
      ensures text == ReportText(baseFn, files, colored, diffInfo, ShownKeys(|baseLines|), termWidth)
    {
      var keys := ShownKeys(|baseLines|);
      forall k | k in keys
        ensures LineRenderable(diffInfo, k, colored)
      {
        WellFormedRenderable(diffInfo, k, colored);
      }
      text := ReportOver(keys, termWidth);
    }
  }

  /** The inner loop of the feed: `parse_line` for each record of line number `n`, in order. */
  method FeedRecords(md: MultiDiff, n: int, recs: seq<Record>, squiglies: map<Option<string>, string>)
    requires md.Valid() && AllFeedable(recs)
    modifies md
    ensures md.Valid()
    ensures md.diffInfo == FeedInfo(old(md.diffInfo), n, recs, squiglies)
  {
    for j := 0 to |recs|
      invariant md.Valid() && AllFeedable(recs[..j])
      invariant md.diffInfo == FeedInfo(old(md.diffInfo), n, recs[..j], squiglies)
    {
      var (line, filename) := recs[j];
      var squigly := SquiglyFor(squiglies, line);
      RStripKeepsHead(line);
      var logged := md.ParseLine(n, RStrip(line), filename, RStrip(squigly));
      SliceSnoc(recs, j);
      FeedInfoSnoc(old(md.diffInfo), n, recs[..j], recs[j], squiglies);
    }
    assert recs[..|recs|] == recs;
  }

  /**
   * The feed of one file: `for line_no in local_diff`, the records of each
   * line number. The line numbers are taken in any order; what the store
   * gains does not depend on it.
   */
  method FeedLocal(md: MultiDiff, local: map<int, seq<Record>>, squiglies: map<Option<string>, string>)
    requires md.Valid() && AllLocalFeedable(local)
    modifies md
    ensures md.Valid()
    ensures FedBy(md.diffInfo, old(md.diffInfo), local, squiglies)
  {
    var remaining := local.Keys;
    ghost var done: seq<int> := [];
    while remaining != {}
      invariant remaining <= local.Keys && md.Valid() && Distinct(done)
      invariant forall i :: 0 <= i < |done| ==> done[i] in local && done[i] !in remaining
      invariant forall k :: k in local ==> k in remaining || k in done
      invariant md.diffInfo == FeedKeys(old(md.diffInfo), local, squiglies, done)
      decreases remaining
    {
      ghost var some := Member(remaining);
      var lineNo :| lineNo in remaining;
      FeedRecords(md, lineNo, local[lineNo], squiglies);
      FeedKeysSnoc(old(md.diffInfo), local, squiglies, done, lineNo);
      done := done + [lineNo];
      remaining := remaining - {lineNo};
    }
    FeedKeysFedBy(old(md.diffInfo), local, squiglies, done);
  }

  /** The body of the loop of `multidiff()` over the files: normalise one file's diff and feed it. */
  method FeedFile(md: MultiDiff, ghost diffs: seq<seq<string>>, ghost names: seq<string>, diff: seq<string>, filename: string)
    requires md.Valid() && |diffs| == |names| && Collects(md.diffInfo, diffs, names)
    modifies md
    ensures md.Valid() && Collects(md.diffInfo, diffs + [diff], names + [filename])
  {
    var local, squiglies := Normalise(diff, filename);
    GroupedFeedable(diff, filename, local);
    ghost var before := md.diffInfo;
    FeedLocal(md, local, squiglies);
    CollectsSnoc(before, md.diffInfo, diffs, names, diff, filename, local, squiglies);
  }

  /** The loop of `multidiff()` over the files. */
  method FeedFiles(md: MultiDiff, files: seq<string>, diffs: seq<seq<string>>)
    requires md.Valid() && md.diffInfo == map[] && |diffs| == |files|
    modifies md
    ensures md.Valid() && Collects(md.diffInfo, diffs, Names(files))
  {
    ghost var names := Names(files);
    CollectsNothing(map[]);
    for i := 0 to |files|
      invariant md.Valid() && Collects(md.diffInfo, diffs[..i], names[..i])
    {
      FeedFile(md, diffs[..i], names[..i], diffs[i], Basename(files[i]));
      SliceSnoc(diffs, i);
      SliceSnoc(names, i);
    }
    assert diffs[..|files|] == diffs && names[..|files|] == names;
  }

  /**
   * `multidiff()`: normalise and feed the diff of every file against the
   * base, then render the report. `diffs[i]` is the line diff of
   * `files[i]` against the base lines; `info` is the store it ends with.
   * `written` is the report over the source's walk, `text` the report over
   * the corrected walk; the two differ only when a change is anchored at
   * the number of base lines or one past it.
   */
  method RunMultiDiff(base: string, baseLines: seq<string>, files: seq<string>, diffs: seq<seq<string>>,
                      colored: bool, termWidth: int)
    returns (text: string, written: string, info: Info)
    requires |diffs| == |files|
    ensures WellFormed(info) && Collects(info, diffs, Names(files))
    ensures AllRenderable(info, ShownKeys(|baseLines|), colored)
    ensures text == ReportText(Basename(base), files, colored, info, ShownKeys(|baseLines|), termWidth)
    ensures AllRenderable(info, AsWrittenKeys(|baseLines|), colored)
    ensures written == ReportText(Basename(base), files, colored, info, AsWrittenKeys(|baseLines|), termWidth)
    ensures Silent(info, |baseLines|) && Silent(info, |baseLines| + 1) ==> written == text
  {
    var md := new MultiDiff(Basename(base), baseLines, files, colored);
    FeedFiles(md, files, diffs);
    CollectsNothingBelowOne(md.diffInfo, diffs, Names(files), 0);
    RendersFromOne(md.diffInfo, |baseLines|, colored);
    text := md.ToString(termWidth);
    written := md.ToStringAsWritten(termWidth);
    info := md.diffInfo;
    if Silent(info, |baseLines|) && Silent(info, |baseLines| + 1) {
      WalksAgree(info, |baseLines|, |files|, colored, termWidth);
    }
  }
}
