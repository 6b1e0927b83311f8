# Multi-diff report, modelled in Dafny

EasyBuild's `multidiff` compares several files with one base file. It runs a
line differ on each file against the base, files every changed line under a
base line number, and prints one report. For each base line number the report
shows:

- the `-` variants and then the `+` variants of that line;
- at most three variants of each kind, those shared by the fewest files first;
- for each variant, `(k/n)` (how many of the compared files produced it) and,
  unless all of them did, the names of those files;
- in colour mode, the changed characters highlighted with ANSI colours;
- otherwise, the squigly marker line under the variant.

The model covers `easybuild/tools/multidiff.py`:

- the `MultiDiff` class:
  - `parse_line`, which registers one diff line in the store `diff_info`;
  - `color_line` and `merge_squigly`;
  - `colorize`, which interleaves colour escapes with a line's characters;
  - `get_line`, which renders one base line;
  - `__str__` with its `limit` helper, which renders the whole report;
- `multidiff()`:
  - the normalising loop, which turns one file's diff into line-numbered records;
  - the feed, which hands those records to `parse_line`.

The modules follow that structure:

| module | file | models |
|---|---|---|
| `Ansi` | `ansi.dfy` | colour escapes as opaque tokens; what a terminal prints for a token sequence |
| `Strings` | `strings.dfy` | `rstrip`, `'%d'`, `join`, `*`, slicing, `int(log10(n))` |
| `Squiglies` | `squigly.dfy` | `merge_squigly` |
| `Colouring` | `colorize.dfy` | `colorize`, `color_line` |
| `Store` | `store.dfy` | `diff_info` and one `parse_line` registration, as values |
| `Normaliser` | `normalise.dfy` | the offset-tracking loop of `multidiff()` |
| `Feed` | `feed.dfy` | what the feed loop registers, per line number and kind |
| `LineRender` | `render.dfy` | what `get_line` prints |
| `Report` | `report.dfy` | `limit` and what `__str__` prints |
| `MultiDiffs` | `multidiff.dfy` | the `MultiDiff` class with its mutable store, and `multidiff()` |

Where the source changes state step by step, the model is imperative. This
covers the `MultiDiff` class, the normalising loop, the in-place loops of
`merge_squigly` and `colorize`, the grouping loops of `get_line`, the loop of
`__str__` and the feed loops. Each such method is proved equal to a function
of its inputs, and the properties of that function are proved as lemmas.

Line numbers are 1-based, as the code computes them: `offset` starts at 1,
and a change is filed under one more than the number of context and `+` lines
before it.

## Model

| member | source | states |
|---|---|---|
| `Squiglies.MergeSquigly` | easybuild/tools/multidiff.py:105-116 | the in-place overwrite loop returns `Merged(squigly1, squigly2)` |
| `Squiglies.MergedLength` | easybuild/tools/multidiff.py:107-110 | the merge is as long as the longer squigly; the second squigly is the base unless the first is strictly longer |
| `Squiglies.MergedColumns` | easybuild/tools/multidiff.py:110-114 | per column: a base marker other than `^` or blank is kept; columns past the shorter squigly are copied from the base; every other column takes the shorter squigly's marker |
| `Squiglies.MergedIdempotent` | easybuild/tools/multidiff.py:105-116 | merging a squigly with itself gives it back |
| `Squiglies.MergedEmpty` | easybuild/tools/multidiff.py:105-116 | merging with an empty squigly, on either side, gives the other back |
| `Squiglies.MergedOrderMatters` | easybuild/tools/multidiff.py:110-114 | the result depends on argument order: `-` against `+` keeps the base's marker, and a base `^` gives way to a blank |
| `Colouring.Colorize` | easybuild/tools/multidiff.py:118-146 | the insert-with-offset loop returns `Colorized`: the plain line when uncoloured; with a squigly, a reset and colour wherever the marker changes, a reset after the squigly's last column, then the rest of the line; without one, the colour of `line[0]`, the line, a reset |
| `Colouring.MarkChange` | easybuild/tools/multidiff.py:134-139 | a marker change at column `i` inserts a reset, then the colour of `^`, `-` or `+`, at `i + offset`; `offset` keeps counting the tokens inserted |
| `Colouring.ColorizedMeaning` | easybuild/tools/multidiff.py:118-146 | the terminal prints exactly the line's characters, in order; character `i` is in the colour of squigly marker `i` (`^` green under a `+` line and red otherwise, `-` red, `+` green, past the squigly none), or the colour of the first character when there is no squigly; no colour stays on afterwards |
| `Colouring.ColorizedUncoloured` | easybuild/tools/multidiff.py:120-121 | uncoloured mode returns the line unchanged |
| `Colouring.ColorLine` | easybuild/tools/multidiff.py:99-103 | colour mode wraps the line in the colour and a reset; uncoloured mode returns it unchanged |
| `Store.RegisterAppendsOne` | easybuild/tools/multidiff.py:93-97 | registering appends exactly one entry, to `diff_info[line_no][diff_line[0]]`, creating the dicts as needed; every other line, list and entry is unchanged |
| `Store.RegisterHasRecords` | easybuild/tools/multidiff.py:96-97 | after registering, the line number has records and a non-empty list under the line's first character |
| `Store.RegisterWellFormed` | easybuild/tools/multidiff.py:93-97 | registering keeps every entry under its own first character |
| `MultiDiffs.MultiDiff.constructor` | easybuild/tools/multidiff.py:71-82 | stores base name, base lines, files and mode; the store starts empty |
| `MultiDiffs.MultiDiff.ParseLine` | easybuild/tools/multidiff.py:84-97 | the new store is one `Register` step past the old one, and stays well formed; `logged` holds exactly when the first character is neither `-` nor `+`, and the line is registered either way |
| `Normaliser.Normalise` | easybuild/tools/multidiff.py:266-283 | the loop's `local_diff` files each `-`/`+` line under its anchor, in stream order; a key is present exactly when some change is anchored there; `squigly_dict` is `SquiglyDict` |
| `Normaliser.AddRecord` | easybuild/tools/multidiff.py:277 | `setdefault(key, []).append(r)` adds `key`, appends `r` to its list and leaves every other key alone |
| `Normaliser.LocalMapGrouped` | easybuild/tools/multidiff.py:270-283 | the stepwise `local_diff` groups the changes by anchor, each list in stream order |
| `Normaliser.Anchor` | easybuild/tools/multidiff.py:269-283 | `i + offset` is at least 1 and at most `i + 1` |
| `Normaliser.AnchorMonotone` | easybuild/tools/multidiff.py:269-283 | later diff lines never get a smaller line number |
| `Normaliser.AnchorCountsBaseLines` | easybuild/tools/multidiff.py:269-283 | the line number of position `i` is 1 plus the number of context and `+` lines before it |
| `Normaliser.PositionsMembership` | easybuild/tools/multidiff.py:272-283 | a position is recorded under a key exactly when it holds a `-`/`+` line anchored there; `?` and context lines are never recorded |
| `Normaliser.PositionsIncreasing` | easybuild/tools/multidiff.py:276-282 | each change is recorded once, in stream order |
| `Normaliser.AnchorIsBaseLineNumber` | easybuild/tools/multidiff.py:269-283 | when the diff's context and `+` lines are the base, a `+` line is filed under its own 1-based base line number, and a `-` line under the number of the base line after it |
| `Normaliser.SquigliesMeaning` | easybuild/tools/multidiff.py:272-274 | a squigly is kept under a text exactly when some `?` line follows a change with that text (`None` before any change); the last such `?` line wins |
| `Strings.RStrip` | easybuild/tools/multidiff.py:288 | `rstrip()` yields a prefix that does not end in whitespace, and only whitespace is removed |
| `Feed.EntryOf` | easybuild/tools/multidiff.py:288 | the registered entry keeps the diff line's first character, its text is a prefix of the diff line, and its meta is the file name |
| `Feed.LocalAtFeedable` | easybuild/tools/multidiff.py:276-288 | every normalised record is non-empty and starts with a non-blank character (its `-` or `+`), so `parse_line` gets a line with that first character after `rstrip()` |
| `Feed.AddedMeaning` | easybuild/tools/multidiff.py:286-288 | feeding a line number's records registers entries of a kind exactly when some record starts with that kind, and never more entries than records |
| `Feed.AddedFrom` | easybuild/tools/multidiff.py:286-288 | every registered entry of a kind is the stripped entry of a record starting with that kind |
| `Feed.AddedAllMeaning` | easybuild/tools/multidiff.py:252-288 | after all files are fed, a line number has a list under a kind exactly when some file has a change of that kind anchored there, and every entry in it starts with that kind |
| `Feed.FeedInfoEntries` | easybuild/tools/multidiff.py:287-288 | feeding the records of line number `n` appends to each of its lists exactly the entries of that kind, in order, and leaves every other line alone |
| `Feed.FeedInfoKinds` | easybuild/tools/multidiff.py:287-288 | feeding line number `n` adds exactly the records' first characters to its kinds |
| `Feed.FeedInfoWellFormed` | easybuild/tools/multidiff.py:287-288 | feeding keeps every entry under its own first character |
| `Feed.FeedKeysEntries` | easybuild/tools/multidiff.py:286-288 | feeding distinct line numbers in any order appends to each list the entries of that line number and kind only |
| `Feed.FeedKeysKinds` | easybuild/tools/multidiff.py:286-288 | feeding distinct line numbers in any order adds to each line exactly its records' kinds |
| `Feed.FeedKeysWellFormed` | easybuild/tools/multidiff.py:286-288 | feeding line numbers keeps the store well formed |
| `Feed.FeedKeysFedBy` | easybuild/tools/multidiff.py:286-288 | feeding every line number of `local_diff` once, in whatever order the dict yields them, gives the same store |
| `Feed.CollectsSnoc` | easybuild/tools/multidiff.py:252-288 | feeding the normalised diff of one more file extends the store by that file's entries, after those of the files before it |
| `MultiDiffs.FeedRecords` | easybuild/tools/multidiff.py:287-288 | the inner loop calls `parse_line` once per record with the stripped line and squigly, reaching `FeedInfo` of the old store |
| `MultiDiffs.FeedLocal` | easybuild/tools/multidiff.py:286-288 | the loop over `local_diff`'s keys, taken in an arbitrary order, leaves the store fed by the whole local diff |
| `MultiDiffs.FeedFile` | easybuild/tools/multidiff.py:253-288 | normalising and feeding one file extends what the store collects by that file |
| `MultiDiffs.FeedFiles` | easybuild/tools/multidiff.py:252-288 | after the loop over the files, the store holds exactly what feeding every file's diff, in order, registers |
| `MultiDiffs.RunMultiDiff` | easybuild/tools/multidiff.py:239-290 | the final store is well formed and collects every file's diff; `written`, what the source returns, is the report of that store over `range(len(base_lines))`; `text` is its report over every line number a change can have; the two are equal when line numbers `n` and `n + 1` are silent |
| `MultiDiffs.GroupVariants` | easybuild/tools/multidiff.py:157-169 | the grouping loop yields the distinct lines, `changes_dict` (the files of each line) and `squigly_dict` (each line's merged squigly) |
| `LineRender.TextsMembership` | easybuild/tools/multidiff.py:167 | a line is among the groups exactly when some entry carries it |
| `LineRender.TextsDistinct` | easybuild/tools/multidiff.py:167 | no line forms two groups |
| `LineRender.FilesMembership` | easybuild/tools/multidiff.py:169 | a file is listed for a line exactly when some entry of that line came from it |
| `LineRender.FilesDistinct` | easybuild/tools/multidiff.py:169 | no file is listed twice for a line, so `len(files)` counts distinct files |
| `LineRender.SquiglyOfPresent` | easybuild/tools/multidiff.py:162-166 | a line has a squigly exactly when one of its entries has a non-empty squigly |
| `LineRender.SquiglyOfLength` | easybuild/tools/multidiff.py:162-166 | a line's merged squigly is as long as the longest squigly registered with it |
| `MultiDiffs.SelectGroups` | easybuild/tools/multidiff.py:172 | the sort by file count, cut to `MAX_DIFF_GROUPS`, yields `Selected` |
| `LineRender.SortBySorted` | easybuild/tools/multidiff.py:172 | the sort orders by non-decreasing key |
| `LineRender.SortByPermutes` | easybuild/tools/multidiff.py:172 | the sort is a permutation of its input |
| `LineRender.SelectedMeaning` | easybuild/tools/multidiff.py:171-172 | exactly the smaller of 3 and the number of distinct lines, distinct, each a registered line, in non-decreasing file count; no line left out has fewer files than one shown; all are shown when there are at most 3 |
| `MultiDiffs.VariantOutput` | easybuild/tools/multidiff.py:175-192 | one group's output is `VariantLines`: its line, then in uncoloured mode its padded squigly |
| `LineRender.VariantLineMeaning` | easybuild/tools/multidiff.py:176-187 | a group's line is the line number, the coloured text and `(k/n)`, followed by the files only when `k != n`; `k` counts the distinct files that produced the text |
| `LineRender.PadAligned` | easybuild/tools/multidiff.py:189-192 | the padding `2 + int(log10(line_no))` puts the squigly right under the diff line, after the line number and its blank |
| `Strings.DigitCount` | easybuild/tools/multidiff.py:191 | `int(log10(n)) + 1` is the number of decimal digits of `n` |
| `MultiDiffs.EmitGroups` | easybuild/tools/multidiff.py:174-192 | the loop over the selected groups yields their outputs, one after the other |
| `MultiDiffs.MultiDiff.KindGroups` | easybuild/tools/multidiff.py:157-192 | one kind's grouping, selection and output yield `KindOutput` |
| `MultiDiffs.MultiDiff.KindsLines` | easybuild/tools/multidiff.py:156-192 | the loop over `[MINUS, PLUS]` yields the output of both kinds |
| `LineRender.KindsOutputBoth` | easybuild/tools/multidiff.py:156 | every `-` group comes before every `+` group |
| `MultiDiffs.MultiDiff.GetLine` | easybuild/tools/multidiff.py:148-198 | `get_line` returns `LineOutput`: the `-` groups, the `+` groups, then the separator if the line has records and the next one has none |
| `LineRender.NoRecordsNoOutput` | easybuild/tools/multidiff.py:155-198 | a line number with no records prints nothing |
| `LineRender.SeparatorIff` | easybuild/tools/multidiff.py:194-196 | for a line number with records, the `-----` rule is printed exactly when the next line number has none |
| `LineRender.LineOutputEmpty` | easybuild/tools/multidiff.py:155-198 | `get_line` returns nothing exactly when the line is silent (no records, or no `-`/`+` entries and no separator due) |
| `LineRender.KindOutputEmpty` | easybuild/tools/multidiff.py:160-174 | a kind prints something exactly when it has entries |
| `LineRender.LineOutputNoEmptyLine` | easybuild/tools/multidiff.py:226 | no line of `get_line`'s output is empty, so `filter(None, ...)` keeps it all |
| `LineRender.WellFormedRenderable` | easybuild/tools/multidiff.py:190-191 | a well-formed store can be rendered at every line number from 1, where `log10` is defined |
| `Report.LimitMeaning` | easybuild/tools/multidiff.py:204-213 | `limit` keeps a text no longer than the width; otherwise it keeps the first `width - 3` characters (a Python slice), adds a reset in colour mode, then `...`; when `width >= 3` the result is exactly `width` long, plus the reset in colour mode, and starts with the text's first `width - 3` characters |
| `Report.NonEmptyLines` | easybuild/tools/multidiff.py:226 | `filter(None, ...)` keeps no empty line, and keeps everything when no line is empty |
| `Report.LimitAll` | easybuild/tools/multidiff.py:228 | every line is cut to the terminal width, one for one |
| `Report.Basename` | easybuild/tools/multidiff.py:218 | `os.path.basename` is the suffix after the last `/`, and holds no `/` |
| `Report.Names` | easybuild/tools/multidiff.py:218 | `map(os.path.basename, files)`, one name per file |
| `Report.ReportLines` | easybuild/tools/multidiff.py:219-234 | the header and a rule come first and a rule comes last; "(no diff)" stands between them exactly when there are no blocks, and otherwise the blocks do |
| `Report.Blocks` | easybuild/tools/multidiff.py:224-229 | at most one block per line number walked |
| `MultiDiffs.MultiDiff.AddBlock` | easybuild/tools/multidiff.py:226-229 | one step of `__str__`'s loop appends the line number's block when it has one, and says whether it did |
| `MultiDiffs.MultiDiff.WalkLines` | easybuild/tools/multidiff.py:224-229 | the loop yields the header, the rule and every block in line-number order; `diff` is true exactly when there is a block |
| `MultiDiffs.MultiDiff.ReportOver` | easybuild/tools/multidiff.py:200-236 | the header, a rule, the blocks of the line numbers walked or "(no diff)", and a rule, joined by newlines: `ReportText` over those line numbers |
| `MultiDiffs.MultiDiff.ToStringAsWritten` | easybuild/tools/multidiff.py:200-236 | `__str__` as written returns `ReportText` over line numbers 0 to `len(base_lines) - 1` |
| `MultiDiffs.MultiDiff.ToString` | easybuild/tools/multidiff.py:200-236 | corrected `__str__` returns `ReportText` over line numbers 1 to `len(base_lines) + 1` |
| `Report.BlockShown` | easybuild/tools/multidiff.py:226-227 | a line number adds a block exactly when it is not silent |
| `Report.NoDiffIff` | easybuild/tools/multidiff.py:224-232 | "(no diff)" is printed exactly when every line number walked is silent |
| `Report.BlocksCover` | easybuild/tools/multidiff.py:224-229 | every line number walked that prints something has its block in the report |
| `Report.BlockMeaning` | easybuild/tools/multidiff.py:226-228 | a block is the line number's output lines, each cut to the terminal width, joined by newlines |
| `Report.AsWrittenKeys` | easybuild/tools/multidiff.py:225 | `range(len(base_lines))` is exactly 0 to `n - 1` |
| `Report.ShownKeys` | easybuild/tools/multidiff.py:225 | exactly 1 to `n + 1` |
| `Report.KeysSplit` | easybuild/tools/multidiff.py:225 | the source's walk is 0 followed by 1 to `n - 1`; the corrected walk is 1 to `n - 1` followed by `n` and `n + 1` |
| `Report.BlocksAppend` | easybuild/tools/multidiff.py:224-229 | walking two runs of line numbers in turn gives the blocks of the first, then those of the second |
| `Report.SilentBlocks` | easybuild/tools/multidiff.py:224-229 | line numbers that are all silent add no block |
| `Report.WalksAgreeAround` | easybuild/tools/multidiff.py:224-229 | a silent line number 0 before a run, or silent `n` and `n + 1` after it, add nothing to its blocks |
| `Report.WalksAgree` | easybuild/tools/multidiff.py:225 | the source's walk and the corrected walk give the same blocks when line numbers 0, `n` and `n + 1` are silent |
| `Report.RendersFromOne` | easybuild/tools/multidiff.py:190-191 | a well-formed store with nothing at line number 0 renders over both walks |
| `Feed.NothingBelowOne` | easybuild/tools/multidiff.py:269-288 | feeding registers nothing at a line number below 1 |
| `Feed.CollectsNothingBelowOne` | easybuild/tools/multidiff.py:269-288 | a store the feed built has no dict at a line number below 1 |
| `Report.ChangesWithinShownKeys` | easybuild/tools/multidiff.py:269-283 | every change the normaliser records has a line number from 1 to `n + 1` |
| `Report.TrailingDiffAnchor` | easybuild/tools/multidiff.py:269-283 | the removal in the example diff is filed under line number 2, the number of base lines |
| `Report.TrailingInfoRecords` | easybuild/tools/multidiff.py:93-97 | the example store has records at line number 2 only |
| `Report.TrailingPositions` | easybuild/tools/multidiff.py:269-283 | the example diff's only change is filed under line number 2 |
| `Report.TrailingFeed` | easybuild/tools/multidiff.py:252-288 | feeding the example diff as file `f` registers one `-` entry, at line number 2, and nothing else |
| `Report.TrailingInfoCollects` | easybuild/tools/multidiff.py:252-288 | the example store is exactly what feeding the example diff builds |
| `Report.AsWrittenMissesLastLine` | easybuild/tools/multidiff.py:225 | for the store the example diff feeds, walking `range(len(base_lines))`, the change is not reported: the blocks are empty, so the report says "(no diff)" |
| `Report.ShownKeysReportTrailing` | easybuild/tools/multidiff.py:225 | walking 1 to `n + 1`, the example's change is reported |
| `Report.ShownKeysReportEveryChange` | easybuild/tools/multidiff.py:224-229 | walking 1 to `n + 1`, every line number with a `-` or `+` entry has its block in the report |

## Left out

- The line differ (`difflib.Differ`, line 247) is a library algorithm. Each file's diff against the base is an input sequence of tagged lines (`"  "`, `"- "`, `"+ "`, `"? "`).
- The model does not check that an input diff is what the differ would emit. Properties that need the diff to agree with the base take the base-side lines as a hypothesis (`Normaliser.AnchorIsBaseLineNumber`, `Report.ChangesWithinShownKeys`).
- File reading and splitting (`read_file(...).split('\n')`, lines 248 and 253) are I/O. The base lines and the diffs are parameters of `MultiDiffs.RunMultiDiff`; the file paths are used only for their base names.
- `det_terminal_size()` (line 215) queries the environment. The terminal width is a parameter.
- Logging (`_log.error`, line 95) becomes the `logged` result of `MultiDiffs.MultiDiff.ParseLine`; the message text is not modelled.
- `math.log10` (line 191) is floating point. It is modelled as `Strings.Log10Floor`, the integer part for `line_no >= 1`.
- LineRender.LineRenderable: rendering is proved only where `log10` is defined, so uncoloured mode needs line number 1 or more for a line with a squigly. The source would raise an error at 0, but no change is ever filed under 0 (`Normaliser.Anchor`).
- Python set order (lines 157, 169, 185) is modelled as first-insertion order. This fixes the order of ties between equal counts and of the listed file names; `sorted` is modelled as a stable insertion sort (`LineRender.SortBy`).
- Dict iteration order of `local_diff` (line 286) is left arbitrary: `MultiDiffs.FeedLocal` picks the next line number with `:|`, and the resulting store is proved not to depend on the order.
- Colouring.Colorize: in colour mode without a squigly the line must be non-empty. The source would fail on `line[0]`, but registered diff lines always start with `-` or `+` (`Feed.EntryOf`).
- A `?` line before any change is stored under `None` (line 273) and never looked up. The model keeps it under `None` too.
- Python 2 `filter` and list semantics (line 226) are modelled only as dropping empty strings (`Report.NonEmptyLines`).
- Colour escapes are opaque tokens inside `colorize` and are rendered to their escape strings before `limit`, which counts their characters as the source does. Strings are sequences of characters, with no encoding.
- MultiDiffs.MultiDiff.ToString: walks line numbers 1 to `len(base_lines) + 1` instead of the source's 0 to `len(base_lines) - 1` (see Findings). Dropping 0 changes nothing, since line number 0 never has records (`Feed.CollectsNothingBelowOne`). Adding `n` and `n + 1` changes the output exactly when a change is filed there, which is the case the finding describes; otherwise the two walks agree (`Report.WalksAgree`). The source's walk is `MultiDiffs.MultiDiff.ToStringAsWritten`.
- MultiDiffs.RunMultiDiff: the source's `multidiff()` returns `written`, the report over `range(len(base_lines))`. `text`, the corrected report, is returned beside it, and the two are proved equal unless line number `n` or `n + 1` prints something.
- The default `colored=True` of `multidiff()` and of the constructor (lines 71 and 239) is not modelled. The colour mode is always passed explicitly.

## Findings

| source | as written | input that shows it | evidently intended | confidence | as-written member | corrected member |
|---|---|---|---|---|---|---|
| easybuild/tools/multidiff.py:225 | `__str__` walks `range(len(self.base_lines))`, line numbers 0 to `n - 1`, but the normaliser files changes under 1 to `n + 1` | base text `a\n` (lines `a`, ``) and a file `a\nb\n` (lines `a`, `b`, ``): the diff `  a`, `- b`, `  ` files the removal under line number 2 = `n`, which is never walked, and the report says "(no diff)" | walk every line number a change can have, 1 to `n + 1` | not executed | `Report.AsWrittenMissesLastLine` | `Report.ShownKeysReportEveryChange` |
