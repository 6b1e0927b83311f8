/**
 * What `MultiDiff.get_line` prints for one base line: for `-` and then `+`,
 * the distinct diff lines registered there, at most `MAX_DIFF_GROUPS` of
 * them, those shared by the fewest files first, each with the files it came
 * from; then a separator after the last line of a run of changed lines.
 *
 * Python sets are modelled as sequences in order of first insertion, which
 * fixes the order in which ties between equal counts and file names come
 * out; everything proved here holds for that order.
 */
module LineRender {
  import opened Wrappers
  import opened Ansi
  import opened Strings
  import opened Squiglies
  import opened Colouring
  import opened Store

  const MaxDiffGroups: nat := 3
  const SepWidth: nat := 5

  /** The lines printed after the last line of a run of changed lines. */
  const Separator: seq<string> := [" ", Repeat('-', SepWidth), " "]

  /** `lines`: the distinct diff lines among the entries, in order of first registration. */
  function Texts(es: seq<Entry>): seq<string>
  {
    if es == [] then []
    else
      var before := Texts(es[..|es| - 1]);
      if es[|es| - 1].text in before then before else before + [es[|es| - 1].text]
  }

  /** `changes_dict[text]`: the distinct files that produced `text`, in order of first registration. */
  function Files(es: seq<Entry>, text: string): seq<string>
  {
    if es == [] then []
    else
      var before := Files(es[..|es| - 1], text);
      var e := es[|es| - 1];
      if e.text == text && e.meta !in before then before + [e.meta] else before
  }

  /**
   * `squigly_dict.get(text)`: the non-empty squiglies registered with
   * `text`, each new one merged over the one kept so far.
   */
  function SquiglyOf(es: seq<Entry>, text: string): Option<string>
  {
    if es == [] then None
    else
      var before := SquiglyOf(es[..|es| - 1], text);
      var e := es[|es| - 1];
      if e.text == text && e.squigly != [] then
        Some(if before.Some? then Merged(e.squigly, before.value) else e.squigly)
      else before
  }

  /** `squigly_dict.get(text, '')`. */
  function SquiglyText(es: seq<Entry>, text: string): string
  {
    match SquiglyOf(es, text)
    case None => []
    case Some(s) => s
  }

  /** The number of distinct files that produced `text`. */
  function Count(es: seq<Entry>, text: string): nat
  {
    |Files(es, text)|
  }

  /** `len(changes_dict[line])`, the key the groups are sorted by. */
  function CountKey(es: seq<Entry>): string -> nat
  {
    t => Count(es, t)
  }

  /** Insert `t` after every element whose key is at most its own. */
  function InsertBy(key: string -> nat, t: string, s: seq<string>): seq<string>
  {
    if s == [] then [t]
    else if key(s[|s| - 1]) <= key(t) then s + [t]
    else InsertBy(key, t, s[..|s| - 1]) + [s[|s| - 1]]
  }

  /** `sorted(ts, key=key)`: Python's sort is stable, and so is this insertion sort. */
  function SortBy(key: string -> nat, ts: seq<string>): seq<string>
  {
    if ts == [] then [] else InsertBy(key, ts[|ts| - 1], SortBy(key, ts[..|ts| - 1]))
  }

  predicate SortedBy(key: string -> nat, s: seq<string>)
  {
    forall i, j :: 0 <= i < j < |s| ==> key(s[i]) <= key(s[j])
  }

  predicate SortedByCount(es: seq<Entry>, s: seq<string>)
  {
    forall i, j :: 0 <= i < j < |s| ==> Count(es, s[i]) <= Count(es, s[j])
  }

  /** The groups shown: the distinct lines sorted by count, at most `MAX_DIFF_GROUPS` of them. */
  function Selected(es: seq<Entry>): seq<string>
  {
    var sorted := SortBy(CountKey(es), Texts(es));
    sorted[..Min(MaxDiffGroups, |sorted|)]
  }

  /** The entries of one kind can be printed: every text is non-empty, and the line number has a logarithm where a squigly is padded. */
  predicate Renderable(es: seq<Entry>, lineNo: int, colored: bool)
  {
    && (forall e :: e in es ==> e.text != [])
    && (colored || lineNo >= 1 || forall e :: e in es ==> e.squigly == [])
  }

  /**
   * `'%s %s' % (line_no, colorize(text, squigly))`, then `(k/n)` with `k`
   * the number of files that produced the text and `n` the number of files
   * compared, then those files unless they are all of them, joined by blanks.
   */
  function VariantLine(lineNo: int, es: seq<Entry>, text: string, numFiles: nat, colored: bool): (r: string)
    requires text != []
    ensures IntToString(lineNo) + " " <= r
  {
    var files := Files(es, text);
    var head := IntToString(lineNo) + " " + Render(Colorized(text, SquiglyText(es, text), colored));
    var fraction := "(" + NatToString(|files|) + "/" + NatToString(numFiles) + ")";
    var parts := [head, fraction] + (if |files| != numFiles then [Join(", ", files)] else []);
    JoinHead(" ", parts);
    Join(" ", parts)
  }

  /** In uncoloured mode, the squigly under the diff line: `' ' * (2 + int(math.log10(line_no)))` before it. */
  function PadLine(lineNo: int, squigly: string): (r: string)
    requires lineNo >= 1
  {
    Repeat(' ', 2 + Log10Floor(lineNo)) + squigly
  }

  /** The output for one group: its line, and in uncoloured mode its squigly under it. */
  function VariantLines(lineNo: int, es: seq<Entry>, text: string, numFiles: nat, colored: bool): seq<string>
    requires text != [] && (colored || lineNo >= 1 || SquiglyText(es, text) == [])
  {
    [VariantLine(lineNo, es, text, numFiles, colored)] +
    (if !colored && SquiglyText(es, text) != [] then [PadLine(lineNo, SquiglyText(es, text))] else [])
  }

  predicate Printable(es: seq<Entry>, ts: seq<string>, lineNo: int, colored: bool)
  {
    forall i :: 0 <= i < |ts| ==> ts[i] != [] && (colored || lineNo >= 1 || SquiglyText(es, ts[i]) == [])
  }

  /** The output for the groups `ts`, one after the other. */
  function KindLines(lineNo: int, es: seq<Entry>, ts: seq<string>, numFiles: nat, colored: bool): seq<string>
    requires Printable(es, ts, lineNo, colored)
  {
    if ts == [] then []
    else KindLines(lineNo, es, ts[..|ts| - 1], numFiles, colored) +
         VariantLines(lineNo, es, ts[|ts| - 1], numFiles, colored)
  }

  /** The groups' lines, one group after the other. */
  function Concat(gs: seq<seq<string>>): seq<string>
  {
    if gs == [] then [] else Concat(gs[..|gs| - 1]) + gs[|gs| - 1]
  }

  lemma ConcatSnoc(gs: seq<seq<string>>, g: seq<string>)
    ensures Concat(gs + [g]) == Concat(gs) + g
  {
    SnocInit(gs, g);
  }

  /** `gs` holds the lines of each of the groups `ts`. */
  predicate GroupsRendered(lineNo: int, es: seq<Entry>, ts: seq<string>, gs: seq<seq<string>>,
                           numFiles: nat, colored: bool)
  {
    |gs| == |ts| &&
    forall k :: 0 <= k < |ts| ==>
      ts[k] != [] && (colored || lineNo >= 1 || SquiglyText(es, ts[k]) == []) &&
      gs[k] == VariantLines(lineNo, es, ts[k], numFiles, colored)
  }

  lemma GroupsRenderedSnoc(lineNo: int, es: seq<Entry>, ts: seq<string>, gs: seq<seq<string>>,
                           t: string, g: seq<string>, numFiles: nat, colored: bool)
    requires GroupsRendered(lineNo, es, ts, gs, numFiles, colored)
    requires t != [] && (colored || lineNo >= 1 || SquiglyText(es, t) == [])
    requires g == VariantLines(lineNo, es, t, numFiles, colored)
    ensures GroupsRendered(lineNo, es, ts + [t], gs + [g], numFiles, colored)
  {
  }

  /** The lines of the groups `ts`, computed group by group, are `KindLines` of them. */
  lemma {:induction false} KindLinesConcat(lineNo: int, es: seq<Entry>, ts: seq<string>, gs: seq<seq<string>>,
                                           numFiles: nat, colored: bool)
    requires GroupsRendered(lineNo, es, ts, gs, numFiles, colored)
    ensures Printable(es, ts, lineNo, colored)
    ensures Concat(gs) == KindLines(lineNo, es, ts, numFiles, colored)
  {
    if ts != [] {
      var n := |ts| - 1;
      assert GroupsRendered(lineNo, es, ts[..n], gs[..n], numFiles, colored);
      KindLinesConcat(lineNo, es, ts[..n], gs[..n], numFiles, colored);
    }
  }

  /** The output of `get_line` for one kind (`-` or `+`). */
  function KindOutput(lineNo: int, es: seq<Entry>, numFiles: nat, colored: bool): seq<string>
    requires Renderable(es, lineNo, colored)
  {
    SelectedPrintable(es, lineNo, colored);
    KindLines(lineNo, es, Selected(es), numFiles, colored)
  }

  /** Both kinds of line `lineNo` can be printed. */
  predicate LineRenderable(info: Info, lineNo: int, colored: bool)
  {
    Renderable(EntriesOf(info, lineNo, Minus), lineNo, colored) &&
    Renderable(EntriesOf(info, lineNo, Plus), lineNo, colored)
  }

  /** The output for the kinds `kinds`, one after the other. */
  function KindsOutput(info: Info, lineNo: int, kinds: seq<char>, numFiles: nat, colored: bool): seq<string>
    requires forall kind :: kind in kinds ==> Renderable(EntriesOf(info, lineNo, kind), lineNo, colored)
  {
    if kinds == [] then []
    else KindsOutput(info, lineNo, kinds[..|kinds| - 1], numFiles, colored) +
         KindOutput(lineNo, EntriesOf(info, lineNo, kinds[|kinds| - 1]), numFiles, colored)
  }

  lemma KindsOutputSnoc(info: Info, lineNo: int, kinds: seq<char>, kind: char, numFiles: nat, colored: bool)
    requires forall k :: k in kinds ==> Renderable(EntriesOf(info, lineNo, k), lineNo, colored)
    requires Renderable(EntriesOf(info, lineNo, kind), lineNo, colored)
    ensures forall k :: k in kinds + [kind] ==> Renderable(EntriesOf(info, lineNo, k), lineNo, colored)
    ensures KindsOutput(info, lineNo, kinds + [kind], numFiles, colored) ==
            KindsOutput(info, lineNo, kinds, numFiles, colored) +
            KindOutput(lineNo, EntriesOf(info, lineNo, kind), numFiles, colored)
  {
    SnocInit(kinds, kind);
  }

  /** `-` then `+`. */
  lemma KindsOutputBoth(info: Info, lineNo: int, numFiles: nat, colored: bool)
    requires LineRenderable(info, lineNo, colored)
    ensures forall k :: k in [Minus, Plus] ==> Renderable(EntriesOf(info, lineNo, k), lineNo, colored)
    ensures KindsOutput(info, lineNo, [Minus, Plus], numFiles, colored) ==
            KindOutput(lineNo, EntriesOf(info, lineNo, Minus), numFiles, colored) +
            KindOutput(lineNo, EntriesOf(info, lineNo, Plus), numFiles, colored)
  {
    var a := KindOutput(lineNo, EntriesOf(info, lineNo, Minus), numFiles, colored);
    var b := KindOutput(lineNo, EntriesOf(info, lineNo, Plus), numFiles, colored);
    assert [Minus, Plus][..1] == [Minus];
    assert [Minus][..0] == [];
    assert KindsOutput(info, lineNo, [Minus], numFiles, colored) == [] + a;
    assert KindsOutput(info, lineNo, [Minus, Plus], numFiles, colored) == ([] + a) + b;
    EmptyAppend(a);
  }

  /**
   * `get_line(line_no)`: the `-` groups, then the `+` groups, then the
   * separator if the line has records and the next one has none.
   */
  function LineOutput(info: Info, lineNo: int, numFiles: nat, colored: bool): seq<string>
    requires LineRenderable(info, lineNo, colored)
  {
    KindOutput(lineNo, EntriesOf(info, lineNo, Minus), numFiles, colored) +
    KindOutput(lineNo, EntriesOf(info, lineNo, Plus), numFiles, colored) +
    (if HasRecords(info, lineNo) && !HasRecords(info, lineNo + 1) then Separator else [])
  }

  /** One more entry adds its line to the distinct lines unless it is there already. */
  lemma TextsStep(es: seq<Entry>, i: nat)
    requires i < |es|
    ensures Texts(es[..i + 1]) ==
            if es[i].text in Texts(es[..i]) then Texts(es[..i]) else Texts(es[..i]) + [es[i].text]
  {
    assert es[..i + 1][..i] == es[..i];
  }

  /** One more entry adds its file to the files of its own line unless it is there already. */
  lemma FilesStep(es: seq<Entry>, i: nat)
    requires i < |es|
    ensures forall t :: (Files(es[..i + 1], t) ==
              if es[i].text == t && es[i].meta !in Files(es[..i], t)
              then Files(es[..i], t) + [es[i].meta] else Files(es[..i], t))
  {
    assert es[..i + 1][..i] == es[..i];
  }

  /** One more entry with a squigly merges it over the squigly of its own line. */
  lemma SquiglyOfStep(es: seq<Entry>, i: nat)
    requires i < |es|
    ensures forall t :: (SquiglyOf(es[..i + 1], t) ==
              if es[i].text == t && es[i].squigly != [] then
                Some(if SquiglyOf(es[..i], t).Some? then Merged(es[i].squigly, SquiglyOf(es[..i], t).value) else es[i].squigly)
              else SquiglyOf(es[..i], t))
  {
    assert es[..i + 1][..i] == es[..i];
  }

  // ----- the distinct lines and files -----

  /** A line is among the groups exactly when some entry carries it. */
  lemma {:induction false} TextsMembership(es: seq<Entry>, t: string)
    ensures t in Texts(es) <==> exists i :: 0 <= i < |es| && es[i].text == t
  {
    if es != [] {
      var before := es[..|es| - 1];
      TextsMembership(before, t);
      if exists i :: 0 <= i < |before| && before[i].text == t {
        var i :| 0 <= i < |before| && before[i].text == t;
        assert es[i].text == t;
      }
    }
  }

  /** No line forms two groups. */
  lemma {:induction false} TextsDistinct(es: seq<Entry>)
    ensures Distinct(Texts(es))
  {
    if es != [] {
      TextsDistinct(es[..|es| - 1]);
    }
  }

  /** A file is listed for a line exactly when some entry of that line came from it. */
  lemma {:induction false} FilesMembership(es: seq<Entry>, t: string, m: string)
    ensures m in Files(es, t) <==> exists i :: 0 <= i < |es| && es[i].text == t && es[i].meta == m
  {
    if es != [] {
      var before := es[..|es| - 1];
      FilesMembership(before, t, m);
      if exists i :: 0 <= i < |before| && before[i].text == t && before[i].meta == m {
        var i :| 0 <= i < |before| && before[i].text == t && before[i].meta == m;
        assert es[i].text == t && es[i].meta == m;
      }
    }
  }

  /** `changes_dict` after the entries `es`: each distinct line, with the files that produced it. */
  function ChangesDict(es: seq<Entry>): map<string, seq<string>>
  {
    map t | t in Texts(es) :: Files(es, t)
  }

  /** `squigly_dict` after the entries `es`: each line that has a squigly, with its merged squigly. */
  function SquigliesDict(es: seq<Entry>): map<string, string>
  {
    map t | t in Texts(es) && SquiglyOf(es, t).Some? :: SquiglyOf(es, t).value
  }

  /** Only lines some entry carries have a squigly. */
  lemma {:induction false} SquiglyOfAbsent(es: seq<Entry>, t: string)
    ensures t !in Texts(es) ==> SquiglyOf(es, t) == None
  {
    if es != [] {
      SquiglyOfAbsent(es[..|es| - 1], t);
    }
  }

  /** One more entry updates `changes_dict` at its own line only. */
  lemma ChangesDictStep(es: seq<Entry>, i: nat)
    requires i < |es|
    ensures ChangesDict(es[..i + 1]) == ChangesDict(es[..i])[es[i].text := Files(es[..i + 1], es[i].text)]
  {
    TextsStep(es, i);
    FilesStep(es, i);
  }

  /** One more entry with a squigly updates `squigly_dict` at its own line only; one without leaves it alone. */
  lemma SquigliesDictStep(es: seq<Entry>, i: nat)
    requires i < |es|
    ensures es[i].squigly != [] ==>
            SquigliesDict(es[..i + 1]) ==
            SquigliesDict(es[..i])[es[i].text := SquiglyOf(es[..i + 1], es[i].text).value]
    ensures es[i].squigly == [] ==> SquigliesDict(es[..i + 1]) == SquigliesDict(es[..i])
  {
    var before, after, e := es[..i], es[..i + 1], es[i];
    TextsStep(es, i);
    SquiglyOfStep(es, i);
    forall t | t !in Texts(before)
      ensures SquiglyOf(before, t) == None
    {
      SquiglyOfAbsent(before, t);
    }
    if e.squigly != [] {
      var m := SquigliesDict(before)[e.text := SquiglyOf(after, e.text).value];
      assert SquigliesDict(after).Keys == m.Keys;
      assert forall t :: t in m ==> SquigliesDict(after)[t] == m[t];
    } else {
      assert SquigliesDict(after).Keys == SquigliesDict(before).Keys;
    }
  }

  /** A line no entry carries has no files. */
  lemma {:induction false} FilesOfAbsent(es: seq<Entry>, t: string)
    ensures t !in Texts(es) ==> Files(es, t) == []
  {
    if es != [] {
      FilesOfAbsent(es[..|es| - 1], t);
    }
  }

  /** No file is listed twice, so the count is the number of distinct files. */
  lemma {:induction false} FilesDistinct(es: seq<Entry>, t: string)
    ensures Distinct(Files(es, t))
  {
    if es != [] {
      FilesDistinct(es[..|es| - 1], t);
    }
  }

  /** A line has a squigly exactly when one of its entries has a non-empty squigly. */
  lemma {:induction false} SquiglyOfPresent(es: seq<Entry>, t: string)
    ensures SquiglyOf(es, t).Some? <==> exists i :: 0 <= i < |es| && es[i].text == t && es[i].squigly != []
  {
    if es != [] {
      var before := es[..|es| - 1];
      SquiglyOfPresent(before, t);
      if exists i :: 0 <= i < |before| && before[i].text == t && before[i].squigly != [] {
        var i :| 0 <= i < |before| && before[i].text == t && before[i].squigly != [];
        assert es[i] == before[i];
      }
    }
  }

  /** The merged squigly of a line is as long as the longest squigly registered with it. */
  lemma {:induction false} SquiglyOfLength(es: seq<Entry>, t: string)
    requires SquiglyOf(es, t).Some?
    ensures SquiglyOf(es, t).value != []
    ensures forall i :: 0 <= i < |es| && es[i].text == t ==> |es[i].squigly| <= |SquiglyOf(es, t).value|
    ensures exists i :: 0 <= i < |es| && es[i].text == t && |es[i].squigly| == |SquiglyOf(es, t).value|
  {
    var before := es[..|es| - 1];
    var e := es[|es| - 1];
    var r := SquiglyOf(es, t).value;
    assert forall i :: 0 <= i < |before| ==> es[i] == before[i];
    if SquiglyOf(before, t).Some? {
      SquiglyOfLength(before, t);
      var prev := SquiglyOf(before, t).value;
      var k :| 0 <= k < |before| && before[k].text == t && |before[k].squigly| == |prev|;
      if e.text == t && e.squigly != [] {
        MergedLength(e.squigly, prev);
        if |e.squigly| >= |prev| {
          assert |es[|es| - 1].squigly| == |r|;
        } else {
          assert |es[k].squigly| == |r|;
        }
      } else {
        assert |es[k].squigly| == |r|;
      }
    } else {
      SquiglyOfPresent(before, t);
      assert forall i :: 0 <= i < |before| && before[i].text == t ==> before[i].squigly == [];
      assert |es[|es| - 1].squigly| == |r|;
    }
  }

  // ----- sorting and selection -----

  lemma {:induction false} InsertByPermutes(key: string -> nat, t: string, s: seq<string>)
    ensures multiset(InsertBy(key, t, s)) == multiset(s) + multiset{t}
  {
    if s != [] && key(s[|s| - 1]) > key(t) {
      InsertByPermutes(key, t, s[..|s| - 1]);
      assert s == s[..|s| - 1] + [s[|s| - 1]];
    }
  }

  lemma SortedAppend(key: string -> nat, s: seq<string>, x: string)
    requires SortedBy(key, s)
    requires forall y :: y in s ==> key(y) <= key(x)
    ensures SortedBy(key, s + [x])
  {
    forall i, j | 0 <= i < j < |s + [x]|
      ensures key((s + [x])[i]) <= key((s + [x])[j])
    {
      if j == |s| {
        assert (s + [x])[i] in s;
      }
    }
  }

  lemma {:induction false} InsertBySorted(key: string -> nat, t: string, s: seq<string>)
    requires SortedBy(key, s)
    ensures SortedBy(key, InsertBy(key, t, s))
  {
    if s != [] {
      var last := s[|s| - 1];
      var init := s[..|s| - 1];
      if key(last) <= key(t) {
        SortedAppend(key, s, t);
      } else {
        InsertBySorted(key, t, init);
        InsertByPermutes(key, t, init);
        forall y | y in InsertBy(key, t, init)
          ensures key(y) <= key(last)
        {
          assert y in multiset(InsertBy(key, t, init));
          if y != t {
            assert y in init;
            var k :| 0 <= k < |init| && init[k] == y;
            assert s[k] == y;
          }
        }
        SortedAppend(key, InsertBy(key, t, init), last);
      }
    }
  }

  /** The sort orders by non-decreasing key. */
  lemma {:induction false} SortBySorted(key: string -> nat, ts: seq<string>)
    ensures SortedBy(key, SortBy(key, ts))
  {
    if ts != [] {
      SortBySorted(key, ts[..|ts| - 1]);
      InsertBySorted(key, ts[|ts| - 1], SortBy(key, ts[..|ts| - 1]));
    }
  }

  /** The sort keeps exactly the same lines. */
  lemma {:induction false} SortByPermutes(key: string -> nat, ts: seq<string>)
    ensures multiset(SortBy(key, ts)) == multiset(ts)
  {
    if ts != [] {
      var init, last := ts[..|ts| - 1], ts[|ts| - 1];
      SortByPermutes(key, init);
      InsertByPermutes(key, last, SortBy(key, init));
      assert multiset(ts) == multiset(init) + multiset{last} by {
        assert ts == init + [last];
      }
    }
  }

  /** Sorting only looks at the keys of the elements sorted. */
  lemma {:induction false} InsertByAgree(k1: string -> nat, k2: string -> nat, t: string, s: seq<string>)
    requires forall u :: u in s || u == t ==> k1(u) == k2(u)
    ensures InsertBy(k1, t, s) == InsertBy(k2, t, s)
  {
    if s != [] {
      assert s[|s| - 1] in s;
      InsertByAgree(k1, k2, t, s[..|s| - 1]);
    }
  }

  lemma {:induction false} SortByAgree(k1: string -> nat, k2: string -> nat, ts: seq<string>)
    requires forall u :: u in ts ==> k1(u) == k2(u)
    ensures SortBy(k1, ts) == SortBy(k2, ts)
  {
    if ts != [] {
      var init := ts[..|ts| - 1];
      SortByAgree(k1, k2, init);
      SortByPermutes(k1, init);
      forall u | u in SortBy(k1, init) || u == ts[|ts| - 1]
        ensures k1(u) == k2(u)
      {
        if u != ts[|ts| - 1] {
          assert u in multiset(SortBy(k1, init));
          assert u in init;
        }
      }
      InsertByAgree(k1, k2, ts[|ts| - 1], SortBy(k1, init));
    }
  }

  /** A sequence with the same elements as a distinct one is distinct. */
  lemma PermutationDistinct(s: seq<string>, t: seq<string>)
    requires Distinct(s) && multiset(s) == multiset(t)
    ensures Distinct(t)
  {
    forall i, j | 0 <= i < j < |t|
      ensures t[i] != t[j]
    {
      if t[i] == t[j] {
        assert t == t[..i] + [t[i]] + t[i + 1..j] + [t[j]] + t[j + 1..];
        assert multiset(t)[t[i]] >= 2;
        DistinctCount(s, t[i]);
      }
    }
  }

  lemma {:induction false} DistinctCount(s: seq<string>, x: string)
    requires Distinct(s)
    ensures multiset(s)[x] <= 1
  {
    if s != [] {
      var init := s[..|s| - 1];
      DistinctCount(init, x);
      assert s == init + [s[|s| - 1]];
      if s[|s| - 1] == x {
        forall k | 0 <= k < |init|
          ensures init[k] != x
        {
          assert s[k] == init[k];
        }
      }
    }
  }

  /** The sorted lines are the distinct lines, reordered. */
  lemma SortedTexts(es: seq<Entry>)
    ensures |SortBy(CountKey(es), Texts(es))| == |Texts(es)|
    ensures Distinct(SortBy(CountKey(es), Texts(es)))
    ensures forall t :: t in SortBy(CountKey(es), Texts(es)) <==> t in Texts(es)
  {
    var sorted := SortBy(CountKey(es), Texts(es));
    SortByPermutes(CountKey(es), Texts(es));
    TextsDistinct(es);
    PermutationDistinct(Texts(es), sorted);
    assert |multiset(sorted)| == |multiset(Texts(es))|;
    forall t
      ensures t in sorted <==> t in Texts(es)
    {
      assert t in sorted <==> t in multiset(sorted);
    }
  }

  /** Lines left out of the selection come after it in the sorted order, so none has a smaller count. */
  lemma SelectedKeepsFewest(es: seq<Entry>, t: string, u: string)
    requires t in Selected(es) && u in Texts(es) && u !in Selected(es)
    ensures Count(es, t) <= Count(es, u)
  {
    var sorted := SortBy(CountKey(es), Texts(es));
    var n := Min(MaxDiffGroups, |sorted|);
    SortedTexts(es);
    SortBySorted(CountKey(es), Texts(es));
    var i :| 0 <= i < n && sorted[i] == t;
    var j :| 0 <= j < |sorted| && sorted[j] == u;
    assert forall k :: 0 <= k < n ==> Selected(es)[k] == sorted[k];
    assert j >= n;
  }

  /** Every group shown is a distinct line of the entries. */
  lemma SelectedInTexts(es: seq<Entry>)
    ensures forall t :: t in Selected(es) ==> t in Texts(es)
  {
    var sorted := SortBy(CountKey(es), Texts(es));
    SortedTexts(es);
    forall t | t in Selected(es)
      ensures t in Texts(es)
    {
      var i :| 0 <= i < |Selected(es)| && Selected(es)[i] == t;
      assert sorted[i] in sorted;
    }
  }

  /**
   * The groups shown: at most `MAX_DIFF_GROUPS`, each a distinct line of
   * the entries, in non-decreasing order of file count; every line left out
   * is shared by at least as many files as any line shown; and when there
   * are at most `MAX_DIFF_GROUPS` lines, all of them are shown.
   */
  lemma SelectedMeaning(es: seq<Entry>)
    ensures |Selected(es)| == Min(MaxDiffGroups, |Texts(es)|)
    ensures Distinct(Selected(es))
    ensures SortedByCount(es, Selected(es))
    ensures forall t :: t in Selected(es) ==> t in Texts(es)
    ensures forall t, u :: t in Selected(es) && u in Texts(es) && u !in Selected(es) ==>
              Count(es, t) <= Count(es, u)
    ensures |Texts(es)| <= MaxDiffGroups ==> forall t :: t in Selected(es) <==> t in Texts(es)
  {
    SortedTexts(es);
    SelectedOrdered(es);
    SelectedInTexts(es);
    forall t, u | t in Selected(es) && u in Texts(es) && u !in Selected(es)
      ensures Count(es, t) <= Count(es, u)
    {
      SelectedKeepsFewest(es, t, u);
    }
    if |Texts(es)| <= MaxDiffGroups {
      assert Selected(es) == SortBy(CountKey(es), Texts(es));
    }
  }

  /** The groups shown are distinct and in non-decreasing order of file count. */
  lemma SelectedOrdered(es: seq<Entry>)
    ensures Distinct(Selected(es)) && SortedByCount(es, Selected(es))
  {
    var sorted := SortBy(CountKey(es), Texts(es));
    var sel := Selected(es);
    SortedTexts(es);
    SortBySorted(CountKey(es), Texts(es));
    forall i, j | 0 <= i < j < |sel|
      ensures Count(es, sel[i]) <= Count(es, sel[j]) && sel[i] != sel[j]
    {
      assert sel[i] == sorted[i] && sel[j] == sorted[j];
      assert CountKey(es)(sorted[i]) <= CountKey(es)(sorted[j]);
    }
  }

  /** Every line shown has a non-empty text, and its squigly needs padding only where the line number allows it. */
  lemma SelectedPrintable(es: seq<Entry>, lineNo: int, colored: bool)
    requires Renderable(es, lineNo, colored)
    ensures Printable(es, Selected(es), lineNo, colored)
  {
    SelectedMeaning(es);
    forall i | 0 <= i < |Selected(es)|
      ensures Selected(es)[i] != [] && (colored || lineNo >= 1 || SquiglyText(es, Selected(es)[i]) == [])
    {
      var t := Selected(es)[i];
      TextsMembership(es, t);
      var k :| 0 <= k < |es| && es[k].text == t;
      assert es[k] in es;
      if !colored && lineNo < 1 {
        SquiglyOfPresent(es, t);
        forall j | 0 <= j < |es|
          ensures es[j].squigly == []
        {
          assert es[j] in es;
        }
      }
    }
  }

  // ----- the shape of the output -----

  /** The uncoloured squigly starts under the first character of the coloured diff line. */
  lemma PadAligned(lineNo: int, squigly: string)
    requires lineNo >= 1
    ensures |PadLine(lineNo, squigly)| == |IntToString(lineNo) + " "| + |squigly|
    ensures PadLine(lineNo, squigly)[|IntToString(lineNo) + " "|..] == squigly
  {
    DigitCount(lineNo);
  }

  /**
   * A group's line: the line number, the coloured diff line, `(k/n)` with
   * `k` the number of distinct files that produced that text and `n` the
   * number of files compared, then those files, comma-separated, only when
   * `k != n`.
   */
  lemma VariantLineMeaning(lineNo: int, es: seq<Entry>, text: string, numFiles: nat, colored: bool, m: string)
    requires text != []
    ensures var head := IntToString(lineNo) + " " + Render(Colorized(text, SquiglyText(es, text), colored));
            var fraction := "(" + NatToString(Count(es, text)) + "/" + NatToString(numFiles) + ")";
            VariantLine(lineNo, es, text, numFiles, colored) ==
              if Count(es, text) != numFiles then head + " " + fraction + " " + Join(", ", Files(es, text))
              else head + " " + fraction
    ensures Distinct(Files(es, text))
    ensures m in Files(es, text) <==> exists i :: 0 <= i < |es| && es[i].text == text && es[i].meta == m
  {
    var head := IntToString(lineNo) + " " + Render(Colorized(text, SquiglyText(es, text), colored));
    var fraction := "(" + NatToString(Count(es, text)) + "/" + NatToString(numFiles) + ")";
    if Count(es, text) != numFiles {
      var files := Join(", ", Files(es, text));
      assert [head, fraction] + [files] == [head, fraction, files];
      JoinTriple(" ", head, fraction, files);
    } else {
      AppendEmpty([head, fraction]);
      JoinPair(" ", head, fraction);
    }
    FilesDistinct(es, text);
    FilesMembership(es, text, m);
  }

  /** No group line is empty, and none is the separator's rule. */
  lemma {:induction false} KindLinesShape(lineNo: int, es: seq<Entry>, ts: seq<string>, numFiles: nat, colored: bool)
    requires Printable(es, ts, lineNo, colored)
    ensures forall l :: l in KindLines(lineNo, es, ts, numFiles, colored) ==> l != [] && l != Repeat('-', SepWidth)
  {
    var rule := Repeat('-', SepWidth);
    if ts != [] {
      var t := ts[|ts| - 1];
      KindLinesShape(lineNo, es, ts[..|ts| - 1], numFiles, colored);
      var v := VariantLine(lineNo, es, t, numFiles, colored);
      var digits := NatToString(if lineNo < 0 then -lineNo else lineNo);
      if lineNo < 0 {
        assert v[1] == digits[0];
      } else {
        assert v[0] == digits[0];
      }
      assert v != rule;
      if !colored && SquiglyText(es, t) != [] {
        assert PadLine(lineNo, SquiglyText(es, t))[0] == ' ';
      }
    }
  }

  /** `filter(None, ...)` keeps every line `get_line` returns: none is empty. */
  lemma LineOutputNoEmptyLine(info: Info, lineNo: int, numFiles: nat, colored: bool)
    requires LineRenderable(info, lineNo, colored)
    ensures forall l :: l in LineOutput(info, lineNo, numFiles, colored) ==> l != []
  {
    var minus := EntriesOf(info, lineNo, Minus);
    var plus := EntriesOf(info, lineNo, Plus);
    SelectedPrintable(minus, lineNo, colored);
    SelectedPrintable(plus, lineNo, colored);
    KindLinesShape(lineNo, minus, Selected(minus), numFiles, colored);
    KindLinesShape(lineNo, plus, Selected(plus), numFiles, colored);
  }

  /** A store whose entries sit under their own first character can be printed at every line number from 1 on. */
  lemma WellFormedRenderable(info: Info, lineNo: int, colored: bool)
    requires WellFormed(info) && lineNo >= 1
    ensures LineRenderable(info, lineNo, colored)
  {
    forall kind, e | e in EntriesOf(info, lineNo, kind)
      ensures e.text != []
    {
      assert lineNo in info && kind in info[lineNo];
    }
  }

  /** A line number with no records prints nothing. */
  lemma NoRecordsNoOutput(info: Info, lineNo: int, numFiles: nat, colored: bool)
    requires LineRenderable(info, lineNo, colored)
    requires !HasRecords(info, lineNo)
    ensures LineOutput(info, lineNo, numFiles, colored) == []
  {
  }

  /**
   * For a line number with records, the separator's rule is printed if and
   * only if the next line number has none.
   */
  lemma SeparatorIff(info: Info, lineNo: int, numFiles: nat, colored: bool)
    requires LineRenderable(info, lineNo, colored)
    requires HasRecords(info, lineNo)
    ensures Repeat('-', SepWidth) in LineOutput(info, lineNo, numFiles, colored) <==>
            !HasRecords(info, lineNo + 1)
  {
    var minus := EntriesOf(info, lineNo, Minus);
    var plus := EntriesOf(info, lineNo, Plus);
    SelectedPrintable(minus, lineNo, colored);
    SelectedPrintable(plus, lineNo, colored);
    KindLinesShape(lineNo, minus, Selected(minus), numFiles, colored);
    KindLinesShape(lineNo, plus, Selected(plus), numFiles, colored);
    var kinds := KindOutput(lineNo, minus, numFiles, colored) + KindOutput(lineNo, plus, numFiles, colored);
    assert Repeat('-', SepWidth) !in kinds;
    if !HasRecords(info, lineNo + 1) {
      assert LineOutput(info, lineNo, numFiles, colored)[|kinds| + 1] == Repeat('-', SepWidth);
    }
  }

  /**
   * A line number prints nothing: it has no records, or only records of
   * other kinds than `-` and `+` and no separator is due after it.
   */
  predicate Silent(info: Info, lineNo: int)
  {
    !HasRecords(info, lineNo) ||
    (EntriesOf(info, lineNo, Minus) == [] && EntriesOf(info, lineNo, Plus) == [] &&
     HasRecords(info, lineNo + 1))
  }

  /**
   * A line prints something exactly when it has records and either some of
   * them are `-` or `+` lines or the separator is due.
   */
  lemma LineOutputEmpty(info: Info, lineNo: int, numFiles: nat, colored: bool)
    requires LineRenderable(info, lineNo, colored)
    ensures LineOutput(info, lineNo, numFiles, colored) == [] <==> Silent(info, lineNo)
  {
    var minus := EntriesOf(info, lineNo, Minus);
    var plus := EntriesOf(info, lineNo, Plus);
    KindOutputEmpty(lineNo, minus, numFiles, colored);
    KindOutputEmpty(lineNo, plus, numFiles, colored);
  }

  /** Some group is shown as soon as there is an entry. */
  lemma SelectedNonEmpty(es: seq<Entry>)
    requires es != []
    ensures Selected(es) != []
  {
    TextsMembership(es, es[0].text);
    SortByPermutes(CountKey(es), Texts(es));
    assert es[0].text in multiset(SortBy(CountKey(es), Texts(es)));
  }

  lemma KindOutputEmpty(lineNo: int, es: seq<Entry>, numFiles: nat, colored: bool)
    requires Renderable(es, lineNo, colored)
    ensures KindOutput(lineNo, es, numFiles, colored) == [] <==> es == []
  {
    SelectedPrintable(es, lineNo, colored);
    if es != [] {
      SelectedNonEmpty(es);
      var ts := Selected(es);
      assert |KindLines(lineNo, es, ts, numFiles, colored)| >=
             |VariantLines(lineNo, es, ts[|ts| - 1], numFiles, colored)|;
    }
  }
}
