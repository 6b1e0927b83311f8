/**
 * The last loop of `multidiff()` for one file: every record of the local
 * diff is handed to `parse_line` under its line number, with its diff line
 * and its squigly stripped of trailing whitespace. What that registers is
 * stated per line number and first character, so it does not depend on the
 * order in which the line numbers are visited.
 */
module Feed {
  import opened Wrappers
  import opened Strings
  import opened Squiglies
  import opened Store
  import opened Normaliser

  /** A record `parse_line` accepts: its diff line starts with a non-blank character. */
  predicate Feedable(r: Record)
  {
    r.0 != [] && !IsSpace(r.0[0])
  }

  predicate AllFeedable(recs: seq<Record>)
  {
    forall i :: 0 <= i < |recs| ==> Feedable(recs[i])
  }

  /** `squigly_dict.get(line, '')`. */
  function SquiglyFor(squiglies: map<Option<string>, string>, line: string): string
  {
    if Some(line) in squiglies then squiglies[Some(line)] else ""
  }

  /** The entry registered for a record: its line and squigly without trailing whitespace. */
  function EntryOf(r: Record, squiglies: map<Option<string>, string>): (e: Entry)
    requires Feedable(r)
    ensures e.text != [] && e.text[0] == r.0[0] && e.text <= r.0
    ensures e.meta == r.1
  {
    RStripKeepsHead(r.0);
    Entry(RStrip(r.0), r.1, RStrip(SquiglyFor(squiglies, r.0)))
  }

  /** The entries of first character `kind` that feeding `recs` registers, in order. */
  function Added(recs: seq<Record>, squiglies: map<Option<string>, string>, kind: char): seq<Entry>
    requires AllFeedable(recs)
  {
    if recs == [] then []
    else
      var last := recs[|recs| - 1];
      Added(recs[..|recs| - 1], squiglies, kind) +
      (if last.0[0] == kind then [EntryOf(last, squiglies)] else [])
  }

  /** The first characters of the records' lines. */
  function Heads(recs: seq<Record>): set<char>
    requires AllFeedable(recs)
  {
    set i | 0 <= i < |recs| :: recs[i].0[0]
  }

  lemma AllFeedablePrefix(recs: seq<Record>, j: nat)
    requires AllFeedable(recs) && j <= |recs|
    ensures AllFeedable(recs[..j])
  {
    assert forall i :: 0 <= i < j ==> recs[..j][i] == recs[i];
  }

  /** One more record adds its entry under its own first character only. */
  lemma AddedSnoc(recs: seq<Record>, r: Record, squiglies: map<Option<string>, string>, kind: char)
    requires AllFeedable(recs + [r])
    ensures AllFeedable(recs) && Feedable(r)
    ensures Added(recs + [r], squiglies, kind) ==
            Added(recs, squiglies, kind) + (if r.0[0] == kind then [EntryOf(r, squiglies)] else [])
    ensures Heads(recs + [r]) == Heads(recs) + {r.0[0]}
  {
    SnocInit(recs, r);
    AllFeedablePrefix(recs + [r], |recs|);
    assert (recs + [r])[|recs|] == r;
    assert forall i :: 0 <= i < |recs| ==> (recs + [r])[i] == recs[i];
  }

  /**
   * Feeding registers entries of kind `kind` exactly when some record's
   * line starts with `kind`, and never more entries than records.
   */
  lemma {:induction false} AddedMeaning(recs: seq<Record>, squiglies: map<Option<string>, string>, kind: char)
    requires AllFeedable(recs)
    ensures Added(recs, squiglies, kind) != [] <==> kind in Heads(recs)
    ensures |Added(recs, squiglies, kind)| <= |recs|
  {
    if recs != [] {
      var init, last := recs[..|recs| - 1], recs[|recs| - 1];
      InitLast(recs);
      AddedSnoc(init, last, squiglies, kind);
      AddedMeaning(init, squiglies, kind);
    }
  }

  /** Each entry registered under `kind` is the entry of a record whose line starts with `kind`. */
  lemma {:induction false} AddedFrom(recs: seq<Record>, squiglies: map<Option<string>, string>, kind: char, e: Entry)
    requires AllFeedable(recs) && e in Added(recs, squiglies, kind)
    ensures exists i :: 0 <= i < |recs| && recs[i].0[0] == kind && e == EntryOf(recs[i], squiglies)
  {
    var init, last := recs[..|recs| - 1], recs[|recs| - 1];
    InitLast(recs);
    AddedSnoc(init, last, squiglies, kind);
    if e in Added(init, squiglies, kind) {
      AddedFrom(init, squiglies, kind, e);
      var i :| 0 <= i < |init| && init[i].0[0] == kind && e == EntryOf(init[i], squiglies);
      assert recs[i] == init[i];
    } else {
      assert recs[|recs| - 1] == last;
    }
  }

  /** The records of the changes one file's diff anchors at line number `n`. */
  function LocalAt(diff: seq<string>, filename: string, n: int): seq<Record>
  {
    Records(diff, filename, Positions(diff, n, |diff|))
  }

  /** Every record of the normalised diff is a `-` or `+` line, so `parse_line` accepts it. */
  lemma LocalAtFeedable(diff: seq<string>, filename: string, n: int)
    ensures AllFeedable(LocalAt(diff, filename, n))
  {
    var ps := Positions(diff, n, |diff|);
    forall i | 0 <= i < |ps|
      ensures IsChange(diff[ps[i]])
    {
      PositionsMembership(diff, n, |diff|, ps[i]);
    }
  }

  /** `local_diff.get(n, [])`, after the normalising loop, is `LocalAt`. */
  lemma GroupedLocalAt(diff: seq<string>, filename: string, local: map<int, seq<Record>>, n: int)
    requires Grouped(diff, filename, local, |diff|)
    ensures (if n in local then local[n] else []) == LocalAt(diff, filename, n)
  {
  }

  /** What feeding the diffs `diffs` of the files named `names`, one after the other, registers at `n` under `kind`. */
  function AddedAll(diffs: seq<seq<string>>, names: seq<string>, n: int, kind: char): seq<Entry>
    requires |diffs| == |names|
  {
    if diffs == [] then []
    else
      var k := |diffs| - 1;
      LocalAtFeedable(diffs[k], names[k], n);
      AddedAll(diffs[..k], names[..k], n, kind) +
      Added(LocalAt(diffs[k], names[k], n), SquiglyDict(diffs[k], |diffs[k]|), kind)
  }

  /** The first characters registered at `n` by feeding all the diffs. */
  function HeadsAll(diffs: seq<seq<string>>, names: seq<string>, n: int): set<char>
    requires |diffs| == |names|
  {
    if diffs == [] then {}
    else
      var k := |diffs| - 1;
      LocalAtFeedable(diffs[k], names[k], n);
      HeadsAll(diffs[..k], names[..k], n) + Heads(LocalAt(diffs[k], names[k], n))
  }

  /** One more file adds its own entries after those of the files before it. */
  lemma AddedAllSnoc(diffs: seq<seq<string>>, names: seq<string>, d: seq<string>, name: string, n: int, kind: char)
    requires |diffs| == |names|
    ensures AllFeedable(LocalAt(d, name, n))
    ensures AddedAll(diffs + [d], names + [name], n, kind) ==
            AddedAll(diffs, names, n, kind) + Added(LocalAt(d, name, n), SquiglyDict(d, |d|), kind)
    ensures HeadsAll(diffs + [d], names + [name], n) ==
            HeadsAll(diffs, names, n) + Heads(LocalAt(d, name, n))
  {
    LocalAtFeedable(d, name, n);
    SnocInit(diffs, d);
    SnocInit(names, name);
  }

  /**
   * After feeding every file, a line number has a list under `kind` exactly
   * when some file has a change of that kind anchored there, and every
   * registered entry under `kind` is a line of that kind.
   */
  lemma {:induction false} AddedAllMeaning(diffs: seq<seq<string>>, names: seq<string>, n: int, kind: char)
    requires |diffs| == |names|
    ensures AddedAll(diffs, names, n, kind) != [] <==> kind in HeadsAll(diffs, names, n)
    ensures forall e :: e in AddedAll(diffs, names, n, kind) ==> e.text != [] && e.text[0] == kind
  {
    if diffs != [] {
      var k := |diffs| - 1;
      var recs := LocalAt(diffs[k], names[k], n);
      var sq := SquiglyDict(diffs[k], |diffs[k]|);
      LocalAtFeedable(diffs[k], names[k], n);
      AddedAllMeaning(diffs[..k], names[..k], n, kind);
      AddedMeaning(recs, sq, kind);
      forall e | e in Added(recs, sq, kind)
        ensures e.text != [] && e.text[0] == kind
      {
        AddedFrom(recs, sq, kind, e);
        var i :| 0 <= i < |recs| && recs[i].0[0] == kind && e == EntryOf(recs[i], sq);
      }
    }
  }

  /** No change is ever anchored below line number 1, so feeding registers nothing there. */
  lemma {:induction false} NothingBelowOne(diffs: seq<seq<string>>, names: seq<string>, n: int)
    requires |diffs| == |names| && n < 1
    ensures HeadsAll(diffs, names, n) == {}
    ensures forall kind :: AddedAll(diffs, names, n, kind) == []
  {
    if diffs != [] {
      var k := |diffs| - 1;
      var d := diffs[k];
      NothingBelowOne(diffs[..k], names[..k], n);
      var ps := Positions(d, n, |d|);
      if ps != [] {
        PositionsMembership(d, n, |d|, ps[0]);
        assert false;
      }
      assert LocalAt(d, names[k], n) == [];
    }
  }

  /** A store the feed built has nothing below line number 1. */
  lemma CollectsNothingBelowOne(info: Info, diffs: seq<seq<string>>, names: seq<string>, n: int)
    requires |diffs| == |names| && Collects(info, diffs, names) && n < 1
    ensures Kinds(info, n) == map[]
  {
    NothingBelowOne(diffs, names, n);
    assert Kinds(info, n).Keys == {};
  }

  // ----- the store the feed builds -----

  /** The store after `parse_line` of every record of `recs`, in order, under line number `n`. */
  function FeedInfo(info: Info, n: int, recs: seq<Record>, squiglies: map<Option<string>, string>): Info
    requires AllFeedable(recs)
  {
    if recs == [] then info
    else
      AllFeedablePrefix(recs, |recs| - 1);
      Register(FeedInfo(info, n, recs[..|recs| - 1], squiglies), n, EntryOf(recs[|recs| - 1], squiglies))
  }

  lemma FeedInfoSnoc(info: Info, n: int, recs: seq<Record>, r: Record, squiglies: map<Option<string>, string>)
    requires AllFeedable(recs + [r])
    ensures AllFeedable(recs) && Feedable(r)
    ensures FeedInfo(info, n, recs + [r], squiglies) ==
            Register(FeedInfo(info, n, recs, squiglies), n, EntryOf(r, squiglies))
  {
    SnocInit(recs, r);
    AllFeedablePrefix(recs + [r], |recs|);
    assert (recs + [r])[|recs|] == r;
  }

  /**
   * Feeding the records of line number `n` appends to each list of that
   * line exactly the entries of its kind, in order, and leaves every other
   * line alone.
   */
  lemma {:induction false} FeedInfoEntries(info: Info, n: int, recs: seq<Record>, squiglies: map<Option<string>, string>,
                                          m: int, kind: char)
    requires AllFeedable(recs)
    ensures EntriesOf(FeedInfo(info, n, recs, squiglies), m, kind) ==
            EntriesOf(info, m, kind) + (if m == n then Added(recs, squiglies, kind) else [])
  {
    if recs == [] {
      AppendEmpty(EntriesOf(info, m, kind));
    } else {
      var init, last := recs[..|recs| - 1], recs[|recs| - 1];
      InitLast(recs);
      FeedInfoSnoc(info, n, init, last, squiglies);
      AddedSnoc(init, last, squiglies, kind);
      FeedInfoEntries(info, n, init, squiglies, m, kind);
      var e := EntryOf(last, squiglies);
      RegisterAppendsOne(FeedInfo(info, n, init, squiglies), n, e, m, kind);
      if m == n && kind == e.text[0] {
        AppendAssoc(EntriesOf(info, m, kind), Added(init, squiglies, kind), [e]);
      } else if m == n {
        AppendEmpty(Added(init, squiglies, kind));
      }
    }
  }

  /** Feeding the records of line number `n` adds to that line exactly the kinds of the records. */
  lemma {:induction false} FeedInfoKinds(info: Info, n: int, recs: seq<Record>, squiglies: map<Option<string>, string>, m: int)
    requires AllFeedable(recs)
    ensures Kinds(FeedInfo(info, n, recs, squiglies), m).Keys ==
            Kinds(info, m).Keys + (if m == n then Heads(recs) else {})
  {
    if recs != [] {
      var init, last := recs[..|recs| - 1], recs[|recs| - 1];
      InitLast(recs);
      FeedInfoSnoc(info, n, init, last, squiglies);
      AddedSnoc(init, last, squiglies, ' ');
      FeedInfoKinds(info, n, init, squiglies, m);
      RegisterAppendsOne(FeedInfo(info, n, init, squiglies), n, EntryOf(last, squiglies), m, ' ');
    }
  }

  /** Feeding keeps every entry under its own first character. */
  lemma {:induction false} FeedInfoWellFormed(info: Info, n: int, recs: seq<Record>, squiglies: map<Option<string>, string>)
    requires AllFeedable(recs) && WellFormed(info)
    ensures WellFormed(FeedInfo(info, n, recs, squiglies))
  {
    if recs != [] {
      var init, last := recs[..|recs| - 1], recs[|recs| - 1];
      InitLast(recs);
      FeedInfoSnoc(info, n, init, last, squiglies);
      FeedInfoWellFormed(info, n, init, squiglies);
      RegisterWellFormed(FeedInfo(info, n, init, squiglies), n, EntryOf(last, squiglies));
    }
  }

  predicate AllLocalFeedable(local: map<int, seq<Record>>)
  {
    forall n :: n in local ==> AllFeedable(local[n])
  }

  /** The store after feeding the line numbers `done` of `local`, in that order. */
  function FeedKeys(info: Info, local: map<int, seq<Record>>, squiglies: map<Option<string>, string>, done: seq<int>): Info
    requires AllLocalFeedable(local)
    requires forall i :: 0 <= i < |done| ==> done[i] in local
  {
    if done == [] then info
    else
      var k := done[|done| - 1];
      FeedInfo(FeedKeys(info, local, squiglies, done[..|done| - 1]), k, local[k], squiglies)
  }

  lemma FeedKeysSnoc(info: Info, local: map<int, seq<Record>>, squiglies: map<Option<string>, string>, done: seq<int>, k: int)
    requires AllLocalFeedable(local) && k in local
    requires forall i :: 0 <= i < |done| ==> done[i] in local
    ensures forall i :: 0 <= i < |done + [k]| ==> (done + [k])[i] in local
    ensures FeedKeys(info, local, squiglies, done + [k]) ==
            FeedInfo(FeedKeys(info, local, squiglies, done), k, local[k], squiglies)
  {
    SnocInit(done, k);
  }

  /**
   * `after` is `before` with the local diff fed: each list gains exactly
   * the entries of its line number and kind, in order, and each line
   * exactly the kinds of its records.
   */
  ghost predicate FedBy(after: Info, before: Info, local: map<int, seq<Record>>, squiglies: map<Option<string>, string>)
    requires AllLocalFeedable(local)
  {
    && (forall m, kind :: EntriesOf(after, m, kind) ==
          EntriesOf(before, m, kind) + (if m in local then Added(local[m], squiglies, kind) else []))
    && (forall m :: Kinds(after, m).Keys == Kinds(before, m).Keys + (if m in local then Heads(local[m]) else {}))
  }

  /** A key at the end of a distinct sequence is not among the keys before it. */
  lemma DistinctLast(done: seq<int>)
    requires Distinct(done) && done != []
    ensures done[|done| - 1] !in done[..|done| - 1]
    ensures Distinct(done[..|done| - 1])
  {
    var init := done[..|done| - 1];
    forall i | 0 <= i < |init|
      ensures init[i] != done[|done| - 1]
    {
      assert init[i] == done[i];
    }
  }

  lemma {:induction false} FeedKeysEntries(info: Info, local: map<int, seq<Record>>, squiglies: map<Option<string>, string>,
                                          done: seq<int>, m: int, kind: char)
    requires AllLocalFeedable(local) && Distinct(done)
    requires forall i :: 0 <= i < |done| ==> done[i] in local
    ensures EntriesOf(FeedKeys(info, local, squiglies, done), m, kind) ==
            EntriesOf(info, m, kind) + (if m in done then Added(local[m], squiglies, kind) else [])
  {
    if done == [] {
      AppendEmpty(EntriesOf(info, m, kind));
    } else {
      var init, k := done[..|done| - 1], done[|done| - 1];
      InitLast(done);
      DistinctLast(done);
      FeedKeysSnoc(info, local, squiglies, init, k);
      FeedKeysEntries(info, local, squiglies, init, m, kind);
      FeedInfoEntries(FeedKeys(info, local, squiglies, init), k, local[k], squiglies, m, kind);
      assert m in done <==> m in init || m == k;
      if m == k {
        AppendEmpty(EntriesOf(info, m, kind));
      } else {
        AppendEmpty(EntriesOf(FeedKeys(info, local, squiglies, init), m, kind));
      }
    }
  }

  lemma {:induction false} FeedKeysKinds(info: Info, local: map<int, seq<Record>>, squiglies: map<Option<string>, string>,
                                        done: seq<int>, m: int)
    requires AllLocalFeedable(local) && Distinct(done)
    requires forall i :: 0 <= i < |done| ==> done[i] in local
    ensures Kinds(FeedKeys(info, local, squiglies, done), m).Keys ==
            Kinds(info, m).Keys + (if m in done then Heads(local[m]) else {})
  {
    if done != [] {
      var init, k := done[..|done| - 1], done[|done| - 1];
      InitLast(done);
      DistinctLast(done);
      FeedKeysSnoc(info, local, squiglies, init, k);
      FeedKeysKinds(info, local, squiglies, init, m);
      FeedInfoKinds(FeedKeys(info, local, squiglies, init), k, local[k], squiglies, m);
      assert m in done <==> m in init || m == k;
    }
  }

  lemma {:induction false} FeedKeysWellFormed(info: Info, local: map<int, seq<Record>>, squiglies: map<Option<string>, string>,
                                             done: seq<int>)
    requires AllLocalFeedable(local) && WellFormed(info)
    requires forall i :: 0 <= i < |done| ==> done[i] in local
    ensures WellFormed(FeedKeys(info, local, squiglies, done))
  {
    if done != [] {
      var init, k := done[..|done| - 1], done[|done| - 1];
      InitLast(done);
      FeedKeysSnoc(info, local, squiglies, init, k);
      FeedKeysWellFormed(info, local, squiglies, init);
      FeedInfoWellFormed(FeedKeys(info, local, squiglies, init), k, local[k], squiglies);
    }
  }

  /** Feeding every line number of `local` once, in any order, gives a store fed by `local`. */
  lemma FeedKeysFedBy(info: Info, local: map<int, seq<Record>>, squiglies: map<Option<string>, string>, done: seq<int>)
    requires AllLocalFeedable(local) && Distinct(done)
    requires forall i :: 0 <= i < |done| ==> done[i] in local
    requires forall k :: k in local ==> k in done
    ensures FedBy(FeedKeys(info, local, squiglies, done), info, local, squiglies)
  {
    forall m, kind
      ensures EntriesOf(FeedKeys(info, local, squiglies, done), m, kind) ==
              EntriesOf(info, m, kind) + (if m in local then Added(local[m], squiglies, kind) else [])
    {
      FeedKeysEntries(info, local, squiglies, done, m, kind);
    }
    forall m
      ensures Kinds(FeedKeys(info, local, squiglies, done), m).Keys ==
              Kinds(info, m).Keys + (if m in local then Heads(local[m]) else {})
    {
      FeedKeysKinds(info, local, squiglies, done, m);
    }
  }

  /** `info` is what feeding the diffs `diffs` of the files named `names`, in order, registers. */
  ghost predicate Collects(info: Info, diffs: seq<seq<string>>, names: seq<string>)
    requires |diffs| == |names|
  {
    && (forall n, kind :: EntriesOf(info, n, kind) == AddedAll(diffs, names, n, kind))
    && (forall n :: Kinds(info, n).Keys == HeadsAll(diffs, names, n))
  }

  /** The empty store collects no file. */
  lemma CollectsNothing(info: Info)
    requires info == map[]
    ensures Collects(info, [], [])
  {
  }

  /** Feeding the normalised diff of one more file extends what the store collects by that file. */
  lemma CollectsSnoc(before: Info, after: Info, diffs: seq<seq<string>>, names: seq<string>, d: seq<string>, name: string,
                     local: map<int, seq<Record>>, squiglies: map<Option<string>, string>)
    requires |diffs| == |names| && Collects(before, diffs, names)
    requires Grouped(d, name, local, |d|) && squiglies == SquiglyDict(d, |d|)
    requires AllLocalFeedable(local) && FedBy(after, before, local, squiglies)
    ensures Collects(after, diffs + [d], names + [name])
  {
    CollectsEntriesSnoc(before, after, diffs, names, d, name, local, squiglies);
    CollectsKindsSnoc(before, after, diffs, names, d, name, local, squiglies);
  }

  lemma CollectsEntriesSnoc(before: Info, after: Info, diffs: seq<seq<string>>, names: seq<string>, d: seq<string>, name: string,
                            local: map<int, seq<Record>>, squiglies: map<Option<string>, string>)
    requires |diffs| == |names| && Collects(before, diffs, names)
    requires Grouped(d, name, local, |d|) && squiglies == SquiglyDict(d, |d|)
    requires AllLocalFeedable(local) && FedBy(after, before, local, squiglies)
    ensures forall n, kind :: EntriesOf(after, n, kind) == AddedAll(diffs + [d], names + [name], n, kind)
  {
    forall n, kind
      ensures EntriesOf(after, n, kind) == AddedAll(diffs + [d], names + [name], n, kind)
    {
      GroupedLocalAt(d, name, local, n);
      AddedAllSnoc(diffs, names, d, name, n, kind);
    }
  }

  lemma CollectsKindsSnoc(before: Info, after: Info, diffs: seq<seq<string>>, names: seq<string>, d: seq<string>, name: string,
                          local: map<int, seq<Record>>, squiglies: map<Option<string>, string>)
    requires |diffs| == |names| && Collects(before, diffs, names)
    requires Grouped(d, name, local, |d|) && squiglies == SquiglyDict(d, |d|)
    requires AllLocalFeedable(local) && FedBy(after, before, local, squiglies)
    ensures forall n :: Kinds(after, n).Keys == HeadsAll(diffs + [d], names + [name], n)
  {
    forall n
      ensures Kinds(after, n).Keys == HeadsAll(diffs + [d], names + [name], n)
    {
      GroupedLocalAt(d, name, local, n);
      AddedAllSnoc(diffs, names, d, name, n, ' ');
    }
  }

  /** A normalised diff can be fed. */
  lemma GroupedFeedable(d: seq<string>, name: string, local: map<int, seq<Record>>)
    requires Grouped(d, name, local, |d|)
    ensures AllLocalFeedable(local)
  {
    forall n | n in local
      ensures AllFeedable(local[n])
    {
      GroupedLocalAt(d, name, local, n);
      LocalAtFeedable(d, name, n);
    }
  }
}
