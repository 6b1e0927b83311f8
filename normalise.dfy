/**
 * The normalising loop of `multidiff()`. It walks the line diff of one file
 * against the base, as a line differ emits it (lines tagged `"  "`, `"- "`,
 * `"+ "` or `"? "`; `-` lines are in the file only, `+` lines in the base
 * only). Every `-`/`+` line is filed under a base line number, and every `?`
 * line is kept as the squigly of the `-`/`+` line before it.
 */
module Normaliser {
  import opened Wrappers
  import opened Strings
  import opened Squiglies

  /** One record of the local diff: the diff line and the file it came from. */
  type Record = (string, string)

  /** A `?` line: the squigly of the changed line before it. */
  predicate IsSquigly(line: string)
  {
    StartsWith(line, QuestionMark)
  }

  /** A `-` or `+` line. */
  predicate IsChange(line: string)
  {
    StartsWith(line, Plus) || StartsWith(line, Minus)
  }

  /** A line that moves on to the next base line: anything but a `-` or a `?` line. */
  predicate Advancing(line: string)
  {
    !IsSquigly(line) && !StartsWith(line, Minus)
  }

  /**
   * The key under which a change at position `i` of the diff is filed: one
   * more than the number of advancing lines before it. It is never below 1.
   */
  function Anchor(diff: seq<string>, i: nat): (r: nat)
    requires i <= |diff|
    ensures 1 <= r <= i + 1
  {
    if i == 0 then 1 else Anchor(diff, i - 1) + (if Advancing(diff[i - 1]) then 1 else 0)
  }

  /** `last_added`: the text of the last `-`/`+` line before position `i`, if any. */
  function LastChange(diff: seq<string>, i: nat): Option<string>
    requires i <= |diff|
  {
    if i == 0 then None
    else if IsChange(diff[i - 1]) then Some(diff[i - 1])
    else LastChange(diff, i - 1)
  }

  /** The positions, among the first `n`, of the changes anchored at `key`, in stream order. */
  function Positions(diff: seq<string>, key: int, n: nat): (r: seq<nat>)
    requires n <= |diff|
    ensures forall t :: 0 <= t < |r| ==> r[t] < n
  {
    if n == 0 then []
    else
      Positions(diff, key, n - 1) +
      (if IsChange(diff[n - 1]) && Anchor(diff, n - 1) == key then [n - 1] else [])
  }

  /** The records of the diff lines at positions `ps`. */
  function Records(diff: seq<string>, filename: string, ps: seq<nat>): seq<Record>
    requires forall t :: 0 <= t < |ps| ==> ps[t] < |diff|
  {
    seq(|ps|, t requires 0 <= t < |ps| => (diff[ps[t]], filename))
  }

  /**
   * `local_diff` after the first `n` lines: a key is present exactly when
   * some change is anchored there, and holds the records of those changes
   * in stream order.
   */
  ghost predicate Grouped(diff: seq<string>, filename: string, local: map<int, seq<Record>>, n: nat)
    requires n <= |diff|
  {
    && (forall key :: key in local <==> Positions(diff, key, n) != [])
    && (forall key :: key in local ==> local[key] == Records(diff, filename, Positions(diff, key, n)))
  }

  /** `squigly_dict` after the first `n` lines: each `?` line stored under the `last_added` before it. */
  function SquiglyDict(diff: seq<string>, n: nat): map<Option<string>, string>
    requires n <= |diff|
  {
    if n == 0 then map[]
    else if IsSquigly(diff[n - 1]) then SquiglyDict(diff, n - 1)[LastChange(diff, n - 1) := diff[n - 1]]
    else SquiglyDict(diff, n - 1)
  }

  /** `d.setdefault(key, []).append(r)`. */
  function AddRecord(local: map<int, seq<Record>>, key: int, r: Record): (m: map<int, seq<Record>>)
    ensures m.Keys == local.Keys + {key}
    ensures m[key] == (if key in local then local[key] else []) + [r]
    ensures forall k :: k in local && k != key ==> m[k] == local[k]
  {
    local[key := (if key in local then local[key] else []) + [r]]
  }

  lemma RecordsAppend(diff: seq<string>, filename: string, ps: seq<nat>, j: nat)
    requires forall t :: 0 <= t < |ps| ==> ps[t] < |diff|
    requires j < |diff|
    ensures Records(diff, filename, ps + [j]) == Records(diff, filename, ps) + [(diff[j], filename)]
  {
  }

  /** Line `i` adds its own position to its anchor's positions and to no other key's. */
  lemma PositionsStep(diff: seq<string>, key: int, i: nat)
    requires i < |diff|
    ensures IsChange(diff[i]) && key == Anchor(diff, i) ==>
            Positions(diff, key, i + 1) == Positions(diff, key, i) + [i]
    ensures !(IsChange(diff[i]) && key == Anchor(diff, i)) ==>
            Positions(diff, key, i + 1) == Positions(diff, key, i)
  {
    assert Positions(diff, key, i + 1) ==
           Positions(diff, key, i) + (if IsChange(diff[i]) && Anchor(diff, i) == key then [i] else []);
  }

  /** `local_diff` after the first `n` lines: each change appended under its anchor. */
  function LocalMap(diff: seq<string>, filename: string, n: nat): map<int, seq<Record>>
    requires n <= |diff|
  {
    if n == 0 then map[]
    else
      var m := LocalMap(diff, filename, n - 1);
      if IsChange(diff[n - 1]) then AddRecord(m, Anchor(diff, n - 1), (diff[n - 1], filename)) else m
  }

  /** Under `key`, `LocalMap` holds the records of the changes anchored at `key`, in stream order. */
  lemma {:induction false} LocalMapAt(diff: seq<string>, filename: string, n: nat, key: int)
    requires n <= |diff|
    ensures key in LocalMap(diff, filename, n) <==> Positions(diff, key, n) != []
    ensures key in LocalMap(diff, filename, n) ==>
              LocalMap(diff, filename, n)[key] == Records(diff, filename, Positions(diff, key, n))
  {
    if n > 0 {
      var i := n - 1;
      LocalMapAt(diff, filename, i, key);
      PositionsStep(diff, key, i);
      if IsChange(diff[i]) && key == Anchor(diff, i) {
        RecordsAppend(diff, filename, Positions(diff, key, i), i);
      }
    }
  }

  /** `LocalMap` groups the changes by anchor, in stream order. */
  lemma LocalMapGrouped(diff: seq<string>, filename: string, n: nat)
    requires n <= |diff|
    ensures Grouped(diff, filename, LocalMap(diff, filename, n), n)
  {
    forall key
      ensures key in LocalMap(diff, filename, n) <==> Positions(diff, key, n) != []
      ensures key in LocalMap(diff, filename, n) ==>
                LocalMap(diff, filename, n)[key] == Records(diff, filename, Positions(diff, key, n))
    {
      LocalMapAt(diff, filename, n, key);
    }
  }

  /** What line `i` does to the anchor, to `last_added`, to `local_diff` and to `squigly_dict`. */
  lemma LineStep(diff: seq<string>, i: nat)
    requires i < |diff|
    ensures Anchor(diff, i + 1) == Anchor(diff, i) + (if Advancing(diff[i]) then 1 else 0)
    ensures LastChange(diff, i + 1) == if IsChange(diff[i]) then Some(diff[i]) else LastChange(diff, i)
    ensures SquiglyDict(diff, i + 1) ==
            if IsSquigly(diff[i]) then SquiglyDict(diff, i)[LastChange(diff, i) := diff[i]] else SquiglyDict(diff, i)
    ensures forall filename :: (LocalMap(diff, filename, i + 1) ==
              if IsChange(diff[i]) then AddRecord(LocalMap(diff, filename, i), Anchor(diff, i), (diff[i], filename))
              else LocalMap(diff, filename, i))
  {
  }

  /**
   * The loop of `multidiff()` over one file's diff: each `-`/`+` line is
   * appended to `local_diff[i + offset]`, each `?` line is stored in
   * `squigly_dict` under `last_added`; `offset` starts at 1 and drops by one
   * after every `-` and every `?` line.
   */
  method Normalise(diff: seq<string>, filename: string)
    returns (local: map<int, seq<Record>>, squiglies: map<Option<string>, string>)
    ensures local == LocalMap(diff, filename, |diff|) && Grouped(diff, filename, local, |diff|)
    ensures squiglies == SquiglyDict(diff, |diff|)
  {
    local := map[];
    squiglies := map[];
    var lastAdded: Option<string> := None;
    var offset := 1;
    var i := 0;
    while i < |diff|
      invariant 0 <= i <= |diff|
      invariant i + offset == Anchor(diff, i)
      invariant lastAdded == LastChange(diff, i)
      invariant local == LocalMap(diff, filename, i)
      invariant squiglies == SquiglyDict(diff, i)
    {
      var line := diff[i];
      LineStep(diff, i);
      if StartsWith(line, QuestionMark) {
        squiglies := squiglies[lastAdded := line];
        offset := offset - 1;
      } else if StartsWith(line, Plus) {
        local := AddRecord(local, i + offset, (line, filename));
        lastAdded := Some(line);
      } else if StartsWith(line, Minus) {
        local := AddRecord(local, i + offset, (line, filename));
        lastAdded := Some(line);
        offset := offset - 1;
      }
      i := i + 1;
    }
    LocalMapGrouped(diff, filename, |diff|);
  }

  /** Later lines never get a smaller key. */
  lemma {:induction false} AnchorMonotone(diff: seq<string>, i: nat, j: nat)
    requires i <= j <= |diff|
    ensures Anchor(diff, i) <= Anchor(diff, j)
    decreases j - i
  {
    if i < j {
      AnchorMonotone(diff, i, j - 1);
    }
  }

  /**
   * A position is among the positions of `key` exactly when it holds a
   * `-`/`+` line anchored at `key`: `?` and context lines are never
   * recorded, and every change is recorded under its own anchor.
   */
  lemma {:induction false} PositionsMembership(diff: seq<string>, key: int, n: nat, j: nat)
    requires n <= |diff|
    ensures j in Positions(diff, key, n) <==> j < n && IsChange(diff[j]) && Anchor(diff, j) == key
  {
    if n > 0 {
      PositionsMembership(diff, key, n - 1, j);
    }
  }

  /** The positions of a key are strictly increasing: each change is recorded once, in stream order. */
  lemma {:induction false} PositionsIncreasing(diff: seq<string>, key: int, n: nat)
    requires n <= |diff|
    ensures forall s, t :: 0 <= s < t < |Positions(diff, key, n)| ==>
              Positions(diff, key, n)[s] < Positions(diff, key, n)[t]
  {
    if n > 0 {
      PositionsIncreasing(diff, key, n - 1);
    }
  }

  /** The base-side text of a diff line: what follows its two-character tag. */
  function Text(line: string): string
  {
    if |line| >= 2 then line[2..] else []
  }

  /** The base lines the first `n` lines of the diff go through: the texts of its advancing lines. */
  function BaseSide(diff: seq<string>, n: nat): seq<string>
    requires n <= |diff|
  {
    if n == 0 then []
    else BaseSide(diff, n - 1) + (if Advancing(diff[n - 1]) then [Text(diff[n - 1])] else [])
  }

  /** The key of position `i` counts the base lines gone through before it, from 1. */
  lemma {:induction false} AnchorCountsBaseLines(diff: seq<string>, i: nat)
    requires i <= |diff|
    ensures Anchor(diff, i) == |BaseSide(diff, i)| + 1
  {
    if i > 0 {
      AnchorCountsBaseLines(diff, i - 1);
    }
  }

  lemma {:induction false} BaseSidePrefix(diff: seq<string>, i: nat, n: nat)
    requires i <= n <= |diff|
    ensures BaseSide(diff, i) <= BaseSide(diff, n)
    decreases n - i
  {
    if i < n {
      BaseSidePrefix(diff, i, n - 1);
    }
  }

  /**
   * When the diff goes through exactly the base's lines, a `+` line is filed
   * under its own 1-based line number in the base, and a `-` line under the
   * number of the base line that follows it.
   */
  lemma AnchorIsBaseLineNumber(diff: seq<string>, base: seq<string>, j: nat)
    requires j < |diff| && BaseSide(diff, |diff|) == base
    ensures StartsWith(diff[j], Plus) ==>
            1 <= Anchor(diff, j) <= |base| && base[Anchor(diff, j) - 1] == Text(diff[j])
    ensures StartsWith(diff[j], Minus) ==> Anchor(diff, j) - 1 == |BaseSide(diff, j)| <= |base|
  {
    AnchorCountsBaseLines(diff, j);
    BaseSidePrefix(diff, j + 1, |diff|);
    BaseSidePrefix(diff, j, |diff|);
    if StartsWith(diff[j], Plus) {
      assert BaseSide(diff, j + 1) == BaseSide(diff, j) + [Text(diff[j])];
      assert BaseSide(diff, j + 1)[|BaseSide(diff, j)|] == Text(diff[j]);
    }
  }

  /**
   * A squigly is stored under a key exactly when some `?` line follows a
   * change with that text (or comes before any change, for the key `None`);
   * the one stored is the last such `?` line.
   */
  lemma {:induction false} SquigliesMeaning(diff: seq<string>, n: nat, key: Option<string>)
    requires n <= |diff|
    ensures key in SquiglyDict(diff, n) <==>
            exists j :: 0 <= j < n && IsSquigly(diff[j]) && LastChange(diff, j) == key
    ensures key in SquiglyDict(diff, n) ==>
            exists j :: 0 <= j < n && IsSquigly(diff[j]) && LastChange(diff, j) == key &&
                        SquiglyDict(diff, n)[key] == diff[j] &&
                        forall j' :: j < j' < n && IsSquigly(diff[j']) ==> LastChange(diff, j') != key
  {
    if n > 0 {
      SquigliesMeaning(diff, n - 1, key);
      if IsSquigly(diff[n - 1]) && LastChange(diff, n - 1) == key {
        assert SquiglyDict(diff, n)[key] == diff[n - 1];
      } else if key in SquiglyDict(diff, n) {
        var j :| 0 <= j < n - 1 && IsSquigly(diff[j]) && LastChange(diff, j) == key &&
                 SquiglyDict(diff, n - 1)[key] == diff[j] &&
                 forall j' :: j < j' < n - 1 && IsSquigly(diff[j']) ==> LastChange(diff, j') != key;
        assert SquiglyDict(diff, n)[key] == diff[j];
      }
    }
  }
}
