/**
 * The few Python string operations the multi-diff relies on: `str.rstrip()`,
 * `str.startswith`, `'%d' % n`, `sep.join(parts)`, `c * n`, the prefix slice
 * `s[:m]` and `int(math.log10(n))` for positive `n`.
 */
module Strings {

  /** Python 2 `string.whitespace`, the characters `str.rstrip()` removes. */
  predicate IsSpace(c: char)
  {
    c == ' ' || c == '\t' || c == '\n' || c == '\r' || c == '\U{B}' || c == '\U{C}'
  }

  /** `s.rstrip()`: the longest prefix of `s` that does not end in whitespace. */
  function RStrip(s: string): (r: string)
    ensures r <= s
    ensures r == [] || !IsSpace(r[|r| - 1])
    ensures forall i :: |r| <= i < |s| ==> IsSpace(s[i])
  {
    if s != [] && IsSpace(s[|s| - 1]) then RStrip(s[..|s| - 1]) else s
  }

  /** A string whose first character is not whitespace keeps that character. */
  lemma RStripKeepsHead(s: string)
    requires s != [] && !IsSpace(s[0])
    ensures RStrip(s) != [] && RStrip(s)[0] == s[0]
  {
  }

  /** No element occurs twice. */
  predicate Distinct<T(==)>(s: seq<T>)
  {
    forall i, j :: 0 <= i < j < |s| ==> s[i] != s[j]
  }

  // Small facts about sequences, stated once so that larger proofs need not rediscover them.

  lemma Member<T>(s: set<T>) returns (x: T)
    requires s != {}
    ensures x in s
  {
    x :| x in s;
  }

  lemma EmptyAppend<T>(a: seq<T>)
    ensures [] + a == a
  {
  }

  lemma AppendEmpty<T>(a: seq<T>)
    ensures a + [] == a
  {
  }

  lemma AppendAssoc<T>(a: seq<T>, b: seq<T>, c: seq<T>)
    ensures (a + b) + c == a + (b + c)
  {
  }

  lemma InitLast<T>(s: seq<T>)
    requires s != []
    ensures s[..|s| - 1] + [s[|s| - 1]] == s
  {
  }

  lemma SnocInit<T>(s: seq<T>, x: T)
    ensures (s + [x])[..|s|] == s && (s + [x])[|s|] == x
  {
  }

  lemma SliceSnoc<T>(s: seq<T>, k: nat)
    requires k < |s|
    ensures s[..k + 1] == s[..k] + [s[k]]
  {
  }

  predicate StartsWith(s: string, c: char)
  {
    s != [] && s[0] == c
  }

  function Digit(d: nat): char
    requires d < 10
  {
    "0123456789"[d]
  }

  /** `'%d' % n` for a non-negative `n`. */
  function NatToString(n: nat): (r: string)
    ensures r != []
    ensures forall i :: 0 <= i < |r| ==> '0' <= r[i] <= '9'
  {
    if n < 10 then [Digit(n)] else NatToString(n / 10) + [Digit(n % 10)]
  }

  /** `'%s' % i` for any integer. */
  function IntToString(i: int): (r: string)
    ensures r != []
  {
    if i < 0 then "-" + NatToString(-i) else NatToString(i)
  }

  function Pow10(k: nat): (r: nat)
    ensures r >= 1
  {
    if k == 0 then 1 else 10 * Pow10(k - 1)
  }

  /** `int(math.log10(n))` for `n >= 1`: the largest `k` with `10^k <= n`. */
  function Log10Floor(n: int): (r: nat)
    requires n >= 1
    ensures Pow10(r) <= n < Pow10(r + 1)
  {
    if n < 10 then 0 else 1 + Log10Floor(n / 10)
  }

  /** The decimal form of `n >= 1` has `int(math.log10(n)) + 1` digits. */
  lemma {:induction false} DigitCount(n: int)
    requires n >= 1
    ensures |NatToString(n)| == Log10Floor(n) + 1
  {
    if n >= 10 {
      DigitCount(n / 10);
    }
  }

  /** `c * n`. */
  function Repeat(c: char, n: nat): (r: string)
    ensures |r| == n
    ensures forall i :: 0 <= i < n ==> r[i] == c
  {
    seq(n, _ => c)
  }

  /** `sep.join(parts)`. */
  function Join(sep: string, parts: seq<string>): string
  {
    if parts == [] then []
    else if |parts| == 1 then parts[0]
    else Join(sep, parts[..|parts| - 1]) + sep + parts[|parts| - 1]
  }

  /** A join starts with its first part. */
  lemma {:induction false} JoinHead(sep: string, parts: seq<string>)
    requires parts != []
    ensures parts[0] <= Join(sep, parts)
  {
    if |parts| > 1 {
      JoinHead(sep, parts[..|parts| - 1]);
    }
  }

  lemma JoinPair(sep: string, a: string, b: string)
    ensures Join(sep, [a, b]) == a + sep + b
  {
    assert [a, b][..1] == [a];
  }

  lemma JoinTriple(sep: string, a: string, b: string, c: string)
    ensures Join(sep, [a, b, c]) == a + sep + b + sep + c
  {
    assert [a, b, c][..2] == [a, b];
    JoinPair(sep, a, b);
  }

  /** `s[:m]`, where a negative `m` counts from the end. */
  function PyPrefix(s: string, m: int): (r: string)
    ensures r <= s
    ensures |r| == if m >= 0 then (if m <= |s| then m else |s|)
                   else (if |s| + m >= 0 then |s| + m else 0)
  {
    if m >= 0 then (if m <= |s| then s[..m] else s)
    else (if |s| + m >= 0 then s[..|s| + m] else [])
  }
}
