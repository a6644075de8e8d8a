/** The pieces of Python's `str` behaviour the journal compiler relies on: `isspace`, the
    `strip` family, `startswith`, `split` with an explicit separator, `join` and `replace`. */
module Strings {
  import opened Wrappers

  /** Python's `str.isspace()` character class (Unicode White_Space as CPython defines it). */
  predicate IsSpace(c: char) {
    ('\U{0009}' <= c <= '\U{000D}') || ('\U{001C}' <= c <= '\U{0020}') || c == '\U{0085}'
    || c == '\U{00A0}' || c == '\U{1680}' || ('\U{2000}' <= c <= '\U{200A}')
    || c == '\U{2028}' || c == '\U{2029}' || c == '\U{202F}' || c == '\U{205F}' || c == '\U{3000}'
  }

  /** `line.isspace()`: true for a non-empty string of whitespace only; `""` is not blank. */
  predicate Blank(s: string) {
    |s| > 0 && forall i :: 0 <= i < |s| ==> IsSpace(s[i])
  }

  /** `s.rstrip()` (see `RStripMeaning`). */
  function RStrip(s: string): string {
    if |s| > 0 && IsSpace(s[|s| - 1]) then RStrip(s[..|s| - 1]) else s
  }

  /** `rstrip` keeps a prefix that does not end in whitespace and drops only whitespace. */
  lemma {:induction false} RStripMeaning(s: string)
    ensures var r := RStrip(s);
      && |r| <= |s| && r == s[..|r|]
      && (r == [] || !IsSpace(r[|r| - 1]))
      && forall i :: |r| <= i < |s| ==> IsSpace(s[i])
  {
    if |s| > 0 && IsSpace(s[|s| - 1]) {
      RStripMeaning(s[..|s| - 1]);
    }
  }

  /** `s.lstrip()` (see `LStripMeaning`). */
  function LStrip(s: string): string {
    if |s| > 0 && IsSpace(s[0]) then LStrip(s[1..]) else s
  }

  /** `lstrip` keeps a suffix that does not start with whitespace and drops only whitespace. */
  lemma {:induction false} LStripMeaning(s: string)
    ensures var r := LStrip(s);
      && |r| <= |s| && r == s[|s| - |r|..]
      && (r == [] || !IsSpace(r[0]))
      && forall i :: 0 <= i < |s| - |r| ==> IsSpace(s[i])
  {
    if |s| > 0 && IsSpace(s[0]) {
      LStripMeaning(s[1..]);
      assert s[1..][|s| - 1 - |LStrip(s)|..] == s[|s| - |LStrip(s)|..];
    }
  }

  /** `s.strip()`. */
  function Strip(s: string): string {
    LStrip(RStrip(s))
  }

  predicate StartsWith(s: string, prefix: string) {
    |prefix| <= |s| && s[..|prefix|] == prefix
  }

  /** `pat` occurs in `s` starting at index `i`. */
  predicate OccursAt(s: string, pat: string, i: nat) {
    i + |pat| <= |s| && s[i..i + |pat|] == pat
  }

  /** `s.find(pat, from)`, with `None` for -1 (see `IndexOfMeaning`). */
  function IndexOf(s: string, pat: string, from: nat): Option<nat>
    decreases |s| - from
  {
    if from + |pat| > |s| then None
    else if OccursAt(s, pat, from) then Some(from)
    else IndexOf(s, pat, from + 1)
  }

  /** `find` returns the first occurrence at or after `from`, and -1 only when there is none. */
  lemma {:induction false} IndexOfMeaning(s: string, pat: string, from: nat)
    ensures var r := IndexOf(s, pat, from);
      && (r.Some? ==> from <= r.value && OccursAt(s, pat, r.value))
      && (r.Some? ==> forall j :: from <= j < r.value ==> !OccursAt(s, pat, j))
      && (r.None? ==> forall j :: from <= j ==> !OccursAt(s, pat, j))
    decreases |s| - from
  {
    if from + |pat| <= |s| && !OccursAt(s, pat, from) {
      IndexOfMeaning(s, pat, from + 1);
    }
  }

  /** The first occurrence at or after `from` is what `find` returns. */
  lemma {:induction false} IndexOfIs(s: string, pat: string, from: nat, i: nat)
    requires from <= i && OccursAt(s, pat, i)
    requires forall j :: from <= j < i ==> !OccursAt(s, pat, j)
    ensures IndexOf(s, pat, from) == Some(i)
    decreases i - from
  {
    if from < i {
      IndexOfIs(s, pat, from + 1, i);
    }
  }

  /** `s.split(sep)` for a non-empty separator: scans left to right, never drops empty parts. */
  function Split(s: string, sep: string): (parts: seq<string>)
    requires |sep| > 0
    ensures |parts| >= 1
    decreases |s|
  {
    IndexOfMeaning(s, sep, 0);
    match IndexOf(s, sep, 0)
    case None => [s]
    case Some(i) => [s[..i]] + Split(s[i + |sep|..], sep)
  }

  /** Without a separator, the split is the whole string. */
  lemma SplitNone(s: string, sep: string)
    requires |sep| > 0 && IndexOf(s, sep, 0).None?
    ensures Split(s, sep) == [s]
  {
  }

  /** At the first separator, the split is the text before it, then the split of the rest. */
  lemma SplitSome(s: string, sep: string, i: nat)
    requires |sep| > 0 && IndexOf(s, sep, 0) == Some(i) && i + |sep| <= |s|
    ensures |Split(s, sep)| >= 2 && Split(s, sep)[0] == s[..i]
    ensures Split(s, sep)[1] == Split(s[i + |sep|..], sep)[0]
  {
  }

  /** The first part of a split holds no separator, and it is all of `s` or is followed in `s` by
      the separator and the rest of the split. */
  lemma SplitHead(s: string, sep: string, a: string)
    requires |sep| > 0 && a == Split(s, sep)[0]
    ensures forall j :: 0 <= j < |a| ==> !OccursAt(a, sep, j)
    ensures |Split(s, sep)| == 1 ==> a == s
    ensures |Split(s, sep)| >= 2 ==> StartsWith(s, a + sep)
    ensures |Split(s, sep)| >= 2 ==> Split(s, sep)[1] == Split(s[|a| + |sep|..], sep)[0]
  {
    IndexOfMeaning(s, sep, 0);
    match IndexOf(s, sep, 0)
    case None =>
      SplitNone(s, sep);
      PrefixFree(s, sep, |s|);
    case Some(i) =>
      SplitHeadAt(s, sep, i, a);
      assert |a| == i;
      PrefixFree(s, sep, i);
  }

  /** `SplitHead` when the first separator is at `i`. */
  lemma SplitHeadAt(s: string, sep: string, i: nat, a: string)
    requires |sep| > 0 && IndexOf(s, sep, 0) == Some(i) && OccursAt(s, sep, i)
    requires a == Split(s, sep)[0]
    ensures |Split(s, sep)| >= 2 && a == s[..i]
    ensures StartsWith(s, a + sep)
    ensures Split(s, sep)[1] == Split(s[i + |sep|..], sep)[0]
  {
    SplitSome(s, sep, i);
    SuffixSlice(s, i, 0, |sep|);
  }

  /** A prefix of `s` ending before its first `sep` holds no `sep`. */
  lemma PrefixFree(s: string, sep: string, i: nat)
    requires i <= |s| && forall j :: 0 <= j < i ==> !OccursAt(s, sep, j)
    ensures forall j :: 0 <= j < |s[..i]| ==> !OccursAt(s[..i], sep, j)
  {
    forall j | 0 <= j < i && OccursAt(s[..i], sep, j) ensures false {
      assert s[..i][j..j + |sep|] == s[j..j + |sep|];
      assert OccursAt(s, sep, j);
    }
  }

  /** The second part of a split holds no separator, follows the first part and the separator,
      and ends at the end of `s` or at the next separator. */
  lemma SecondPart(s: string, sep: string, a: string, b: string)
    requires |sep| > 0 && |Split(s, sep)| >= 2 && a == Split(s, sep)[0] && b == Split(s, sep)[1]
    ensures forall j :: 0 <= j < |b| ==> !OccursAt(b, sep, j)
    ensures StartsWith(s, a + sep + b)
    ensures |a| + |sep| + |b| == |s| || OccursAt(s, sep, |a| + |sep| + |b|)
  {
    SplitHead(s, sep, a);
    SplitHead(s[|a| + |sep|..], sep, b);
    PartAfter(s, a, sep, b);
  }

  /** Slicing a suffix is slicing the string further along. */
  lemma SuffixSlice(s: string, m: nat, a: nat, b: nat)
    requires a <= b && m + b <= |s|
    ensures s[m..][a..b] == s[m + a..m + b]
    ensures s[..m + b] == s[..m] + s[m..][..b]
  {
  }

  /** `a`, `sep` and `b` start `s` when `a + sep` does and `b` is all that follows or is followed
      by another `sep`; `b` then ends at the end of `s` or at that `sep`. */
  lemma PartAfter(s: string, a: string, sep: string, b: string)
    requires StartsWith(s, a + sep)
    requires b == s[|a| + |sep|..] || StartsWith(s[|a| + |sep|..], b + sep)
    ensures StartsWith(s, a + sep + b)
    ensures |a| + |sep| + |b| == |s| || OccursAt(s, sep, |a| + |sep| + |b|)
  {
    var m := |a| + |sep|;
    var rest := s[m..];
    if b != rest {
      assert rest[..|b| + |sep|] == b + sep;
      assert rest[..|b|] == b && rest[|b|..|b| + |sep|] == sep;
      SuffixSlice(s, m, |b|, |b| + |sep|);
    }
    SuffixSlice(s, m, 0, |b|);
  }

  /** `sep.join(parts)`. */
  function Join(parts: seq<string>, sep: string): string {
    if |parts| == 0 then ""
    else if |parts| == 1 then parts[0]
    else parts[0] + sep + Join(parts[1..], sep)
  }

  /** `"".join(parts)`. */
  function Concat(parts: seq<string>): string {
    if |parts| == 0 then "" else parts[0] + Concat(parts[1..])
  }

  /** `s.replace(a, b)` for single characters. */
  function ReplaceChar(s: string, a: char, b: char): (r: string)
    ensures |r| == |s|
    ensures forall i :: 0 <= i < |s| ==> r[i] == (if s[i] == a then b else s[i])
  {
    seq(|s|, i requires 0 <= i < |s| => if s[i] == a then b else s[i])
  }

  /** Indexing a prefix is indexing the string. */
  lemma SliceIndex(s: string, j: int, i: int)
    ensures 0 <= i < j <= |s| ==> s[..j][i] == s[i]
  {
  }

  /** A string with a character other than whitespace is not blank. */
  lemma NotBlankAt(s: string, i: int)
    ensures 0 <= i < |s| && !IsSpace(s[i]) ==> !Blank(s)
  {
  }

  /** Replacing a character that does not occur changes nothing. */
  lemma ReplaceCharAbsent(s: string, a: char, b: char)
    requires a !in s
    ensures ReplaceChar(s, a, b) == s
  {
  }

  /** The part of `s` that a Python regex anchored with `$` must cover: `$` also matches just
      before one final newline. */
  function RegexBody(s: string): string {
    if |s| > 0 && s[|s| - 1] == '\n' then s[..|s| - 1] else s
  }

  predicate IsDigit(c: char) {
    '0' <= c <= '9'
  }

  predicate AllDigits(s: string) {
    forall i :: 0 <= i < |s| ==> IsDigit(s[i])
  }

  function DigitsValue(s: string): nat
    requires AllDigits(s)
  {
    if |s| == 0 then 0 else DigitsValue(s[..|s| - 1]) * 10 + (s[|s| - 1] as int - '0' as int)
  }

  /** `str(n)` for a natural number. */
  function NatToString(n: nat): (r: string)
    ensures |r| >= 1 && AllDigits(r)
  {
    var d := ['0' + ((n % 10) as char)];
    if n < 10 then d else NatToString(n / 10) + d
  }

  /** ASCII lower-casing (the only letters a URL scheme may hold). */
  function ToLowerAscii(s: string): (r: string)
    ensures |r| == |s|
  {
    seq(|s|, i requires 0 <= i < |s| => if 'A' <= s[i] <= 'Z' then (s[i] as int + 32) as char else s[i])
  }

  lemma NotInNoOccurrence(s: string, c: char)
    requires c !in s
    ensures IndexOf(s, [c], 0) == None
  {
    IndexOfMeaning(s, [c], 0);
    forall j: nat | j + 1 <= |s| ensures !OccursAt(s, [c], j) {
      assert s[j..j + 1] == [s[j]];
    }
  }

  lemma FirstOccurrenceAfter(a: string, c: char, b: string)
    requires c !in a
    ensures IndexOf(a + [c] + b, [c], 0) == Some(|a|)
  {
    var s := a + [c] + b;
    IndexOfMeaning(s, [c], 0);
    assert s[|a|..|a| + 1] == [c];
    assert OccursAt(s, [c], |a|);
    forall j: nat | j < |a| ensures !OccursAt(s, [c], j) {
      assert s[j..j + 1] == [a[j]];
    }
  }

  /** Splitting and joining on a separator are inverse: no character is lost or invented. */
  lemma {:induction false} JoinSplit(s: string, sep: string)
    requires |sep| > 0
    ensures Join(Split(s, sep), sep) == s
    decreases |s|
  {
    var r := IndexOf(s, sep, 0);
    IndexOfMeaning(s, sep, 0);
    if r.Some? {
      var i := r.value;
      var rest := s[i + |sep|..];
      JoinSplit(rest, sep);
      assert Split(s, sep) == [s[..i]] + Split(rest, sep);
      JoinCons(s[..i], Split(rest, sep), sep);
      assert s[i..i + |sep|] == sep;
      ThreeSlices(s, i, i + |sep|);
    }
  }

  lemma ThreeSlices(s: string, i: nat, j: nat)
    requires i <= j <= |s|
    ensures s == s[..i] + s[i..j] + s[j..]
  {
    assert s[..j] == s[..i] + s[i..j];
    assert s == s[..j] + s[j..];
  }

  lemma JoinCons(a: string, rest: seq<string>, sep: string)
    requires |rest| >= 1
    ensures Join([a] + rest, sep) == a + sep + Join(rest, sep)
  {
    assert ([a] + rest)[1..] == rest;
  }

  /** Joining parts free of the separator and splitting again gives the parts back. */
  lemma {:induction false} SplitJoin(parts: seq<string>, c: char)
    requires |parts| >= 1
    requires forall i :: 0 <= i < |parts| ==> c !in parts[i]
    ensures Split(Join(parts, [c]), [c]) == parts
  {
    if |parts| == 1 {
      NotInNoOccurrence(parts[0], c);
    } else {
      var rest := Join(parts[1..], [c]);
      assert Join(parts, [c]) == parts[0] + [c] + rest;
      FirstOccurrenceAfter(parts[0], c, rest);
      var s := parts[0] + [c] + rest;
      assert s[..|parts[0]|] == parts[0];
      assert s[|parts[0]| + 1..] == rest;
      SplitJoin(parts[1..], c);
      assert parts == [parts[0]] + parts[1..];
    }
  }

  /** No part produced by a one-character split contains that character. */
  lemma {:induction false} SplitPartsFree(s: string, c: char)
    ensures forall k :: 0 <= k < |Split(s, [c])| ==> c !in Split(s, [c])[k]
    decreases |s|
  {
    IndexOfMeaning(s, [c], 0);
    match IndexOf(s, [c], 0)
    case None =>
      forall j | 0 <= j < |s| ensures s[j] != c {
        assert !OccursAt(s, [c], j);
        assert s[j..j + 1] == [s[j]];
      }
    case Some(i) =>
      SplitPartsFree(s[i + 1..], c);
      forall j | 0 <= j < i ensures s[j] != c {
        assert !OccursAt(s, [c], j);
        assert s[j..j + 1] == [s[j]];
      }
  }
}
