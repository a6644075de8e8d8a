/** The property block of a component: `key: value` lines up to the first blank line, the
    leftover tail, and the one error a malformed tail is classified as. */
module Properties {
  import opened Wrappers
  import opened Strings
  import opened Dicts

  /** `_tokenize_property`: `^(.+?): (.+?)$` on the line, the key with `-` turned into `_`
      (see `TokenizePropertyMeaning`). */
  function TokenizeProperty(line: string): (r: Option<(string, string)>)
    ensures r.Some? ==> |r.value.0| >= 1 && '-' !in r.value.0
    ensures r.Some? ==> |r.value.1| >= 1 && '\n' !in r.value.1
  {
    var b := RegexBody(line);
    IndexOfMeaning(b, ": ", 1);
    if '\n' in b then None
    else
      match IndexOf(b, ": ", 1)
      case None => None
      case Some(i) => if i + 2 < |b| then Some((ReplaceChar(b[..i], '-', '_'), b[i + 2..])) else None
  }

  /** `i` is where the key of `b` ends: the first `": "` after the key's first character, with
      a non-empty value after it. */
  predicate KeyEnd(b: string, i: int) {
    1 <= i && i + 2 < |b| && OccursAt(b, ": ", i) && forall j :: 1 <= j < i ==> !OccursAt(b, ": ", j)
  }

  /** The regex matches exactly when the line (less one final newline) holds no other newline
      and has a `": "` after its first character with something after it; the key then runs
      to the first such `": "`, and the value is the rest. */
  lemma TokenizePropertyMeaning(line: string)
    ensures var b := RegexBody(line);
      TokenizeProperty(line).Some? <==> '\n' !in b && exists i :: 1 <= i && i + 2 < |b| && OccursAt(b, ": ", i)
    ensures var b := RegexBody(line);
      TokenizeProperty(line).Some? ==> exists i :: (KeyEnd(b, i)
        && TokenizeProperty(line).value == (ReplaceChar(b[..i], '-', '_'), b[i + 2..]))
  {
    var b := RegexBody(line);
    var r := IndexOf(b, ": ", 1);
    IndexOfMeaning(b, ": ", 1);
    if '\n' !in b && r.Some? && r.value + 2 < |b| {
      assert KeyEnd(b, r.value);
    }
  }

  /** Writing a property as `key: value` and tokenizing it gives the key and the value back,
      when the key holds no `": "` and neither part holds a newline. */
  lemma TokenizeRendered(k: string, v: string)
    requires |k| >= 1 && |v| >= 1 && '\n' !in k && '\n' !in v
    requires forall j :: 0 <= j < |k| ==> !OccursAt(k, ": ", j)
    ensures TokenizeProperty(k + ": " + v) == Some((ReplaceChar(k, '-', '_'), v))
  {
    var s := k + ": " + v;
    assert s[|s| - 1] == v[|v| - 1];
    assert RegexBody(s) == s;
    assert s[|k|..|k| + 2] == ": ";
    assert OccursAt(s, ": ", |k|);
    forall j | 1 <= j < |k| ensures !OccursAt(s, ": ", j) {
      if j + 2 <= |k| {
        assert !OccursAt(k, ": ", j);
        assert s[j..j + 2] == k[j..j + 2];
      } else {
        assert s[j + 1] == ':';
        assert s[j..j + 2][1] == s[j + 1];
      }
    }
    assert s[..|k|] == k;
    assert s[|k| + 2..] == v;
    assert '\n' !in s;
    IndexOfIs(s, ": ", 1, |k|);
  }

  /** The line's key, when it tokenizes once its trailing whitespace is stripped. */
  predicate Defines(line: string, k: string) {
    var t := TokenizeProperty(RStrip(line));
    t.Some? && t.value.0 == k
  }

  /** `chunk[1:]`: the lines after the component header. */
  function AfterHeader(chunk: seq<string>): (body: seq<string>)
    ensures |chunk| > 0 ==> body == chunk[1..]
    ensures |chunk| == 0 ==> body == []
  {
    if |chunk| == 0 then [] else chunk[1..]
  }

  /** The index of the first blank line, or the number of lines. */
  function FirstBlank(lines: seq<string>): (n: nat)
    ensures n <= |lines|
    ensures n < |lines| ==> Blank(lines[n])
  {
    if |lines| == 0 || Blank(lines[0]) then 0 else 1 + FirstBlank(lines[1..])
  }

  /** No line before the first blank one is blank. */
  lemma {:induction false} FirstBlankBefore(lines: seq<string>, j: nat)
    requires j < FirstBlank(lines)
    ensures !Blank(lines[j])
  {
    if j > 0 {
      FirstBlankBefore(lines[1..], j - 1);
    }
  }

  /** A line that is not blank, met before the first blank line, is not the first blank line. */
  lemma {:induction false} FirstBlankPast(lines: seq<string>, n: nat)
    requires n <= FirstBlank(lines) && n < |lines| && !Blank(lines[n])
    ensures n + 1 <= FirstBlank(lines)
  {
  }

  /** One round of the loop over a non-blank line: a line that tokenizes to a new key adds
      it, any other line goes to the tail. */
  function PropStep(acc: (Dict<string>, seq<string>), line: string): (r: (Dict<string>, seq<string>))
    ensures DistinctKeys(acc.0) ==> DistinctKeys(r.0)
    ensures |r.0| + |r.1| == |acc.0| + |acc.1| + 1
  {
    var t := TokenizeProperty(RStrip(line));
    if t.Some? && !HasKey(acc.0, t.value.0) then (Put(acc.0, t.value.0, t.value.1), acc.1)
    else (acc.0, acc.1 + [line])
  }

  /** The property map and the tail after the loop has seen the (non-blank) lines `ls`. */
  function PropsFold(ls: seq<string>): (r: (Dict<string>, seq<string>))
    ensures DistinctKeys(r.0)
    ensures |r.0| + |r.1| == |ls|
  {
    if |ls| == 0 then ([], []) else PropStep(PropsFold(ls[..|ls| - 1]), ls[|ls| - 1])
  }

  /** The fold over one more line is one more step. */
  lemma PropsFoldSnoc(lines: seq<string>, n: nat)
    requires n < |lines|
    ensures PropsFold(lines[..n + 1]) == PropStep(PropsFold(lines[..n]), lines[n])
  {
    assert lines[..n + 1][..n] == lines[..n];
  }

  /** `_tokenize_component_properties` as a value: the properties, and the tail made of the
      rejected lines followed by everything from the first blank line on. */
  function ComponentProperties(chunk: seq<string>): (r: (Dict<string>, seq<string>))
    ensures DistinctKeys(r.0)
    ensures |r.0| + |r.1| == |AfterHeader(chunk)|
  {
    var body := AfterHeader(chunk);
    var n := FirstBlank(body);
    var (props, tail) := PropsFold(body[..n]);
    (props, tail + body[n..])
  }

  /** `_tokenize_component_properties`. */
  method TokenizeComponentProperties(chunk: seq<string>) returns (props: Dict<string>, tail: seq<string>)
    ensures (props, tail) == ComponentProperties(chunk)
  {
    var lines := AfterHeader(chunk);
    props, tail := [], [];
    var n := 0;
    while n < |lines|
      invariant n <= FirstBlank(lines)
      invariant (props, tail) == PropsFold(lines[..n])
    {
      var line := lines[n];
      if Blank(line) {
        assert n == FirstBlank(lines) by {
          if n < FirstBlank(lines) {
            FirstBlankBefore(lines, n);
          }
        }
        tail := tail + lines[n..];
        ComponentPropertiesAt(chunk, lines, n);
        return;
      }
      props, tail := AddPropertyLine(props, tail, line);
      assert (props, tail) == PropsFold(lines[..n + 1]) by {
        PropsFoldSnoc(lines, n);
      }
      FirstBlankPast(lines, n);
      n := n + 1;
    }
    assert tail == tail + lines[n..];
    ComponentPropertiesAt(chunk, lines, n);
  }

  /** The loop body for a non-blank line: the stripped line tokenized to a key not yet seen
      adds that property, and any other line goes to the tail as it was. */
  method AddPropertyLine(props: Dict<string>, tail: seq<string>, line: string)
    returns (props': Dict<string>, tail': seq<string>)
    ensures (props', tail') == PropStep((props, tail), line)
  {
    props', tail' := props, tail;
    var t := TokenizeProperty(RStrip(line));
    if t.Some? && !HasKey(props, t.value.0) {
      props' := Put(props, t.value.0, t.value.1);
    } else {
      tail' := tail + [line];
    }
  }

  /** The result once the first blank line is known to be at `n`. */
  lemma ComponentPropertiesAt(chunk: seq<string>, lines: seq<string>, n: nat)
    requires lines == AfterHeader(chunk) && n == FirstBlank(lines)
    ensures ComponentProperties(chunk) == (PropsFold(lines[..n]).0, PropsFold(lines[..n]).1 + lines[n..])
  {
  }

  /** One round of the loop, key by key: a key is present afterwards when it was before or
      the line defines it, and an earlier value is never overwritten. */
  lemma PropStepKey(acc: (Dict<string>, seq<string>), line: string, k: string)
    ensures HasKey(PropStep(acc, line).0, k) <==> HasKey(acc.0, k) || Defines(line, k)
    ensures HasKey(acc.0, k) ==> Get(PropStep(acc, line).0, k) == Get(acc.0, k)
    ensures !HasKey(acc.0, k) && Defines(line, k) ==>
      Get(PropStep(acc, line).0, k) == TokenizeProperty(RStrip(line)).value.1
  {
  }

  /** A key is in the map exactly when some line defines it. */
  lemma {:induction false} PropsFoldHasKey(ls: seq<string>, k: string)
    ensures HasKey(PropsFold(ls).0, k) <==> exists j :: 0 <= j < |ls| && Defines(ls[j], k)
  {
    if |ls| > 0 {
      var init := ls[..|ls| - 1];
      var last := ls[|ls| - 1];
      var acc := PropsFold(init);
      assert PropsFold(ls) == PropStep(acc, last);
      PropsFoldHasKey(init, k);
      PropStepKey(acc, last, k);
      if HasKey(PropsFold(ls).0, k) {
        if HasKey(acc.0, k) {
          var j :| 0 <= j < |init| && Defines(init[j], k);
          assert ls[j] == init[j];
        } else {
          assert Defines(ls[|ls| - 1], k);
        }
      } else {
        forall j | 0 <= j < |ls| ensures !Defines(ls[j], k) {
          if j < |init| {
            assert init[j] == ls[j];
          }
        }
      }
    }
  }

  /** The first value wins: a key's value is the one of the first line that defines it. */
  lemma {:induction false} PropsFoldFirstWins(ls: seq<string>, k: string)
    requires HasKey(PropsFold(ls).0, k)
    ensures exists j :: (0 <= j < |ls| && Defines(ls[j], k)
        && (forall i :: 0 <= i < j ==> !Defines(ls[i], k))
        && Get(PropsFold(ls).0, k) == TokenizeProperty(RStrip(ls[j])).value.1)
  {
    var init := ls[..|ls| - 1];
    var line := ls[|ls| - 1];
    var acc := PropsFold(init);
    PropStepKey(acc, line, k);
    PropsFoldHasKey(init, k);
    if HasKey(acc.0, k) {
      PropsFoldFirstWins(init, k);
      var j :| 0 <= j < |init| && Defines(init[j], k)
        && (forall i :: 0 <= i < j ==> !Defines(init[i], k))
        && Get(acc.0, k) == TokenizeProperty(RStrip(init[j])).value.1;
      assert init[j] == ls[j];
      assert forall i :: 0 <= i < j ==> init[i] == ls[i];
    } else {
      assert forall i :: 0 <= i < |init| ==> init[i] == ls[i];
      assert Defines(ls[|ls| - 1], k);
    }
  }

  /** A line is rejected when it does not tokenize or its key is already in the map. */
  predicate Rejected(line: string, props: Dict<string>) {
    var t := TokenizeProperty(RStrip(line));
    t.None? || HasKey(props, t.value.0)
  }

  /** Every line the loop puts into the tail is one of its lines, rejected by the final map. */
  lemma {:induction false} PropsFoldTail(ls: seq<string>)
    ensures forall i :: 0 <= i < |PropsFold(ls).1| ==>
      PropsFold(ls).1[i] in ls && Rejected(PropsFold(ls).1[i], PropsFold(ls).0)
  {
    if |ls| > 0 {
      var init := ls[..|ls| - 1];
      var line := ls[|ls| - 1];
      PropsFoldTail(init);
      var acc := PropsFold(init);
      var r := PropsFold(ls);
      assert r == PropStep(acc, line);
      forall k | HasKey(acc.0, k) ensures HasKey(r.0, k) {
      }
      forall i | 0 <= i < |r.1| ensures r.1[i] in ls && Rejected(r.1[i], r.0) {
        if i < |acc.1| {
          assert r.1[i] == acc.1[i];
          assert acc.1[i] in init;
        } else {
          assert r.1[i] == line;
        }
      }
    }
  }

  /** The property block ends at the first blank line: that line and all later ones are the end
      of the tail, and the tail starts with a blank line exactly when no earlier line was
      rejected. */
  lemma ComponentPropertiesTail(chunk: seq<string>)
    ensures var body := AfterHeader(chunk);
      var n := FirstBlank(body);
      var (p, t) := ComponentProperties(chunk);
      && |t| >= |body| - n && t[|t| - (|body| - n)..] == body[n..]
      && (p, t[..|t| - (|body| - n)]) == PropsFold(body[..n])
      && (|t| > 0 ==> (Blank(t[0]) <==> |PropsFold(body[..n]).1| == 0))
  {
    var body := AfterHeader(chunk);
    var n := FirstBlank(body);
    var acc := PropsFold(body[..n]);
    PropsFoldTail(body[..n]);
    var t := acc.1 + body[n..];
    assert t[|acc.1|..] == body[n..];
    assert t[..|acc.1|] == acc.1;
    if |acc.1| > 0 {
      assert acc.1[0] in body[..n];
      var j :| 0 <= j < n && body[..n][j] == acc.1[0];
      FirstBlankBefore(body, j);
    }
  }

  /** `s.split(c, maxsplit=1)`. */
  function SplitOnce(s: string, c: char): (parts: seq<string>)
    ensures 1 <= |parts| <= 2
    ensures |parts| == 1 <==> c !in s
    ensures |parts| == 1 ==> parts[0] == s
    ensures |parts| == 2 ==> c !in parts[0] && s == parts[0] + [c] + parts[1]
  {
    var r := IndexOf(s, [c], 0);
    IndexOfMeaning(s, [c], 0);
    if r.None? then
      assert c !in s by {
        forall j | 0 <= j < |s| ensures s[j] != c {
          assert !OccursAt(s, [c], j);
          assert s[j..j + 1] == [s[j]];
        }
      }
      [s]
    else
      var i := r.value;
      assert s[i..i + 1] == [c];
      assert c !in s[..i] by {
        forall j | 0 <= j < i ensures s[j] != c {
          assert !OccursAt(s, [c], j);
          assert s[j..j + 1] == [s[j]];
        }
      }
      ThreeSlices(s, i, i + 1);
      [s[..i], s[i + 1..]]
  }

  /** `prop_missing_space` as written: `None` stands for the `IndexError` that `matches[1][0]`
      raises when the stripped line ends at its first colon. */
  function PropMissingSpaceAsWritten(line: string): Option<bool> {
    var m := SplitOnce(RStrip(line), ':');
    if |m| == 2 then (if |m[1]| == 0 then None else Some(m[1][0] != ' ')) else Some(false)
  }

  /** `prop_missing_space`, with a line that ends at its first colon counted as missing the
      space (see `PropMissingSpaceMeaning`). */
  function PropMissingSpace(line: string): bool {
    var m := SplitOnce(RStrip(line), ':');
    |m| == 2 && !StartsWith(m[1], " ")
  }

  /** The check fires exactly when the stripped line has a colon and its first colon is not
      followed by a space. */
  lemma PropMissingSpaceMeaning(line: string)
    ensures var s := RStrip(line);
      PropMissingSpace(line) <==> exists i :: FirstColonUnspaced(s, i)
  {
    var s := RStrip(line);
    var m := SplitOnce(s, ':');
    if |m| == 2 {
      var i := |m[0]|;
      assert s[i] == ':' && s[..i] == m[0] && s[i + 1..] == m[1];
      forall i' | FirstColonUnspaced(s, i') ensures i' == i {
        SliceIndex(s, i', i);
      }
      if PropMissingSpace(line) {
        assert FirstColonUnspaced(s, i);
      }
    } else {
      forall i | 0 <= i < |s| ensures s[i] != ':' {
      }
    }
  }

  /** `i` is the first colon of `s`, and no space follows it. */
  predicate FirstColonUnspaced(s: string, i: int) {
    0 <= i < |s| && s[i] == ':' && ':' !in s[..i] && (i + 1 == |s| || s[i + 1] != ' ')
  }

  /** Wherever the code as written does not raise, it agrees with the corrected check. */
  lemma PropMissingSpaceAgrees(line: string)
    requires PropMissingSpaceAsWritten(line).Some?
    ensures PropMissingSpaceAsWritten(line) == Some(PropMissingSpace(line))
  {
    var m := SplitOnce(RStrip(line), ':');
    if |m| == 2 {
      assert m[1][..1] == [m[1][0]];
    }
  }

  /** `"author:\n"` makes the code as written raise, where a space after the colon is evidently
      what is missing. */
  lemma PropMissingSpaceRaises()
    ensures PropMissingSpaceAsWritten("author:\n") == None
    ensures PropMissingSpace("author:\n")
  {
    var s := "author:\n";
    assert RStrip(s) == "author" + ":" by {
      assert IsSpace(s[7]) && !IsSpace(s[6]);
      assert s[..7] == "author:";
    }
    assert ':' !in "author";
    EndsAtFirstColon(s, "author");
  }

  /** A stripped line that ends at its first colon makes the code as written raise. */
  lemma EndsAtFirstColon(line: string, key: string)
    requires RStrip(line) == key + ":" && ':' !in key
    ensures PropMissingSpaceAsWritten(line) == None && PropMissingSpace(line)
  {
    var t := key + ":";
    assert t[|key|] == ':';
    var m := SplitOnce(t, ':');
    assert |m| == 2;
    assert t[|m[0]|] == ':';
    assert forall j :: 0 <= j < |key| ==> t[j] == key[j];
    assert forall j :: 0 <= j < |m[0]| ==> t[j] == m[0][j];
  }

  const MsgNotation := "expected property notation but found"
  const MsgSpace := "expected space after first colon"
  const MsgDuplicate := "duplicate of field"
  const MsgOverflow := "Properties were terminated by blank line, overflowing content not allowed"

  /** `_analyze_incorrect_property`: a missing space wins over a duplicate key, which wins over
      plain bad notation. The key test runs on the raw line. */
  function AnalyzeIncorrectProperty(line: string, props: Dict<string>): (msg: string)
    ensures msg == MsgSpace <==> PropMissingSpace(line)
    ensures msg == MsgDuplicate <==>
      !PropMissingSpace(line) && TokenizeProperty(line).Some? && HasKey(props, TokenizeProperty(line).value.0)
    ensures msg in {MsgSpace, MsgDuplicate, MsgNotation}
  {
    if PropMissingSpace(line) then MsgSpace
    else
      var t := TokenizeProperty(line);
      if t.Some? && HasKey(props, t.value.0) then MsgDuplicate else MsgNotation
  }

  /** Stripping trailing whitespace never moves the key: a line that tokenizes stripped also
      tokenizes raw, to the same key, when its trailing whitespace holds no newline but at
      most one at the very end. */
  lemma RawKeyAgrees(line: string)
    requires '\n' !in RegexBody(line)
    requires TokenizeProperty(RStrip(line)).Some?
    ensures TokenizeProperty(line).Some?
    ensures TokenizeProperty(line).value.0 == TokenizeProperty(RStrip(line)).value.0
  {
    var b := RegexBody(line);
    var s := RStrip(line);
    StrippedPrefixOfBody(line);
    assert RegexBody(s) == s by {
      RStripMeaning(line);
      if |s| > 0 {
        assert !IsSpace(s[|s| - 1]);
      }
    }
    assert exists i :: KeyEnd(s, i) && TokenizeProperty(s).value.0 == ReplaceChar(s[..i], '-', '_') by {
      TokenizePropertyMeaning(s);
    }
    var i :| KeyEnd(s, i) && TokenizeProperty(s).value.0 == ReplaceChar(s[..i], '-', '_');
    KeyEndExtends(s, b, i);
    TokenizeAtKeyEnd(line, i);
    assert b[..i] == s[..i] by {
      assert s[..i] == b[..|s|][..i];
    }
  }

  /** The regex splits a line at the end of its key. */
  lemma TokenizeAtKeyEnd(line: string, i: int)
    requires '\n' !in RegexBody(line) && KeyEnd(RegexBody(line), i)
    ensures TokenizeProperty(line) ==
      Some((ReplaceChar(RegexBody(line)[..i], '-', '_'), RegexBody(line)[i + 2..]))
  {
    IndexOfIs(RegexBody(line), ": ", 1, i);
  }

  /** Where a key ends does not change when more text follows. */
  lemma KeyEndExtends(s: string, b: string, i: int)
    requires |s| <= |b| && s == b[..|s|]
    requires KeyEnd(s, i)
    ensures KeyEnd(b, i)
  {
    assert b[i..i + 2] == s[i..i + 2];
    forall j | 1 <= j < i ensures !OccursAt(b, ": ", j) {
      assert !OccursAt(s, ": ", j);
      assert b[j..j + 2] == s[j..j + 2];
    }
  }

  /** With no newline before its end, a line stripped of trailing whitespace is a prefix of the
      part a `$`-anchored regex must cover. */
  lemma StrippedPrefixOfBody(line: string)
    requires '\n' !in RegexBody(line)
    ensures |RStrip(line)| <= |RegexBody(line)| && RStrip(line) == RegexBody(line)[..|RStrip(line)|]
  {
    RStripMeaning(line);
    var s := RStrip(line);
    if |line| > 0 && line[|line| - 1] == '\n' {
      assert IsSpace(line[|line| - 1]);
    }
  }

  /** A tail line rejected as a duplicate key is reported as a duplicate, unless the check for a
      missing space already fires. */
  lemma DuplicateReported(line: string, props: Dict<string>, k: string)
    requires '\n' !in RegexBody(line)
    requires Defines(line, k) && HasKey(props, k)
    requires !PropMissingSpace(line)
    ensures AnalyzeIncorrectProperty(line, props) == MsgDuplicate
  {
    RawKeyAgrees(line);
  }

  /** `get_first_contentful` as a value: the first non-blank line, or `""`. */
  function FirstContentful(tail: seq<string>): (r: string)
    ensures r == "" || exists i :: (0 <= i < |tail| && tail[i] == r && !Blank(r)
        && forall j :: 0 <= j < i ==> Blank(tail[j]))
    ensures (forall j :: 0 <= j < |tail| ==> Blank(tail[j])) ==> r == ""
    ensures (forall j :: 0 <= j < |tail| ==> |tail[j]| > 0) && r == "" ==>
      forall j :: 0 <= j < |tail| ==> Blank(tail[j])
  {
    if |tail| == 0 then ""
    else if !Blank(tail[0]) then
      tail[0]
    else
      var r := FirstContentful(tail[1..]);
      assert forall j :: 1 <= j < |tail| ==> tail[j] == tail[1..][j - 1];
      r
  }

  /** `get_first_contentful`. */
  method GetFirstContentful(tail: seq<string>) returns (line: string)
    ensures line == FirstContentful(tail)
  {
    var i := 0;
    while i < |tail|
      invariant i <= |tail|
      invariant FirstContentful(tail) == FirstContentful(tail[i..])
    {
      if !Blank(tail[i]) {
        return tail[i];
      }
      assert tail[i..][1..] == tail[i + 1..];
      i := i + 1;
    }
    return "";
  }

  /** `props_body_terminated`: the tail starts with a blank line. */
  predicate PropsBodyTerminated(tail: seq<string>)
    requires |tail| > 0
  {
    Blank(tail[0])
  }

  /** `_invalid_tail`: the message and the offending line, or `None` for a valid tail. A first
      line that is not blank is classified by `AnalyzeIncorrectProperty`; a blank-started tail
      fails only without a body, at its first contentful line. With lines as a file yields them
      (never empty), a tail is accepted exactly when it starts blank and, without a body, holds
      only blank lines. */
  function InvalidTail(hasContentBody: bool, props: Dict<string>, tail: seq<string>): (r: Option<(string, string)>)
    requires |tail| > 0
    ensures !Blank(tail[0]) ==> r == Some((AnalyzeIncorrectProperty(tail[0], props), tail[0]))
    ensures r.Some? ==> r.value.1 in tail && !Blank(r.value.1)
    ensures r.Some? && Blank(tail[0]) ==> (!hasContentBody && r.value.0 == MsgOverflow
      && exists i :: 0 <= i < |tail| && tail[i] == r.value.1 && forall j :: 0 <= j < i ==> Blank(tail[j]))
    ensures (forall j :: 0 <= j < |tail| ==> |tail[j]| > 0) ==>
      (r.None? <==> Blank(tail[0]) && (hasContentBody || forall j :: 0 <= j < |tail| ==> Blank(tail[j])))
  {
    if !PropsBodyTerminated(tail) then
      Some((AnalyzeIncorrectProperty(tail[0], props), tail[0]))
    else if !hasContentBody then
      var line := FirstContentful(tail);
      if line != "" then Some((MsgOverflow, line)) else None
    else None
  }
}
