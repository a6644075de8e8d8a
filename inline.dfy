/** The inline value micro-grammars: the values of the `appendix`, `picture`, `gallery` and
    `quote` properties are matched against small regular expressions and turned into nested
    token values, or rejected with a fixed hint. */
module InlineValues {
  import opened Wrappers
  import opened Strings
  import opened Dicts
  import opened Values

  /** `\S+` holds: no character is whitespace. */
  predicate NoSpace(s: string) {
    forall i :: 0 <= i < |s| ==> !IsSpace(s[i])
  }

  /** The last position in `[lo, hi]` where `pat` occurs (see `LastIndexOfMeaning`). */
  function LastIndexOf(s: string, pat: string, lo: nat, hi: int): (r: Option<nat>)
    ensures r.Some? ==> lo <= r.value <= hi
    decreases if hi < lo then 0 else hi - lo + 1
  {
    if hi < lo then None
    else if OccursAt(s, pat, hi) then Some(hi)
    else LastIndexOf(s, pat, lo, hi - 1)
  }

  lemma {:induction false} LastIndexOfMeaning(s: string, pat: string, lo: nat, hi: int)
    ensures var r := LastIndexOf(s, pat, lo, hi);
      && (r.Some? ==> lo <= r.value <= hi && OccursAt(s, pat, r.value))
      && (r.Some? ==> forall j :: r.value < j <= hi ==> !OccursAt(s, pat, j))
      && (r.None? ==> forall j :: lo <= j <= hi ==> !OccursAt(s, pat, j))
    decreases if hi < lo then 0 else hi - lo + 1
  {
    if lo <= hi && !OccursAt(s, pat, hi) {
      LastIndexOfMeaning(s, pat, lo, hi - 1);
    }
  }

  /** The last occurrence in a range is what `LastIndexOf` returns. */
  lemma {:induction false} LastIndexOfIs(s: string, pat: string, lo: nat, hi: int, i: nat)
    requires lo <= i <= hi && OccursAt(s, pat, i)
    requires forall j :: i < j <= hi ==> !OccursAt(s, pat, j)
    ensures LastIndexOf(s, pat, lo, hi) == Some(i)
    decreases hi - i
  {
    if i < hi {
      LastIndexOfIs(s, pat, lo, hi - 1, i);
    }
  }

  /** Where the description of an appendix ends: the last `"] "` that leaves an href. */
  function DescriptionEnd(b: string): Option<nat> {
    LastIndexOf(b, "] ", 1, |b| - 3)
  }

  /** Where the reference of a quote starts: the last `"] "` that leaves an author, a content
      and a reference. */
  function ReferenceStart(b: string): Option<nat> {
    LastIndexOf(b, "] ", 5, |b| - 3)
  }

  /** Where the author of a quote ends, the reference starting at `p2`: the last `"] ["` that
      leaves a content. */
  function AuthorEnd(b: string, p2: int): Option<nat> {
    LastIndexOf(b, "] [", 1, p2 - 4)
  }

  /** The number of leading ASCII digits. */
  function DigitRun(s: string): (n: nat)
    ensures n <= |s| && AllDigits(s[..n])
    ensures n < |s| ==> !IsDigit(s[n])
  {
    if |s| > 0 && IsDigit(s[0]) then
      var n := 1 + DigitRun(s[1..]);
      assert forall i :: 1 <= i < n ==> s[..n][i] == s[1..][..n - 1][i - 1];
      n
    else 0
  }

  // ---- appendix: ^\[(.*)\] (\S+)$

  /** `b` reads `[description] href` with the `"] "` at `p`. */
  predicate AppendixShape(b: string, p: int) {
    |b| > 0 && b[0] == '[' && 1 <= p && p + 2 < |b| && OccursAt(b, "] ", p) && NoSpace(b[p + 2..])
  }

  /** The groups of `^\[(.*)\] (\S+)$` (see `AppendixMatchMeaning`). */
  function AppendixMatch(v: string): Option<(string, string)> {
    var b := RegexBody(v);
    if '\n' in b || |b| == 0 || b[0] != '[' then None
    else
      match DescriptionEnd(b)
      case None => None
      case Some(p) => if NoSpace(b[p + 2..]) then Some((b[1..p], b[p + 2..])) else None
  }

  /** An appendix value has at most one reading: the href holds no space, so it follows the last
      `"] "`. */
  lemma AppendixShapeUnique(b: string, p: int, q: int)
    requires AppendixShape(b, p) && AppendixShape(b, q) && p <= q
    ensures p == q
  {
    if p < q {
      NoSpaceAt(b[p + 2..], q + 1 - (p + 2));
    }
  }

  lemma NoSpaceAt(s: string, i: nat)
    requires NoSpace(s) && i < |s|
    ensures !IsSpace(s[i])
  {
  }

  /** The regex matches exactly the values of the appendix shape with no newline, and its groups
      are the description and the href of that shape. */
  lemma AppendixMatchMeaning(v: string, r: (string, string))
    ensures var b := RegexBody(v);
      AppendixMatch(v) == Some(r) <==>
        '\n' !in b && exists p :: AppendixShape(b, p) && r == (b[1..p], b[p + 2..])
  {
    var b := RegexBody(v);
    if '\n' !in b && |b| > 0 && b[0] == '[' {
      LastIndexOfMeaning(b, "] ", 1, |b| - 3);
      var m := DescriptionEnd(b);
      if m.Some? && NoSpace(b[m.value + 2..]) {
        assert AppendixShape(b, m.value);
        forall p | AppendixShape(b, p) ensures p == m.value {
          AppendixShapeUnique(b, p, m.value);
        }
      } else {
        forall p | AppendixShape(b, p) ensures false {
        }
      }
    }
  }

  /** Writing an appendix as `[description] href` and matching it gives both parts back, for a
      description without newline and an href without whitespace. */
  lemma AppendixRendered(d: string, h: string)
    requires '\n' !in d && |h| >= 1 && NoSpace(h)
    ensures AppendixMatch("[" + d + "] " + h) == Some((d, h))
  {
    var v := "[" + d + "] " + h;
    var p := |d| + 1;
    assert v[|v| - 1] == h[|h| - 1];
    assert RegexBody(v) == v;
    assert v[p..p + 2] == "] " && v[p + 2..] == h && v[1..p] == d;
    assert '\n' !in v by {
      forall i | 0 <= i < |v| ensures v[i] != '\n' {
        if i > p + 1 {
          assert v[i] == h[i - p - 2];
        }
      }
    }
    assert AppendixShape(v, p);
    AppendixMatchMeaning(v, (d, h));
  }

  // ---- picture: ^(\d+px) (\S+)$ and gallery: ^(\d+px) (.+)$

  /** `b` starts with `p` digits and `"px "`. */
  predicate HeightShape(b: string, p: int) {
    1 <= p && p + 3 < |b| && AllDigits(b[..p]) && OccursAt(b, "px ", p)
  }

  /** A height is all the leading digits. */
  lemma HeightShapeUnique(b: string, p: int)
    requires HeightShape(b, p)
    ensures p == DigitRun(b)
  {
    assert b[p..p + 3][0] == b[p] == 'p';
  }

  /** The groups of `^(\d+px) (\S+)$`. */
  function PictureMatch(v: string): Option<(string, string)> {
    var b := RegexBody(v);
    var p := DigitRun(b);
    if HeightShape(b, p) && NoSpace(b[p + 3..]) then Some((b[..p + 2], b[p + 3..])) else None
  }

  /** The groups of `^(\d+px) (.+)$`. */
  function GalleryMatch(v: string): Option<(string, string)> {
    var b := RegexBody(v);
    var p := DigitRun(b);
    if '\n' !in b && HeightShape(b, p) then Some((b[..p + 2], b[p + 3..])) else None
  }

  /** The picture regex matches a height, one space and a source without whitespace. */
  lemma PictureMatchMeaning(v: string, r: (string, string))
    ensures var b := RegexBody(v);
      PictureMatch(v) == Some(r) <==>
        exists p :: HeightShape(b, p) && NoSpace(b[p + 3..]) && r == (b[..p + 2], b[p + 3..])
  {
    var b := RegexBody(v);
    forall p | HeightShape(b, p) ensures p == DigitRun(b) {
      HeightShapeUnique(b, p);
    }
  }

  /** The gallery regex matches a height, one space and a non-empty rest without newline. */
  lemma GalleryMatchMeaning(v: string, r: (string, string))
    ensures var b := RegexBody(v);
      GalleryMatch(v) == Some(r) <==>
        '\n' !in b && exists p :: HeightShape(b, p) && r == (b[..p + 2], b[p + 3..])
  {
    var b := RegexBody(v);
    forall p | HeightShape(b, p) ensures p == DigitRun(b) {
      HeightShapeUnique(b, p);
    }
  }

  /** Writing a picture as `<digits>px src` and matching it gives the height and the source
      back. */
  lemma PictureRendered(ds: string, src: string)
    requires |ds| >= 1 && AllDigits(ds) && |src| >= 1 && NoSpace(src)
    ensures PictureMatch(ds + "px " + src) == Some((ds + "px", src))
  {
    HeightLayout(ds, src);
    PictureMatchAt(ds + "px " + src, |ds|);
  }

  /** A height of digits, `px`, one space and a rest that does not end in a newline: the body is
      its own regex body, and the height and the rest are where `HeightShape` puts them. */
  lemma HeightLayout(ds: string, rest: string)
    requires |ds| >= 1 && AllDigits(ds) && |rest| >= 1 && rest[|rest| - 1] != '\n'
    ensures var v := ds + "px " + rest;
      RegexBody(v) == v && HeightShape(v, |ds|) && v[..|ds| + 2] == ds + "px" && v[|ds| + 3..] == rest
  {
    var v := ds + "px " + rest;
    var p := |ds|;
    assert v[|v| - 1] == rest[|rest| - 1];
    assert v[..p] == ds && v[p..p + 3] == "px " && v[p + 3..] == rest && v[..p + 2] == ds + "px";
  }

  /** A picture body matches; it is its own regex body and reads as a height at `p` and a
      source. */
  lemma PictureMatchAt(v: string, p: int)
    requires RegexBody(v) == v && HeightShape(v, p) && NoSpace(v[p + 3..])
    ensures PictureMatch(v) == Some((v[..p + 2], v[p + 3..]))
  {
    HeightShapeUnique(v, p);
  }

  /** A gallery body matches; it is its own regex body, holds no newline and reads as a height
      at `p`. */
  lemma GalleryMatchAt(v: string, p: int)
    requires RegexBody(v) == v && '\n' !in v && HeightShape(v, p)
    ensures GalleryMatch(v) == Some((v[..p + 2], v[p + 3..]))
  {
    HeightShapeUnique(v, p);
  }

  /** Writing a gallery as `<digits>px` and its items joined by single spaces, and tokenizing it,
      gives the height and every item back, in order, for items that are non-empty and hold no
      space and no newline. */
  lemma GalleryRendered(ds: string, items: seq<string>)
    requires |ds| >= 1 && AllDigits(ds) && |items| >= 1
    requires forall i :: 0 <= i < |items| ==> |items[i]| >= 1 && ' ' !in items[i] && '\n' !in items[i]
    ensures TokenizeGallery(ds + "px " + Join(items, " "))
      == Success(Obj([("height", Str(ds + "px")), ("items", List(StrList(items)))]))
  {
    var rest := Join(items, " ");
    assert GalleryMatch(ds + "px " + rest) == Some((ds + "px", rest)) by {
      JoinShape(items);
      HeightLayout(ds, rest);
      NoNewlineConcat(ds, rest);
      GalleryMatchAt(ds + "px " + rest, |ds|);
    }
    assert Split(rest, " ") == items by {
      SplitJoin(items, ' ');
    }
  }

  /** Digits, `px `, and a rest without newline hold no newline. */
  lemma NoNewlineConcat(ds: string, rest: string)
    requires AllDigits(ds) && '\n' !in rest
    ensures '\n' !in ds + "px " + rest
  {
    var v := ds + "px " + rest;
    var p := |ds|;
    forall i | 0 <= i < |v| ensures v[i] != '\n' {
      if i >= p + 3 {
        assert v[i] == rest[i - p - 3];
      } else if i < p {
        assert v[i] == ds[i];
      }
    }
  }

  /** Items joined by single spaces: non-empty, no newline, ending in the last item's end. */
  lemma {:induction false} JoinShape(items: seq<string>)
    requires |items| >= 1
    requires forall i :: 0 <= i < |items| ==> |items[i]| >= 1 && '\n' !in items[i]
    ensures var j := Join(items, " ");
      |j| >= 1 && '\n' !in j && j[|j| - 1] == items[|items| - 1][|items[|items| - 1]| - 1]
  {
    if |items| > 1 {
      JoinShape(items[1..]);
    }
  }

  // ---- quote: ^\[(.*)\] \[(.+)\] (.+)$

  /** `b` reads `[author] [content] reference` with the `"] ["` at `p1` and the `"] "` at `p2`. */
  predicate QuoteShape(b: string, p1: int, p2: int) {
    |b| > 0 && b[0] == '[' && 1 <= p1 && OccursAt(b, "] [", p1)
    && p1 + 4 <= p2 && p2 + 2 < |b| && OccursAt(b, "] ", p2)
  }

  /** The groups of `^\[(.*)\] \[(.+)\] (.+)$`, the greedy groups taking as much as they can
      (see `QuoteMatchMeaning`). */
  function QuoteMatch(v: string): Option<(string, string, string)> {
    var b := RegexBody(v);
    if '\n' in b || |b| == 0 || b[0] != '[' then None
    else QuoteGroups(b, ReferenceStart(b))
  }

  /** The groups once the reference's `"] "` is found (or not). */
  function QuoteGroups(b: string, m2: Option<nat>): Option<(string, string, string)>
    requires m2.Some? ==> m2.value + 2 < |b|
  {
    if m2.None? then None
    else
      var m1 := AuthorEnd(b, m2.value);
      if m1.None? then None else Some((b[1..m1.value], b[m1.value + 3..m2.value], b[m2.value + 2..]))
  }

  /** The regex matches exactly the quote shapes without newline; of all readings it takes the
      one with the longest author, and then the longest content. */
  lemma QuoteMatchMeaning(v: string)
    ensures var b := RegexBody(v);
      QuoteMatch(v).Some? <==> '\n' !in b && exists p1, p2 :: QuoteShape(b, p1, p2)
    ensures var b := RegexBody(v);
      QuoteMatch(v).Some? ==> exists p1, p2 :: (QuoteShape(b, p1, p2)
        && QuoteMatch(v).value == (b[1..p1], b[p1 + 3..p2], b[p2 + 2..])
        && forall q1, q2 :: QuoteShape(b, q1, q2) ==> q1 < p1 || (q1 == p1 && q2 <= p2))
  {
    var b := RegexBody(v);
    if QuoteMatch(v).Some? {
      QuoteMatchSome(b);
    } else if '\n' !in b && |b| > 0 && b[0] == '[' {
      QuoteMatchNone(b);
    }
  }

  /** A match is a quote shape, and no other reading has a longer author, or the same author and
      a longer content. */
  lemma QuoteMatchSome(b: string)
    requires '\n' !in b && |b| > 0 && b[0] == '['
    requires ReferenceStart(b).Some?
    requires AuthorEnd(b, ReferenceStart(b).value).Some?
    ensures var p2 := ReferenceStart(b).value;
      var p1 := AuthorEnd(b, p2).value;
      && QuoteShape(b, p1, p2)
      && forall q1, q2 :: QuoteShape(b, q1, q2) ==> q1 < p1 || (q1 == p1 && q2 <= p2)
  {
    var p2 := ReferenceStart(b).value;
    LastIndexOfMeaning(b, "] ", 5, |b| - 3);
    LastIndexOfMeaning(b, "] [", 1, p2 - 4);
  }

  /** Without a match there is no quote shape. */
  lemma QuoteMatchNone(b: string)
    requires |b| > 0 && b[0] == '['
    requires ReferenceStart(b).None?
      || AuthorEnd(b, ReferenceStart(b).value).None?
    ensures forall q1, q2 :: !QuoteShape(b, q1, q2)
  {
    LastIndexOfMeaning(b, "] ", 5, |b| - 3);
    if ReferenceStart(b).Some? {
      LastIndexOfMeaning(b, "] [", 1, ReferenceStart(b).value - 4);
    }
  }

  /** Writing a quote as `[author] [content] reference` and matching it gives the three parts
      back, when the content holds no `"] ["` and the reference no `"] "` (the author is free:
      the greedy first group takes every earlier bracket). */
  lemma QuoteRendered(a: string, c: string, r: string)
    requires '\n' !in a && '\n' !in c && '\n' !in r && |c| >= 1 && |r| >= 1
    requires forall j :: 0 <= j < |c| ==> !OccursAt(c, "] [", j)
    requires forall j :: 0 <= j < |r| ==> !OccursAt(r, "] ", j)
    ensures QuoteMatch("[" + a + "] [" + c + "] " + r) == Some((a, c, r))
  {
    var v := "[" + a + "] [" + c + "] " + r;
    var p1 := |a| + 1;
    var p2 := p1 + 3 + |c|;
    QuoteLayout(a, c, r);
    QuoteMatchParts(v, a, c, r, p1, p2);
  }

  /** A quote body with its author, content and reference where `QuoteLayout` puts them
      matches with those three groups. */
  lemma QuoteMatchParts(v: string, a: string, c: string, r: string, p1: nat, p2: nat)
    requires |c| >= 1 && |r| >= 1
    requires p1 == |a| + 1 && p2 == p1 + 3 + |c| && |v| == p2 + 2 + |r|
    requires RegexBody(v) == v && '\n' !in v && v[0] == '['
    requires v[1..p1] == a && v[p1..p1 + 3] == "] [" && v[p1 + 3..p2] == c
    requires v[p2..p2 + 2] == "] " && v[p2 + 2..] == r
    requires forall j :: 0 <= j < |c| ==> !OccursAt(c, "] [", j)
    requires forall j :: 0 <= j < |r| ==> !OccursAt(r, "] ", j)
    ensures QuoteMatch(v) == Some((a, c, r))
  {
    assert ReferenceStart(v) == Some(p2) by {
      NoLaterReferenceBracket(v, p2, r);
      LastIndexOfIs(v, "] ", 5, |v| - 3, p2);
    }
    assert AuthorEnd(v, p2) == Some(p1) by {
      NoLaterContentBracket(v, p1, p2, c);
      LastIndexOfIs(v, "] [", 1, p2 - 4, p1);
    }
    QuoteMatchAt(v, p1, p2);
  }

  /** Where the parts of a written quote lie. */
  lemma QuoteLayout(a: string, c: string, r: string)
    requires '\n' !in a && '\n' !in c && '\n' !in r && |c| >= 1 && |r| >= 1
    ensures var v := "[" + a + "] [" + c + "] " + r;
      var p1 := |a| + 1;
      var p2 := p1 + 3 + |c|;
      && |v| == p2 + 2 + |r| && RegexBody(v) == v && '\n' !in v && v[0] == '['
      && v[1..p1] == a && v[p1..p1 + 3] == "] [" && v[p1 + 3..p2] == c
      && v[p2..p2 + 2] == "] " && v[p2 + 2..] == r
  {
    var v := "[" + a + "] [" + c + "] " + r;
    var p1 := |a| + 1;
    var p2 := p1 + 3 + |c|;
    assert v[|v| - 1] == r[|r| - 1];
    assert v[1..p1] == a && v[p1..p1 + 3] == "] [" && v[p1 + 3..p2] == c;
    assert v[p2..p2 + 2] == "] " && v[p2 + 2..] == r;
    forall i | 0 <= i < |v| ensures v[i] != '\n' {
      if 1 <= i < p1 {
        assert v[i] == a[i - 1];
      } else if p1 + 3 <= i < p2 {
        assert v[i] == c[i - p1 - 3];
      } else if p2 + 2 <= i {
        assert v[i] == r[i - p2 - 2];
      }
    }
  }

  lemma QuoteMatchAt(v: string, p1: nat, p2: nat)
    requires RegexBody(v) == v && '\n' !in v && |v| > 0 && v[0] == '['
    requires ReferenceStart(v) == Some(p2)
    requires AuthorEnd(v, p2) == Some(p1)
    ensures QuoteMatch(v) == Some((v[1..p1], v[p1 + 3..p2], v[p2 + 2..]))
  {
    assert QuoteMatch(v) == QuoteGroups(v, Some(p2));
  }

  /** `pat` occurs in a slice of `v` exactly where it occurs in `v`. */
  lemma OccursIn(v: string, off: nat, sub: string, pat: string, j: nat)
    requires off <= j && j + |pat| <= off + |sub| <= |v| && v[off..off + |sub|] == sub
    ensures OccursAt(v, pat, j) == OccursAt(sub, pat, j - off)
  {
    forall i | j <= i < j + |pat| ensures v[i] == sub[i - off] {
      assert sub[i - off] == v[off..off + |sub|][i - off];
    }
    assert v[j..j + |pat|] == sub[j - off..j - off + |pat|];
  }

  lemma NoLaterReferenceBracket(v: string, p2: nat, r: string)
    requires p2 + 2 + |r| == |v| && v[p2..p2 + 2] == "] " && v[p2 + 2..] == r
    requires forall j :: 0 <= j < |r| ==> !OccursAt(r, "] ", j)
    ensures forall j :: p2 < j <= |v| - 3 ==> !OccursAt(v, "] ", j)
  {
    forall j | p2 < j <= |v| - 3 ensures !OccursAt(v, "] ", j) {
      if j == p2 + 1 {
        assert v[j..j + 2][0] == v[p2..p2 + 2][1];
      } else {
        OccursIn(v, p2 + 2, r, "] ", j);
      }
    }
  }

  lemma NoLaterContentBracket(v: string, p1: nat, p2: nat, c: string)
    requires p2 == p1 + 3 + |c| && p2 + 2 <= |v| && v[p1..p1 + 3] == "] [" && v[p1 + 3..p2] == c
    requires forall j :: 0 <= j < |c| ==> !OccursAt(c, "] [", j)
    ensures forall j :: p1 < j <= p2 - 4 ==> !OccursAt(v, "] [", j)
  {
    forall j | p1 < j <= p2 - 4 ensures !OccursAt(v, "] [", j) {
      if j < p1 + 3 {
        assert v[j..j + 3][0] == v[p1..p1 + 3][j - p1];
      } else {
        OccursIn(v, p1 + 3, c, "] [", j);
      }
    }
  }

  // ---- the four tokenizers

  const HintAppendix := "ensure this value has valid syntax: \"appendix\", like this: \"[description] https://www.robingruenke.com\""
  const HintPicture := "ensure this value has valid syntax: \"picture\", like this: \"250px /gallery/img.png\""
  const HintGallery := "ensure this value has valid syntax: \"gallery\", like this: \"45px /gallery/img_1.png /gallery/img_2.png\""
  const HintQuote := "ensure this value has proper formatting \"quote\", like this \"[description] [content] \"https://wikipedia.com\""

  /** `_tokenize_appendix`: the stripped description and the href. */
  function TokenizeAppendix(v: string): (r: Result<Value, string>)
    ensures r.Failure? <==> AppendixMatch(v).None?
    ensures r.Failure? ==> r.error == HintAppendix
    ensures r.Success? ==> r.value == Obj([("description", Str(Strip(AppendixMatch(v).value.0))),
                                          ("href", Str(AppendixMatch(v).value.1))])
  {
    match AppendixMatch(v)
    case None => Failure(HintAppendix)
    case Some((d, h)) => Success(Obj([("description", Str(Strip(d))), ("href", Str(h))]))
  }

  /** `_tokenize_picture`: the height (digits and `px`) and the source. */
  function TokenizePicture(v: string): (r: Result<Value, string>)
    ensures r.Failure? <==> PictureMatch(v).None?
    ensures r.Failure? ==> r.error == HintPicture
    ensures r.Success? ==> r.value == Obj([("height", Str(PictureMatch(v).value.0)),
                                          ("src", Str(PictureMatch(v).value.1))])
  {
    match PictureMatch(v)
    case None => Failure(HintPicture)
    case Some((h, s)) => Success(Obj([("height", Str(h)), ("src", Str(s))]))
  }

  /** `_tokenize_gallery`: the height and the rest split on single spaces. */
  function TokenizeGallery(v: string): (r: Result<Value, string>)
    ensures r.Failure? <==> GalleryMatch(v).None?
    ensures r.Failure? ==> r.error == HintGallery
    ensures r.Success? ==> r.value == Obj([("height", Str(GalleryMatch(v).value.0)),
                                          ("items", List(StrList(Split(GalleryMatch(v).value.1, " "))))])
  {
    match GalleryMatch(v)
    case None => Failure(HintGallery)
    case Some((h, rest)) => Success(Obj([("height", Str(h)), ("items", List(StrList(Split(rest, " "))))]))
  }

  /** `_tokenize_quote`: author, content and reference. */
  function TokenizeQuote(v: string): (r: Result<Value, string>)
    ensures r.Failure? <==> QuoteMatch(v).None?
    ensures r.Failure? ==> r.error == HintQuote
    ensures r.Success? ==> r.value == Obj([("author", Str(QuoteMatch(v).value.0)),
                                          ("content", Str(QuoteMatch(v).value.1)),
                                          ("reference", Str(QuoteMatch(v).value.2))])
  {
    match QuoteMatch(v)
    case None => Failure(HintQuote)
    case Some((a, c, ref)) => Success(Obj([("author", Str(a)), ("content", Str(c)), ("reference", Str(ref))]))
  }

  function StrList(ss: seq<string>): (vs: seq<Value>)
    ensures |vs| == |ss| && forall i :: 0 <= i < |ss| ==> vs[i] == Str(ss[i])
  {
    seq(|ss|, i requires 0 <= i < |ss| => Str(ss[i]))
  }

  /** The properties with an inline grammar. */
  predicate HasGrammar(key: string) {
    key in ["appendix", "picture", "gallery", "quote"]
  }

  /** One entry of `tokenize_property_values`: the key's tokenizer, or the string unchanged. */
  function TokenizeValue(key: string, v: string): (r: Result<Value, string>)
    ensures !HasGrammar(key) ==> r == Success(Str(v))
    ensures r.Failure? ==> r.error in {HintAppendix, HintPicture, HintGallery, HintQuote}
  {
    if key == "appendix" then TokenizeAppendix(v)
    else if key == "picture" then TokenizePicture(v)
    else if key == "gallery" then TokenizeGallery(v)
    else if key == "quote" then TokenizeQuote(v)
    else Success(Str(v))
  }

  /** Every entry's tokenizer result, in insertion order. */
  function Results(props: Dict<string>): (rs: seq<Result<Value, string>>)
    ensures |rs| == |props|
    ensures forall i :: 0 <= i < |props| ==> rs[i] == TokenizeValue(props[i].0, props[i].1)
  {
    seq(|props|, i requires 0 <= i < |props| => TokenizeValue(props[i].0, props[i].1))
  }

  /** The results collected into a token map under their keys; the first failure aborts. */
  function Collect(keys: seq<string>, rs: seq<Result<Value, string>>): Result<Tokens, string>
    requires |keys| == |rs|
  {
    if |rs| == 0 then Success([])
    else
      match Collect(keys[..|rs| - 1], rs[..|rs| - 1])
      case Failure(e) => Failure(e)
      case Success(init) =>
        match rs[|rs| - 1]
        case Failure(e) => Failure(e)
        case Success(t) => Success(init + [(keys[|rs| - 1], t)])
  }

  /** Collecting succeeds when every result does, and then keeps every key in its place with the
      result's value; otherwise it reports the first failure. */
  lemma {:induction false} CollectMeaning(keys: seq<string>, rs: seq<Result<Value, string>>)
    requires |keys| == |rs|
    ensures var r := Collect(keys, rs);
      && (r.Success? <==> forall i :: 0 <= i < |rs| ==> rs[i].Success?)
      && (r.Success? ==> |r.value| == |rs| && forall i :: 0 <= i < |rs| ==> r.value[i] == (keys[i], rs[i].value))
      && (r.Failure? ==> exists i :: (0 <= i < |rs| && rs[i].Failure? && r.error == rs[i].error
            && forall j :: 0 <= j < i ==> rs[j].Success?))
  {
    if |rs| > 0 {
      var n := |rs| - 1;
      CollectMeaning(keys[..n], rs[..n]);
      assert forall i :: 0 <= i < n ==> rs[..n][i] == rs[i] && keys[..n][i] == keys[i];
      var ri := Collect(keys[..n], rs[..n]);
      if ri.Failure? {
        var i :| 0 <= i < n && rs[..n][i].Failure? && ri.error == rs[..n][i].error
          && forall j :: 0 <= j < i ==> rs[..n][j].Success?;
        assert rs[i].Failure?;
      }
    }
  }

  /** `tokenize_property_values` as a value. */
  function TokenizeValues(props: Dict<string>): Result<Tokens, string> {
    Collect(Keys(props), Results(props))
  }

  /** On success every key stays where it was and holds its tokenized value, so only the four
      grammar keys change; on failure the hint is the one of the first entry whose value does
      not match. */
  lemma TokenizeValuesMeaning(props: Dict<string>)
    ensures var r := TokenizeValues(props);
      && (r.Success? <==> forall i :: 0 <= i < |props| ==> TokenizeValue(props[i].0, props[i].1).Success?)
      && (r.Success? ==> |r.value| == |props| && forall i :: 0 <= i < |props| ==>
            r.value[i] == (props[i].0, TokenizeValue(props[i].0, props[i].1).value))
      && (r.Success? ==> forall i :: 0 <= i < |props| && !HasGrammar(props[i].0) ==> r.value[i] == (props[i].0, Str(props[i].1)))
      && (r.Failure? ==> exists i :: (0 <= i < |props|
            && TokenizeValue(props[i].0, props[i].1).Failure?
            && r.error == TokenizeValue(props[i].0, props[i].1).error
            && forall j :: 0 <= j < i ==> TokenizeValue(props[j].0, props[j].1).Success?))
  {
    CollectMeaning(Keys(props), Results(props));
  }

  /** `tokenize_property_values`: rewrites a copy of the map in place, key by key. */
  method TokenizePropertyValues(props: Dict<string>) returns (r: Result<Tokens, string>)
    requires DistinctKeys(props)
    ensures r == TokenizeValues(props)
  {
    var psc := Lift(props);
    ghost var keys := Keys(props);
    ghost var rs := Results(props);
    var n := 0;
    while n < |props|
      invariant n <= |props| && |psc| == |props|
      invariant forall i :: 0 <= i < |psc| ==> psc[i].0 == props[i].0
      invariant Collect(keys[..n], rs[..n]) == Success(psc[..n])
    {
      var (key, val) := props[n];
      var t := TokenizeValue(key, val);
      assert rs[n] == t && keys[n] == key;
      CollectSnoc(keys, rs, n);
      if t.Failure? {
        PrefixFailure(keys, rs, n + 1);
        return Failure(t.error);
      }
      PutAt(psc, n, t.value, props);
      psc := Put(psc, key, t.value);
      n := n + 1;
    }
    assert keys[..n] == keys && rs[..n] == rs && psc[..n] == psc;
    r := Success(psc);
  }

  /** Writing the key at slot `n` of a map whose keys follow a duplicate-free map replaces that
      slot. */
  lemma PutAt(d: Tokens, n: nat, v: Value, props: Dict<string>)
    requires n < |d| == |props| && DistinctKeys(props)
    requires forall i :: 0 <= i < |d| ==> d[i].0 == props[i].0
    ensures |Put(d, d[n].0, v)| == |d|
    ensures forall i :: 0 <= i < |d| ==> Put(d, d[n].0, v)[i].0 == d[i].0
    ensures Put(d, d[n].0, v)[..n + 1] == d[..n] + [(d[n].0, v)]
  {
    IndexOfKeyIs(d, d[n].0, n);
    var e := d[n := (d[n].0, v)];
    assert Put(d, d[n].0, v) == e;
    assert e[..n + 1] == d[..n] + [(d[n].0, v)];
  }

  /** Collecting one more result. */
  lemma CollectSnoc(keys: seq<string>, rs: seq<Result<Value, string>>, n: nat)
    requires |keys| == |rs| && n < |rs|
    ensures Collect(keys[..n + 1], rs[..n + 1]) ==
      match Collect(keys[..n], rs[..n])
      case Failure(e) => Failure(e)
      case Success(init) =>
        match rs[n]
        case Failure(e) => Failure(e)
        case Success(t) => Success(init + [(keys[n], t)])
  {
    assert keys[..n + 1][..n] == keys[..n] && rs[..n + 1][..n] == rs[..n];
  }

  /** A failure on a prefix is the failure of the whole map. */
  lemma {:induction false} PrefixFailure(keys: seq<string>, rs: seq<Result<Value, string>>, n: nat)
    requires |keys| == |rs| && n <= |rs| && Collect(keys[..n], rs[..n]).Failure?
    ensures Collect(keys, rs) == Collect(keys[..n], rs[..n])
    decreases |rs| - n
  {
    if n < |rs| {
      assert keys[..n + 1][..n] == keys[..n] && rs[..n + 1][..n] == rs[..n];
      PrefixFailure(keys, rs, n + 1);
    } else {
      assert keys[..n] == keys && rs[..n] == rs;
    }
  }
}
