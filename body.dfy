/** The component tokenizers: the property step and the inline-value step they share, the
    chapter's paragraph state machine, the introduction's content and the body-less meta. */
module Body {
  import opened Wrappers
  import opened Strings
  import opened Dicts
  import opened Values
  import opened Properties
  import opened InlineValues
  import opened ErrorMessages

  // ---------------------------------------------------------------------------------------
  // Chapter paragraphs
  // ---------------------------------------------------------------------------------------

  /** A paragraph as the chapter tokenizer builds it: a text paragraph collects its stripped
      lines until `str_paragraphs` joins them; a code paragraph holds its lines verbatim. */
  datatype Para = TextLines(lines: seq<string>) | TextPara(content: string) | CodePara(content: string)

  /** The loop's variables: the paragraphs so far, `previously_blank`, `inside_code_block`. */
  datatype ChapterState = ChapterState(paras: seq<Para>, previouslyBlank: bool, insideCode: bool)

  const ChapterStart := ChapterState([], false, false)

  /** `match(r"^\|code", line)`. */
  predicate OpensCode(line: string) {
    StartsWith(line, "|code")
  }

  /** `match(r"^code\|", line)`. */
  predicate ClosesCode(line: string) {
    StartsWith(line, "code|")
  }

  /** Inside a code block the last paragraph is the open code paragraph. */
  predicate Consistent(st: ChapterState) {
    st.insideCode ==> |st.paras| > 0 && st.paras[|st.paras| - 1].CodePara?
  }

  function LastPara(ps: seq<Para>): Para
    requires |ps| > 0
  {
    ps[|ps| - 1]
  }

  /** `paragraphs[-1]["content"] += line` on the open code paragraph. */
  function AppendCode(ps: seq<Para>, line: string): (r: seq<Para>)
    requires |ps| > 0 && LastPara(ps).CodePara?
    ensures |r| == |ps| && r[..|ps| - 1] == ps[..|ps| - 1]
    ensures LastPara(r) == CodePara(LastPara(ps).content + line)
  {
    ps[..|ps| - 1] + [CodePara(LastPara(ps).content + line)]
  }

  /** `paragraphs[-1]["content"].append(s)` on a text paragraph still collecting lines. */
  function AppendText(ps: seq<Para>, s: string): (r: seq<Para>)
    requires |ps| > 0 && LastPara(ps).TextLines?
    ensures |r| == |ps| && r[..|ps| - 1] == ps[..|ps| - 1]
    ensures LastPara(r) == TextLines(LastPara(ps).lines + [s])
  {
    ps[..|ps| - 1] + [TextLines(LastPara(ps).lines + [s])]
  }

  /** One round of the loop as written; `None` where `paragraphs[-1]["content"].append` fails:
      a text line with no blank line before it when there is no paragraph yet (IndexError) or
      the last one is a code paragraph, whose content is a string (AttributeError). */
  function ChapterStepAsWritten(st: ChapterState, line: string): Option<ChapterState>
    requires Consistent(st)
  {
    var ps := st.paras;
    if Blank(line) && !st.insideCode then Some(st.(previouslyBlank := true))
    else if OpensCode(line) then Some(ChapterState(ps + [CodePara("")], st.previouslyBlank, true))
    else if ClosesCode(line) then Some(st.(insideCode := false))
    else if st.insideCode then Some(st.(paras := AppendCode(ps, line)))
    else if st.previouslyBlank then Some(ChapterState(ps + [TextLines([Strip(line)])], false, false))
    else if |ps| > 0 && LastPara(ps).TextLines? then Some(st.(paras := AppendText(ps, Strip(line))))
    else None
  }

  /** One round of the loop, corrected: a text line with no text paragraph to continue starts
      a new one, as one after a blank line does. */
  function ChapterStep(st: ChapterState, line: string): (r: ChapterState)
    requires Consistent(st)
    ensures Consistent(r)
  {
    var ps := st.paras;
    if Blank(line) && !st.insideCode then st.(previouslyBlank := true)
    else if OpensCode(line) then ChapterState(ps + [CodePara("")], st.previouslyBlank, true)
    else if ClosesCode(line) then st.(insideCode := false)
    else if st.insideCode then st.(paras := AppendCode(ps, line))
    else if st.previouslyBlank then ChapterState(ps + [TextLines([Strip(line)])], false, false)
    else if |ps| > 0 && LastPara(ps).TextLines? then st.(paras := AppendText(ps, Strip(line)))
    else ChapterState(ps + [TextLines([Strip(line)])], false, false)
  }

  /** The loop over `lines` from state `st`, corrected. */
  function ChapterRun(st: ChapterState, lines: seq<string>): (r: ChapterState)
    requires Consistent(st)
    ensures Consistent(r)
    decreases |lines|
  {
    if |lines| == 0 then st else ChapterRun(ChapterStep(st, lines[0]), lines[1..])
  }

  /** The loop over `lines` from state `st`, as written: `None` once a step fails. */
  function ChapterRunAsWritten(st: ChapterState, lines: seq<string>): Option<ChapterState>
    requires Consistent(st)
    decreases |lines|
  {
    if |lines| == 0 then Some(st)
    else
      match ChapterStepAsWritten(st, lines[0])
      case None => None
      case Some(next) => if Consistent(next) then ChapterRunAsWritten(next, lines[1..]) else None
  }

  /** Where the loop as written does not fail, the corrected loop computes the same state. */
  lemma {:induction false} ChapterRunAgrees(st: ChapterState, lines: seq<string>)
    requires Consistent(st)
    ensures ChapterRunAsWritten(st, lines).Some? ==> ChapterRunAsWritten(st, lines).value == ChapterRun(st, lines)
    decreases |lines|
  {
    if |lines| > 0 {
      var a := ChapterStepAsWritten(st, lines[0]);
      if a.Some? {
        assert a.value == ChapterStep(st, lines[0]);
        ChapterRunAgrees(a.value, lines[1..]);
      }
    }
  }

  /** A text line right after a closed code block, with no blank line since the text before,
      makes the loop as written fail; the corrected loop starts a new text paragraph. */
  lemma ChapterTextAfterCode()
    ensures ChapterRunAsWritten(ChapterStart, ["\n", "a\n", "|code\n", "code|\n", "b\n"]).None?
    ensures ChapterRun(ChapterStart, ["\n", "a\n", "|code\n", "code|\n", "b\n"]).paras
      == [TextLines(["a"]), CodePara(""), TextLines(["b"])]
  {
    var lines := ["\n", "a\n", "|code\n", "code|\n", "b\n"];
    assert Blank(lines[0]);
    NotBlankAt(lines[1], 0);
    NotBlankAt(lines[2], 0);
    NotBlankAt(lines[3], 0);
    NotBlankAt(lines[4], 0);
    assert !OpensCode(lines[1]) && !ClosesCode(lines[1]) && !OpensCode(lines[4]) && !ClosesCode(lines[4]);
    assert lines[2][..5] == "|code" && lines[3][..5] == "code|";
    assert OpensCode(lines[2]) && !ClosesCode(lines[2]);
    assert !OpensCode(lines[3]) && ClosesCode(lines[3]);
    StripLine("a");
    StripLine("b");
    assert lines[1] == "a" + "\n" && lines[4] == "b" + "\n";
    var s1 := ChapterState([], true, false);
    var s2 := ChapterState([TextLines(["a"])], false, false);
    var s3 := ChapterState([TextLines(["a"]), CodePara("")], false, true);
    var s4 := ChapterState([TextLines(["a"]), CodePara("")], false, false);
    assert ChapterStepAsWritten(ChapterStart, lines[0]) == Some(s1);
    assert !Blank(lines[1]);
    assert Strip(lines[1]) == "a";
    assert s1.paras + [TextLines([Strip(lines[1])])] == s2.paras;
    assert ChapterStepAsWritten(s1, lines[1]) == Some(s2);
    assert !Blank(lines[2]);
    assert s2.paras + [CodePara("")] == s3.paras;
    assert ChapterStepAsWritten(s2, lines[2]) == Some(s3);
    assert ChapterStepAsWritten(s3, lines[3]) == Some(s4);
    assert ChapterStepAsWritten(s4, lines[4]) == None;
    assert lines[1..][1..][1..][1..] == [lines[4]];
    assert ChapterRun(s4, [lines[4]]) == ChapterStep(s4, lines[4]);
  }

  /** A one-word line with its newline strips to the word. */
  lemma StripLine(w: string)
    requires |w| == 1 && !IsSpace(w[0])
    ensures Strip(w + "\n") == w
  {
    var s := w + "\n";
    assert RStrip(s) == RStrip(s[..1]) by { assert s[..|s| - 1] == s[..1]; }
    assert s[..1] == w;
  }

  /** `str_paragraphs` on one paragraph: a text paragraph's lines joined with single spaces. */
  function StrPara(p: Para): Para {
    match p
    case TextLines(ls) => TextPara(Join(ls, " "))
    case _ => p
  }

  function StrParas(ps: seq<Para>): (r: seq<Para>)
    ensures |r| == |ps| && forall i :: 0 <= i < |ps| ==> r[i] == StrPara(ps[i])
  {
    seq(|ps|, i requires 0 <= i < |ps| => StrPara(ps[i]))
  }

  /** `str_paragraphs`: rewrites every text paragraph in place, leaves code paragraphs alone. */
  method StrParagraphs(ps: array<Para>)
    modifies ps
    ensures ps[..] == StrParas(old(ps[..]))
  {
    for i := 0 to ps.Length
      invariant forall j :: 0 <= j < i ==> ps[j] == StrPara(old(ps[j]))
      invariant forall j :: i <= j < ps.Length ==> ps[j] == old(ps[j])
    {
      ps[i] := StrPara(ps[i]);
    }
  }

  /** The paragraphs of a chapter body: the corrected loop, then `str_paragraphs`. */
  function ChapterParagraphs(tail: seq<string>): seq<Para> {
    StrParas(ChapterRun(ChapterStart, tail).paras)
  }

  /** The loop of `tokenize_component_chapter` (corrected), then `str_paragraphs` on the list. */
  method TokenizeChapterBody(tail: seq<string>) returns (paragraphs: seq<Para>)
    ensures paragraphs == ChapterParagraphs(tail)
  {
    var paras: seq<Para> := [];
    var previouslyBlank := false;
    var insideCode := false;
    var n := 0;
    while n < |tail|
      invariant n <= |tail|
      invariant Consistent(ChapterState(paras, previouslyBlank, insideCode))
      invariant ChapterRun(ChapterStart, tail) == ChapterRun(ChapterState(paras, previouslyBlank, insideCode), tail[n..])
    {
      ghost var st := ChapterState(paras, previouslyBlank, insideCode);
      paras, previouslyBlank, insideCode := ChapterLine(paras, previouslyBlank, insideCode, tail[n]);
      RunFrom(st, tail, n);
      n := n + 1;
    }
    var ps := new Para[|paras|](i requires 0 <= i < |paras| => paras[i]);
    assert ps[..] == paras;
    StrParagraphs(ps);
    paragraphs := ps[..];
  }

  /** The body of the paragraph loop for one line, on the loop's three locals. */
  method ChapterLine(paras: seq<Para>, previouslyBlank: bool, insideCode: bool, line: string)
    returns (paras': seq<Para>, previouslyBlank': bool, insideCode': bool)
    requires Consistent(ChapterState(paras, previouslyBlank, insideCode))
    ensures ChapterState(paras', previouslyBlank', insideCode')
      == ChapterStep(ChapterState(paras, previouslyBlank, insideCode), line)
  {
    paras', previouslyBlank', insideCode' := paras, previouslyBlank, insideCode;
    if Blank(line) && !insideCode {
      previouslyBlank' := true;
    } else if OpensCode(line) {
      paras' := paras + [CodePara("")];
      insideCode' := true;
    } else if ClosesCode(line) {
      insideCode' := false;
    } else if insideCode {
      paras' := AppendCode(paras, line);
    } else if previouslyBlank {
      paras' := paras + [TextLines([Strip(line)])];
      previouslyBlank' := false;
    } else if |paras| > 0 && LastPara(paras).TextLines? {
      paras' := AppendText(paras, Strip(line));
    } else {
      paras' := paras + [TextLines([Strip(line)])];
    }
  }

  /** Running from line `n` is one step on that line, then running from the next. */
  lemma RunFrom(st: ChapterState, lines: seq<string>, n: nat)
    requires Consistent(st) && n < |lines|
    ensures ChapterRun(st, lines[n..]) == ChapterRun(ChapterStep(st, lines[n]), lines[n + 1..])
  {
    assert lines[n..][1..] == lines[n + 1..];
  }

  // ---------------------------------------------------------------------------------------
  // What the paragraph loop computes
  // ---------------------------------------------------------------------------------------

  /** How many paragraphs are code paragraphs. */
  function CodeCount(ps: seq<Para>): nat {
    if |ps| == 0 then 0 else CodeCount(ps[..|ps| - 1]) + (if LastPara(ps).CodePara? then 1 else 0)
  }

  /** How many lines open a code block. */
  function OpenCount(lines: seq<string>): nat {
    if |lines| == 0 then 0 else (if OpensCode(lines[0]) then 1 else 0) + OpenCount(lines[1..])
  }

  lemma CodeCountSnoc(ps: seq<Para>, p: Para)
    ensures CodeCount(ps + [p]) == CodeCount(ps) + (if p.CodePara? then 1 else 0)
  {
    assert (ps + [p])[..|ps|] == ps;
  }

  /** One step adds a code paragraph exactly for a `|code` line. */
  lemma ChapterStepCodeCount(st: ChapterState, line: string)
    requires Consistent(st)
    ensures CodeCount(ChapterStep(st, line).paras) == CodeCount(st.paras) + (if OpensCode(line) then 1 else 0)
  {
    var ps := st.paras;
    if Blank(line) && !st.insideCode {
      SliceIndex(line, 5, 0);
      NotBlankAt(line, 0);
    } else if OpensCode(line) {
      CodeCountSnoc(ps, CodePara(""));
    } else if ClosesCode(line) {
    } else if st.insideCode {
      var r := AppendCode(ps, line);
      assert r == ps[..|ps| - 1] + [LastPara(r)];
      CodeCountSnoc(ps[..|ps| - 1], LastPara(r));
      assert ps == ps[..|ps| - 1] + [LastPara(ps)];
      CodeCountSnoc(ps[..|ps| - 1], LastPara(ps));
    } else if st.previouslyBlank {
      CodeCountSnoc(ps, TextLines([Strip(line)]));
    } else if |ps| > 0 && LastPara(ps).TextLines? {
      var r := AppendText(ps, Strip(line));
      assert r == ps[..|ps| - 1] + [LastPara(r)];
      CodeCountSnoc(ps[..|ps| - 1], LastPara(r));
      assert ps == ps[..|ps| - 1] + [LastPara(ps)];
      CodeCountSnoc(ps[..|ps| - 1], LastPara(ps));
    } else {
      CodeCountSnoc(ps, TextLines([Strip(line)]));
    }
  }

  /** Every `|code` line, and nothing else, opens a code paragraph: a chapter has as many code
      paragraphs as its body has `|code` lines. */
  lemma {:induction false} ChapterCodeCount(st: ChapterState, lines: seq<string>)
    requires Consistent(st)
    ensures CodeCount(ChapterRun(st, lines).paras) == CodeCount(st.paras) + OpenCount(lines)
    decreases |lines|
  {
    if |lines| > 0 {
      ChapterStepCodeCount(st, lines[0]);
      ChapterCodeCount(ChapterStep(st, lines[0]), lines[1..]);
    }
  }

  /** A block of a chapter body as an author writes it: a text paragraph (its lines, already
      stripped) or a code block (its lines, verbatim). */
  datatype Block = TextBlock(lines: seq<string>) | CodeBlock(code: seq<string>)

  /** A text line the loop takes as text and keeps as is once its newline is stripped. */
  predicate CleanText(l: string) {
    |l| > 0 && Strip(l) == l && !OpensCode(l + "\n") && !ClosesCode(l + "\n")
  }

  /** A code line the loop keeps verbatim: anything but a fence. */
  predicate CleanCode(l: string) {
    !OpensCode(l) && !ClosesCode(l)
  }

  predicate CleanBlock(b: Block) {
    match b
    case TextBlock(ls) => |ls| > 0 && forall i :: 0 <= i < |ls| ==> CleanText(ls[i])
    case CodeBlock(cs) => forall i :: 0 <= i < |cs| ==> CleanCode(cs[i])
  }

  function NewlineEach(ls: seq<string>): (r: seq<string>)
    ensures |r| == |ls| && forall i :: 0 <= i < |ls| ==> r[i] == ls[i] + "\n"
  {
    seq(|ls|, i requires 0 <= i < |ls| => ls[i] + "\n")
  }

  /** The lines of one block: a blank line, then the text lines; or the fenced code. */
  function RenderBlock(b: Block): seq<string> {
    match b
    case TextBlock(ls) => ["\n"] + NewlineEach(ls)
    case CodeBlock(cs) => ["|code\n"] + cs + ["code|\n"]
  }

  function Render(bs: seq<Block>): seq<string> {
    if |bs| == 0 then [] else RenderBlock(bs[0]) + Render(bs[1..])
  }

  /** The paragraph a block is read back as, before `str_paragraphs`. */
  function ExpectedPara(b: Block): Para {
    match b
    case TextBlock(ls) => TextLines(ls)
    case CodeBlock(cs) => CodePara(Concat(cs))
  }

  function ExpectedParas(bs: seq<Block>): (ps: seq<Para>)
    ensures |ps| == |bs| && forall i :: 0 <= i < |bs| ==> ps[i] == ExpectedPara(bs[i])
  {
    if |bs| == 0 then [] else [ExpectedPara(bs[0])] + ExpectedParas(bs[1..])
  }

  /** Running the loop over two pieces is running it over the first, then the second. */
  lemma {:induction false} ChapterRunAppend(st: ChapterState, a: seq<string>, b: seq<string>)
    requires Consistent(st)
    ensures ChapterRun(st, a + b) == ChapterRun(ChapterRun(st, a), b)
    decreases |a|
  {
    if |a| > 0 {
      assert (a + b)[0] == a[0] && (a + b)[1..] == a[1..] + b;
      var next := ChapterStep(st, a[0]);
      ChapterRunAppend(next, a[1..], b);
      assert ChapterRun(st, a + b) == ChapterRun(next, a[1..] + b);
      assert ChapterRun(st, a) == ChapterRun(next, a[1..]);
    } else {
      assert a + b == b;
    }
  }

  /** A string that stripping leaves alone starts and ends with a character that is not
      whitespace. */
  lemma CleanEnds(l: string)
    requires |l| > 0 && Strip(l) == l
    ensures RStrip(l) == l && !IsSpace(l[0]) && !IsSpace(l[|l| - 1])
  {
    RStripMeaning(l);
    LStripMeaning(RStrip(l));
  }

  /** A clean text line with its newline is what the loop sees as a plain text line. */
  lemma CleanTextLine(l: string)
    requires CleanText(l)
    ensures !Blank(l + "\n") && Strip(l + "\n") == l && RStrip(l + "\n") == l
  {
    CleanEnds(l);
    var s := l + "\n";
    assert s[..|s| - 1] == l;
    assert RStrip(s) == RStrip(l);
    NotBlankAt(s, 0);
  }

  /** The lines of a text paragraph after its first extend the open text paragraph. */
  lemma {:induction false} TextLinesRun(st: ChapterState, ls: seq<string>)
    requires !st.insideCode && !st.previouslyBlank && |st.paras| > 0 && LastPara(st.paras).TextLines?
    requires forall i :: 0 <= i < |ls| ==> CleanText(ls[i])
    ensures ChapterRun(st, NewlineEach(ls))
      == st.(paras := st.paras[..|st.paras| - 1] + [TextLines(LastPara(st.paras).lines + ls)])
    decreases |ls|
  {
    var ps := st.paras;
    if |ls| == 0 {
      assert LastPara(ps).lines + ls == LastPara(ps).lines;
      assert ps == ps[..|ps| - 1] + [LastPara(ps)];
    } else {
      var next := st.(paras := AppendText(ps, ls[0]));
      TextLineStep(st, ls);
      TextLinesRun(next, ls[1..]);
      AppendTextThen(ps, ls);
    }
  }

  /** Appending the first line, then the others, to the last text paragraph appends them all. */
  lemma AppendTextThen(ps: seq<Para>, ls: seq<string>)
    requires |ps| > 0 && LastPara(ps).TextLines? && |ls| > 0
    ensures var q := AppendText(ps, ls[0]);
      q[..|q| - 1] + [TextLines(LastPara(q).lines + ls[1..])]
        == ps[..|ps| - 1] + [TextLines(LastPara(ps).lines + ls)]
  {
    assert LastPara(ps).lines + [ls[0]] + ls[1..] == LastPara(ps).lines + ls;
  }

  /** The first of some clean text lines extends the open text paragraph. */
  lemma TextLineStep(st: ChapterState, ls: seq<string>)
    requires !st.insideCode && !st.previouslyBlank && |st.paras| > 0 && LastPara(st.paras).TextLines?
    requires |ls| > 0 && CleanText(ls[0])
    ensures ChapterRun(st, NewlineEach(ls)) == ChapterRun(st.(paras := AppendText(st.paras, ls[0])), NewlineEach(ls[1..]))
  {
    CleanTextLine(ls[0]);
    assert NewlineEach(ls)[1..] == NewlineEach(ls[1..]);
  }

  /** The lines of a code block extend the open code paragraph verbatim. */
  lemma {:induction false} CodeLinesRun(st: ChapterState, cs: seq<string>)
    requires st.insideCode && |st.paras| > 0 && LastPara(st.paras).CodePara?
    requires forall i :: 0 <= i < |cs| ==> CleanCode(cs[i])
    ensures ChapterRun(st, cs)
      == st.(paras := st.paras[..|st.paras| - 1] + [CodePara(LastPara(st.paras).content + Concat(cs))])
    decreases |cs|
  {
    var ps := st.paras;
    if |cs| == 0 {
      assert LastPara(ps).content + Concat(cs) == LastPara(ps).content;
      assert ps == ps[..|ps| - 1] + [LastPara(ps)];
    } else {
      var next := st.(paras := AppendCode(ps, cs[0]));
      assert ChapterStep(st, cs[0]) == next;
      CodeLinesRun(next, cs[1..]);
      assert next.paras[..|ps| - 1] == ps[..|ps| - 1];
      assert LastPara(ps).content + cs[0] + Concat(cs[1..]) == LastPara(ps).content + Concat(cs);
    }
  }

  /** A text block, read from any state outside a code block, appends its text paragraph. */
  lemma TextBlockRun(st: ChapterState, ls: seq<string>)
    requires !st.insideCode && CleanBlock(TextBlock(ls))
    ensures var r := ChapterRun(st, RenderBlock(TextBlock(ls)));
      !r.insideCode && r.paras == st.paras + [TextLines(ls)]
  {
    NotBlankAt("\n", 0);
    var s1 := st.(previouslyBlank := true);
    assert ChapterStep(st, "\n") == s1;
    CleanTextLine(ls[0]);
    var s2 := ChapterState(st.paras + [TextLines([ls[0]])], false, false);
    assert ChapterStep(s1, ls[0] + "\n") == s2;
    var rest := NewlineEach(ls[1..]);
    assert RenderBlock(TextBlock(ls)) == ["\n"] + ([ls[0] + "\n"] + rest);
    ChapterRunAppend(st, ["\n"], [ls[0] + "\n"] + rest);
    ChapterRunAppend(s1, [ls[0] + "\n"], rest);
    RunOne(st, "\n");
    RunOne(s1, ls[0] + "\n");
    TextLinesRun(s2, ls[1..]);
    assert s2.paras[..|s2.paras| - 1] == st.paras;
    assert [ls[0]] + ls[1..] == ls;
  }

  /** A code block, read from any state outside a code block, appends its code paragraph. */
  lemma CodeBlockRun(st: ChapterState, cs: seq<string>)
    requires !st.insideCode && CleanBlock(CodeBlock(cs))
    ensures var r := ChapterRun(st, RenderBlock(CodeBlock(cs)));
      !r.insideCode && r.paras == st.paras + [CodePara(Concat(cs))]
  {
    var s1 := ChapterState(st.paras + [CodePara("")], st.previouslyBlank, true);
    OpenCodeStep(st);
    CodeLinesRun(s1, cs);
    var s2 := ChapterRun(s1, cs);
    assert s2.paras == st.paras + [CodePara(Concat(cs))] by {
      assert s1.paras[..|s1.paras| - 1] == st.paras;
      assert "" + Concat(cs) == Concat(cs);
    }
    CloseCodeStep(s2);
    ChapterRunAppend(st, ["|code\n"], cs + ["code|\n"]);
    ChapterRunAppend(s1, cs, ["code|\n"]);
    RunOne(st, "|code\n");
    RunOne(s2, "code|\n");
    assert RenderBlock(CodeBlock(cs)) == ["|code\n"] + (cs + ["code|\n"]);
  }

  /** The opening line of a code block starts an empty code paragraph. */
  lemma OpenCodeStep(st: ChapterState)
    requires Consistent(st)
    ensures ChapterStep(st, "|code\n") == ChapterState(st.paras + [CodePara("")], st.previouslyBlank, true)
  {
    assert "|code\n"[..5] == "|code";
    NotBlankAt("|code\n", 0);
  }

  /** The closing line of a code block ends it. */
  lemma CloseCodeStep(st: ChapterState)
    requires Consistent(st) && st.insideCode
    ensures ChapterStep(st, "code|\n") == st.(insideCode := false)
  {
    assert "code|\n"[..5] == "code|";
    NotBlankAt("code|\n", 0);
  }

  lemma RunOne(st: ChapterState, line: string)
    requires Consistent(st)
    ensures ChapterRun(st, [line]) == ChapterStep(st, line)
  {
    assert [line][1..] == [];
  }

  /** One block, read from any state outside a code block, appends its paragraph. */
  lemma BlockRun(st: ChapterState, b: Block)
    requires !st.insideCode && CleanBlock(b)
    ensures var r := ChapterRun(st, RenderBlock(b));
      !r.insideCode && r.paras == st.paras + [ExpectedPara(b)]
  {
    match b
    case TextBlock(ls) => TextBlockRun(st, ls);
    case CodeBlock(cs) => CodeBlockRun(st, cs);
  }

  /** Every block is clean. */
  predicate AllClean(bs: seq<Block>) {
    |bs| == 0 || (CleanBlock(bs[0]) && AllClean(bs[1..]))
  }

  /** Reading a rendered body back gives one paragraph per block, in order: text paragraphs
      with their lines, code paragraphs with their lines concatenated verbatim (blank lines
      included); no fence line ends up in a paragraph. */
  lemma {:induction false} ChapterRendered(st: ChapterState, bs: seq<Block>)
    requires !st.insideCode
    requires AllClean(bs)
    ensures var r := ChapterRun(st, Render(bs));
      !r.insideCode && r.paras == st.paras + ExpectedParas(bs)
    decreases |bs|
  {
    if |bs| > 0 {
      var mid := ChapterRun(st, RenderBlock(bs[0]));
      assert !mid.insideCode && mid.paras == st.paras + [ExpectedPara(bs[0])] by {
        BlockRun(st, bs[0]);
      }
      var rest := ChapterRun(mid, Render(bs[1..]));
      assert !rest.insideCode && rest.paras == mid.paras + ExpectedParas(bs[1..]) by {
        ChapterRendered(mid, bs[1..]);
      }
      RunRenderCons(st, bs);
      var x, e := ExpectedPara(bs[0]), ExpectedParas(bs[1..]);
      assert ExpectedParas(bs) == [x] + e;
      ParasAssoc(st.paras, [x], e);
    } else {
      assert st.paras + ExpectedParas(bs) == st.paras;
    }
  }

  lemma ParasAssoc(a: seq<Para>, b: seq<Para>, c: seq<Para>)
    ensures (a + b) + c == a + (b + c)
  {
  }

  /** Reading the first block, then the rest, is reading the whole body. */
  lemma RunRenderCons(st: ChapterState, bs: seq<Block>)
    requires Consistent(st) && |bs| > 0
    ensures ChapterRun(st, Render(bs)) == ChapterRun(ChapterRun(st, RenderBlock(bs[0])), Render(bs[1..]))
  {
    var a, b := RenderBlock(bs[0]), Render(bs[1..]);
    assert Render(bs) == a + b;
    ChapterRunAppend(st, a, b);
  }

  /** The chapter tokenizer's paragraphs for a rendered body: text lines joined with single
      spaces, code verbatim. */
  lemma ChapterParagraphsRendered(bs: seq<Block>)
    requires AllClean(bs)
    ensures ChapterParagraphs(Render(bs)) == StrParas(ExpectedParas(bs))
  {
    var r := ChapterRun(ChapterStart, Render(bs));
    assert r.paras == ExpectedParas(bs) by {
      ChapterRendered(ChapterStart, bs);
      assert [] + ExpectedParas(bs) == ExpectedParas(bs);
    }
  }

  // ---------------------------------------------------------------------------------------
  // Introduction content
  // ---------------------------------------------------------------------------------------

  /** `[line.rstrip() for line in tail if not blank(line)]`. */
  function ContentLines(tail: seq<string>): (r: seq<string>)
    ensures |r| <= |tail|
  {
    if |tail| == 0 then []
    else if Blank(tail[0]) then ContentLines(tail[1..])
    else [RStrip(tail[0])] + ContentLines(tail[1..])
  }

  /** The introduction's content: the non-blank lines, right-stripped, joined with single
      spaces, and stripped. */
  function IntroContent(tail: seq<string>): string {
    Strip(Join(ContentLines(tail), " "))
  }

  /** A tail of blank lines only (or none) gives an empty content. */
  lemma {:induction false} IntroAllBlank(tail: seq<string>)
    requires forall i :: 0 <= i < |tail| ==> Blank(tail[i])
    ensures ContentLines(tail) == [] && IntroContent(tail) == ""
  {
    if |tail| > 0 {
      IntroAllBlank(tail[1..]);
    }
  }

  /** Blank lines anywhere in the tail do not count. */
  lemma {:induction false} ContentLinesAppend(a: seq<string>, b: seq<string>)
    ensures ContentLines(a + b) == ContentLines(a) + ContentLines(b)
    decreases |a|
  {
    if |a| > 0 {
      assert (a + b)[0] == a[0] && (a + b)[1..] == a[1..] + b;
      ContentLinesAppend(a[1..], b);
      if !Blank(a[0]) {
        assert ContentLines(a + b) == [RStrip(a[0])] + ContentLines(a[1..] + b);
      }
    } else {
      assert a + b == b;
    }
  }

  /** Stripping changes nothing when neither end is whitespace. */
  lemma StripFixed(s: string)
    requires |s| > 0 && !IsSpace(s[0]) && !IsSpace(s[|s| - 1])
    ensures Strip(s) == s
  {
  }

  lemma {:induction false} JoinEnds(ls: seq<string>, sep: string)
    requires |ls| > 0 && forall i :: 0 <= i < |ls| ==> |ls[i]| > 0
    ensures var j := Join(ls, sep); |j| > 0 && j[0] == ls[0][0] && j[|j| - 1] == ls[|ls| - 1][|ls[|ls| - 1]| - 1]
  {
    if |ls| > 1 {
      JoinEnds(ls[1..], sep);
    }
  }

  /** An introduction written as a blank line and lines with no whitespace at either end has
      those lines, joined with single spaces, as its content. */
  lemma IntroRendered(ls: seq<string>)
    requires forall i :: 0 <= i < |ls| ==> CleanText(ls[i])
    ensures IntroContent(["\n"] + NewlineEach(ls)) == Join(ls, " ")
  {
    RenderedContentLines(ls);
    assert Blank("\n");
    assert ContentLines(["\n"] + NewlineEach(ls)) == ContentLines(NewlineEach(ls)) by {
      assert (["\n"] + NewlineEach(ls))[1..] == NewlineEach(ls);
    }
    if |ls| > 0 {
      JoinEnds(ls, " ");
      var first, last := ls[0], ls[|ls| - 1];
      CleanEnds(first);
      CleanEnds(last);
      StripFixed(Join(ls, " "));
    }
  }

  lemma {:induction false} RenderedContentLines(ls: seq<string>)
    requires forall i :: 0 <= i < |ls| ==> CleanText(ls[i])
    ensures ContentLines(NewlineEach(ls)) == ls
  {
    if |ls| > 0 {
      CleanTextLine(ls[0]);
      assert NewlineEach(ls)[1..] == NewlineEach(ls[1..]);
      RenderedContentLines(ls[1..]);
    }
  }

  // ---------------------------------------------------------------------------------------
  // The component tokenizers
  // ---------------------------------------------------------------------------------------

  /** The component named in error messages of the property step. */
  function ErrComp(chunk: seq<string>): string
    requires |chunk| > 0
  {
    "Error in " + RStrip(chunk[0]) + " properties"
  }

  /** The `tokenize_properties` decorator: the property map and the tail, or the error of an
      invalid tail with the offending line as target. */
  function PropertyStep(hasContentBody: bool, chunk: seq<string>): (r: Result<(Dict<string>, seq<string>), string>)
    requires |chunk| > 0
  {
    var (props, tail) := ComponentProperties(chunk);
    if |tail| > 0 && InvalidTail(hasContentBody, props, tail).Some? then
      var (m, line) := InvalidTail(hasContentBody, props, tail).value;
      Failure(ErrMsg(ErrComp(chunk), m, line))
    else Success((props, tail))
  }

  /** The `tokenize_property_values` decorator: the rewritten map, or the hint as message. */
  function ValueStep(chunk: seq<string>, props: Dict<string>): (r: Result<Tokens, string>)
    requires |chunk| > 0
  {
    match TokenizeValues(props)
    case Failure(e) => Failure(ErrMsg(ErrComp(chunk), e, ""))
    case Success(t) => Success(t)
  }

  function ParaValue(p: Para): Value {
    match p
    case TextLines(ls) => Obj([("type", Str("text")), ("content", List(StrList(ls)))])
    case TextPara(c) => Obj([("type", Str("text")), ("content", Str(c))])
    case CodePara(c) => Obj([("type", Str("code")), ("content", Str(c))])
  }

  function ParaValues(ps: seq<Para>): (vs: seq<Value>)
    ensures |vs| == |ps| && forall i :: 0 <= i < |ps| ==> vs[i] == ParaValue(ps[i])
  {
    seq(|ps|, i requires 0 <= i < |ps| => ParaValue(ps[i]))
  }

  /** `tokenize_component_meta`: the property map, unchanged; no body is allowed. */
  function MetaTokens(chunk: seq<string>): Result<Tokens, string>
    requires |chunk| > 0
  {
    var pt :- PropertyStep(false, chunk);
    Success(Lift(pt.0))
  }

  /** `tokenize_component_introduction`: `{"content": ..., **props}`. */
  function IntroductionTokens(chunk: seq<string>): Result<Tokens, string>
    requires |chunk| > 0
  {
    var pt :- PropertyStep(true, chunk);
    var psc :- ValueStep(chunk, pt.0);
    Success(Update([("content", Str(IntroContent(pt.1)))], psc))
  }

  /** `tokenize_component_chapter`: `{**props, "paragraphs": paragraphs}`. */
  function ChapterTokens(chunk: seq<string>): Result<Tokens, string>
    requires |chunk| > 0
  {
    var pt :- PropertyStep(true, chunk);
    var psc :- ValueStep(chunk, pt.0);
    Success(Put(psc, "paragraphs", List(ParaValues(ChapterParagraphs(pt.1)))))
  }

  /** The property step of the decorator, run with the property loop. */
  method TokenizeProperties(hasContentBody: bool, chunk: seq<string>) returns (r: Result<(Dict<string>, seq<string>), string>)
    requires |chunk| > 0
    ensures r == PropertyStep(hasContentBody, chunk)
  {
    var props, tail := TokenizeComponentProperties(chunk);
    if |tail| > 0 {
      var invalid := InvalidTail(hasContentBody, props, tail);
      if invalid.Some? {
        return Failure(ErrMsg(ErrComp(chunk), invalid.value.0, invalid.value.1));
      }
    }
    return Success((props, tail));
  }

  /** `tokenize_component_meta`, behind its decorator. */
  method TokenizeComponentMeta(chunk: seq<string>) returns (r: Result<Tokens, string>)
    requires |chunk| > 0
    ensures r == MetaTokens(chunk)
  {
    var pt := TokenizeProperties(false, chunk);
    if pt.Failure? {
      return Failure(pt.error);
    }
    return Success(Lift(pt.value.0));
  }

  /** `tokenize_component_introduction`, behind its decorators. */
  method TokenizeComponentIntroduction(chunk: seq<string>) returns (r: Result<Tokens, string>)
    requires |chunk| > 0
    ensures r == IntroductionTokens(chunk)
  {
    var pt := TokenizeProperties(true, chunk);
    if pt.Failure? {
      return Failure(pt.error);
    }
    var psc := TokenizePropertyValues(pt.value.0);
    if psc.Failure? {
      return Failure(ErrMsg(ErrComp(chunk), psc.error, ""));
    }
    return Success(Update([("content", Str(IntroContent(pt.value.1)))], psc.value));
  }

  /** `tokenize_component_chapter`, behind its decorators. */
  method TokenizeComponentChapter(chunk: seq<string>) returns (r: Result<Tokens, string>)
    requires |chunk| > 0
    ensures r == ChapterTokens(chunk)
  {
    var pt := TokenizeProperties(true, chunk);
    if pt.Failure? {
      return Failure(pt.error);
    }
    var psc := TokenizePropertyValues(pt.value.0);
    if psc.Failure? {
      return Failure(ErrMsg(ErrComp(chunk), psc.error, ""));
    }
    var paragraphs := TokenizeChapterBody(pt.value.1);
    return Success(Put(psc.value, "paragraphs", List(ParaValues(paragraphs))));
  }
}
